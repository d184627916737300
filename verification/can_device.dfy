/** The CAN receive path: one ring per channel filled by the receive handlers, a bitmap of the
    channels with frames, and the drain that builds one UDP payload. */
module CanDevice {
  import opened Words
  import opened FrameRings
  import opened FrameStores

  const CHANNELS: nat := 8
  const STORE_FRAMES: nat := 80

  const DATA_BYTES: nat := 64

  type Dlc = n: nat | n < 16

  /** The data bytes of a slot; what lies behind the length of a message is whatever is there. */
  type Data = s: seq<byte> | |s| == DATA_BYTES witness seq(DATA_BYTES, _ => 0)

  datatype Message = Message(id: word, mode: octet, dlc: Dlc, data: Data)

  datatype Frame = Frame(ch: octet, msg: Message)

  const BLANK_FRAME := Frame(0, Message(0, 0, 0, seq(DATA_BYTES, _ => 0)))

  const DLC_LENGTH: seq<nat> := [0, 1, 2, 3, 4, 5, 6, 7, 8, 12, 16, 20, 24, 32, 48, 64]

  /** One element of the UDP payload: the data is cut to the length that the code gives. */
  datatype UdpFrame = UdpFrame(ch: octet, fd: octet, dlc: Dlc, id: word, data: seq<byte>)

  function Pack(f: Frame): UdpFrame {
    UdpFrame(f.ch, f.msg.mode, f.msg.dlc, f.msg.id, f.msg.data[..DLC_LENGTH[f.msg.dlc]])
  }

  /** An element of the payload is that of a message received on a channel: its fields one by one, and its
      data, as long as the data length code says. */
  predicate Carries(u: UdpFrame, ch: nat, msg: Message) {
    && u.ch == ch && u.fd == msg.mode && u.dlc == msg.dlc && u.id == msg.id
    && |u.data| <= DATA_BYTES && u.data == msg.data[..|u.data|]
    && (msg.dlc <= 8 ==> |u.data| == msg.dlc)
    && (msg.dlc == 9 ==> |u.data| == 12) && (msg.dlc == 10 ==> |u.data| == 16)
    && (msg.dlc == 11 ==> |u.data| == 20) && (msg.dlc == 12 ==> |u.data| == 24)
    && (msg.dlc == 13 ==> |u.data| == 32) && (msg.dlc == 14 ==> |u.data| == 48)
    && (msg.dlc == 15 ==> |u.data| == 64)
  }

  lemma PackCarries(f: Frame)
    ensures Carries(Pack(f), f.ch, f.msg)
  {
  }

  // ---- the state and its steps ----

  type Channel = c: nat | c < CHANNELS

  type Bits = s: seq<bool> | |s| == CHANNELS witness seq(CHANNELS, _ => false)
  type Counters = s: seq<nat> | |s| == CHANNELS witness seq(CHANNELS, _ => 0)
  type ChannelStore = s: Store<Frame> | s.Valid() && |s.rings| == CHANNELS
    witness Store(seq(CHANNELS, _ => Ring([BLANK_FRAME, BLANK_FRAME], 0, false, 0, false)),
                  seq(CHANNELS, _ => false), 0)

  /** A payload element for each channel that had a frame. */
  type Payload = s: seq<Option<UdpFrame>> | |s| == CHANNELS witness seq(CHANNELS, _ => None)

  datatype Can = Can(store: ChannelStore, counter: Counters, drop: Counters)

  datatype Event = Rx(ch: Channel, msg: Message) | Drain

  /** One receive handler run, for a message read from the hardware FIFO. */
  function Receive(s: Can, ch: Channel, msg: Message): Can {
    if s.store.rings[ch].IsFull() then Can(s.store, s.counter, s.drop[ch := s.drop[ch] + 1])
    else Can(s.store.Commit(ch, Frame(ch, msg)), s.counter[ch := s.counter[ch] + 1], s.drop)
  }

  function Step(s: Can, e: Event): Can {
    match e
    case Rx(ch, msg) => Receive(s, ch, msg)
    case Drain => Can(s.store.Drained(), s.counter, s.drop)
  }

  function Run(s: Can, events: seq<Event>): Can
    decreases |events|
  {
    if events == [] then s else Run(Step(s, events[0]), events[1..])
  }

  /** What a drain call puts into the payload for channel `ch`. */
  function PayloadFor(s: Can, ch: Channel): Option<UdpFrame> {
    match s.store.Sends(ch) case None => None case Some(f) => Some(Pack(f))
  }

  // ---- the queues that the rings stand for ----

  type ChannelQueues = s: seq<seq<Frame>> | |s| == CHANNELS witness seq(CHANNELS, _ => [])

  datatype Queues = Queues(q: ChannelQueues, counter: Counters, drop: Counters, sent: nat)

  const CAPACITY: nat := STORE_FRAMES - 1

  function QReceive(a: Queues, ch: Channel, msg: Message): Queues {
    if |a.q[ch]| < CAPACITY
    then Queues(a.q[ch := a.q[ch] + [Frame(ch, msg)]], a.counter[ch := a.counter[ch] + 1], a.drop, a.sent)
    else Queues(a.q, a.counter, a.drop[ch := a.drop[ch] + 1], a.sent)
  }

  /** A drain takes the first frame of every queue that has one. */
  function QStep(a: Queues, e: Event): Queues {
    match e
    case Rx(ch, msg) => QReceive(a, ch, msg)
    case Drain => Queues(Fronts(a.q, CHANNELS), a.counter, a.drop, a.sent + Heads(a.q, CHANNELS))
  }

  function QRun(a: Queues, events: seq<Event>): Queues
    decreases |events|
  {
    if events == [] then a else QRun(QStep(a, events[0]), events[1..])
  }

  function QPayloadFor(a: Queues, ch: Channel): Option<UdpFrame> {
    if a.q[ch] == [] then None else Some(Pack(a.q[ch][0]))
  }

  /** Each ring holds its queue, and a bitmap bit is set exactly when that queue has frames. */
  ghost predicate Refines(s: Can, a: Queues) {
    Represents(s.store, a.q, STORE_FRAMES) && s.counter == a.counter && s.drop == a.drop && s.store.sent == a.sent
  }

  /** The frames in the ring of a channel, the next one to be sent first. */
  function Waiting(s: Can, ch: Channel): seq<Frame> {
    s.store.rings[ch].Contents()
  }

  function QueuesOf(s: Can): Queues {
    Queues(Contents(s.store), s.counter, s.drop, s.store.sent)
  }

  /** The rings are rings of 80 slots that hold queues, and the bitmap fits them. */
  ghost predicate Sound(s: Can) {
    Refines(s, QueuesOf(s))
  }

  lemma RefinedIsSound(s: Can, a: Queues)
    requires Refines(s, a)
    ensures Sound(s) && a == QueuesOf(s)
  {
    RepresentedIsContents(s.store, a.q, STORE_FRAMES);
  }

  /** A handler may run unless its ring is full and nothing was ever read from it. */
  predicate Allowed(s: Can, e: Event) {
    e.Rx? ==> !s.store.rings[e.ch].FullUnseen()
  }

  predicate AllowedRun(s: Can, events: seq<Event>)
    decreases |events|
  {
    events == [] || (Allowed(s, events[0]) && AllowedRun(Step(s, events[0]), events[1..]))
  }

  lemma ReceiveRefines(s: Can, a: Queues, ch: Channel, msg: Message)
    requires Refines(s, a)
    ensures Refines(Receive(s, ch, msg), QReceive(a, ch, msg)) <==> !s.store.rings[ch].FullUnseen()
  {
    StatusMeaning(s.store.rings[ch], a.q[ch]);
    if !s.store.rings[ch].IsFull() {
      CommitRepresents(s.store, s.store, a.q, STORE_FRAMES, ch, Frame(ch, msg));
    }
  }

  /** One step of the rings is one step of the queues, exactly when the step is allowed. */
  lemma StepExact(s: Can, a: Queues, e: Event)
    requires Refines(s, a)
    ensures Refines(Step(s, e), QStep(a, e)) <==> Allowed(s, e)
    ensures forall c: Channel :: PayloadFor(s, c) == QPayloadFor(a, c)
  {
    hide Represents, Receive, QReceive, Store.Sends, Store.Drained, Fronts, Heads, Pack;
    assert Represents(s.store, a.q, STORE_FRAMES);
    forall c: Channel ensures PayloadFor(s, c) == QPayloadFor(a, c) {
      SendsFront(s.store, a.q, STORE_FRAMES, c);
    }
    match e
    case Rx(ch, msg) => ReceiveRefines(s, a, ch, msg);
    case Drain => DrainRepresents(s.store, a.q, STORE_FRAMES);
  }

  /** Over every run of handlers and drains in which each handler is allowed, the rings are
      the queues, the bitmap shows which queues have frames, and the payloads agree. */
  lemma {:induction false} RunRefines(s: Can, a: Queues, events: seq<Event>)
    requires Refines(s, a) && AllowedRun(s, events)
    ensures Refines(Run(s, events), QRun(a, events))
    ensures forall c: Channel :: PayloadFor(Run(s, events), c) == QPayloadFor(QRun(a, events), c)
    decreases |events|
  {
    hide Refines, Step, QStep, PayloadFor, QPayloadFor, Allowed;
    if events == [] {
      StepExact(s, a, Drain);
    } else {
      StepExact(s, a, events[0]);
      RunRefines(Step(s, events[0]), QStep(a, events[0]), events[1..]);
    }
  }

  // ---- which runs are allowed ----

  /** From the events alone: with `n` frames waiting in a ring that was never read, no message
      arrives on `ch` while 79 wait, up to the first drain call that finds a frame. */
  predicate FitsUnread(events: seq<Event>, ch: Channel, n: nat)
    decreases |events|
  {
    events == [] ||
    match events[0]
    case Rx(c, _) =>
      if c == ch then n < 79 && FitsUnread(events[1..], ch, n + 1) else FitsUnread(events[1..], ch, n)
    case Drain => n > 0 || FitsUnread(events[1..], ch, 0)
  }

  /** The channel was read before, or its messages fit. */
  predicate Fits(s: Can, events: seq<Event>, ch: Channel) {
    s.store.rings[ch].readIndex > 0 || FitsUnread(events, ch, s.store.rings[ch].writeIndex)
  }

  lemma FitsStep(s: Can, a: Queues, events: seq<Event>, ch: Channel)
    requires Refines(s, a) && events != [] && Allowed(s, events[0])
    ensures Fits(s, events, ch) <==> Fits(Step(s, events[0]), events[1..], ch)
  {
    StatusMeaning(s.store.rings[ch], a.q[ch]);
    match events[0]
    case Rx(c, msg) =>
    case Drain => DrainTakes(s.store, s.store.bits, CHANNELS, ch);
  }

  lemma TooMany(s: Can, a: Queues, events: seq<Event>)
    requires Refines(s, a) && events != [] && !Allowed(s, events[0])
    ensures !Fits(s, events, events[0].ch)
  {
  }

  /** A run is allowed exactly when each channel was read before it or gets no message too many,
      which the events alone decide. */
  lemma {:induction false} AllowedExactly(s: Can, a: Queues, events: seq<Event>)
    requires Refines(s, a)
    ensures AllowedRun(s, events) <==> forall ch: Channel :: Fits(s, events, ch)
    decreases |events|
  {
    hide Step, QStep, Refines;
    if events != [] {
      if Allowed(s, events[0]) {
        StepExact(s, a, events[0]);
        AllowedExactly(Step(s, events[0]), QStep(a, events[0]), events[1..]);
        forall ch: Channel ensures Fits(s, events, ch) <==> Fits(Step(s, events[0]), events[1..], ch) {
          FitsStep(s, a, events, ch);
        }
      } else {
        TooMany(s, a, events);
      }
    }
  }

  // ---- order and depth ----

  function Drains(events: seq<Event>): nat
    decreases |events|
  {
    if events == [] then 0 else (if events[0].Drain? then 1 else 0) + Drains(events[1..])
  }

  lemma {:induction false} QueuedMovesUp(a: Queues, events: seq<Event>, ch: Channel, k: nat)
    requires k < |a.q[ch]| && Drains(events) <= k
    ensures var b := QRun(a, events);
            k - Drains(events) < |b.q[ch]| && b.q[ch][k - Drains(events)] == a.q[ch][k]
    decreases |events|
  {
    if events != [] {
      match events[0]
      case Rx(c, msg) => QueuedMovesUp(QStep(a, events[0]), events[1..], ch, k);
      case Drain => QueuedMovesUp(QStep(a, events[0]), events[1..], ch, k - 1);
    }
  }

  /** A frame at depth `k` of its ring moves up by one with every drain call, and the call after
      `k` of them sends it, whatever arrives in between. */
  lemma FrameLeaves(s: Can, events: seq<Event>, ch: Channel, k: nat)
    requires Sound(s) && AllowedRun(s, events)
    requires k < |Waiting(s, ch)| && Drains(events) <= k
    ensures var t := Run(s, events);
            && k - Drains(events) < |Waiting(t, ch)| && Waiting(t, ch)[k - Drains(events)] == Waiting(s, ch)[k]
            && (Drains(events) == k ==> PayloadFor(t, ch) == Some(Pack(Waiting(s, ch)[k])))
  {
    var a := QueuesOf(s);
    RunRefines(s, a, events);
    QueuedMovesUp(a, events, ch, k);
    hide Refines;
    RefinedIsSound(Run(s, events), QRun(a, events));
  }

  /** A message that is received while `k` frames wait on its channel is in the payload of the (k+1)-th
      drain call after it, as it was received, whatever arrives in between. */
  lemma MessageLeaves(s: Can, ch: Channel, msg: Message, events: seq<Event>)
    requires Sound(s) && AllowedRun(s, [Rx(ch, msg)] + events)
    requires |Waiting(s, ch)| < 79 && Drains(events) == |Waiting(s, ch)|
    ensures var u := PayloadFor(Run(Step(s, Rx(ch, msg)), events), ch); u.Some? && Carries(u.value, ch, msg)
  {
    var a, e := QueuesOf(s), Rx(ch, msg);
    assert ([e] + events)[0] == e && ([e] + events)[1..] == events;
    StepExact(s, a, e);
    RefinedIsSound(Step(s, e), QStep(a, e));
    assert a.q[ch] == Waiting(s, ch);
    Queued(a, ch, msg);
    hide Pack, Carries, Step, QStep, PayloadFor, Allowed, Refines;
    FrameLeaves(Step(s, e), events, ch, |a.q[ch]|);
    PackCarries(Frame(ch, msg));
  }

  lemma Queued(a: Queues, ch: Channel, msg: Message)
    requires |a.q[ch]| < CAPACITY
    ensures QStep(a, Rx(ch, msg)).q[ch] == a.q[ch] + [Frame(ch, msg)]
  {
  }

  /** The frame that channel `ch` accepts in one step, if any. */
  function AcceptedNow(s: Can, e: Event, ch: Channel): seq<Frame> {
    if e.Rx? && e.ch == ch && !s.store.rings[ch].IsFull() then [Frame(ch, e.msg)] else []
  }

  /** The frame that a step sends for channel `ch`, if any. */
  function DeliveredNow(s: Can, e: Event, ch: Channel): seq<Frame> {
    if e.Drain? && s.store.Sends(ch).Some? then [s.store.Sends(ch).value] else []
  }

  function Accepted(s: Can, events: seq<Event>, ch: Channel): seq<Frame>
    decreases |events|
  {
    if events == [] then []
    else AcceptedNow(s, events[0], ch) + Accepted(Step(s, events[0]), events[1..], ch)
  }

  function Delivered(s: Can, events: seq<Event>, ch: Channel): seq<Frame>
    decreases |events|
  {
    if events == [] then []
    else DeliveredNow(s, events[0], ch) + Delivered(Step(s, events[0]), events[1..], ch)
  }

  /** First in, first out: what was waiting and accepted is what was sent and is still waiting,
      in the same order, nothing twice and nothing lost. */
  lemma {:induction false} FifoOrder(s: Can, events: seq<Event>, ch: Channel)
    requires Sound(s) && AllowedRun(s, events)
    ensures Waiting(s, ch) + Accepted(s, events, ch) == Delivered(s, events, ch) + Waiting(Run(s, events), ch)
    decreases |events|
  {
    hide Sound, Step, Waiting, AcceptedNow, DeliveredNow, Allowed;
    if events != [] {
      var e, t := events[0], Step(s, events[0]);
      FifoStep(s, e, ch);
      FifoOrder(t, events[1..], ch);
      Regroup(Waiting(s, ch), AcceptedNow(s, e, ch), Accepted(t, events[1..], ch), Waiting(t, ch),
              DeliveredNow(s, e, ch), Delivered(t, events[1..], ch), Waiting(Run(t, events[1..]), ch));
    }
  }

  lemma Regroup<T>(p: seq<T>, x: seq<T>, rest: seq<T>, q: seq<T>, y: seq<T>, out: seq<T>, end: seq<T>)
    requires p + x == y + q && q + rest == out + end
    ensures p + (x + rest) == (y + out) + end
  {
    assert p + (x + rest) == (p + x) + rest;
    assert (y + q) + rest == y + (q + rest);
    assert y + (out + end) == (y + out) + end;
  }

  lemma FifoStep(s: Can, e: Event, ch: Channel)
    requires Sound(s) && Allowed(s, e)
    ensures Sound(Step(s, e))
    ensures Waiting(s, ch) + AcceptedNow(s, e, ch) == DeliveredNow(s, e, ch) + Waiting(Step(s, e), ch)
  {
    hide Refines, Allowed, Step, QStep, AcceptedNow, DeliveredNow;
    var a := QueuesOf(s);
    StepExact(s, a, e);
    RefinedIsSound(Step(s, e), QStep(a, e));
    FifoQueue(s, a, e, ch);
  }

  lemma FifoQueue(s: Can, a: Queues, e: Event, ch: Channel)
    requires Refines(s, a) && Allowed(s, e)
    ensures a.q[ch] + AcceptedNow(s, e, ch) == DeliveredNow(s, e, ch) + QStep(a, e).q[ch]
  {
    SendsFront(s.store, a.q, STORE_FRAMES, ch);
    StatusMeaning(s.store.rings[ch], a.q[ch]);
  }

  // ---- conservation ----

  /** Frames counted by the handlers are frames sent plus frames waiting. */
  predicate Balanced(a: Queues) {
    Sum(a.counter) == a.sent + Sum(Lengths(a.q))
  }

  lemma {:induction false} RunBalanced(a: Queues, events: seq<Event>)
    requires Balanced(a)
    ensures Balanced(QRun(a, events))
    decreases |events|
  {
    hide Sum, Lengths, Fronts, Heads;
    if events != [] {
      match events[0] {
        case Rx(ch, msg) =>
          AppendSum(a.q, ch, Frame(ch, msg));
          SumUpdate(a.counter, ch, a.counter[ch] + 1);
        case Drain => HeadsSum(a.q, CHANNELS);
      }
      RunBalanced(QStep(a, events[0]), events[1..]);
    }
  }

  /** Messages read from the hardware FIFO of a channel. */
  function Received(events: seq<Event>, ch: Channel): nat
    decreases |events|
  {
    if events == [] then 0
    else (if events[0].Rx? && events[0].ch == ch then 1 else 0) + Received(events[1..], ch)
  }

  /** Per channel, counted plus dropped is received, in every run, allowed or not. */
  lemma {:induction false} CountedOrDropped(s: Can, events: seq<Event>, ch: Channel)
    ensures var t := Run(s, events);
            t.counter[ch] + t.drop[ch] == s.counter[ch] + s.drop[ch] + Received(events, ch)
    decreases |events|
  {
    if events != [] {
      CountedOrDropped(Step(s, events[0]), events[1..], ch);
    }
  }

  /** Nothing received, nothing read. */
  ghost predicate Initial(s: Can) {
    && Sound(s)
    && (forall c: Channel :: Waiting(s, c) == [] && s.store.rings[c].readIndex == 0)
    && s.counter == s.drop == seq(CHANNELS, _ => 0) && s.store.sent == 0
  }

  /** Frame conservation: after any allowed run from the start, the frames counted over all
      channels are the frames sent plus the frames in the rings. */
  lemma FrameConservation(s: Can, events: seq<Event>)
    requires Initial(s) && AllowedRun(s, events)
    ensures var t := Run(s, events); Sum(t.counter) == t.store.sent + Sum(Lengths(Contents(t.store)))
  {
    var a := QueuesOf(s);
    assert forall c: Channel :: a.q[c] == Waiting(s, c);
    SumZeros(a.counter);
    SumZeros(Lengths(a.q));
    RunBalanced(a, events);
    RunRefines(s, a, events);
    RefinedIsSound(Run(s, events), QRun(a, events));
  }

  // ---- the state that the full test misses ----

  /** Messages that arrive on one channel, with no drain call in between. */
  function Arrivals(ch: Channel, msgs: seq<Message>): seq<Event> {
    if msgs == [] then [] else [Rx(ch, msgs[0])] + Arrivals(ch, msgs[1..])
  }

  lemma {:induction false} FilledUnread(s: Can, a: Queues, ch: Channel, msgs: seq<Message>)
    requires Refines(s, a) && s.store.rings[ch].readIndex == 0 && |a.q[ch]| + |msgs| <= CAPACITY
    ensures var t, b := Run(s, Arrivals(ch, msgs)), QRun(a, Arrivals(ch, msgs));
            && Refines(t, b) && t.store.rings[ch].readIndex == 0 && t.drop == s.drop
            && |b.q[ch]| == |a.q[ch]| + |msgs| && a.q[ch] <= b.q[ch]
            && t.counter[ch] == s.counter[ch] + |msgs|
            && (a.q[ch] == [] && msgs != [] ==> b.q[ch][0] == Frame(ch, msgs[0]))
    decreases |msgs|
  {
    if msgs != [] {
      var e := Rx(ch, msgs[0]);
      StatusMeaning(s.store.rings[ch], a.q[ch]);
      StepExact(s, a, e);
      assert Step(s, e).store.rings[ch].readIndex == 0;
      FilledUnread(Step(s, e), QStep(a, e), ch, msgs[1..]);
      assert Arrivals(ch, msgs)[1..] == Arrivals(ch, msgs[1..]);
    }
  }

  /** The state that `Allowed` excludes is reached by 79 messages on one channel before its first
      drain: the next message is counted and not dropped, and takes the place of the oldest
      frame at the front. */
  lemma OldestLost(s: Can, ch: Channel, msgs: seq<Message>, late: Message)
    requires Initial(s) && |msgs| == 79
    ensures var t := Run(s, Arrivals(ch, msgs));
            var u := Step(t, Rx(ch, late));
            && !Allowed(t, Rx(ch, late))
            && t.store.rings[ch].Front() == Some(Frame(ch, msgs[0]))
            && u.store.rings[ch].Front() == Some(Frame(ch, late))
            && u.counter[ch] == 80 && u.drop[ch] == 0
  {
    var a := QueuesOf(s);
    var t, b := Run(s, Arrivals(ch, msgs)), QRun(a, Arrivals(ch, msgs));
    assert a.q[ch] == Waiting(s, ch);
    FilledUnread(s, a, ch, msgs);
    StatusMeaning(t.store.rings[ch], b.q[ch]);
    TakeRefines(t.store.rings[ch], b.q[ch]);
    PutRefines(t.store.rings[ch], b.q[ch], Frame(ch, late));
  }
}
