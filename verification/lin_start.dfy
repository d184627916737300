/** LIN runs from the start that are not allowed: the ring that is not seen to be full, the rejected
    frame that is sent, and the response that is longer than its slot. */
module LinStart {
  import opened Words
  import opened FrameRings
  import opened FrameStores
  import opened LinSchedule
  import opened LinFrames
  import opened LinDevice
  import opened LinRings

  /** The state after all events. */
  function After(s: Lin, events: seq<Event>): Lin {
    StateAt(s, events, |events|)
  }

  lemma {:induction false} StateOfPrefix(s: Lin, a: seq<Event>, b: seq<Event>, n: nat)
    requires n <= |a| && a <= b
    ensures StateAt(s, a, n) == StateAt(s, b, n)
  {
    if n > 0 {
      StateOfPrefix(s, a, b, n - 1);
    }
  }

  lemma AfterOneMore(s: Lin, events: seq<Event>, e: Event)
    ensures After(s, events + [e]) == Step(After(s, events), e)
  {
    StateOfPrefix(s, events, events + [e], |events|);
  }

  lemma AfterTwoMore(s: Lin, events: seq<Event>, e: Event, f: Event)
    ensures After(s, events + [e, f]) == Step(Step(After(s, events), e), f)
  {
    AfterOneMore(s, events, e);
    AfterOneMore(s, events + [e], f);
    assert events + [e, f] == events + [e] + [f];
  }

  lemma {:induction false} AfterConcat(s: Lin, a: seq<Event>, b: seq<Event>)
    ensures After(s, a + b) == After(After(s, a), b)
    decreases |b|
  {
    hide Step;
    if b == [] {
      assert a + b == a;
    } else {
      var c, e := b[..|b| - 1], b[|b| - 1];
      AfterConcat(s, a, c);
      AfterOneMore(s, a + c, e);
      AfterOneMore(After(s, a), c, e);
      assert a + b == a + c + [e] && b == c + [e];
    }
  }

  /** A header with identifier byte `id` and its response. */
  function Pair(ch: Channel, id: byte, bytes: seq<byte>): seq<Event> {
    [Interrupt(ch, Some(id), None), Interrupt(ch, None, Some(bytes))]
  }

  function FullData(bytes: seq<byte>): Data {
    seq(MAX_LENGTH, k requires 0 <= k < MAX_LENGTH => ByteAt(bytes, k))
  }

  /** The frame that a slave without a schedule makes of it. */
  function PairFrame(ch: Channel, id: byte, bytes: seq<byte>): Frame {
    Frame(ch, Identifier(id), DIR_SLAVE_RECEIVE, MAX_LENGTH, FullData(bytes))
  }

  /** A slave channel without a schedule, with nothing pending. */
  predicate Listening(s: Lin, ch: Channel) {
    s.ports[ch].slave && !s.ports[ch].scheduled && !s.ports[ch].headerPending
  }

  lemma PairSteps(s: Lin, ch: Channel, id: byte, bytes: seq<byte>)
    requires Listening(s, ch) && !s.store.rings[ch].IsFull()
    ensures var p, e := s.ports[ch], Pair(ch, id, bytes);
            Step(Step(s, e[0]), e[1])
            == Lin(s.ports[ch := Port(true, false, Identifier(id), false, MAX_LENGTH, p.counter + 1)],
                   s.store.Commit(ch, PairFrame(ch, id, bytes)), s.table)
  {
    hide Spilled, Identifier, Store.Commit, Ring.IsFull;
    var e := Pair(ch, id, bytes);
    var t := Step(s, e[0]);
    ShortFits(t.store, ch, bytes, MAX_LENGTH);
    assert DataAfter(s.store.rings[ch].Acquire().slots[s.store.rings[ch].Acquire().writeIndex].data, bytes, MAX_LENGTH)
        == FullData(bytes);
  }

  /** A header and a response, while the queue is not full. */
  lemma PairReceived(s: Lin, q: ChannelQueues, ch: Channel, id: byte, bytes: seq<byte>)
    requires Listening(s, ch) && Refines(s, q) && |q[ch]| < CAPACITY
    ensures var e := Pair(ch, id, bytes);
            var t := Step(Step(s, e[0]), e[1]);
            && Listening(t, ch) && t.ports[ch].counter == s.ports[ch].counter + 1 && t.table == s.table
            && Refines(t, q[ch := q[ch] + [PairFrame(ch, id, bytes)]])
            && t.store.rings[ch] == s.store.rings[ch].Put(PairFrame(ch, id, bytes))
  {
    StatusMeaning(s.store.rings[ch], q[ch]);
    CommitRepresents(s.store, s.store, q, STORE_FRAMES, ch, PairFrame(ch, id, bytes));
    hide Step, Represents, Ring.Put, PairFrame;
    PairSteps(s, ch, id, bytes);
  }

  /** `n` headers and responses. */
  function Pairs(ch: Channel, id: byte, bytes: seq<byte>, n: nat): seq<Event> {
    if n == 0 then [] else Pairs(ch, id, bytes, n - 1) + Pair(ch, id, bytes)
  }

  /** A channel is made a slave without a schedule, and receives `n` frames; a drain call follows each
      of them. */
  function Rounds(ch: Channel, id: byte, bytes: seq<byte>, n: nat): seq<Event> {
    if n == 0 then [Configure(ch, true, false)]
    else Rounds(ch, id, bytes, n - 1) + Pair(ch, id, bytes) + [Drain]
  }

  lemma ConfiguredFirst(s: Lin, ch: Channel)
    requires Initial(s)
    ensures var t := After(s, [Configure(ch, true, false)]);
            Listening(t, ch) && t.store == s.store && t.table == [] && t.ports[ch].counter == 0
  {
    AfterOneMore(s, [], Configure(ch, true, false));
    assert [] + [Configure(ch, true, false)] == [Configure(ch, true, false)];
  }

  /** Without drain calls the ring fills up, and its read index stays. */
  lemma {:induction false} Filled(s: Lin, ch: Channel, id: byte, bytes: seq<byte>, n: nat)
    requires Listening(s, ch) && Refines(s, seq(CHANNELS, _ => [])) && n <= CAPACITY
    ensures var t := After(s, Pairs(ch, id, bytes, n));
            && Listening(t, ch) && t.ports[ch].counter == s.ports[ch].counter + n && t.table == s.table
            && t.store.rings[ch].readIndex == s.store.rings[ch].readIndex
            && t.store.rings[ch].readMirror == s.store.rings[ch].readMirror
            && Refines(t, seq(CHANNELS, _ => [])[ch := seq(n, _ => PairFrame(ch, id, bytes))])
  {
    hide Step, Represents, PairFrame, Listening;
    var none: ChannelQueues := seq(CHANNELS, _ => []);
    if n == 0 {
      assert seq(0, _ => PairFrame(ch, id, bytes)) == none[ch];
      assert none[ch := none[ch]] == none;
    } else {
      var events, e := Pairs(ch, id, bytes, n - 1), Pair(ch, id, bytes);
      var f := PairFrame(ch, id, bytes);
      var q: ChannelQueues := none[ch := seq(n - 1, _ => f)];
      Filled(s, ch, id, bytes, n - 1);
      AfterTwoMore(s, events, e[0], e[1]);
      assert Pairs(ch, id, bytes, n) == events + [e[0], e[1]];
      PairReceived(After(s, events), q, ch, id, bytes);
      assert seq(n, _ => f) == q[ch] + [f];
      assert q[ch := q[ch] + [f]] == none[ch := seq(n, _ => f)];
    }
  }

  /** With 39 frames received and none read, the next frame is counted, and takes the place of the
      oldest one at the front. */
  lemma OldestLost(s: Lin, ch: Channel, id: byte, bytes: seq<byte>, late: byte, lateBytes: seq<byte>)
    requires Initial(s)
    ensures var t := After(s, [Configure(ch, true, false)] + Pairs(ch, id, bytes, CAPACITY));
            var e := Pair(ch, late, lateBytes);
            var u := Step(Step(t, e[0]), e[1]);
            && !Allowed(Step(t, e[0]), e[1])
            && t.store.rings[ch].Front() == Some(PairFrame(ch, id, bytes))
            && u.store.rings[ch].Front() == Some(PairFrame(ch, late, lateBytes))
            && u.ports[ch].counter == 40
  {
    ConfiguredFirst(s, ch);
    AfterConcat(s, [Configure(ch, true, false)], Pairs(ch, id, bytes, CAPACITY));
    var c := After(s, [Configure(ch, true, false)]);
    var t := After(c, Pairs(ch, id, bytes, CAPACITY));
    var q: ChannelQueues := seq(CHANNELS, _ => [])[ch := seq(CAPACITY, _ => PairFrame(ch, id, bytes))];
    Filled(c, ch, id, bytes, CAPACITY);
    hide After, Pairs, PairFrame;
    StatusMeaning(t.store.rings[ch], q[ch]);
    TakeRefines(t.store.rings[ch], q[ch]);
    PutRefines(t.store.rings[ch], q[ch], PairFrame(ch, late, lateBytes));
    hide Step, Allowed;
    PairSteps(t, ch, late, lateBytes);
    NotAllowed(t, ch, late, lateBytes);
  }

  lemma NotAllowed(s: Lin, ch: Channel, id: byte, bytes: seq<byte>)
    requires Listening(s, ch) && s.store.rings[ch].FullUnseen() && !s.store.rings[ch].IsFull()
    ensures !Allowed(Step(s, Pair(ch, id, bytes)[0]), Pair(ch, id, bytes)[1])
  {
    hide Spares, SpilledBy, Identifier;
  }

  lemma NoneQueued(q: ChannelQueues, ch: Channel, f: Frame)
    requires q == seq(CHANNELS, _ => [])
    ensures Fronts(q[ch := [f]], CHANNELS) == q
  {
  }

  /** With a drain call after each frame, both indices advance together. */
  lemma {:induction false} ReadEach(s: Lin, ch: Channel, id: byte, bytes: seq<byte>, n: nat)
    requires Initial(s) && n < CAPACITY
    ensures var t := After(s, Rounds(ch, id, bytes, n));
            && Listening(t, ch) && t.table == [] && t.store.rings[ch].readIndex == n
            && Refines(t, seq(CHANNELS, _ => []))
  {
    hide Step, Represents, PairFrame;
    var none: ChannelQueues := seq(CHANNELS, _ => []);
    if n == 0 {
      ConfiguredFirst(s, ch);
    } else {
      var events, e := Rounds(ch, id, bytes, n - 1), Pair(ch, id, bytes);
      ReadEach(s, ch, id, bytes, n - 1);
      var t := After(s, events);
      AfterTwoMore(s, events, e[0], e[1]);
      AfterOneMore(s, events + [e[0], e[1]], Drain);
      assert Rounds(ch, id, bytes, n) == events + [e[0], e[1]] + [Drain];
      assert none[ch] + [PairFrame(ch, id, bytes)] == [PairFrame(ch, id, bytes)];
      RingHolds(t.store, none, STORE_FRAMES, ch);
      PairReceived(t, none, ch, id, bytes);
      DrainOnly(Step(Step(t, e[0]), e[1]), ch, t.store.rings[ch], PairFrame(ch, id, bytes));
    }
  }

  /** A drain call that finds one frame, in channel `ch`. */
  lemma DrainOnly(s: Lin, ch: Channel, ring: Ring<Frame>, f: Frame)
    requires Refines(s, seq(CHANNELS, _ => [])[ch := [f]]) && ring.Holds([])
    requires ring.readIndex < ring.Last() && s.store.rings[ch] == ring.Put(f)
    ensures var t := Step(s, Drain);
            && Refines(t, seq(CHANNELS, _ => [])) && t.ports == s.ports && t.table == s.table
            && t.store.rings[ch].readIndex == ring.readIndex + 1
  {
    var q: ChannelQueues := seq(CHANNELS, _ => []);
    NoneQueued(q, ch, f);
    assert s.store.bits[ch];
    DrainTakes(s.store, s.store.bits, CHANNELS, ch);
    hide Represents;
    DrainRepresents(s.store, q[ch := [f]], STORE_FRAMES);
  }

  /** A rejected frame that meets a pending wrap is sent after all: with one frame queued in
      front of it, the first drain call sends that frame and leaves the bit set, and the second
      one sends the frame that was never committed. */
  lemma RejectedFrameSent(s: Lin, q: ChannelQueues, ch: Channel, bytes: seq<byte>)
    requires Refines(s, q) && |q[ch]| == 1 && s.store.rings[ch].writeIndex == s.store.rings[ch].Last()
    requires s.ports[ch].slave && s.ports[ch].scheduled && s.ports[ch].headerPending
    requires EntriesFor(s.table, ch, s.ports[ch].pendingPid) == []
    ensures var e := Interrupt(ch, None, Some(bytes));
            var t := Step(s, e);
            var u := Step(t, Drain);
            && !Allowed(s, e) && CommittedBy(s, e) == None
            && t.store.Sends(ch) == Some(q[ch][0])
            && u.store.Sends(ch) == Some(ResponseFrame(s, ch, bytes))
  {
    FirstMatchIsOldest(s.table, ch, s.ports[ch].pendingPid);
    var ring, x := s.store.rings[ch], ResponseFrame(s, ch, bytes);
    SpilledShape(s.store, ch, bytes, s.ports[ch].rxLength);
    WrapPendingOne(ring, q[ch]);
    SpillElsewhere(s.store.rings, ch, 1, Behind(bytes, s.ports[ch].rxLength), ch, ring.readIndex);
    RejectedAtWrap(ring, SpilledBy(s, ch, bytes).rings[ch], q[ch], x);
    hide ResponseFrame, FirstMatch, EntriesFor, SpilledBy, Spares, Identifier;
    hide Ring.IsEmpty, Ring.IsFull, Ring.Front, Ring.Take, Ring.Discard, Ring.Holds, Ring.Acquire, Store.Drained;
    var t := Step(s, Interrupt(ch, None, Some(bytes)));
    assert t.store == SpilledBy(s, ch, bytes).Discard(ch, x);
    RingHolds(s.store, q, STORE_FRAMES, ch);
    RingDrained(t.store, ch);
  }

  lemma WrapPendingOne(ring: Ring<Frame>, q: seq<Frame>)
    requires ring.Holds(q) && |q| == 1 && ring.writeIndex == ring.Last() > 1
    ensures ring.readIndex == ring.Last() - 1 && !ring.IsFull() && ring.Acquire().writeIndex == 0
  {
  }

  /** The ring of that channel: its front stays, and behind it comes the frame that was not committed. */
  lemma RejectedAtWrap(ring: Ring<Frame>, spilled: Ring<Frame>, q: seq<Frame>, x: Frame)
    requires ring.Holds(q) && |q| == 1 && ring.writeIndex == ring.Last() > 1 && ring.SameIndices(spilled)
    requires spilled.slots[ring.readIndex] == ring.slots[ring.readIndex]
    ensures var d := spilled.Discard(x);
            && d.Front() == Some(q[0]) && !d.IsEmpty() && !d.Take().IsEmpty() && d.Take().Front() == Some(x)
  {
    assert ring.slots[ring.SlotOf(0)] == q[0];
  }

  /** What a drain call does to one channel. */
  lemma RingDrained(s: ChannelStore, ch: Channel)
    ensures s.bits[ch] ==> s.Drained().rings[ch] == s.rings[ch].Take()
    ensures s.bits[ch] && !s.rings[ch].Take().IsEmpty() ==> s.Drained().bits[ch]
  {
    DrainTakes(s, s.bits, CHANNELS, ch);
  }

  /** 38 frames received and read, one more received, then the channel is put into schedule mode
      and sees a header. */
  function RejectingRun(ch: Channel, id: byte, bytes: seq<byte>, unknown: byte): seq<Event> {
    Rounds(ch, id, bytes, CAPACITY - 1) + Pair(ch, id, bytes)
    + [Configure(ch, true, true), Interrupt(ch, Some(unknown), None)]
  }

  lemma ReadyToReject(s: Lin, ch: Channel, id: byte, bytes: seq<byte>, unknown: byte)
    requires Initial(s)
    ensures var t := After(s, RejectingRun(ch, id, bytes, unknown));
            var q: ChannelQueues := seq(CHANNELS, _ => [])[ch := [PairFrame(ch, id, bytes)]];
            && Refines(t, q) && t.store.rings[ch].writeIndex == t.store.rings[ch].Last() && t.table == []
            && t.ports[ch].slave && t.ports[ch].scheduled && t.ports[ch].headerPending
            && t.ports[ch].pendingPid == Identifier(unknown) && t.ports[ch].rxLength == MAX_LENGTH
  {
    hide Represents, PairFrame, Rounds, After, Initial;
    var none: ChannelQueues := seq(CHANNELS, _ => []);
    var events, e := Rounds(ch, id, bytes, CAPACITY - 1), Pair(ch, id, bytes);
    var more := [Configure(ch, true, true), Interrupt(ch, Some(unknown), None)];
    ReadEach(s, ch, id, bytes, CAPACITY - 1);
    var t := After(s, events);
    AfterTwoMore(s, events, e[0], e[1]);
    AfterTwoMore(s, events + [e[0], e[1]], more[0], more[1]);
    assert RejectingRun(ch, id, bytes, unknown) == events + [e[0], e[1]] + [more[0], more[1]];
    assert none[ch] + [PairFrame(ch, id, bytes)] == [PairFrame(ch, id, bytes)];
    PairReceived(t, none, ch, id, bytes);
    WrapPending(t, none, ch, PairFrame(ch, id, bytes));
    SwitchedToSchedule(Step(Step(t, e[0]), e[1]), ch, unknown);
  }

  lemma WrapPending(s: Lin, q: ChannelQueues, ch: Channel, f: Frame)
    requires Refines(s, q) && q[ch] == [] && s.store.rings[ch].readIndex == CAPACITY - 1
    ensures var ring := s.store.rings[ch].Put(f); ring.writeIndex == ring.Last()
  {
  }

  lemma SwitchedToSchedule(s: Lin, ch: Channel, id: byte)
    requires s.table == []
    ensures var t := Step(Step(s, Configure(ch, true, true)), Interrupt(ch, Some(id), None));
            && t.store == s.store && t.table == []
            && t.ports[ch] == Port(true, true, Identifier(id), true, MAX_LENGTH, s.ports[ch].counter)
  {
  }

  /** That happens in a run from the start: a response without an entry is rejected, and the second
      drain call after it sends it, with the identifier of its header. */
  lemma RejectedAfterStart(s: Lin, ch: Channel, id: byte, bytes: seq<byte>, unknown: byte, rejected: seq<byte>)
    requires Initial(s)
    ensures var s' := After(s, RejectingRun(ch, id, bytes, unknown));
            var e := Interrupt(ch, None, Some(rejected));
            var t := Step(s', e);
            var u := Step(t, Drain);
            && !Allowed(s', e) && CommittedBy(s', e) == None
            && t.store.Sends(ch) == Some(PairFrame(ch, id, bytes))
            && u.store.Sends(ch).Some? && u.store.Sends(ch).value.pid == Identifier(unknown)
            && u.store.Sends(ch).value.data == FullData(rejected)
            && (forall n :: 0 <= n <= 8 && n <= |rejected| ==> u.store.Sends(ch).value.data[..n] == rejected[..n])
  {
    hide Step, Represents, PairFrame, RejectingRun, After, Initial, Allowed, CommittedBy, Store.Sends, Identifier;
    ReadyToReject(s, ch, id, bytes, unknown);
    var s' := After(s, RejectingRun(ch, id, bytes, unknown));
    RejectedFrameSent(s', seq(CHANNELS, _ => [])[ch := [PairFrame(ch, id, bytes)]], ch, rejected);
    var ring := s'.store.rings[ch].Acquire();
    assert DataAfter(ring.slots[ring.writeIndex].data, rejected, MAX_LENGTH) == FullData(rejected);
    forall n | 0 <= n <= 8 && n <= |rejected| ensures FullData(rejected)[..n] == rejected[..n] {
      DataMeaning(ring.slots[ring.writeIndex].data, rejected, MAX_LENGTH, n);
    }
  }

  // ---- a response that is longer than its slot ----

  /** What such a response does when the oldest unread frame lies in the next slot: it is committed, and
      the oldest frame is written over. */
  lemma LongResponse(s: Lin, q: ChannelQueues, ch: Channel, bytes: seq<byte>)
    requires Refines(s, q) && q[ch] != [] && |q[ch]| < CAPACITY
    requires s.store.rings[ch].Acquire().writeIndex + 1 == s.store.rings[ch].readIndex < s.store.rings[ch].Last()
    requires s.ports[ch].headerPending && Wanted(s.ports[ch], s.table, ch) && s.ports[ch].rxLength > MAX_LENGTH
    ensures var e := Interrupt(ch, None, Some(bytes));
            var t := Step(s, e);
            && CommittedBy(s, e).Some? && s.store.Sends(ch) == Some(q[ch][0])
            && t.store.Sends(ch) == Some(Overwritten(q[ch][0], Behind(bytes, s.ports[ch].rxLength)))
            && (Allowed(s, e) ==> t.store.Sends(ch) == s.store.Sends(ch))
  {
    hide Wanted, Overwritten, Represents;
    var rest := Behind(bytes, s.ports[ch].rxLength);
    var ring := s.store.rings[ch];
    RingHolds(s.store, q, STORE_FRAMES, ch);
    StatusMeaning(ring, q[ch]);
    TakeRefines(ring, q[ch]);
    SpilledShape(s.store, ch, bytes, s.ports[ch].rxLength);
    SpillFirst(s.store.rings, ch, ring.readIndex, rest);
    assert ring.SlotOf(0) == ring.readIndex;
    LongCommit(ring, SpilledBy(s, ch, bytes).rings[ch], ResponseFrame(s, ch, bytes), q[ch]);
  }

  /** The ring of that channel: after the commit, the front is what the slot was written over with. */
  lemma LongCommit(ring: Ring<Frame>, spilled: Ring<Frame>, x: Frame, q: seq<Frame>)
    requires ring.Holds(q) && q != [] && |q| < ring.Last() && ring.SameIndices(spilled) && ring.readIndex < ring.Last()
    ensures spilled.Put(x).Front() == Some(spilled.slots[ring.readIndex])
    ensures ring.Front() == Some(ring.slots[ring.readIndex])
  {
    StatusMeaning(ring, q);
  }

  /** One frame received and read, 38 more received; then the channel is put into schedule mode, an entry
      is added, and its header seen. */
  function LongRun(ch: Channel, id: byte, bytes: seq<byte>, entry: Entry, announced: byte): seq<Event> {
    Rounds(ch, id, bytes, 1) + Pairs(ch, id, bytes, CAPACITY - 1)
    + [Configure(ch, true, true), AddEntry(ch, entry)] + [Interrupt(ch, Some(announced), None)]
  }

  lemma Announced(s: Lin, ch: Channel, entry: Entry, id: byte)
    requires s.table == [] && entry.channel == ch && entry.pid == Identifier(id) && entry.dir == DIR_SLAVE_RECEIVE
    ensures var t := Step(Step(Step(s, Configure(ch, true, true)), AddEntry(ch, entry)), Interrupt(ch, Some(id), None));
            && t.store == s.store && t.ports[ch].headerPending && t.ports[ch].rxLength == entry.dl
            && Wanted(t.ports[ch], t.table, ch)
  {
    assert [] + [entry] == [entry];
  }

  lemma ReadyForLong(s: Lin, ch: Channel, id: byte, bytes: seq<byte>, entry: Entry, announced: byte)
    requires Initial(s)
    requires entry.channel == ch && entry.pid == Identifier(announced) && entry.dir == DIR_SLAVE_RECEIVE
    ensures var t := After(s, LongRun(ch, id, bytes, entry, announced));
            var q: ChannelQueues := seq(CHANNELS, _ => [])[ch := seq(CAPACITY - 1, _ => PairFrame(ch, id, bytes))];
            && Refines(t, q) && t.store.rings[ch].readIndex == 1
            && t.ports[ch].headerPending && t.ports[ch].rxLength == entry.dl && Wanted(t.ports[ch], t.table, ch)
  {
    hide Represents, PairFrame, Rounds, Pairs, After, Initial, Step, Wanted, Identifier;
    var more := [Configure(ch, true, true), AddEntry(ch, entry)];
    var first, second := Rounds(ch, id, bytes, 1), Pairs(ch, id, bytes, CAPACITY - 1);
    ReadEach(s, ch, id, bytes, 1);
    Filled(After(s, first), ch, id, bytes, CAPACITY - 1);
    AfterConcat(s, first, second);
    AfterTwoMore(s, first + second, more[0], more[1]);
    AfterOneMore(s, first + second + more, Interrupt(ch, Some(announced), None));
    Announced(After(s, first + second), ch, entry, announced);
  }

  /** It happens in a run from the start, with any entry that announces more than eight bytes: the entry is
      accepted, its response is committed, and the front frame of the queue is written over with the rest
      of the response. The step is not allowed if that changes the channel of the frame. */
  lemma LongEntryReplaces(s: Lin, ch: Channel, id: byte, bytes: seq<byte>, entry: Entry, announced: byte,
                          long: seq<byte>)
    requires Initial(s) && entry.dl > MAX_LENGTH
    requires entry.channel == ch && entry.pid == Identifier(announced) && entry.dir == DIR_SLAVE_RECEIVE
    ensures var t := After(s, LongRun(ch, id, bytes, entry, announced));
            var e := Interrupt(ch, None, Some(long));
            && CommittedBy(t, e).Some? && t.store.Sends(ch) == Some(PairFrame(ch, id, bytes))
            && Step(t, e).store.Sends(ch) == Some(Overwritten(PairFrame(ch, id, bytes), Behind(long, entry.dl)))
            && (|long| > 8 && long[8] as int != ch ==> !Allowed(t, e))
            && (|long| >= entry.dl ==>
                  forall k :: 0 <= k < SLOT_BYTES && 8 + k < entry.dl ==>
                    SlotByte(Step(t, e).store.Sends(ch).value, k) == long[8 + k] as int)
  {
    hide After, LongRun, Initial, Step, Allowed, CommittedBy, Wanted, Store.Sends, Identifier;
    ReadyForLong(s, ch, id, bytes, entry, announced);
    var t := After(s, LongRun(ch, id, bytes, entry, announced));
    var q: ChannelQueues := seq(CHANNELS, _ => [])[ch := seq(CAPACITY - 1, _ => PairFrame(ch, id, bytes))];
    WrapToFirst(t, q, ch);
    LongResponse(t, q, ch, long);
    forall k | |long| >= entry.dl && 0 <= k < SLOT_BYTES && 8 + k < entry.dl
      ensures SlotByte(Overwritten(PairFrame(ch, id, bytes), Behind(long, entry.dl)), k) == long[8 + k] as int
    {
      OverwrittenMeaning(PairFrame(ch, id, bytes), Behind(long, entry.dl), k);
      BehindMeaning(long, entry.dl);
    }
  }

  lemma WrapToFirst(s: Lin, q: ChannelQueues, ch: Channel)
    requires Refines(s, q) && |q[ch]| == CAPACITY - 1 && s.store.rings[ch].readIndex == 1
    ensures s.store.rings[ch].Acquire().writeIndex == 0 && s.store.rings[ch].Last() == CAPACITY
  {
  }
}
