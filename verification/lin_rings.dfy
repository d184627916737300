/** The LIN rings as queues: which steps and which runs keep them, what is conserved, and what is sent
    when. */
module LinRings {
  import opened Words
  import opened FrameRings
  import opened FrameStores
  import opened LinSchedule
  import opened LinFrames
  import opened LinDevice

  type ChannelQueues = s: seq<seq<Frame>> | |s| == CHANNELS witness seq(CHANNELS, _ => [])

  const CAPACITY: nat := STORE_FRAMES - 1

  /** Each ring holds its queue, and the bitmap shows which queues have frames. */
  ghost predicate Refines(s: Lin, q: ChannelQueues) {
    Represents(s.store, q, STORE_FRAMES)
  }

  /** A response does what it should to the rings when the bytes that do not fit its slot spare the
      unread frames; when it is committed, its ring is not full and unseen; and when it is not, no wrap
      was pending. */
  ghost predicate ResponseFits(s: Lin, ch: Channel, response: Option<seq<byte>>) {
    var ring := s.store.rings[ch];
    response.Some? && s.ports[ch].headerPending && !ring.IsFull() ==>
      && Spares(s.store, SpilledBy(s, ch, response.value))
      && if Wanted(s.ports[ch], s.table, ch) then !ring.FullUnseen() else ring.writeIndex < ring.Last()
  }

  ghost predicate Allowed(s: Lin, e: Event) {
    e.Interrupt? ==> ResponseFits(AfterHeader(s, e), e.ch, Seen(s, e))
  }

  /** The queues of a step: a committed frame is appended, a drain takes every front. */
  function QueuesAfter(s: Lin, q: ChannelQueues, e: Event): ChannelQueues {
    match e
    case Interrupt(ch, header, response) =>
      var c := CommittedBy(s, e);
      if c.Some? then q[ch := q[ch] + [c.value]] else q
    case Drain => Fronts(q, CHANNELS)
    case _ => q
  }

  /** What becomes of a response, in terms of the queue: one that the schedule wants is lost exactly
      when 39 frames wait in a ring that was read before; one that it does not want, always. */
  lemma LostExactly(s: Lin, q: ChannelQueues, e: Event)
    requires Refines(s, q) && e.Interrupt? && Seen(s, e).Some? && AfterHeader(s, e).ports[e.ch].headerPending
    ensures CommittedBy(s, e) == None
            <==> !Wanted(AfterHeader(s, e).ports[e.ch], s.table, e.ch)
                 || (|q[e.ch]| == 39 && s.store.rings[e.ch].readIndex > 0)
  {
    StatusMeaning(s.store.rings[e.ch], q[e.ch]);
  }

  /** What a response does to the rings, exactly. */
  lemma RespondExact(s: Lin, q: ChannelQueues, ch: Channel, response: Option<seq<byte>>)
    requires Refines(s, q)
    ensures var c := Commit(s, ch, response);
            Refines(Respond(s, ch, response), if c.Some? then q[ch := q[ch] + [c.value]] else q)
            <==> ResponseFits(s, ch, response)
  {
    hide Represents, Wanted, ResponseFrame, SpilledBy, Spares;
    hide Store.Commit, Store.Discard, Ring.IsFull, Ring.FullUnseen;
    assert |q| == CHANNELS;
    if response.Some? && s.ports[ch].headerPending && !s.store.rings[ch].IsFull() {
      var frame, store := ResponseFrame(s, ch, response.value), SpilledBy(s, ch, response.value);
      assert SameShape(s.store, store) by { SpilledByShape(s, ch, response.value); }
      hide SameShape;
      if Wanted(s.ports[ch], s.table, ch) {
        CommitRepresents(s.store, store, q, STORE_FRAMES, ch, frame);
      } else {
        DiscardRepresents(s.store, store, q, STORE_FRAMES, ch, frame);
      }
    }
  }

  lemma SpilledByShape(s: Lin, ch: Channel, bytes: seq<byte>)
    ensures SameShape(s.store, SpilledBy(s, ch, bytes))
  {
    SpilledShape(s.store, ch, bytes, s.ports[ch].rxLength);
  }

  /** One step of the LIN rings is one step of the queues, exactly when the step is allowed. */
  lemma StepExact(s: Lin, q: ChannelQueues, e: Event)
    requires Refines(s, q)
    ensures Refines(Step(s, e), QueuesAfter(s, q, e)) <==> Allowed(s, e)
  {
    hide Represents, Respond, Commit, Seen, ResponseFits, Header;
    match e
    case Interrupt(ch, header, response) => RespondExact(AfterHeader(s, e), q, ch, Seen(s, e));
    case Drain => DrainRepresents(s.store, q, STORE_FRAMES);
    case _ =>
  }

  function QueuesAt(s: Lin, q: ChannelQueues, events: seq<Event>, n: nat): ChannelQueues
    requires n <= |events|
  {
    if n == 0 then q else QueuesAfter(StateAt(s, events, n - 1), QueuesAt(s, q, events, n - 1), events[n - 1])
  }

  ghost predicate AllowedRun(s: Lin, events: seq<Event>) {
    forall k :: 0 <= k < |events| ==> Allowed(StateAt(s, events, k), events[k])
  }

  /** Over every run in which each interrupt is allowed, the LIN rings are queues of the
      committed frames, and the bitmap shows which of them have frames. */
  lemma {:induction false} RunRefines(s: Lin, q: ChannelQueues, events: seq<Event>, n: nat)
    requires Refines(s, q) && AllowedRun(s, events) && n <= |events|
    ensures Refines(StateAt(s, events, n), QueuesAt(s, q, events, n))
  {
    hide Refines, Allowed, QueuesAfter, Step;
    if n > 0 {
      RunRefines(s, q, events, n - 1);
      StepExact(StateAt(s, events, n - 1), QueuesAt(s, q, events, n - 1), events[n - 1]);
    }
  }

  // ---- long responses ----

  /** No unread frame lies in the slots that the rest of a response reaches. */
  predicate RestMissesFrames(s: Lin, ch: Channel) {
    var n: int := s.ports[ch].rxLength;
    var first := Place(ch, s.store.rings[ch].Acquire().writeIndex + 1);
    forall c: Channel, k: nat :: k < s.store.rings[c].Count() && 0 <= s.store.rings[c].SlotOf(k) < STORE_FRAMES ==>
      || Place(c, s.store.rings[c].SlotOf(k)) < first
      || Place(c, s.store.rings[c].SlotOf(k)) >= first + (n - MAX_LENGTH + SLOT_BYTES - 1) / SLOT_BYTES
  }

  /** Then the unread frames are spared, whatever the bytes are; in particular when the response has at
      most eight of them. */
  lemma RestSpares(s: Lin, ch: Channel, bytes: seq<byte>)
    requires s.ports[ch].rxLength <= MAX_LENGTH || RestMissesFrames(s, ch)
    ensures Spares(s.store, SpilledBy(s, ch, bytes))
    ensures s.ports[ch].rxLength <= MAX_LENGTH ==> SpilledBy(s, ch, bytes) == s.store
  {
    SpilledByShape(s, ch, bytes);
    var n := s.ports[ch].rxLength;
    if n <= MAX_LENGTH {
      ShortFits(s.store, ch, bytes, n);
    } else {
      forall c: Channel, k: nat | k < s.store.rings[c].Count() && 0 <= s.store.rings[c].SlotOf(k) < STORE_FRAMES
        ensures var j := s.store.rings[c].SlotOf(k);
                SpilledBy(s, ch, bytes).rings[c].slots[j] == s.store.rings[c].slots[j]
      {
        SpillElsewhere(s.store.rings, ch, s.store.rings[ch].Acquire().writeIndex + 1, Behind(bytes, n), c,
                       s.store.rings[c].SlotOf(k));
      }
    }
  }

  predicate ShortEntry(e: Entry) {
    e.dir == DIR_SLAVE_RECEIVE ==> e.dl <= MAX_LENGTH
  }

  predicate ShortTable(table: seq<Entry>) {
    forall i :: 0 <= i < |table| ==> ShortEntry(table[i])
  }

  /** All expected responses fit a slot, and so does what the table announces. */
  predicate Short(s: Lin) {
    ShortPorts(s) && ShortTable(s.table)
  }

  predicate ShortPorts(s: Lin) {
    forall c: Channel :: s.ports[c].rxLength <= MAX_LENGTH
  }

  /** The entries added announce at most eight bytes. */
  predicate ShortEvent(e: Event) {
    e.AddEntry? ==> ShortEntry(e.entry)
  }

  lemma {:induction false} FirstMatchShort(table: seq<Entry>, channel: nat, pid: nat)
    requires ShortTable(table)
    ensures FirstMatch(table, channel, pid).Some? ==> ShortEntry(FirstMatch(table, channel, pid).value)
  {
    if table != [] {
      assert ShortEntry(table[0]);
      FirstMatchShort(table[1..], channel, pid);
    }
  }

  lemma {:induction false} DeleteShort(table: seq<Entry>, channel: nat, pid: nat)
    requires ShortTable(table)
    ensures ShortTable(Delete(table, channel, pid).1)
  {
    hide ShortEntry;
    if table != [] {
      assert ShortEntry(table[0]);
      DeleteShort(table[1..], channel, pid);
    }
  }

  lemma HeaderShort(s: Lin, e: Event)
    requires Short(s) && e.Interrupt?
    ensures Short(AfterHeader(s, e))
  {
    hide ShortEntry;
    if e.header.Some? {
      var pid := Identifier(e.header.value);
      FirstMatchShort(s.table, e.ch, pid);
      assert FirstMatch(s.table, e.ch, pid).Some? && FirstMatch(s.table, e.ch, pid).value.dir == DIR_SLAVE_RECEIVE ==>
        FirstMatch(s.table, e.ch, pid).value.dl <= MAX_LENGTH by { ShortReceives(FirstMatch(s.table, e.ch, pid)); }
    }
  }

  lemma ShortReceives(found: Option<Entry>)
    requires found.Some? ==> ShortEntry(found.value)
    ensures found.Some? && found.value.dir == DIR_SLAVE_RECEIVE ==> found.value.dl <= MAX_LENGTH
  {
  }

  lemma ShortStep(s: Lin, e: Event)
    requires Short(s) && ShortEvent(e)
    ensures Short(Step(s, e))
  {
    hide ShortEntry, FirstMatch, Delete, ResponseFrame, SpilledBy, Header;
    match e
    case Interrupt(_, _, _) => HeaderShort(s, e);
    case DeleteEntry(_, entry) => DeleteShort(s.table, entry.channel, entry.pid);
    case _ =>
  }

  /** While the entries added announce at most eight bytes, every response fits its slot. */
  lemma {:induction false} ShortRun(s: Lin, events: seq<Event>, n: nat)
    requires Short(s) && n <= |events| && forall k :: 0 <= k < |events| ==> ShortEvent(events[k])
    ensures Short(StateAt(s, events, n))
  {
    hide Short, Step;
    if n > 0 {
      ShortRun(s, events, n - 1);
      ShortStep(StateAt(s, events, n - 1), events[n - 1]);
    }
  }

  /** What is left of `Allowed` then. */
  predicate AllowedShort(s: Lin, e: Event) {
    e.Interrupt? ==>
      var p, ring := AfterHeader(s, e).ports[e.ch], s.store.rings[e.ch];
      Seen(s, e).Some? && p.headerPending && !ring.IsFull() ==>
        if Wanted(p, s.table, e.ch) then !ring.FullUnseen() else ring.writeIndex < ring.Last()
  }

  lemma ShortAllowed(s: Lin, e: Event)
    requires Short(s)
    ensures Allowed(s, e) <==> AllowedShort(s, e)
  {
    hide Short, Spares, SpilledBy, Wanted, Header, Ring.IsFull, Ring.FullUnseen;
    if e.Interrupt? && Seen(s, e).Some? {
      HeaderShort(s, e);
      assert AfterHeader(s, e).ports[e.ch].rxLength <= MAX_LENGTH by { ShortPort(AfterHeader(s, e), e.ch); }
      RestSpares(AfterHeader(s, e), e.ch, Seen(s, e).value);
    }
  }

  lemma ShortPort(s: Lin, ch: Channel)
    requires Short(s)
    ensures s.ports[ch].rxLength <= MAX_LENGTH
  {
  }

  /** Frames whose data fit a slot are sent with all of it. */
  predicate ShortFrames(q: ChannelQueues) {
    forall c: Channel, k :: 0 <= k < |q[c]| ==> q[c][k].dl <= MAX_LENGTH
  }

  lemma {:induction false} ShortQueues(s: Lin, q: ChannelQueues, events: seq<Event>, n: nat)
    requires Short(s) && ShortFrames(q) && n <= |events| && forall k :: 0 <= k < |events| ==> ShortEvent(events[k])
    ensures ShortFrames(QueuesAt(s, q, events, n))
  {
    if n > 0 {
      ShortQueues(s, q, events, n - 1);
      ShortRun(s, events, n - 1);
      ShortAppended(StateAt(s, events, n - 1), QueuesAt(s, q, events, n - 1), events[n - 1]);
    }
  }

  lemma ShortAppended(s: Lin, q: ChannelQueues, e: Event)
    requires Short(s) && ShortFrames(q)
    ensures ShortFrames(QueuesAfter(s, q, e))
  {
    hide Short, DataAfter, FirstMatch, Header, Wanted, Ring.Acquire, Ring.IsFull;
    if e.Interrupt? {
      HeaderShort(s, e);
      ShortPort(AfterHeader(s, e), e.ch);
    }
  }

  // ---- which runs are allowed ----

  /** No channel is in schedule mode. */
  predicate Unscheduled(s: Lin) {
    forall c: Channel :: !(s.ports[c].slave && s.ports[c].scheduled)
  }

  /** No channel is switched to schedule mode. */
  predicate StaysUnscheduled(events: seq<Event>) {
    forall k :: 0 <= k < |events| ==> !(events[k].Configure? && events[k].slave && events[k].scheduled)
  }

  /** From the events alone: with `n` frames waiting in a ring that was never read, and a header pending
      or not, no response to a header arrives on `ch` while 39 frames wait, up to the first drain call
      that finds a frame. */
  predicate FitsUnread(events: seq<Event>, ch: Channel, pending: bool, n: nat)
    decreases |events|
  {
    events == [] ||
    match events[0]
    case Interrupt(c, header, response) =>
      if c != ch then FitsUnread(events[1..], ch, pending, n)
      else if response.Some? && (pending || header.Some?) then n < 39 && FitsUnread(events[1..], ch, false, n + 1)
      else FitsUnread(events[1..], ch, pending || header.Some?, n)
    case Drain => n > 0 || FitsUnread(events[1..], ch, pending, 0)
    case _ => FitsUnread(events[1..], ch, pending, n)
  }

  /** The channel was read before, or its responses fit. */
  predicate Fits(s: Lin, events: seq<Event>, ch: Channel) {
    || s.store.rings[ch].readIndex > 0
    || FitsUnread(events, ch, s.ports[ch].headerPending, s.store.rings[ch].writeIndex)
  }

  /** An interrupt outside the schedule mode. */
  lemma UnscheduledInterrupt(s: Lin, e: Event)
    requires Unscheduled(s) && ShortPorts(s) && e.Interrupt?
    ensures var t, pending := Step(s, e), s.ports[e.ch].headerPending || e.header.Some?;
            var answered, ring := e.response.Some? && pending, s.store.rings[e.ch];
            && t.ports == s.ports[e.ch := t.ports[e.ch]] && t.ports[e.ch].headerPending == (pending && !answered)
            && t.ports[e.ch].slave == s.ports[e.ch].slave && t.ports[e.ch].scheduled == s.ports[e.ch].scheduled
            && t.ports[e.ch].rxLength <= MAX_LENGTH
            && (Allowed(s, e) <==> (answered ==> !ring.FullUnseen()))
            && (if answered && !ring.IsFull()
                then exists f :: t.store == s.store.Commit(e.ch, f) else t.store == s.store)
  {
    hide ResponseFrame, SpilledBy, Spares, Identifier, Store.Commit;
    var h := AfterHeader(s, e);
    assert s.store.rings[e.ch].FullUnseen() ==> !s.store.rings[e.ch].IsFull();
    if e.response.Some? {
      RestSpares(h, e.ch, e.response.value);
    }
  }

  lemma UnscheduledStep(s: Lin, e: Event)
    requires Unscheduled(s) && ShortPorts(s) && !(e.Configure? && e.slave && e.scheduled)
    ensures Unscheduled(Step(s, e)) && ShortPorts(Step(s, e))
  {
    if e.Interrupt? {
      hide Step;
      UnscheduledInterrupt(s, e);
    }
  }

  lemma FitsInterrupt(s: Lin, q: ChannelQueues, events: seq<Event>, ch: Channel)
    requires Refines(s, q) && Unscheduled(s) && ShortPorts(s)
    requires events != [] && events[0].Interrupt? && Allowed(s, events[0])
    ensures Fits(s, events, ch) <==> Fits(Step(s, events[0]), events[1..], ch)
  {
    hide Step, Allowed, Represents, Unscheduled, ShortPorts;
    UnscheduledInterrupt(s, events[0]);
    RingHolds(s.store, q, STORE_FRAMES, ch);
    StatusMeaning(s.store.rings[ch], q[ch]);
  }

  lemma FitsDrain(s: Lin, q: ChannelQueues, events: seq<Event>, ch: Channel)
    requires Refines(s, q) && events != [] && events[0].Drain?
    ensures Fits(s, events, ch) <==> Fits(Step(s, events[0]), events[1..], ch)
  {
    hide Represents, Store.Drained;
    RingHolds(s.store, q, STORE_FRAMES, ch);
    StatusMeaning(s.store.rings[ch], q[ch]);
    assert var t := s.store.Drained().rings[ch];
           t == if s.store.bits[ch] then s.store.rings[ch].Take() else s.store.rings[ch] by { DrainedRing(s, ch); }
  }

  lemma DrainedRing(s: Lin, ch: Channel)
    ensures s.store.Drained().rings[ch] == if s.store.bits[ch] then s.store.rings[ch].Take() else s.store.rings[ch]
  {
    DrainTakes(s.store, s.store.bits, CHANNELS, ch);
  }

  lemma FitsStep(s: Lin, q: ChannelQueues, events: seq<Event>, ch: Channel)
    requires Refines(s, q) && Unscheduled(s) && ShortPorts(s) && events != [] && Allowed(s, events[0])
    ensures Fits(s, events, ch) <==> Fits(Step(s, events[0]), events[1..], ch)
  {
    match events[0]
    case Interrupt(_, _, _) => FitsInterrupt(s, q, events, ch);
    case Drain => FitsDrain(s, q, events, ch);
    case _ =>
  }

  lemma TooMany(s: Lin, q: ChannelQueues, events: seq<Event>)
    requires Refines(s, q) && Unscheduled(s) && ShortPorts(s) && events != [] && !Allowed(s, events[0])
    ensures !Fits(s, events, events[0].ch)
  {
    hide Step, Allowed, Unscheduled, ShortPorts;
    assert events[0].Interrupt? by { NotInterrupt(s, events[0]); }
    UnscheduledInterrupt(s, events[0]);
  }

  lemma NotInterrupt(s: Lin, e: Event)
    ensures !e.Interrupt? ==> Allowed(s, e)
  {
  }

  lemma {:induction false} StateFromFirst(s: Lin, events: seq<Event>, n: nat)
    requires 0 < n <= |events|
    ensures StateAt(s, events, n) == StateAt(Step(s, events[0]), events[1..], n - 1)
  {
    hide Step;
    if n > 1 {
      StateFromFirst(s, events, n - 1);
    }
  }

  lemma AllowedFirst(s: Lin, events: seq<Event>)
    requires events != []
    ensures AllowedRun(s, events) <==> Allowed(s, events[0]) && AllowedRun(Step(s, events[0]), events[1..])
  {
    hide Allowed, Step;
    var rest, t := events[1..], Step(s, events[0]);
    forall k | 0 <= k < |rest|
      ensures Allowed(StateAt(s, events, k + 1), events[k + 1]) <==> Allowed(StateAt(t, rest, k), rest[k])
    {
      StateFromFirst(s, events, k + 1);
    }
    if AllowedRun(s, events) {
      assert StateAt(s, events, 0) == s;
      forall k | 0 <= k < |rest| ensures Allowed(StateAt(t, rest, k), rest[k]) {
        assert Allowed(StateAt(s, events, k + 1), events[k + 1]);
      }
    }
    if Allowed(s, events[0]) && AllowedRun(t, rest) {
      forall k | 0 <= k < |events| ensures Allowed(StateAt(s, events, k), events[k]) {
        if k > 0 { assert Allowed(StateAt(t, rest, k - 1), rest[k - 1]); }
      }
    }
  }

  /** Outside the schedule mode, a run is allowed exactly when each channel was read before it or gets no
      response too many, which the events alone decide. */
  lemma {:induction false} AllowedExactly(s: Lin, q: ChannelQueues, events: seq<Event>)
    requires Refines(s, q) && Unscheduled(s) && ShortPorts(s) && StaysUnscheduled(events)
    ensures AllowedRun(s, events) <==> forall ch: Channel :: Fits(s, events, ch)
    decreases |events|
  {
    hide Step, Refines, Allowed, AllowedRun, Unscheduled, ShortPorts, QueuesAfter, Fits;
    if events == [] {
      NothingHappens(s);
    } else {
      var e, t := events[0], Step(s, events[0]);
      AllowedFirst(s, events);
      if Allowed(s, e) {
        StepExact(s, q, e);
        UnscheduledStep(s, e);
        AllowedExactly(t, QueuesAfter(s, q, e), events[1..]);
        forall ch: Channel ensures Fits(s, events, ch) <==> Fits(t, events[1..], ch) {
          FitsStep(s, q, events, ch);
        }
      } else {
        NotInterrupt(s, e);
        TooMany(s, q, events);
        assert !Fits(s, events, e.ch);
      }
    }
  }

  lemma NothingHappens(s: Lin)
    ensures AllowedRun(s, []) && forall ch: Channel :: Fits(s, [], ch)
  {
  }

  // ---- order and depth ----

  /** The rings are rings of 40 slots that hold queues, and the bitmap fits them. */
  ghost predicate Sound(s: Lin) {
    Refines(s, Contents(s.store))
  }

  lemma RefinedIsSound(s: Lin, q: ChannelQueues)
    requires Refines(s, q)
    ensures Sound(s) && q == Contents(s.store)
  {
    RepresentedIsContents(s.store, q, STORE_FRAMES);
  }

  /** The frames in the ring of a channel, the next one to be sent first. */
  function Waiting(s: Lin, ch: Channel): seq<Frame> {
    s.store.rings[ch].Contents()
  }

  /** What a drain call puts into the payload for channel `ch`. */
  function PayloadFor(s: Lin, ch: Channel): Option<UdpFrame> {
    match s.store.Sends(ch) case None => None case Some(f) => Some(Pack(f))
  }

  /** The frame that a step commits on channel `ch`, if any. */
  function AcceptedNow(s: Lin, e: Event, ch: Channel): seq<Frame> {
    if e.Interrupt? && e.ch == ch && CommittedBy(s, e).Some? then [CommittedBy(s, e).value] else []
  }

  /** The frame that a step sends for channel `ch`, if any. */
  function DeliveredNow(s: Lin, e: Event, ch: Channel): seq<Frame> {
    if e.Drain? && s.store.Sends(ch).Some? then [s.store.Sends(ch).value] else []
  }

  function Accepted(s: Lin, events: seq<Event>, n: nat, ch: Channel): seq<Frame>
    requires n <= |events|
  {
    if n == 0 then []
    else Accepted(s, events, n - 1, ch) + AcceptedNow(StateAt(s, events, n - 1), events[n - 1], ch)
  }

  function Delivered(s: Lin, events: seq<Event>, n: nat, ch: Channel): seq<Frame>
    requires n <= |events|
  {
    if n == 0 then []
    else Delivered(s, events, n - 1, ch) + DeliveredNow(StateAt(s, events, n - 1), events[n - 1], ch)
  }

  lemma FifoStep(s: Lin, q: ChannelQueues, e: Event, ch: Channel)
    requires Refines(s, q)
    ensures q[ch] + AcceptedNow(s, e, ch) == DeliveredNow(s, e, ch) + QueuesAfter(s, q, e)[ch]
  {
    hide CommittedBy, Fronts;
    SendsFront(s.store, q, STORE_FRAMES, ch);
  }

  /** First in, first out: what was waiting and committed is what was sent and is still waiting, in the
      same order, nothing twice and nothing lost. */
  lemma {:induction false} FifoOrder(s: Lin, events: seq<Event>, n: nat, ch: Channel)
    requires Sound(s) && AllowedRun(s, events) && n <= |events|
    ensures Waiting(s, ch) + Accepted(s, events, n, ch)
            == Delivered(s, events, n, ch) + Waiting(StateAt(s, events, n), ch)
  {
    hide Sound, Refines, Step, AllowedRun, Waiting, AcceptedNow, DeliveredNow;
    if n > 0 {
      var t, u, e := StateAt(s, events, n - 1), StateAt(s, events, n), events[n - 1];
      var w, a, d := Waiting(s, ch), Accepted(s, events, n - 1, ch), Delivered(s, events, n - 1, ch);
      FifoOrder(s, events, n - 1, ch);
      WaitingSteps(s, events, n, ch);
      assert w + (a + AcceptedNow(t, e, ch)) == (w + a) + AcceptedNow(t, e, ch);
      assert (d + Waiting(t, ch)) + AcceptedNow(t, e, ch) == d + (Waiting(t, ch) + AcceptedNow(t, e, ch));
      assert d + (DeliveredNow(t, e, ch) + Waiting(u, ch)) == (d + DeliveredNow(t, e, ch)) + Waiting(u, ch);
    }
  }

  lemma WaitingSteps(s: Lin, events: seq<Event>, n: nat, ch: Channel)
    requires Sound(s) && AllowedRun(s, events) && 0 < n <= |events|
    ensures var t, u, e := StateAt(s, events, n - 1), StateAt(s, events, n), events[n - 1];
            Waiting(t, ch) + AcceptedNow(t, e, ch) == DeliveredNow(t, e, ch) + Waiting(u, ch)
  {
    hide Refines, Step, AllowedRun, AcceptedNow, DeliveredNow, QueuesAfter;
    var q: ChannelQueues := Contents(s.store);
    RunRefines(s, q, events, n - 1);
    RunRefines(s, q, events, n);
    RefinedIsSound(StateAt(s, events, n - 1), QueuesAt(s, q, events, n - 1));
    RefinedIsSound(StateAt(s, events, n), QueuesAt(s, q, events, n));
    FifoStep(StateAt(s, events, n - 1), QueuesAt(s, q, events, n - 1), events[n - 1], ch);
  }

  function Drains(events: seq<Event>, n: nat): nat
    requires n <= |events|
  {
    if n == 0 then 0 else Drains(events, n - 1) + if events[n - 1].Drain? then 1 else 0
  }

  lemma QueueMovesUp(s: Lin, q: ChannelQueues, e: Event, ch: Channel, k: nat)
    requires k < |q[ch]| && (e.Drain? ==> k > 0)
    ensures var j := if e.Drain? then k - 1 else k;
            j < |QueuesAfter(s, q, e)[ch]| && QueuesAfter(s, q, e)[ch][j] == q[ch][k]
  {
    hide CommittedBy;
  }

  lemma {:induction false} QueuedMovesUp(s: Lin, q: ChannelQueues, events: seq<Event>, n: nat, ch: Channel, k: nat)
    requires n <= |events| && k < |q[ch]| && Drains(events, n) <= k
    ensures var p := QueuesAt(s, q, events, n)[ch]; k - Drains(events, n) < |p| && p[k - Drains(events, n)] == q[ch][k]
  {
    hide QueuesAfter, Step;
    if n > 0 {
      QueuedMovesUp(s, q, events, n - 1, ch, k);
      QueueMovesUp(StateAt(s, events, n - 1), QueuesAt(s, q, events, n - 1), events[n - 1], ch,
                   k - Drains(events, n - 1));
    }
  }

  /** A frame at depth `k` of its ring moves up by one with every drain call, and the call after `k` of
      them sends it, whatever arrives in between. */
  lemma FrameLeaves(s: Lin, events: seq<Event>, n: nat, ch: Channel, k: nat)
    requires Sound(s) && AllowedRun(s, events) && n <= |events|
    requires k < |Waiting(s, ch)| && Drains(events, n) <= k
    ensures var t := StateAt(s, events, n);
            && k - Drains(events, n) < |Waiting(t, ch)| && Waiting(t, ch)[k - Drains(events, n)] == Waiting(s, ch)[k]
            && (Drains(events, n) == k ==>
                  PayloadFor(t, ch).Some? && Carries(PayloadFor(t, ch).value, Waiting(s, ch)[k]))
  {
    PackCarries(Waiting(s, ch)[k]);
    hide Refines, AllowedRun, StateAt, QueuesAt, Pack, Carries, Store.Sends;
    var q: ChannelQueues := Contents(s.store);
    var t, p := StateAt(s, events, n), QueuesAt(s, q, events, n);
    RunRefines(s, q, events, n);
    QueuedMovesUp(s, q, events, n, ch, k);
    RefinedIsSound(t, p);
    assert t.store.Sends(ch) == (if p[ch] == [] then None else Some(p[ch][0])) by { SentFirst(t, p, ch); }
  }

  /** A frame that is committed while `k` frames wait on its channel is in the payload of the (k+1)-th drain
      call after it, whatever arrives in between. */
  lemma ResponseLeaves(s: Lin, e: Event, events: seq<Event>)
    requires e.Interrupt? && CommittedBy(s, e).Some?
    requires Sound(s) && AllowedRun(s, [e] + events) && Drains(events, |events|) == |Waiting(s, e.ch)|
    ensures var u := PayloadFor(StateAt(Step(s, e), events, |events|), e.ch);
            u.Some? && Carries(u.value, CommittedBy(s, e).value)
  {
    hide Allowed, AllowedRun, Step, StateAt, PayloadFor, Carries, CommittedBy, Refines;
    var q: ChannelQueues := Contents(s.store);
    assert ([e] + events)[0] == e && ([e] + events)[1..] == events;
    AllowedFirst(s, [e] + events);
    StepExact(s, q, e);
    RefinedIsSound(Step(s, e), QueuesAfter(s, q, e));
    assert QueuesAfter(s, q, e) == q[e.ch := q[e.ch] + [CommittedBy(s, e).value]];
    assert q[e.ch] == Waiting(s, e.ch) && Contents(Step(s, e).store)[e.ch] == Waiting(Step(s, e), e.ch);
    assert Waiting(Step(s, e), e.ch) == Waiting(s, e.ch) + [CommittedBy(s, e).value];
    FrameLeaves(Step(s, e), events, |events|, e.ch, |Waiting(s, e.ch)|);
  }

  lemma SentFirst(s: Lin, q: ChannelQueues, ch: Channel)
    requires Refines(s, q)
    ensures s.store.Sends(ch) == if q[ch] == [] then None else Some(q[ch][0])
  {
    SendsFront(s.store, q, STORE_FRAMES, ch);
  }

  // ---- from the start ----

  /** Nothing received, nothing scheduled; the channels are in any mode and expect at most eight bytes. */
  ghost predicate Initial(s: Lin) {
    && Refines(s, seq(CHANNELS, _ => []))
    && (forall c: Channel :: s.store.rings[c].readIndex == 0)
    && (forall c: Channel :: !s.ports[c].headerPending && s.ports[c].counter == 0)
    && s.store.sent == 0 && s.table == [] && ShortPorts(s)
  }

  function Counters(s: Lin): (n: seq<nat>)
    ensures |n| == CHANNELS && forall c: Channel :: n[c] == s.ports[c].counter
  {
    seq(CHANNELS, c requires 0 <= c < CHANNELS => s.ports[c].counter)
  }

  /** Frames counted are frames sent plus frames waiting. */
  predicate Balanced(s: Lin, q: ChannelQueues) {
    Sum(Counters(s)) == s.store.sent + Sum(Lengths(q))
  }

  lemma CountersAfter(s: Lin, e: Event)
    ensures Counters(Step(s, e))
            == if e.Interrupt? && CommittedBy(s, e).Some?
               then Counters(s)[e.ch := s.ports[e.ch].counter + 1] else Counters(s)
  {
    hide Step, CommittedBy;
    forall c: Channel ensures Counters(Step(s, e))[c] == Counters(s)[c] + Counted(s, e, c) {
      CounterStep(s, e, c);
    }
  }

  lemma SentStays(s: Lin, e: Event)
    requires !e.Drain?
    ensures Step(s, e).store.sent == s.store.sent
  {
    hide ResponseFrame, Spill, Header, Wanted, Ring.IsFull;
  }

  lemma StepBalanced(s: Lin, q: ChannelQueues, e: Event)
    requires Refines(s, q) && Balanced(s, q)
    ensures Balanced(Step(s, e), QueuesAfter(s, q, e))
  {
    hide Sum, Represents, Lengths, Fronts, Heads, Counters, CommittedBy, Respond, AfterHeader, Seen;
    CountersAfter(s, e);
    if e.Drain? {
      DrainRepresents(s.store, q, STORE_FRAMES);
      HeadsSum(q, CHANNELS);
    } else {
      SentStays(s, e);
      if e.Interrupt? && CommittedBy(s, e).Some? {
        AppendSum(q, e.ch, CommittedBy(s, e).value);
        SumUpdate(Counters(s), e.ch, s.ports[e.ch].counter + 1);
      }
    }
  }

  lemma InitialBalanced(s: Lin)
    requires Initial(s)
    ensures Balanced(s, seq(CHANNELS, _ => []))
  {
    SumZeros(Counters(s));
    SumZeros(Lengths<Frame>(seq(CHANNELS, _ => [])));
  }

  lemma {:induction false} BalancedAt(s: Lin, q: ChannelQueues, events: seq<Event>, n: nat)
    requires Refines(s, q) && AllowedRun(s, events) && Balanced(s, q) && n <= |events|
    ensures Balanced(StateAt(s, events, n), QueuesAt(s, q, events, n))
  {
    hide Refines, Step, QueuesAfter, AllowedRun, Balanced;
    if n > 0 {
      BalancedAt(s, q, events, n - 1);
      RunRefines(s, q, events, n - 1);
      StepBalanced(StateAt(s, events, n - 1), QueuesAt(s, q, events, n - 1), events[n - 1]);
    }
  }

  /** Frame conservation: after any allowed run from the start, the frames counted over all
      channels are the frames sent plus the frames in the rings. */
  lemma FrameConservation(s: Lin, events: seq<Event>)
    requires Initial(s) && AllowedRun(s, events)
    ensures var t := StateAt(s, events, |events|);
            Sum(Counters(t)) == t.store.sent + Sum(Lengths(Contents(t.store)))
  {
    hide AllowedRun, Sum;
    var none: ChannelQueues := seq(CHANNELS, _ => []);
    InitialBalanced(s);
    BalancedAt(s, none, events, |events|);
    RunRefines(s, none, events, |events|);
    RepresentedIsContents(StateAt(s, events, |events|).store, QueuesAt(s, none, events, |events|), STORE_FRAMES);
  }
}
