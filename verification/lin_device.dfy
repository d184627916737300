/** The LIN receive path: per channel, a header sets a pending identifier and a response commits
    at most one frame for it; the schedule table decides in slave mode. */
module LinDevice {
  import opened Words
  import opened FrameRings
  import opened FrameStores
  import opened LinSchedule
  import opened LinFrames

  /** What one channel keeps: its mode, the pending header, the expected response length. */
  datatype Port = Port(slave: bool, scheduled: bool, pendingPid: octet, headerPending: bool,
                       rxLength: octet, counter: nat)

  type Ports = s: seq<Port> | |s| == CHANNELS witness seq(CHANNELS, _ => Port(false, false, 0, false, 0, 0))
  type Bits = s: seq<bool> | |s| == CHANNELS witness seq(CHANNELS, _ => false)

  datatype Lin = Lin(ports: Ports, store: ChannelStore, table: seq<Entry>)

  /** A receive interrupt sees the header flag with the identifier byte, the response flag with
      the response buffer, or both. */
  datatype Event =
    | Interrupt(ch: Channel, header: Option<byte>, response: Option<seq<byte>>)
    | Drain
    | AddEntry(ch: Channel, entry: Entry)
    | DeleteEntry(ch: Channel, entry: Entry)
    | Configure(ch: Channel, slave: bool, scheduled: bool)

  /** The 6-bit identifier of a protected identifier byte. */
  function Identifier(id: byte): (pid: octet)
    ensures pid <= MAX_PID
  {
    (id & 0x3F) as int
  }

  /** The identifier is the low six bits. */
  lemma IdentifierMeaning(id: byte)
    ensures Identifier(id) == id as int % 64
  {
  }

  // ---- one interrupt ----

  /** `process_Lin_Header`, `handle_Slave_Header_WithSchedule`. */
  function Header(p: Port, table: seq<Entry>, ch: Channel, id: byte): Port {
    var pid := Identifier(id);
    var q := p.(pendingPid := pid, headerPending := true);
    if !p.slave then q
    else if !p.scheduled then q.(rxLength := MAX_LENGTH)
    else match FirstMatch(table, ch, pid)
      case None => q.(rxLength := MAX_LENGTH)
      case Some(e) => if e.dir == DIR_SLAVE_RECEIVE then q.(rxLength := e.dl) else q
  }

  /** A slave that transmits the response clears all flags of its channel, a response flag
      included. */
  predicate HeaderClearsFlags(p: Port, table: seq<Entry>, ch: Channel, id: byte) {
    p.slave && p.scheduled && match FirstMatch(table, ch, Identifier(id))
                              case None => false
                              case Some(e) => e.dir == DIR_SLAVE_TRANSMIT
  }

  /** Whether a response is to be committed, given that a slot is free. */
  predicate Wanted(p: Port, table: seq<Entry>, ch: Channel) {
    if p.slave && p.scheduled
    then match FirstMatch(table, ch, p.pendingPid) case None => false case Some(e) => e.dir == DIR_SLAVE_RECEIVE
    else true
  }

  /** The frame that a response puts into the slot, over what the slot held; a frame that is not wanted
      keeps the direction that was there. */
  function ResponseFrame(s: Lin, ch: Channel, bytes: seq<byte>): Frame {
    var p, ring := s.ports[ch], s.store.rings[ch].Acquire();
    var was := ring.slots[ring.writeIndex];
    var dir := if !Wanted(p, s.table, ch) then was.dir
               else if p.slave then DIR_SLAVE_RECEIVE else DIR_MASTER_RECEIVE;
    Frame(ch, p.pendingPid, dir, p.rxLength, DataAfter(was.data, bytes, p.rxLength))
  }

  /** The frame that a response commits, if any. */
  function Commit(s: Lin, ch: Channel, response: Option<seq<byte>>): Option<Frame> {
    if response.Some? && s.ports[ch].headerPending && !s.store.rings[ch].IsFull() && Wanted(s.ports[ch], s.table, ch)
    then Some(ResponseFrame(s, ch, response.value)) else None
  }

  /** The rings after the bytes of a response that do not fit its slot were written. */
  function SpilledBy(s: Lin, ch: Channel, bytes: seq<byte>): ChannelStore {
    Spilled(s.store, ch, bytes, s.ports[ch].rxLength)
  }

  /** `process_Lin_Response`, `handle_Slave_Response_WithSchedule`. */
  function Respond(s: Lin, ch: Channel, response: Option<seq<byte>>): Lin {
    if response.None? || !s.ports[ch].headerPending then s
    else
      var p := s.ports[ch].(headerPending := false);
      var frame, store := ResponseFrame(s, ch, response.value), SpilledBy(s, ch, response.value);
      if s.store.rings[ch].IsFull() then Lin(s.ports[ch := p], s.store, s.table)
      else if Wanted(s.ports[ch], s.table, ch)
      then Lin(s.ports[ch := p.(counter := p.counter + 1)], store.Commit(ch, frame), s.table)
      else Lin(s.ports[ch := p], store.Discard(ch, frame), s.table)
  }

  /** The response that is still seen after the header has been handled. */
  function Seen(s: Lin, e: Event): Option<seq<byte>>
    requires e.Interrupt?
  {
    if e.header.Some? && HeaderClearsFlags(s.ports[e.ch], s.table, e.ch, e.header.value) then None else e.response
  }

  function AfterHeader(s: Lin, e: Event): Lin
    requires e.Interrupt?
  {
    if e.header.Some?
    then Lin(s.ports[e.ch := Header(s.ports[e.ch], s.table, e.ch, e.header.value)], s.store, s.table) else s
  }

  function CommittedBy(s: Lin, e: Event): Option<Frame>
    requires e.Interrupt?
  {
    Commit(AfterHeader(s, e), e.ch, Seen(s, e))
  }

  // ---- what an interrupt means ----

  /** The oldest entry for channel `ch` and the identifier of a header, if any. */
  function OldestFor(s: Lin, ch: Channel, id: byte): Option<Entry> {
    var all := EntriesFor(s.table, ch, id as int % 64);
    if all == [] then None else Some(all[0])
  }

  /** A header makes its identifier pending. It sets the expected length to 8 for a slave without a schedule
      or without an entry, to that of a receive entry, and else leaves it, for a master always. */
  lemma HeaderMeaning(s: Lin, e: Event)
    requires e.Interrupt? && e.header.Some?
    ensures var p, q := s.ports[e.ch], AfterHeader(s, e).ports[e.ch];
            var oldest := OldestFor(s, e.ch, e.header.value);
            && AfterHeader(s, e) == Lin(s.ports[e.ch := q], s.store, s.table)
            && q.pendingPid == e.header.value as int % 64 && q.headerPending
            && q.slave == p.slave && q.scheduled == p.scheduled && q.counter == p.counter
            && q.rxLength == if p.slave && (!p.scheduled || oldest == None) then 8
                             else if p.slave && oldest.value.dir == 4 then oldest.value.dl
                             else p.rxLength
  {
    IdentifierMeaning(e.header.value);
    FirstMatchIsOldest(s.table, e.ch, Identifier(e.header.value));
    hide FirstMatch, EntriesFor, Identifier;
  }

  /** A response is handled if a header is pending by then, and the header of the same interrupt is not one
      that the channel answers itself. It leaves no header pending. */
  lemma PendingExactly(s: Lin, e: Event)
    requires e.Interrupt?
    ensures var p, answers := s.ports[e.ch], e.header.Some? && s.ports[e.ch].slave && s.ports[e.ch].scheduled
                                             && OldestFor(s, e.ch, e.header.value).Some?
                                             && OldestFor(s, e.ch, e.header.value).value.dir == 3;
            && (Seen(s, e) == if answers then None else e.response)
            && (Step(s, e).ports[e.ch].headerPending
                <==> (p.headerPending || e.header.Some?) && (e.response.None? || answers))
  {
    if e.header.Some? {
      HeaderMeaning(s, e);
      IdentifierMeaning(e.header.value);
      FirstMatchIsOldest(s.table, e.ch, Identifier(e.header.value));
    }
    hide FirstMatch, EntriesFor, Identifier, ResponseFrame, SpilledBy, Wanted, Ring.IsFull, Store.Commit, Store.Discard;
  }

  /** What a committed frame carries: its channel, the pending identifier, the direction 4 of a slave or 2 of
      a master, the expected length, and the bytes of the response in order, with what its slot held behind
      them. */
  lemma CommittedMeaning(s: Lin, e: Event, n: nat)
    requires e.Interrupt? && CommittedBy(s, e).Some? && e.response.Some?
    requires n <= CommittedBy(s, e).value.dl && n <= 8 && n <= |e.response.value|
    ensures var f, p := CommittedBy(s, e).value, AfterHeader(s, e).ports[e.ch];
            var ring := s.store.rings[e.ch].Acquire();
            && f.channel == e.ch && f.pid == p.pendingPid && f.dl == p.rxLength
            && f.dir == (if s.ports[e.ch].slave then 4 else 2)
            && f.data[..n] == e.response.value[..n]
            && (f.dl <= 8 ==> f.data[f.dl..] == ring.slots[ring.writeIndex].data[f.dl..])
  {
    var t, ring := AfterHeader(s, e), s.store.rings[e.ch].Acquire();
    DataMeaning(ring.slots[ring.writeIndex].data, e.response.value, t.ports[e.ch].rxLength, n);
    if e.header.Some? {
      HeaderMeaning(s, e);
    }
    hide Wanted, FirstMatch, EntriesFor, Identifier, Header, DataAfter;
  }

  /** The slot of a response, committed or not, holds its channel, the pending identifier, the expected length
      and the bytes of the response in order, with what was there behind them. */
  lemma ResponseSlot(s: Lin, ch: Channel, bytes: seq<byte>, n: nat)
    requires s.ports[ch].headerPending && !s.store.rings[ch].IsFull()
    requires n <= s.ports[ch].rxLength && n <= 8 && n <= |bytes|
    ensures var p, was := s.ports[ch], s.store.rings[ch].Acquire();
            var f := Respond(s, ch, Some(bytes)).store.rings[ch].slots[was.writeIndex];
            && f.channel == ch && f.pid == p.pendingPid && f.dl == p.rxLength
            && f.data[..n] == bytes[..n]
            && (p.rxLength <= 8 ==> f.data[p.rxLength..] == was.slots[was.writeIndex].data[p.rxLength..])
  {
    var ring := s.store.rings[ch].Acquire();
    DataMeaning(ring.slots[ring.writeIndex].data, bytes, s.ports[ch].rxLength, n);
    SpilledShape(s.store, ch, bytes, s.ports[ch].rxLength);
    hide Wanted, DataAfter, Spill;
    CommitSteps(SpilledBy(s, ch, bytes), ch, ResponseFrame(s, ch, bytes));
  }

  // ---- all steps ----

  /** Schedule changes are accepted for a slave channel and a 6-bit identifier. */
  predicate MayChange(s: Lin, ch: Channel, e: Entry) {
    s.ports[ch].slave && e.pid <= MAX_PID
  }

  /** An interrupt handles its header first, then its response (`process_Lin_Frame`). */
  function Step(s: Lin, e: Event): Lin {
    match e
    case Interrupt(ch, header, response) => Respond(AfterHeader(s, e), ch, Seen(s, e))
    case Drain => Lin(s.ports, s.store.Drained(), s.table)
    case AddEntry(ch, entry) => if MayChange(s, ch, entry) then Lin(s.ports, s.store, s.table + [entry]) else s
    case DeleteEntry(ch, entry) =>
      if MayChange(s, ch, entry) then Lin(s.ports, s.store, Delete(s.table, entry.channel, entry.pid).1) else s
    case Configure(ch, slave, scheduled) =>
      Lin(s.ports[ch := s.ports[ch].(slave := slave, scheduled := scheduled, rxLength := MAX_LENGTH)], s.store, s.table)
  }

  /** What an observer of the interrupts sees: headers and committed frames. */
  datatype Item = Item(ch: Channel, header: Option<octet>, commit: Option<Frame>)

  function ItemOf(s: Lin, e: Event): Option<Item> {
    if e.Interrupt?
    then Some(Item(e.ch, if e.header.Some? then Some(Identifier(e.header.value)) else None,
                   CommittedBy(s, e)))
    else None
  }

  /** The state after the first `n` events, and what was seen by then. */
  function StateAt(s: Lin, events: seq<Event>, n: nat): Lin
    requires n <= |events|
  {
    if n == 0 then s else Step(StateAt(s, events, n - 1), events[n - 1])
  }

  function Log(s: Lin, events: seq<Event>, n: nat): seq<Item>
    requires n <= |events|
  {
    if n == 0 then []
    else
      var item := ItemOf(StateAt(s, events, n - 1), events[n - 1]);
      Log(s, events, n - 1) + if item.Some? then [item.value] else []
  }

  // ---- pairing ----

  /** `h` is the latest header of channel `c` in the log, for identifier `pid`. */
  ghost predicate LatestHeader(log: seq<Item>, c: Channel, h: nat, pid: nat) {
    && h < |log| && log[h].ch == c && log[h].header == Some(pid)
    && (forall k :: h < k < |log| && log[k].ch == c ==> log[k].header.None?)
  }

  ghost predicate NoCommitFrom(log: seq<Item>, c: Channel, h: nat, n: nat)
    requires n <= |log|
  {
    forall k :: h <= k < n && log[k].ch == c ==> log[k].commit.None?
  }

  /** A pending channel has a latest header, for the pending identifier, and nothing was
      committed since. */
  ghost predicate PendingExplained(s: Lin, log: seq<Item>) {
    forall c: Channel :: s.ports[c].headerPending ==>
      exists h: nat :: LatestHeader(log, c, h, s.ports[c].pendingPid) && NoCommitFrom(log, c, h, |log|)
  }

  /** The last item of a log, if it commits a frame, is paired: the frame carries the channel
      and the identifier of the channel's latest header, and that header had no frame yet. */
  ghost predicate LastPaired(log: seq<Item>) {
    log != [] && log[|log| - 1].commit.Some? ==>
      var item := log[|log| - 1];
      && item.commit.value.channel == item.ch
      && exists h: nat ::
        LatestHeader(log, item.ch, h, item.commit.value.pid) && NoCommitFrom(log, item.ch, h, |log| - 1)
  }

  /** A channel that is pending after an interrupt has committed nothing in it, and is pending
      because of this header or an earlier one. */
  lemma StillPending(s: Lin, e: Event)
    requires e.Interrupt?
    ensures var t, c := Step(s, e), CommittedBy(s, e);
            var p, q := s.ports[e.ch], t.ports[e.ch];
            && t.ports == s.ports[e.ch := q]
            && (q.headerPending ==> c.None? && (e.header.Some? || p.headerPending))
            && q.pendingPid == (if e.header.Some? then Identifier(e.header.value) else p.pendingPid)
            && (c.Some? ==> c.value.channel == e.ch && c.value.pid == q.pendingPid
                            && (e.header.Some? || p.headerPending))
  {
    hide DataAfter, SpilledBy, FirstMatch, Identifier, Store.Commit, Store.Discard, Ring.Acquire, Ring.IsFull;
  }

  /** One interrupt: the pending channels stay explained, and what it commits is paired. */
  lemma ItemPaired(s: Lin, log: seq<Item>, e: Event)
    requires PendingExplained(s, log) && e.Interrupt?
    ensures var after := log + [ItemOf(s, e).value]; PendingExplained(Step(s, e), after) && LastPaired(after)
  {
    StillPending(s, e);
    hide Step, CommittedBy;
    var ch, p, item := e.ch, s.ports[e.ch], ItemOf(s, e).value;
    var after, t := log + [item], Step(s, e);
    var n := |log|;
    var pid := t.ports[ch].pendingPid;
    assert after[n] == item && forall k :: 0 <= k < n ==> after[k] == log[k];
    if e.header.Some? || p.headerPending {
      var h := HeaderBehind(s, log, e);
      assert LatestHeader(after, ch, h, pid) && NoCommitFrom(after, ch, h, n);
      if t.ports[ch].headerPending {
        assert NoCommitFrom(after, ch, h, n + 1);
      }
    }
    forall c: Channel | c != ch && t.ports[c].headerPending
      ensures exists h: nat :: LatestHeader(after, c, h, t.ports[c].pendingPid) && NoCommitFrom(after, c, h, |after|)
    {
      var h: nat :| LatestHeader(log, c, h, s.ports[c].pendingPid) && NoCommitFrom(log, c, h, n);
      assert LatestHeader(after, c, h, t.ports[c].pendingPid) && NoCommitFrom(after, c, h, n + 1);
    }
  }

  /** The header that the channel of an interrupt depends on: its own, or the pending one. */
  lemma HeaderBehind(s: Lin, log: seq<Item>, e: Event) returns (h: nat)
    requires PendingExplained(s, log) && e.Interrupt?
    requires e.header.Some? || s.ports[e.ch].headerPending
    ensures var after := log + [ItemOf(s, e).value];
            && LatestHeader(after, e.ch, h, Step(s, e).ports[e.ch].pendingPid)
            && NoCommitFrom(after, e.ch, h, |log|)
  {
    StillPending(s, e);
    hide Step, CommittedBy;
    var n := |log|;
    if e.header.Some? {
      h := n;
    } else {
      h :| LatestHeader(log, e.ch, h, s.ports[e.ch].pendingPid) && NoCommitFrom(log, e.ch, h, n);
    }
  }

  lemma QuietStep(s: Lin, log: seq<Item>, e: Event)
    requires PendingExplained(s, log) && !e.Interrupt?
    ensures PendingExplained(Step(s, e), log)
  {
    assert forall c: Channel :: Step(s, e).ports[c].headerPending == s.ports[c].headerPending
                                && Step(s, e).ports[c].pendingPid == s.ports[c].pendingPid;
  }

  predicate NothingPending(s: Lin) {
    forall c: Channel :: !s.ports[c].headerPending
  }

  lemma {:induction false} LogExplains(s: Lin, events: seq<Event>, n: nat)
    requires NothingPending(s) && n <= |events|
    ensures PendingExplained(StateAt(s, events, n), Log(s, events, n))
  {
    if n > 0 {
      LogExplains(s, events, n - 1);
      var t, log, e := StateAt(s, events, n - 1), Log(s, events, n - 1), events[n - 1];
      hide PendingExplained, Step, ItemOf;
      if e.Interrupt? { ItemPaired(t, log, e); } else { QuietStep(t, log, e); assert log + [] == log; }
      assert e.Interrupt? <==> ItemOf(t, e).Some? by { ItemsAreInterrupts(t, e); }
    }
  }

  lemma ItemsAreInterrupts(s: Lin, e: Event)
    ensures ItemOf(s, e).Some? <==> e.Interrupt?
  {
  }

  ghost predicate PairedAt(log: seq<Item>, i: nat)
    requires i < |log|
  {
    LastPaired(log[..i + 1])
  }

  /** Pairing. Over every sequence of interrupts, drains, schedule changes and mode changes, on
      any mix of channels: each committed frame carries the channel and the 6-bit identifier of
      that channel's latest header, and since that header nothing else was committed on the
      channel. So a header yields at most one frame, and a response without one yields none. */
  lemma {:induction false} Pairing(s: Lin, events: seq<Event>, n: nat)
    requires NothingPending(s) && n <= |events|
    ensures var log := Log(s, events, n); forall i :: 0 <= i < |log| ==> PairedAt(log, i)
  {
    if n > 0 {
      hide LastPaired, PendingExplained, ItemOf, Step, NothingPending, PairedAt, Log, StateAt;
      Pairing(s, events, n - 1);
      LogExplains(s, events, n - 1);
      LogNext(s, events, n);
      var t, before, e := StateAt(s, events, n - 1), Log(s, events, n - 1), events[n - 1];
      if e.Interrupt? {
        ItemPaired(t, before, e);
      }
      PairedGrows(before, Log(s, events, n));
    } else {
      assert Log(s, events, 0) == [];
    }
  }

  lemma LogNext(s: Lin, events: seq<Event>, n: nat)
    requires 0 < n <= |events|
    ensures var t, e := StateAt(s, events, n - 1), events[n - 1];
            && (e.Interrupt? ==>
                  ItemOf(t, e).Some? && Log(s, events, n) == Log(s, events, n - 1) + [ItemOf(t, e).value])
            && (!e.Interrupt? ==> Log(s, events, n) == Log(s, events, n - 1))
  {
    ItemsAreInterrupts(StateAt(s, events, n - 1), events[n - 1]);
  }

  lemma PairedGrows(before: seq<Item>, log: seq<Item>)
    requires before == log || (log != [] && before == log[..|log| - 1] && LastPaired(log))
    requires forall i :: 0 <= i < |before| ==> PairedAt(before, i)
    ensures forall i :: 0 <= i < |log| ==> PairedAt(log, i)
  {
    hide LastPaired;
    forall i | 0 <= i < |log| ensures PairedAt(log, i) {
      if i < |before| {
        assert PairedAt(before, i) && log[..i + 1] == before[..i + 1];
      } else {
        assert log[..i + 1] == log;
      }
    }
  }

  /** Frames committed on channel `c`. */
  function Commits(log: seq<Item>, c: Channel): nat {
    if log == [] then 0
    else Commits(log[..|log| - 1], c) + if log[|log| - 1].ch == c && log[|log| - 1].commit.Some? then 1 else 0
  }

  /** What a step adds to the counter of channel `c`. */
  function Counted(s: Lin, e: Event, c: Channel): nat {
    if e.Interrupt? && e.ch == c && CommittedBy(s, e).Some? then 1 else 0
  }

  lemma CounterStep(s: Lin, e: Event, c: Channel)
    ensures Step(s, e).ports[c].counter == s.ports[c].counter + Counted(s, e, c)
    ensures e.Interrupt? ==> ItemOf(s, e).value.commit == CommittedBy(s, e)
    ensures e.Interrupt? <==> ItemOf(s, e).Some?
    ensures e.Interrupt? ==> ItemOf(s, e).value.ch == e.ch
  {
    hide ResponseFrame, SpilledBy, Wanted, FirstMatch, HeaderClearsFlags, Store.Commit, Store.Discard, Ring.IsFull;
  }

  lemma CommitsNext(log: seq<Item>, item: Item, c: Channel)
    ensures Commits(log + [item], c) == Commits(log, c) + if item.ch == c && item.commit.Some? then 1 else 0
  {
    var after := log + [item];
    assert after[..|after| - 1] == log;
  }

  /** The frame counter of a channel counts its commits, in every run. */
  lemma {:induction false} CounterCounts(s: Lin, events: seq<Event>, n: nat, c: Channel)
    requires n <= |events|
    ensures StateAt(s, events, n).ports[c].counter == s.ports[c].counter + Commits(Log(s, events, n), c)
  {
    hide Step, ItemOf, Commits;
    if n > 0 {
      CounterCounts(s, events, n - 1, c);
      var t, log, e := StateAt(s, events, n - 1), Log(s, events, n - 1), events[n - 1];
      CounterStep(t, e, c);
      if e.Interrupt? { CommitsNext(log, ItemOf(t, e).value, c); } else { assert log + [] == log; }
    } else {
      NoCommits(c);
    }
  }

  lemma NoCommits(c: Channel)
    ensures Commits([], c) == 0
  {
  }

  // ---- the schedule decides ----

  /** `e` leaves the header of channel `ch` pending and the oldest entry for the key in place: it is
      a drain, concerns another channel, or changes the table for another key. If there is an entry
      for the key (`known`), more may be added behind it. */
  predicate LeavesAlone(e: Event, ch: Channel, pid: nat, known: bool) {
    match e
    case Drain => true
    case Interrupt(c, _, _) => c != ch
    case Configure(c, _, _) => c != ch
    case AddEntry(_, entry) => known || !Matches(entry, ch, pid)
    case DeleteEntry(_, entry) => !Matches(entry, ch, pid)
  }

  lemma KeyStays(s: Lin, e: Event, ch: Channel, pid: nat)
    requires LeavesAlone(e, ch, pid, FirstMatch(s.table, ch, pid).Some?)
    ensures Step(s, e).ports[ch] == s.ports[ch]
    ensures FirstMatch(Step(s, e).table, ch, pid) == FirstMatch(s.table, ch, pid)
  {
    hide FirstMatch, EntriesFor, Header, Delete, ResponseFrame, SpilledBy, Seen;
    FirstMatchIsOldest(s.table, ch, pid);
    FirstMatchIsOldest(Step(s, e).table, ch, pid);
    match e
    case AddEntry(_, entry) => AddIsAppend(s.table, entry, ch, pid);
    case DeleteEntry(_, entry) => DeleteIsPop(s.table, entry.channel, entry.pid, ch, pid);
    case _ =>
  }

  lemma {:induction false} KeyStaysOn(s: Lin, events: seq<Event>, n: nat, ch: Channel, pid: nat)
    requires n <= |events|
    requires forall k :: 0 <= k < n ==> LeavesAlone(events[k], ch, pid, FirstMatch(s.table, ch, pid).Some?)
    ensures var t := StateAt(s, events, n);
            t.ports[ch] == s.ports[ch] && FirstMatch(t.table, ch, pid) == FirstMatch(s.table, ch, pid)
  {
    hide Step, LeavesAlone, FirstMatch;
    if n > 0 {
      KeyStaysOn(s, events, n - 1, ch, pid);
      assert LeavesAlone(events[n - 1], ch, pid, FirstMatch(s.table, ch, pid).Some?);
      KeyStays(StateAt(s, events, n - 1), events[n - 1], ch, pid);
    }
  }

  /** What the header of a scheduled slave sets. */
  lemma HeaderDecides(s: Lin, ch: Channel, id: byte)
    requires s.ports[ch].slave && s.ports[ch].scheduled
    ensures var t, first := Step(s, Interrupt(ch, Some(id), None)), FirstMatch(s.table, ch, Identifier(id));
            && t.table == s.table
            && t.ports[ch] == s.ports[ch].(pendingPid := Identifier(id), headerPending := true,
                                           rxLength := t.ports[ch].rxLength)
            && t.ports[ch].rxLength
               == (match first
                   case None => MAX_LENGTH
                   case Some(e) => if e.dir == DIR_SLAVE_RECEIVE then e.dl else s.ports[ch].rxLength)
  {
    hide FirstMatch;
  }

  /** What a response commits, on its own. */
  lemma ResponseDecides(s: Lin, ch: Channel, bytes: seq<byte>)
    requires s.ports[ch].slave && s.ports[ch].scheduled && s.ports[ch].headerPending
    ensures var c := CommittedBy(s, Interrupt(ch, None, Some(bytes)));
            var first := FirstMatch(s.table, ch, s.ports[ch].pendingPid);
            && (c.Some? <==> first.Some? && first.value.dir == DIR_SLAVE_RECEIVE && !s.store.rings[ch].IsFull())
            && (c.Some? ==> c.value.pid == s.ports[ch].pendingPid && c.value.dl == s.ports[ch].rxLength
                            && c.value.dir == DIR_SLAVE_RECEIVE)
  {
    hide FirstMatch, DataAfter, Ring.IsFull, Ring.Acquire;
  }

  /** In slave mode with a schedule, the oldest entry for the channel and the identifier decides
      twice: at the header, what length is expected; at the response, whether a frame is
      committed, and then with that length. In between, anything may happen that leaves the channel
      and that entry alone. */
  lemma ScheduleDecides(s: Lin, ch: Channel, id: byte, events: seq<Event>, bytes: seq<byte>)
    requires s.ports[ch].slave && s.ports[ch].scheduled
    requires var known := EntriesFor(s.table, ch, Identifier(id)) != [];
             forall k :: 0 <= k < |events| ==> LeavesAlone(events[k], ch, Identifier(id), known)
    ensures var pid := Identifier(id);
            var entries := EntriesFor(s.table, ch, pid);
            var t := StateAt(Step(s, Interrupt(ch, Some(id), None)), events, |events|);
            var c := CommittedBy(t, Interrupt(ch, None, Some(bytes)));
            && t.ports[ch].rxLength == (if entries == [] then MAX_LENGTH
                                        else if entries[0].dir == DIR_SLAVE_RECEIVE then entries[0].dl
                                        else s.ports[ch].rxLength)
            && (c.Some? <==> entries != [] && entries[0].dir == DIR_SLAVE_RECEIVE && !t.store.rings[ch].IsFull())
            && (c.Some? ==> c.value.pid == pid && c.value.dl == entries[0].dl && c.value.dir == DIR_SLAVE_RECEIVE)
  {
    hide Step, CommittedBy, StateAt, Identifier, EntriesFor, FirstMatch, LeavesAlone, Ring.IsFull;
    var h := Step(s, Interrupt(ch, Some(id), None));
    FirstMatchIsOldest(s.table, ch, Identifier(id));
    HeaderDecides(s, ch, id);
    KeyStaysOn(h, events, |events|, ch, Identifier(id));
    ResponseDecides(StateAt(h, events, |events|), ch, bytes);
  }
}
