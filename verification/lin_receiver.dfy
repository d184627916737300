/** The LIN receive path as the code runs it: the interrupt routine over per-channel registers and
    rings that are changed in place, and the schedule list. Each call is atomic. */
module LinReceiver {
  import opened Words
  import opened FrameRings
  import opened FrameStores
  import opened LinSchedule
  import opened LinFrames
  import opened LinDevice
  import opened LinRings

  class Receiver {
    const store: FrameStore<Frame>
    var ports: seq<Port>
    var table: seq<Entry>

    ghost predicate Valid()
      reads this, store, store.rings, set r | r in store.rings :: r.slots
    {
      store.Valid() && store.size == STORE_FRAMES && |store.rings| == |ports| == CHANNELS
    }

    ghost function State(): Lin
      requires Valid()
      reads this, store, store.rings, set r | r in store.rings :: r.slots
    {
      Lin(ports, store.View(), table)
    }

    constructor ()
      ensures Valid() && fresh(store) && fresh(store.rings) && forall r :: r in store.rings ==> fresh(r.slots)
      ensures Initial(State())
      ensures |store.rings| == 16 && forall r :: r in store.rings ==> r.slots.Length == 40
    {
      store := new FrameStore<Frame>(CHANNELS, STORE_FRAMES, BLANK_FRAME);
      ports := seq(CHANNELS, _ => Port(false, false, 0, false, 0, 0));
      table := [];
    }

    /** What `lin_module_config` sets of a channel. */
    method Configure(ch: Channel, slave: bool, scheduled: bool)
      requires Valid()
      modifies this`ports
      ensures Valid() && State() == Step(old(State()), Event.Configure(ch, slave, scheduled))
      ensures ports[ch] == old(ports)[ch].(slave := slave, scheduled := scheduled, rxLength := 8)
    {
      ports := ports[ch := ports[ch].(slave := slave, scheduled := scheduled, rxLength := MAX_LENGTH)];
    }

    /** `validate_schedule_operation` and `add_asclin_schedule`. */
    method AddSchedule(ch: Channel, entry: Entry) returns (ok: bool)
      requires Valid()
      modifies this`table
      ensures Valid() && State() == Step(old(State()), AddEntry(ch, entry))
      ensures ok <==> old(ports)[ch].slave && entry.pid <= 0x3F
    {
      ok := ports[ch].slave && entry.pid <= MAX_PID;
      if ok {
        table := table + [entry];
      }
    }

    /** `validate_schedule_operation` and `del_asclin_schedule`. */
    method DeleteSchedule(ch: Channel, entry: Entry) returns (ok: bool)
      requires Valid()
      modifies this`table
      ensures Valid() && State() == Step(old(State()), DeleteEntry(ch, entry))
      ensures ok <==> old(ports)[ch].slave && entry.pid <= 0x3F
                      && EntriesFor(old(table), entry.channel, entry.pid) != []
    {
      ok := false;
      if ports[ch].slave && entry.pid <= MAX_PID {
        DeleteIsPop(table, entry.channel, entry.pid, 0, 0);
        var rest;
        ok, rest := RemoveFirst(table, entry.channel, entry.pid);
        table := rest;
      }
    }

    method FindEntry(ch: Channel, pid: nat) returns (found: Option<Entry>)
      ensures found == FirstMatch(table, ch, pid)
    {
      found := None;
      var i := 0;
      while i < |table|
        invariant 0 <= i <= |table| && found == None
        invariant FirstMatch(table, ch, pid) == FirstMatch(table[i..], ch, pid)
      {
        assert table[i..][1..] == table[i + 1..];
        if table[i].pid == pid && table[i].channel == ch {
          found := Some(table[i]);
          break;
        }
        i := i + 1;
      }
    }

    /** `process_Lin_Header`; `cleared` tells that the flags of the channel were cleared. */
    method ProcessHeader(ch: Channel, id: byte) returns (cleared: bool)
      requires Valid()
      modifies this`ports
      ensures Valid()
      ensures ports == old(ports)[ch := Header(old(ports)[ch], table, ch, id)]
      ensures cleared == HeaderClearsFlags(old(ports)[ch], table, ch, id)
    {
      hide Identifier, FrameStore.Valid;
      cleared := false;
      var pid := Identifier(id);
      var p := ports[ch].(pendingPid := pid, headerPending := true);
      if p.slave {
        if p.scheduled {
          var found := FindEntry(ch, pid);
          match found {
            case Some(e) =>
              if e.dir == DIR_SLAVE_TRANSMIT {
                cleared := true;
              } else if e.dir == DIR_SLAVE_RECEIVE {
                p := p.(rxLength := e.dl % 256);
              }
            case None =>
              p := p.(rxLength := MAX_LENGTH);
          }
        } else {
          p := p.(rxLength := MAX_LENGTH);
        }
      }
      ports := ports[ch := p];
    }

    /** The frame that a response puts into a slot that holds `was`, and whether it is to be committed. */
    method PackResponse(ch: Channel, was: Frame, bytes: seq<byte>) returns (frame: Frame, wanted: bool)
      requires |ports| == CHANNELS
      ensures wanted == Wanted(ports[ch], table, ch)
      ensures var p := ports[ch];
              frame == Frame(ch, p.pendingPid,
                             if !wanted then was.dir else if p.slave then DIR_SLAVE_RECEIVE else DIR_MASTER_RECEIVE,
                             p.rxLength, DataAfter(was.data, bytes, p.rxLength))
    {
      hide DataAfter;
      var p := ports[ch];
      frame := Frame(ch, p.pendingPid, was.dir, p.rxLength, DataAfter(was.data, bytes, p.rxLength));
      wanted := true;
      if p.slave && p.scheduled {
        var found := FindEntry(ch, p.pendingPid);
        wanted := found.Some? && found.value.dir == DIR_SLAVE_RECEIVE;
      }
      if wanted {
        frame := frame.(dir := if p.slave then DIR_SLAVE_RECEIVE else DIR_MASTER_RECEIVE);
      }
    }

    /** The part of `pack_Lin_Msg_Type` that writes behind its slot: `rest`, from slot `i` of ring `c` on. */
    method WriteBehind(first: Channel, slot: nat, rest: seq<byte>)
      requires Valid() && slot < STORE_FRAMES
      modifies set r | r in store.rings :: r.slots
      ensures Valid()
      ensures store.View() == old(store.View()).(rings := Spill(old(store.View()).rings, first, slot, rest))
    {
      hide FrameStore.Valid, FrameStore.View, Overwritten, Spill;
      ghost var s: ChannelStore := store.View();
      var c, i, left := first, slot, rest;
      while left != [] && c < CHANNELS
        invariant 0 <= c <= CHANNELS && 0 <= i < STORE_FRAMES && Valid()
        invariant store.View().bits == s.bits && store.View().sent == s.sent
        invariant Spill(store.View().rings, c, i, left) == Spill(s.rings, first, slot, rest)
        decreases |left|
      {
        SpillNext(store.View().rings, c, i, left);
        store.Fill(c, i, Overwritten(store.rings[c].slots[i], left));
        left := if |left| <= SLOT_BYTES then [] else left[SLOT_BYTES..];
        if i + 1 < STORE_FRAMES {
          i := i + 1;
        } else {
          c, i := c + 1, 0;
        }
      }
      SpillDone(store.View().rings, c, i, left);
    }

    /** The slot that a response got in state `s` is filled, with all bytes that were announced, and
        committed if it is wanted. */
    method FillResponse(ghost s: Lin, ch: Channel, slot: nat, bytes: seq<byte>) returns (wanted: bool)
      requires Valid() && ports == s.ports && table == s.table
      requires store.View() == s.store.(rings := s.store.rings[ch := s.store.rings[ch].Acquire()])
      requires !s.store.rings[ch].IsFull() && slot == s.store.rings[ch].Acquire().writeIndex
      modifies store`bitMap, store.rings[ch], set r | r in store.rings :: r.slots
      ensures Valid()
      ensures wanted == Wanted(s.ports[ch], s.table, ch)
      ensures var after, frame := SpilledBy(s, ch, bytes), ResponseFrame(s, ch, bytes);
              store.View() == if wanted then after.Commit(ch, frame) else after.Discard(ch, frame)
    {
      hide FrameStore.Valid, FrameStore.View, Wanted, Store.Commit, Store.Discard, Ring.Acquire, DataAfter;
      hide Spill, Spilled, Behind, Ring.IsFull;
      var length := ports[ch].rxLength;
      var frame;
      SpilledAcquired(s.store, ch, bytes, length);
      assert store.View().rings[ch] == store.rings[ch].View();
      frame, wanted := PackResponse(ch, store.rings[ch].slots[slot], bytes);
      WriteBehind(ch, slot + 1, Behind(bytes, length));
      store.FillSlot(SpilledBy(s, ch, bytes), ch, slot, frame, wanted);
    }

    /** `process_Lin_Response`, for a channel with a pending header. */
    method ProcessResponse(ch: Channel, bytes: seq<byte>)
      requires Valid() && ports[ch].headerPending
      modifies this`ports, store, store.rings[ch], set r | r in store.rings :: r.slots
      ensures Valid()
      ensures State() == Respond(old(State()), ch, Some(bytes))
      ensures !old(State()).store.rings[ch].IsFull() ==>
                var p, was := old(ports)[ch], old(State()).store.rings[ch].Acquire();
                var f := State().store.rings[ch].slots[was.writeIndex];
                && f.channel == ch && f.pid == p.pendingPid && f.dl == p.rxLength
                && (forall n :: 0 <= n <= 8 && n <= p.rxLength && n <= |bytes| ==> f.data[..n] == bytes[..n])
    {
      hide FrameStore.Valid, FrameStore.View, Wanted, Store.Commit, Store.Discard, Ring.Acquire;
      hide SpilledBy, ResponseFrame, Ring.IsFull, Ring.WellFormed;
      ghost var s := State();
      RespondCases(s, ch, bytes);
      if !s.store.rings[ch].IsFull() {
        ResponseBytes(s, ch, bytes);
      }
      hide Respond;
      var p := ports[ch];
      var slot := store.GetNext(ch);
      if slot.Some? {
        var wanted := FillResponse(s, ch, slot.value, bytes);
        if wanted {
          p := p.(counter := p.counter + 1);
        }
      }
      ports := ports[ch := p.(headerPending := false)];
    }

    /** `process_Lin_Frame`. */
    method ProcessLinFrame(ch: Channel, header: Option<byte>, response: Option<seq<byte>>)
      requires Valid()
      modifies this`ports, store, store.rings[ch], set r | r in store.rings :: r.slots
      ensures Valid() && State() == Step(old(State()), Interrupt(ch, header, response))
    {
      hide FrameStore.Valid, FrameStore.View, Header, HeaderClearsFlags, Respond;
      ghost var s, e := State(), Interrupt(ch, header, response);
      var seen := response;
      if header.Some? {
        var cleared := ProcessHeader(ch, header.value);
        if cleared {
          seen := None;
        }
      }
      assert State() == AfterHeader(s, e) && seen == Seen(s, e);
      if seen.Some? && ports[ch].headerPending {
        ProcessResponse(ch, seen.value);
      } else {
        NoResponse(State(), ch, seen);
      }
    }

    /** `get_lin_frame`: the front frame of every channel whose bit was set. */
    method GetLinFrame() returns (ok: bool, shown: Bits, payload: seq<Option<UdpFrame>>)
      requires Valid()
      modifies store, store.rings
      ensures Valid() && State() == Step(old(State()), Drain)
      ensures shown == old(store.bitMap) && (ok <==> true in shown) && |payload| == CHANNELS
      ensures forall c: Channel :: payload[c] == PayloadFor(old(State()), c)
      ensures forall c: Channel ::
                var ring := old(State()).store.rings[c];
                if shown[c] && !ring.IsEmpty()
                then payload[c].Some? && Carries(payload[c].value, ring.Front().value) else payload[c] == None
    {
      hide FrameStore.Valid, FrameStore.View, Store.TakeFront, Store.DrainUpTo, PayloadFor, Pack;
      hide Ring.Front, Ring.Take, Ring.IsEmpty, Ring.WellFormed;
      ghost var whole, s := State(), store.View();
      shown := store.bitMap;
      payload := seq(CHANNELS, _ => None);
      DrainStarts(whole);
      PayloadsCarry(whole);
      hide Carries;
      if true !in shown {
        NothingToDrain(s, CHANNELS);
        return false, shown, payload;
      }
      var i := 0;
      while i < CHANNELS
        invariant 0 <= i <= CHANNELS && Valid() && |payload| == CHANNELS
        invariant store.View() == s.DrainUpTo(shown, i)
        invariant forall c: Channel :: payload[c] == if c < i then PayloadFor(whole, c) else None
      {
        DrainNext(s, shown, i);
        PayloadIs(whole, i);
        if shown[i] {
          var frame := store.TakeFront(i);
          if frame.Some? {
            payload := payload[i := Some(Pack(frame.value))];
          }
        }
        i := i + 1;
      }
      ok := true;
    }
  }

  /** The search loop of `del_asclin_schedule`. */
  method RemoveFirst(table: seq<Entry>, channel: nat, pid: nat) returns (found: bool, rest: seq<Entry>)
    ensures found == Delete(table, channel, pid).0 && rest == Delete(table, channel, pid).1
  {
    hide Delete, Matches;
    found, rest := false, table;
    var i := 0;
    assert table[..0] == [] && table[0..] == table;
    while i < |table|
      invariant 0 <= i <= |table| && !found && rest == table
      invariant Delete(table, channel, pid).0 == Delete(table[i..], channel, pid).0
      invariant Delete(table, channel, pid).1 == table[..i] + Delete(table[i..], channel, pid).1
    {
      DeleteAt(table, i, channel, pid);
      if Matches(table[i], channel, pid) {
        rest := table[..i] + table[i + 1..];
        found := true;
        break;
      }
      i := i + 1;
    }
    if !found {
      DeleteNothing(channel, pid);
      assert table[i..] == [] && table[..i] + [] == table;
    }
  }

  lemma DeleteNothing(channel: nat, pid: nat)
    ensures Delete([], channel, pid) == (false, [])
  {
  }

  lemma DrainStarts(s: Lin)
    ensures s.store.DrainUpTo(s.store.bits, 0) == s.store
    ensures true !in s.store.bits ==> forall c: Channel :: PayloadFor(s, c) == None
  {
  }

  lemma PayloadsCarry(s: Lin)
    ensures forall c: Channel ::
              var ring := s.store.rings[c];
              if s.store.bits[c] && !ring.IsEmpty()
              then PayloadFor(s, c).Some? && Carries(PayloadFor(s, c).value, ring.Front().value)
              else PayloadFor(s, c) == None
  {
    hide Carries, Pack;
    forall c: Channel | s.store.bits[c] && !s.store.rings[c].IsEmpty()
      ensures Carries(Pack(s.store.rings[c].Front().value), s.store.rings[c].Front().value)
    {
      PackCarries(s.store.rings[c].Front().value);
    }
  }

  lemma PayloadIs(s: Lin, ch: Channel)
    ensures PayloadFor(s, ch)
            == if s.store.bits[ch] && s.store.rings[ch].Front().Some?
               then Some(Pack(s.store.rings[ch].Front().value)) else None
  {
  }

  lemma ResponseBytes(s: Lin, ch: Channel, bytes: seq<byte>)
    requires s.ports[ch].headerPending && !s.store.rings[ch].IsFull()
    ensures var p, was := s.ports[ch], s.store.rings[ch].Acquire();
            var f := Respond(s, ch, Some(bytes)).store.rings[ch].slots[was.writeIndex];
            && f.channel == ch && f.pid == p.pendingPid && f.dl == p.rxLength
            && (forall n :: 0 <= n <= 8 && n <= p.rxLength && n <= |bytes| ==> f.data[..n] == bytes[..n])
  {
    hide Respond, Ring.IsFull;
    ResponseSlot(s, ch, bytes, 0);
    forall n | 0 <= n <= 8 && n <= s.ports[ch].rxLength && n <= |bytes|
      ensures var was := s.store.rings[ch].Acquire();
              Respond(s, ch, Some(bytes)).store.rings[ch].slots[was.writeIndex].data[..n] == bytes[..n]
    {
      ResponseSlot(s, ch, bytes, n);
    }
  }

  lemma RespondCases(s: Lin, ch: Channel, bytes: seq<byte>)
    requires s.ports[ch].headerPending
    ensures var t, p := Respond(s, ch, Some(bytes)), s.ports[ch].(headerPending := false);
            var after, frame := SpilledBy(s, ch, bytes), ResponseFrame(s, ch, bytes);
            && t.table == s.table
            && (s.store.rings[ch].IsFull() ==> t.ports == s.ports[ch := p] && t.store == s.store)
            && (!s.store.rings[ch].IsFull() && Wanted(s.ports[ch], s.table, ch) ==>
                  t.ports == s.ports[ch := p.(counter := p.counter + 1)] && t.store == after.Commit(ch, frame))
            && (!s.store.rings[ch].IsFull() && !Wanted(s.ports[ch], s.table, ch) ==>
                  t.ports == s.ports[ch := p] && t.store == after.Discard(ch, frame))
  {
    hide SpilledBy, ResponseFrame, Wanted, Ring.IsFull, Store.Commit, Store.Discard;
  }

  lemma NoResponse(s: Lin, ch: Channel, seen: Option<seq<byte>>)
    requires !(seen.Some? && s.ports[ch].headerPending)
    ensures Respond(s, ch, seen) == s
  {
  }

  lemma DeleteAt(table: seq<Entry>, i: nat, channel: nat, pid: nat)
    requires i < |table|
    ensures Matches(table[i], channel, pid) ==> Delete(table[i..], channel, pid) == (true, table[i + 1..])
    ensures !Matches(table[i], channel, pid) ==>
              && Delete(table[i..], channel, pid).0 == Delete(table[i + 1..], channel, pid).0
              && table[..i] + Delete(table[i..], channel, pid).1
                 == table[..i + 1] + Delete(table[i + 1..], channel, pid).1
  {
    hide Matches;
    assert table[i..][1..] == table[i + 1..];
    var rest := Delete(table[i + 1..], channel, pid).1;
    assert table[..i] + ([table[i]] + rest) == table[..i + 1] + rest;
  }
}
