/** The CAN receive path as the code runs it: handlers and drain over rings that are changed in
    place. Each handler and each drain call is atomic. */
module CanReceiver {
  import opened Words
  import opened FrameRings
  import opened FrameStores
  import opened CanDevice

  class Receiver {
    const store: FrameStore<Frame>
    var counter: seq<nat>
    var drop: seq<nat>

    ghost predicate Valid()
      reads this, store, store.rings, set r | r in store.rings :: r.slots
    {
      store.Valid() && store.size == STORE_FRAMES && |store.rings| == |counter| == |drop| == CHANNELS
    }

    ghost function State(): Can
      requires Valid()
      reads this, store, store.rings, set r | r in store.rings :: r.slots
    {
      Can(store.View(), counter, drop)
    }

    constructor ()
      ensures Valid() && fresh(store) && fresh(store.rings) && forall r :: r in store.rings ==> fresh(r.slots)
      ensures Initial(State())
      ensures |store.rings| == 8 && forall r :: r in store.rings ==> r.slots.Length == 80
    {
      store := new FrameStore<Frame>(CHANNELS, STORE_FRAMES, BLANK_FRAME);
      counter, drop := seq(CHANNELS, _ => 0), seq(CHANNELS, _ => 0);
      new;
      RepresentedIsContents(store.View(), seq(CHANNELS, _ => []), STORE_FRAMES);
    }

    /** `canIsrRxHandler_0` to `_7`, with a new message in the hardware FIFO. */
    method RxHandler(ch: Channel, msg: Message)
      requires Valid()
      modifies this, store, store.rings[ch], store.rings[ch].slots
      ensures Valid()
      ensures State() == Receive(old(State()), ch, msg)
    {
      hide FrameStore.Valid, FrameStore.View, Store.Valid, Store.Commit, Ring.Acquire;
      ghost var s := store.View();
      var slot := store.GetNext(ch);
      if slot == None {
        drop := drop[ch := drop[ch] + 1];
      } else {
        store.FillSlot(s, ch, slot.value, Frame(ch, msg), true);
        counter := counter[ch := counter[ch] + 1];
      }
    }

    /** `get_can_frame`: at most one frame of every channel, those whose bit was set. */
    method GetCanFrame() returns (ok: bool, shown: Bits, payload: Payload)
      requires Valid()
      modifies store, store.rings
      ensures Valid()
      ensures shown == old(store.bitMap) && (ok <==> true in shown)
      ensures State() == Step(old(State()), Drain)
      ensures forall c: Channel :: payload[c] == PayloadFor(old(State()), c)
      ensures forall c: Channel ::
                var ring := old(State()).store.rings[c];
                if shown[c] && !ring.IsEmpty()
                then payload[c].Some? && Carries(payload[c].value, ring.Front().value.ch, ring.Front().value.msg)
                else payload[c] == None
    {
      hide FrameStore.Valid, FrameStore.View, Store.TakeFront, Store.DrainUpTo, PayloadFor, Pack;
      hide Ring.Front, Ring.Take, Ring.IsEmpty, Ring.WellFormed;
      ghost var whole, s := State(), store.View();
      shown := store.bitMap;
      payload := seq(CHANNELS, _ => None);
      DrainStarts(whole);
      PayloadsCarry(whole);
      hide Carries;
      if true !in shown {
        NothingToDrain(s, CHANNELS);
        return false, shown, payload;
      }
      var i := 0;
      while i < CHANNELS
        invariant 0 <= i <= CHANNELS && Valid()
        invariant store.View() == s.DrainUpTo(shown, i)
        invariant forall c: Channel :: payload[c] == if c < i then PayloadFor(whole, c) else None
      {
        DrainNext(s, shown, i);
        PayloadIs(whole, i);
        if shown[i] {
          var frame := store.TakeFront(i);
          if frame.Some? {
            payload := payload[i := Some(Pack(frame.value))];
          }
        }
        i := i + 1;
      }
      ok := true;
    }
  }

  lemma DrainStarts(s: Can)
    ensures s.store.DrainUpTo(s.store.bits, 0) == s.store
    ensures true !in s.store.bits ==> forall c: Channel :: PayloadFor(s, c) == None
  {
  }

  lemma PayloadsCarry(s: Can)
    ensures forall c: Channel ::
              var ring := s.store.rings[c];
              if s.store.bits[c] && !ring.IsEmpty()
              then PayloadFor(s, c).Some?
                   && Carries(PayloadFor(s, c).value, ring.Front().value.ch, ring.Front().value.msg)
              else PayloadFor(s, c) == None
  {
    hide Carries, Pack;
    forall c: Channel | s.store.bits[c] && !s.store.rings[c].IsEmpty()
      ensures Carries(Pack(s.store.rings[c].Front().value), s.store.rings[c].Front().value.ch,
                      s.store.rings[c].Front().value.msg)
    {
      PackCarries(s.store.rings[c].Front().value);
    }
  }

  lemma PayloadIs(s: Can, ch: Channel)
    ensures PayloadFor(s, ch)
            == if s.store.bits[ch] && s.store.rings[ch].Front().Some?
               then Some(Pack(s.store.rings[ch].Front().value)) else None
  {
  }
}
