/** What the CAN and the LIN receivers have in common: a frame ring for every channel, a bitmap of
    the channels with frames, and drain calls that take at most one frame of each channel. */
module FrameStores {
  import opened Words
  import opened FrameRings

  datatype Store<T> = Store(rings: seq<Ring<T>>, bits: seq<bool>, sent: nat) {
    predicate Valid() {
      |bits| == |rings| && forall c :: 0 <= c < |rings| ==> rings[c].WellFormed()
    }

    /** A slot of channel `c` is filled with `x`, the ring not being full, and committed. */
    function Commit(c: nat, x: T): (s: Store<T>)
      requires Valid() && c < |rings|
      ensures s.Valid() && |s.rings| == |rings|
    {
      Store(rings[c := rings[c].Put(x)], bits[c := true], sent)
    }

    /** A slot of channel `c` is filled with `x` and not committed. */
    function Discard(c: nat, x: T): (s: Store<T>)
      requires Valid() && c < |rings|
      ensures s.Valid() && |s.rings| == |rings|
    {
      Store(rings[c := rings[c].Discard(x)], bits, sent)
    }

    /** One channel of a drain call. */
    function TakeFront(c: nat): (s: Store<T>)
      requires Valid() && c < |rings|
      ensures s.Valid() && |s.rings| == |rings|
    {
      var ring := rings[c];
      if ring.IsEmpty() then this
      else Store(rings[c := ring.Take()], if ring.Take().IsEmpty() then bits[c := false] else bits, sent + 1)
    }

    /** A drain call after the channels below `n`, for the bitmap as it was at the start. */
    function DrainUpTo(shown: seq<bool>, n: nat): (s: Store<T>)
      requires Valid() && n <= |rings| == |shown|
      ensures s.Valid() && |s.rings| == |rings|
      ensures forall c :: 0 <= c < |rings| ==> |s.rings[c].slots| == |rings[c].slots|
      decreases n
    {
      if n == 0 then this
      else
        var s := DrainUpTo(shown, n - 1);
        if shown[n - 1] then s.TakeFront(n - 1) else s
    }

    /** A whole drain call. */
    function Drained(): (s: Store<T>)
      requires Valid()
      ensures s.Valid() && |s.rings| == |rings|
      ensures forall c :: 0 <= c < |rings| ==> |s.rings[c].slots| == |rings[c].slots|
    {
      DrainUpTo(bits, |rings|)
    }

    /** The frame that a drain call sends for channel `c`, if any. */
    function Sends(c: nat): Option<T>
      requires Valid() && c < |rings|
    {
      if bits[c] then rings[c].Front() else None
    }
  }

  // ---- the queues that the rings stand for ----

  /** Each ring, of `size` slots, holds its queue, and a bit is set exactly when that queue has
      frames. */
  ghost predicate Represents<T>(s: Store<T>, q: seq<seq<T>>, size: nat) {
    && s.Valid() && |q| == |s.rings|
    && (forall c :: 0 <= c < |q| ==> |s.rings[c].slots| == size && s.rings[c].Holds(q[c]))
    && (forall c :: 0 <= c < |q| ==> (s.bits[c] <==> q[c] != []))
  }

  function Contents<T>(s: Store<T>): (q: seq<seq<T>>)
    ensures |q| == |s.rings|
  {
    seq(|s.rings|, c requires 0 <= c < |s.rings| => s.rings[c].Contents())
  }

  /** A store represents no other queues than its contents. */
  lemma RepresentedIsContents<T>(s: Store<T>, q: seq<seq<T>>, size: nat)
    requires Represents(s, q, size)
    ensures q == Contents(s)
  {
    forall c | 0 <= c < |q| ensures q[c] == s.rings[c].Contents() {
      HeldIsContents(s.rings[c], q[c]);
    }
  }

  /** The queues after each non-empty one below `n` lost its first frame. */
  function Fronts<T>(q: seq<seq<T>>, n: nat): (r: seq<seq<T>>)
    ensures |r| == |q|
    ensures forall c :: 0 <= c < |q| ==> r[c] == if c < n && q[c] != [] then q[c][1..] else q[c]
  {
    seq(|q|, c requires 0 <= c < |q| => if c < n && q[c] != [] then q[c][1..] else q[c])
  }

  /** How many queues below `n` have frames. */
  function Heads<T>(q: seq<seq<T>>, n: nat): nat
    requires n <= |q|
  {
    if n == 0 then 0 else Heads(q, n - 1) + if q[n - 1] != [] then 1 else 0
  }

  /** `t` differs in the content of slots at most. */
  ghost predicate SameShape<T>(s: Store<T>, t: Store<T>) {
    && |t.rings| == |s.rings| && t.bits == s.bits && t.sent == s.sent
    && (forall c :: 0 <= c < |s.rings| ==> s.rings[c].SameIndices(t.rings[c]))
  }

  /** `t` has the same frames that are still to be sent. */
  ghost predicate Spares<T>(s: Store<T>, t: Store<T>) {
    SameShape(s, t) && forall c :: 0 <= c < |s.rings| ==> s.rings[c].SparedBy(t.rings[c])
  }

  lemma SparedRepresents<T>(s: Store<T>, t: Store<T>, q: seq<seq<T>>, size: nat)
    requires Represents(s, q, size) && SameShape(s, t)
    ensures Represents(t, q, size) <==> Spares(s, t)
    ensures t.Valid() && forall c :: 0 <= c < |q| ==> t.rings[c].Shaped(|q[c]|)
  {
    forall c | 0 <= c < |q|
      ensures (t.rings[c].Holds(q[c]) <==> s.rings[c].SparedBy(t.rings[c])) && t.rings[c].Shaped(|q[c]|)
    {
      SparedHolds(s.rings[c], t.rings[c], q[c]);
    }
  }

  /** A commit after the content of slots was changed appends to the queue exactly when the unread
      frames were spared and the ring was not full and unseen. */
  lemma CommitRepresents<T>(s: Store<T>, t: Store<T>, q: seq<seq<T>>, size: nat, c: nat, x: T)
    requires Represents(s, q, size) && SameShape(s, t) && t.Valid() && c < |q| && !s.rings[c].IsFull()
    ensures Represents(t.Commit(c, x), q[c := q[c] + [x]], size) <==> Spares(s, t) && !s.rings[c].FullUnseen()
  {
    SparedRepresents(s, t, q, size);
    PutExact(t.rings[c], q[c], x);
    OneRing(t, t.Commit(c, x), q, q[c := q[c] + [x]], size, c);
  }

  /** A slot that is filled and not committed leaves the queues as they were exactly when, besides,
      no wrap was pending. */
  lemma DiscardRepresents<T>(s: Store<T>, t: Store<T>, q: seq<seq<T>>, size: nat, c: nat, x: T)
    requires Represents(s, q, size) && SameShape(s, t) && t.Valid() && c < |q| && !s.rings[c].IsFull()
    ensures Represents(t.Discard(c, x), q, size) <==> Spares(s, t) && s.rings[c].writeIndex < s.rings[c].Last()
  {
    SparedRepresents(s, t, q, size);
    DiscardExact(t.rings[c], q[c], x);
    assert q[c := q[c]] == q;
    OneRing(t, t.Discard(c, x), q, q, size, c);
  }

  /** Only ring `c` and its bit change. */
  lemma OneRing<T>(s: Store<T>, t: Store<T>, q: seq<seq<T>>, p: seq<seq<T>>, size: nat, c: nat)
    requires s.Valid() && t.Valid() && |p| == |q| == |s.rings| == |t.rings| && c < |q|
    requires t.rings == s.rings[c := t.rings[c]] && t.bits == s.bits[c := t.bits[c]] && p == q[c := p[c]]
    requires forall d :: 0 <= d < |q| ==> |s.rings[d].slots| == size && (s.bits[d] <==> q[d] != [])
    requires |t.rings[c].slots| == size && (t.bits[c] <==> p[c] != [])
    requires t.rings[c].Holds(p[c]) ==> s.rings[c].Holds(q[c])
    ensures Represents(t, p, size) <==> Represents(s, q, size) && t.rings[c].Holds(p[c])
  {
    hide Ring.Holds, Ring.WellFormed;
    forall d | 0 <= d < |q| && d != c ensures t.rings[d] == s.rings[d] && p[d] == q[d] && t.bits[d] == s.bits[d] {
    }
    if Represents(t, p, size) {
      forall d | 0 <= d < |q| ensures s.rings[d].Holds(q[d]) {
        assert t.rings[d].Holds(p[d]);
      }
    }
  }

  lemma TakeRepresents<T>(s: Store<T>, q: seq<seq<T>>, size: nat, c: nat)
    requires Represents(s, q, size) && c < |q|
    ensures Represents(s.TakeFront(c), if q[c] == [] then q else q[c := q[c][1..]], size)
    ensures s.TakeFront(c).sent == s.sent + if q[c] == [] then 0 else 1
  {
    StatusMeaning(s.rings[c], q[c]);
    TakeRefines(s.rings[c], q[c]);
    if q[c] != [] {
      StatusMeaning(s.rings[c].Take(), q[c][1..]);
    }
  }

  lemma RingHolds<T>(s: Store<T>, q: seq<seq<T>>, size: nat, c: nat)
    requires Represents(s, q, size) && c < |q|
    ensures |q| == |s.rings| == |s.bits| && |s.rings[c].slots| == size && s.rings[c].Holds(q[c])
    ensures s.bits[c] <==> q[c] != []
  {
  }

  lemma BitsShowFrames<T>(s: Store<T>, q: seq<seq<T>>, size: nat)
    requires Represents(s, q, size)
    ensures s.Valid() && |q| == |s.rings| == |s.bits| && forall c :: 0 <= c < |q| ==> (s.bits[c] <==> q[c] != [])
  {
  }

  lemma {:induction false} DrainUpToRepresents<T>(s: Store<T>, q: seq<seq<T>>, size: nat, n: nat)
    requires Represents(s, q, size) && n <= |q|
    ensures Represents(s.DrainUpTo(s.bits, n), Fronts(q, n), size)
    ensures s.DrainUpTo(s.bits, n).sent == s.sent + Heads(q, n)
  {
    hide Represents, Store.TakeFront, Store.Valid, Fronts;
    BitsShowFrames(s, q, size);
    if n == 0 {
      assert Fronts(q, 0) == q;
    } else {
      var c := n - 1;
      DrainUpToRepresents(s, q, size, c);
      TakeRepresents(s.DrainUpTo(s.bits, c), Fronts(q, c), size, c);
      assert Fronts(q, n) == if q[c] == [] then Fronts(q, c) else Fronts(q, c)[c := q[c][1..]];
    }
  }

  /** A drain call takes the first frame of every queue that has one, and counts them. */
  lemma DrainRepresents<T>(s: Store<T>, q: seq<seq<T>>, size: nat)
    requires Represents(s, q, size)
    ensures Represents(s.Drained(), Fronts(q, |q|), size)
    ensures s.Drained().sent == s.sent + Heads(q, |q|)
  {
    DrainUpToRepresents(s, q, size, |q|);
  }

  /** What a drain call sends for a channel is the first frame of its queue. */
  lemma SendsFront<T>(s: Store<T>, q: seq<seq<T>>, size: nat, c: nat)
    requires Represents(s, q, size) && c < |q|
    ensures s.Sends(c) == if q[c] == [] then None else Some(q[c][0])
  {
    TakeRefines(s.rings[c], q[c]);
  }

  /** What a drain call does to one channel, whatever the rings hold. */
  lemma {:induction false} DrainTakes<T>(s: Store<T>, shown: seq<bool>, n: nat, c: nat)
    requires s.Valid() && n <= |s.rings| == |shown| && c < |s.rings|
    ensures var t, ring := s.DrainUpTo(shown, n), s.rings[c];
            && t.rings[c] == (if c < n && shown[c] then ring.Take() else ring)
            && t.bits[c] == (if c < n && shown[c] && !ring.IsEmpty() && ring.Take().IsEmpty() then false else s.bits[c])
  {
    hide Ring.Take, Ring.IsEmpty;
    if n > 0 {
      DrainTakes(s, shown, n - 1, c);
      if s.rings[c].IsEmpty() {
        TakeNothing(s.rings[c]);
      }
    }
  }

  /** One turn of a drain loop. */
  lemma DrainNext<T>(s: Store<T>, shown: seq<bool>, i: nat)
    requires s.Valid() && i < |s.rings| == |shown|
    ensures var t := s.DrainUpTo(shown, i);
            && s.DrainUpTo(shown, i + 1) == (if shown[i] then t.TakeFront(i) else t)
            && t.rings[i].Front() == s.rings[i].Front()
  {
    DrainTakes(s, shown, i, i);
  }

  lemma TakeNothing<T>(ring: Ring<T>)
    requires ring.WellFormed() && ring.IsEmpty()
    ensures ring.Take() == ring
  {
  }

  lemma {:induction false} NothingToDrain<T>(s: Store<T>, n: nat)
    requires s.Valid() && n <= |s.rings| && true !in s.bits
    ensures s.DrainUpTo(s.bits, n) == s
  {
    if n > 0 {
      NothingToDrain(s, n - 1);
    }
  }

  // ---- sums over the channels ----

  function Sum(s: seq<nat>): nat {
    if s == [] then 0 else Sum(s[..|s| - 1]) + s[|s| - 1]
  }

  lemma {:induction false} SumUpdate(s: seq<nat>, i: nat, x: nat)
    requires i < |s|
    ensures Sum(s[i := x]) == Sum(s) - s[i] + x
  {
    var n := |s| - 1;
    if i == n {
      assert s[i := x][..n] == s[..n];
    } else {
      assert s[i := x][..n] == s[..n][i := x];
      SumUpdate(s[..n], i, x);
    }
  }

  lemma {:induction false} SumZeros(s: seq<nat>)
    requires forall c :: 0 <= c < |s| ==> s[c] == 0
    ensures Sum(s) == 0
  {
    if s != [] {
      SumZeros(s[..|s| - 1]);
    }
  }

  function Lengths<T>(q: seq<seq<T>>): (s: seq<nat>)
    ensures |s| == |q| && forall c :: 0 <= c < |q| ==> s[c] == |q[c]|
  {
    seq(|q|, c requires 0 <= c < |q| => |q[c]|)
  }

  lemma AppendSum<T>(q: seq<seq<T>>, c: nat, x: T)
    requires c < |q|
    ensures Sum(Lengths(q[c := q[c] + [x]])) == Sum(Lengths(q)) + 1
  {
    assert Lengths(q[c := q[c] + [x]]) == Lengths(q)[c := |q[c]| + 1];
    SumUpdate(Lengths(q), c, |q[c]| + 1);
  }

  /** What a drain call takes is what the queues lose. */
  lemma {:induction false} HeadsSum<T>(q: seq<seq<T>>, n: nat)
    requires n <= |q|
    ensures Sum(Lengths(Fronts(q, n))) + Heads(q, n) == Sum(Lengths(q))
  {
    hide Fronts, Lengths, Sum;
    if n == 0 {
      assert Fronts(q, 0) == q;
    } else {
      HeadsSum(q, n - 1);
      var before, c := Lengths(Fronts(q, n - 1)), n - 1;
      if q[c] != [] {
        assert Lengths(Fronts(q, n)) == before[c := |q[c]| - 1];
        SumUpdate(before, c, |q[c]| - 1);
      } else {
        assert Fronts(q, n) == Fronts(q, c);
      }
    }
  }

  // ---- the code ----

  /** What filling and committing a slot does, in the code's steps. */
  lemma CommitSteps<T>(s: Store<T>, c: nat, x: T)
    requires s.Valid() && c < |s.rings| && !s.rings[c].IsFull()
    ensures var a := s.rings[c].Acquire();
            var f := a.(slots := a.slots[a.writeIndex := x]);
            && s.Commit(c, x) == Store(s.rings[c := f.(writeIndex := f.writeIndex + 1)], s.bits[c := true], s.sent)
            && s.Discard(c, x) == s.(rings := s.rings[c := f])
  {
  }

  /** The rings and the bitmap as the code keeps them; `can_device.c` and `asclin.c` each have one. */
  class FrameStore<T> {
    const size: nat
    const rings: seq<FrameRing<T>>
    var bitMap: seq<bool>
    var sent: nat

    ghost predicate Valid()
      reads this, rings, set r | r in rings :: r.slots
    {
      && |bitMap| == |rings|
      && Apart()
      && (forall c :: 0 <= c < |rings| ==> rings[c].View().WellFormed() && rings[c].slots.Length == size)
    }

    ghost predicate Apart() {
      forall c, d :: 0 <= c < d < |rings| ==> rings[c] != rings[d] && rings[c].slots != rings[d].slots
    }

    ghost function View(): (s: Store<T>)
      reads this, rings, set r | r in rings :: r.slots
      ensures |s.rings| == |rings| && forall c :: 0 <= c < |rings| ==> s.rings[c] == rings[c].View()
      ensures s.bits == bitMap && s.sent == sent
      ensures Valid() ==> s.Valid() && forall c :: 0 <= c < |s.rings| ==> |s.rings[c].slots| == size
    {
      Store(seq(|rings|, c requires 0 <= c < |rings| reads rings, set r | r in rings :: r.slots => rings[c].View()),
            bitMap, sent)
    }

    constructor (channels: nat, size: nat, blank: T)
      requires size >= 2
      ensures Valid() && |rings| == channels && this.size == size
      ensures fresh(rings) && forall r :: r in rings ==> fresh(r.slots)
      ensures Represents(View(), seq(channels, _ => []), size)
      ensures forall c :: 0 <= c < channels ==> rings[c].readIndex == 0
      ensures bitMap == seq(channels, _ => false) && sent == 0
    {
      var all: seq<FrameRing<T>> := [];
      while |all| < channels
        invariant |all| <= channels
        invariant forall c :: 0 <= c < |all| ==>
          fresh(all[c]) && fresh(all[c].slots) && all[c].slots.Length == size
          && all[c].View().Holds([]) && all[c].readIndex == 0
        invariant forall c, d :: 0 <= c < d < |all| ==> all[c] != all[d] && all[c].slots != all[d].slots
      {
        var r := new FrameRing<T>(size, blank);
        all := all + [r];
      }
      this.size := size;
      rings := all;
      bitMap := seq(channels, _ => false);
      sent := 0;
    }

    /** `get_next_*_frame_buffer`. */
    method GetNext(ch: nat) returns (slot: Option<nat>)
      requires Valid() && ch < |rings|
      modifies rings[ch]
      ensures Valid()
      ensures var s, ring := old(View()), old(View()).rings[ch];
              && (slot == if ring.IsFull() then None else Some(ring.Acquire().writeIndex))
              && View() == if ring.IsFull() then s else s.(rings := s.rings[ch := ring.Acquire()])
    {
      ghost var s := View();
      slot := rings[ch].GetNext();
      assert View().rings == s.rings[ch := rings[ch].View()];
    }

    /** The caller fills the slot that it was given. */
    method Fill(ch: nat, slot: nat, x: T)
      requires Valid() && ch < |rings| && slot < rings[ch].slots.Length
      modifies rings[ch].slots
      ensures Valid()
      ensures var s, ring := old(View()), old(View()).rings[ch];
              View() == s.(rings := s.rings[ch := ring.(slots := ring.slots[slot := x])])
    {
      ghost var s := View();
      rings[ch].slots[slot] := x;
      assert View().rings == s.rings[ch := rings[ch].View()];
    }

    /** `*_frame_write_done`. */
    method WriteDone(ch: nat)
      requires Valid() && ch < |rings| && rings[ch].writeIndex < rings[ch].slots.Length - 1
      modifies this`bitMap, rings[ch]
      ensures Valid()
      ensures var s, ring := old(View()), old(View()).rings[ch];
              View() == Store(s.rings[ch := ring.(writeIndex := ring.writeIndex + 1)], s.bits[ch := true], s.sent)
    {
      ghost var s := View();
      rings[ch].WriteDone();
      bitMap := bitMap[ch := true];
      assert View().rings == s.rings[ch := rings[ch].View()];
    }

    /** The slot that `GetNext` gave in state `before` is filled, and committed if it is wanted. */
    method FillSlot(ghost before: Store<T>, ch: nat, slot: nat, x: T, wanted: bool)
      requires Valid() && ch < |rings| && before.Valid() && |before.rings| == |rings| && !before.rings[ch].IsFull()
      requires View() == before.(rings := before.rings[ch := before.rings[ch].Acquire()])
      requires slot == before.rings[ch].Acquire().writeIndex
      modifies this`bitMap, rings[ch], rings[ch].slots
      ensures Valid()
      ensures View() == if wanted then before.Commit(ch, x) else before.Discard(ch, x)
    {
      hide Valid, View, Apart, Store.Commit, Store.Discard;
      CommitSteps(before, ch, x);
      assert View().rings[ch] == rings[ch].View();
      Fill(ch, slot, x);
      if wanted {
        WriteDone(ch);
      }
    }

    /** `put_next_*_frame_buffer`. */
    method PutNext(ch: nat) returns (slot: Option<nat>)
      requires Valid() && ch < |rings|
      modifies rings[ch]
      ensures Valid()
      ensures var s, ring := old(View()), old(View()).rings[ch];
              && (slot == if ring.IsEmpty() then None else Some(ring.Expose().readIndex))
              && View() == if ring.IsEmpty() then s else s.(rings := s.rings[ch := ring.Expose()])
    {
      ghost var s := View();
      slot := rings[ch].PutNext();
      assert View().rings == s.rings[ch := rings[ch].View()];
    }

    /** `*_frame_read_done`. */
    method ReadDone(ch: nat)
      requires Valid() && ch < |rings| && rings[ch].readIndex < rings[ch].slots.Length - 1
      modifies this`bitMap, rings[ch]
      ensures Valid()
      ensures var s := old(View());
              var ring := s.rings[ch].(readIndex := s.rings[ch].readIndex + 1);
              View() == Store(s.rings[ch := ring], if ring.IsEmpty() then s.bits[ch := false] else s.bits, s.sent)
    {
      ghost var s := View();
      var empty := rings[ch].ReadDone();
      if empty {
        bitMap := bitMap[ch := false];
      }
      assert View().rings == s.rings[ch := rings[ch].View()];
    }

    /** One channel of a drain call: the front frame is handed out, and the bit goes with the last
        one. */
    method TakeFront(ch: nat) returns (frame: Option<T>)
      requires Valid() && ch < |rings|
      modifies this`bitMap, this`sent, rings[ch]
      ensures Valid()
      ensures View() == old(View()).TakeFront(ch)
      ensures frame == old(View()).rings[ch].Front()
    {
      hide Apart, Valid, View;
      frame := None;
      assert View().rings[ch] == rings[ch].View() && View().Valid();
      var slot := PutNext(ch);
      if slot != None {
        frame := Some(rings[ch].slots[slot.value]);
        sent := sent + 1;
        ReadDone(ch);
      }
    }
  }
}
