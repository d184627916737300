/** The frame ring shared by the CAN and LIN receivers: two indices, each with a mirror bit,
    that wrap when a slot is asked for and not when it is done with. */
module FrameRings {
  import opened Words

  datatype Ring<T> = Ring(slots: seq<T>, readIndex: nat, readMirror: bool, writeIndex: nat, writeMirror: bool) {
    /** The index at which both sides wrap; the slot there is never used. */
    function Last(): int {
      |slots| - 1
    }

    predicate WellFormed() {
      |slots| >= 2 && readIndex <= Last() && writeIndex <= Last()
    }

    predicate IsEmpty() {
      readIndex == writeIndex && readMirror == writeMirror
    }

    predicate IsFull() {
      readIndex == writeIndex && readMirror != writeMirror
    }

    /** `get_next_*_frame_buffer` when the ring is not full: a pending wrap is carried out,
        and the slot to fill is the one at the write index. */
    function Acquire(): (r: Ring<T>)
      requires WellFormed()
      ensures r.WellFormed() && r.writeIndex < Last()
    {
      if writeIndex == Last() then this.(writeIndex := 0, writeMirror := !writeMirror) else this
    }

    /** A handler that fills the slot and calls `*_frame_write_done`; a full ring stays. */
    function Put(x: T): (r: Ring<T>)
      requires WellFormed()
      ensures r.WellFormed() && |r.slots| == |slots|
    {
      if IsFull() then this
      else
        var a := Acquire();
        a.(slots := a.slots[a.writeIndex := x], writeIndex := a.writeIndex + 1)
    }

    /** A handler that fills the slot and then does not commit it. */
    function Discard(x: T): (r: Ring<T>)
      requires WellFormed()
      ensures r.WellFormed() && |r.slots| == |slots|
    {
      if IsFull() then this else var a := Acquire(); a.(slots := a.slots[a.writeIndex := x])
    }

    /** `put_next_*_frame_buffer` when the ring is not empty. */
    function Expose(): (r: Ring<T>)
      requires WellFormed()
      ensures r.WellFormed() && r.readIndex < Last()
    {
      if readIndex == Last() then this.(readIndex := 0, readMirror := !readMirror) else this
    }

    /** The frame that a drain takes, if any. */
    function Front(): Option<T>
      requires WellFormed()
    {
      if IsEmpty() then None else Some(slots[Expose().readIndex])
    }

    function Take(): (r: Ring<T>)
      requires WellFormed()
      ensures r.WellFormed() && |r.slots| == |slots|
    {
      if IsEmpty() then this else var e := Expose(); e.(readIndex := e.readIndex + 1)
    }

    // ---- as a bounded queue ----

    /** Frames that the ring holds, by its indices. */
    function Count(): int {
      writeIndex - readIndex + if readMirror == writeMirror then 0 else Last()
    }

    /** The slot of the `k`-th frame to be read. */
    function SlotOf(k: nat): int {
      if readIndex + k < Last() then readIndex + k else readIndex + k - Last()
    }

    /** The indices are those of a ring with `n` frames. */
    predicate Shaped(n: nat) {
      && WellFormed()
      && n == Count() <= Last()
      && (writeIndex == 0 ==> readIndex == 0 && readMirror == writeMirror)
    }

    /** The ring holds the frames `q`, the next one to be read first. */
    ghost predicate Holds(q: seq<T>) {
      && Shaped(|q|)
      && (forall k :: 0 <= k < |q| ==> 0 <= SlotOf(k) < Last() && slots[SlotOf(k)] == q[k])
    }

    /** `t` differs in the content of slots at most. */
    ghost predicate SameIndices(t: Ring<T>) {
      t == this.(slots := t.slots) && |t.slots| == |slots|
    }

    /** `t` has the same frames that are still to be read. */
    ghost predicate SparedBy(t: Ring<T>)
      requires SameIndices(t)
    {
      forall k :: 0 <= k < Count() && 0 <= SlotOf(k) < |slots| ==> t.slots[SlotOf(k)] == slots[SlotOf(k)]
    }

    /** The frames in the ring, the next one to be read first. */
    function Contents(): (q: seq<T>)
      ensures Holds(q) ==> |q| == Count()
    {
      if WellFormed() && 0 <= Count() <= Last()
      then seq(Count(), k requires 0 <= k < Count() <= Last() && WellFormed() => slots[SlotOf(k)])
      else []
    }

    /** The one state in which the full test fails: as many frames as the ring can hold, and
        none ever read. */
    predicate FullUnseen() {
      readIndex == 0 && writeIndex == Last()
    }
  }

  /** A ring holds no other queue than its contents. */
  lemma HeldIsContents<T>(ring: Ring<T>, q: seq<T>)
    requires ring.Holds(q)
    ensures q == ring.Contents()
  {
  }

  /** The empty test is exact; the full test is exact unless nothing was ever read. */
  lemma StatusMeaning<T>(ring: Ring<T>, q: seq<T>)
    requires ring.Holds(q)
    ensures ring.IsEmpty() <==> q == []
    ensures ring.IsFull() <==> |q| == ring.Last() && ring.readIndex > 0
    ensures ring.FullUnseen() <==> |q| == ring.Last() && ring.readIndex == 0
  {
  }

  /** A commit appends to the queue, or leaves a full ring alone: exactly unless the ring is
      full and unseen. In that state the new frame takes the place of the oldest one. */
  lemma PutRefines<T>(ring: Ring<T>, q: seq<T>, x: T)
    requires ring.Holds(q)
    ensures |q| < ring.Last() ==> ring.Put(x).Holds(q + [x])
    ensures |q| == ring.Last() && !ring.FullUnseen() ==> ring.Put(x) == ring
    ensures ring.FullUnseen() ==> ring.Put(x).Front() == Some(x) && ring.Put(x) != ring
    ensures (if |q| < ring.Last() then ring.Put(x).Holds(q + [x]) else ring.Put(x).Holds(q))
            <==> !ring.FullUnseen()
    ensures ring.Put(x).readIndex == ring.readIndex
  {
  }

  /** A ring whose slots were changed still holds its queue exactly when its unread frames were
      spared. */
  lemma SparedHolds<T>(ring: Ring<T>, t: Ring<T>, q: seq<T>)
    requires ring.Holds(q) && ring.SameIndices(t)
    ensures t.Shaped(|q|)
    ensures t.Holds(q) <==> ring.SparedBy(t)
  {
    assert forall k :: 0 <= k < |q| ==> t.SlotOf(k) == ring.SlotOf(k);
  }

  /** A commit to a ring that is not full appends to its queue exactly when the ring held the queue
      before, and was not full and unseen. */
  lemma PutExact<T>(ring: Ring<T>, q: seq<T>, x: T)
    requires ring.Shaped(|q|) && !ring.IsFull()
    ensures ring.Put(x).Holds(q + [x]) <==> ring.Holds(q) && !ring.FullUnseen()
  {
    var after := ring.Put(x);
    if ring.FullUnseen() {
      assert |q + [x]| > ring.Last();
    } else {
      forall k | 0 <= k < |q|
        ensures after.SlotOf(k) == ring.SlotOf(k) && after.slots[ring.SlotOf(k)] == ring.slots[ring.SlotOf(k)]
      {
      }
      if after.Holds(q + [x]) {
        forall k | 0 <= k < |q| ensures ring.slots[ring.SlotOf(k)] == q[k] {
          assert after.slots[after.SlotOf(k)] == (q + [x])[k];
        }
      }
      if ring.Holds(q) {
        PutRefines(ring, q, x);
      }
    }
  }

  /** A take removes the front of the queue. */
  lemma TakeRefines<T>(ring: Ring<T>, q: seq<T>)
    requires ring.Holds(q)
    ensures q == [] ==> ring.Front() == None && ring.Take() == ring
    ensures q != [] ==> ring.Front() == Some(q[0]) && ring.Take().Holds(q[1..]) && ring.Take().readIndex > 0
  {
  }

  /** A slot that is filled and not committed leaves the queue as it was exactly when no wrap
      was pending, or the ring was full. */
  lemma DiscardExact<T>(ring: Ring<T>, q: seq<T>, x: T)
    requires ring.Shaped(|q|)
    ensures ring.Discard(x).Holds(q) <==> ring.Holds(q) && (ring.IsFull() || ring.writeIndex < ring.Last())
  {
    if !ring.IsFull() && ring.writeIndex < ring.Last() {
      assert ring.SameIndices(ring.Discard(x));
      assert forall k :: 0 <= k < |q| ==>
        ring.SlotOf(k) != ring.writeIndex && ring.Discard(x).SlotOf(k) == ring.SlotOf(k);
    }
  }

  /** After a discard with a wrap pending, a ring without frames no longer looks empty, and a
      drain would hand out the frame that was never committed. */
  lemma DiscardHidesEmpty<T>(ring: Ring<T>, x: T)
    requires ring.Holds([]) && ring.writeIndex == ring.Last()
    ensures !ring.Discard(x).IsEmpty() && ring.Discard(x).Front() == Some(x)
  {
  }

  // ---- the code ----

  class FrameRing<T> {
    const slots: array<T>
    var readIndex: nat
    var readMirror: bool
    var writeIndex: nat
    var writeMirror: bool

    function View(): Ring<T>
      reads this, slots
    {
      Ring(slots[..], readIndex, readMirror, writeIndex, writeMirror)
    }

    constructor (capacity: nat, blank: T)
      requires capacity >= 2
      ensures fresh(slots) && slots.Length == capacity
      ensures View().WellFormed() && View().Holds([]) && readIndex == 0
    {
      slots := new T[capacity](_ => blank);
      readIndex, readMirror, writeIndex, writeMirror := 0, false, 0, false;
    }

    /** `get_next_can_frame_buffer`, `get_next_lin_frame_buffer`: the slot to fill. */
    method GetNext() returns (slot: Option<nat>)
      requires View().WellFormed()
      modifies this
      ensures View() == if old(View()).IsFull() then old(View()) else old(View()).Acquire()
      ensures slot == if old(View()).IsFull() then None else Some(View().writeIndex)
    {
      if readIndex == writeIndex && readMirror != writeMirror {
        return None;
      }
      if writeIndex == slots.Length - 1 {
        writeIndex := 0;
        writeMirror := !writeMirror;
      }
      slot := Some(writeIndex);
    }

    /** `can_frame_write_done`, `lin_frame_write_done`, apart from the bitmap. */
    method WriteDone()
      requires View().WellFormed() && writeIndex < slots.Length - 1
      modifies this
      ensures View() == old(View()).(writeIndex := old(writeIndex) + 1)
    {
      writeIndex := writeIndex + 1;
    }

    /** `put_next_can_frame_buffer`, `put_next_lin_frame_buffer`: the slot to send. */
    method PutNext() returns (slot: Option<nat>)
      requires View().WellFormed()
      modifies this
      ensures View() == if old(View()).IsEmpty() then old(View()) else old(View()).Expose()
      ensures slot == if old(View()).IsEmpty() then None else Some(View().readIndex)
    {
      if readIndex == writeIndex && readMirror == writeMirror {
        return None;
      }
      if readIndex == slots.Length - 1 {
        readIndex := 0;
        readMirror := !readMirror;
      }
      slot := Some(readIndex);
    }

    /** `can_frame_read_done`, `lin_frame_read_done`: whether the ring is empty now. */
    method ReadDone() returns (empty: bool)
      requires View().WellFormed() && readIndex < slots.Length - 1
      modifies this
      ensures View() == old(View()).(readIndex := old(readIndex) + 1)
      ensures empty == View().IsEmpty()
    {
      readIndex := readIndex + 1;
      empty := readIndex == writeIndex && readMirror == writeMirror;
    }
  }
}
