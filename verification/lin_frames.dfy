/** The slots of the LIN rings in memory: twelve bytes each, one ring behind the other. A response is
    copied into a slot with as many bytes as its header announced, whether they fit or not. */
module LinFrames {
  import opened Words
  import opened FrameRings
  import opened FrameStores

  const CHANNELS: nat := 16
  const STORE_FRAMES: nat := 40
  const MAX_LENGTH: octet := 8
  const HEAD_BYTES: nat := 4
  const SLOT_BYTES: nat := 12

  type Channel = c: nat | c < CHANNELS

  type Data = s: seq<byte> | |s| == MAX_LENGTH witness seq(MAX_LENGTH, _ => 0)

  datatype Frame = Frame(channel: octet, pid: octet, dir: octet, dl: octet, data: Data)

  const BLANK_FRAME := Frame(0, 0, 0, 0, seq(MAX_LENGTH, _ => 0))

  type Rings = s: seq<Ring<Frame>> |
      |s| == CHANNELS && forall c :: 0 <= c < CHANNELS ==> s[c].WellFormed() && |s[c].slots| == STORE_FRAMES
    witness seq(CHANNELS, _ => Ring(seq(STORE_FRAMES, _ => BLANK_FRAME), 0, false, 0, false))

  type ChannelStore = s: Store<Frame> |
      s.Valid() && |s.rings| == CHANNELS && forall c :: 0 <= c < CHANNELS ==> |s.rings[c].slots| == STORE_FRAMES
    witness Store(seq(CHANNELS, _ => Ring(seq(STORE_FRAMES, _ => BLANK_FRAME), 0, false, 0, false)),
                  seq(CHANNELS, _ => false), 0)

  // ---- what a response writes ----

  /** Byte `k` of the response buffer and of what lies behind it, as far as it is given. */
  function ByteAt(bytes: seq<byte>, k: nat): byte {
    if k < |bytes| then bytes[k] else 0
  }

  /** The data of a slot after `dl` bytes were copied to it. */
  function DataAfter(was: Data, bytes: seq<byte>, dl: octet): Data {
    seq(MAX_LENGTH, k requires 0 <= k < MAX_LENGTH => if k < dl then ByteAt(bytes, k) else was[k])
  }

  /** The bytes that do not fit into the data of the slot. */
  function Behind(bytes: seq<byte>, dl: octet): (rest: seq<byte>)
    ensures |rest| == if dl > MAX_LENGTH then dl - MAX_LENGTH else 0
    ensures forall k :: 0 <= k < |rest| ==> rest[k] == ByteAt(bytes, MAX_LENGTH + k)
  {
    seq(if dl > MAX_LENGTH then dl - MAX_LENGTH else 0, k requires k >= 0 => ByteAt(bytes, MAX_LENGTH + k))
  }

  function Over(was: octet, b: seq<byte>, k: nat): octet {
    if k < |b| then b[k] as int else was
  }

  /** A slot with `b` written over its beginning. */
  function Overwritten(f: Frame, b: seq<byte>): Frame {
    Frame(Over(f.channel, b, 0), Over(f.pid, b, 1), Over(f.dir, b, 2), Over(f.dl, b, 3),
          seq(MAX_LENGTH, k requires 0 <= k < MAX_LENGTH =>
            if HEAD_BYTES + k < |b| then b[HEAD_BYTES + k] else f.data[k]))
  }

  /** The data after a response are the first bytes of the response, in order, and what the slot held
      behind them. */
  lemma DataMeaning(was: Data, bytes: seq<byte>, dl: octet, n: nat)
    requires n <= dl && n <= MAX_LENGTH && n <= |bytes|
    ensures DataAfter(was, bytes, dl)[..n] == bytes[..n]
    ensures dl <= MAX_LENGTH ==> DataAfter(was, bytes, dl)[dl..] == was[dl..]
  {
  }

  /** What does not fit is the rest of the response, in order. */
  lemma BehindMeaning(bytes: seq<byte>, dl: octet)
    requires MAX_LENGTH < dl <= |bytes|
    ensures Behind(bytes, dl) == bytes[MAX_LENGTH..dl]
  {
    var rest, slice := Behind(bytes, dl), bytes[MAX_LENGTH..dl];
    forall k | 0 <= k < |rest| ensures rest[k] == slice[k] {
      assert slice[k] == bytes[MAX_LENGTH + k];
    }
  }

  /** Byte `k` of a slot as it lies in memory. */
  function SlotByte(f: Frame, k: nat): octet
    requires k < SLOT_BYTES
  {
    if k == 0 then f.channel else if k == 1 then f.pid else if k == 2 then f.dir else if k == 3 then f.dl
    else f.data[k - HEAD_BYTES] as int
  }

  /** Writing over a slot is writing over its bytes, in order. */
  lemma OverwrittenMeaning(f: Frame, b: seq<byte>, k: nat)
    requires k < SLOT_BYTES
    ensures SlotByte(Overwritten(f, b), k) == if k < |b| then b[k] as int else SlotByte(f, k)
  {
  }

  function SetSlot(rings: Rings, c: Channel, i: nat, f: Frame): Rings
    requires i < STORE_FRAMES
  {
    rings[c := rings[c].(slots := rings[c].slots[i := f])]
  }

  /** `rest` written from slot `i` of ring `c` on, over as many slots as it takes; what lies behind
      the last ring is not part of this model. */
  function Spill(rings: Rings, c: nat, i: nat, rest: seq<byte>): Rings
    requires i < STORE_FRAMES
    decreases |rest|
  {
    if rest == [] || c >= CHANNELS then rings
    else
      var over := SetSlot(rings, c, i, Overwritten(rings[c].slots[i], rest));
      var left := if |rest| <= SLOT_BYTES then [] else rest[SLOT_BYTES..];
      if i + 1 < STORE_FRAMES then Spill(over, c, i + 1, left) else Spill(over, c + 1, 0, left)
  }

  /** The rings after the bytes that do not fit were written behind the slot for channel `ch`. */
  function Spilled(s: ChannelStore, ch: Channel, bytes: seq<byte>, dl: octet): (t: ChannelStore)
    ensures t.bits == s.bits && t.sent == s.sent
  {
    s.(rings := Spill(s.rings, ch, s.rings[ch].Acquire().writeIndex + 1, Behind(bytes, dl)))
  }

  // ---- what it changes ----

  lemma {:induction false} SpillShape(rings: Rings, c: nat, i: nat, rest: seq<byte>, d: Channel)
    requires i < STORE_FRAMES
    ensures rings[d].SameIndices(Spill(rings, c, i, rest)[d])
    decreases |rest|
  {
    hide Overwritten;
    if rest != [] && c < CHANNELS {
      var over := SetSlot(rings, c, i, Overwritten(rings[c].slots[i], rest));
      var left := if |rest| <= SLOT_BYTES then [] else rest[SLOT_BYTES..];
      if i + 1 < STORE_FRAMES {
        SpillShape(over, c, i + 1, left, d);
      } else {
        SpillShape(over, c + 1, 0, left, d);
      }
    }
  }

  lemma SpilledShape(s: ChannelStore, ch: Channel, bytes: seq<byte>, dl: octet)
    ensures SameShape(s, Spilled(s, ch, bytes, dl))
  {
    forall d: Channel ensures s.rings[d].SameIndices(Spilled(s, ch, bytes, dl).rings[d]) {
      SpillShape(s.rings, ch, s.rings[ch].Acquire().writeIndex + 1, Behind(bytes, dl), d);
    }
  }

  /** A response of at most eight bytes changes nothing but its slot. */
  lemma ShortFits(s: ChannelStore, ch: Channel, bytes: seq<byte>, dl: octet)
    requires dl <= MAX_LENGTH
    ensures Spilled(s, ch, bytes, dl) == s
  {
  }

  /** The place of a slot among all slots. */
  function Place(c: nat, i: nat): nat {
    c * STORE_FRAMES + i
  }

  /** A response of `n` bytes too many reaches the next `n / 12` slots, rounded up, and no other. */
  lemma {:induction false} SpillElsewhere(rings: Rings, c: nat, i: nat, rest: seq<byte>, d: Channel, j: nat)
    requires i < STORE_FRAMES && j < STORE_FRAMES
    requires Place(d, j) < Place(c, i) || Place(d, j) >= Place(c, i) + (|rest| + SLOT_BYTES - 1) / SLOT_BYTES
    ensures Spill(rings, c, i, rest)[d].slots[j] == rings[d].slots[j]
    decreases |rest|
  {
    hide Overwritten;
    if rest != [] && c < CHANNELS {
      var over := SetSlot(rings, c, i, Overwritten(rings[c].slots[i], rest));
      var left := if |rest| <= SLOT_BYTES then [] else rest[SLOT_BYTES..];
      assert Place(d, j) != Place(c, i);
      assert over[d].slots[j] == rings[d].slots[j];
      if i + 1 < STORE_FRAMES {
        SpillElsewhere(over, c, i + 1, left, d, j);
      } else {
        SpillElsewhere(over, c + 1, 0, left, d, j);
      }
    }
  }

  /** The `m`-th slot from the first one is written over with the bytes from `12 * m` on. */
  lemma {:induction false} SpillReaches(rings: Rings, c: nat, i: nat, rest: seq<byte>, d: Channel, j: nat, m: nat)
    requires i < STORE_FRAMES && j < STORE_FRAMES && c < CHANNELS
    requires Place(d, j) == Place(c, i) + m && SLOT_BYTES * m < |rest|
    ensures Spill(rings, c, i, rest)[d].slots[j] == Overwritten(rings[d].slots[j], rest[SLOT_BYTES * m..])
    decreases |rest|
  {
    hide Overwritten;
    var over := SetSlot(rings, c, i, Overwritten(rings[c].slots[i], rest));
    var left := if |rest| <= SLOT_BYTES then [] else rest[SLOT_BYTES..];
    if m == 0 {
      SpillFirst(rings, c, i, rest);
      assert rest[SLOT_BYTES * 0..] == rest;
    } else {
      assert left[SLOT_BYTES * (m - 1)..] == rest[SLOT_BYTES * m..];
      assert over[d].slots[j] == rings[d].slots[j];
      if i + 1 < STORE_FRAMES {
        SpillReaches(over, c, i + 1, left, d, j, m - 1);
      } else {
        SpillReaches(over, c + 1, 0, left, d, j, m - 1);
      }
    }
  }

  /** The first slot that it reaches. */
  lemma SpillFirst(rings: Rings, c: Channel, i: nat, rest: seq<byte>)
    requires i < STORE_FRAMES && rest != []
    ensures Spill(rings, c, i, rest)[c].slots[i] == Overwritten(rings[c].slots[i], rest)
  {
    hide Overwritten;
    var over := SetSlot(rings, c, i, Overwritten(rings[c].slots[i], rest));
    var left := if |rest| <= SLOT_BYTES then [] else rest[SLOT_BYTES..];
    if i + 1 < STORE_FRAMES {
      SpillElsewhere(over, c, i + 1, left, c, i);
    } else {
      SpillElsewhere(over, c + 1, 0, left, c, i);
    }
  }

  /** A pending wrap of a ring makes no difference to the content of slots. */
  lemma {:induction false} SpillAcquired(rings: Rings, c: nat, i: nat, rest: seq<byte>, d: Channel)
    requires i < STORE_FRAMES
    ensures Spill(rings[d := rings[d].Acquire()], c, i, rest)
            == Spill(rings, c, i, rest)[d := Spill(rings, c, i, rest)[d].Acquire()]
    decreases |rest|
  {
    hide Overwritten;
    if rest != [] && c < CHANNELS {
      var acquired := rings[d := rings[d].Acquire()];
      var f := Overwritten(rings[c].slots[i], rest);
      var over := SetSlot(rings, c, i, f);
      var left := if |rest| <= SLOT_BYTES then [] else rest[SLOT_BYTES..];
      assert SetSlot(acquired, c, i, f) == over[d := over[d].Acquire()];
      if i + 1 < STORE_FRAMES {
        SpillAcquired(over, c, i + 1, left, d);
      } else {
        SpillAcquired(over, c + 1, 0, left, d);
      }
    }
  }

  lemma SpillNext(rings: Rings, c: Channel, i: nat, rest: seq<byte>)
    requires i < STORE_FRAMES && rest != []
    ensures var over := SetSlot(rings, c, i, Overwritten(rings[c].slots[i], rest));
            var left := if |rest| <= SLOT_BYTES then [] else rest[SLOT_BYTES..];
            Spill(rings, c, i, rest)
            == if i + 1 < STORE_FRAMES then Spill(over, c, i + 1, left) else Spill(over, c + 1, 0, left)
  {
  }

  lemma SpillDone(rings: Rings, c: nat, i: nat, rest: seq<byte>)
    requires i < STORE_FRAMES && (rest == [] || c >= CHANNELS)
    ensures Spill(rings, c, i, rest) == rings
  {
  }

  /** What is written behind the slot of a ring does not depend on whether its wrap was carried out. */
  lemma SpilledAcquired(s: ChannelStore, ch: Channel, bytes: seq<byte>, dl: octet)
    ensures var t, w := Spilled(s, ch, bytes, dl), s.rings[ch].Acquire().writeIndex;
            && Spill(s.rings[ch := s.rings[ch].Acquire()], ch, w + 1, Behind(bytes, dl))
               == t.rings[ch := t.rings[ch].Acquire()]
            && (t.rings[ch].IsFull() <==> s.rings[ch].IsFull()) && t.rings[ch].Acquire().writeIndex == w
  {
    SpillAcquired(s.rings, ch, s.rings[ch].Acquire().writeIndex + 1, Behind(bytes, dl), ch);
    SpillShape(s.rings, ch, s.rings[ch].Acquire().writeIndex + 1, Behind(bytes, dl), ch);
  }

  // ---- what a drain call sends ----

  /** An element of the UDP payload: the data is cut to its length. */
  datatype UdpFrame = UdpFrame(channel: octet, pid: octet, dir: octet, dl: octet, data: seq<byte>)

  function Pack(f: Frame): UdpFrame {
    UdpFrame(f.channel, f.pid, f.dir, f.dl, if f.dl <= MAX_LENGTH then f.data[..f.dl] else f.data)
  }

  /** An element of the payload is that of a frame: its fields one by one, and as many bytes of its data as
      it announces. */
  predicate Carries(u: UdpFrame, f: Frame) {
    && u.channel == f.channel && u.pid == f.pid && u.dir == f.dir && u.dl == f.dl
    && (f.dl <= 8 ==> |u.data| == f.dl && u.data == f.data[..|u.data|])
  }

  lemma PackCarries(f: Frame)
    ensures Carries(Pack(f), f)
  {
  }
}
