/** Loading one flash page into the assembly buffer: bytes become pairs of little-endian words. */
module PagePacker {
  import opened Words

  /** One load of two words at an address. */
  datatype Load = Load(address: word, lower: bv32, upper: bv32)

  // ---- what a load means ----

  function BytesOf(w: bv32): seq<byte> {
    [(w & 0xFF) as bv8, ((w >> 8) & 0xFF) as bv8, ((w >> 16) & 0xFF) as bv8, ((w >> 24) & 0xFF) as bv8]
  }

  /** The bytes that a sequence of loads puts into the buffer, in order. */
  function Decode(loads: seq<Load>): seq<byte> {
    if loads == [] then []
    else Decode(loads[..|loads| - 1]) + BytesOf(loads[|loads| - 1].lower) + BytesOf(loads[|loads| - 1].upper)
  }

  /** The first `length` bytes, continued with zeros to a multiple of eight. */
  function Padded(data: seq<byte>, length: nat): (r: seq<byte>)
    requires length <= |data|
    ensures |r| % 8 == 0 && length <= |r| < length + 8
  {
    data[..length] + Zeros(if length % 8 == 0 then 0 else 8 - length % 8)
  }

  // ---- composing words ----

  function Compose(a: byte, b: byte, c: byte, d: byte): bv32 {
    (a as bv32) | ((b as bv32) << 8) | ((c as bv32) << 16) | ((d as bv32) << 24)
  }

  /** The number that four bytes stand for, the first one being the lowest. */
  function LittleEndian(b: seq<byte>): bv32
    requires |b| == 4
  {
    (b[0] as bv32) + 0x100 * (b[1] as bv32) + 0x1_0000 * (b[2] as bv32) + 0x100_0000 * (b[3] as bv32)
  }

  /** The two words of a load are the eight bytes at `k`, as numbers. */
  predicate HoldsGroup(load: Load, bytes: seq<byte>, k: nat) {
    && k + 8 <= |bytes|
    && load.lower == LittleEndian(bytes[k..k + 4])
    && load.upper == LittleEndian(bytes[k + 4..k + 8])
  }

  lemma ComposeNumber(a: byte, b: byte, c: byte, d: byte)
    ensures Compose(a, b, c, d) == LittleEndian([a, b, c, d])
  {
  }

  lemma ComposeBytes(a: byte, b: byte, c: byte, d: byte)
    ensures BytesOf(Compose(a, b, c, d)) == [a, b, c, d]
  {
  }

  /** The words of the tail cases are composed with zero bytes. */
  function One(a: byte): (w: bv32)
    ensures w == Compose(a, 0, 0, 0)
  {
    a as bv32
  }

  function Two(a: byte, b: byte): (w: bv32)
    ensures w == Compose(a, b, 0, 0)
  {
    One(a) | ((b as bv32) << 8)
  }

  function Three(a: byte, b: byte, c: byte): (w: bv32)
    ensures w == Compose(a, b, c, 0)
  {
    Two(a, b) | ((c as bv32) << 16)
  }

  function Nothing(): (w: bv32)
    ensures w == Compose(0, 0, 0, 0)
  {
    0
  }

  /** Byte `k` of the group at `offset`, or zero behind the end of the page. */
  function At(data: seq<byte>, length: nat, k: nat): byte
    requires length <= |data|
  {
    if k < length then data[k] else 0
  }

  // ---- the code ----

  /** The two words of the group at `offset`, with the tail cases of one to seven bytes. */
  method PackGroup(data: seq<byte>, length: nat, offset: nat) returns (wordL: bv32, wordU: bv32)
    requires offset < length <= |data|
    ensures wordL == Compose(At(data, length, offset), At(data, length, offset + 1),
                             At(data, length, offset + 2), At(data, length, offset + 3))
    ensures wordU == Compose(At(data, length, offset + 4), At(data, length, offset + 5),
                             At(data, length, offset + 6), At(data, length, offset + 7))
  {
    hide Compose;
    wordL, wordU := Nothing(), Nothing();
    var remaining := length - offset;
    if remaining >= 8 {
      wordL := Compose(data[offset], data[offset + 1], data[offset + 2], data[offset + 3]);
      wordU := Compose(data[offset + 4], data[offset + 5], data[offset + 6], data[offset + 7]);
    } else if remaining >= 4 {
      wordL := Compose(data[offset], data[offset + 1], data[offset + 2], data[offset + 3]);
      if remaining >= 5 {
        wordU := One(data[offset + 4]);
        if remaining >= 6 { wordU := wordU | ((data[offset + 5] as bv32) << 8); }
        if remaining >= 7 { wordU := wordU | ((data[offset + 6] as bv32) << 16); }
        TailIs(data, length, offset + 4, remaining - 4, wordU);
      }
    } else {
      wordL := One(data[offset]);
      if remaining >= 2 { wordL := wordL | ((data[offset + 1] as bv32) << 8); }
      if remaining >= 3 { wordL := wordL | ((data[offset + 2] as bv32) << 16); }
      TailIs(data, length, offset, remaining, wordL);
    }
  }

  /** A word built from one to three bytes, one after the other. */
  lemma TailIs(data: seq<byte>, length: nat, k: nat, n: nat, w: bv32)
    requires 1 <= n <= 3 && k + n == length <= |data|
    requires w == if n == 1 then One(data[k])
                  else if n == 2 then One(data[k]) | ((data[k + 1] as bv32) << 8)
                  else One(data[k]) | ((data[k + 1] as bv32) << 8) | ((data[k + 2] as bv32) << 16)
    ensures w == Compose(At(data, length, k), At(data, length, k + 1), At(data, length, k + 2), At(data, length, k + 3))
  {
    hide Compose;
    if n == 2 { assert w == Two(data[k], data[k + 1]); }
    if n == 3 { assert w == Three(data[k], data[k + 1], data[k + 2]); }
  }

  /** Four padded bytes. */
  function Four(data: seq<byte>, length: nat, k: nat): seq<byte>
    requires length <= |data|
  {
    [At(data, length, k), At(data, length, k + 1), At(data, length, k + 2), At(data, length, k + 3)]
  }

  lemma FourBytes(data: seq<byte>, length: nat, k: nat)
    requires length <= |data|
    ensures var w := Compose(At(data, length, k), At(data, length, k + 1),
                             At(data, length, k + 2), At(data, length, k + 3));
            BytesOf(w) == Four(data, length, k) && w == LittleEndian(Four(data, length, k))
  {
    hide Compose, LittleEndian, BytesOf, At;
    ComposeBytes(At(data, length, k), At(data, length, k + 1), At(data, length, k + 2), At(data, length, k + 3));
    ComposeNumber(At(data, length, k), At(data, length, k + 1), At(data, length, k + 2), At(data, length, k + 3));
  }

  /** The eight padded bytes at `offset`. */
  function Group(data: seq<byte>, length: nat, offset: nat): seq<byte>
    requires length <= |data|
  {
    Four(data, length, offset) + Four(data, length, offset + 4)
  }

  lemma NextGroup(data: seq<byte>, length: nat, offset: nat)
    requires offset < length <= |data| && offset % 8 == 0
    ensures offset + 8 <= |Padded(data, length)|
    ensures Padded(data, length)[..offset + 8] == Padded(data, length)[..offset] + Group(data, length, offset)
  {
    var p := Padded(data, length);
    assert forall k :: 0 <= k < |p| ==> p[k] == At(data, length, k);
  }

  /** One load: its two words decode to the padded group. */
  method LoadGroup(start: word, data: seq<byte>, length: nat, offset: nat) returns (load: Load)
    requires offset < length <= |data|
    ensures load.address == (start + offset) % WORD_LIMIT
    ensures BytesOf(load.lower) + BytesOf(load.upper) == Group(data, length, offset)
    ensures offset % 8 == 0 ==> HoldsGroup(load, Padded(data, length), offset)
  {
    hide At, Compose, BytesOf, LittleEndian;
    var wordL, wordU := PackGroup(data, length, offset);
    FourBytes(data, length, offset);
    FourBytes(data, length, offset + 4);
    load := Load((start + offset) % WORD_LIMIT, wordL, wordU);
    if offset % 8 == 0 { GroupSlices(data, length, offset); }
  }

  /** `writePFLASH`, up to the write command: for any page length, the loads decode to the bytes
      of the page padded with zeros, and each group of eight is loaded once, at its own offset. */
  method LoadPage(start: word, data: seq<byte>, length: nat) returns (loads: seq<Load>)
    requires length <= |data|
    ensures Decode(loads) == Padded(data, length)
    ensures |loads| == (length + 7) / 8
    ensures forall k :: 0 <= k < |loads| ==> loads[k].address == (start + 8 * k) % WORD_LIMIT
    ensures loads != [] ==> loads[0].address == start
    ensures forall k :: 0 <= k < |loads| - 1 ==> loads[k + 1].address == (loads[k].address + 8) % WORD_LIMIT
    ensures start + length <= WORD_LIMIT ==> forall k :: 0 <= k < |loads| ==> loads[k].address == start + 8 * k
    ensures forall k :: 0 <= k < |loads| ==> HoldsGroup(loads[k], Padded(data, length), 8 * k)
  {
    hide BytesOf, Padded, Group, Decode, LittleEndian, Four, HoldsGroup;
    loads := [];
    var offset := 0;
    assert Decode([]) == [] by { DecodeNothing(); }
    while offset < length
      invariant offset == 8 * |loads| && offset <= |Padded(data, length)|
      invariant Decode(loads) == Padded(data, length)[..offset]
      invariant forall k :: 0 <= k < |loads| ==> loads[k].address == (start + 8 * k) % WORD_LIMIT
      invariant forall k :: 0 <= k < |loads| ==> HoldsGroup(loads[k], Padded(data, length), 8 * k)
    {
      var load := LoadGroup(start, data, length, offset);
      NextGroup(data, length, offset);
      DecodeNext(loads, load, Group(data, length, offset));
      loads := loads + [load];
      offset := offset + 8;
    }
    assert Padded(data, length)[..offset] == Padded(data, length);
    EightApart(start, loads, length);
  }

  /** Addresses that are eight apart from `start` on. */
  lemma EightApart(start: word, loads: seq<Load>, length: nat)
    requires |loads| == (length + 7) / 8
    requires forall k :: 0 <= k < |loads| ==> loads[k].address == (start + 8 * k) % WORD_LIMIT
    ensures loads != [] ==> loads[0].address == start
    ensures forall k :: 0 <= k < |loads| - 1 ==> loads[k + 1].address == (loads[k].address + 8) % WORD_LIMIT
    ensures start + length <= WORD_LIMIT ==> forall k :: 0 <= k < |loads| ==> loads[k].address == start + 8 * k
  {
    forall k | 0 <= k < |loads| - 1 ensures loads[k + 1].address == (loads[k].address + 8) % WORD_LIMIT {
      EightMore(start + 8 * k);
      assert start + 8 * (k + 1) == start + 8 * k + 8;
    }
  }

  lemma EightMore(x: nat)
    ensures (x % WORD_LIMIT + 8) % WORD_LIMIT == (x + 8) % WORD_LIMIT
  {
    var q, r := x / WORD_LIMIT, x % WORD_LIMIT;
    assert x + 8 == if r + 8 < WORD_LIMIT then q * WORD_LIMIT + (r + 8)
                    else (q + 1) * WORD_LIMIT + (r + 8 - WORD_LIMIT);
  }

  lemma GroupSlices(data: seq<byte>, length: nat, offset: nat)
    requires offset < length <= |data| && offset % 8 == 0
    ensures offset + 8 <= |Padded(data, length)|
    ensures Padded(data, length)[offset..offset + 4] == Four(data, length, offset)
    ensures Padded(data, length)[offset + 4..offset + 8] == Four(data, length, offset + 4)
  {
    var p := Padded(data, length);
    assert forall k :: 0 <= k < |p| ==> p[k] == At(data, length, k);
  }

  lemma DecodeNothing()
    ensures Decode([]) == []
  {
  }

  lemma DecodeNext(loads: seq<Load>, load: Load, bytes: seq<byte>)
    requires bytes == BytesOf(load.lower) + BytesOf(load.upper)
    ensures Decode(loads + [load]) == Decode(loads) + bytes
  {
    hide BytesOf;
    var next := loads + [load];
    assert next[..|next| - 1] == loads;
  }
}
