/** The start-up code's copy of initialised sections and its clearing of zero sections: word
    loops with a byte tail, against byte-wise copying. Addresses index one memory. */
module StartupCopy {
  import opened Words

  datatype CopySection = CopySection(ramStart: nat, romStart: nat, romEnd: nat) {
    predicate Ordered() {
      romStart <= romEnd
    }

    function Size(): nat
      requires Ordered()
    {
      romEnd - romStart
    }
  }

  datatype ZeroSection = ZeroSection(ramStart: nat, ramEnd: nat) {
    predicate Ordered() {
      ramStart <= ramEnd
    }

    /** The size that is cleared: whole words. */
    function Cleared(): (n: nat)
      requires Ordered()
      ensures ramEnd - ramStart <= n <= ramEnd - ramStart + 3 && n % 4 == 0
    {
      (ramEnd - ramStart + 3) / 4 * 4
    }
  }

  // ---- byte-wise meaning ----

  /** A word at `to` does not begin inside the word at `from`, behind its first byte; pointers to
      words never do. */
  predicate WordOrder(to: nat, from: nat) {
    to <= from || from + 4 <= to
  }

  predicate CopyFits(c: CopySection, length: nat) {
    c.Ordered() && c.romEnd <= length && c.ramStart + c.Size() <= length && WordOrder(c.ramStart, c.romStart)
  }

  predicate ZeroFits(z: ZeroSection, length: nat) {
    z.Ordered() && z.ramStart + z.Cleared() <= length
  }

  /** The memory with `bytes` written at `at`. */
  function Overlay(m: seq<byte>, at: nat, bytes: seq<byte>): (r: seq<byte>)
    requires at + |bytes| <= |m|
    ensures |r| == |m|
  {
    m[..at] + bytes + m[at + |bytes|..]
  }

  /** Byte by byte, in ascending order: each byte is read from the memory as it is by then. */
  function Bytewise(m: seq<byte>, to: nat, from: nat, n: nat): (r: seq<byte>)
    requires to + n <= |m| && from + n <= |m|
    ensures |r| == |m|
  {
    if n == 0 then m
    else var r := Bytewise(m, to, from, n - 1); r[to + n - 1 := r[from + n - 1]]
  }

  function Copied(m: seq<byte>, c: CopySection): (r: seq<byte>)
    requires CopyFits(c, |m|)
    ensures |r| == |m|
  {
    Bytewise(m, c.ramStart, c.romStart, c.Size())
  }

  function Zeroed(m: seq<byte>, z: ZeroSection): (r: seq<byte>)
    requires ZeroFits(z, |m|)
    ensures |r| == |m|
  {
    Overlay(m, z.ramStart, Zeros(z.Cleared()))
  }

  function CopyAll(m: seq<byte>, cs: seq<CopySection>): (r: seq<byte>)
    requires forall i :: 0 <= i < |cs| ==> CopyFits(cs[i], |m|)
    ensures |r| == |m|
  {
    if cs == [] then m else Copied(CopyAll(m, cs[..|cs| - 1]), cs[|cs| - 1])
  }

  function ZeroAll(m: seq<byte>, zs: seq<ZeroSection>): (r: seq<byte>)
    requires forall i :: 0 <= i < |zs| ==> ZeroFits(zs[i], |m|)
    ensures |r| == |m|
  {
    if zs == [] then m else Zeroed(ZeroAll(m, zs[..|zs| - 1]), zs[|zs| - 1])
  }

  // ---- layouts ----

  predicate InRom(c: CopySection, a: int) {
    c.romStart <= a < c.romEnd
  }

  predicate InCopy(c: CopySection, a: int) {
    c.Ordered() && c.ramStart <= a < c.ramStart + c.Size()
  }

  predicate InZero(z: ZeroSection, a: int) {
    z.Ordered() && z.ramStart <= a < z.ramStart + z.Cleared()
  }

  ghost predicate CopiesApart(c: CopySection, d: CopySection) {
    forall a :: InCopy(c, a) ==> !InCopy(d, a)
  }

  ghost predicate RomApart(c: CopySection, d: CopySection) {
    forall a :: InRom(c, a) ==> !InCopy(d, a)
  }

  ghost predicate ZeroApart(z: ZeroSection, c: CopySection) {
    forall a :: InZero(z, a) ==> !InCopy(c, a) && !InRom(c, a)
  }

  /** A section that is copied to where it is, or to lower addresses, or behind its ROM image. */
  predicate Forward(c: CopySection) {
    c.ramStart <= c.romStart || c.romEnd <= c.ramStart
  }

  ghost predicate CopyLayout(cs: seq<CopySection>, length: nat) {
    && (forall i :: 0 <= i < |cs| ==> CopyFits(cs[i], length) && Forward(cs[i]))
    && (forall i, k :: 0 <= i < k < |cs| ==> CopiesApart(cs[i], cs[k]))
    && (forall i, k :: 0 <= i < |cs| && 0 <= k < |cs| && i != k ==> RomApart(cs[i], cs[k]))
  }

  /** RAM sections do not overlap, the words cleared behind zero sections included, and no RAM
      section overlaps the ROM image of another one. */
  ghost predicate Layout(cs: seq<CopySection>, zs: seq<ZeroSection>, length: nat) {
    && CopyLayout(cs, length)
    && (forall j :: 0 <= j < |zs| ==> ZeroFits(zs[j], length))
    && (forall i, j :: 0 <= i < |cs| && 0 <= j < |zs| ==> ZeroApart(zs[j], cs[i]))
  }

  predicate OutsideCopies(cs: seq<CopySection>, a: int) {
    forall i :: 0 <= i < |cs| ==> !InCopy(cs[i], a)
  }

  predicate OutsideZeros(zs: seq<ZeroSection>, a: int) {
    forall j :: 0 <= j < |zs| ==> !InZero(zs[j], a)
  }

  lemma {:induction false} CopyAllElsewhere(m: seq<byte>, cs: seq<CopySection>, a: nat)
    requires forall i :: 0 <= i < |cs| ==> CopyFits(cs[i], |m|)
    requires a < |m| && OutsideCopies(cs, a)
    ensures CopyAll(m, cs)[a] == m[a]
  {
    if cs != [] {
      CopyAllElsewhere(m, cs[..|cs| - 1], a);
      assert !InCopy(cs[|cs| - 1], a);
      CopiedElsewhere(CopyAll(m, cs[..|cs| - 1]), cs[|cs| - 1], a);
    }
  }

  /** The copies give address `a` of section `i` its ROM byte. */
  lemma {:induction false} CopyAllAt(m: seq<byte>, cs: seq<CopySection>, i: nat, a: nat)
    requires CopyLayout(cs, |m|) && i < |cs| && InCopy(cs[i], a)
    ensures a < |m| && CopyAll(m, cs)[a] == m[cs[i].romStart + (a - cs[i].ramStart)]
  {
    hide CopiesApart, RomApart, Copied;
    var front, last := cs[..|cs| - 1], cs[|cs| - 1];
    if i < |cs| - 1 {
      assert front[i] == cs[i];
      CopyAllAt(m, front, i, a);
      NotInLater(cs, i, |cs| - 1, a);
      CopiedElsewhere(CopyAll(m, front), last, a);
    } else {
      var r := last.romStart + (a - last.ramStart);
      RomOutside(cs, i, r);
      CopyAllElsewhere(m, front, r);
      CopiedInside(CopyAll(m, front), last, a);
    }
  }

  lemma NotInLater(cs: seq<CopySection>, i: nat, k: nat, a: int)
    requires i < k < |cs| && CopiesApart(cs[i], cs[k]) && InCopy(cs[i], a)
    ensures !InCopy(cs[k], a)
  {
  }

  lemma RomOutside(cs: seq<CopySection>, i: nat, r: int)
    requires i == |cs| - 1 && InRom(cs[i], r)
    requires forall k :: 0 <= k < |cs| && i != k ==> RomApart(cs[i], cs[k])
    ensures OutsideCopies(cs[..|cs| - 1], r)
  {
    forall k | 0 <= k < i ensures !InCopy(cs[k], r) {
      assert RomApart(cs[i], cs[k]);
    }
  }

  lemma {:induction false} BytewiseElsewhere(m: seq<byte>, to: nat, from: nat, n: nat, a: nat)
    requires to + n <= |m| && from + n <= |m| && a < |m|
    requires !(to <= a < to + n)
    ensures Bytewise(m, to, from, n)[a] == m[a]
  {
    if n > 0 {
      BytewiseElsewhere(m, to, from, n - 1, a);
    }
  }

  /** Copying byte by byte moves the bytes when it does not overwrite any before it is read. */
  lemma {:induction false} BytewiseInside(m: seq<byte>, to: nat, from: nat, n: nat, k: nat)
    requires to + n <= |m| && from + n <= |m| && k < n
    requires to <= from || from + n <= to
    ensures Bytewise(m, to, from, n)[to + k] == m[from + k]
  {
    if k < n - 1 {
      BytewiseInside(m, to, from, n - 1, k);
    } else {
      BytewiseElsewhere(m, to, from, k, from + k);
    }
  }

  lemma CopiedElsewhere(m: seq<byte>, c: CopySection, a: nat)
    requires CopyFits(c, |m|) && a < |m| && !InCopy(c, a)
    ensures Copied(m, c)[a] == m[a]
  {
    BytewiseElsewhere(m, c.ramStart, c.romStart, c.Size(), a);
  }

  lemma CopiedInside(m: seq<byte>, c: CopySection, a: nat)
    requires CopyFits(c, |m|) && Forward(c) && InCopy(c, a)
    ensures a < |m| && Copied(m, c)[a] == m[c.romStart + (a - c.ramStart)]
  {
    BytewiseInside(m, c.ramStart, c.romStart, c.Size(), a - c.ramStart);
  }

  lemma {:induction false} ZeroAllElsewhere(m: seq<byte>, zs: seq<ZeroSection>, a: nat)
    requires forall i :: 0 <= i < |zs| ==> ZeroFits(zs[i], |m|)
    requires a < |m| && OutsideZeros(zs, a)
    ensures ZeroAll(m, zs)[a] == m[a]
  {
    if zs != [] {
      ZeroAllElsewhere(m, zs[..|zs| - 1], a);
      assert !InZero(zs[|zs| - 1], a);
    }
  }

  lemma {:induction false} ZeroAllAt(m: seq<byte>, zs: seq<ZeroSection>, j: nat, a: nat)
    requires forall i :: 0 <= i < |zs| ==> ZeroFits(zs[i], |m|)
    requires j < |zs| && InZero(zs[j], a)
    ensures a < |m| && ZeroAll(m, zs)[a] == 0
  {
    var n := |zs| - 1;
    if j < n {
      ZeroAllAt(m, zs[..n], j, a);
    }
  }

  /** After start-up, every initialised section is byte-identical to its ROM image. */
  lemma InitialisedSections(m: seq<byte>, cs: seq<CopySection>, zs: seq<ZeroSection>, i: nat, a: nat)
    requires Layout(cs, zs, |m|) && i < |cs| && InCopy(cs[i], a)
    ensures a < |m| && ZeroAll(CopyAll(m, cs), zs)[a] == m[cs[i].romStart + (a - cs[i].ramStart)]
  {
    CopyAllAt(m, cs, i, a);
    forall j | 0 <= j < |zs| ensures !InZero(zs[j], a) {
      assert ZeroApart(zs[j], cs[i]);
    }
    ZeroAllElsewhere(CopyAll(m, cs), zs, a);
  }

  /** After start-up, every zero section is zero, and so are at most three bytes behind it. */
  lemma ZeroSections(m: seq<byte>, cs: seq<CopySection>, zs: seq<ZeroSection>, j: nat, a: nat)
    requires Layout(cs, zs, |m|) && j < |zs| && InZero(zs[j], a)
    ensures a < |m| && ZeroAll(CopyAll(m, cs), zs)[a] == 0 && a < zs[j].ramEnd + 3
  {
    ZeroAllAt(CopyAll(m, cs), zs, j, a);
  }

  /** Nothing else changes. */
  lemma RestOfMemory(m: seq<byte>, cs: seq<CopySection>, zs: seq<ZeroSection>, a: nat)
    requires Layout(cs, zs, |m|) && a < |m| && OutsideCopies(cs, a) && OutsideZeros(zs, a)
    ensures ZeroAll(CopyAll(m, cs), zs)[a] == m[a]
  {
    CopyAllElsewhere(m, cs, a);
    ZeroAllElsewhere(CopyAll(m, cs), zs, a);
  }

  // ---- the code ----

  lemma {:induction false} BytewiseOn(m: seq<byte>, to: nat, from: nat, k: nat, n: nat)
    requires to + k + n <= |m| && from + k + n <= |m|
    ensures Bytewise(Bytewise(m, to, from, k), to + k, from + k, n) == Bytewise(m, to, from, k + n)
  {
    if n > 0 {
      BytewiseOn(m, to, from, k, n - 1);
    }
  }

  lemma BytewiseOne(m: seq<byte>, to: nat, from: nat)
    requires to < |m| && from < |m|
    ensures Bytewise(m, to, from, 1) == m[to := m[from]]
  {
  }

  /** Reading a whole word before it is written makes no difference. */
  lemma BytewiseWord(m: seq<byte>, to: nat, from: nat)
    requires to + 4 <= |m| && from + 4 <= |m| && WordOrder(to, from)
    ensures Bytewise(m, to, from, 4)
            == m[to := m[from]][to + 1 := m[from + 1]][to + 2 := m[from + 2]][to + 3 := m[from + 3]]
  {
    BytewiseOne(m, to, from);
    var m1 := Bytewise(m, to, from, 1);
    var m2 := Bytewise(m, to, from, 2);
    var m3 := Bytewise(m, to, from, 3);
    assert m2 == m1[to + 1 := m1[from + 1]];
    assert m3 == m2[to + 2 := m2[from + 2]];
  }

  lemma OverlayExtend(m: seq<byte>, at: nat, x: seq<byte>, y: seq<byte>)
    requires at + |x| + |y| <= |m|
    ensures Overlay(Overlay(m, at, x), at + |x|, y) == Overlay(m, at, x + y)
  {
  }

  lemma ZeroNothing(m: seq<byte>, at: nat)
    requires at <= |m|
    ensures Overlay(m, at, Zeros(0)) == m
  {
  }

  lemma ZeroStep(m: seq<byte>, at: nat, n: nat)
    requires at + n + 4 <= |m|
    ensures Overlay(Overlay(m, at, Zeros(n)), at + n, Zeros(4)) == Overlay(m, at, Zeros(n + 4))
  {
    hide Overlay;
    OverlayExtend(m, at, Zeros(n), Zeros(4));
    assert Zeros(n) + Zeros(4) == Zeros(n + 4);
  }

  /** `ram[j] = rom[j]` on 32-bit words. */
  method CopyWord(mem: array<byte>, to: nat, from: nat)
    requires to + 4 <= mem.Length && from + 4 <= mem.Length && WordOrder(to, from)
    modifies mem
    ensures mem[..] == Bytewise(old(mem[..]), to, from, 4)
  {
    BytewiseWord(mem[..], to, from);
    hide Bytewise;
    var b0, b1, b2, b3 := mem[from], mem[from + 1], mem[from + 2], mem[from + 3];
    mem[to], mem[to + 1], mem[to + 2], mem[to + 3] := b0, b1, b2, b3;
  }

  /** `ram8[j] = rom8[j]`. */
  method CopyByte(mem: array<byte>, to: nat, from: nat)
    requires to < mem.Length && from < mem.Length
    modifies mem
    ensures mem[..] == Bytewise(old(mem[..]), to, from, 1)
  {
    BytewiseOne(mem[..], to, from);
    hide Bytewise;
    mem[to] := mem[from];
  }

  /** One initialised section: whole words, then the bytes that remain. */
  method CopyOne(mem: array<byte>, c: CopySection)
    requires CopyFits(c, mem.Length)
    modifies mem
    ensures mem[..] == Copied(old(mem[..]), c)
  {
    hide Bytewise;
    var size := c.romEnd - c.romStart;
    var dataPad := size % 4;
    var words := (size - dataPad) / 4;
    CopyWords(mem, c.ramStart, c.romStart, words, 4 * words + dataPad);
  }

  /** The word loop and the byte loop of a section of `size` bytes, overlapping or not. */
  method CopyWords(mem: array<byte>, to: nat, from: nat, words: nat, size: nat)
    requires to + size <= mem.Length && from + size <= mem.Length && 4 * words <= size
    requires WordOrder(to, from)
    modifies mem
    ensures mem[..] == Bytewise(old(mem[..]), to, from, size)
  {
    assert Bytewise(mem[..], to, from, 0) == mem[..];
    hide Bytewise;
    ghost var m := mem[..];
    var j := 0;
    while j < words
      invariant 0 <= j <= words
      invariant mem[..] == Bytewise(m, to, from, 4 * j)
    {
      BytewiseOn(m, to, from, 4 * j, 4);
      CopyWord(mem, to + 4 * j, from + 4 * j);
      j := j + 1;
    }
    BytewiseOn(m, to, from, 4 * words, size - 4 * words);
    CopyBytes(mem, to + 4 * j, from + 4 * j, size - 4 * j);
  }

  /** The byte loop. */
  method CopyBytes(mem: array<byte>, to: nat, from: nat, dataPad: nat)
    requires to + dataPad <= mem.Length && from + dataPad <= mem.Length
    modifies mem
    ensures mem[..] == Bytewise(old(mem[..]), to, from, dataPad)
  {
    assert Bytewise(mem[..], to, from, 0) == mem[..];
    hide Bytewise;
    var j := 0;
    while j < dataPad
      invariant 0 <= j <= dataPad
      invariant mem[..] == Bytewise(old(mem[..]), to, from, j)
    {
      BytewiseOn(old(mem[..]), to, from, j, 1);
      CopyByte(mem, to + j, from + j);
      j := j + 1;
    }
  }

  /** One zero section: whole words, and one more when bytes remain. */
  method ZeroOne(mem: array<byte>, z: ZeroSection)
    requires ZeroFits(z, mem.Length)
    modifies mem
    ensures mem[..] == Zeroed(old(mem[..]), z)
  {
    hide Overlay, Zeros;
    ghost var m := mem[..];
    var size := z.ramEnd - z.ramStart;
    var j := 0;
    ZeroNothing(m, z.ramStart);
    while j < size / 4
      invariant 0 <= j <= size / 4
      invariant mem[..] == Overlay(m, z.ramStart, Zeros(4 * j))
    {
      ZeroStep(m, z.ramStart, 4 * j);
      ClearWord(mem, z.ramStart + 4 * j);
      j := j + 1;
    }
    if size % 4 != 0 {
      ZeroStep(m, z.ramStart, 4 * j);
      ClearWord(mem, z.ramStart + 4 * j);
    }
  }

  method ClearWord(mem: array<byte>, at: nat)
    requires at + 4 <= mem.Length
    modifies mem
    ensures mem[..] == Overlay(old(mem[..]), at, Zeros(4))
  {
    mem[at], mem[at + 1], mem[at + 2], mem[at + 3] := 0, 0, 0, 0;
  }

  /** `init_data_bss`: the word loops do what byte-wise copying and clearing would do. */
  method InitDataBss(mem: array<byte>, copies: seq<CopySection>, zeros: seq<ZeroSection>)
    requires forall i :: 0 <= i < |copies| ==> CopyFits(copies[i], mem.Length)
    requires forall j :: 0 <= j < |zeros| ==> ZeroFits(zeros[j], mem.Length)
    modifies mem
    ensures mem[..] == ZeroAll(CopyAll(old(mem[..]), copies), zeros)
  {
    ghost var m := mem[..];
    var i := 0;
    while i < |copies|
      invariant 0 <= i <= |copies|
      invariant mem[..] == CopyAll(m, copies[..i])
    {
      CopyOne(mem, copies[i]);
      assert copies[..i + 1][..i] == copies[..i];
      i := i + 1;
    }
    assert copies[..i] == copies;
    ghost var g := mem[..];
    i := 0;
    while i < |zeros|
      invariant 0 <= i <= |zeros|
      invariant mem[..] == ZeroAll(g, zeros[..i])
    {
      ZeroOne(mem, zeros[i]);
      assert zeros[..i + 1][..i] == zeros[..i];
      i := i + 1;
    }
    assert zeros[..i] == zeros;
  }
}
