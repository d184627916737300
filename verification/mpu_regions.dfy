/** The memory protection table of the start-up code: disabled rows are left out, the others are
    numbered consecutively. Region semantics as in section B3.5 of the ARMv7-M Architecture
    Reference Manual. */
module MpuRegions {
  import opened Words

  const REGIONS: nat := 16

  /** The base address and attribute registers of a region, or a row of the table. */
  datatype Region = Region(rbar: bv32, rasr: bv32)

  predicate Enabled(r: Region) {
    r.rasr & 1 == 1
  }

  /** RBAR.VALID: a write to RBAR also selects the region named in its low bits. */
  predicate NamesRegion(rbar: bv32) {
    rbar & 0x10 == 0x10
  }

  function Pow2(n: nat): (p: nat)
    ensures p > 0
  {
    if n == 0 then 1 else 2 * Pow2(n - 1)
  }

  function SizeField(rasr: bv32): nat {
    ((rasr >> 1) & 0x1F) as nat
  }

  /** RASR.SRD. */
  function SubregionsOff(rasr: bv32): bv8 {
    ((rasr >> 8) & 0xFF) as bv8
  }

  /** Subregion `k` of eight is switched off. */
  predicate SubregionOff(off: bv8, k: int) {
    || (k == 0 && off & 0x01 != 0) || (k == 1 && off & 0x02 != 0) || (k == 2 && off & 0x04 != 0)
    || (k == 3 && off & 0x08 != 0) || (k == 4 && off & 0x10 != 0) || (k == 5 && off & 0x20 != 0)
    || (k == 6 && off & 0x40 != 0) || (k == 7 && off & 0x80 != 0)
  }

  /** `a` lies in the block of `size` bytes that `base` lies in, in a part that is switched on;
      blocks of 256 bytes and more have eight parts. */
  predicate InBlock(base: int, size: nat, off: bv8, a: int)
    requires size > 0
  {
    a / size == base / size && (size >= 256 ==> !SubregionOff(off, a % size * 8 / size))
  }

  /** The region covers address `a`. */
  predicate Covers(r: Region, a: word) {
    InBlock(r.rbar as int, Pow2(SizeField(r.rasr) + 1), SubregionsOff(r.rasr), a)
  }

  predicate Hits(r: Region, a: word) {
    Enabled(r) && Covers(r, a)
  }

  /** XN, AP, TEX, S, C and B. */
  function Attributes(r: Region): bv32 {
    (r.rasr >> 16) & 0x1FFF
  }

  /** The attributes of the highest-numbered region that hits, if any. */
  function Winner(rs: seq<Region>, a: word): Option<bv32> {
    if rs == [] then None
    else if Hits(rs[|rs| - 1], a) then Some(Attributes(rs[|rs| - 1]))
    else Winner(rs[..|rs| - 1], a)
  }

  /** The enabled rows, in order. */
  function Compact(rows: seq<Region>): (c: seq<Region>)
    ensures |c| <= |rows|
  {
    if rows == [] then []
    else Compact(rows[..|rows| - 1]) + if Enabled(rows[|rows| - 1]) then [rows[|rows| - 1]] else []
  }

  lemma {:induction false} CompactKeepsWinner(rows: seq<Region>, a: word)
    ensures Winner(Compact(rows), a) == Winner(rows, a)
  {
    hide Enabled, Covers, Attributes;
    if rows != [] {
      var front, last := rows[..|rows| - 1], rows[|rows| - 1];
      CompactKeepsWinner(front, a);
      if Enabled(last) {
        var c := Compact(front) + [last];
        assert c[..|c| - 1] == Compact(front);
      } else {
        assert Compact(front) + [] == Compact(front);
        assert !Hits(last, a);
      }
    }
  }

  lemma {:induction false} DisabledTail(rs: seq<Region>, tail: seq<Region>, a: word)
    requires forall k :: 0 <= k < |tail| ==> !Enabled(tail[k])
    ensures Winner(rs + tail, a) == Winner(rs, a)
    decreases |tail|
  {
    hide Enabled, Covers, Attributes;
    if tail == [] {
      assert rs + tail == rs;
    } else {
      var t := tail[..|tail| - 1];
      assert (rs + tail)[..|rs + tail| - 1] == rs + t;
      assert !Hits(tail[|tail| - 1], a);
      DisabledTail(rs, t, a);
    }
  }

  /** What the regions are once the table has been programmed. */
  function Programmed(rows: seq<Region>, before: seq<Region>): seq<Region>
    requires |Compact(rows)| <= |before|
  {
    Compact(rows) + before[|Compact(rows)|..]
  }

  /** The fields in numbers: bit 0 of RASR enables a row, bits 1 to 5 are its size, bits 8 to 15 switch parts
      off, bits 16 to 28 are its attributes; bit 4 of RBAR makes its low four bits name a region. */
  lemma FieldsMeaning(r: Region)
    ensures Enabled(r) <==> r.rasr % 2 == 1
    ensures SizeField(r.rasr) == (r.rasr / 2 % 32) as nat
    ensures SubregionsOff(r.rasr) == (r.rasr / 0x100 % 0x100) as bv8
    ensures Attributes(r) == r.rasr / 0x10000 % 0x2000
    ensures NamesRegion(r.rbar) <==> r.rbar / 16 % 2 == 1
    ensures r.rbar & 0xF == r.rbar % 16
  {
    assert (r.rasr >> 1) & 0x1F == r.rasr / 2 % 32;
    assert (r.rasr >> 8) & 0xFF == r.rasr / 0x100 % 0x100;
  }

  /** Part `k` is switched off by bit `k`. */
  lemma SubregionMeaning(off: bv8, k: nat)
    requires k < 8
    ensures SubregionOff(off, k) <==> (off >> k) % 2 == 1
  {
    assert k == 0 || k == 1 || k == 2 || k == 3 || k == 4 || k == 5 || k == 6 || k == 7;
  }

  /** Compaction keeps the meaning of the table: on every address the same attributes win, if the
      regions behind the programmed ones were disabled before. */
  lemma CompactionPreservesMeaning(rows: seq<Region>, before: seq<Region>, a: word)
    requires |Compact(rows)| <= |before|
    requires forall k :: |Compact(rows)| <= k < |before| ==> !Enabled(before[k])
    ensures Winner(Programmed(rows, before), a) == Winner(rows, a)
  {
    CompactKeepsWinner(rows, a);
    DisabledTail(Compact(rows), before[|Compact(rows)|..], a);
  }

  /** The region that the writes for a row reach, when region `n` was selected. */
  function Reached(row: Region, n: nat): nat
    requires n < REGIONS
    ensures Reached(row, n) < REGIONS
  {
    if NamesRegion(row.rbar) then (row.rbar & 0xF) as nat else n
  }

  /** The regions after the rows, whatever regions their base addresses name. */
  function Placed(rows: seq<Region>, before: seq<Region>): (r: seq<Region>)
    requires |Compact(rows)| <= REGIONS == |before|
    ensures |r| == REGIONS
  {
    if rows == [] then before
    else
      var front, last := rows[..|rows| - 1], rows[|rows| - 1];
      var r := Placed(front, before);
      if Enabled(last) then r[Reached(last, |Compact(front)|) := last] else r
  }

  /** Each enabled row names no region, or the one that it is to have. */
  predicate NamesItsOwn(rows: seq<Region>) {
    rows == [] ||
    var front, last := rows[..|rows| - 1], rows[|rows| - 1];
    NamesItsOwn(front) && (Enabled(last) && NamesRegion(last.rbar) ==> (last.rbar & 0xF) as nat == |Compact(front)|)
  }

  /** Then the rows are the first regions, in order. */
  lemma {:induction false} PlacedInOrder(rows: seq<Region>, before: seq<Region>)
    requires |Compact(rows)| <= REGIONS == |before| && NamesItsOwn(rows)
    ensures Placed(rows, before) == Programmed(rows, before)
  {
    hide Enabled, NamesRegion;
    if rows != [] {
      var front, last := rows[..|rows| - 1], rows[|rows| - 1];
      var c, n := Compact(front), |Compact(front)|;
      PlacedInOrder(front, before);
      if Enabled(last) {
        assert Compact(rows) == c + [last];
        assert Placed(rows, before) == (c + before[n..])[n := last];
        assert (c + before[n..])[n := last] == c + [last] + before[n + 1..];
      } else {
        assert Compact(rows) == c;
      }
    }
  }

  /** A region that a row may hold: the row names no region, or this one. */
  predicate NamesHere(row: Region, k: nat) {
    NamesRegion(row.rbar) ==> (row.rbar & 0xF) as nat == k
  }

  /** Every region holds what it held, or a row that may be there. */
  lemma {:induction false} PlacedHere(rows: seq<Region>, before: seq<Region>, k: nat)
    requires |Compact(rows)| <= REGIONS == |before| && k < REGIONS
    ensures Placed(rows, before)[k] == before[k] || NamesHere(Placed(rows, before)[k], k)
  {
    hide Enabled, NamesRegion;
    if rows != [] {
      PlacedHere(rows[..|rows| - 1], before, k);
    }
  }

  lemma {:induction false} CompactEnabled(rows: seq<Region>, n: nat)
    requires n < |Compact(rows)|
    ensures Enabled(Compact(rows)[n])
  {
    hide Enabled;
    var front := rows[..|rows| - 1];
    if n < |Compact(front)| {
      CompactEnabled(front, n);
    }
  }

  lemma {:induction false} AllNamedHere(rows: seq<Region>)
    requires forall n :: 0 <= n < |Compact(rows)| ==> NamesHere(Compact(rows)[n], n)
    ensures NamesItsOwn(rows)
  {
    hide Enabled, NamesRegion;
    if rows != [] {
      var front, last := rows[..|rows| - 1], rows[|rows| - 1];
      forall n | 0 <= n < |Compact(front)| ensures NamesHere(Compact(front)[n], n) {
        assert Compact(rows)[n] == Compact(front)[n];
        assert NamesHere(Compact(rows)[n], n);
      }
      AllNamedHere(front);
      if Enabled(last) {
        assert NamesHere(Compact(rows)[|Compact(front)|], |Compact(front)|);
      }
    }
  }

  /** With all regions disabled before, the enabled rows become the first regions in order exactly when
      each of them names no region or its own. */
  lemma PlacedExactly(rows: seq<Region>, before: seq<Region>)
    requires |Compact(rows)| <= REGIONS == |before|
    requires forall k :: 0 <= k < REGIONS ==> !Enabled(before[k])
    ensures Placed(rows, before) == Programmed(rows, before) <==> NamesItsOwn(rows)
  {
    hide Enabled, NamesRegion, Placed, NamesItsOwn, NamesHere;
    if NamesItsOwn(rows) {
      PlacedInOrder(rows, before);
    } else if Placed(rows, before) == Programmed(rows, before) {
      forall n | 0 <= n < |Compact(rows)| ensures NamesHere(Compact(rows)[n], n) {
        PlacedHere(rows, before, n);
        CompactEnabled(rows, n);
        assert Programmed(rows, before)[n] == Compact(rows)[n];
      }
      AllNamedHere(rows);
    }
  }

  /** A row that names the region of an earlier one replaces it: with two enabled rows, the second
      naming region 0, the attributes of the first are lost where only the first one matches. */
  lemma NamedRegionReplaces(first: Region, second: Region, before: seq<Region>, a: word)
    requires |before| == REGIONS && forall k :: 0 <= k < REGIONS ==> !Enabled(before[k])
    requires Enabled(first) && Enabled(second) && Covers(first, a) && !Covers(second, a)
    requires NamesRegion(second.rbar) && second.rbar & 0xF == 0 && !NamesRegion(first.rbar)
    ensures Winner([first, second], a) == Some(Attributes(first))
    ensures Winner(Placed([first, second], before), a) == None
  {
    hide Enabled, NamesRegion, Covers, Attributes;
    var rows := [first, second];
    assert rows[..1] == [first] && [first][..0] == [];
    assert Compact([first]) == [first] && Compact(rows) == [first, second];
    var r := Placed(rows, before);
    assert Placed([first], before) == before[0 := first];
    assert r == before[0 := first][0 := second] == [second] + before[1..];
    DisabledTail([second], before[1..], a);
    assert [second][..0] == [];
  }

  /** Base addresses that are multiples of the smallest region size name no region. */
  lemma {:induction false} AlignedNamesItsOwn(rows: seq<Region>)
    requires forall i :: 0 <= i < |rows| ==> rows[i].rbar & 0x1F == 0
    ensures NamesItsOwn(rows)
  {
    if rows != [] {
      AlignedNamesItsOwn(rows[..|rows| - 1]);
      var rbar := rows[|rows| - 1].rbar;
      assert (rbar & 0x1F) & 0x10 == rbar & 0x10;
    }
  }

  // ---- the code ----

  class Mpu {
    const regions: array<Region>
    var selected: nat

    ghost predicate Valid()
      reads this
    {
      regions.Length == REGIONS && selected < REGIONS
    }

    constructor ()
      ensures Valid() && fresh(regions)
      ensures forall k :: 0 <= k < REGIONS ==> !Enabled(regions[k])
    {
      regions := new Region[REGIONS](_ => Region(0, 0));
      selected := 0;
    }

    method WriteRnr(n: nat)
      requires Valid() && n < REGIONS
      modifies this`selected
      ensures Valid() && selected == n
    {
      selected := n;
    }

    /** A base address with VALID set selects its own region. */
    method WriteRbar(rbar: bv32)
      requires Valid()
      modifies this`selected, regions
      ensures Valid()
      ensures selected == if NamesRegion(rbar) then (rbar & 0xF) as nat else old(selected)
      ensures regions[..] == old(regions[..])[selected := Region(rbar, old(regions[..])[selected].rasr)]
    {
      if NamesRegion(rbar) {
        selected := (rbar & 0xF) as nat;
      }
      regions[selected] := Region(rbar, regions[selected].rasr);
    }

    method WriteRasr(rasr: bv32)
      requires Valid()
      modifies regions
      ensures regions[..] == old(regions[..])[selected := Region(old(regions[selected].rbar), rasr)]
    {
      regions[selected] := Region(regions[selected].rbar, rasr);
    }

    /** The three register writes for one row. */
    method WriteRegion(n: nat, row: Region)
      requires Valid() && n < REGIONS
      modifies this`selected, regions
      ensures Valid() && regions[..] == old(regions[..])[Reached(row, n) := row]
    {
      WriteRnr(n);
      WriteRbar(row.rbar);
      WriteRasr(row.rasr);
    }

    /** The table loop of `SystemInit`. */
    method ProgramTable(rows: seq<Region>)
      requires Valid() && |Compact(rows)| <= REGIONS
      modifies this`selected, regions
      ensures Valid() && regions[..] == Placed(rows, old(regions[..]))
      ensures NamesItsOwn(rows) ==> regions[..] == Programmed(rows, old(regions[..]))
    {
      hide Enabled, NamesRegion, Compact, Programmed, Reached, NamesItsOwn;
      var regionNum := 0;
      var index := 0;
      assert rows[..|rows|] == rows && rows[..0] == [];
      NothingProgrammed(regions[..]);
      while index < |rows|
        invariant 0 <= index <= |rows| && Valid()
        invariant regionNum == |Compact(rows[..index])| <= REGIONS
        invariant regions[..] == Placed(rows[..index], old(regions[..]))
      {
        CompactGrows(rows, index);
        assert rows[..index + 1][..index] == rows[..index];
        if Enabled(rows[index]) {
          WriteRegion(regionNum, rows[index]);
          regionNum := regionNum + 1;
        }
        index := index + 1;
      }
      if NamesItsOwn(rows) {
        PlacedInOrder(rows, old(regions[..]));
      }
    }
  }

  lemma NothingProgrammed(before: seq<Region>)
    ensures Compact([]) == [] && Programmed([], before) == before
  {
  }

  lemma CompactGrows(rows: seq<Region>, n: nat)
    requires n < |rows|
    ensures Compact(rows[..n + 1]) == Compact(rows[..n]) + if Enabled(rows[n]) then [rows[n]] else []
    ensures |Compact(rows[..n + 1])| <= |Compact(rows)|
  {
    assert rows[..n + 1][..n] == rows[..n];
    CompactMonotone(rows, n + 1);
  }

  lemma {:induction false} CompactMonotone(rows: seq<Region>, n: nat)
    requires n <= |rows|
    ensures |Compact(rows[..n])| <= |Compact(rows)|
  {
    if n < |rows| {
      var front := rows[..|rows| - 1];
      assert rows[..n] == front[..n];
      CompactMonotone(front, n);
    } else {
      assert rows[..n] == rows;
    }
  }
}
