/** The address map that is active after a bank swap. */
module SwapAddress {
  import opened Words

  datatype Range = Range(first: word, last: word, offset: word)

  predicate Covers(r: Range, a: word) {
    r.first <= a <= r.last
  }

  /** The first row that covers an address. */
  function Lookup(table: seq<Range>, a: word): Option<Range> {
    if table == [] then None
    else if Covers(table[0], a) then Some(table[0])
    else Lookup(table[1..], a)
  }

  function SwapWith(table: seq<Range>, a: word): word {
    match Lookup(table, a)
    case None => a
    case Some(r) => Add32(a, r.offset)
  }

  /** `s` is where `r` is mapped to, and maps back. */
  predicate Partner(r: Range, s: Range) {
    && s.first == Add32(r.first, r.offset)
    && s.last == Add32(r.last, r.offset)
    && Add32(r.offset, s.offset) == 0
  }

  predicate Disjoint(r: Range, s: Range) {
    r.last < s.first || s.last < r.first
  }

  /** Disjoint ranges, each mapped onto another one that maps back. */
  predicate Paired(table: seq<Range>) {
    && (forall i :: 0 <= i < |table| ==> table[i].first <= table[i].last)
    && (forall i, j :: 0 <= i < j < |table| ==> Disjoint(table[i], table[j]))
    && (forall i :: 0 <= i < |table| ==> HasPartner(table, table[i]))
  }

  predicate HasPartner(table: seq<Range>, r: Range) {
    exists j :: 0 <= j < |table| && Partner(r, table[j])
  }

  lemma {:induction false} LookupMeaning(table: seq<Range>, a: word)
    ensures match Lookup(table, a)
            case None => forall i :: 0 <= i < |table| ==> !Covers(table[i], a)
            case Some(r) => exists i :: 0 <= i < |table| && table[i] == r && Covers(r, a)
  {
    if table != [] && !Covers(table[0], a) {
      LookupMeaning(table[1..], a);
      if Lookup(table[1..], a).Some? {
        var i :| 0 <= i < |table[1..]| && table[1..][i] == Lookup(table[1..], a).value;
        assert table[i + 1] == table[1..][i];
      } else {
        forall i | 0 <= i < |table| ensures !Covers(table[i], a) {
          if i > 0 { assert table[i] == table[1..][i - 1]; }
        }
      }
    }
  }

  lemma LookupUnique(table: seq<Range>, a: word, j: nat)
    requires Paired(table) && j < |table| && Covers(table[j], a)
    ensures Lookup(table, a) == Some(table[j])
  {
    hide HasPartner, Lookup;
    LookupMeaning(table, a);
    var i :| 0 <= i < |table| && Some(table[i]) == Lookup(table, a) && Covers(table[i], a);
  }

  lemma PartnerCovers(r: Range, s: Range, a: word)
    requires r.first <= r.last && s.first <= s.last && Partner(r, s) && Covers(r, a)
    ensures Covers(s, Add32(a, r.offset)) && Add32(Add32(a, r.offset), s.offset) == a
  {
  }

  predicate InRow(table: seq<Range>, i: nat, a: word)
    requires i < |table|
  {
    table[i].first <= a <= table[i].last
  }

  predicate InNoRow(table: seq<Range>, a: word) {
    forall i: nat :: i < |table| ==> !InRow(table, i, a)
  }

  /** What the map does, row by row: an address in row `i` moves by the offset of the row, into another row,
      and really moves unless that offset is 0; an address in no row stays. */
  lemma SwapMeaning(table: seq<Range>, a: word)
    requires Paired(table)
    ensures forall i: nat :: i < |table| && InRow(table, i, a) ==>
              && SwapWith(table, a) == (a + table[i].offset) % WORD_LIMIT
              && (exists j: nat :: j < |table| && InRow(table, j, SwapWith(table, a)))
              && (SwapWith(table, a) == a <==> table[i].offset == 0)
    ensures InNoRow(table, a) ==> SwapWith(table, a) == a
  {
    hide Lookup, Add32, HasPartner;
    LookupMeaning(table, a);
    if Lookup(table, a).Some? {
      var i :| 0 <= i < |table| && Some(table[i]) == Lookup(table, a);
      assert InRow(table, i, a);
    }
    forall i: nat | i < |table| && InRow(table, i, a)
      ensures && SwapWith(table, a) == (a + table[i].offset) % WORD_LIMIT
              && (exists j: nat :: j < |table| && InRow(table, j, SwapWith(table, a)))
              && (SwapWith(table, a) == a <==> table[i].offset == 0)
    {
      LookupUnique(table, a, i);
      Add32Meaning(a, table[i].offset);
      assert HasPartner(table, table[i]);
      RowHasPartner(table, i, a);
    }
  }

  lemma RowHasPartner(table: seq<Range>, i: nat, a: word)
    requires Paired(table) && i < |table| && InRow(table, i, a)
    ensures exists j: nat :: j < |table| && InRow(table, j, Add32(a, table[i].offset))
  {
    hide Partner, Add32, Disjoint;
    assert HasPartner(table, table[i]);
    var j :| 0 <= j < |table| && Partner(table[i], table[j]);
    PartnerCovers(table[i], table[j], a);
    assert InRow(table, j, Add32(a, table[i].offset));
  }

  /** For any table of disjoint ranges paired by inverse offsets, the map is its own inverse
      on every address, and an address is moved into the table only from inside it. */
  lemma SwapInvolution(table: seq<Range>, a: word)
    requires Paired(table)
    ensures SwapWith(table, SwapWith(table, a)) == a
    ensures Lookup(table, SwapWith(table, a)).Some? <==> Lookup(table, a).Some?
  {
    hide Partner, Add32, Lookup, Covers, Disjoint;
    LookupMeaning(table, a);
    if Lookup(table, a).Some? {
      var i :| 0 <= i < |table| && Some(table[i]) == Lookup(table, a);
      assert HasPartner(table, table[i]);
      var j :| 0 <= j < |table| && Partner(table[i], table[j]);
      PartnerCovers(table[i], table[j], a);
      LookupUnique(table, Add32(a, table[i].offset), j);
    }
  }

  // ---- the known devices ----

  const SWAP_7_OF_16_MB: seq<Range> := [
    Range(0xA0000000, 0xA05FFFFF, 0x00600000),
    Range(0xA0600000, 0xA0BFFFFF, 0xFFA00000),
    Range(0xA0C00000, 0xA0CFFFFF, 0x00300000),
    Range(0xA0F00000, 0xA0FFFFFF, 0xFFD00000)]

  const SWAP_4_OF_10_MB: seq<Range> := [
    Range(0xA0000000, 0xA03FFFFF, 0x00600000),
    Range(0xA0600000, 0xA09FFFFF, 0xFFA00000)]

  const SWAP_4_OF_8_MB: seq<Range> := [
    Range(0xA0000000, 0xA03FFFFF, 0x00600000),
    Range(0xA0600000, 0xA09FFFFF, 0xFFA00000)]

  const SWAP_3_OF_6_MB: seq<Range> := [
    Range(0xA0000000, 0xA02FFFFF, 0x00300000),
    Range(0xA0300000, 0xA05FFFFF, 0xFFD00000)]

  const SWAP_2_OF_4_MB: seq<Range> := [
    Range(0xA0000000, 0xA01FFFFF, 0x00300000),
    Range(0xA0300000, 0xA04FFFFF, 0xFFD00000)]

  datatype Device = Device(mask: bv32, id: bv32, table: seq<Range>)

  const DEVICES: seq<Device> := [
    Device(0x0F00F0C0, 0x0F009080, SWAP_7_OF_16_MB),
    Device(0x0F00F0C0, 0x0C008080, SWAP_4_OF_10_MB),
    Device(0x0F00F0C0, 0x0B008080, SWAP_4_OF_8_MB),
    Device(0x0F00F0C0, 0x09007080, SWAP_3_OF_6_MB),
    Device(0x0F00F0C0, 0x07006080, SWAP_2_OF_4_MB),
    Device(0x0F00F0C0, 0x07005080, SWAP_2_OF_4_MB)]

  predicate Matches(d: Device, chipId: bv32) {
    chipId & d.mask == d.id
  }

  /** The table of the first device that matches; an unknown device has no row. */
  function TableOf(devices: seq<Device>, chipId: bv32): seq<Range> {
    if devices == [] then []
    else if Matches(devices[0], chipId) then devices[0].table
    else TableOf(devices[1..], chipId)
  }

  lemma FourRows(q: Range, r: Range, s: Range, t: Range)
    requires Partner(q, r) && Partner(r, q) && Partner(s, t) && Partner(t, s)
    requires q.first <= q.last < r.first <= r.last < s.first <= s.last < t.first <= t.last
    ensures Paired([q, r, s, t])
  {
    hide Partner;
    var table := [q, r, s, t];
    assert Partner(table[0], table[1]) && Partner(table[1], table[0]);
    assert Partner(table[2], table[3]) && Partner(table[3], table[2]);
  }

  lemma TwoRows(r: Range, s: Range)
    requires Partner(r, s) && Partner(s, r)
    requires r.first <= r.last < s.first <= s.last
    ensures Paired([r, s])
  {
    hide Partner;
    var table := [r, s];
    assert Partner(table[0], table[1]) && Partner(table[1], table[0]);
  }

  lemma KnownTablesPaired()
    ensures Paired(SWAP_7_OF_16_MB) && Paired(SWAP_4_OF_10_MB) && Paired(SWAP_4_OF_8_MB)
            && Paired(SWAP_3_OF_6_MB) && Paired(SWAP_2_OF_4_MB)
  {
    hide Paired;
    var t := SWAP_7_OF_16_MB;
    FourRows(t[0], t[1], t[2], t[3]);
    t := SWAP_4_OF_10_MB;
    TwoRows(t[0], t[1]);
    t := SWAP_4_OF_8_MB;
    TwoRows(t[0], t[1]);
    t := SWAP_3_OF_6_MB;
    TwoRows(t[0], t[1]);
    t := SWAP_2_OF_4_MB;
    TwoRows(t[0], t[1]);
  }

  /** Every table in the list is paired and stays below the UCB and DFLASH area. */
  predicate Sound(devices: seq<Device>) {
    forall i :: 0 <= i < |devices| ==>
      Paired(devices[i].table) && forall j :: 0 <= j < |devices[i].table| ==> devices[i].table[j].last < 0xAF000000
  }

  lemma {:induction false} TableOfSound(devices: seq<Device>, chipId: bv32)
    requires Sound(devices)
    ensures Sound([Device(0, 0, TableOf(devices, chipId))])
  {
    if devices != [] && !Matches(devices[0], chipId) {
      forall i | 0 <= i < |devices[1..]|
        ensures Paired(devices[1..][i].table)
                && forall j :: 0 <= j < |devices[1..][i].table| ==> devices[1..][i].table[j].last < 0xAF000000
      {
        assert devices[1..][i] == devices[i + 1];
      }
      TableOfSound(devices[1..], chipId);
    }
  }

  lemma DevicesSound()
    ensures Sound(DEVICES)
  {
    hide Paired;
    KnownTablesPaired();
  }

  lemma KnownPaired(chipId: bv32)
    ensures Paired(TableOf(DEVICES, chipId))
  {
    DevicesSound();
    TableOfSound(DEVICES, chipId);
    var d := [Device(0, 0, TableOf(DEVICES, chipId))];
    assert Paired(d[0].table);
  }

  /** On every device, known or not, the map is its own inverse on all addresses, and leaves
      the UCB and DFLASH area alone. */
  lemma DeviceMap(chipId: bv32, a: word)
    ensures var t := TableOf(DEVICES, chipId); SwapWith(t, SwapWith(t, a)) == a
    ensures a >= 0xAF000000 ==> SwapWith(TableOf(DEVICES, chipId), a) == a
  {
    var t := TableOf(DEVICES, chipId);
    DevicesSound();
    TableOfSound(DEVICES, chipId);
    var d := [Device(0, 0, t)];
    assert Paired(d[0].table) && forall j :: 0 <= j < |d[0].table| ==> d[0].table[j].last < 0xAF000000;
    hide Paired, Lookup;
    SwapInvolution(t, a);
    LookupMeaning(t, a);
  }

  /** The devices in numbers: for which chip identifiers which halves change places. */
  lemma DevicesInNumbers(chipId: bv32, a: word)
    ensures var k, t := chipId & 0x0F00F0C0, TableOf(DEVICES, chipId);
            && (k == 0x0F009080 ==>
                  && (0xA0000000 <= a <= 0xA05FFFFF ==> SwapWith(t, a) == a + 0x600000)
                  && (0xA0600000 <= a <= 0xA0BFFFFF ==> SwapWith(t, a) == a - 0x600000)
                  && (0xA0C00000 <= a <= 0xA0CFFFFF ==> SwapWith(t, a) == a + 0x300000)
                  && (0xA0F00000 <= a <= 0xA0FFFFFF ==> SwapWith(t, a) == a - 0x300000))
            && (k == 0x0C008080 || k == 0x0B008080 ==>
                  && (0xA0000000 <= a <= 0xA03FFFFF ==> SwapWith(t, a) == a + 0x600000)
                  && (0xA0600000 <= a <= 0xA09FFFFF ==> SwapWith(t, a) == a - 0x600000))
            && (k == 0x09007080 ==>
                  && (0xA0000000 <= a <= 0xA02FFFFF ==> SwapWith(t, a) == a + 0x300000)
                  && (0xA0300000 <= a <= 0xA05FFFFF ==> SwapWith(t, a) == a - 0x300000))
            && (k == 0x07006080 || k == 0x07005080 ==>
                  && (0xA0000000 <= a <= 0xA01FFFFF ==> SwapWith(t, a) == a + 0x300000)
                  && (0xA0300000 <= a <= 0xA04FFFFF ==> SwapWith(t, a) == a - 0x300000))
            && (k !in {0x0F009080, 0x0C008080, 0x0B008080, 0x09007080, 0x07006080, 0x07005080} ==> SwapWith(t, a) == a)
  {
    DeviceTable(chipId);
    hide TableOf, SwapWith;
    SwapTwoRows(SWAP_4_OF_10_MB[0], SWAP_4_OF_10_MB[1], a);
    SwapTwoRows(SWAP_3_OF_6_MB[0], SWAP_3_OF_6_MB[1], a);
    SwapTwoRows(SWAP_2_OF_4_MB[0], SWAP_2_OF_4_MB[1], a);
    var t := SWAP_7_OF_16_MB;
    SwapFourRows(t[0], t[1], t[2], t[3], a);
    NoRows(a);
  }

  lemma NoRows(a: word)
    ensures SwapWith([], a) == a
  {
  }

  lemma DeviceTable(chipId: bv32)
    ensures var k, t := chipId & 0x0F00F0C0, TableOf(DEVICES, chipId);
            t == if k == 0x0F009080 then SWAP_7_OF_16_MB
                 else if k == 0x0C008080 || k == 0x0B008080 then SWAP_4_OF_10_MB
                 else if k == 0x09007080 then SWAP_3_OF_6_MB
                 else if k == 0x07006080 || k == 0x07005080 then SWAP_2_OF_4_MB
                 else []
  {
    hide TableOf;
    assert DEVICES[0..] == DEVICES && DEVICES[6..] == [];
    NoDevices(chipId);
    TableStep(DEVICES, 0, chipId, 0x0F00F0C0, 0x0F009080);
    TableStep(DEVICES, 1, chipId, 0x0F00F0C0, 0x0C008080);
    TableStep(DEVICES, 2, chipId, 0x0F00F0C0, 0x0B008080);
    TableStep(DEVICES, 3, chipId, 0x0F00F0C0, 0x09007080);
    TableStep(DEVICES, 4, chipId, 0x0F00F0C0, 0x07006080);
    TableStep(DEVICES, 5, chipId, 0x0F00F0C0, 0x07005080);
  }

  lemma NoDevices(chipId: bv32)
    ensures TableOf([], chipId) == []
  {
  }

  lemma TableStep(devices: seq<Device>, i: nat, chipId: bv32, mask: bv32, id: bv32)
    requires i < |devices| && devices[i].mask == mask && devices[i].id == id
    ensures TableOf(devices[i..], chipId)
            == if chipId & mask == id then devices[i].table else TableOf(devices[i + 1..], chipId)
  {
    assert devices[i..][1..] == devices[i + 1..];
  }

  lemma SwapStep(table: seq<Range>, a: word)
    requires table != []
    ensures SwapWith(table, a)
            == if table[0].first <= a <= table[0].last then (a + table[0].offset) % WORD_LIMIT
               else SwapWith(table[1..], a)
  {
    Add32Meaning(a, table[0].offset);
    hide Add32;
  }

  lemma SwapTwoRows(r: Range, s: Range, a: word)
    ensures SwapWith([r, s], a)
            == if r.first <= a <= r.last then (a + r.offset) % WORD_LIMIT
               else if s.first <= a <= s.last then (a + s.offset) % WORD_LIMIT else a
  {
    SwapStep([r, s], a);
    SwapStep([s], a);
    hide Add32;
    assert [r, s][1..] == [s] && [s][1..] == [];
  }

  lemma SwapFourRows(q: Range, r: Range, s: Range, t: Range, a: word)
    ensures SwapWith([q, r, s, t], a)
            == if q.first <= a <= q.last then (a + q.offset) % WORD_LIMIT
               else if r.first <= a <= r.last then (a + r.offset) % WORD_LIMIT
               else if s.first <= a <= s.last then (a + s.offset) % WORD_LIMIT
               else if t.first <= a <= t.last then (a + t.offset) % WORD_LIMIT else a
  {
    SwapStep([q, r, s, t], a);
    SwapStep([r, s, t], a);
    SwapTwoRows(s, t, a);
    hide SwapWith;
    assert [q, r, s, t][1..] == [r, s, t] && [r, s, t][1..] == [s, t];
  }

  // ---- the code ----

  method FindTable(devices: seq<Device>, chipId: bv32) returns (table: seq<Range>)
    ensures table == TableOf(devices, chipId)
  {
    hide Matches;
    table := [];
    var idx := 0;
    while idx < |devices|
      invariant 0 <= idx <= |devices|
      invariant TableOf(devices, chipId) == TableOf(devices[idx..], chipId)
      invariant table == []
    {
      if Matches(devices[idx], chipId) {
        table := devices[idx].table;
        break;
      }
      assert devices[idx..][1..] == devices[idx + 1..];
      idx := idx + 1;
    }
  }

  /** `get_swap_offset_cfg`. */
  method GetSwapOffsetCfg(chipId: bv32, normal: word) returns (found: Option<Range>)
    ensures found == Lookup(TableOf(DEVICES, chipId), normal)
  {
    var table := FindTable(DEVICES, chipId);
    found := None;
    var idx := 0;
    while idx < |table|
      invariant 0 <= idx <= |table|
      invariant Lookup(table, normal) == Lookup(table[idx..], normal)
      invariant found == None
    {
      if normal >= table[idx].first && normal <= table[idx].last {
        found := Some(table[idx]);
        break;
      }
      assert table[idx..][1..] == table[idx + 1..];
      idx := idx + 1;
    }
  }

  /** The address that the CPU has to use for `normal`, as the alternate map requires it. */
  function ActiveAddress(chipId: bv32, sotaEnabled: bool, alternate: bool, normal: word): word {
    if sotaEnabled && alternate then SwapWith(TableOf(DEVICES, chipId), normal) else normal
  }

  lemma ActiveMeaning(chipId: bv32, sotaEnabled: bool, alternate: bool, normal: word)
    ensures var address, table := ActiveAddress(chipId, sotaEnabled, alternate, normal), TableOf(DEVICES, chipId);
            && (sotaEnabled && alternate ==>
                  && (forall i: nat :: i < |table| && InRow(table, i, normal) ==>
                        && address == (normal + table[i].offset) % WORD_LIMIT
                        && (address == normal <==> table[i].offset == 0))
                  && (InNoRow(table, normal) ==> address == normal))
            && (!sotaEnabled || !alternate ==> address == normal)
  {
    hide TableOf, SwapWith, Paired;
    KnownPaired(chipId);
    SwapMeaning(TableOf(DEVICES, chipId), normal);
  }

  /** `get_swap_addr`. */
  method GetSwapAddr(chipId: bv32, sotaEnabled: bool, alternate: bool, normal: word) returns (address: word)
    ensures address == ActiveAddress(chipId, sotaEnabled, alternate, normal)
    ensures sotaEnabled && alternate ==>
              var table := TableOf(DEVICES, chipId);
              && (forall i: nat :: i < |table| && InRow(table, i, normal) ==>
                    address == (normal + table[i].offset) % WORD_LIMIT && (address == normal <==> table[i].offset == 0))
              && (InNoRow(table, normal) ==> address == normal)
    ensures !sotaEnabled || !alternate ==> address == normal
  {
    hide Lookup, TableOf, InRow, Add32;
    ActiveMeaning(chipId, sotaEnabled, alternate, normal);
    address := normal;
    var cfg := GetSwapOffsetCfg(chipId, normal);
    if cfg.Some? && sotaEnabled {
      if alternate {
        address := Add32(normal, cfg.value.offset);
      }
    }
  }
}
