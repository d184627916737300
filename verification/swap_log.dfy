/** The swap log of one UCB block: sixteen entries, each a marker page and a
    confirmation page, plus the page holding the block's confirmation code. */
module SwapLog {
  import opened Words

  const NR_OF_ENTRIES: nat := 16
  const ENTRY_LENGTH: nat := 0x10
  const CONFIRMATION_OFFSET: nat := 8
  const SENTINEL: word := 0xFFFF_FFFF
  const ALL_ONES: word := 0xFFFF_FFFF
  const STANDARD: word := 0x55
  const ALTERNATE: word := 0xAA
  const CONFIRMED_CODE: word := 0x57B5327F
  const UNLOCKED_CODE: word := 0x43211234
  const UCB_BASE: word := 0xAF400000
  const UCB_SECTOR_SIZE: nat := 0x200

  type SlotIndex = i: nat | i < NR_OF_ENTRIES

  /** A DFLASH page: two 32-bit words that are programmed together. */
  datatype Page = Erased | Programmed(lo: word, hi: word)

  datatype BlockId = Orig | Copy

  function UcbIndex(b: BlockId): nat {
    match b case Orig => 23 case Copy => 31
  }

  function UcbAddress(b: BlockId): word {
    UCB_BASE + UCB_SECTOR_SIZE * UcbIndex(b)
  }

  function MarkerAddress(b: BlockId, i: SlotIndex): word {
    UcbAddress(b) + ENTRY_LENGTH * i
  }

  function ConfirmationAddress(b: BlockId, i: SlotIndex): word {
    UcbAddress(b) + ENTRY_LENGTH * i + CONFIRMATION_OFFSET
  }

  datatype Slot = Slot(marker: Page, confirm: Page)

  const EMPTY_SLOT := Slot(Erased, Erased)

  type Slots = s: seq<Slot> | |s| == NR_OF_ENTRIES
    witness seq(NR_OF_ENTRIES, _ => Slot(Erased, Erased))

  datatype Block = Block(slots: Slots, code: Page)

  // ---- one entry ----

  /** What reading one entry reports: a valid value, a range that reads as erased,
      or programmed pages that do not form an entry for this place. */
  datatype Entry = Valid(value: word) | Blank | Invalid

  predicate IsMode(v: word) {
    v == STANDARD || v == ALTERNATE
  }

  /** `v XOR 0xFF`. */
  function Flip(v: word): word {
    v - v % 256 + (255 - v % 256)
  }

  function ReadEntry(b: BlockId, i: SlotIndex, s: Slot): Entry {
    if s.marker.Erased? || s.confirm.Erased? then Blank
    else if s.confirm.hi == ConfirmationAddress(b, i) && s.confirm.lo == CONFIRMED_CODE
            && s.marker.hi == MarkerAddress(b, i) && IsMode(s.marker.lo)
    then Valid(s.marker.lo)
    else Invalid
  }

  function MarkerPage(b: BlockId, i: SlotIndex, v: word): Page {
    Programmed(v, MarkerAddress(b, i))
  }

  function ConfirmationPage(b: BlockId, i: SlotIndex): Page {
    Programmed(CONFIRMED_CODE, ConfirmationAddress(b, i))
  }

  const INVALIDATED := Programmed(ALL_ONES, ALL_ONES)

  /** The bytes of an entry are accepted at one place only: the block and slot they
      were written for. */
  lemma EntryBoundToItsPlace(b: BlockId, i: SlotIndex, b': BlockId, i': SlotIndex, s: Slot)
    requires ReadEntry(b, i, s).Valid?
    ensures ReadEntry(b', i', s).Valid? <==> b' == b && i' == i
  {
  }

  /** An entry in numbers: what is valid at slot `i` is one pair of pages for each of the two modes, and
      nothing else; and a slot reads as blank exactly when one of its pages is erased. */
  lemma EntryExactly(b: BlockId, i: SlotIndex, s: Slot, v: word)
    ensures var a := (if b == Orig then 0xAF402E00 else 0xAF403E00) + 16 * i;
            ReadEntry(b, i, s) == Valid(v)
            <==> (v == 0x55 || v == 0xAA) && s == Slot(Programmed(v, a), Programmed(0x57B5327F, a + 8))
    ensures ReadEntry(b, i, s) == Blank <==> s.marker == Erased || s.confirm == Erased
  {
  }

  /** The two modes are each other's complement in the low byte. */
  lemma FlipMeaning(v: word)
    ensures Flip(0x55) == 0xAA && Flip(0xAA) == 0x55
    ensures Flip(v) / 256 == v / 256 && Flip(v) % 256 + v % 256 == 255
  {
  }

  // ---- the scan ----

  /** `AsWritten` compares the loop index with FLASH_ERR_OK; `AsDocumented` compares the
      read result, as the comments beside the comparison describe. */
  datatype ScanRule = AsWritten | AsDocumented

  datatype BlockInfo = BlockInfo(swapIndex: word, swapValue: word, nextIndex: word, validCnt: nat)

  const NO_INFO := BlockInfo(SENTINEL, 0, SENTINEL, 0)

  /** One turn of the scan loop. */
  function ScanStep(rule: ScanRule, b: BlockId, i: SlotIndex, s: Slot, info: BlockInfo): BlockInfo {
    var e := ReadEntry(b, i, s);
    var v := if e.Valid? then e.value else info.swapValue;
    var hit := match rule case AsWritten => i == 0 case AsDocumented => e.Valid?;
    var seen := if hit then BlockInfo(i, v, SENTINEL, info.validCnt + 1) else info.(swapValue := v);
    if e.Blank? && seen.nextIndex == SENTINEL then seen.(nextIndex := i) else seen
  }

  function ScanUpTo(rule: ScanRule, b: BlockId, slots: Slots, n: nat): (info: BlockInfo)
    requires n <= NR_OF_ENTRIES
    ensures info.validCnt > 0 ==> info.swapIndex < n
  {
    if n == 0 then NO_INFO
    else ScanStep(rule, b, n - 1, slots[n - 1], ScanUpTo(rule, b, slots, n - 1))
  }

  function Scan(rule: ScanRule, b: BlockId, slots: Slots): (info: BlockInfo)
    ensures info.validCnt > 0 ==> info.swapIndex < NR_OF_ENTRIES
  {
    ScanUpTo(rule, b, slots, NR_OF_ENTRIES)
  }

  // ---- what the scan is for ----

  /** One more than the index of the last valid entry below `n`; 0 when there is none. */
  function LatestEnd(b: BlockId, slots: Slots, n: nat): (k: nat)
    requires n <= NR_OF_ENTRIES
    ensures k <= n
    ensures k > 0 ==> ReadEntry(b, k - 1, slots[k - 1]).Valid?
  {
    if n == 0 then 0
    else if ReadEntry(b, n - 1, slots[n - 1]).Valid? then n
    else LatestEnd(b, slots, n - 1)
  }

  lemma {:induction false} NoneAfterLatest(b: BlockId, slots: Slots, n: nat, i: SlotIndex)
    requires n <= NR_OF_ENTRIES && LatestEnd(b, slots, n) <= i < n
    ensures !ReadEntry(b, i, slots[i]).Valid?
  {
    if i < n - 1 {
      NoneAfterLatest(b, slots, n - 1, i);
    }
  }

  lemma {:induction false} LatestEndIs(b: BlockId, slots: Slots, k: nat, n: nat)
    requires k <= n <= NR_OF_ENTRIES
    requires k > 0 ==> ReadEntry(b, k - 1, slots[k - 1]).Valid?
    requires forall i: SlotIndex :: k <= i < n ==> !ReadEntry(b, i, slots[i]).Valid?
    ensures LatestEnd(b, slots, n) == k
  {
    if k < n {
      var i: SlotIndex := n - 1;
      assert !ReadEntry(b, i, slots[i]).Valid?;
      LatestEndIs(b, slots, k, n - 1);
    }
  }

  /** The value of the latest valid entry, the one that the boot sequence follows; 0 when
      there is none. */
  function LatestValue(b: BlockId, slots: Slots): word {
    var k := LatestEnd(b, slots, NR_OF_ENTRIES);
    if k == 0 then 0 else ReadEntry(b, k - 1, slots[k - 1]).value
  }

  function CountValid(b: BlockId, slots: Slots, n: nat): (c: nat)
    requires n <= NR_OF_ENTRIES
    ensures c <= n
  {
    if n == 0 then 0
    else CountValid(b, slots, n - 1) + if ReadEntry(b, n - 1, slots[n - 1]).Valid? then 1 else 0
  }

  lemma {:induction false} CountPositive(b: BlockId, slots: Slots, n: nat)
    requires n <= NR_OF_ENTRIES
    ensures CountValid(b, slots, n) > 0 <==> LatestEnd(b, slots, n) > 0
  {
    if n > 0 {
      CountPositive(b, slots, n - 1);
    }
  }

  predicate IsBlank(s: Slot) {
    s.marker.Erased? || s.confirm.Erased?
  }

  /** The first blank slot in `lo..hi`, or `SENTINEL`. */
  function FirstBlank(slots: Slots, lo: nat, hi: nat): (k: word)
    requires lo <= hi <= NR_OF_ENTRIES
    ensures k == SENTINEL || (lo <= k < hi && IsBlank(slots[k]))
    decreases hi
  {
    if lo == hi then SENTINEL
    else
      var k := FirstBlank(slots, lo, hi - 1);
      if k != SENTINEL then k
      else if IsBlank(slots[hi - 1]) then hi - 1 else SENTINEL
  }

  lemma {:induction false} NoBlankBefore(slots: Slots, lo: nat, hi: nat, i: nat)
    requires lo <= i < hi <= NR_OF_ENTRIES && i < FirstBlank(slots, lo, hi)
    ensures !IsBlank(slots[i])
    decreases hi
  {
    if i < hi - 1 {
      NoBlankBefore(slots, lo, hi - 1, i);
    }
  }

  lemma {:induction false} FirstBlankFrom(slots: Slots, lo: nat, hi: nat)
    requires lo < hi <= NR_OF_ENTRIES && IsBlank(slots[lo])
    ensures FirstBlank(slots, lo, hi) == lo
    decreases hi
  {
    if lo < hi - 1 {
      FirstBlankFrom(slots, lo, hi - 1);
    }
  }

  /** The documented scan finds the number of valid entries, the latest of them with its
      value, and the first blank slot after it. */
  lemma {:induction false} DocumentedScanMeaning(b: BlockId, slots: Slots, n: nat)
    requires n <= NR_OF_ENTRIES
    ensures var k, info := LatestEnd(b, slots, n), ScanUpTo(AsDocumented, b, slots, n);
            && info.validCnt == CountValid(b, slots, n)
            && info.swapIndex == (if k == 0 then SENTINEL else k - 1)
            && info.swapValue == (if k == 0 then 0 else ReadEntry(b, k - 1, slots[k - 1]).value)
            && info.nextIndex == FirstBlank(slots, k, n)
  {
    if n > 0 {
      DocumentedScanMeaning(b, slots, n - 1);
    }
  }

  /** The scan as written finds the same value, but always reports one valid entry at
      index 0, and its next index is the first blank slot of the whole log. */
  lemma {:induction false} WrittenScanMeaning(b: BlockId, slots: Slots, n: nat)
    requires n <= NR_OF_ENTRIES
    ensures var k, info := LatestEnd(b, slots, n), ScanUpTo(AsWritten, b, slots, n);
            && info.validCnt == (if n == 0 then 0 else 1)
            && info.swapIndex == (if n == 0 then SENTINEL else 0)
            && info.swapValue == (if k == 0 then 0 else ReadEntry(b, k - 1, slots[k - 1]).value)
            && info.nextIndex == FirstBlank(slots, 0, n)
  {
    if n > 0 {
      WrittenScanMeaning(b, slots, n - 1);
    }
  }

  lemma ScanMeaning(rule: ScanRule, b: BlockId, slots: Slots)
    ensures var k, info := LatestEnd(b, slots, NR_OF_ENTRIES), Scan(rule, b, slots);
            && info.swapValue == LatestValue(b, slots)
            && info.validCnt == (if rule.AsWritten? then 1 else CountValid(b, slots, NR_OF_ENTRIES))
            && info.swapIndex == (if rule.AsWritten? then 0 else if k == 0 then SENTINEL else k - 1)
            && info.nextIndex == FirstBlank(slots, if rule.AsWritten? then 0 else k, NR_OF_ENTRIES)
  {
    match rule
    case AsWritten => WrittenScanMeaning(b, slots, NR_OF_ENTRIES);
    case AsDocumented => DocumentedScanMeaning(b, slots, NR_OF_ENTRIES);
  }

  // ---- the shape that the protocol keeps ----

  /** Length of the used prefix: the slots before the first blank one. */
  function Used(slots: Slots): (m: nat)
    ensures m <= NR_OF_ENTRIES
    ensures forall i :: 0 <= i < m ==> !IsBlank(slots[i])
    ensures m < NR_OF_ENTRIES ==> IsBlank(slots[m])
  {
    var k := FirstBlank(slots, 0, NR_OF_ENTRIES);
    assert forall i :: 0 <= i < NR_OF_ENTRIES && i < k ==> !IsBlank(slots[i]) by {
      forall i | 0 <= i < NR_OF_ENTRIES && i < k ensures !IsBlank(slots[i]) {
        NoBlankBefore(slots, 0, NR_OF_ENTRIES, i);
      }
    }
    if k == SENTINEL then NR_OF_ENTRIES else k
  }

  /** A slot whose marker for mode `v` is written while its confirmation is not. */
  predicate IsTorn(b: BlockId, i: SlotIndex, s: Slot, v: word) {
    IsMode(v) && s == Slot(MarkerPage(b, i, v), Erased)
  }

  /** A used prefix that is empty or ends in a valid entry, then possibly one torn slot,
      then untouched slots. */
  predicate WellShaped(b: BlockId, slots: Slots) {
    var m := Used(slots);
    && (m > 0 ==> ReadEntry(b, m - 1, slots[m - 1]).Valid?)
    && (m < NR_OF_ENTRIES ==>
          slots[m] == EMPTY_SLOT || IsTorn(b, m, slots[m], STANDARD) || IsTorn(b, m, slots[m], ALTERNATE))
    && (forall i: SlotIndex :: m < i ==> slots[i] == EMPTY_SLOT)
  }

  /** A well-shaped log with at least one valid entry. */
  predicate Proper(b: BlockId, slots: Slots) {
    WellShaped(b, slots) && Used(slots) > 0
  }

  predicate Torn(slots: Slots) {
    Used(slots) < NR_OF_ENTRIES && slots[Used(slots)] != EMPTY_SLOT
  }

  lemma UsedIs(slots: Slots, m: nat)
    requires m <= NR_OF_ENTRIES
    requires forall i :: 0 <= i < m ==> !IsBlank(slots[i])
    requires m < NR_OF_ENTRIES ==> IsBlank(slots[m])
    ensures Used(slots) == m
  {
  }

  /** In a well-shaped log the latest valid entry is the last used slot. */
  lemma LatestIsLastUsed(b: BlockId, slots: Slots)
    requires WellShaped(b, slots)
    ensures var m := Used(slots);
            && LatestEnd(b, slots, NR_OF_ENTRIES) == m
            && LatestValue(b, slots) == (if m == 0 then 0 else ReadEntry(b, m - 1, slots[m - 1]).value)
            && (m > 0 ==> IsMode(LatestValue(b, slots)))
  {
    LatestEndIs(b, slots, Used(slots), NR_OF_ENTRIES);
  }

  /** On a well-shaped log, both scans find the same value and the same free slot. */
  lemma ScanWellShaped(rule: ScanRule, b: BlockId, slots: Slots)
    requires WellShaped(b, slots)
    ensures var m, info := Used(slots), Scan(rule, b, slots);
            && info.swapValue == LatestValue(b, slots)
            && info.nextIndex == (if m < NR_OF_ENTRIES then m else SENTINEL)
            && info.swapIndex == (if rule.AsWritten? then 0 else if m == 0 then SENTINEL else m - 1)
            && info.validCnt == (if rule.AsWritten? then 1 else CountValid(b, slots, NR_OF_ENTRIES))
            && (info.validCnt > 0 <==> rule.AsWritten? || m > 0)
  {
    ScanMeaning(rule, b, slots);
    LatestIsLastUsed(b, slots);
    CountPositive(b, slots, NR_OF_ENTRIES);
    if rule.AsDocumented? && Used(slots) < NR_OF_ENTRIES {
      FirstBlankFrom(slots, Used(slots), NR_OF_ENTRIES);
    }
  }

  /** What `swap_bank` uses of a scan: whether a valid entry was seen, its value, where to
      append, whether it is the only one, and how far to invalidate when it is not. */
  datatype Observation = Observation(found: bool, value: word, next: word, single: bool, stale: word)

  function Observe(info: BlockInfo): Observation {
    Observation(info.swapIndex < NR_OF_ENTRIES, info.swapValue, info.nextIndex,
                info.validCnt == 1, if info.validCnt > 1 then info.swapIndex else 0)
  }

  /** On a well-shaped log the two scans always agree on the value and on the free slot, and
      they agree on all that `swap_bank` observes exactly when one entry is valid. */
  lemma ScanRefinement(b: BlockId, slots: Slots)
    requires WellShaped(b, slots)
    ensures Scan(AsWritten, b, slots).swapValue == Scan(AsDocumented, b, slots).swapValue
    ensures Scan(AsWritten, b, slots).nextIndex == Scan(AsDocumented, b, slots).nextIndex
    ensures Observe(Scan(AsWritten, b, slots)) == Observe(Scan(AsDocumented, b, slots))
            <==> CountValid(b, slots, NR_OF_ENTRIES) == 1
  {
    ScanWellShaped(AsWritten, b, slots);
    ScanWellShaped(AsDocumented, b, slots);
  }

  // ---- counting ----

  lemma {:induction false} CountSame(b: BlockId, s: Slots, t: Slots, n: nat)
    requires n <= NR_OF_ENTRIES
    requires forall i: SlotIndex :: i < n ==> (ReadEntry(b, i, s[i]).Valid? <==> ReadEntry(b, i, t[i]).Valid?)
    ensures CountValid(b, s, n) == CountValid(b, t, n)
  {
    if n > 0 {
      var i: SlotIndex := n - 1;
      assert ReadEntry(b, i, s[i]).Valid? <==> ReadEntry(b, i, t[i]).Valid?;
      CountSame(b, s, t, n - 1);
    }
  }

  lemma {:induction false} CountNone(b: BlockId, s: Slots, lo: nat, n: nat)
    requires lo <= n <= NR_OF_ENTRIES
    requires forall i: SlotIndex :: lo <= i < n ==> !ReadEntry(b, i, s[i]).Valid?
    ensures CountValid(b, s, n) == CountValid(b, s, lo)
  {
    if lo < n {
      var i: SlotIndex := n - 1;
      assert !ReadEntry(b, i, s[i]).Valid?;
      CountNone(b, s, lo, n - 1);
    }
  }

  /** Exactly one entry is valid when slot `i` is and no other slot is. */
  lemma CountOne(b: BlockId, s: Slots, i: SlotIndex)
    requires ReadEntry(b, i, s[i]).Valid?
    requires forall j: SlotIndex :: j != i ==> !ReadEntry(b, j, s[j]).Valid?
    ensures CountValid(b, s, NR_OF_ENTRIES) == 1
    ensures LatestEnd(b, s, NR_OF_ENTRIES) == i + 1
  {
    CountNone(b, s, 0, i);
    CountNone(b, s, i + 1, NR_OF_ENTRIES);
    LatestEndIs(b, s, i + 1, NR_OF_ENTRIES);
  }
}
