/** Reading flash: the erase check over a range of pages, and the read that depends on it. */
module FlashRead {
  import opened Words
  import SwapAddress

  const DFLASH_PAGE_SIZE: nat := 8
  const PFLASH_PAGE_SIZE: nat := 32

  /** `a` with the bit of value `weight` set. */
  function SetBit(a: word, weight: word): word
    requires weight == 0x2000_0000 || weight == 0x8000_0000
  {
    if a / weight % 2 == 1 then a else a + weight
  }

  /** `a | 0xA0000000`: the uncached alias. */
  function Uncached(a: word): word {
    SetBit(SetBit(a, 0x2000_0000), 0x8000_0000)
  }

  /** `(a & 0xAF000000) == 0xAF000000`. */
  predicate InDflash(a: word) {
    a / 0x0100_0000 % 16 == 15 && a / 0x2000_0000 % 2 == 1 && a / 0x8000_0000 == 1
  }

  /** The uncached alias in numbers: bits 29 and 31 are set, and all others stay. */
  lemma UncachedMeaning(a: word)
    ensures var r := Uncached(a);
            && r % 0x2000_0000 == a % 0x2000_0000
            && r / 0x2000_0000 % 2 == 1
            && r / 0x4000_0000 % 2 == a / 0x4000_0000 % 2
            && r / 0x8000_0000 == 1
  {
    var high := a / 0x2000_0000;
    assert SetBit(a, 0x2000_0000) / 0x2000_0000 == if high % 2 == 1 then high else high + 1;
  }

  /** Data flash and UCBs have an address whose first byte has all bits of 0xAF; pages are 8 bytes there, and
      32 elsewhere. */
  lemma PageSizeMeaning(a: word)
    ensures PageSize(a) == if a / 0x0100_0000 in {0xAF, 0xBF, 0xEF, 0xFF} then 8 else 32
  {
  }

  predicate IsPageSize(size: nat) {
    size == DFLASH_PAGE_SIZE || size == PFLASH_PAGE_SIZE
  }

  function PageSize(a: word): (n: nat)
    ensures IsPageSize(n)
  {
    if InDflash(a) then DFLASH_PAGE_SIZE else PFLASH_PAGE_SIZE
  }

  predicate Aligned(a: int, size: nat)
    requires IsPageSize(size)
  {
    if size == DFLASH_PAGE_SIZE then a % 8 == 0 else a % 32 == 0
  }

  /** `a & ~(size - 1)`. */
  function AlignDown(a: word, size: nat): (r: word)
    requires IsPageSize(size)
    ensures Aligned(r, size) && r <= a < r + size
  {
    if size == DFLASH_PAGE_SIZE then a - a % 8 else a - a % 32
  }

  /** The status of the first page in `page, page + size, ..` below `end` that is not
      programmed, or `FlashOk`. */
  function StatusFrom(status: word -> FlashStatus, page: int, end: word, size: nat): FlashStatus
    requires IsPageSize(size) && 0 <= page
    decreases end - page
  {
    if page >= end then FlashOk
    else if status(page) != FlashOk then status(page)
    else StatusFrom(status, page + size, end, size)
  }

  /** What the erase check reports for the uncached address `a`, with the 32-bit arithmetic
      of the code: the first page is always looked at. */
  function RangeStatus(status: word -> FlashStatus, a: word, length: word): FlashStatus {
    var size := PageSize(a);
    var first := AlignDown(a, size);
    var end := AlignDown((a + length + size - 1) % WORD_LIMIT, size);
    if status(first) != FlashOk then status(first)
    else StatusFrom(status, Add32(first, size), end, size)
  }

  /** Page `p` has a byte in `a .. a + length`. */
  predicate Overlaps(p: word, a: word, length: word) {
    var size := PageSize(a);
    Aligned(p, size) && p < a + length && a < p + size
  }

  /** `p` is a page in `lo..hi`. */
  predicate PageIn(p: word, lo: int, hi: word, size: nat)
    requires IsPageSize(size)
  {
    lo <= p < hi && Aligned(p, size)
  }

  lemma NextPage(page: int, p: int, size: nat)
    requires IsPageSize(size)
    requires Aligned(page, size) && Aligned(p, size) && page <= p
    ensures p == page || p >= page + size
  {
  }

  lemma NextAligned(page: int, size: nat)
    requires IsPageSize(size) && Aligned(page, size)
    ensures Aligned(page + size, size)
  {
  }

  /** The scan reports the first page of its range that is not programmed. */
  predicate FirstProblem(status: word -> FlashStatus, s: FlashStatus, lo: int, hi: word, size: nat)
    requires IsPageSize(size)
  {
    if s == FlashOk then forall p: word :: PageIn(p, lo, hi, size) ==> status(p) == FlashOk
    else exists p: word :: PageIn(p, lo, hi, size) && status(p) == s && AllGood(status, lo, p, size)
  }

  predicate AllGood(status: word -> FlashStatus, lo: int, hi: word, size: nat)
    requires IsPageSize(size)
  {
    forall p: word :: PageIn(p, lo, hi, size) ==> status(p) == FlashOk
  }

  lemma {:induction false} StatusFromMeaning(status: word -> FlashStatus, page: int, end: word, size: nat)
    requires IsPageSize(size) && 0 <= page && Aligned(page, size)
    ensures FirstProblem(status, StatusFrom(status, page, end, size), page, end, size)
    decreases end - page
  {
    hide Aligned;
    if page < end {
      NextAligned(page, size);
      if status(page) == FlashOk {
        StatusFromMeaning(status, page + size, end, size);
        FirstGood(status, StatusFrom(status, page + size, end, size), page, end, size);
      } else {
        assert PageIn(page, page, end, size) && AllGood(status, page, page, size);
      }
    }
  }

  lemma FirstGood(status: word -> FlashStatus, s: FlashStatus, page: word, end: word, size: nat)
    requires IsPageSize(size) && Aligned(page, size) && page < end && status(page) == FlashOk
    requires FirstProblem(status, s, page + size, end, size)
    ensures FirstProblem(status, s, page, end, size)
  {
    hide Aligned;
    forall p: word | PageIn(p, page, end, size) ensures p == page || PageIn(p, page + size, end, size) {
      NextPage(page, p, size);
    }
    if s != FlashOk {
      var p: word :| PageIn(p, page + size, end, size) && status(p) == s && AllGood(status, page + size, p, size);
      forall q: word | PageIn(q, page, p, size) ensures status(q) == FlashOk {
        NextPage(page, q, size);
        assert q == page || PageIn(q, page + size, p, size);
      }
      assert PageIn(p, page, end, size) && AllGood(status, page, p, size);
    }
  }

  /** For a positive length without wrap-around, the erase check reports OK exactly when every
      page that overlaps the range is programmed, and otherwise the status of the first
      overlapping page that is not. */
  lemma RangeStatusMeaning(status: word -> FlashStatus, a: word, length: word)
    requires length > 0 && a + length + PageSize(a) <= WORD_LIMIT
    ensures var s := RangeStatus(status, a, length);
            if s == FlashOk then forall p: word :: Overlaps(p, a, length) ==> status(p) == FlashOk
            else exists p: word ::
              && Overlaps(p, a, length) && status(p) == s
              && (forall q: word :: Overlaps(q, a, length) && q < p ==> status(q) == FlashOk)
  {
    hide Aligned, AlignDown, InDflash;
    var size := PageSize(a);
    var first, end := AlignDown(a, size), AlignDown(a + length + size - 1, size);
    var s := RangeStatus(status, a, length);
    forall p: word ensures Overlaps(p, a, length) <==> PageIn(p, first, end, size) {
      OverlapBounds(p, a, length);
    }
    assert FirstProblem(status, s, first, end, size) by {
      OverlapBounds(first, a, length);
      if status(first) == FlashOk {
        NextAligned(first, size);
        StatusFromMeaning(status, first + size, end, size);
        FirstGood(status, s, first, end, size);
      } else {
        assert AllGood(status, first, first, size);
      }
    }
    if s != FlashOk {
      var p: word :| PageIn(p, first, end, size) && status(p) == s && AllGood(status, first, p, size);
      assert Overlaps(p, a, length);
      forall q: word | Overlaps(q, a, length) && q < p ensures status(q) == FlashOk {
        assert PageIn(q, first, p, size);
      }
    }
  }

  lemma OverlapBounds(p: word, a: word, length: word)
    requires length > 0 && a + length + PageSize(a) <= WORD_LIMIT
    ensures var size := PageSize(a);
            Overlaps(p, a, length) <==> PageIn(p, AlignDown(a, size), AlignDown(a + length + size - 1, size), size)
  {
    hide Aligned, AlignDown, InDflash;
    var size := PageSize(a);
    var first, end := AlignDown(a, size), AlignDown(a + length + size - 1, size);
    if Aligned(p, size) {
      if p <= first { NextPage(p, first, size); }
      if p <= end { NextPage(p, end, size); }
    }
  }

  /** A range within one or two DFLASH pages. */
  lemma OneOrTwoPages(status: word -> FlashStatus, a: word, length: word)
    requires InDflash(a) && a % 8 == 0 && 0 < length <= 16 && a + length + 8 <= WORD_LIMIT
    ensures RangeStatus(status, a, length)
            == if status(a) != FlashOk || length <= 8 then status(a) else status(a + 8)
  {
    hide AlignDown;
    var end := AlignDown(a + length + 7, 8);
    AlignedEnds(a, length);
    assert PageSize(a) == 8;
    assert StatusFrom(status, a + 16, end, 8) == FlashOk;
  }

  lemma AlignedEnds(a: word, length: word)
    requires a % 8 == 0 && 0 < length <= 16 && a + length + 8 <= WORD_LIMIT
    ensures AlignDown(a, 8) == a
    ensures AlignDown(a + length + 7, 8) == if length <= 8 then a + 8 else a + 16
  {
  }

  // ---- the code ----

  /** `verify_erased_range`, for an uncached address. */
  method VerifyErasedRange(status: word -> FlashStatus, verifyAddress: word, verifyLength: word)
    returns (ret: FlashStatus)
    ensures ret == RangeStatus(status, Uncached(verifyAddress), verifyLength)
  {
    hide Uncached, InDflash;
    var uncached := Uncached(verifyAddress);
    var size := if InDflash(uncached) then DFLASH_PAGE_SIZE else PFLASH_PAGE_SIZE;
    var aligned := AlignDown(uncached, size);
    var end := AlignDown((uncached + verifyLength + size - 1) % WORD_LIMIT, size);
    ret := status(aligned);
    if ret == FlashOk {
      var page: int := Add32(aligned, size);
      while page < end
        invariant 0 <= page && ret == FlashOk
        invariant StatusFrom(status, Add32(aligned, size), end, size) == StatusFrom(status, page, end, size)
      {
        ret := status(page);
        if ret != FlashOk {
          break;
        }
        page := page + size;
      }
    }
  }

  lemma UncachedTwice(a: word)
    ensures Uncached(Uncached(a)) == Uncached(a)
  {
  }

  /** `flash_read` into a buffer of elements of `unit` bytes: erased flash reads as `filler`,
      programmed flash as its content at the address that the active map gives. */
  method Read<T>(chipId: bv32, sotaEnabled: bool, alternate: bool, status: word -> FlashStatus,
                 memory: word -> T, filler: T, unit: nat, address: word, length: word, buffer: array<T>)
    returns (ret: FlashStatus)
    requires unit > 0 && buffer.Length * unit == length
    modifies buffer
    ensures ret == RangeStatus(status, Uncached(address), length)
    ensures ret == FlashErased ==> forall i :: 0 <= i < buffer.Length ==> buffer[i] == filler
    ensures ret == FlashOk ==> forall i: nat :: i < buffer.Length ==>
      var start := SwapAddress.ActiveAddress(chipId, sotaEnabled, alternate, Uncached(address));
      buffer[i] == memory((start + unit * i) % WORD_LIMIT)
    ensures ret != FlashErased && ret != FlashOk ==> buffer[..] == old(buffer[..])
  {
    var uncached := Uncached(address);
    ret := VerifyErasedRange(status, uncached, length);
    UncachedTwice(address);
    uncached := SwapAddress.GetSwapAddr(chipId, sotaEnabled, alternate, uncached);
    if ret == FlashErased {
      forall i | 0 <= i < buffer.Length {
        buffer[i] := filler;
      }
    } else if ret == FlashOk {
      forall i | 0 <= i < buffer.Length {
        buffer[i] := memory((uncached + unit * i) % WORD_LIMIT);
      }
    }
  }
}
