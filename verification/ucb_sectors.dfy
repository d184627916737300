/** The two UCB sectors as pages and addresses, and how the log operations act on them. */
module UcbSectors {
  import opened Words
  import opened SwapLog
  import opened SwapProtocol
  import opened SwapCall
  import FlashRead

  const PAGES: nat := 64
  const CONFIRMATION_PAGE: nat := 62

  type Sector = s: seq<Page> | |s| == PAGES witness seq(PAGES, _ => Page.Erased)

  // ---- sectors and logs ----

  function SlotsOf(s: Sector): Slots {
    seq(NR_OF_ENTRIES, i requires 0 <= i < NR_OF_ENTRIES => Slot(s[2 * i], s[2 * i + 1]))
  }

  function BlockOf(s: Sector): Block {
    Block(SlotsOf(s), s[CONFIRMATION_PAGE])
  }

  function PageNo(at: Place): (n: nat)
    ensures n < PAGES
  {
    match at
    case Marker(i) => 2 * i
    case Confirm(i) => 2 * i + 1
    case Code => CONFIRMATION_PAGE
  }

  /** A page program or sector erase as the flash module sees it; programs outside the two sectors
      are recorded by their address. */
  datatype RawOp =
    | RawProgram(b: BlockId, page: nat, content: Page)
    | RawElsewhere(address: word, content: Page)
    | RawErase(b: BlockId)

  function RawOf(op: Op): RawOp {
    match op
    case Program(b, at, page) => RawProgram(b, PageNo(at), page)
    case Erase(b) => RawErase(b)
  }

  function Raw(ops: seq<Op>): seq<RawOp> {
    if ops == [] then [] else Raw(ops[..|ops| - 1]) + [RawOf(ops[|ops| - 1])]
  }

  lemma {:induction false} RawConcat(a: seq<Op>, b: seq<Op>)
    ensures Raw(a + b) == Raw(a) + Raw(b)
    decreases |b|
  {
    if b == [] {
      assert a + b == a;
    } else {
      var c, op := b[..|b| - 1], b[|b| - 1];
      assert (a + b)[..|a + b| - 1] == a + c && (a + b)[|a + b| - 1] == op;
      RawConcat(a, c);
    }
  }

  /** Programming one page of a sector is the page operation on its log. */
  lemma ProgramPage(s: Sector, at: Place, page: Page)
    ensures BlockOf(s[PageNo(at) := page]) == SetPage(BlockOf(s), at, page)
  {
    assert SlotsOf(s[PageNo(at) := page]) == SetPage(BlockOf(s), at, page).slots;
  }

  lemma EraseSector(s: Sector)
    requires forall i :: 0 <= i < PAGES ==> s[i] == Page.Erased
    ensures BlockOf(s) == ErasedBlock()
  {
    assert SlotsOf(s) == ErasedBlock().slots;
  }

  // ---- memory as the CPU reads it ----

  predicate InSector(b: BlockId, a: int) {
    UcbAddress(b) <= a < UcbAddress(b) + UCB_SECTOR_SIZE
  }

  function PageIndex(b: BlockId, a: int): nat
    requires InSector(b, a)
  {
    (a - UcbAddress(b)) / 8
  }

  datatype Sectors = Sectors(orig: Sector, copy: Sector) {
    function At(b: BlockId): Sector {
      match b case Orig => orig case Copy => copy
    }

    function With(b: BlockId, s: Sector): Sectors {
      match b case Orig => Sectors(s, copy) case Copy => Sectors(orig, s)
    }

    /** One page programmed, if `a` is in one of the two sectors. */
    function Poke(a: word, page: Page): Sectors {
      if InSector(Orig, a) then With(Orig, orig[PageIndex(Orig, a) := page])
      else if InSector(Copy, a) then With(Copy, copy[PageIndex(Copy, a) := page])
      else this
    }

    function View(): Flash {
      Flash(BlockOf(orig), BlockOf(copy))
    }

    /** What the erase check says about the page at `a`; the rest of the address space is
        not part of this model. */
    function Status(a: word): FlashStatus {
      if InSector(Orig, a) then StatusIn(Orig, a)
      else if InSector(Copy, a) then StatusIn(Copy, a)
      else FlashNotOk
    }

    function StatusIn(b: BlockId, a: word): FlashStatus
      requires InSector(b, a)
    {
      if At(b)[PageIndex(b, a)] == Page.Erased then FlashErased else FlashOk
    }

    function WordAt(a: word): word {
      if InSector(Orig, a) then WordIn(Orig, a)
      else if InSector(Copy, a) then WordIn(Copy, a)
      else 0
    }

    function WordIn(b: BlockId, a: word): word
      requires InSector(b, a)
    {
      match At(b)[PageIndex(b, a)]
      case Erased => ALL_ONES
      case Programmed(lo, hi) => if a % 8 < 4 then lo else hi
    }
  }

  /** A page that was programmed reads back its two words, and no other page of the two sectors changes. */
  lemma PokeReadsBack(c: Sectors, b: BlockId, a: word, lo: word, hi: word, d: BlockId, n: nat)
    requires InSector(b, a) && a % 8 == 0 && n < PAGES
    ensures var t := c.Poke(a, Programmed(lo, hi));
            && a + 4 < WORD_LIMIT && t.WordAt(a) == lo && t.WordAt(a + 4) == hi
            && (UcbAddress(d) + 8 * n != a ==> t.At(d)[n] == c.At(d)[n])
  {
  }

  /** The two sectors in numbers. */
  lemma SectorAddresses(a: int)
    ensures InSector(Orig, a) <==> 0xAF402E00 <= a < 0xAF403000
    ensures InSector(Copy, a) <==> 0xAF403E00 <= a < 0xAF404000
    ensures UcbAddress(Orig) + 8 * CONFIRMATION_PAGE == 0xAF402FF0
    ensures UcbAddress(Copy) + 8 * CONFIRMATION_PAGE == 0xAF403FF0
  {
  }

  // ---- page writes ----

  function Written(s: Sector, first: nat, data: seq<word>, n: nat): Sector
    requires first + n <= PAGES && 2 * n <= |data|
  {
    if n == 0 then s
    else Written(s, first, data, n - 1)[first + n - 1 := Programmed(data[2 * n - 2], data[2 * n - 1])]
  }

  function WriteTrace(b: BlockId, first: nat, data: seq<word>, n: nat): seq<RawOp>
    requires 2 * n <= |data|
  {
    if n == 0 then []
    else WriteTrace(b, first, data, n - 1)
         + [RawProgram(b, first + n - 1, Programmed(data[2 * n - 2], data[2 * n - 1]))]
  }

  function RawAt(a: word, content: Page): RawOp {
    if InSector(Orig, a) then RawProgram(Orig, PageIndex(Orig, a), content)
    else if InSector(Copy, a) then RawProgram(Copy, PageIndex(Copy, a), content)
    else RawElsewhere(a, content)
  }

  function PageAddress(start: word, k: nat): word {
    (start + 8 * k) % WORD_LIMIT
  }

  /** `n` pages programmed from address `start` on, wherever that is. */
  function Poked(c: Sectors, start: word, data: seq<word>, n: nat): Sectors
    requires 2 * n <= |data|
  {
    if n == 0 then c
    else Poked(c, start, data, n - 1).Poke(PageAddress(start, n - 1), Programmed(data[2 * n - 2], data[2 * n - 1]))
  }

  function PokeTrace(start: word, data: seq<word>, n: nat): seq<RawOp>
    requires 2 * n <= |data|
  {
    if n == 0 then []
    else PokeTrace(start, data, n - 1)
         + [RawAt(PageAddress(start, n - 1), Programmed(data[2 * n - 2], data[2 * n - 1]))]
  }

  /** Inside a sector that is a write to consecutive pages of it. */
  lemma {:induction false} PokedInside(c: Sectors, b: BlockId, first: nat, data: seq<word>, n: nat)
    requires first + n <= PAGES && 2 * n <= |data|
    ensures var start := UcbAddress(b) + 8 * first;
            && start <= UcbAddress(b) + UCB_SECTOR_SIZE < WORD_LIMIT
            && Poked(c, start, data, n) == c.With(b, Written(c.At(b), first, data, n))
            && PokeTrace(start, data, n) == WriteTrace(b, first, data, n)
  {
    hide Sectors.Poke, UcbAddress, RawAt, Written, WriteTrace, PageAddress;
    SectorEnd(b);
    if n == 0 {
      WrittenNone(c, b, first, data);
    } else {
      var k := n - 1;
      PokedInside(c, b, first, data, k);
      PageAddressInside(b, first, k);
      WrittenNext(c, b, first, data, k);
      RawInside(b, first + k, Programmed(data[2 * k], data[2 * k + 1]));
    }
  }

  lemma SectorEnd(b: BlockId)
    ensures UcbAddress(b) + UCB_SECTOR_SIZE < WORD_LIMIT
  {
  }

  lemma PageAddressNext(start: word, k: nat)
    ensures PageAddress(start, 0) == start && Add32(PageAddress(start, k), 8) == PageAddress(start, k + 1)
  {
    EightMore(start + 8 * k);
    assert start + 8 * (k + 1) == start + 8 * k + 8;
  }

  lemma EightMore(x: nat)
    ensures Add32(x % WORD_LIMIT, 8) == (x + 8) % WORD_LIMIT
  {
    var q, r := x / WORD_LIMIT, x % WORD_LIMIT;
    assert x + 8 == if r + 8 < WORD_LIMIT then q * WORD_LIMIT + (r + 8)
                    else (q + 1) * WORD_LIMIT + (r + 8 - WORD_LIMIT);
  }

  lemma PageAddressInside(b: BlockId, first: nat, k: nat)
    requires first + k < PAGES
    ensures PageAddress(UcbAddress(b) + 8 * first, k) == UcbAddress(b) + 8 * (first + k)
  {
  }

  lemma RawInside(b: BlockId, n: nat, content: Page)
    requires n < PAGES
    ensures var a := UcbAddress(b) + 8 * n; a < WORD_LIMIT && RawAt(a, content) == RawProgram(b, n, content)
  {
    PageInside(b, n);
  }

  lemma OnePage(s: Sector, b: BlockId, at: Place, lo: word, hi: word)
    ensures BlockOf(Written(s, PageNo(at), [lo, hi], 1)) == SetPage(BlockOf(s), at, Programmed(lo, hi))
    ensures WriteTrace(b, PageNo(at), [lo, hi], 1) == Raw([Program(b, at, Programmed(lo, hi))])
  {
    ProgramPage(s, at, Programmed(lo, hi));
    assert Written(s, PageNo(at), [lo, hi], 1) == s[PageNo(at) := Programmed(lo, hi)];
    var ops := [Program(b, at, Programmed(lo, hi))];
    assert ops[..0] == [];
  }

  /** The pages behind the log, apart from that of the confirmation code, are not part of it. */
  lemma ProgramBehind(s: Sector, n: nat, lo: word, hi: word)
    requires 2 * NR_OF_ENTRIES <= n < PAGES && n != CONFIRMATION_PAGE
    ensures BlockOf(Written(s, n, [lo, hi], 1)) == BlockOf(s)
  {
    assert Written(s, n, [lo, hi], 1) == s[n := Programmed(lo, hi)];
    assert SlotsOf(s[n := Programmed(lo, hi)]) == SlotsOf(s);
  }

  /** The address checks shared by `ucb_read` and `ucb_write`. */
  function RangeCheck(b: BlockId, address: word, length: word): FlashStatus {
    if !FlashRead.InDflash(address) then InvalidAddress
    else if address < UcbAddress(b) || Add32(address, length) > UcbAddress(b) + UCB_SECTOR_SIZE then InvalidParameter
    else FlashOk
  }

  lemma SectorIsDflash(b: BlockId, offset: word, length: word)
    ensures offset + length <= UCB_SECTOR_SIZE ==>
              var address := Add32(UcbAddress(b), offset);
              && address == UcbAddress(b) + offset
              && (address % 8 == 0 <==> offset % 8 == 0)
              && RangeCheck(b, address, length) == FlashOk
              && FlashRead.InDflash(address)
              && FlashRead.Uncached(address) == address
              && address + length < WORD_LIMIT - 0x1000
  {
  }

  /** Both checks refuse a range that leaves its sector, as long as it does not wrap around. */
  lemma BeyondSector(b: BlockId, offset: word, length: word)
    requires UCB_SECTOR_SIZE < offset + length && UcbAddress(b) + offset + length < WORD_LIMIT
    ensures RangeCheck(b, Add32(UcbAddress(b), offset), length) != FlashOk
  {
    hide FlashRead.InDflash;
  }

  /** Both together, for any range. */
  lemma Bounds(b: BlockId, offset: word, length: word)
    ensures var address := Add32(UcbAddress(b), offset);
            && (address % 8 == 0 <==> offset % 8 == 0)
            && (offset + length <= UCB_SECTOR_SIZE ==>
                  && address == UcbAddress(b) + offset == FlashRead.Uncached(address)
                  && RangeCheck(b, address, length) == FlashOk && address + length < WORD_LIMIT - 0x1000)
            && (UCB_SECTOR_SIZE < offset + length < WORD_LIMIT - UcbAddress(b) ==>
                  RangeCheck(b, address, length) != FlashOk)
            && (RangeCheck(b, address, length) == FlashOk ==> address >= 0xAF000000)
            && RangeCheck(b, address, length) in {FlashOk, InvalidAddress, InvalidParameter}
  {
    AlignedSectors(b, offset);
    hide UcbIndex, UcbAddress, FlashRead.Uncached;
    if offset + length <= UCB_SECTOR_SIZE { SectorIsDflash(b, offset, length); }
    else if UcbAddress(b) + offset + length < WORD_LIMIT { BeyondSector(b, offset, length); }
    if FlashRead.InDflash(Add32(UcbAddress(b), offset)) { DflashIsHigh(Add32(UcbAddress(b), offset)); }
    hide FlashRead.InDflash;
  }

  lemma AlignedSectors(b: BlockId, offset: word)
    ensures Add32(UcbAddress(b), offset) % 8 == 0 <==> offset % 8 == 0
  {
  }

  lemma DflashIsHigh(a: word)
    requires FlashRead.InDflash(a)
    ensures a >= 0xAF000000
  {
  }

  /** How many pages a write to a range programs: none if it is refused, else every other one. */
  function PagesWritten(b: BlockId, offset: word, length: word): nat {
    var address := Add32(UcbAddress(b), offset);
    if RangeCheck(b, address, length) == FlashOk && address % 8 == 0 && length % 8 == 0 then (length / 8 + 1) / 2 else 0
  }

  lemma NothingPoked(c: Sectors, start: word, data: seq<word>)
    ensures Poked(c, start, data, 0) == c && PokeTrace(start, data, 0) == []
  {
  }

  // ---- the pieces of the driver's proofs ----

  /** One turn of the invalidation loop. */
  lemma InvalidateNext(f: Flash, b: BlockId, i: SlotIndex)
    ensures var slots := f.At(b).slots;
            var g := Run(f, InvalidateOps(b, slots, i));
            && g.At(b).slots[i] == slots[i]
            && Run(f, InvalidateOps(b, slots, i + 1))
               == (if ReadEntry(b, i, slots[i]).Valid? then Apply(g, Program(b, Confirm(i), INVALIDATED)) else g)
            && Raw(InvalidateOps(b, slots, i + 1))
               == Raw(InvalidateOps(b, slots, i))
                  + (if ReadEntry(b, i, slots[i]).Valid? then Raw([Program(b, Confirm(i), INVALIDATED)]) else [])
  {
    hide ReadEntry;
    var slots := f.At(b).slots;
    var ops, op := InvalidateOps(b, slots, i), Program(b, Confirm(i), INVALIDATED);
    InvalidateEffect(f, b, slots, i);
    InvalidatedAt(b, slots, i, i);
    RunConcat(f, ops, [op]);
    RawConcat(ops, [op]);
    assert [op][1..] == [] && ops + [] == ops;
    assert Run(Run(f, ops), [op]) == Apply(Run(f, ops), op);
  }

  /** `u32Index * UCB_SWAP_ENTRY_LENGTH`, for an index of a log or not. */
  function EntryOffset(index: word): (offset: word)
    ensures offset % 16 == 0 && (index < 0x1000_0000 ==> offset == ENTRY_LENGTH * index)
  {
    (ENTRY_LENGTH * index) % WORD_LIMIT
  }

  function InLog(n: nat): (k: nat)
    ensures k <= NR_OF_ENTRIES && k <= n
  {
    if n < NR_OF_ENTRIES then n else NR_OF_ENTRIES
  }

  // ---- the log operations on the sectors, for any index ----

  /** One page written by `ucb_write`. */
  function PageWrite(c: Sectors, b: BlockId, offset: word, lo: word, hi: word): Sectors {
    Poked(c, Add32(UcbAddress(b), offset), [lo, hi], PagesWritten(b, offset, 8))
  }

  function PageTrace(b: BlockId, offset: word, lo: word, hi: word): seq<RawOp> {
    PokeTrace(Add32(UcbAddress(b), offset), [lo, hi], PagesWritten(b, offset, 8))
  }

  /** What reading the sixteen bytes at an offset reports. */
  function EntryStatus(c: Sectors, b: BlockId, offset: word): FlashStatus
    requires offset + ENTRY_LENGTH <= UCB_SECTOR_SIZE
  {
    var a := UcbAddress(b) + offset;
    var status := FlashRead.RangeStatus(c.Status, a, ENTRY_LENGTH);
    if status != FlashOk then status
    else if c.WordAt(a + 12) == a + CONFIRMATION_OFFSET && c.WordAt(a + 8) == CONFIRMED_CODE
            && c.WordAt(a + 4) == a && IsMode(c.WordAt(a))
    then FlashOk
    else FlashNotOk
  }

  lemma EntryInside(b: BlockId, offset: word)
    requires offset + ENTRY_LENGTH <= UCB_SECTOR_SIZE
    ensures UcbAddress(b) + offset + ENTRY_LENGTH < WORD_LIMIT
    ensures Add32(UcbAddress(b), offset) == UcbAddress(b) + offset
    ensures Add32(UcbAddress(b) + offset, CONFIRMATION_OFFSET) == UcbAddress(b) + offset + CONFIRMATION_OFFSET
  {
  }

  predicate EntryOk(c: Sectors, b: BlockId, offset: word) {
    offset + ENTRY_LENGTH <= UCB_SECTOR_SIZE && EntryStatus(c, b, offset) == FlashOk
  }

  /** For the entries of the log, that is what the protocol reads. */
  lemma EntryMeaning(c: Sectors, b: BlockId, i: SlotIndex)
    ensures ENTRY_LENGTH * i + ENTRY_LENGTH <= UCB_SECTOR_SIZE
            && var status := EntryStatus(c, b, ENTRY_LENGTH * i);
               match ReadEntry(b, i, c.View().At(b).slots[i])
               case Valid(v) => status == FlashOk && c.WordAt(UcbAddress(b) + ENTRY_LENGTH * i) == v
               case Blank => status == FlashErased
               case Invalid => status == FlashNotOk
  {
    EntryBytes(c, b, i);
    hide FlashRead.RangeStatus, Sectors.WordAt, Sectors.Status, SlotsOf, UcbIndex;
    assert c.View().At(b) == BlockOf(c.At(b));
  }

  /** The marker page and the confirmation page of an index. */
  function EntryWritten(c: Sectors, b: BlockId, index: word, v: word): Sectors {
    var offset := EntryOffset(index);
    var address := Add32(UcbAddress(b), offset);
    PageWrite(PageWrite(c, b, offset, v, address), b, Add32(offset, CONFIRMATION_OFFSET),
              CONFIRMED_CODE, Add32(address, CONFIRMATION_OFFSET))
  }

  function EntryTrace(b: BlockId, index: word, v: word): seq<RawOp> {
    var offset := EntryOffset(index);
    var address := Add32(UcbAddress(b), offset);
    PageTrace(b, offset, v, address)
    + PageTrace(b, Add32(offset, CONFIRMATION_OFFSET), CONFIRMED_CODE, Add32(address, CONFIRMATION_OFFSET))
  }

  /** The valid entries of the indices below `n` over-programmed, each when its turn comes. */
  function Sweep(c: Sectors, b: BlockId, n: nat): Sectors
    requires n <= WORD_LIMIT
  {
    if n == 0 then c
    else
      var d, offset := Sweep(c, b, n - 1), EntryOffset(n - 1);
      if EntryOk(d, b, offset) then PageWrite(d, b, Add32(offset, CONFIRMATION_OFFSET), ALL_ONES, ALL_ONES) else d
  }

  function SweepTrace(c: Sectors, b: BlockId, n: nat): seq<RawOp>
    requires n <= WORD_LIMIT
  {
    if n == 0 then []
    else
      var offset := EntryOffset(n - 1);
      SweepTrace(c, b, n - 1)
      + if EntryOk(Sweep(c, b, n - 1), b, offset)
        then PageTrace(b, Add32(offset, CONFIRMATION_OFFSET), ALL_ONES, ALL_ONES) else []
  }

  lemma SweepStart(c: Sectors, b: BlockId)
    ensures Sweep(c, b, 0) == c && SweepTrace(c, b, 0) == []
  {
  }

  lemma SweepNext(c: Sectors, b: BlockId, i: word)
    ensures var d, offset := Sweep(c, b, i), EntryOffset(i);
            var confirm := Add32(offset, CONFIRMATION_OFFSET);
            && Sweep(c, b, i + 1) == (if EntryOk(d, b, offset) then PageWrite(d, b, confirm, ALL_ONES, ALL_ONES) else d)
            && SweepTrace(c, b, i + 1)
               == SweepTrace(c, b, i)
                  + (if EntryOk(d, b, offset) then PageTrace(b, confirm, ALL_ONES, ALL_ONES) else [])
  {
  }

  lemma SweepNothing(f: Flash, b: BlockId, slots: Slots)
    ensures Run(f, InvalidateOps(b, slots, 0)) == f && Raw(InvalidateOps(b, slots, 0)) == []
  {
  }

  lemma EntryAddresses(b: BlockId, i: SlotIndex)
    ensures var offset := EntryOffset(i);
            && Add32(UcbAddress(b), offset) == MarkerAddress(b, i)
            && Add32(MarkerAddress(b, i), CONFIRMATION_OFFSET) == ConfirmationAddress(b, i)
            && offset == 8 * PageNo(Marker(i)) && Add32(offset, CONFIRMATION_OFFSET) == 8 * PageNo(Confirm(i))
  {
  }

  /** A sixteen-byte range that begins behind its sector, or wraps around to before it, is refused;
      but for the last one below 2^32, whose page is none of the two sectors. */
  lemma EntryRefused(c: Sectors, b: BlockId, offset: word)
    requires offset % 16 == 0 && offset >= UCB_SECTOR_SIZE
    ensures var address := Add32(UcbAddress(b), offset);
            || RangeCheck(b, address, ENTRY_LENGTH) != FlashOk
            || FlashRead.RangeStatus(c.Status, FlashRead.Uncached(address), ENTRY_LENGTH) != FlashOk
  {
    var address := Add32(UcbAddress(b), offset);
    if address == 0xFFFF_FFF0 {
      LastPage(c);
    }
    hide FlashRead.InDflash, FlashRead.RangeStatus, FlashRead.Uncached;
  }

  lemma LastPage(c: Sectors)
    ensures FlashRead.Uncached(0xFFFF_FFF0) == 0xFFFF_FFF0
    ensures FlashRead.RangeStatus(c.Status, 0xFFFF_FFF0, ENTRY_LENGTH) != FlashOk
  {
    assert c.Status(0xFFFF_FFF0) == FlashNotOk;
  }

  /** After the whole log was swept, no entry of it is valid. */
  lemma SweptAll(f: Flash, b: BlockId)
    ensures var g := Run(f, InvalidateOps(b, f.At(b).slots, NR_OF_ENTRIES));
            forall i: SlotIndex :: !ReadEntry(b, i, g.At(b).slots[i]).Valid?
  {
    var slots := f.At(b).slots;
    InvalidateEffect(f, b, slots, NR_OF_ENTRIES);
    forall i: SlotIndex ensures !ReadEntry(b, i, Invalidated(b, slots, NR_OF_ENTRIES)[i]).Valid? {
      InvalidatedAt(b, slots, NR_OF_ENTRIES, i);
    }
  }

  lemma WriteEntryIsTwoPages(f: Flash, b: BlockId, i: SlotIndex, v: word)
    ensures var ops := WriteEntryOps(b, i, v);
            && Run(f, ops) == Apply(Apply(f, ops[0]), ops[1])
            && Raw(ops) == Raw([ops[0]]) + Raw([ops[1]])
  {
    var ops := WriteEntryOps(b, i, v);
    RunTwo(f, ops);
    RawConcat([ops[0]], [ops[1]]);
    assert [ops[0]] + [ops[1]] == ops;
  }

  /** The sweep after an append depends only on the slots below the new entry. */
  lemma InvalidateAfterWrite(f: Flash, b: BlockId, i: SlotIndex, v: word)
    ensures InvalidateOps(b, Run(f, WriteEntryOps(b, i, v)).At(b).slots, i) == InvalidateOps(b, f.At(b).slots, i)
  {
    WriteEntryEffect(f, b, i, v);
    InvalidateOpsFrame(b, f.At(b).slots, i, Slot(MarkerPage(b, i, v), ConfirmationPage(b, i)), i);
  }

  lemma RewriteSteps(f: Flash, b: BlockId, v: word, state: ConfState)
    requires !state.Errored?
    ensures var e := Apply(f, Erase(b));
            var entryOps := SetEntryOps(b, e.At(b).slots, 0, v);
            && Run(f, RewriteOps(b, v, state)) == Apply(Run(e, entryOps), Program(b, Code, CodePage(state)))
            && Raw(RewriteOps(b, v, state))
               == Raw([Erase(b)]) + Raw(entryOps) + Raw([Program(b, Code, CodePage(state))])
            && Run(f, RewriteOps(b, v, state)) == f.With(b, FreshBlock(b, v, state))
  {
    var e := Apply(f, Erase(b));
    var entryOps := SetEntryOps(b, e.At(b).slots, 0, v);
    var code := [Program(b, Code, CodePage(state))];
    assert entryOps == WriteEntryOps(b, 0, v);
    RewriteLeaves(f, b, v, state);
    RunConcat(f, [Erase(b)] + entryOps, code);
    RunConcat(f, [Erase(b)], entryOps);
    assert [Erase(b)][1..] == [] == code[1..];
    assert Run(f, [Erase(b)]) == e;
    RawConcat([Erase(b)] + entryOps, code);
    RawConcat([Erase(b)], entryOps);
  }

  /** The sixteen bytes of the confirmation code take one page write: the second half of the
      pattern never reaches the flash. */
  lemma HalfWritten(s: Sector, b: BlockId, code: word)
    ensures var data := [code, 0, 0, 0];
            && BlockOf(Written(s, CONFIRMATION_PAGE, data, 1)) == SetPage(BlockOf(s), Code, Programmed(code, 0))
            && WriteTrace(b, CONFIRMATION_PAGE, data, 1) == Raw([Program(b, Code, Programmed(code, 0))])
  {
    var data := [code, 0, 0, 0];
    ProgramPage(s, Code, Programmed(code, 0));
    assert Written(s, CONFIRMATION_PAGE, data, 1) == s[CONFIRMATION_PAGE := Programmed(code, 0)];
    var ops := [Program(b, Code, Programmed(code, 0))];
    assert ops[..0] == [];
  }

  lemma PageInside(b: BlockId, n: nat)
    requires n < PAGES
    ensures var a: word := UcbAddress(b) + 8 * n;
            && InSector(b, a) && InSector(b, a + 4) && PageIndex(b, a) == PageIndex(b, a + 4) == n
            && (b == Copy ==> !InSector(Orig, a) && !InSector(Orig, a + 4))
            && a % 8 == 0 && a < WORD_LIMIT - 0x1000
  {
  }

  lemma PageAtAddress(c: Sectors, b: BlockId, n: nat)
    requires n < PAGES
    ensures var a: word := UcbAddress(b) + 8 * n;
            && c.Status(a) == (if c.At(b)[n] == Page.Erased then FlashErased else FlashOk)
            && (c.At(b)[n].Programmed? ==> c.WordAt(a) == c.At(b)[n].lo && c.WordAt(a + 4) == c.At(b)[n].hi)
            && FlashRead.InDflash(a) && a % 8 == 0 && a < WORD_LIMIT - 0x1000
  {
    hide FlashRead.InDflash, InSector, PageIndex, FlashRead.Uncached;
    PageInside(b, n);
    SectorIsDflash(b, 8 * n, 8);
  }

  /** The sixteen bytes of entry `i`, as the erase check and the CPU see them. */
  lemma EntryBytes(c: Sectors, b: BlockId, i: SlotIndex)
    ensures var a: word := UcbAddress(b) + ENTRY_LENGTH * i;
            var s := BlockOf(c.At(b)).slots[i];
            && ENTRY_LENGTH * i + ENTRY_LENGTH <= UCB_SECTOR_SIZE
            && FlashRead.RangeStatus(c.Status, a, ENTRY_LENGTH)
               == (if s.marker.Erased? || s.confirm.Erased? then FlashErased else FlashOk)
            && (s.marker.Programmed? ==> c.WordAt(a + 4 * 0) == s.marker.lo && c.WordAt(a + 4 * 1) == s.marker.hi)
            && (s.confirm.Programmed? ==> c.WordAt(a + 4 * 2) == s.confirm.lo && c.WordAt(a + 4 * 3) == s.confirm.hi)
  {
    hide FlashRead.InDflash, Sectors.Status, Sectors.WordAt, FlashRead.RangeStatus, UcbIndex;
    PageAtAddress(c, b, 2 * i);
    PageAtAddress(c, b, 2 * i + 1);
    FlashRead.OneOrTwoPages(c.Status, UcbAddress(b) + 8 * (2 * i), ENTRY_LENGTH);
  }

  lemma CodeBytes(c: Sectors, b: BlockId)
    ensures var a: word := UcbAddress(b) + 8 * CONFIRMATION_PAGE;
            var page := BlockOf(c.At(b)).code;
            && FlashRead.RangeStatus(c.Status, a, 4) == (if page.Erased? then FlashErased else FlashOk)
            && (page.Programmed? ==> c.WordAt(a + 4 * 0) == page.lo)
  {
    hide FlashRead.InDflash, Sectors.Status, Sectors.WordAt, FlashRead.RangeStatus, UcbIndex;
    PageAtAddress(c, b, CONFIRMATION_PAGE);
    FlashRead.OneOrTwoPages(c.Status, UcbAddress(b) + 8 * CONFIRMATION_PAGE, 4);
  }

  lemma WrittenNone(c: Sectors, b: BlockId, first: nat, data: seq<word>)
    requires first <= PAGES
    ensures c.With(b, Written(c.At(b), first, data, 0)) == c
    ensures WriteTrace(b, first, data, 0) == []
  {
  }

  lemma WrittenNext(c: Sectors, b: BlockId, first: nat, data: seq<word>, k: nat)
    requires first + k < PAGES && 2 * k + 1 < |data|
    ensures var a: word := UcbAddress(b) + 8 * (first + k);
            var page := Programmed(data[2 * k], data[2 * k + 1]);
            && InSector(b, a) && PageIndex(b, a) == first + k && Add32(a, 8) == a + 8
            && c.With(b, Written(c.At(b), first, data, k)).Poke(a, page)
               == c.With(b, Written(c.At(b), first, data, k + 1))
            && WriteTrace(b, first, data, k + 1) == WriteTrace(b, first, data, k) + [RawProgram(b, first + k, page)]
  {
    var a: word := UcbAddress(b) + 8 * (first + k);
    PokeInside(c.With(b, Written(c.At(b), first, data, k)), b, a, Programmed(data[2 * k], data[2 * k + 1]));
  }

  lemma PokeInside(c: Sectors, b: BlockId, a: word, page: Page)
    requires InSector(b, a)
    ensures c.Poke(a, page) == c.With(b, c.At(b)[PageIndex(b, a) := page])
    ensures InSector(Orig, a) <==> b == Orig
  {
  }

  lemma RawNothing()
    ensures Raw([]) == []
  {
  }
}
