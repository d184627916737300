/** The UCB access layer and the bank swap as the code performs them: page by page, on two
    512-byte sectors, through addresses. `trace` records every page program and erase. */
module UcbDriver {
  import opened Words
  import opened SwapLog
  import opened SwapProtocol
  import opened SwapCall
  import opened UcbSectors
  import FlashRead
  import SwapAddress

  // ---- the driver ----

  datatype SwapSettings = SwapSettings(
    bootValue: word, bootBlock: Option<BlockId>,
    origConf: ConfState, copyConf: ConfState,
    origInfo: BlockInfo, copyInfo: BlockInfo,
    blockUpdReq: bool)

  /** `st` is what the state of `f` looks like to a call with the given latched mode. */
  predicate Describes(rule: ScanRule, st: SwapSettings, f: Flash, latched: word) {
    && st.bootValue == latched
    && st.bootBlock == BootBlock(f)
    && (st.blockUpdReq <==> !Paired(f))
    && (Bootable(f.orig) ==>
          st.origConf == ReadConfirmation(f.orig.code) && st.origInfo == Scan(rule, Orig, f.orig.slots))
    && (Paired(f) || BootBlock(f) == Some(Copy) ==>
          st.copyConf == ReadConfirmation(f.copy.code) && st.copyInfo == Scan(rule, Copy, f.copy.slots))
  }

  /** Outside the two sectors. */
  const PROCONTP_ADDRESS: word := 0xAF404000 + 0x1E8
  const SWAPEN_MASK: word := 0x0003_0000

  class Driver {
    const rule: ScanRule
    const chipId: bv32
    const sotaEnabled: bool
    const addrCfg: nat
    const orig: array<Page>
    const copy: array<Page>
    ghost var trace: seq<RawOp>

    ghost predicate Valid()
      reads this
    {
      orig.Length == PAGES && copy.Length == PAGES && orig != copy
    }

    function Content(): Sectors
      requires Valid()
      reads this, orig, copy
    {
      Sectors(orig[..], copy[..])
    }

    function View(): Flash
      requires Valid()
      reads this, orig, copy
    {
      Content().View()
    }

    function Array(b: BlockId): array<Page> {
      match b case Orig => orig case Copy => copy
    }

    constructor (rule: ScanRule, chipId: bv32, sotaEnabled: bool, addrCfg: nat, content: Sectors)
      ensures Valid() && fresh(orig) && fresh(copy)
      ensures Content() == content && trace == []
      ensures this.rule == rule && this.chipId == chipId
      ensures this.sotaEnabled == sotaEnabled && this.addrCfg == addrCfg
    {
      this.rule, this.chipId, this.sotaEnabled, this.addrCfg := rule, chipId, sotaEnabled, addrCfg;
      orig := new Page[PAGES](i requires 0 <= i < PAGES => content.orig[i]);
      copy := new Page[PAGES](i requires 0 <= i < PAGES => content.copy[i]);
      trace := [];
      new;
      assert orig[..] == content.orig && copy[..] == content.copy;
    }

    // -- primitives --

    /** `write_dflash`. */
    method WriteDflash(address: word, lo: word, hi: word)
      requires Valid()
      modifies this`trace, orig, copy
      ensures Content() == old(Content()).Poke(address, Programmed(lo, hi))
      ensures trace == old(trace) + [RawAt(address, Programmed(lo, hi))]
    {
      if InSector(Orig, address) {
        orig[PageIndex(Orig, address)] := Programmed(lo, hi);
      } else if InSector(Copy, address) {
        copy[PageIndex(Copy, address)] := Programmed(lo, hi);
      }
      trace := trace + [RawAt(address, Programmed(lo, hi))];
    }

    /** `ucb_erase`: the whole sector, passwords included. */
    method UcbErase(b: BlockId)
      requires Valid()
      modifies this`trace, orig, copy
      ensures Content() == old(Content()).With(b, seq(PAGES, _ => Page.Erased))
      ensures View() == Apply(old(View()), Erase(b))
      ensures trace == old(trace) + Raw([Erase(b)])
    {
      var sector := Array(b);
      forall i | 0 <= i < PAGES {
        sector[i] := Page.Erased;
      }
      trace := trace + [RawErase(b)];
      assert sector[..] == seq(PAGES, _ => Page.Erased);
      EraseSector(sector[..]);
      assert Raw([Erase(b)]) == [RawErase(b)] by { assert [Erase(b)][..0] == []; }
    }

    /** `ucb_read`. */
    method UcbRead(b: BlockId, offset: word, length: word, buffer: array<word>) returns (ret: FlashStatus)
      requires Valid() && buffer.Length * 4 == length
      modifies buffer
      ensures var address := Add32(UcbAddress(b), offset);
              ret == if RangeCheck(b, address, length) != FlashOk then RangeCheck(b, address, length)
                     else FlashRead.RangeStatus(Content().Status, FlashRead.Uncached(address), length)
      ensures offset + length <= UCB_SECTOR_SIZE ==>
                ret == FlashRead.RangeStatus(Content().Status, UcbAddress(b) + offset, length)
      ensures offset + length <= UCB_SECTOR_SIZE && ret == FlashOk ==>
                forall i: nat :: i < buffer.Length ==> buffer[i] == Content().WordAt(UcbAddress(b) + offset + 4 * i)
      ensures ret == FlashErased ==> forall i :: 0 <= i < buffer.Length ==> buffer[i] == ALL_ONES
      ensures ret != FlashErased && ret != FlashOk ==> buffer[..] == old(buffer[..])
      ensures UCB_SECTOR_SIZE < offset + length < WORD_LIMIT - UcbAddress(b) ==>
                ret == InvalidAddress || ret == InvalidParameter
    {
      hide FlashRead.Uncached, FlashRead.RangeStatus, Sectors.WordAt;
      var address := Add32(UcbAddress(b), offset);
      ret := RangeCheck(b, address, length);
      Bounds(b, offset, length);
      hide RangeCheck;
      SwapAddress.DeviceMap(chipId, address);
      if ret == FlashOk {
        ret := FlashRead.Read(chipId, sotaEnabled, addrCfg == 2, Content().Status, Content().WordAt,
                              ALL_ONES, 4, address, length, buffer);
      }
    }

    /** `ucb_write`. It reports success whatever it did; of several pages it writes only the first
        half, because it advances by two pages for each one written. */
    method UcbWrite(b: BlockId, offset: word, length: word, data: seq<word>) returns (ret: FlashStatus)
      requires Valid() && |data| * 4 >= length
      modifies this`trace, orig, copy
      ensures ret == FlashOk
      ensures var address, n := Add32(UcbAddress(b), offset), PagesWritten(b, offset, length);
              && Content() == Poked(old(Content()), address, data, n)
              && trace == old(trace) + PokeTrace(address, data, n)
      ensures offset % 8 == 0 && length % 8 == 0 && offset + length <= UCB_SECTOR_SIZE ==>
                var n := (length / 8 + 1) / 2;
                && Content() == old(Content()).With(b, Written(old(Content()).At(b), offset / 8, data, n))
                && trace == old(trace) + WriteTrace(b, offset / 8, data, n)
      ensures offset % 8 != 0 || length % 8 != 0 || UCB_SECTOR_SIZE < offset + length < WORD_LIMIT - UcbAddress(b) ==>
                Content() == old(Content()) && trace == old(trace)
    {
      hide FlashRead.InDflash, FlashRead.Uncached, Written, WriteTrace, Poked, PokeTrace;
      var address := Add32(UcbAddress(b), offset);
      var count := 0;
      if RangeCheck(b, address, length) == FlashOk && address % 8 == 0 && length % 8 == 0 {
        count := length / 8;
      }
      Bounds(b, offset, length);
      NothingPoked(Content(), address, data);
      if offset % 8 == 0 && length % 8 == 0 && offset + length <= UCB_SECTOR_SIZE {
        PokedInside(Content(), b, offset / 8, data, (length / 8 + 1) / 2);
      }
      WriteLoop(address, count, data);
      ret := FlashOk;
    }

    /** The loop of `ucb_write`. */
    method WriteLoop(start: word, count: nat, data: seq<word>)
      requires Valid() && |data| >= 2 * count
      modifies this`trace, orig, copy
      ensures var n := (count + 1) / 2;
              Content() == Poked(old(Content()), start, data, n) && trace == old(trace) + PokeTrace(start, data, n)
    {
      hide Sectors.Poke, RawAt, UcbAddress, Add32, PageAddress;
      PageAddressNext(start, 0);
      var address := start;
      var i := 0;
      ghost var k := 0;
      while i < count
        invariant i == 2 * k && 0 <= i <= count + 1
        invariant address == PageAddress(start, k)
        invariant Content() == Poked(old(Content()), start, data, k)
        invariant trace == old(trace) + PokeTrace(start, data, k)
      {
        PageAddressNext(start, k);
        WriteDflash(address, data[i], data[i + 1]);
        address := Add32(address, 8);
        i := i + 2;
        k := k + 1;
      }
    }

    /** A single page written by `ucb_write`; at the offset of a page of the log, it is the protocol's
        program operation. */
    method WritePage(b: BlockId, ghost at: Place, offset: word, lo: word, hi: word) returns (ret: FlashStatus)
      requires Valid()
      modifies this`trace, orig, copy
      ensures ret == FlashOk
      ensures offset == 8 * PageNo(at) ==>
                && View() == Apply(old(View()), Program(b, at, Programmed(lo, hi)))
                && trace == old(trace) + Raw([Program(b, at, Programmed(lo, hi))])
      ensures offset % 16 == 8 && ENTRY_LENGTH * NR_OF_ENTRIES <= offset < UCB_SECTOR_SIZE ==> View() == old(View())
      ensures Content() == PageWrite(old(Content()), b, offset, lo, hi)
      ensures trace == old(trace) + PageTrace(b, offset, lo, hi)
    {
      hide Poked, PokeTrace;
      ghost var before := Content();
      ret := UcbWrite(b, offset, 8, [lo, hi]);
      OnePage(before.At(b), b, at, lo, hi);
      if offset % 16 == 8 && ENTRY_LENGTH * NR_OF_ENTRIES <= offset < UCB_SECTOR_SIZE {
        ProgramBehind(before.At(b), offset / 8, lo, hi);
      }
    }

    // -- one entry, one block --

    /** `get_ucb_swap_block_entry`. */
    method GetSwapBlockEntry(b: BlockId, index: word) returns (ret: FlashStatus, value: word)
      requires Valid()
      ensures index < NR_OF_ENTRIES ==>
                match ReadEntry(b, index, View().At(b).slots[index])
                case Valid(v) => ret == FlashOk && value == v
                case Blank => ret == FlashErased
                case Invalid => ret == FlashNotOk
      ensures var offset := EntryOffset(index);
              && (offset < ENTRY_LENGTH * NR_OF_ENTRIES && ret == FlashOk ==>
                    ReadEntry(b, offset / 16, View().At(b).slots[offset / 16]).Valid?)
              && (offset >= UCB_SECTOR_SIZE ==> ret != FlashOk)
              && (ret == FlashOk <==> EntryOk(Content(), b, offset))
    {
      hide ReadEntry, EntryOffset, EntryStatus, Sectors.WordAt;
      var offset := EntryOffset(index);
      if offset < ENTRY_LENGTH * NR_OF_ENTRIES {
        EntryMeaning(Content(), b, offset / 16);
      }
      ret, value := GetEntryAt(b, offset);
    }

    /** The entry at an offset, wherever that is. */
    method GetEntryAt(b: BlockId, offset: word) returns (ret: FlashStatus, value: word)
      requires Valid() && offset % 16 == 0
      ensures offset < UCB_SECTOR_SIZE ==> ret == EntryStatus(Content(), b, offset)
      ensures offset < UCB_SECTOR_SIZE && ret == FlashOk ==> value == Content().WordAt(UcbAddress(b) + offset)
      ensures offset >= UCB_SECTOR_SIZE ==> ret != FlashOk
    {
      hide FlashRead.RangeStatus, FlashRead.Uncached, FlashRead.InDflash, RangeCheck, Sectors.WordAt, UcbAddress, Add32;
      value := 0;
      var buffer := new word[4];
      if offset < UCB_SECTOR_SIZE {
        EntryInside(b, offset);
      } else {
        EntryRefused(Content(), b, offset);
      }
      ret := UcbRead(b, offset, ENTRY_LENGTH, buffer);
      if ret == FlashOk {
        ret := FlashNotOk;
        var markerL, markerH, confirmationL, confirmationH := buffer[0], buffer[1], buffer[2], buffer[3];
        if confirmationH == Add32(Add32(UcbAddress(b), offset), CONFIRMATION_OFFSET)
           && confirmationL == CONFIRMED_CODE
           && markerH == Add32(UcbAddress(b), offset)
           && (markerL == 0x55 || markerL == 0xAA) {
          value := markerL;
          ret := FlashOk;
        }
      }
    }

    /** `get_ucb_swap_block_info`; `rule` selects what the scan compares with FLASH_ERR_OK. */
    method GetSwapBlockInfo(b: BlockId) returns (info: BlockInfo)
      requires Valid()
      ensures info == Scan(rule, b, View().At(b).slots)
    {
      hide Sectors.View, ScanStep;
      info := BlockInfo(SENTINEL, 0, SENTINEL, 0);
      var idx := 0;
      while idx < NR_OF_ENTRIES
        invariant 0 <= idx <= NR_OF_ENTRIES
        invariant info == ScanUpTo(rule, b, View().At(b).slots, idx)
      {
        info := ScanOne(b, idx, info);
        idx := idx + 1;
      }
    }

    /** One turn of its loop. */
    method ScanOne(b: BlockId, idx: SlotIndex, last: BlockInfo) returns (info: BlockInfo)
      requires Valid()
      ensures info == ScanStep(rule, b, idx, View().At(b).slots[idx], last)
    {
      hide ReadEntry, EntryOk, EntryOffset, Sectors.View;
      info := last;
      var ret, value := GetSwapBlockEntry(b, idx);
      if ret == FlashOk {
        info := info.(swapValue := value);
      }
      if (if rule.AsWritten? then idx == 0 else ret == FlashOk) {
        info := info.(validCnt := info.validCnt + 1, swapIndex := idx, nextIndex := SENTINEL);
      }
      if ret == FlashErased && info.nextIndex == SENTINEL {
        info := info.(nextIndex := idx);
      }
    }

    /** `ucb_read_confirmation`, which reads the first word of the code only. */
    method UcbReadConfirmation(b: BlockId) returns (state: ConfState)
      requires Valid()
      ensures state == ReadConfirmation(View().At(b).code)
    {
      hide FlashRead.RangeStatus, Sectors.WordAt, UcbIndex;
      var buffer := new word[1];
      CodeBytes(Content(), b);
      var ret := UcbRead(b, 8 * CONFIRMATION_PAGE, 4, buffer);
      if ret == FlashOk {
        state := Unlocked;
        if buffer[0] != UNLOCKED_CODE {
          state := Confirmed;
          if buffer[0] != CONFIRMED_CODE {
            state := Errored;
          }
        }
      } else {
        state := Errored;
      }
    }

    /** `ucb_write_confirmation`. */
    method UcbWriteConfirmation(b: BlockId, state: ConfState) returns (ret: FlashStatus)
      requires Valid()
      modifies this`trace, orig, copy
      ensures state.Errored? ==> ret == FlashNotOk && Content() == old(Content()) && trace == old(trace)
      ensures !state.Errored? ==>
                && ret == FlashOk
                && View() == Apply(old(View()), Program(b, Code, CodePage(state)))
                && trace == old(trace) + Raw([Program(b, Code, CodePage(state))])
    {
      if state == Unlocked {
        ret := UcbWrite(b, 8 * CONFIRMATION_PAGE, 16, [UNLOCKED_CODE, 0, 0, 0]);
        HalfWritten(old(Content()).At(b), b, UNLOCKED_CODE);
      } else if state == Confirmed {
        ret := UcbWrite(b, 8 * CONFIRMATION_PAGE, 16, [CONFIRMED_CODE, 0, 0, 0]);
        HalfWritten(old(Content()).At(b), b, CONFIRMED_CODE);
      } else {
        ret := FlashNotOk;
      }
    }

    // -- the bank swap --

    /** `test_and_set_STOA`. The switch that enables SOTA is programmed last. */
    method TestAndSetSota() returns (changed: bool)
      requires Valid()
      modifies this`trace, orig, copy
      ensures changed == !sotaEnabled
      ensures !changed ==> Content() == old(Content()) && trace == old(trace)
      ensures changed ==>
                && View() == Run(old(View()), EnableSotaOps())
                && trace == old(trace) + Raw(EnableSotaOps())
                            + [RawElsewhere(0xAF4041E8, Programmed(0x30000, 0))]
    {
      hide Sectors.View, Apply, Raw, Run;
      changed := false;
      if !sotaEnabled {
        ghost var f, ops := View(), EnableSotaOps();
        WriteEntryIsTwoPages(f, Orig, 0, STANDARD);
        ProgramEntryPage(Marker(0), MarkerAddress(Orig, 0), STANDARD, MarkerAddress(Orig, 0));
        ProgramEntryPage(Confirm(0), ConfirmationAddress(Orig, 0), CONFIRMED_CODE, ConfirmationAddress(Orig, 0));
        WriteDflash(PROCONTP_ADDRESS, SWAPEN_MASK, 0);
        changed := true;
      }
    }

    /** `write_dflash` to the address of a page of ORIG. */
    method ProgramEntryPage(ghost at: Place, address: word, lo: word, hi: word)
      requires Valid() && address == UcbAddress(Orig) + 8 * PageNo(at)
      modifies this`trace, orig, copy
      ensures View() == Apply(old(View()), Program(Orig, at, Programmed(lo, hi)))
      ensures trace == old(trace) + Raw([Program(Orig, at, Programmed(lo, hi))])
    {
      ProgramPage(orig[..], at, Programmed(lo, hi));
      PageInside(Orig, PageNo(at));
      WriteDflash(address, lo, hi);
      ghost var ops := [Program(Orig, at, Programmed(lo, hi))];
      assert ops[..0] == [];
    }

    /** `get_swap_state`. The information of a block that is not scanned keeps what it was. */
    method GetSwapState(last: SwapSettings) returns (ret: FlashStatus, st: SwapSettings)
      requires Valid()
      ensures ret == FlashOk || ret == FlashNotOk
      ensures ret == FlashOk <==> sotaEnabled && LatchedMode(addrCfg).Some? && BootBlock(View()).Some?
      ensures ret == FlashOk ==> Describes(rule, st, View(), LatchedMode(addrCfg).value)
    {
      st := last.(bootBlock := None, bootValue := 0, blockUpdReq := false);
      ret := FlashOk;
      if !sotaEnabled {
        ret := FlashNotOk;
      }
      if addrCfg == 1 {
        st := st.(bootValue := STANDARD);
      } else if addrCfg == 2 {
        st := st.(bootValue := ALTERNATE);
      } else {
        ret := FlashNotOk;
      }
      if ret == FlashOk {
        var origConf := UcbReadConfirmation(Orig);
        var copyConf := UcbReadConfirmation(Copy);
        st := st.(origConf := origConf, copyConf := copyConf);
        if st.origConf == Confirmed || st.origConf == Unlocked {
          st := st.(bootBlock := Some(Orig));
          if st.origConf != st.copyConf {
            st := st.(copyConf := Errored, blockUpdReq := true);
          }
        } else if st.copyConf == Confirmed || st.copyConf == Unlocked {
          st := st.(bootBlock := Some(Copy), origConf := Errored, blockUpdReq := true);
        } else {
          st := st.(origConf := Errored, copyConf := Errored);
          ret := FlashNotOk;
        }
      }
      if ret == FlashOk && st.origConf != Errored {
        var info := GetSwapBlockInfo(Orig);
        st := st.(origInfo := info);
      }
      if ret == FlashOk && st.copyConf != Errored {
        var info := GetSwapBlockInfo(Copy);
        st := st.(copyInfo := info);
      }
    }

    /** `invalidate_swap_entry`. An index behind the log sweeps all of it. */
    method InvalidateSwapEntry(b: BlockId, validIdx: word)
      requires Valid()
      modifies this`trace, orig, copy
      ensures var ops := InvalidateOps(b, old(View()).At(b).slots, InLog(validIdx));
              View() == Run(old(View()), ops) && (validIdx <= NR_OF_ENTRIES ==> trace == old(trace) + Raw(ops))
      ensures Content() == Sweep(old(Content()), b, validIdx)
      ensures trace == old(trace) + SweepTrace(old(Content()), b, validIdx)
    {
      hide Sectors.View, Apply, Run, ReadEntry, Raw, InvalidateOps;
      hide Sweep, SweepTrace, EntryOk, EntryOffset, PageWrite, PageTrace;
      ghost var c, f, t := Content(), View(), trace;
      ghost var slots := f.At(b).slots;
      SweepNothing(f, b, slots);
      SweepStart(c, b);
      var i := 0;
      while i < validIdx
        invariant 0 <= i <= validIdx
        invariant View() == Run(f, InvalidateOps(b, slots, InLog(i)))
        invariant i <= NR_OF_ENTRIES ==> trace == t + Raw(InvalidateOps(b, slots, InLog(i)))
        invariant Content() == Sweep(c, b, i) && trace == t + SweepTrace(c, b, i)
      {
        SweepNext(c, b, i);
        if i < NR_OF_ENTRIES { InvalidateNext(f, b, i); } else { SweptAll(f, b); }
        InvalidateOne(b, i);
        i := i + 1;
      }
    }

    /** The entry of one index is over-programmed, if it is valid; behind the log that changes nothing,
        because an index that wraps around to an entry finds it invalid. */
    method InvalidateOne(b: BlockId, i: word)
      requires Valid()
      requires i >= NR_OF_ENTRIES ==> forall j: SlotIndex :: !ReadEntry(b, j, View().At(b).slots[j]).Valid?
      modifies this`trace, orig, copy
      ensures i >= NR_OF_ENTRIES ==> View() == old(View())
      ensures i < NR_OF_ENTRIES ==>
                if ReadEntry(b, i, old(View()).At(b).slots[i]).Valid?
                then View() == Apply(old(View()), Program(b, Confirm(i), INVALIDATED))
                     && trace == old(trace) + Raw([Program(b, Confirm(i), INVALIDATED)])
                else View() == old(View()) && trace == old(trace)
      ensures var offset := EntryOffset(i);
              var confirm := Add32(offset, CONFIRMATION_OFFSET);
              if EntryOk(old(Content()), b, offset)
              then Content() == PageWrite(old(Content()), b, confirm, ALL_ONES, ALL_ONES)
                   && trace == old(trace) + PageTrace(b, confirm, ALL_ONES, ALL_ONES)
              else Content() == old(Content()) && trace == old(trace)
    {
      hide Sectors.View, Apply, ReadEntry, Raw, EntryOk, PageWrite, PageTrace;
      var ret, _ := GetSwapBlockEntry(b, i);
      if ret == FlashOk {
        ghost var at := if i < NR_OF_ENTRIES then Confirm(i) else Code;
        var _ := WritePage(b, at, Add32(EntryOffset(i), CONFIRMATION_OFFSET), ALL_ONES, ALL_ONES);
      }
    }

    /** `set_swap_entry`. Because `ucb_write` reports success, the retry loop runs once. With an index
        behind the log, such as the sentinel of a full one, no entry would stay valid. */
    method SetSwapEntry(b: BlockId, start: word, v: word) returns (ret: FlashStatus)
      requires Valid()
      modifies this`trace, orig, copy
      ensures ret == FlashOk
      ensures start < NR_OF_ENTRIES ==>
                var ops := SetEntryOps(b, old(View()).At(b).slots, start, v);
                View() == Run(old(View()), ops) && trace == old(trace) + Raw(ops)
      ensures start >= NR_OF_ENTRIES ==> forall i: SlotIndex :: !ReadEntry(b, i, View().At(b).slots[i]).Valid?
      ensures var written := EntryWritten(old(Content()), b, start, v);
              && Content() == Sweep(written, b, start)
              && trace == old(trace) + EntryTrace(b, start, v) + SweepTrace(written, b, start)
    {
      hide Sectors.View, Apply, ReadEntry, Raw, InvalidateOps, Sweep, SweepTrace, EntryWritten, EntryTrace;
      ghost var f, t := View(), trace;
      ghost var slots := f.At(b).slots;
      var index: int := start;
      var again := true;
      ret := FlashOk;
      while again
        invariant index == start && ret == FlashOk
        invariant again ==> Content() == old(Content()) && trace == t
        invariant !again ==>
                    Content() == EntryWritten(old(Content()), b, start, v) && trace == t + EntryTrace(b, start, v)
        invariant !again && start < NR_OF_ENTRIES ==>
                    View() == Run(f, WriteEntryOps(b, start, v)) && trace == t + Raw(WriteEntryOps(b, start, v))
        decreases again
      {
        ret := WriteEntry(b, index, v);
        if ret != FlashOk {
          index := index + 1;
        }
        again := ret != FlashOk && index < NR_OF_ENTRIES;
      }
      ghost var g := View();
      InvalidateSwapEntry(b, index);
      if start < NR_OF_ENTRIES {
        InvalidateAfterWrite(f, b, start, v);
        RunConcat(f, WriteEntryOps(b, start, v), InvalidateOps(b, slots, start));
        RawConcat(WriteEntryOps(b, start, v), InvalidateOps(b, slots, start));
      } else {
        SweptAll(g, b);
      }
    }

    /** The marker page, then the confirmation page of an index. */
    method WriteEntry(b: BlockId, index: word, v: word) returns (ret: FlashStatus)
      requires Valid()
      modifies this`trace, orig, copy
      ensures ret == FlashOk
      ensures index < NR_OF_ENTRIES ==>
                View() == Run(old(View()), WriteEntryOps(b, index, v))
                && trace == old(trace) + Raw(WriteEntryOps(b, index, v))
      ensures Content() == EntryWritten(old(Content()), b, index, v)
      ensures trace == old(trace) + EntryTrace(b, index, v)
    {
      hide Sectors.View, Apply, Raw, Run, UcbAddress, PageWrite, PageTrace;
      ghost var f := View();
      ghost var marker, confirm := Code, Code;
      if index < NR_OF_ENTRIES {
        WriteEntryIsTwoPages(f, b, index, v);
        EntryAddresses(b, index);
        marker, confirm := Marker(index), Confirm(index);
      }
      var offset := EntryOffset(index);
      var address := Add32(UcbAddress(b), offset);
      ret := WritePage(b, marker, offset, v, address);
      if ret == FlashOk {
        ret := WritePage(b, confirm, Add32(offset, CONFIRMATION_OFFSET), CONFIRMED_CODE,
                         Add32(address, CONFIRMATION_OFFSET));
      }
    }

    /** Erase a block, write entry 0 and the confirmation code: the part that both halves of
        the dual password sequence share. */
    method RewriteBlock(b: BlockId, v: word, state: ConfState) returns (ret: FlashStatus)
      requires Valid() && !state.Errored?
      modifies this`trace, orig, copy
      ensures ret == FlashOk
      ensures View() == Run(old(View()), RewriteOps(b, v, state))
      ensures View() == old(View()).With(b, FreshBlock(b, v, state))
      ensures trace == old(trace) + Raw(RewriteOps(b, v, state))
    {
      hide Sweep, SweepTrace, EntryWritten, EntryTrace;
      ghost var f := View();
      UcbErase(b);
      ret := SetSwapEntry(b, 0, v);
      if ret == FlashOk {
        ret := UcbWriteConfirmation(b, state);
      }
      RewriteSteps(f, b, v, state);
    }

    /** First half of `swap_dual_passwort_sequence`: COPY rebuilt with the new value. */
    method FirstHalf(newValue: word, st: SwapSettings) returns (ret: FlashStatus, st': SwapSettings)
      requires Valid() && Bootable(View().orig) && st.origConf == ReadConfirmation(View().orig.code)
      modifies this`trace, orig, copy
      ensures ret == FlashOk
      ensures View() == Run(old(View()), RewriteOps(Copy, newValue, st.origConf))
      ensures View() == old(View()).With(Copy, FreshBlock(Copy, newValue, st.origConf))
      ensures trace == old(trace) + Raw(RewriteOps(Copy, newValue, st.origConf))
      ensures st'.copyInfo == Scan(rule, Copy, View().copy.slots)
      ensures st'.copyConf == ReadConfirmation(View().copy.code)
    {
      hide Sectors.View, RewriteOps, Scan;
      st' := st;
      ret := RewriteBlock(Copy, newValue, st.origConf);
      if ret == FlashOk {
        var info := GetSwapBlockInfo(Copy);
        st' := st'.(copyInfo := info, copyConf := st'.origConf);
      }
    }

    /** Second half: ORIG rebuilt from what COPY holds. */
    method SecondHalf(newValue: word, st: SwapSettings) returns (ret: FlashStatus)
      requires Valid() && Bootable(View().copy)
      requires st.copyConf == ReadConfirmation(View().copy.code) && st.copyInfo == Scan(rule, Copy, View().copy.slots)
      modifies this`trace, orig, copy
      ensures ret == FlashOk
      ensures View() == Run(old(View()), SecondHalfOps(rule, old(View()), newValue))
      ensures trace == old(trace) + Raw(SecondHalfOps(rule, old(View()), newValue))
    {
      hide Sectors.View, RewriteOps, Scan, FreshBlock;
      var value := if st.copyInfo.validCnt > 0 then st.copyInfo.swapValue else newValue;
      ret := RewriteBlock(Orig, value, st.copyConf);
    }

    /** `swap_dual_passwort_sequence`. */
    method SwapDualPasswordSequence(newValue: word, reference: BlockId, st: SwapSettings)
      returns (ret: FlashStatus, st': SwapSettings)
      requires Valid() && BootBlock(View()) == Some(reference)
      requires reference == Orig ==> st.origConf == ReadConfirmation(View().orig.code)
      requires reference == Copy ==>
                 st.copyConf == ReadConfirmation(View().copy.code) && st.copyInfo == Scan(rule, Copy, View().copy.slots)
      modifies this`trace, orig, copy
      ensures ret == FlashOk
      ensures View() == Run(old(View()), DualOps(rule, old(View()), newValue))
      ensures trace == old(trace) + Raw(DualOps(rule, old(View()), newValue))
    {
      hide Sectors.View, RewriteOps, Scan, Raw, Run, SecondHalfOps;
      ghost var f := View();
      ret := FlashOk;
      st' := st;
      var local := reference;
      if local == Orig {
        ret, st' := FirstHalf(newValue, st);
        if ret == FlashOk {
          local := Copy;
        }
      }
      ghost var g := View();
      if ret == FlashOk && local == Copy {
        ret := SecondHalf(newValue, st');
        if reference == Orig {
          ghost var first, second := RewriteOps(Copy, newValue, st.origConf), SecondHalfOps(rule, g, newValue);
          RunConcat(f, first, second);
          RawConcat(first, second);
        }
      }
    }

    /** Stale entries are invalidated, where a scan counted several. */
    method InvalidateStale(b: BlockId, info: BlockInfo)
      requires Valid() && (info.validCnt > 1 ==> info.swapIndex < NR_OF_ENTRIES)
      modifies this`trace, orig, copy
      ensures var ops := CleanOps(b, old(View()).At(b).slots, info);
              View() == Run(old(View()), ops) && trace == old(trace) + Raw(ops)
    {
      hide Sectors.View, Raw, Run, InvalidateOps;
      RawNothing();
      RunNothing(View());
      if info.validCnt > 1 {
        InvalidateSwapEntry(b, info.swapIndex);
      }
    }

    /** The new value is appended, where the log does not hold it yet. */
    method AppendIfMissing(b: BlockId, info: BlockInfo, newValue: word) returns (ret: FlashStatus)
      requires Valid() && !NoRoomFor(info, newValue)
      modifies this`trace, orig, copy
      ensures ret == FlashOk
      ensures var ops := AddOps(b, old(View()).At(b).slots, info, newValue);
              View() == Run(old(View()), ops) && trace == old(trace) + Raw(ops)
    {
      hide Sectors.View, Raw, Run, SetEntryOps;
      RawNothing();
      RunNothing(View());
      ret := FlashOk;
      if info.swapValue != newValue {
        ret := SetSwapEntry(b, info.nextIndex, newValue);
      }
    }

    /** The log part of one turn: both logs are cleaned, then the new value is appended where it
        is missing, to COPY before ORIG. */
    method AppendWhereMissing(newValue: word, st: SwapSettings)
      requires Valid() && Paired(View()) && !NeedsDual(rule, View(), newValue)
      requires st.origInfo == Scan(rule, Orig, View().orig.slots) && st.copyInfo == Scan(rule, Copy, View().copy.slots)
      modifies this`trace, orig, copy
      ensures View() == Run(old(View()), AppendTurn(rule, old(View()), newValue))
      ensures trace == old(trace) + Raw(AppendTurn(rule, old(View()), newValue))
    {
      hide Sectors.View, Raw, Run, CleanOps, AddOps, Cleaned, Added;
      ghost var f := View();
      ghost var a, b := CleanOps(Orig, f.orig.slots, st.origInfo), CleanOps(Copy, f.copy.slots, st.copyInfo);
      InvalidateStale(Orig, st.origInfo);
      CleanEffect(f, Orig, st.origInfo);
      InvalidateStale(Copy, st.copyInfo);
      RunConcat(f, a, b);
      RawConcat(a, b);
      ghost var g := View();
      ghost var c := AddOps(Copy, g.copy.slots, st.copyInfo, newValue);
      ghost var d := AddOps(Orig, g.orig.slots, st.origInfo, newValue);
      var copied := AppendIfMissing(Copy, st.copyInfo, newValue);
      AddEffect(g, Copy, st.copyInfo, newValue);
      if copied == FlashOk {
        var _ := AppendIfMissing(Orig, st.origInfo, newValue);
      }
      RunConcat(f, a + b, c);
      RawConcat(a + b, c);
      RunConcat(f, a + b + c, d);
      RawConcat(a + b + c, d);
    }

    /** What a turn of `swap_bank` does after it has looked at the flash and not left the loop. */
    method ActOn(newValue: word, last: SwapSettings) returns (dual: FlashStatus, st: SwapSettings)
      requires Valid() && BootBlock(View()).Some? && !Finished(rule, View(), newValue)
      requires exists latched :: newValue == Flip(latched) && Describes(rule, last, View(), latched)
      modifies this`trace, orig, copy
      ensures dual == FlashOk
      ensures View() == Run(old(View()), WorkOps(rule, old(View()), newValue))
      ensures trace == old(trace) + Raw(WorkOps(rule, old(View()), newValue))
    {
      hide Sectors.View, Scan, Raw, Run, AppendTurn, DualOps;
      dual, st := FlashOk, last;
      if !st.blockUpdReq {
        if (st.origInfo.nextIndex >= NR_OF_ENTRIES && st.origInfo.swapValue != newValue)
           || (st.copyInfo.nextIndex >= NR_OF_ENTRIES && st.copyInfo.swapValue != newValue) {
          st := st.(blockUpdReq := true);
        } else {
          AppendWhereMissing(newValue, st);
        }
      }
      if st.blockUpdReq {
        dual, st := SwapDualPasswordSequence(newValue, st.bootBlock.value, st);
      }
    }

    /** `swap_bank`: whatever the flash holds, the call ends; it performs exactly the operations
        of the protocol, in order, and succeeds exactly when the protocol does. */
    method SwapBank() returns (ret: FlashStatus)
      requires Valid()
      modifies this`trace, orig, copy
      ensures var out := SwapCall.SwapBank(rule, old(View()), sotaEnabled, addrCfg);
              && (ret == FlashOk <==> out.ok)
              && View() == Run(old(View()), out.ops)
              && trace == old(trace) + Raw(out.ops)
    {
      hide Sectors.View, Raw, Run, Blanks, Valids, Phase, TurnOf, WorkOps, Progress;
      ghost var f, t := View(), trace;
      ghost var done: seq<Op> := [];
      ghost var latched := if addrCfg == 1 then STANDARD else ALTERNATE;
      StartOfLoop(rule, f, sotaEnabled, addrCfg);
      var st := SwapSettings(0, None, Errored, Errored, NO_INFO, NO_INFO, false);
      var retryFailCnt := 0;
      ret := FlashOk;
      while ret == FlashOk
        invariant retryFailCnt == 0
        invariant Progress(rule, f, View(), done, sotaEnabled, addrCfg, ret)
        invariant trace == t + Raw(done)
        decreases ret == FlashOk, Phase(rule, View(), latched), Blanks(View()), Valids(View())
      {
        ghost var g := View();
        ret, st := GetSwapState(st);
        if ret == FlashOk {
          var newValue := Flip(st.bootValue);
          TurnCases(rule, g, latched);
          if !st.blockUpdReq && AlreadySet(st.origInfo, newValue) && AlreadySet(st.copyInfo, newValue) {
            break;
          }
          var dual;
          dual, st := ActOn(newValue, st);
          retryFailCnt := if dual != FlashOk then retryFailCnt + 1 else 0;
          ghost var ops := WorkOps(rule, g, newValue);
          WorkedTurn(rule, f, g, done, ops, sotaEnabled, addrCfg);
          RawConcat(done, ops);
          done := done + ops;
        } else {
          FailedTurn(rule, f, g, done, sotaEnabled, addrCfg);
        }
        if retryFailCnt >= SWAP_RETRY_CNT {
          ret := FlashNotOk;
        }
      }
      EndOfLoop(rule, f, View(), done, sotaEnabled, addrCfg, ret);
    }
  }

  lemma StartOfLoop(rule: ScanRule, f: Flash, sotaEnabled: bool, addrCfg: nat)
    ensures Progress(rule, f, f, [], sotaEnabled, addrCfg, FlashOk) && Raw([]) == []
  {
    assert forall a: seq<Op> :: [] + a == a;
  }

  const SWAP_RETRY_CNT: nat := 4

  /** Between turns: `done` leads from the first state to the present one, and what the call
      still has to do is what a call from the present state would do. */
  ghost predicate Progress(rule: ScanRule, f: Flash, g: Flash, done: seq<Op>, sotaEnabled: bool, addrCfg: nat,
                           ret: FlashStatus) {
    && g == Run(f, done)
    && var whole := SwapCall.SwapBank(rule, f, sotaEnabled, addrCfg);
       var rest := SwapCall.SwapBank(rule, g, sotaEnabled, addrCfg);
       && whole.ops == done + rest.ops && whole.ok == rest.ok
       && (ret == FlashOk || (ret == FlashNotOk && !rest.ok && rest.ops == []))
  }

  lemma TurnCases(rule: ScanRule, f: Flash, latched: word)
    requires BootBlock(f).Some?
    ensures TurnOf(rule, f, latched)
            == if Finished(rule, f, Flip(latched)) then Done else Work(WorkOps(rule, f, Flip(latched)))
  {
  }

  lemma FailedTurn(rule: ScanRule, f: Flash, g: Flash, done: seq<Op>, sotaEnabled: bool, addrCfg: nat)
    requires Progress(rule, f, g, done, sotaEnabled, addrCfg, FlashOk)
    requires !(sotaEnabled && LatchedMode(addrCfg).Some? && BootBlock(g).Some?)
    ensures Progress(rule, f, g, done, sotaEnabled, addrCfg, FlashNotOk)
  {
  }

  lemma WorkedTurn(rule: ScanRule, f: Flash, g: Flash, done: seq<Op>, ops: seq<Op>, sotaEnabled: bool, addrCfg: nat)
    requires Progress(rule, f, g, done, sotaEnabled, addrCfg, FlashOk)
    requires sotaEnabled && LatchedMode(addrCfg).Some?
    requires TurnOf(rule, g, LatchedMode(addrCfg).value) == Work(ops)
    ensures Progress(rule, f, Run(g, ops), done + ops, sotaEnabled, addrCfg, FlashOk)
    ensures var latched, h := LatchedMode(addrCfg).value, Run(g, ops);
            || Phase(rule, h, latched) < Phase(rule, g, latched)
            || (Phase(rule, h, latched) == Phase(rule, g, latched)
                && (Blanks(h) < Blanks(g) || (Blanks(h) == Blanks(g) && Valids(h) < Valids(g))))
  {
    hide TurnOf, Run, Phase, Blanks, Valids;
    var latched := LatchedMode(addrCfg).value;
    TurnProgress(rule, g, latched);
    RunConcat(f, done, ops);
    var rest := SwapLoop(rule, Run(g, ops), latched).ops;
    assert done + (ops + rest) == done + ops + rest;
  }

  lemma EndOfLoop(rule: ScanRule, f: Flash, g: Flash, done: seq<Op>, sotaEnabled: bool, addrCfg: nat, ret: FlashStatus)
    requires Progress(rule, f, g, done, sotaEnabled, addrCfg, ret)
    requires ret == FlashOk ==>
               sotaEnabled && LatchedMode(addrCfg).Some? && TurnOf(rule, g, LatchedMode(addrCfg).value) == Done
    ensures var out := SwapCall.SwapBank(rule, f, sotaEnabled, addrCfg);
            (ret == FlashOk <==> out.ok) && g == Run(f, out.ops) && out.ops == done
  {
    hide Run;
    assert done + [] == done;
  }
}
