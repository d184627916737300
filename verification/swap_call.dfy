/** A whole `swap_bank` call, and why its loop ends from any flash content. */
module SwapCall {
  import opened Words
  import opened SwapLog
  import opened SwapProtocol

  // ---- the effect of the log operations ----

  function Invalidate(b: BlockId, i: SlotIndex, s: Slot): Slot {
    if ReadEntry(b, i, s).Valid? then Slot(s.marker, INVALIDATED) else s
  }

  /** The log after invalidating the valid entries below `n`. */
  function Invalidated(b: BlockId, slots: Slots, n: nat): Slots
    requires n <= NR_OF_ENTRIES
  {
    if n == 0 then slots
    else Invalidated(b, slots, n - 1)[n - 1 := Invalidate(b, n - 1, slots[n - 1])]
  }

  /** The log after writing entry `i` and invalidating below it. */
  function EntrySet(b: BlockId, slots: Slots, i: SlotIndex, v: word): Slots {
    Invalidated(b, slots, i)[i := Slot(MarkerPage(b, i, v), ConfirmationPage(b, i))]
  }

  lemma {:induction false} InvalidatedAt(b: BlockId, slots: Slots, n: nat, i: SlotIndex)
    requires n <= NR_OF_ENTRIES
    ensures Invalidated(b, slots, n)[i] == if i < n then Invalidate(b, i, slots[i]) else slots[i]
  {
    if n > 0 {
      InvalidatedAt(b, slots, n - 1, i);
    }
  }

  lemma {:induction false} InvalidateEffect(f: Flash, b: BlockId, slots: Slots, n: nat)
    requires n <= NR_OF_ENTRIES
    requires forall i: SlotIndex :: i < n ==> f.At(b).slots[i] == slots[i]
    ensures Run(f, InvalidateOps(b, slots, n))
            == f.With(b, Block(Invalidated(b, f.At(b).slots, n), f.At(b).code))
  {
    hide ReadEntry;
    if n > 0 {
      var ops := InvalidateOps(b, slots, n - 1);
      InvalidateEffect(f, b, slots, n - 1);
      var i: SlotIndex := n - 1;
      assert f.At(b).slots[i] == slots[i];
      InvalidatedAt(b, f.At(b).slots, n - 1, i);
      if ReadEntry(b, i, slots[i]).Valid? {
        var op := Program(b, Confirm(i), INVALIDATED);
        RunConcat(f, ops, [op]);
        assert Run(Run(f, ops), [op]) == Apply(Run(f, ops), op) by { assert [op][1..] == []; }
      } else {
        assert InvalidateOps(b, slots, n) == ops + [] == ops;
        var was := Invalidated(b, f.At(b).slots, n - 1);
        assert was[i := was[i]] == was;
      }
    }
  }

  lemma WriteEntryEffect(f: Flash, b: BlockId, i: SlotIndex, v: word)
    ensures Run(f, WriteEntryOps(b, i, v))
            == f.With(b, Block(f.At(b).slots[i := Slot(MarkerPage(b, i, v), ConfirmationPage(b, i))], f.At(b).code))
  {
    var ops := WriteEntryOps(b, i, v);
    var f1 := Apply(f, ops[0]);
    RunTwo(f, ops);
    assert f1.At(b).slots == f.At(b).slots[i := Slot(MarkerPage(b, i, v), f.At(b).slots[i].confirm)];
  }

  lemma {:induction false} InvalidatedFrame(b: BlockId, slots: Slots, i: SlotIndex, s: Slot, n: nat)
    requires n <= i
    ensures Invalidated(b, slots[i := s], n) == Invalidated(b, slots, n)[i := s]
  {
    if n > 0 {
      InvalidatedFrame(b, slots, i, s, n - 1);
    }
  }

  lemma {:induction false} InvalidateOpsFrame(b: BlockId, slots: Slots, i: SlotIndex, s: Slot, n: nat)
    requires n <= i
    ensures InvalidateOps(b, slots[i := s], n) == InvalidateOps(b, slots, n)
  {
    if n > 0 {
      InvalidateOpsFrame(b, slots, i, s, n - 1);
    }
  }

  lemma SetEntryEffect(f: Flash, b: BlockId, slots: Slots, i: SlotIndex, v: word)
    requires f.At(b).slots == slots
    ensures Run(f, SetEntryOps(b, slots, i, v)) == f.With(b, Block(EntrySet(b, slots, i, v), f.At(b).code))
  {
    WriteEntryEffect(f, b, i, v);
    var f1 := Run(f, WriteEntryOps(b, i, v));
    InvalidateEffect(f1, b, slots, i);
    InvalidatedFrame(b, slots, i, Slot(MarkerPage(b, i, v), ConfirmationPage(b, i)), i);
    RunConcat(f, WriteEntryOps(b, i, v), InvalidateOps(b, slots, i));
  }

  /** What a sweep leaves of a slot: of a valid entry below `n` the confirmation page becomes all ones, and
      every other page stays. */
  lemma SweepLeaves(f: Flash, b: BlockId, n: nat, i: SlotIndex)
    requires n <= NR_OF_ENTRIES
    ensures var was, g := f.At(b).slots[i], Run(f, InvalidateOps(b, f.At(b).slots, n));
            g.At(b).slots[i] == if i < n && ReadEntry(b, i, was).Valid?
                                then Slot(was.marker, Programmed(0xFFFF_FFFF, 0xFFFF_FFFF)) else was
  {
    InvalidateEffect(f, b, f.At(b).slots, n);
    InvalidatedAt(b, f.At(b).slots, n, i);
  }

  /** `set_swap_entry` round trip: when no slot after `i` is valid, slot `i` becomes the
      only valid entry of the log and reads back `v`. */
  lemma AppendRoundTrip(b: BlockId, slots: Slots, i: SlotIndex, v: word)
    requires IsMode(v)
    requires forall j: SlotIndex :: i < j ==> !ReadEntry(b, j, slots[j]).Valid?
    ensures var after := EntrySet(b, slots, i, v);
            && ReadEntry(b, i, after[i]) == Valid(v)
            && (forall j: SlotIndex :: j != i ==> !ReadEntry(b, j, after[j]).Valid?)
            && LatestValue(b, after) == v
            && CountValid(b, after, NR_OF_ENTRIES) == 1
            && (forall j: SlotIndex :: j != i ==> (IsBlank(after[j]) <==> IsBlank(slots[j])))
  {
    var after := EntrySet(b, slots, i, v);
    forall j: SlotIndex | j != i
      ensures !ReadEntry(b, j, after[j]).Valid? && (IsBlank(after[j]) <==> IsBlank(slots[j]))
    {
      InvalidatedAt(b, slots, i, j);
    }
    CountOne(b, after, i);
  }

  // ---- the effect of one turn ----

  function Cleaned(b: BlockId, slots: Slots, info: BlockInfo): Slots
    requires info.validCnt > 1 ==> info.swapIndex < NR_OF_ENTRIES
  {
    if info.validCnt > 1 then Invalidated(b, slots, info.swapIndex) else slots
  }

  function Added(b: BlockId, slots: Slots, info: BlockInfo, target: word): Slots
    requires !NoRoomFor(info, target)
  {
    if info.swapValue != target then EntrySet(b, slots, info.nextIndex, target) else slots
  }

  /** One block after an append turn. */
  function LogAfter(rule: ScanRule, b: BlockId, slots: Slots, target: word): Slots
    requires !NoRoomFor(Scan(rule, b, slots), target)
  {
    var info := Scan(rule, b, slots);
    Added(b, Cleaned(b, slots, info), info, target)
  }

  lemma CleanEffect(f: Flash, b: BlockId, info: BlockInfo)
    requires info.validCnt > 1 ==> info.swapIndex < NR_OF_ENTRIES
    ensures Run(f, CleanOps(b, f.At(b).slots, info))
            == f.With(b, Block(Cleaned(b, f.At(b).slots, info), f.At(b).code))
  {
    if info.validCnt > 1 {
      InvalidateEffect(f, b, f.At(b).slots, info.swapIndex);
    }
  }

  lemma AddEffect(f: Flash, b: BlockId, info: BlockInfo, target: word)
    requires !NoRoomFor(info, target)
    ensures Run(f, AddOps(b, f.At(b).slots, info, target))
            == f.With(b, Block(Added(b, f.At(b).slots, info, target), f.At(b).code))
  {
    if info.swapValue != target {
      SetEntryEffect(f, b, f.At(b).slots, info.nextIndex, target);
    }
  }

  lemma AppendTurnEffect(rule: ScanRule, f: Flash, target: word)
    requires !NoRoomFor(Scan(rule, Orig, f.orig.slots), target)
    requires !NoRoomFor(Scan(rule, Copy, f.copy.slots), target)
    ensures Run(f, AppendTurn(rule, f, target))
            == Flash(Block(LogAfter(rule, Orig, f.orig.slots, target), f.orig.code),
                     Block(LogAfter(rule, Copy, f.copy.slots, target), f.copy.code))
  {
    var oi, ci := Scan(rule, Orig, f.orig.slots), Scan(rule, Copy, f.copy.slots);
    var a, b := CleanOps(Orig, f.orig.slots, oi), CleanOps(Copy, f.copy.slots, ci);
    var f1 := Run(f, a);
    CleanEffect(f, Orig, oi);
    CleanEffect(f1, Copy, ci);
    RunConcat(f, a, b);
    var f2 := Run(f, a + b);
    var c, d := AddOps(Copy, f2.copy.slots, ci, target), AddOps(Orig, f2.orig.slots, oi, target);
    AddEffect(f2, Copy, ci, target);
    var f3 := Run(f2, c);
    AddEffect(f3, Orig, oi, target);
    RunConcat(f, a + b, c);
    RunConcat(f, a + b + c, d);
  }

  lemma DualEffect(rule: ScanRule, f: Flash, target: word)
    requires BootBlock(f).Some? && IsMode(target)
    ensures var g := Run(f, DualOps(rule, f, target));
            var info := Scan(rule, Copy, f.copy.slots);
            if BootBlock(f) == Some(Copy)
            then g == Flash(FreshBlock(Orig, if info.validCnt > 0 then info.swapValue else target,
                                       ReadConfirmation(f.copy.code)), f.copy)
            else g == Flash(FreshBlock(Orig, target, ReadConfirmation(f.orig.code)),
                            FreshBlock(Copy, target, ReadConfirmation(f.orig.code)))
  {
    if BootBlock(f) == Some(Copy) {
      var info := Scan(rule, Copy, f.copy.slots);
      RewriteLeaves(f, Orig, if info.validCnt > 0 then info.swapValue else target, ReadConfirmation(f.copy.code));
    } else {
      var s := ReadConfirmation(f.orig.code);
      RewriteLeaves(f, Copy, target, s);
      var g := Flash(f.orig, FreshBlock(Copy, target, s));
      FreshScan(rule, Copy, target, s);
      RewriteLeaves(g, Orig, target, s);
      RunConcat(f, RewriteOps(Copy, target, s), SecondHalfOps(rule, g, target));
    }
  }

  lemma FreshProper(b: BlockId, v: word, s: ConfState)
    requires IsMode(v) && !s.Errored?
    ensures var slots := FreshBlock(b, v, s).slots;
            && Proper(b, slots) && Used(slots) == 1 && !Torn(slots)
            && LatestValue(b, slots) == v && CountValid(b, slots, NR_OF_ENTRIES) == 1
  {
    var slots := FreshBlock(b, v, s).slots;
    UsedIs(slots, 1);
    LatestIsLastUsed(b, slots);
    CountOne(b, slots, 0);
  }

  lemma FreshScan(rule: ScanRule, b: BlockId, v: word, s: ConfState)
    requires IsMode(v) && !s.Errored?
    ensures Scan(rule, b, FreshBlock(b, v, s).slots) == BlockInfo(0, v, 1, 1)
  {
    FreshProper(b, v, s);
    ScanWellShaped(rule, b, FreshBlock(b, v, s).slots);
  }

  // ---- termination ----

  function CountBlank(slots: Slots, n: nat): nat
    requires n <= NR_OF_ENTRIES
  {
    if n == 0 then 0 else CountBlank(slots, n - 1) + if IsBlank(slots[n - 1]) then 1 else 0
  }

  lemma {:induction false} BlankSame(s: Slots, t: Slots, n: nat)
    requires n <= NR_OF_ENTRIES
    requires forall i: SlotIndex :: i < n ==> (IsBlank(s[i]) <==> IsBlank(t[i]))
    ensures CountBlank(s, n) == CountBlank(t, n)
  {
    if n > 0 {
      var i: SlotIndex := n - 1;
      assert IsBlank(s[i]) <==> IsBlank(t[i]);
      BlankSame(s, t, n - 1);
    }
  }

  lemma {:induction false} BlankFilled(s: Slots, t: Slots, k: SlotIndex, n: nat)
    requires k < n <= NR_OF_ENTRIES
    requires IsBlank(s[k]) && !IsBlank(t[k])
    requires forall i: SlotIndex :: i != k ==> (IsBlank(s[i]) <==> IsBlank(t[i]))
    ensures CountBlank(t, n) == CountBlank(s, n) - 1
  {
    var i: SlotIndex := n - 1;
    if k < i {
      assert IsBlank(s[i]) <==> IsBlank(t[i]);
      BlankFilled(s, t, k, n - 1);
    } else {
      BlankSame(s, t, n - 1);
    }
  }

  function Blanks(f: Flash): nat {
    CountBlank(f.orig.slots, NR_OF_ENTRIES) + CountBlank(f.copy.slots, NR_OF_ENTRIES)
  }

  function Valids(f: Flash): nat {
    CountValid(Orig, f.orig.slots, NR_OF_ENTRIES) + CountValid(Copy, f.copy.slots, NR_OF_ENTRIES)
  }

  /** 0 when the loop leaves, 1 when ORIG boots, 2 while ORIG has to be rebuilt. */
  function Phase(rule: ScanRule, f: Flash, latched: word): nat {
    if !TurnOf(rule, f, latched).Work? then 0 else if BootBlock(f) == Some(Orig) then 1 else 2
  }

  /** An append fills one blank slot and leaves exactly one valid entry. */
  lemma AddProgress(rule: ScanRule, b: BlockId, slots: Slots, target: word)
    requires var info := Scan(rule, b, slots); !NoRoomFor(info, target) && info.swapValue != target
    ensures CountBlank(LogAfter(rule, b, slots, target), NR_OF_ENTRIES) == CountBlank(slots, NR_OF_ENTRIES) - 1
  {
    var info := Scan(rule, b, slots);
    ScanMeaning(rule, b, slots);
    var k: SlotIndex := info.nextIndex;
    assert IsBlank(slots[k]);
    var after := LogAfter(rule, b, slots, target);
    forall i: SlotIndex | i != k ensures IsBlank(slots[i]) <==> IsBlank(after[i]) {
      CleanedKeepsBlank(b, slots, info, i);
      InvalidatedAt(b, Cleaned(b, slots, info), k, i);
    }
    BlankFilled(slots, after, k, NR_OF_ENTRIES);
  }

  lemma CleanedKeepsBlank(b: BlockId, slots: Slots, info: BlockInfo, i: SlotIndex)
    requires info.validCnt > 1 ==> info.swapIndex < NR_OF_ENTRIES
    ensures IsBlank(Cleaned(b, slots, info)[i]) <==> IsBlank(slots[i])
  {
    if info.validCnt > 1 {
      InvalidatedAt(b, slots, info.swapIndex, i);
    }
  }

  /** Without an append, the turn leaves the blank slots alone, and a log whose scan counted
      several entries ends with one. */
  lemma CleanProgress(rule: ScanRule, b: BlockId, slots: Slots, target: word)
    requires target != 0 && Scan(rule, b, slots).swapValue == target
    ensures var after := LogAfter(rule, b, slots, target);
            && CountBlank(after, NR_OF_ENTRIES) == CountBlank(slots, NR_OF_ENTRIES)
            && (AlreadySet(Scan(rule, b, slots), target) ==> after == slots)
            && (!AlreadySet(Scan(rule, b, slots), target) ==>
                  CountValid(b, after, NR_OF_ENTRIES) == 1 < CountValid(b, slots, NR_OF_ENTRIES))
  {
    var info, after := Scan(rule, b, slots), LogAfter(rule, b, slots, target);
    ScanMeaning(rule, b, slots);
    CountPositive(b, slots, NR_OF_ENTRIES);
    forall i: SlotIndex ensures IsBlank(slots[i]) <==> IsBlank(after[i]) {
      CleanedKeepsBlank(b, slots, info, i);
    }
    BlankSame(slots, after, NR_OF_ENTRIES);
    if !AlreadySet(info, target) {
      CleanedLeavesOne(b, slots);
    }
  }

  /** Invalidating below the latest valid entry leaves that one alone. */
  lemma CleanedLeavesOne(b: BlockId, slots: Slots)
    requires LatestEnd(b, slots, NR_OF_ENTRIES) > 0
    ensures var k := LatestEnd(b, slots, NR_OF_ENTRIES);
            var after := Invalidated(b, slots, k - 1);
            && CountValid(b, after, NR_OF_ENTRIES) == 1 && LatestEnd(b, after, NR_OF_ENTRIES) == k
            && after[k - 1] == slots[k - 1]
  {
    var k := LatestEnd(b, slots, NR_OF_ENTRIES);
    var last: SlotIndex := k - 1;
    var after := Invalidated(b, slots, last);
    InvalidatedAt(b, slots, last, last);
    forall j: SlotIndex | j != last ensures !ReadEntry(b, j, after[j]).Valid? {
      InvalidatedAt(b, slots, last, j);
      if j > last {
        NoneAfterLatest(b, slots, NR_OF_ENTRIES, j);
      }
    }
    CountOne(b, after, last);
  }

  lemma DualProgress(rule: ScanRule, f: Flash, latched: word)
    requires IsMode(latched) && BootBlock(f).Some?
    ensures var g := Run(f, DualOps(rule, f, Flip(latched)));
            if BootBlock(f) == Some(Copy) then Phase(rule, g, latched) < 2
            else TurnOf(rule, g, latched) == Done
  {
    var target := Flip(latched);
    DualEffect(rule, f, target);
    if BootBlock(f) == Some(Orig) {
      FreshScan(rule, Orig, target, ReadConfirmation(f.orig.code));
      FreshScan(rule, Copy, target, ReadConfirmation(f.orig.code));
    }
  }

  lemma BlockProgress(rule: ScanRule, b: BlockId, slots: Slots, target: word)
    requires target != 0 && !NoRoomFor(Scan(rule, b, slots), target)
    ensures var after := LogAfter(rule, b, slots, target);
            || CountBlank(after, NR_OF_ENTRIES) < CountBlank(slots, NR_OF_ENTRIES)
            || (&& CountBlank(after, NR_OF_ENTRIES) == CountBlank(slots, NR_OF_ENTRIES)
                && CountValid(b, after, NR_OF_ENTRIES) < CountValid(b, slots, NR_OF_ENTRIES))
            || (AlreadySet(Scan(rule, b, slots), target) && after == slots)
  {
    if Scan(rule, b, slots).swapValue != target { AddProgress(rule, b, slots, target); }
    else { CleanProgress(rule, b, slots, target); }
  }

  /** Every turn that performs flash operations makes progress, from any flash content and
      under either scan, provided the operations take effect. */
  lemma TurnProgress(rule: ScanRule, f: Flash, latched: word)
    requires IsMode(latched) && TurnOf(rule, f, latched).Work?
    ensures var g := Run(f, TurnOf(rule, f, latched).ops);
            || Phase(rule, g, latched) < Phase(rule, f, latched)
            || (Phase(rule, g, latched) == Phase(rule, f, latched)
                && (Blanks(g) < Blanks(f) || (Blanks(g) == Blanks(f) && Valids(g) < Valids(f))))
  {
    var target := Flip(latched);
    if NeedsDual(rule, f, target) {
      DualProgress(rule, f, latched);
    } else {
      AppendTurnEffect(rule, f, target);
      BlockProgress(rule, Orig, f.orig.slots, target);
      BlockProgress(rule, Copy, f.copy.slots, target);
    }
  }

  // ---- the call ----

  /** The operations that a call performs, whether it succeeded, and the number of times its
      loop body ran. */
  datatype Outcome = Outcome(ops: seq<Op>, ok: bool, turns: nat)

  function SwapLoop(rule: ScanRule, f: Flash, latched: word): Outcome
    requires IsMode(latched)
    decreases Phase(rule, f, latched), Blanks(f), Valids(f)
  {
    match TurnOf(rule, f, latched)
    case Done => Outcome([], true, 1)
    case Failed => Outcome([], false, 1)
    case Work(ops) =>
      TurnProgress(rule, f, latched);
      var rest := SwapLoop(rule, Run(f, ops), latched);
      Outcome(ops + rest.ops, rest.ok, rest.turns + 1)
  }

  /** The mode shown by SCU_SWAPCTRL.ADDRCFG, if it shows one. */
  function LatchedMode(addrCfg: nat): Option<word> {
    if addrCfg == 1 then Some(STANDARD) else if addrCfg == 2 then Some(ALTERNATE) else None
  }

  /** Without SOTA or a latched mode, a call fails and touches nothing. */
  lemma RefusedCall(rule: ScanRule, f: Flash, sotaEnabled: bool, addrCfg: nat)
    requires !sotaEnabled || (addrCfg != 1 && addrCfg != 2)
    ensures var out := SwapBank(rule, f, sotaEnabled, addrCfg); out.ops == [] && !out.ok
  {
  }

  /** ADDRCFG 1 is the standard mode 0x55, 2 the alternate mode 0xAA, and anything else none. */
  lemma LatchedModes(addrCfg: nat)
    ensures LatchedMode(addrCfg) == if addrCfg == 1 then Some(0x55) else if addrCfg == 2 then Some(0xAA) else None
  {
  }

  /** The loop leaves with success exactly when both blocks are confirmed alike and hold the new mode; under
      the documented scan, in one entry each. */
  lemma DoneExactly(rule: ScanRule, f: Flash, latched: word)
    requires IsMode(latched)
    ensures TurnOf(rule, f, latched) == Done
            <==> && Paired(f)
                 && LatestValue(Orig, f.orig.slots) == Flip(latched) && LatestValue(Copy, f.copy.slots) == Flip(latched)
                 && (rule.AsDocumented? ==> CountValid(Orig, f.orig.slots, NR_OF_ENTRIES) == 1
                                            && CountValid(Copy, f.copy.slots, NR_OF_ENTRIES) == 1)
  {
    ScanMeaning(rule, Orig, f.orig.slots);
    ScanMeaning(rule, Copy, f.copy.slots);
    hide Scan, CountValid;
  }

  /** `swap_bank`: fails without touching the flash when SOTA is disabled or no mode is
      latched. */
  function SwapBank(rule: ScanRule, f: Flash, sotaEnabled: bool, addrCfg: nat): Outcome {
    if !sotaEnabled || LatchedMode(addrCfg) == None then Outcome([], false, 1)
    else SwapLoop(rule, f, LatchedMode(addrCfg).value)
  }
}
