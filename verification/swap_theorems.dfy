/** The guarantees of the bank swap over whole calls, power failures and resets. */
module SwapTheorems {
  import opened Words
  import opened SwapLog
  import opened SwapProtocol
  import opened SwapCall
  import opened SwapSafety

  /** The operations of a call that starts right after a reset, when the latched mode is the
      one that boots. */
  function CallOps(rule: ScanRule, f: Flash): seq<Op> {
    SwapBank(rule, f, true, AddrCfgAfterReset(f)).ops
  }

  /** The mode that a reset latches into SCU_SWAPCTRL.ADDRCFG. */
  function AddrCfgAfterReset(f: Flash): nat {
    if BootValue(f) == STANDARD then 1 else if BootValue(f) == ALTERNATE then 2 else 0
  }

  lemma AfterReset(rule: ScanRule, f: Flash)
    requires Inv(f)
    ensures Good(f, BootValue(f))
    ensures SwapBank(rule, f, true, AddrCfgAfterReset(f)) == SwapLoop(rule, f, BootValue(f))
    ensures Safe(f, CallOps(rule, f), BootValue(f))
  {
    InvGood(f);
    LoopSafe(rule, f, BootValue(f));
  }

  lemma InvGood(f: Flash)
    requires Inv(f)
    ensures Good(f, BootValue(f)) && IsMode(BootValue(f))
  {
    LatestIsLastUsed(BootBlock(f).value, f.At(BootBlock(f).value).slots);
  }

  // ---- every moment of a call ----

  /** Crash atomicity. Cut a call after any number of page programs and erases: a block
      boots, from a valid entry; the boot value is the old mode or the other one, and once
      it has changed it stays; if it has changed, COPY already holds the new mode. */
  lemma CrashAtomicity(rule: ScanRule, f: Flash, j: nat, k: nat)
    requires Inv(f) && j <= k <= |CallOps(rule, f)|
    ensures var previous, g := BootValue(f), Run(f, CallOps(rule, f)[..k]);
            && Inv(g)
            && BootBlock(g).Some?
            && LatestEnd(BootBlock(g).value, g.At(BootBlock(g).value).slots, NR_OF_ENTRIES) > 0
            && (BootValue(g) == previous || BootValue(g) == Flip(previous))
            && (BootValue(Run(f, CallOps(rule, f)[..j])) != previous ==> BootValue(g) != previous)
            && (BootValue(g) != previous ==> CopyHolds(g, BootValue(g)))
  {
    hide Safe, GoodOf, InvOf, BootBlock, BootValue, CallOps, CopyHoldsOf, LatestEnd, Run;
    var ops, previous := CallOps(rule, f), BootValue(f);
    AfterReset(rule, f);
    SafeMonotone(f, ops, previous, j, k);
    SafePrefix(f, ops, previous, k);
    GoodMeaning(Run(f, ops[..k]), previous);
    BootsFromEntry(Run(f, ops[..k]));
  }

  lemma BootsFromEntry(f: Flash)
    requires Inv(f)
    ensures BootBlock(f).Some?
            && LatestEnd(BootBlock(f).value, f.At(BootBlock(f).value).slots, NR_OF_ENTRIES) > 0
  {
    LatestIsLastUsed(BootBlock(f).value, f.At(BootBlock(f).value).slots);
  }

  /** Flash discipline. No program operation of a call hits a page that is neither erased nor
      already has the content written, except to over-program all ones. */
  lemma FlashDiscipline(rule: ScanRule, f: Flash, k: nat)
    requires Inv(f) && k < |CallOps(rule, f)|
    ensures Disciplined(Run(f, CallOps(rule, f)[..k]), CallOps(rule, f)[k])
  {
    AfterReset(rule, f);
    SafePrefix(f, CallOps(rule, f), BootValue(f), k);
    assert CallOps(rule, f)[k..][0] == CallOps(rule, f)[k];
  }

  // ---- any number of interrupted calls ----

  /** A run of power cycles: each one makes a call that is cut after the given number of
      operations (or not at all, when the number is large enough), and then resets. */
  function PowerCycles(rule: ScanRule, f: Flash, cuts: seq<nat>): Flash
    decreases |cuts|
  {
    if cuts == [] then f
    else
      var ops := CallOps(rule, f);
      PowerCycles(rule, Run(f, ops[..if cuts[0] < |ops| then cuts[0] else |ops|]), cuts[1..])
  }

  /** The invariant survives every run, so all that is proved from `Inv` holds in all of
      them: crash atomicity, flash discipline and recovery. */
  lemma {:induction false} InvariantOverRuns(rule: ScanRule, f: Flash, cuts: seq<nat>)
    requires Inv(f)
    ensures Inv(PowerCycles(rule, f, cuts))
    decreases |cuts|
  {
    if cuts != [] {
      var ops := CallOps(rule, f);
      var k := if cuts[0] < |ops| then cuts[0] else |ops|;
      CrashAtomicity(rule, f, k, k);
      InvariantOverRuns(rule, Run(f, ops[..k]), cuts[1..]);
    }
  }

  // ---- recovery ----

  /** A block after an append turn holds the new value; how many entries stay valid depends
      on the scan. */
  lemma LogAfterSet(rule: ScanRule, b: BlockId, slots: Slots, target: word)
    requires WellShaped(b, slots) && IsMode(target) && !NoRoomFor(Scan(rule, b, slots), target)
    ensures var after := LogAfter(rule, b, slots, target);
            && LatestValue(b, after) == target
            && AlreadySet(Scan(rule, b, after), target)
            && CountValid(b, after, NR_OF_ENTRIES)
               == if rule.AsWritten? && LatestValue(b, slots) == target
                  then CountValid(b, slots, NR_OF_ENTRIES) else 1
  {
    hide ReadEntry, IsBlank, WellShaped, Used;
    var info, after := Scan(rule, b, slots), LogAfter(rule, b, slots, target);
    ScanWellShaped(rule, b, slots);
    LatestIsLastUsed(b, slots);
    if info.swapValue != target {
      AppendSet(rule, b, slots, target);
    } else if info.validCnt > 1 {
      CleanedLeavesOne(b, slots);
    }
    ScanMeaning(rule, b, after);
    CountPositive(b, after, NR_OF_ENTRIES);
  }

  lemma AppendSet(rule: ScanRule, b: BlockId, slots: Slots, target: word)
    requires WellShaped(b, slots) && IsMode(target) && !NoRoomFor(Scan(rule, b, slots), target)
    requires LatestValue(b, slots) != target
    ensures var after := LogAfter(rule, b, slots, target);
            LatestValue(b, after) == target && CountValid(b, after, NR_OF_ENTRIES) == 1
  {
    var info := Scan(rule, b, slots);
    ScanWellShaped(rule, b, slots);
    var clean, m := Cleaned(b, slots, info), Used(slots);
    forall j: SlotIndex | m < j ensures !ReadEntry(b, j, clean[j]).Valid? {
      assert slots[j] == EMPTY_SLOT;
      if info.validCnt > 1 { InvalidatedAt(b, slots, info.swapIndex, j); }
    }
    AppendRoundTrip(b, clean, m, target);
  }

  /** Entries of COPY that the scan as written never invalidates: COPY already holds the
      target beside older valid entries, and ORIG can take the target by an append. */
  predicate LeavesStaleEntries(f: Flash) {
    && Paired(f)
    && LatestValue(Copy, f.copy.slots) == Flip(BootValue(f))
    && CountValid(Copy, f.copy.slots, NR_OF_ENTRIES) > 1
    && Used(f.orig.slots) < NR_OF_ENTRIES
  }

  /** Both blocks confirmed alike, both with latest value `v`. */
  predicate BothHold(f: Flash, v: word) {
    Paired(f) && LatestValue(Orig, f.orig.slots) == v && LatestValue(Copy, f.copy.slots) == v
  }

  function CountIn(f: Flash, b: BlockId): nat {
    CountValid(b, f.At(b).slots, NR_OF_ENTRIES)
  }

  lemma DualRecovers(rule: ScanRule, f: Flash, latched: word)
    requires IsMode(latched) && BootBlock(f) == Some(Orig)
    ensures var g := Run(f, DualOps(rule, f, Flip(latched)));
            && TurnOf(rule, g, latched) == Done && BothHold(g, Flip(latched))
            && CountIn(g, Orig) == 1 && CountIn(g, Copy) == 1
  {
    hide Run, DualOps, WellShaped, Used, CountValid, LatestValue, Scan, TurnOf, IsBlank;
    DualProgress(rule, f, latched);
    DualEffect(rule, f, Flip(latched));
    FreshProper(Orig, Flip(latched), ReadConfirmation(f.orig.code));
    FreshProper(Copy, Flip(latched), ReadConfirmation(f.orig.code));
  }

  lemma AppendRecovers(rule: ScanRule, f: Flash, latched: word)
    requires IsMode(latched) && Paired(f) && !NeedsDual(rule, f, Flip(latched))
    requires WellShaped(Orig, f.orig.slots) && WellShaped(Copy, f.copy.slots)
    requires LatestValue(Orig, f.orig.slots) == latched
    ensures var g := Run(f, AppendTurn(rule, f, Flip(latched)));
            && TurnOf(rule, g, latched) == Done && BothHold(g, Flip(latched))
            && CountIn(g, Orig) == 1
            && CountIn(g, Copy) == if rule.AsWritten? && LatestValue(Copy, f.copy.slots) == Flip(latched)
                                   then CountIn(f, Copy) else 1
  {
    hide Run, AppendTurn, LogAfter, LatestValue, CountValid, WellShaped;
    AppendTurnEffect(rule, f, Flip(latched));
    LogAfterSet(rule, Orig, f.orig.slots, Flip(latched));
    LogAfterSet(rule, Copy, f.copy.slots, Flip(latched));
  }

  /** A call whose next turn ends it. */
  lemma LastTurn(rule: ScanRule, f: Flash, latched: word)
    requires IsMode(latched) && TurnOf(rule, f, latched).Work?
    requires TurnOf(rule, Run(f, TurnOf(rule, f, latched).ops), latched) == Done
    ensures SwapLoop(rule, f, latched) == Outcome(TurnOf(rule, f, latched).ops, true, 2)
  {
    var ops := TurnOf(rule, f, latched).ops;
    assert SwapLoop(rule, Run(f, ops), latched) == Outcome([], true, 1);
    assert ops + [] == ops;
  }

  lemma OrigLogs(f: Flash, latched: word)
    requires Good(f, latched) && BootBlock(f) == Some(Orig) && BootValue(f) == latched
    ensures IsMode(latched)
    ensures WellShaped(Orig, f.orig.slots) && LatestValue(Orig, f.orig.slots) == latched
    ensures Paired(f) ==> WellShaped(Copy, f.copy.slots)
  {
  }

  /** What a call finds when it starts with ORIG booting. */
  lemma OrigStart(rule: ScanRule, f: Flash, latched: word)
    requires Good(f, latched) && BootBlock(f) == Some(Orig) && BootValue(f) == latched
    ensures IsMode(latched)
    ensures WellShaped(Orig, f.orig.slots) && LatestValue(Orig, f.orig.slots) == latched
    ensures Paired(f) ==> WellShaped(Copy, f.copy.slots)
    ensures TurnOf(rule, f, latched)
            == if NeedsDual(rule, f, Flip(latched)) then Work(DualOps(rule, f, Flip(latched)))
               else Work(AppendTurn(rule, f, Flip(latched)))
    ensures NoRoomFor(Scan(rule, Orig, f.orig.slots), Flip(latched)) <==> Used(f.orig.slots) == NR_OF_ENTRIES
  {
    hide Good, WellShaped, LatestValue, Scan, DualOps, AppendTurn;
    OrigLogs(f, latched);
    ScanWellShaped(rule, Orig, f.orig.slots);
  }

  /** With COPY already at the target, only a full ORIG forces the dual sequence. */
  lemma CopyAtTarget(rule: ScanRule, f: Flash, latched: word)
    requires Good(f, latched) && BootBlock(f) == Some(Orig) && BootValue(f) == latched
    requires LatestValue(Copy, f.copy.slots) == Flip(latched) && Paired(f)
    ensures NeedsDual(rule, f, Flip(latched)) <==> Used(f.orig.slots) == NR_OF_ENTRIES
    ensures CountIn(f, Copy) > 0
  {
    hide Good, WellShaped, Scan, Used, TurnOf;
    OrigStart(rule, f, latched);
    ScanMeaning(rule, Copy, f.copy.slots);
    CountPositive(Copy, f.copy.slots, NR_OF_ENTRIES);
  }

  /** Recovery while ORIG boots: one working turn. */
  lemma RecoveryFromOrig(rule: ScanRule, f: Flash, latched: word)
    requires Good(f, latched) && BootBlock(f) == Some(Orig) && BootValue(f) == latched
    ensures var out := SwapLoop(rule, f, latched);
            var g := Run(f, out.ops);
            && out.ok && out.turns == 2
            && BothHold(g, Flip(latched)) && CountIn(g, Orig) == 1
            && (CountIn(g, Copy) == 1 <==> rule.AsDocumented? || !LeavesStaleEntries(f))
  {
    hide Good, BothHold, TurnOf, SwapLoop, Run, Scan, LatestValue, CountValid, DualOps, AppendTurn, WellShaped, Used;
    OrigStart(rule, f, latched);
    if Paired(f) && LatestValue(Copy, f.copy.slots) == Flip(latched) {
      CopyAtTarget(rule, f, latched);
    }
    if NeedsDual(rule, f, Flip(latched)) {
      DualRecovers(rule, f, latched);
    } else {
      AppendRecovers(rule, f, latched);
    }
    LastTurn(rule, f, latched);
  }

  lemma CopyLogs(f: Flash, latched: word)
    requires Good(f, latched) && BootBlock(f) == Some(Copy) && BootValue(f) == latched
    ensures IsMode(latched) && Proper(Copy, f.copy.slots) && LatestValue(Copy, f.copy.slots) == latched
  {
  }

  lemma RepairEffect(rule: ScanRule, f: Flash, latched: word)
    requires Good(f, latched) && BootBlock(f) == Some(Copy) && BootValue(f) == latched
    ensures IsMode(latched) && LatestValue(Copy, f.copy.slots) == latched
    ensures TurnOf(rule, f, latched) == Work(DualOps(rule, f, Flip(latched)))
    ensures Run(f, DualOps(rule, f, Flip(latched)))
            == Flash(FreshBlock(Orig, latched, ReadConfirmation(f.copy.code)), f.copy)
  {
    hide Run, DualOps, Good, WellShaped, Used, LatestValue, Scan, BootValue;
    CopyLogs(f, latched);
    ScanWellShaped(rule, Copy, f.copy.slots);
    DualEffect(rule, f, Flip(latched));
  }

  /** The repair turn: ORIG is rebuilt from COPY, and the boot value stays. */
  lemma RepairFromCopy(rule: ScanRule, f: Flash, latched: word)
    requires Good(f, latched) && BootBlock(f) == Some(Copy) && BootValue(f) == latched
    ensures var ops := DualOps(rule, f, Flip(latched));
            var g := Run(f, ops);
            && IsMode(latched)
            && TurnOf(rule, f, latched) == Work(ops)
            && Good(g, latched) && BootBlock(g) == Some(Orig) && BootValue(g) == latched
            && g.copy == f.copy && LatestValue(Copy, g.copy.slots) == latched
  {
    hide Good, Run, DualOps, LatestValue, Safe, TurnOf;
    var ops := DualOps(rule, f, Flip(latched));
    RepairEffect(rule, f, latched);
    FreshProper(Orig, latched, ReadConfirmation(f.copy.code));
    DualSafe(rule, f, latched);
    SafeEnd(f, ops, latched);
  }

  /** A repair from COPY never changes the boot value, at none of its steps. */
  lemma RepairKeepsBoot(rule: ScanRule, f: Flash, k: nat)
    requires Inv(f) && BootBlock(f) == Some(Copy)
    requires k <= |DualOps(rule, f, Flip(BootValue(f)))|
    ensures BootValue(Run(f, DualOps(rule, f, Flip(BootValue(f)))[..k])) == BootValue(f)
  {
    hide GoodOf, InvOf, Run, DualOps, BootValue, Safe;
    var latched := BootValue(f);
    var ops := DualOps(rule, f, Flip(latched));
    InvGood(f);
    RepairFromCopy(rule, f, latched);
    DualSafe(rule, f, latched);
    SafeMonotone(f, ops, latched, k, |ops|);
    assert ops[..|ops|] == ops;
  }

  /** Recovery while COPY boots: ORIG is rebuilt with the mode that boots, then swapped. */
  lemma RecoveryFromCopy(rule: ScanRule, f: Flash, latched: word)
    requires Good(f, latched) && BootBlock(f) == Some(Copy) && BootValue(f) == latched
    ensures var out := SwapLoop(rule, f, latched);
            var g := Run(f, out.ops);
            && out.ok && out.turns == 3
            && BothHold(g, Flip(latched)) && CountIn(g, Orig) == 1 && CountIn(g, Copy) == 1
  {
    hide Good, BothHold, TurnOf, Run, Scan, LatestValue, CountValid, DualOps, BootValue, Used;
    var ops := DualOps(rule, f, Flip(latched));
    var g := Run(f, ops);
    RepairFromCopy(rule, f, latched);
    RecoveryFromOrig(rule, g, latched);
    RunConcat(f, ops, SwapLoop(rule, g, latched).ops);
  }

  /** Recovery. From every state of every run, an uninterrupted call ends within three turns
      of its loop, with success; both blocks then have the same confirmation state and hold
      the other mode, which the next reset boots. Each holds it in exactly one valid entry
      under the documented scan; under the scan as written, exactly when COPY did not start
      with stale entries that an append to ORIG leaves alone. */
  lemma Recovery(rule: ScanRule, f: Flash)
    requires Inv(f)
    ensures var out := SwapBank(rule, f, true, AddrCfgAfterReset(f));
            var g := Run(f, out.ops);
            && out.ok && out.turns <= 3
            && BothHold(g, Flip(BootValue(f))) && Inv(g) && BootValue(g) == Flip(BootValue(f))
            && CountIn(g, Orig) == 1
            && (CountIn(g, Copy) == 1 <==> rule.AsDocumented? || !LeavesStaleEntries(f))
  {
    hide GoodOf, InvOf, BothHold, SwapLoop, Run, CountIn, Safe, CallOps, BootValue;
    var latched := BootValue(f);
    AfterReset(rule, f);
    InvGood(f);
    BootsFromEntry(f);
    assert CallOps(rule, f) == SwapLoop(rule, f, latched).ops by { CallOpsAre(rule, f); }
    if BootBlock(f) == Some(Orig) { RecoveryFromOrig(rule, f, latched); } else { RecoveryFromCopy(rule, f, latched); }
    var g := Run(f, SwapLoop(rule, f, latched).ops);
    SafeEnd(f, CallOps(rule, f), latched);
    assert Inv(g) by { GoodMeaning(g, latched); }
    assert BootValue(g) == Flip(latched) by { BothHoldBoots(g, Flip(latched)); }
    if BootBlock(f) == Some(Copy) { assert !LeavesStaleEntries(f); }
  }

  lemma CallOpsAre(rule: ScanRule, f: Flash)
    requires Inv(f) && IsMode(BootValue(f))
    ensures CallOps(rule, f) == SwapLoop(rule, f, BootValue(f)).ops
  {
    AfterReset(rule, f);
  }

  lemma BothHoldBoots(f: Flash, v: word)
    requires BothHold(f, v)
    ensures BootValue(f) == v
  {
  }

  lemma TurnStaysBootable(rule: ScanRule, f: Flash, latched: word)
    requires IsMode(latched) && TurnOf(rule, f, latched).Work?
    ensures BootBlock(Run(f, TurnOf(rule, f, latched).ops)).Some?
  {
    hide Run, DualOps, AppendTurn, LogAfter;
    if NeedsDual(rule, f, Flip(latched)) {
      DualEffect(rule, f, Flip(latched));
    } else {
      AppendTurnEffect(rule, f, Flip(latched));
    }
  }

  /** Whatever the logs hold, well shaped or not: with SOTA enabled and a latched mode, a call
      succeeds exactly when some block is bootable, and then both blocks are confirmed alike
      and pass the scan with the other mode. */
  lemma {:induction false} AnyContent(rule: ScanRule, f: Flash, latched: word)
    requires IsMode(latched)
    ensures SwapLoop(rule, f, latched).ok <==> BootBlock(f).Some?
    ensures BootBlock(f).Some? ==> Finished(rule, Run(f, SwapLoop(rule, f, latched).ops), Flip(latched))
    decreases Phase(rule, f, latched), Blanks(f), Valids(f)
  {
    hide Run, Finished, NeedsDual, WorkOps;
    match TurnOf(rule, f, latched)
    case Done => RunNothing(f);
    case Work(ops) =>
      TurnProgress(rule, f, latched);
      TurnStaysBootable(rule, f, latched);
      AnyContent(rule, Run(f, ops), latched);
      RunConcat(f, ops, SwapLoop(rule, Run(f, ops), latched).ops);
    case Failed =>
  }

  /** A call that succeeded leaves nothing to do for another one before the reset, whatever
      the flash content was. */
  lemma {:induction false} SecondCallIdle(rule: ScanRule, f: Flash, latched: word)
    requires IsMode(latched) && SwapLoop(rule, f, latched).ok
    ensures SwapLoop(rule, Run(f, SwapLoop(rule, f, latched).ops), latched) == Outcome([], true, 1)
    decreases Phase(rule, f, latched), Blanks(f), Valids(f)
  {
    hide Run;
    match TurnOf(rule, f, latched)
    case Done => assert Run(f, []) == f by { RunNothing(f); }
    case Work(ops) =>
      TurnProgress(rule, f, latched);
      SecondCallIdle(rule, Run(f, ops), latched);
      RunConcat(f, ops, SwapLoop(rule, Run(f, ops), latched).ops);
    case Failed =>
  }

  /** Two calls with a reset after each bring back the first mode. */
  lemma SwapTwice(rule: ScanRule, f: Flash)
    requires Inv(f)
    ensures var g := Run(f, CallOps(rule, f));
            BootValue(Run(g, CallOps(rule, g))) == BootValue(f)
  {
    hide Inv, Run, BootValue, SwapBank, BothHold, LeavesStaleEntries, CountIn;
    Recovery(rule, f);
    Recovery(rule, Run(f, CallOps(rule, f)));
    FlipTwice(BootValue(f));
  }

  lemma FlipTwice(v: word)
    ensures Flip(Flip(v)) == v
  {
  }

  // ---- which way a call takes ----

  predicate NoErase(ops: seq<Op>) {
    forall k :: 0 <= k < |ops| ==> !ops[k].Erase?
  }

  lemma {:induction false} InvalidateErasesNot(b: BlockId, slots: Slots, n: nat)
    requires n <= NR_OF_ENTRIES
    ensures NoErase(InvalidateOps(b, slots, n))
  {
    hide ReadEntry;
    if n > 0 {
      InvalidateErasesNot(b, slots, n - 1);
    }
  }

  lemma CleanErasesNot(b: BlockId, slots: Slots, info: BlockInfo)
    requires info.validCnt > 1 ==> info.swapIndex < NR_OF_ENTRIES
    ensures NoErase(CleanOps(b, slots, info))
  {
    if info.validCnt > 1 {
      InvalidateErasesNot(b, slots, info.swapIndex);
    }
  }

  lemma AddErasesNot(b: BlockId, slots: Slots, info: BlockInfo, target: word)
    requires !NoRoomFor(info, target)
    ensures NoErase(AddOps(b, slots, info, target))
  {
    if info.swapValue != target {
      InvalidateErasesNot(b, slots, info.nextIndex);
    }
  }

  lemma AppendErasesNot(rule: ScanRule, f: Flash, target: word)
    requires !NoRoomFor(Scan(rule, Orig, f.orig.slots), target)
    requires !NoRoomFor(Scan(rule, Copy, f.copy.slots), target)
    ensures NoErase(AppendTurn(rule, f, target))
  {
    hide Scan, Run, NoRoomFor, CleanOps, AddOps;
    var oi, ci := Scan(rule, Orig, f.orig.slots), Scan(rule, Copy, f.copy.slots);
    CleanErasesNot(Orig, f.orig.slots, oi);
    CleanErasesNot(Copy, f.copy.slots, ci);
    var clean := CleanOps(Orig, f.orig.slots, oi) + CleanOps(Copy, f.copy.slots, ci);
    AddErasesNot(Copy, Run(f, clean).copy.slots, ci, target);
    AddErasesNot(Orig, Run(f, clean).orig.slots, oi, target);
  }

  lemma DualErases(rule: ScanRule, f: Flash, target: word)
    requires BootBlock(f).Some?
    ensures var ops := DualOps(rule, f, target); |ops| > 0 && ops[0].Erase?
  {
    hide Scan;
  }

  /** The route of the first turn, in terms of the logs. */
  lemma RouteOfTurn(rule: ScanRule, f: Flash, latched: word)
    requires Good(f, latched) && BootBlock(f) == Some(Orig) && BootValue(f) == latched
    ensures NeedsDual(rule, f, Flip(latched))
            <==> || !Paired(f) || Used(f.orig.slots) == NR_OF_ENTRIES
                 || (Used(f.copy.slots) == NR_OF_ENTRIES && LatestValue(Copy, f.copy.slots) != Flip(latched))
  {
    hide Good, WellShaped, LatestValue, Scan, Used, TurnOf;
    OrigStart(rule, f, latched);
    ScanWellShaped(rule, Orig, f.orig.slots);
    if Paired(f) {
      ScanWellShaped(rule, Copy, f.copy.slots);
    }
  }

  /** A call with ORIG booting is one working turn. */
  lemma OneTurn(rule: ScanRule, f: Flash, latched: word)
    requires Good(f, latched) && BootBlock(f) == Some(Orig) && BootValue(f) == latched
    ensures IsMode(latched)
    ensures SwapLoop(rule, f, latched).ops
            == if NeedsDual(rule, f, Flip(latched)) then DualOps(rule, f, Flip(latched))
               else AppendTurn(rule, f, Flip(latched))
  {
    hide Good, BothHold, TurnOf, SwapLoop, Run, Scan, LatestValue, CountValid, DualOps, AppendTurn, WellShaped, Used;
    OrigStart(rule, f, latched);
    if NeedsDual(rule, f, Flip(latched)) {
      DualRecovers(rule, f, latched);
    } else {
      AppendRecovers(rule, f, latched);
    }
    LastTurn(rule, f, latched);
  }

  lemma RepairErases(rule: ScanRule, f: Flash, latched: word)
    requires Good(f, latched) && BootBlock(f) == Some(Copy) && BootValue(f) == latched
    ensures IsMode(latched) && SwapLoop(rule, f, latched).ops != [] && SwapLoop(rule, f, latched).ops[0].Erase?
  {
    hide Good, DualOps, Run, SwapLoop;
    RepairEffect(rule, f, latched);
    DualErases(rule, f, Flip(latched));
    LoopBegins(rule, f, latched);
  }

  /** A call erases a block exactly when the blocks do not go together, when the log of ORIG is full, or
      when that of COPY is and lacks the new mode. In all other states it appends. */
  lemma ErasesExactly(rule: ScanRule, f: Flash)
    requires Inv(f)
    ensures (exists k :: 0 <= k < |CallOps(rule, f)| && CallOps(rule, f)[k].Erase?)
            <==> || !Paired(f) || Used(f.orig.slots) == 16
                 || (Used(f.copy.slots) == 16 && LatestValue(Copy, f.copy.slots) != Flip(BootValue(f)))
  {
    hide GoodOf, InvOf, SwapLoop, Used, LatestValue, DualOps, AppendTurn, NeedsDual;
    var latched := BootValue(f);
    InvGood(f);
    CallOpsAre(rule, f);
    BootsFromEntry(f);
    if BootBlock(f) == Some(Copy) {
      RepairErases(rule, f, latched);
    } else {
      RouteOfTurn(rule, f, latched);
      OneTurn(rule, f, latched);
      if NeedsDual(rule, f, Flip(latched)) {
        DualErases(rule, f, Flip(latched));
      } else {
        RoutedToAppend(rule, f, Flip(latched));
      }
    }
  }

  lemma RoutedToAppend(rule: ScanRule, f: Flash, target: word)
    requires !NeedsDual(rule, f, target)
    ensures NoErase(AppendTurn(rule, f, target))
  {
    AppendErasesNot(rule, f, target);
  }

  /** A slot after an append at slot `m`: that one takes the entry, a valid one below it may be invalidated
      in its confirmation page, and nothing else changes. */
  predicate SlotAppended(b: BlockId, i: SlotIndex, was: Slot, now: Slot, m: nat, v: word) {
    var a := (if b == Orig then 0xAF402E00 else 0xAF403E00) + 16 * i;
    if i == m then now == Slot(Programmed(v, a), Programmed(0x57B5327F, a + 8))
    else || now == was
         || (i < m && ReadEntry(b, i, was).Valid? && now == Slot(was.marker, Programmed(0xFFFF_FFFF, 0xFFFF_FFFF)))
  }

  predicate Appended(b: BlockId, was: Slots, now: Slots, m: nat, v: word) {
    forall i: SlotIndex :: SlotAppended(b, i, was[i], now[i], m, v)
  }

  /** One slot of a log after an append turn. */
  lemma LogAfterAt(rule: ScanRule, b: BlockId, slots: Slots, v: word, i: SlotIndex)
    requires !NoRoomFor(Scan(rule, b, slots), v)
    ensures var info, now := Scan(rule, b, slots), LogAfter(rule, b, slots, v)[i];
            if info.swapValue != v && i == info.nextIndex then now == Slot(MarkerPage(b, i, v), ConfirmationPage(b, i))
            else now == slots[i]
                 || (now == Invalidate(b, i, slots[i])
                     && ((info.swapValue != v && i < info.nextIndex) || (info.validCnt > 1 && i < info.swapIndex)))
  {
    hide Scan, ReadEntry, Invalidate;
    var info := Scan(rule, b, slots);
    InvalidateTwice(b, i, slots[i]);
    if info.validCnt > 1 { InvalidatedAt(b, slots, info.swapIndex, i); }
    if info.swapValue != v { InvalidatedAt(b, Cleaned(b, slots, info), info.nextIndex, i); }
  }

  lemma InvalidateTwice(b: BlockId, i: SlotIndex, s: Slot)
    ensures Invalidate(b, i, Invalidate(b, i, s)) == Invalidate(b, i, s)
  {
  }

  lemma InvalidateMeaning(b: BlockId, i: SlotIndex, s: Slot)
    ensures Invalidate(b, i, s)
            == if ReadEntry(b, i, s).Valid? then Slot(s.marker, Programmed(0xFFFF_FFFF, 0xFFFF_FFFF)) else s
  {
  }

  lemma LogAfterAppended(rule: ScanRule, b: BlockId, slots: Slots, v: word)
    requires WellShaped(b, slots) && IsMode(v) && !NoRoomFor(Scan(rule, b, slots), v)
    ensures var now := LogAfter(rule, b, slots, v);
            Appended(b, slots, now, if LatestValue(b, slots) == v then NR_OF_ENTRIES else Used(slots), v)
  {
    ScanWellShaped(rule, b, slots);
    hide Scan, LatestValue, WellShaped, Used, LogAfter, Invalidate, SlotAppended;
    forall i: SlotIndex
      ensures SlotAppended(b, i, slots[i], LogAfter(rule, b, slots, v)[i],
                           if LatestValue(b, slots) == v then NR_OF_ENTRIES else Used(slots), v)
    {
      LogAfterAt(rule, b, slots, v, i);
      SlotCases(b, i, slots[i], LogAfter(rule, b, slots, v)[i],
                if LatestValue(b, slots) == v then NR_OF_ENTRIES else Used(slots), v);
    }
  }

  lemma SlotCases(b: BlockId, i: SlotIndex, was: Slot, now: Slot, m: nat, v: word)
    requires if i == m then now == Slot(MarkerPage(b, i, v), ConfirmationPage(b, i))
             else now == was || (now == Invalidate(b, i, was) && i < m)
    ensures SlotAppended(b, i, was, now, m, v)
  {
    InvalidateMeaning(b, i, was);
    EntryPages(b, i, v);
    hide ReadEntry, Invalidate, MarkerPage, ConfirmationPage;
  }

  lemma EntryPages(b: BlockId, i: SlotIndex, v: word)
    ensures var a := (if b == Orig then 0xAF402E00 else 0xAF403E00) + 16 * i;
            MarkerPage(b, i, v) == Programmed(v, a) && ConfirmationPage(b, i) == Programmed(0x57B5327F, a + 8)
  {
  }

  /** Where a call that does not erase writes: in each log that lacks the new mode, the first free slot
      takes the entry; both confirmation codes stay. */
  lemma AppendsAtFirstFree(rule: ScanRule, f: Flash)
    requires Inv(f) && Paired(f) && Used(f.orig.slots) < 16
    requires Used(f.copy.slots) < 16 || LatestValue(Copy, f.copy.slots) == Flip(BootValue(f))
    ensures var g, target := Run(f, CallOps(rule, f)), Flip(BootValue(f));
            && g.orig.code == f.orig.code && g.copy.code == f.copy.code
            && Appended(Orig, f.orig.slots, g.orig.slots, Used(f.orig.slots), target)
            && Appended(Copy, f.copy.slots, g.copy.slots,
                        if LatestValue(Copy, f.copy.slots) == target then 16 else Used(f.copy.slots), target)
  {
    hide GoodOf, InvOf, SwapLoop, Used, LatestValue, DualOps, AppendTurn, NeedsDual, Run, LogAfter, Appended;
    hide WellShaped;
    var latched := BootValue(f);
    InvGood(f);
    CallOpsAre(rule, f);
    RouteOfTurn(rule, f, latched);
    OneTurn(rule, f, latched);
    OrigLogs(f, latched);
    Appends(rule, f, Flip(latched));
    assert LatestValue(Orig, f.orig.slots) == latched != Flip(latched);
  }

  lemma Appends(rule: ScanRule, f: Flash, target: word)
    requires WellShaped(Orig, f.orig.slots) && WellShaped(Copy, f.copy.slots) && IsMode(target)
    requires !NeedsDual(rule, f, target)
    ensures var g := Run(f, AppendTurn(rule, f, target));
            && g.orig.code == f.orig.code && g.copy.code == f.copy.code
            && Appended(Orig, f.orig.slots, g.orig.slots,
                        if LatestValue(Orig, f.orig.slots) == target then NR_OF_ENTRIES else Used(f.orig.slots), target)
            && Appended(Copy, f.copy.slots, g.copy.slots,
                        if LatestValue(Copy, f.copy.slots) == target then NR_OF_ENTRIES else Used(f.copy.slots), target)
  {
    hide Used, LatestValue, AppendTurn, Run, LogAfter, Appended, WellShaped, Scan;
    AppendTurnEffect(rule, f, target);
    LogAfterAppended(rule, Orig, f.orig.slots, target);
    LogAfterAppended(rule, Copy, f.copy.slots, target);
  }

  // ---- the two scans differ ----

  /** The state of a call after the two page writes of its append to COPY. */
  function CopyAppended(f: Flash): Flash {
    if Used(f.copy.slots) < NR_OF_ENTRIES
    then Run(f, WriteEntryOps(Copy, Used(f.copy.slots), Flip(BootValue(f)))) else f
  }

  /** The scan as written does leave stale entries behind: whenever a call appends to COPY
      first, and power fails right after the two page writes, the next call completes with
      one more valid entry in COPY than there was at the start. */
  lemma StaleEntriesArise(f: Flash)
    requires Inv(f) && Paired(f) && !NeedsDual(AsWritten, f, Flip(BootValue(f)))
    requires LatestValue(Copy, f.copy.slots) == BootValue(f)
    ensures var g := PowerCycles(AsWritten, f, [2]);
            && Inv(g) && LeavesStaleEntries(g)
            && CountIn(Run(g, CallOps(AsWritten, g)), Copy) == CountIn(f, Copy) + 1 > 1
  {
    hide Inv, Run, NeedsDual, LeavesStaleEntries, LatestValue, CallOps, CountIn;
    InvGood(f);
    CutAfterCopyAppend(f);
    InvariantOverRuns(AsWritten, f, [2]);
    var g := CopyAppended(f);
    CopyAppendedIsStale(f);
    InvGood(g);
    StaleStays(g);
  }

  lemma CutAfterCopyAppend(f: Flash)
    requires Inv(f) && Paired(f) && !NeedsDual(AsWritten, f, Flip(BootValue(f)))
    requires LatestValue(Copy, f.copy.slots) == BootValue(f)
    ensures PowerCycles(AsWritten, f, [2]) == CopyAppended(f)
  {
    hide GoodOf, InvOf, Run, NeedsDual, LatestValue, SwapLoop, TurnOf, AppendTurn, WellShaped, Used;
    var latched := BootValue(f);
    AfterReset(AsWritten, f);
    InvGood(f);
    OrigStart(AsWritten, f, latched);
    FirstWrites(f, latched);
    LoopBegins(AsWritten, f, latched);
    var ops := CallOps(AsWritten, f);
    assert ops[..2] == WriteEntryOps(Copy, Used(f.copy.slots), Flip(latched));
    assert [2][1..] == [];
    assert PowerCycles(AsWritten, Run(f, ops[..2]), []) == Run(f, ops[..2]);
  }

  lemma LoopBegins(rule: ScanRule, f: Flash, latched: word)
    requires IsMode(latched) && TurnOf(rule, f, latched).Work?
    ensures TurnOf(rule, f, latched).ops <= SwapLoop(rule, f, latched).ops
  {
  }

  lemma FirstWrites(f: Flash, latched: word)
    requires Good(f, latched) && Paired(f) && BootValue(f) == latched
    requires !NeedsDual(AsWritten, f, Flip(latched)) && LatestValue(Copy, f.copy.slots) == latched
    ensures Used(f.copy.slots) < NR_OF_ENTRIES
    ensures WriteEntryOps(Copy, Used(f.copy.slots), Flip(latched)) <= AppendTurn(AsWritten, f, Flip(latched))
  {
    hide Good, WellShaped, Scan, Used, LatestValue;
    OrigLogs(f, latched);
    ScanWellShaped(AsWritten, Orig, f.orig.slots);
    ScanWellShaped(AsWritten, Copy, f.copy.slots);
    assert forall a: seq<Op> :: [] + a == a;
    assert Run(f, []) == f;
  }

  lemma CopyAppendedState(f: Flash, latched: word)
    requires Good(f, latched) && Paired(f) && BootValue(f) == latched
    requires !NeedsDual(AsWritten, f, Flip(latched)) && LatestValue(Copy, f.copy.slots) == latched
    ensures var g := CopyAppended(f);
            && Good(g, latched) && g.orig == f.orig && g.copy.code == f.copy.code
            && View(Copy, g.copy).latest == Flip(latched)
            && CountIn(g, Copy) == CountIn(f, Copy) + 1 && Used(f.orig.slots) < NR_OF_ENTRIES
  {
    hide CountValid, Run, WellShaped, NeedsDual, View, GoodOf, LatestValue, IsBlank, InvalidateOps, Used;
    FirstWrites(f, latched);
    OrigLogs(f, latched);
    RoomInOrig(f, latched);
    var m := Used(f.copy.slots);
    PairedIsLive(f);
    WriteEntrySafe(f, Copy, Flip(latched), latched);
    WriteEntryEffect(f, Copy, m, Flip(latched));
    SafeEnd(f, WriteEntryOps(Copy, m, Flip(latched)), latched);
    OneMore(f.copy.slots, Flip(latched));
  }

  lemma PairedIsLive(f: Flash)
    requires Paired(f)
    ensures Live(f, Orig) && Live(f, Copy) && View(Copy, f.copy).latest == LatestValue(Copy, f.copy.slots)
  {
  }

  lemma RoomInOrig(f: Flash, latched: word)
    requires Good(f, latched) && Paired(f) && BootValue(f) == latched && !NeedsDual(AsWritten, f, Flip(latched))
    ensures Used(f.orig.slots) < NR_OF_ENTRIES
  {
    OrigStart(AsWritten, f, latched);
  }

  lemma CopyAppendedIsStale(f: Flash)
    requires Inv(f) && Paired(f) && !NeedsDual(AsWritten, f, Flip(BootValue(f)))
    requires LatestValue(Copy, f.copy.slots) == BootValue(f)
    ensures var g := CopyAppended(f);
            && Inv(g) && BootBlock(g) == Some(Orig) && BootValue(g) == BootValue(f)
            && LeavesStaleEntries(g) && CountIn(g, Copy) == CountIn(f, Copy) + 1 > 1
  {
    hide CountValid, GoodOf, InvOf, CopyAppended, NeedsDual, Used;
    var latched := BootValue(f);
    InvGood(f);
    CopyAppendedState(f, latched);
    GoodMeaning(CopyAppended(f), latched);
    CountPositive(Copy, f.copy.slots, NR_OF_ENTRIES);
  }

  lemma OneMore(slots: Slots, v: word)
    requires WellShaped(Copy, slots) && Used(slots) < NR_OF_ENTRIES && IsMode(v)
    ensures var m := Used(slots);
            CountValid(Copy, slots[m := Slot(MarkerPage(Copy, m, v), ConfirmationPage(Copy, m))], NR_OF_ENTRIES)
            == CountValid(Copy, slots, NR_OF_ENTRIES) + 1
  {
    var m := Used(slots);
    var after := slots[m := Slot(MarkerPage(Copy, m, v), ConfirmationPage(Copy, m))];
    assert ReadEntry(Copy, m, after[m]) == Valid(v);
    hide ReadEntry, IsBlank;
    assert forall i: SlotIndex :: m < i ==> after[i] == slots[i];
    CountNone(Copy, slots, m, NR_OF_ENTRIES);
    CountNone(Copy, after, m + 1, NR_OF_ENTRIES);
    CountSame(Copy, slots, after, m);
  }

  lemma StaleStays(f: Flash)
    requires Inv(f) && LeavesStaleEntries(f) && BootBlock(f) == Some(Orig)
    ensures CountIn(Run(f, CallOps(AsWritten, f)), Copy) == CountIn(f, Copy)
  {
    hide GoodOf, InvOf, Run, SwapLoop, NeedsDual, TurnOf, AppendTurn, WellShaped, Used, CountValid, LatestValue;
    var latched := BootValue(f);
    InvGood(f);
    AfterReset(AsWritten, f);
    OrigStart(AsWritten, f, latched);
    CopyAtTarget(AsWritten, f, latched);
    AppendRecovers(AsWritten, f, latched);
    LastTurn(AsWritten, f, latched);
  }

  /** Both blocks confirmed, each with the standard mode in entry 0: a state to which
      `StaleEntriesArise` applies. */
  lemma StandardFlash()
    ensures var f := Flash(FreshBlock(Orig, STANDARD, Confirmed), FreshBlock(Copy, STANDARD, Confirmed));
            && Inv(f) && BootValue(f) == STANDARD && Paired(f)
            && LatestValue(Copy, f.copy.slots) == BootValue(f)
            && !NeedsDual(AsWritten, f, Flip(BootValue(f)))
  {
    FreshProper(Orig, STANDARD, Confirmed);
    FreshProper(Copy, STANDARD, Confirmed);
    FreshScan(AsWritten, Orig, STANDARD, Confirmed);
    FreshScan(AsWritten, Copy, STANDARD, Confirmed);
  }

  // ---- the first state ----

  /** What enabling SOTA may find: a bootable ORIG whose log is blank, or was left by an attempt that
      was cut before the device noticed that SOTA is enabled: entry 0 torn, or complete. */
  predicate SotaStart(f: Flash) {
    && Bootable(f.orig) && View(Orig, f.orig).shaped
    && (|| (Used(f.orig.slots) == 0 && (View(Orig, f.orig).torn == 0 || View(Orig, f.orig).torn == STANDARD))
        || (Used(f.orig.slots) == 1 && View(Orig, f.orig).torn == 0
            && f.orig.slots[0] == Slot(MarkerPage(Orig, 0, STANDARD), ConfirmationPage(Orig, 0))))
    && (Paired(f) ==> View(Copy, f.copy).shaped && Used(f.copy.slots) == 0 && View(Copy, f.copy).torn == 0)
  }

  /** The pages of `test_and_set_STOA` in ORIG, one after the other, from a blank or torn entry 0. */
  lemma EnableSotaBlank(f: Flash)
    requires SotaStart(f) && Used(f.orig.slots) == 0
    ensures var ops := EnableSotaOps();
            var f1 := Apply(f, ops[0]);
            var g := Apply(f1, ops[1]);
            && Disciplined(f, ops[0]) && Disciplined(f1, ops[1])
            && SotaStart(f1) && SotaStart(g) && Inv(g) && BootValue(g) == STANDARD
  {
    var ops := EnableSotaOps();
    MarkerStep(Orig, f.orig, STANDARD);
    var f1 := Apply(f, ops[0]);
    ConfirmStep(Orig, f1.orig);
  }

  /** From a complete entry 0 they change nothing. */
  lemma EnableSotaAgain(f: Flash)
    requires SotaStart(f) && Used(f.orig.slots) == 1
    ensures var ops := EnableSotaOps();
            && Apply(f, ops[0]) == f == Apply(f, ops[1])
            && Disciplined(f, ops[0]) && Disciplined(f, ops[1])
            && Inv(f) && BootValue(f) == STANDARD
  {
    LatestIsLastUsed(Orig, f.orig.slots);
    var s := f.orig.slots;
    assert s[0 := s[0]] == s;
  }

  /** Enabling SOTA establishes the invariant, and the standard mode boots. An attempt that is cut
      after any of its page programs leaves a state from which it can be repeated, as often as it
      takes, and all its page programs are disciplined. */
  lemma EnableSota(f: Flash)
    requires SotaStart(f)
    ensures var ops := EnableSotaOps();
            && (forall k :: 0 <= k <= |ops| ==> SotaStart(Run(f, ops[..k])))
            && (forall k :: 0 <= k < |ops| ==> Disciplined(Run(f, ops[..k]), ops[k]))
            && Inv(Run(f, ops)) && BootValue(Run(f, ops)) == STANDARD
  {
    hide SotaStart, Inv, BootValue, Disciplined, Apply, Run;
    SotaCases(f);
    RunTwo(f, EnableSotaOps());
    if Used(f.orig.slots) == 0 {
      EnableSotaBlank(f);
    } else {
      EnableSotaAgain(f);
    }
  }

  lemma SotaCases(f: Flash)
    requires SotaStart(f)
    ensures Used(f.orig.slots) <= 1
  {
  }
}
