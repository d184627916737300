/** The bank swap as a sequence of flash operations: what one `swap_bank` call programs
    and erases, in order, from any flash content. Power may fail between any two of them. */
module SwapProtocol {
  import opened Words
  import opened SwapLog

  datatype Flash = Flash(orig: Block, copy: Block) {
    function At(b: BlockId): Block {
      match b case Orig => orig case Copy => copy
    }

    function With(b: BlockId, block: Block): Flash {
      match b case Orig => Flash(block, copy) case Copy => Flash(orig, block)
    }
  }

  // ---- primitive operations ----

  datatype Place = Marker(i: SlotIndex) | Confirm(i: SlotIndex) | Code

  datatype Op = Program(b: BlockId, at: Place, page: Page) | Erase(b: BlockId)

  function ErasedBlock(): Block {
    Block(seq(NR_OF_ENTRIES, _ => EMPTY_SLOT), Erased)
  }

  function PageAt(block: Block, at: Place): Page {
    match at
    case Marker(i) => block.slots[i].marker
    case Confirm(i) => block.slots[i].confirm
    case Code => block.code
  }

  function SetPage(block: Block, at: Place, page: Page): Block {
    match at
    case Marker(i) => Block(block.slots[i := Slot(page, block.slots[i].confirm)], block.code)
    case Confirm(i) => Block(block.slots[i := Slot(block.slots[i].marker, page)], block.code)
    case Code => Block(block.slots, page)
  }

  function Apply(f: Flash, op: Op): Flash {
    match op
    case Program(b, at, page) => f.With(b, SetPage(f.At(b), at, page))
    case Erase(b) => f.With(b, ErasedBlock())
  }

  function Run(f: Flash, ops: seq<Op>): Flash
    decreases |ops|
  {
    if ops == [] then f else Run(Apply(f, ops[0]), ops[1..])
  }

  lemma RunNothing(f: Flash)
    ensures Run(f, []) == f
  {
  }

  lemma RunTwo(f: Flash, ops: seq<Op>)
    requires |ops| == 2
    ensures Run(f, ops[..0]) == f && Run(f, ops[..1]) == Apply(f, ops[0])
    ensures Run(f, ops[..2]) == Run(f, ops) == Apply(Apply(f, ops[0]), ops[1])
  {
    assert ops[..0] == [] && ops[..1] == [ops[0]] && ops[..2] == ops;
    assert [ops[0]][1..] == [] && ops[1..][1..] == [];
    var f1 := Apply(f, ops[0]);
    assert Run(f, ops) == Run(f1, ops[1..]) == Run(Apply(f1, ops[1..][0]), []);
  }

  lemma {:induction false} RunConcat(f: Flash, a: seq<Op>, b: seq<Op>)
    ensures Run(f, a + b) == Run(Run(f, a), b)
    decreases |a|
  {
    if a == [] {
      assert a + b == b;
    } else {
      assert (a + b)[0] == a[0] && (a + b)[1..] == a[1..] + b;
      RunConcat(Apply(f, a[0]), a[1..], b);
    }
  }

  // ---- confirmation codes and the boot rule ----

  datatype ConfState = Unlocked | Confirmed | Errored

  function ReadConfirmation(code: Page): ConfState {
    match code
    case Erased => Errored
    case Programmed(lo, _) =>
      if lo == UNLOCKED_CODE then Unlocked else if lo == CONFIRMED_CODE then Confirmed else Errored
  }

  function CodePage(s: ConfState): (p: Page)
    requires !s.Errored?
    ensures ReadConfirmation(p) == s
  {
    Programmed(if s.Unlocked? then UNLOCKED_CODE else CONFIRMED_CODE, 0)
  }

  predicate Bootable(block: Block) {
    !ReadConfirmation(block.code).Errored?
  }

  /** ORIG if it is confirmed or unlocked, else COPY if it is, else nothing boots. */
  function BootBlock(f: Flash): Option<BlockId> {
    if Bootable(f.orig) then Some(Orig) else if Bootable(f.copy) then Some(Copy) else None
  }

  /** The mode that a reset would latch: the latest valid entry of the boot block. */
  function BootValue(f: Flash): word {
    match BootBlock(f)
    case None => 0
    case Some(b) => LatestValue(b, f.At(b).slots)
  }

  /** Both blocks bootable, with the same confirmation state. */
  predicate Paired(f: Flash) {
    Bootable(f.orig) && ReadConfirmation(f.orig.code) == ReadConfirmation(f.copy.code)
  }

  /** The boot rule in numbers: a block boots by its confirmation code, ORIG first; two blocks go
      together when both have the same one of the two codes. */
  lemma BootRule(f: Flash)
    ensures BootBlock(f)
            == if HasCode(f.orig.code) then Some(Orig) else if HasCode(f.copy.code) then Some(Copy) else None
    ensures Paired(f) <==> HasCode(f.orig.code) && HasCode(f.copy.code) && f.orig.code.lo == f.copy.code.lo
  {
  }

  predicate HasCode(p: Page) {
    p.Programmed? && (p.lo == 0x57B5327F || p.lo == 0x43211234)
  }

  /** The code that is written for a state has the word that is read for it. */
  lemma CodeRoundTrip(s: ConfState)
    requires !s.Errored?
    ensures CodePage(s) == Programmed(if s == Confirmed then 0x57B5327F else 0x43211234, 0) && HasCode(CodePage(s))
  {
  }

  // ---- the log operations ----

  function InvalidateOps(b: BlockId, slots: Slots, n: nat): seq<Op>
    requires n <= NR_OF_ENTRIES
  {
    if n == 0 then []
    else
      InvalidateOps(b, slots, n - 1)
      + if ReadEntry(b, n - 1, slots[n - 1]).Valid?
        then [Program(b, Confirm(n - 1), INVALIDATED)] else []
  }

  function WriteEntryOps(b: BlockId, i: SlotIndex, v: word): seq<Op> {
    [Program(b, Marker(i), MarkerPage(b, i, v)), Program(b, Confirm(i), ConfirmationPage(b, i))]
  }

  /** `test_and_set_STOA` writes entry 0 of ORIG with the standard mode. */
  function EnableSotaOps(): seq<Op> {
    WriteEntryOps(Orig, 0, STANDARD)
  }

  /** Write entry `i`, then invalidate the valid entries below it. */
  function SetEntryOps(b: BlockId, slots: Slots, i: SlotIndex, v: word): seq<Op> {
    WriteEntryOps(b, i, v) + InvalidateOps(b, slots, i)
  }

  /** Erase a block and write it anew: entry 0, then the confirmation code. */
  function RewriteOps(b: BlockId, v: word, s: ConfState): seq<Op>
    requires !s.Errored?
  {
    [Erase(b)] + WriteEntryOps(b, 0, v) + [Program(b, Code, CodePage(s))]
  }

  /** The content of a freshly rewritten block. */
  function FreshBlock(b: BlockId, v: word, s: ConfState): Block
    requires !s.Errored?
  {
    Block(ErasedBlock().slots[0 := Slot(MarkerPage(b, 0, v), ConfirmationPage(b, 0))], CodePage(s))
  }

  // ---- the dual password sequence ----

  /** Second half: rebuild ORIG with the value that COPY holds, or with the new value if a
      scan of COPY counts no entry. */
  function SecondHalfOps(rule: ScanRule, f: Flash, target: word): seq<Op>
    requires Bootable(f.copy)
  {
    var info := Scan(rule, Copy, f.copy.slots);
    RewriteOps(Orig, if info.validCnt > 0 then info.swapValue else target, ReadConfirmation(f.copy.code))
  }

  function DualOps(rule: ScanRule, f: Flash, target: word): seq<Op>
    requires BootBlock(f).Some?
  {
    if BootBlock(f) == Some(Copy) then SecondHalfOps(rule, f, target)
    else
      var s := ReadConfirmation(f.orig.code);
      RewriteOps(Copy, target, s) + SecondHalfOps(rule, Flash(f.orig, FreshBlock(Copy, target, s)), target)
  }

  lemma RewriteLeaves(f: Flash, b: BlockId, v: word, s: ConfState)
    requires !s.Errored?
    ensures Run(f, RewriteOps(b, v, s)) == f.With(b, FreshBlock(b, v, s))
  {
    var ops := RewriteOps(b, v, s);
    var f1 := Apply(f, ops[0]);
    var f2 := Apply(f1, ops[1]);
    var f3 := Apply(f2, ops[2]);
    var f4 := Apply(f3, ops[3]);
    assert ops[1..][1..][1..][1..] == [];
    assert Run(f, ops) == Run(f1, ops[1..]) == Run(f2, ops[1..][1..])
        == Run(f3, ops[1..][1..][1..]) == Run(f4, ops[1..][1..][1..][1..]) == f4;
    assert f4.At(b).slots == FreshBlock(b, v, s).slots;
  }

  // ---- one turn of the swap_bank loop ----

  /** Leave with success, leave with an error, or perform flash operations and look again. */
  datatype Turn = Done | Failed | Work(ops: seq<Op>)

  predicate AlreadySet(info: BlockInfo, target: word) {
    info.swapIndex < NR_OF_ENTRIES && info.swapValue == target && info.validCnt == 1
  }

  predicate NoRoomFor(info: BlockInfo, target: word) {
    info.nextIndex >= NR_OF_ENTRIES && info.swapValue != target
  }

  function CleanOps(b: BlockId, slots: Slots, info: BlockInfo): seq<Op>
    requires info.validCnt > 1 ==> info.swapIndex < NR_OF_ENTRIES
  {
    if info.validCnt > 1 then InvalidateOps(b, slots, info.swapIndex) else []
  }

  function AddOps(b: BlockId, slots: Slots, info: BlockInfo, target: word): seq<Op>
    requires !NoRoomFor(info, target)
  {
    if info.swapValue != target then SetEntryOps(b, slots, info.nextIndex, target) else []
  }

  /** Both blocks are good: clean both logs, then append where the value is not set yet,
      COPY first. */
  function AppendTurn(rule: ScanRule, f: Flash, target: word): seq<Op>
    requires !NoRoomFor(Scan(rule, Orig, f.orig.slots), target)
    requires !NoRoomFor(Scan(rule, Copy, f.copy.slots), target)
  {
    var oi, ci := Scan(rule, Orig, f.orig.slots), Scan(rule, Copy, f.copy.slots);
    var clean := CleanOps(Orig, f.orig.slots, oi) + CleanOps(Copy, f.copy.slots, ci);
    var f' := Run(f, clean);
    clean + AddOps(Copy, f'.copy.slots, ci, target) + AddOps(Orig, f'.orig.slots, oi, target)
  }

  /** Both blocks are good and hold the new value in exactly one entry. */
  predicate Finished(rule: ScanRule, f: Flash, target: word) {
    && Paired(f)
    && AlreadySet(Scan(rule, Orig, f.orig.slots), target)
    && AlreadySet(Scan(rule, Copy, f.copy.slots), target)
  }

  /** A block has to be rebuilt, or a log that lacks the new value has no room for it. */
  predicate NeedsDual(rule: ScanRule, f: Flash, target: word) {
    || !Paired(f)
    || NoRoomFor(Scan(rule, Orig, f.orig.slots), target)
    || NoRoomFor(Scan(rule, Copy, f.copy.slots), target)
  }

  function WorkOps(rule: ScanRule, f: Flash, target: word): seq<Op>
    requires BootBlock(f).Some?
  {
    if NeedsDual(rule, f, target) then DualOps(rule, f, target) else AppendTurn(rule, f, target)
  }

  /** `latched` is the mode latched at the last reset, as SCU_SWAPCTRL.ADDRCFG shows it. */
  function TurnOf(rule: ScanRule, f: Flash, latched: word): Turn {
    var target := Flip(latched);
    if BootBlock(f) == None then Failed
    else if Finished(rule, f, target) then Done
    else Work(WorkOps(rule, f, target))
  }
}
