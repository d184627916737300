/** What every flash state of every `swap_bank` call keeps, whatever the power failures. */
module SwapSafety {
  import opened Words
  import opened SwapLog
  import opened SwapProtocol
  import opened SwapCall

  // ---- what matters about a block ----

  /** The confirmation state, whether the log is well shaped, whether it has an entry, the
      latest value, and the mode in the marker of a torn entry (0 if none is torn). */
  datatype LogView = LogView(conf: ConfState, shaped: bool, any: bool, latest: word, torn: word) {
    predicate Bootable() {
      !conf.Errored?
    }
  }

  function View(b: BlockId, block: Block): LogView {
    var m := Used(block.slots);
    LogView(ReadConfirmation(block.code), WellShaped(b, block.slots), m > 0, LatestValue(b, block.slots),
            if m < NR_OF_ENTRIES && block.slots[m].marker.Programmed? then block.slots[m].marker.lo else 0)
  }

  // ---- the invariant between calls ----

  /** A torn entry can only be completed by writing the mode that the next call aims at,
      and it sits only in a log that does not hold that mode yet. */
  predicate LogOk(l: LogView, boot: word) {
    l.shaped && (l.torn != 0 ==> l.torn == Flip(boot) && l.latest != l.torn)
  }

  function Boots(o: LogView, c: LogView): LogView {
    if o.Bootable() then o else c
  }

  /** COPY counts while it matches a bootable ORIG, or boots itself. */
  predicate CopyLive(o: LogView, c: LogView) {
    c.Bootable() && (o.Bootable() ==> o.conf == c.conf)
  }

  predicate InvOf(o: LogView, c: LogView) {
    && Boots(o, c).Bootable()
    && Boots(o, c).any
    && LogOk(Boots(o, c), Boots(o, c).latest)
    && (CopyLive(o, c) ==> LogOk(c, Boots(o, c).latest))
  }

  /** What holds at every reset: some block boots, from a valid entry, and the blocks that
      count are well shaped. COPY may still have an empty log while ORIG boots. */
  predicate Inv(f: Flash) {
    InvOf(View(Orig, f.orig), View(Copy, f.copy))
  }

  predicate CopyHoldsOf(o: LogView, c: LogView, v: word) {
    CopyLive(o, c) && c.any && c.latest == v
  }

  /** COPY is confirmed like ORIG, or in place of it, and its latest entry is `v`. */
  predicate CopyHolds(f: Flash, v: word) {
    CopyHoldsOf(View(Orig, f.orig), View(Copy, f.copy), v)
  }

  predicate GoodOf(o: LogView, c: LogView, latched: word) {
    var boot := Boots(o, c).latest;
    && InvOf(o, c)
    && IsMode(latched)
    && (boot == latched || boot == Flip(latched))
    && (boot != latched ==> CopyHoldsOf(o, c, boot))
  }

  /** What holds at every moment of a call that began with `latched`: the invariant, a boot
      value that is the old or the new one, and COPY before ORIG. */
  predicate Good(f: Flash, latched: word) {
    GoodOf(View(Orig, f.orig), View(Copy, f.copy), latched)
  }

  lemma GoodMeaning(f: Flash, latched: word)
    requires Good(f, latched)
    ensures Inv(f) && BootBlock(f).Some? && IsMode(BootValue(f))
    ensures BootValue(f) == Boots(View(Orig, f.orig), View(Copy, f.copy)).latest
    ensures BootValue(f) == latched || BootValue(f) == Flip(latched)
    ensures BootValue(f) != latched ==> CopyHolds(f, BootValue(f))
  {
    hide WellShaped, Used, LatestValue, IsBlank;
  }

  // ---- traces ----

  /** A page may be programmed when it is erased, with its own content, or with all ones. */
  predicate Disciplined(f: Flash, op: Op) {
    op.Program? ==> var was := PageAt(f.At(op.b), op.at);
                    was == Erased || was == op.page || op.page == INVALIDATED
  }

  /** The trace of `ops` from `f`: good at every moment, every program operation
      disciplined, and the boot value never back from new to old. */
  predicate Safe(f: Flash, ops: seq<Op>, latched: word)
    decreases |ops|
  {
    && Good(f, latched)
    && (ops != [] ==>
          && Disciplined(f, ops[0])
          && (BootValue(f) != latched ==> BootValue(Apply(f, ops[0])) == BootValue(f))
          && Safe(Apply(f, ops[0]), ops[1..], latched))
  }

  lemma {:induction false} SafeConcat(f: Flash, a: seq<Op>, b: seq<Op>, latched: word)
    requires Safe(f, a, latched) && Safe(Run(f, a), b, latched)
    ensures Safe(f, a + b, latched)
    decreases |a|
  {
    hide Good, Disciplined, BootValue, Apply;
    if a == [] {
      assert a + b == b;
    } else {
      assert (a + b)[0] == a[0] && (a + b)[1..] == a[1..] + b;
      SafeConcat(Apply(f, a[0]), a[1..], b, latched);
    }
  }

  lemma SafeOne(f: Flash, op: Op, latched: word)
    requires Good(f, latched) && Disciplined(f, op) && Good(Apply(f, op), latched)
    requires BootValue(f) != latched ==> BootValue(Apply(f, op)) == BootValue(f)
    ensures Safe(f, [op], latched) && Run(f, [op]) == Apply(f, op)
  {
    hide Good, Disciplined, BootValue, Apply;
    assert [op][1..] == [];
    assert Safe(Apply(f, op), [], latched);
  }

  lemma {:induction false} SafePrefix(f: Flash, ops: seq<Op>, latched: word, k: nat)
    requires Safe(f, ops, latched) && k <= |ops|
    ensures Safe(Run(f, ops[..k]), ops[k..], latched) && Good(Run(f, ops[..k]), latched)
    ensures BootValue(f) != latched ==> BootValue(Run(f, ops[..k])) == BootValue(f)
    decreases k
  {
    hide Good, Disciplined, BootValue, Apply;
    if k == 0 {
      assert ops[k..] == ops;
    } else {
      assert ops[..k][0] == ops[0] && ops[..k][1..] == ops[1..][..k - 1] && ops[k..] == ops[1..][k - 1..];
      SafePrefix(Apply(f, ops[0]), ops[1..], latched, k - 1);
    }
  }

  lemma SafeMonotone(f: Flash, ops: seq<Op>, latched: word, j: nat, k: nat)
    requires Safe(f, ops, latched) && j <= k <= |ops|
    ensures BootValue(Run(f, ops[..j])) != latched ==> BootValue(Run(f, ops[..k])) == BootValue(Run(f, ops[..j]))
  {
    hide Good, Safe, BootValue, Run;
    SafePrefix(f, ops, latched, j);
    SafePrefix(Run(f, ops[..j]), ops[j..], latched, k - j);
    RunConcat(f, ops[..j], ops[j..][..k - j]);
    assert ops[..j] + ops[j..][..k - j] == ops[..k];
  }

  lemma SafeEnd(f: Flash, ops: seq<Op>, latched: word)
    requires Safe(f, ops, latched)
    ensures Good(Run(f, ops), latched)
    ensures BootValue(f) != latched ==> BootValue(Run(f, ops)) == BootValue(f)
  {
    SafePrefix(f, ops, latched, |ops|);
    assert ops[..|ops|] == ops;
  }

  // ---- one page at a time ----

  lemma SameLatest(b: BlockId, s: Slots, t: Slots)
    requires WellShaped(b, s) && WellShaped(b, t) && Used(s) == Used(t)
    requires Used(s) > 0 ==> s[Used(s) - 1] == t[Used(s) - 1]
    ensures LatestValue(b, s) == LatestValue(b, t)
  {
    hide ReadEntry, WellShaped;
    LatestIsLastUsed(b, s);
    LatestIsLastUsed(b, t);
  }

  lemma MarkerShape(b: BlockId, slots: Slots, v: word)
    requires WellShaped(b, slots) && IsMode(v) && Used(slots) < NR_OF_ENTRIES
    requires var s := slots[Used(slots)]; s == EMPTY_SLOT || IsTorn(b, Used(slots), s, v)
    ensures var m := Used(slots);
            var after := slots[m := Slot(MarkerPage(b, m, v), slots[m].confirm)];
            WellShaped(b, after) && Used(after) == m && IsTorn(b, m, after[m], v)
  {
    hide ReadEntry;
    var m := Used(slots);
    UsedIs(slots[m := Slot(MarkerPage(b, m, v), slots[m].confirm)], m);
  }

  lemma MarkerStep(b: BlockId, block: Block, v: word)
    requires View(b, block).shaped && IsMode(v) && Used(block.slots) < NR_OF_ENTRIES
    requires View(b, block).torn == 0 || View(b, block).torn == v
    ensures var m := Used(block.slots);
            var after := SetPage(block, Marker(m), MarkerPage(b, m, v));
            && View(b, after) == View(b, block).(torn := v)
            && Used(after.slots) == m
            && (block.slots[m].marker == Erased || block.slots[m].marker == MarkerPage(b, m, v))
            && after.slots[m].confirm == Erased
  {
    hide ReadEntry, IsBlank;
    var m := Used(block.slots);
    assert block.slots[m] == EMPTY_SLOT || IsTorn(b, m, block.slots[m], v);
    MarkerShape(b, block.slots, v);
    hide WellShaped;
    SameLatest(b, block.slots, SetPage(block, Marker(m), MarkerPage(b, m, v)).slots);
  }

  lemma ConfirmShape(b: BlockId, slots: Slots, v: word)
    requires WellShaped(b, slots) && Used(slots) < NR_OF_ENTRIES && IsTorn(b, Used(slots), slots[Used(slots)], v)
    ensures var m := Used(slots);
            var after := slots[m := Slot(slots[m].marker, ConfirmationPage(b, m))];
            WellShaped(b, after) && Used(after) == m + 1 && LatestValue(b, after) == v
            && (m + 1 < NR_OF_ENTRIES ==> after[m + 1] == EMPTY_SLOT)
  {
    var m := Used(slots);
    var after := slots[m := Slot(slots[m].marker, ConfirmationPage(b, m))];
    assert forall i: SlotIndex :: m < i ==> after[i] == slots[i] == EMPTY_SLOT;
    assert ReadEntry(b, m, after[m]) == Valid(v);
    hide ReadEntry, IsTorn;
    UsedIs(after, m + 1);
    assert WellShaped(b, after);
    LatestIsLastUsed(b, after);
  }

  lemma ConfirmStep(b: BlockId, block: Block)
    requires View(b, block).shaped && View(b, block).torn != 0
    ensures var m := Used(block.slots);
            m < NR_OF_ENTRIES
            && var after := SetPage(block, Confirm(m), ConfirmationPage(b, m));
            && View(b, after) == LogView(View(b, block).conf, true, true, View(b, block).torn, 0)
            && Used(after.slots) == m + 1
            && block.slots[m].confirm == Erased
  {
    hide ReadEntry, IsBlank;
    var m := Used(block.slots);
    assert IsTorn(b, m, block.slots[m], View(b, block).torn);
    ConfirmShape(b, block.slots, View(b, block).torn);
  }

  lemma InvalidateShape(b: BlockId, slots: Slots, i: SlotIndex)
    requires WellShaped(b, slots) && i + 1 < Used(slots)
    ensures var after := slots[i := Slot(slots[i].marker, INVALIDATED)];
            WellShaped(b, after) && Used(after) == Used(slots)
  {
    hide ReadEntry;
    UsedIs(slots[i := Slot(slots[i].marker, INVALIDATED)], Used(slots));
  }

  lemma InvalidateStep(b: BlockId, block: Block, i: SlotIndex)
    requires View(b, block).shaped && i + 1 < Used(block.slots)
    ensures var after := SetPage(block, Confirm(i), INVALIDATED);
            View(b, after) == View(b, block) && Used(after.slots) == Used(block.slots)
  {
    hide ReadEntry, IsBlank, WellShaped;
    InvalidateShape(b, block.slots, i);
    SameLatest(b, block.slots, SetPage(block, Confirm(i), INVALIDATED).slots);
  }

  // ---- the log operations ----

  /** `b` counts in `f`. */
  predicate Live(f: Flash, b: BlockId) {
    if b == Orig then View(Orig, f.orig).Bootable() else CopyLive(View(Orig, f.orig), View(Copy, f.copy))
  }

  lemma {:induction false} InvalidateSafe(f: Flash, b: BlockId, n: nat, latched: word)
    requires Good(f, latched) && View(b, f.At(b)).shaped && n < Used(f.At(b).slots)
    ensures var ops := InvalidateOps(b, f.At(b).slots, n);
            var g := Run(f, ops);
            && Safe(f, ops, latched) && g == f.With(b, g.At(b))
            && View(b, g.At(b)) == View(b, f.At(b)) && Used(g.At(b).slots) == Used(f.At(b).slots)
  {
    hide View, Good, BootValue, Used, Disciplined, ReadEntry;
    var slots := f.At(b).slots;
    if n > 0 {
      var i: SlotIndex := n - 1;
      var ops := InvalidateOps(b, slots, i);
      InvalidateSafe(f, b, i, latched);
      var g := Run(f, ops);
      if ReadEntry(b, i, slots[i]).Valid? {
        var op := Program(b, Confirm(i), INVALIDATED);
        SafeEnd(f, ops, latched);
        InvalidateOneSafe(g, b, i, latched);
        RunConcat(f, ops, [op]);
        SafeConcat(f, ops, [op], latched);
      } else {
        assert InvalidateOps(b, slots, n) == ops + [] == ops;
      }
    }
  }

  lemma InvalidateOneSafe(f: Flash, b: BlockId, i: SlotIndex, latched: word)
    requires Good(f, latched) && View(b, f.At(b)).shaped && i + 1 < Used(f.At(b).slots)
    ensures var ops := [Program(b, Confirm(i), INVALIDATED)];
            var g := Run(f, ops);
            && Safe(f, ops, latched) && g == f.With(b, g.At(b))
            && View(b, g.At(b)) == View(b, f.At(b)) && Used(g.At(b).slots) == Used(f.At(b).slots)
  {
    hide View, GoodOf;
    var op := Program(b, Confirm(i), INVALIDATED);
    InvalidateStep(b, f.At(b), i);
    SameViewsSameBoot(f, Apply(f, op), latched);
    SafeOne(f, op, latched);
  }

  lemma SameViewsSameBoot(f: Flash, g: Flash, latched: word)
    requires Good(f, latched)
    requires View(Orig, f.orig) == View(Orig, g.orig) && View(Copy, f.copy) == View(Copy, g.copy)
    ensures Good(g, latched) && BootValue(g) == BootValue(f)
  {
    GoodMeaning(f, latched);
    GoodMeaning(g, latched);
  }

  /** The marker of an append, while the boot value is still the old one. */
  lemma WriteMarkerSafe(f: Flash, b: BlockId, v: word, latched: word)
    requires Good(f, latched) && Live(f, b) && v == Flip(latched) && BootValue(f) == latched
    requires Used(f.At(b).slots) < NR_OF_ENTRIES && View(b, f.At(b)).latest != v
    ensures var m := Used(f.At(b).slots);
            var op := Program(b, Marker(m), MarkerPage(b, m, v));
            var g := Apply(f, op);
            && Safe(f, [op], latched) && Good(g, latched) && BootValue(g) == latched
            && View(b, g.At(b)) == View(b, f.At(b)).(torn := v) && Used(g.At(b).slots) == m
  {
    hide View, IsBlank;
    var m := Used(f.At(b).slots);
    var op := Program(b, Marker(m), MarkerPage(b, m, v));
    GoodMeaning(f, latched);
    MarkerStep(b, f.At(b), v);
    GoodMeaning(Apply(f, op), latched);
    SafeOne(f, op, latched);
  }

  /** The confirmation of an append: in ORIG, it is what switches the boot value. */
  lemma WriteConfirmSafe(f: Flash, b: BlockId, v: word, latched: word)
    requires Good(f, latched) && Live(f, b) && v == Flip(latched) && BootValue(f) == latched
    requires View(b, f.At(b)).torn == v
    requires b == Orig ==> CopyHolds(f, v)
    ensures var m := Used(f.At(b).slots);
            m < NR_OF_ENTRIES
            && var op := Program(b, Confirm(m), ConfirmationPage(b, m));
            var g := Apply(f, op);
            && Safe(f, [op], latched) && Good(g, latched)
            && View(b, g.At(b)) == LogView(View(b, f.At(b)).conf, true, true, v, 0)
            && Used(g.At(b).slots) == m + 1
  {
    hide View, IsBlank;
    GoodMeaning(f, latched);
    ConfirmStep(b, f.At(b));
    var m := Used(f.At(b).slots);
    var op := Program(b, Confirm(m), ConfirmationPage(b, m));
    GoodMeaning(Apply(f, op), latched);
    SafeOne(f, op, latched);
  }

  lemma WriteEntrySafe(f: Flash, b: BlockId, v: word, latched: word)
    requires Good(f, latched) && Live(f, b) && v == Flip(latched) && BootValue(f) == latched
    requires Used(f.At(b).slots) < NR_OF_ENTRIES && View(b, f.At(b)).latest != v
    requires b == Orig ==> CopyHolds(f, v)
    ensures var m := Used(f.At(b).slots);
            var ops := WriteEntryOps(b, m, v);
            var g := Run(f, ops);
            && Safe(f, ops, latched) && g == f.With(b, g.At(b))
            && View(b, g.At(b)) == LogView(View(b, f.At(b)).conf, true, true, v, 0)
            && Used(g.At(b).slots) == m + 1
  {
    hide View, IsBlank, GoodOf;
    var m := Used(f.At(b).slots);
    var ops := WriteEntryOps(b, m, v);
    WriteMarkerSafe(f, b, v, latched);
    var g := Apply(f, ops[0]);
    WriteConfirmSafe(g, b, v, latched);
    assert ops == [ops[0]] + [ops[1]];
    assert Run(f, [ops[0]]) == g && Run(g, [ops[1]]) == Apply(g, ops[1]) by {
      assert [ops[0]][1..] == [] == [ops[1]][1..];
    }
    SafeConcat(f, [ops[0]], [ops[1]], latched);
    RunConcat(f, [ops[0]], [ops[1]]);
  }

  /** A whole `set_swap_entry`. */
  lemma SetEntrySafe(f: Flash, b: BlockId, v: word, latched: word)
    requires Good(f, latched) && Live(f, b) && v == Flip(latched) && BootValue(f) == latched
    requires Used(f.At(b).slots) < NR_OF_ENTRIES && View(b, f.At(b)).latest != v
    requires b == Orig ==> CopyHolds(f, v)
    ensures var ops := SetEntryOps(b, f.At(b).slots, Used(f.At(b).slots), v);
            var g := Run(f, ops);
            && Safe(f, ops, latched) && g == f.With(b, g.At(b))
            && View(b, g.At(b)) == LogView(View(b, f.At(b)).conf, true, true, v, 0)
  {
    hide View, IsBlank, GoodOf;
    var slots := f.At(b).slots;
    var m := Used(slots);
    var write, sweep := WriteEntryOps(b, m, v), InvalidateOps(b, slots, m);
    WriteEntrySafe(f, b, v, latched);
    var g := Run(f, write);
    SafeEnd(f, write, latched);
    WriteEntryEffect(f, b, m, v);
    InvalidateOpsFrame(b, slots, m, g.At(b).slots[m], m);
    InvalidateSafe(g, b, m, latched);
    SafeConcat(f, write, sweep, latched);
    RunConcat(f, write, sweep);
  }

  // ---- the dual password sequence ----

  /** A block while it is rewritten: erased, marker written, entry complete, confirmed. */
  function Rewriting(b: BlockId, v: word, s: ConfState, step: nat): Block
    requires !s.Errored? && step < 4
  {
    var marked := SetPage(ErasedBlock(), Marker(0), MarkerPage(b, 0, v));
    var entered := SetPage(marked, Confirm(0), ConfirmationPage(b, 0));
    if step == 0 then ErasedBlock()
    else if step == 1 then marked
    else if step == 2 then entered
    else SetPage(entered, Code, CodePage(s))
  }

  lemma RewritingViews(b: BlockId, v: word, s: ConfState)
    requires !s.Errored? && IsMode(v)
    ensures View(b, Rewriting(b, v, s, 0)) == LogView(Errored, true, false, 0, 0)
    ensures View(b, Rewriting(b, v, s, 1)) == LogView(Errored, true, false, 0, v)
    ensures View(b, Rewriting(b, v, s, 2)) == LogView(Errored, true, true, v, 0)
    ensures View(b, Rewriting(b, v, s, 3)) == LogView(s, true, true, v, 0)
  {
    hide View;
    var e2 := Rewriting(b, v, s, 2);
    ErasedView(b);
    MarkedView(b, v);
    EnteredView(b, v);
    CodeView(b, e2, s);
  }

  lemma MarkedView(b: BlockId, v: word)
    requires IsMode(v)
    ensures var marked := SetPage(ErasedBlock(), Marker(0), MarkerPage(b, 0, v));
            View(b, marked) == LogView(Errored, true, false, 0, v) && Used(marked.slots) == 0
  {
    hide View;
    ErasedView(b);
    MarkerStep(b, ErasedBlock(), v);
  }

  lemma EnteredView(b: BlockId, v: word)
    requires IsMode(v)
    ensures var marked := SetPage(ErasedBlock(), Marker(0), MarkerPage(b, 0, v));
            View(b, SetPage(marked, Confirm(0), ConfirmationPage(b, 0))) == LogView(Errored, true, true, v, 0)
  {
    hide View;
    MarkedView(b, v);
    ConfirmStep(b, SetPage(ErasedBlock(), Marker(0), MarkerPage(b, 0, v)));
  }

  lemma ErasedView(b: BlockId)
    ensures View(b, ErasedBlock()) == LogView(Errored, true, false, 0, 0) && Used(ErasedBlock().slots) == 0
  {
    UsedIs(ErasedBlock().slots, 0);
    LatestIsLastUsed(b, ErasedBlock().slots);
  }

  lemma CodeView(b: BlockId, block: Block, s: ConfState)
    requires !s.Errored?
    ensures View(b, SetPage(block, Code, CodePage(s))) == View(b, block).(conf := s)
  {
  }

  /** What the state must be for `b` to be rewritten with `v` and the confirmation state `s`. */
  predicate MayRewrite(o: LogView, c: LogView, b: BlockId, v: word, s: ConfState, latched: word) {
    var boot := Boots(o, c).latest;
    match b
    case Copy => o.Bootable() && s == o.conf && boot == latched && v == Flip(latched)
    case Orig => CopyLive(o, c) && s == c.conf && c.any && v == c.latest
                 && LogOk(c, v) && (boot == v || (boot == latched && v == Flip(latched)))
  }

  /** With `b` dead or freshly rewritten, the state is good; once `b` is ORIG, `v` boots. */
  lemma RewriteStep(f: Flash, g: Flash, b: BlockId, v: word, s: ConfState, step: nat, latched: word)
    requires Good(f, latched) && !s.Errored? && step < 4
    requires MayRewrite(View(Orig, f.orig), View(Copy, f.copy), b, v, s, latched)
    requires g == f.With(b, Rewriting(b, v, s, step))
    ensures Good(g, latched)
    ensures BootValue(g) == if b == Orig then v else latched
  {
    hide View, Rewriting;
    GoodMeaning(f, latched);
    RewritingViews(b, v, s);
    GoodMeaning(g, latched);
  }

  lemma RewriteFirstBoot(f: Flash, b: BlockId, v: word, s: ConfState, latched: word)
    requires Good(f, latched)
    requires MayRewrite(View(Orig, f.orig), View(Copy, f.copy), b, v, s, latched)
    ensures IsMode(v)
    ensures BootValue(f) != latched ==> b == Orig && BootValue(f) == v
  {
    hide View;
    GoodMeaning(f, latched);
  }

  lemma RewriteSafe(f: Flash, b: BlockId, v: word, s: ConfState, latched: word)
    requires Good(f, latched) && !s.Errored?
    requires MayRewrite(View(Orig, f.orig), View(Copy, f.copy), b, v, s, latched)
    ensures Safe(f, RewriteOps(b, v, s), latched)
    ensures Run(f, RewriteOps(b, v, s)) == f.With(b, FreshBlock(b, v, s))
    ensures View(b, FreshBlock(b, v, s)) == LogView(s, true, true, v, 0)
  {
    hide View, GoodOf, IsBlank, MayRewrite;
    var ops := RewriteOps(b, v, s);
    RewriteFirstBoot(f, b, v, s, latched);
    RewriteLeaves(f, b, v, s);
    assert FreshBlock(b, v, s).slots == Rewriting(b, v, s, 3).slots;
    RewritingViews(b, v, s);
    var f0 := Apply(f, ops[0]);
    var f1 := Apply(f0, ops[1]);
    var f2 := Apply(f1, ops[2]);
    var f3 := Apply(f2, ops[3]);
    RewriteStep(f, f0, b, v, s, 0, latched);
    RewriteStep(f, f1, b, v, s, 1, latched);
    RewriteStep(f, f2, b, v, s, 2, latched);
    RewriteStep(f, f3, b, v, s, 3, latched);
    SafeOne(f, ops[0], latched);
    SafeOne(f0, ops[1], latched);
    SafeOne(f1, ops[2], latched);
    SafeOne(f2, ops[3], latched);
    SafeConcat(f1, [ops[2]], [ops[3]], latched);
    SafeConcat(f0, [ops[1]], [ops[2]] + [ops[3]], latched);
    SafeConcat(f, [ops[0]], [ops[1]] + ([ops[2]] + [ops[3]]), latched);
    assert ops == [ops[0]] + ([ops[1]] + ([ops[2]] + [ops[3]]));
  }

  lemma DualSafe(rule: ScanRule, f: Flash, latched: word)
    requires Good(f, latched)
    requires Bootable(f.orig) ==> BootValue(f) == latched
    ensures Safe(f, DualOps(rule, f, Flip(latched)), latched)
  {
    hide IsBlank, WellShaped;
    var target := Flip(latched);
    GoodMeaning(f, latched);
    if BootBlock(f) == Some(Copy) {
      SecondHalfSafe(rule, f, latched);
    } else {
      var s := ReadConfirmation(f.orig.code);
      RewriteSafe(f, Copy, target, s, latched);
      var g := Flash(f.orig, FreshBlock(Copy, target, s));
      SafeEnd(f, RewriteOps(Copy, target, s), latched);
      GoodMeaning(g, latched);
      SecondHalfSafe(rule, g, latched);
      SafeConcat(f, RewriteOps(Copy, target, s), SecondHalfOps(rule, g, target), latched);
    }
  }

  lemma SecondHalfSafe(rule: ScanRule, f: Flash, latched: word)
    requires Good(f, latched)
    requires var o, c := View(Orig, f.orig), View(Copy, f.copy);
             CopyLive(o, c) && c.any && LogOk(c, c.latest)
             && (o.Bootable() ==> o.latest == latched && c.latest == Flip(latched))
    ensures Safe(f, SecondHalfOps(rule, f, Flip(latched)), latched)
  {
    GoodMeaning(f, latched);
    ScanWellShaped(rule, Copy, f.copy.slots);
    RewriteSafe(f, Orig, View(Copy, f.copy).latest, ReadConfirmation(f.copy.code), latched);
  }

  // ---- one turn, one call ----

  lemma CleanSafe(rule: ScanRule, f: Flash, b: BlockId, latched: word)
    requires Good(f, latched) && View(b, f.At(b)).shaped
    ensures var info := Scan(rule, b, f.At(b).slots);
            var ops := CleanOps(b, f.At(b).slots, info);
            var g := Run(f, ops);
            && Safe(f, ops, latched) && g == f.With(b, g.At(b))
            && View(b, g.At(b)) == View(b, f.At(b)) && Used(g.At(b).slots) == Used(f.At(b).slots)
  {
    hide GoodOf;
    var info := Scan(rule, b, f.At(b).slots);
    ScanWellShaped(rule, b, f.At(b).slots);
    if info.validCnt > 1 {
      InvalidateSafe(f, b, info.swapIndex, latched);
    }
  }

  lemma AddSafe(f: Flash, b: BlockId, info: BlockInfo, latched: word)
    requires Good(f, latched) && Live(f, b) && !NoRoomFor(info, Flip(latched))
    requires info.swapValue == View(b, f.At(b)).latest
    requires info.nextIndex == (if Used(f.At(b).slots) < NR_OF_ENTRIES then Used(f.At(b).slots) else SENTINEL)
    requires info.swapValue != Flip(latched) ==> BootValue(f) == latched
    requires b == Orig ==> CopyHolds(f, Flip(latched))
    ensures var ops := AddOps(b, f.At(b).slots, info, Flip(latched));
            var g := Run(f, ops);
            && Safe(f, ops, latched) && g == f.With(b, g.At(b))
            && (info.swapValue == Flip(latched) ==> g == f)
            && (info.swapValue != Flip(latched) ==>
                  View(b, g.At(b)) == LogView(View(b, f.At(b)).conf, true, true, Flip(latched), 0))
  {
    hide View, GoodOf;
    if info.swapValue != Flip(latched) {
      SetEntrySafe(f, b, Flip(latched), latched);
    }
  }

  /** Both logs cleaned: nothing that counts has changed. */
  lemma CleanBothSafe(rule: ScanRule, f: Flash, latched: word)
    requires Good(f, latched) && View(Orig, f.orig).shaped && View(Copy, f.copy).shaped
    ensures var ops := CleanOps(Orig, f.orig.slots, Scan(rule, Orig, f.orig.slots))
                       + CleanOps(Copy, f.copy.slots, Scan(rule, Copy, f.copy.slots));
            var g := Run(f, ops);
            && Safe(f, ops, latched) && Good(g, latched)
            && View(Orig, g.orig) == View(Orig, f.orig) && Used(g.orig.slots) == Used(f.orig.slots)
            && View(Copy, g.copy) == View(Copy, f.copy) && Used(g.copy.slots) == Used(f.copy.slots)
  {
    hide Good, View, Used, CleanOps;
    var a := CleanOps(Orig, f.orig.slots, Scan(rule, Orig, f.orig.slots));
    var b := CleanOps(Copy, f.copy.slots, Scan(rule, Copy, f.copy.slots));
    CleanSafe(rule, f, Orig, latched);
    var f1 := Run(f, a);
    SafeEnd(f, a, latched);
    CleanSafe(rule, f1, Copy, latched);
    SafeEnd(f1, b, latched);
    SafeConcat(f, a, b, latched);
    RunConcat(f, a, b);
  }

  /** What the two appends rely on. */
  predicate ReadyToAdd(f: Flash, oi: BlockInfo, ci: BlockInfo, latched: word) {
    && Good(f, latched)
    && Live(f, Orig) && Live(f, Copy)
    && !NoRoomFor(oi, Flip(latched)) && !NoRoomFor(ci, Flip(latched))
    && oi.swapValue == View(Orig, f.orig).latest && ci.swapValue == View(Copy, f.copy).latest
    && oi.nextIndex == (if Used(f.orig.slots) < NR_OF_ENTRIES then Used(f.orig.slots) else SENTINEL)
    && ci.nextIndex == (if Used(f.copy.slots) < NR_OF_ENTRIES then Used(f.copy.slots) else SENTINEL)
    && (ci.swapValue == Flip(latched) ==> View(Copy, f.copy).any)
  }

  lemma AddBothSafe(f: Flash, oi: BlockInfo, ci: BlockInfo, latched: word)
    requires ReadyToAdd(f, oi, ci, latched)
    ensures Safe(f, AddOps(Copy, f.copy.slots, ci, Flip(latched)) + AddOps(Orig, f.orig.slots, oi, Flip(latched)),
                 latched)
  {
    hide View, Used, AddOps;
    var target := Flip(latched);
    var c, d := AddOps(Copy, f.copy.slots, ci, target), AddOps(Orig, f.orig.slots, oi, target);
    GoodMeaning(f, latched);
    AddSafe(f, Copy, ci, latched);
    var g := Run(f, c);
    SafeEnd(f, c, latched);
    GoodMeaning(g, latched);
    AddSafe(g, Orig, oi, latched);
    SafeConcat(f, c, d, latched);
  }

  lemma AppendTurnSafe(rule: ScanRule, f: Flash, latched: word)
    requires Good(f, latched) && Paired(f) && !NeedsDual(rule, f, Flip(latched))
    ensures Safe(f, AppendTurn(rule, f, Flip(latched)), latched)
  {
    hide GoodOf, WellShaped, Used, View, Scan, Run, CleanOps, AddOps;
    var oi, ci := Scan(rule, Orig, f.orig.slots), Scan(rule, Copy, f.copy.slots);
    AppendTurnStart(rule, f, latched);
    CleanBothSafe(rule, f, latched);
    var clean := CleanOps(Orig, f.orig.slots, oi) + CleanOps(Copy, f.copy.slots, ci);
    var g := Run(f, clean);
    var c, d := AddOps(Copy, g.copy.slots, ci, Flip(latched)), AddOps(Orig, g.orig.slots, oi, Flip(latched));
    AddBothSafe(g, oi, ci, latched);
    SafeConcat(f, clean, c + d, latched);
    assert clean + (c + d) == clean + c + d;
  }

  /** Where an append turn starts: both logs count; if either lacks the new value, the boot
      value is still the old one. */
  lemma AppendTurnStart(rule: ScanRule, f: Flash, latched: word)
    requires Good(f, latched) && Paired(f)
    ensures Live(f, Orig) && Live(f, Copy) && View(Orig, f.orig).shaped && View(Copy, f.copy).shaped
    ensures var o, oi := View(Orig, f.orig), Scan(rule, Orig, f.orig.slots);
            && oi.swapValue == o.latest == BootValue(f)
            && oi.nextIndex == (if Used(f.orig.slots) < NR_OF_ENTRIES then Used(f.orig.slots) else SENTINEL)
    ensures var c, ci := View(Copy, f.copy), Scan(rule, Copy, f.copy.slots);
            && ci.swapValue == c.latest
            && ci.nextIndex == (if Used(f.copy.slots) < NR_OF_ENTRIES then Used(f.copy.slots) else SENTINEL)
            && (c.latest != Flip(latched) ==> BootValue(f) == latched)
            && (c.latest == Flip(latched) ==> c.any)
  {
    GoodMeaning(f, latched);
    ScanWellShaped(rule, Orig, f.orig.slots);
    ScanWellShaped(rule, Copy, f.copy.slots);
    LatestIsLastUsed(Copy, f.copy.slots);
  }

  lemma TurnSafe(rule: ScanRule, f: Flash, latched: word)
    requires Good(f, latched) && TurnOf(rule, f, latched).Work?
    ensures Safe(f, TurnOf(rule, f, latched).ops, latched)
  {
    hide Good;
    if NeedsDual(rule, f, Flip(latched)) {
      DualStart(rule, f, latched);
      DualSafe(rule, f, latched);
    } else {
      AppendTurnSafe(rule, f, latched);
    }
  }

  /** The dual sequence is never needed once ORIG boots the new value. */
  lemma DualStart(rule: ScanRule, f: Flash, latched: word)
    requires Good(f, latched) && NeedsDual(rule, f, Flip(latched))
    ensures Bootable(f.orig) ==> BootValue(f) == latched
  {
    GoodMeaning(f, latched);
    ScanMeaning(rule, Orig, f.orig.slots);
    ScanMeaning(rule, Copy, f.copy.slots);
  }

  lemma {:induction false} LoopSafe(rule: ScanRule, f: Flash, latched: word)
    requires Good(f, latched) && IsMode(latched)
    ensures Safe(f, SwapLoop(rule, f, latched).ops, latched)
    decreases Phase(rule, f, latched), Blanks(f), Valids(f)
  {
    hide Good, TurnOf;
    match TurnOf(rule, f, latched)
    case Work(ops) =>
      TurnProgress(rule, f, latched);
      TurnSafe(rule, f, latched);
      SafeEnd(f, ops, latched);
      LoopSafe(rule, Run(f, ops), latched);
      SafeConcat(f, ops, SwapLoop(rule, Run(f, ops), latched).ops, latched);
    case _ =>
  }
}
