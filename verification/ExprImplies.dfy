/** expr_trans_compare and the test by which menu_finalize decides that a following
    entry belongs under the current one (expr.c:751-871, menu.c:341-366). */
module KImplies {
  import opened KExpr
  import opened KEliminateEq
  import opened KDups
  import opened KTransform

  /** expr_trans_compare of `e` with `sym`; `test` is Equal or Unequal. */
  function TransCompare(e: Expr, test: CompOp, sym: Symbol): (r: Option<Expr>)
    ensures sym == SymYes || sym == SymNo ==> r.Some?
  {
    match e
    case Bin(op, l, r) =>
      var base :=
        if sym == SymYes then Bin(op, TransCompare(l, Equal, sym).value, TransCompare(r, Equal, sym).value)
        else if sym == SymNo then Bin(Dual(op), TransCompare(l, Equal, sym).value, TransCompare(r, Equal, sym).value)
        else e;
      Some(if test.Unequal? then Not(base) else base)
    case Not(a) => TransCompare(a, if test.Equal? then Unequal else Equal, sym)
    case Comp(_, _, _) =>
      if test.Equal? then
        if sym == SymYes then Some(e)
        else if sym == SymMod then Some(Sym(SymNo))
        else if sym == SymNo then Some(Not(e))
        else None
      else
        if sym == SymYes then Some(Not(e))
        else if sym == SymMod then Some(Sym(SymYes))
        else if sym == SymNo then Some(e)
        else None
    case Sym(s) => Some(Comp(test, s, sym))
  }

  /** A NULL expression becomes the symbol itself. */
  function TransCompareOpt(e: Option<Expr>, test: CompOp, sym: Symbol): (r: Option<Expr>)
    ensures sym == SymYes || sym == SymNo ==> r.Some?
  {
    if e.Some? then TransCompare(e.value, test, sym)
    else Some(if test.Unequal? then Not(Sym(sym)) else Sym(sym))
  }

  // ------------------------------------------------- what it really tests

  /** A symbol standing plain, as the tests take it: m is read as y (`up`) or as n, and of a
      symbol without a tristate value (undefined, a string or a number) the text is asked
      whether it is not "n" (`up`) or is "y". */
  function SymCrisp(s: Symbol, env: Env, up: bool): (t: Tri)
    ensures t != MOD
  {
    if !HasTriValue(s) then TriOf(if up then SymText(env, s) != "n" else SymText(env, s) == "y")
    else if SymTri(env, s) == MOD then (if up then YES else NO)
    else SymTri(env, s)
  }

  /** The value of `e` when its plain symbols are taken like this. */
  function EvalCrisp(e: Expr, env: Env, up: bool): (t: Tri)
    ensures t != MOD
  {
    match e
    case Sym(s) => SymCrisp(s, env, up)
    case Not(a) => TriNot(EvalCrisp(a, env, up))
    case Bin(op, l, r) => BinValue(op, EvalCrisp(l, env, up), EvalCrisp(r, env, up))
    case Comp(_, _, _) => Eval(e, env)
  }

  /** Every plain symbol has a tristate value of its own. */
  ghost predicate TriSymbols(e: Expr) {
    match e
    case Sym(s) => HasTriValue(s)
    case Not(a) => TriSymbols(a)
    case Bin(_, l, r) => TriSymbols(l) && TriSymbols(r)
    case Comp(_, _, _) => true
  }

  lemma LeafCompare(s: Symbol, sym: Symbol, env: Env)
    requires WellTyped(env) && (sym == SymYes || sym == SymNo)
    ensures Eval(Comp(Equal, s, sym), env) == TriOf(EvalCrisp(Sym(s), env, sym == SymNo) == SymTri(env, sym))
    ensures Eval(Comp(Unequal, s, sym), env) == TriOf(EvalCrisp(Sym(s), env, sym == SymNo) != SymTri(env, sym))
  {
    if HasTriValue(s) {
      EqualTriConst(env, s, sym);
    } else {
      hide Compare;
      CompareTri(env, s, sym);
    }
  }

  /** expr_trans_compare with n (with y) tests the expression with its plain symbols taken as
      above: exactly, for every expression and well-typed assignment. */
  lemma {:induction false} TransCompareMeaning(e: Expr, sym: Symbol, env: Env)
    requires WellTyped(env) && (sym == SymYes || sym == SymNo)
    ensures var v := EvalCrisp(e, env, sym == SymNo);
            && Eval(TransCompare(e, Equal, sym).value, env) == TriOf(v == SymTri(env, sym))
            && Eval(TransCompare(e, Unequal, sym).value, env) == TriOf(v != SymTri(env, sym))
  {
    hide WellTyped, Compare, CompValue, SymCrisp;
    match e
    case Sym(s) => LeafCompare(s, sym, env);
    case Not(a) => TransCompareMeaning(a, sym, env);
    case Bin(_, l, r) =>
      TransCompareMeaning(l, sym, env);
      TransCompareMeaning(r, sym, env);
    case Comp(op, l, r) => ComparisonsAreCrisp(op, l, r, env);
  }

  lemma ComparisonsAreCrisp(op: CompOp, l: Symbol, r: Symbol, env: Env)
    ensures Eval(Comp(op, l, r), env) != MOD
  {
    hide Compare;
  }

  /** No negated operand has the value m. */
  ghost predicate NegationsCrisp(e: Expr, env: Env) {
    match e
    case Not(a) => Eval(a, env) != MOD && NegationsCrisp(a, env)
    case Bin(_, l, r) => NegationsCrisp(l, env) && NegationsCrisp(r, env)
    case _ => true
  }

  /** With crisp negations reading m as y only raises a value that is m, and reading m
      as n only lowers it. */
  lemma {:induction false} CrispBounds(e: Expr, env: Env)
    requires NegationsCrisp(e, env) && TriSymbols(e)
    ensures Eval(e, env) == NO ==> EvalCrisp(e, env, true) == NO && EvalCrisp(e, env, false) == NO
    ensures Eval(e, env) == YES ==> EvalCrisp(e, env, true) == YES && EvalCrisp(e, env, false) == YES
    ensures Eval(e, env) == MOD ==> EvalCrisp(e, env, true) == YES && EvalCrisp(e, env, false) == NO
  {
    hide Compare, CompValue;
    match e
    case Not(a) => CrispBounds(a, env);
    case Bin(_, l, r) => CrispBounds(l, env); CrispBounds(r, env);
    case Comp(op, l, r) => ComparisonsAreCrisp(op, l, r, env);
    case _ =>
  }

  /** `e != n` as built by expr_trans_compare is right about `e` exactly when taking its plain
      symbols as the test does makes no difference to whether `e` is n; for symbols with
      tristate values crisp negations suffice. */
  lemma NotNoTestExact(e: Expr, env: Env)
    requires WellTyped(env)
    ensures Eval(TransCompare(e, Unequal, SymNo).value, env) == TriOf(Eval(e, env) != NO)
            <==> (EvalCrisp(e, env, true) == NO <==> Eval(e, env) == NO)
    ensures NegationsCrisp(e, env) && TriSymbols(e) ==>
              Eval(TransCompare(e, Unequal, SymNo).value, env) == TriOf(Eval(e, env) != NO)
  {
    TransCompareMeaning(e, SymNo, env);
    if NegationsCrisp(e, env) && TriSymbols(e) { CrispBounds(e, env); }
  }

  /** Of a symbol standing plain it is right exactly when the symbol has a tristate value, or
      its text is "n". */
  lemma PlainSymbolTestExact(s: Symbol, env: Env)
    requires WellTyped(env)
    ensures Eval(TransCompare(Sym(s), Unequal, SymNo).value, env) == TriOf(Eval(Sym(s), env) != NO)
            <==> HasTriValue(s) || SymText(env, s) == "n"
  {
    TransCompareMeaning(Sym(s), SymNo, env);
  }

  /** Under a single negation it is right exactly when the operand is not m, or has no tristate
      value and the text "n". */
  lemma NegatedSymbolTestExact(s: Symbol, env: Env)
    requires WellTyped(env)
    ensures Eval(TransCompare(Not(Sym(s)), Unequal, SymNo).value, env) == TriOf(Eval(Not(Sym(s)), env) != NO)
            <==> if HasTriValue(s) then SymTri(env, s) != MOD else SymText(env, s) == "n"
  {
    TransCompareMeaning(Not(Sym(s)), SymNo, env);
    NotTest(s, env);
  }

  lemma NotTest(s: Symbol, env: Env)
    ensures EvalCrisp(Not(Sym(s)), env, true) == TriNot(SymCrisp(s, env, true))
    ensures Eval(Not(Sym(s)), env) == TriNot(SymTri(env, s))
  {
  }

  // ------------------------------------------------------ the menu's test

  /** The condition `e != n` in simplified form, as menu_finalize compares it. */
  function Condition(e: Option<Expr>): Expr {
    EliminateDups(Transform(TransCompareOpt(e, Unequal, SymNo).value))
  }

  /** menu.c:352-357: what is left of the base condition after cancelling is y. */
  predicate ImpliesBase(dep: Option<Expr>, basedep: Option<Expr>) {
    IsYes(EliminateEq(Condition(dep), Condition(basedep)).1)
  }

  function EvalCrispOpt(e: Option<Expr>, env: Env): Tri {
    if e.None? then YES else EvalCrisp(e.value, env, true)
  }

  ghost predicate MenuCondition(e: Option<Expr>) {
    e.Some? ==> Orderable(e.value, false)
  }

  /** A test for n is a negation, a test for not n is none. */
  lemma {:induction false} TransCompareOrderable(e: Expr, test: CompOp, negated: bool)
    requires (test.Equal? && Orderable(e, !negated)) || (test.Unequal? && Orderable(e, negated))
    ensures Orderable(TransCompare(e, test, SymNo).value, negated)
  {
    match e
    case Not(a) => TransCompareOrderable(a, if test.Equal? then Unequal else Equal, negated);
    case Bin(_, l, r) =>
      var below := if test.Equal? then negated else !negated;
      TransCompareOrderable(l, Equal, below);
      TransCompareOrderable(r, Equal, below);
    case _ =>
  }

  lemma ConditionMeaning(e: Option<Expr>, env: Env)
    requires WellTyped(env) && MenuCondition(e)
    ensures Eval(Condition(e), env) == TriOf(EvalCrispOpt(e, env) != NO)
  {
    hide WellTyped, Transform, EliminateDups;
    var c := TransCompareOpt(e, Unequal, SymNo).value;
    if e.Some? {
      TransCompareMeaning(e.value, SymNo, env);
      TransCompareOrderable(e.value, Unequal, false);
    }
    TransformPreservesValue(c, env);
    EliminateDupsPreservesValue(Transform(c), env);
  }

  /** What an accepted implication means for the tests that were compared: no well-typed
      assignment meets the entry's condition without meeting the base condition, when plain
      symbols are taken as the tests take them. */
  lemma ImpliesBaseSound(dep: Option<Expr>, basedep: Option<Expr>, env: Env)
    requires WellTyped(env) && MenuCondition(dep) && MenuCondition(basedep)
    requires ImpliesBase(dep, basedep)
    ensures EvalCrispOpt(dep, env) != NO ==> EvalCrispOpt(basedep, env) != NO
  {
    hide Condition, EvalCrispOpt, WellTyped;
    ConditionMeaning(dep, env);
    ConditionMeaning(basedep, env);
    EliminateEqImplies(Condition(dep), Condition(basedep), env);
  }

  /** A condition as propagation leaves it: it can be compared, and negates only symbols. */
  ghost predicate Stored(e: Option<Expr>) { MenuCondition(e) && (e.Some? ==> NegatesSymbols(e.value)) }

  /** Every symbol that stands plain and not negated has a tristate value. */
  ghost predicate PlainHasValue(e: Expr) {
    match e
    case Sym(s) => HasTriValue(s)
    case Bin(_, l, r) => PlainHasValue(l) && PlainHasValue(r)
    case _ => true
  }

  /** Then a condition that negates only symbols is met whenever its test says so. */
  lemma {:induction false} CrispIsBelow(e: Expr, env: Env)
    requires WellTyped(env) && NegatesSymbols(e) && PlainHasValue(e)
    ensures EvalCrisp(e, env, true) != NO ==> Eval(e, env) != NO
  {
    match e
    case Not(a) => NotTest(a.sym, env);
    case Bin(_, l, r) => CrispIsBelow(l, env); CrispIsBelow(r, env);
    case _ =>
  }

  /** The test built for `e` denies nothing that is met. */
  ghost predicate TestedRight(e: Option<Expr>, env: Env) { EvalOpt(e, env) != NO ==> EvalCrispOpt(e, env) != NO }

  /** The test built for `e` claims nothing that is not met. */
  ghost predicate TestedSafe(e: Option<Expr>, env: Env) { EvalCrispOpt(e, env) != NO ==> EvalOpt(e, env) != NO }

  /** The same expression with its plain symbols tested for n. */
  function Tested(e: Expr): Expr {
    match e
    case Sym(s) => Comp(Unequal, s, SymNo)
    case Not(a) => if a.Sym? then Comp(Equal, a.sym, SymNo) else e
    case Bin(op, l, r) => Bin(op, Tested(l), Tested(r))
    case Comp(_, _, _) => e
  }

  /** Testing the test `s = n` or `s != n` is testing the symbol. */
  lemma TestedSymbol(s: Symbol, own: CompOp, test: CompOp)
    requires (own.Equal? || own.Unequal?) && (test.Equal? || test.Unequal?)
    ensures var flip := if own.Equal? == test.Equal? then Unequal else Equal;
            Transform(TransCompare(Comp(own, s, SymNo), test, SymNo).value) == Transform(Comp(flip, s, SymNo))
  {
    var t := TransformComp(own, s, SymNo);
    assert Transform(Comp(own, s, SymNo)) == t && Transform(Sym(s)) == Sym(s);
    assert Transform(Not(Comp(own, s, SymNo))) == TransformNot(t);
    assert TypeOf(s).Boolean? ==> !IsTriConst(s) && TransformNot(Not(Sym(s))) == Sym(s);
  }

  lemma {:induction false} TestedIsTestedAlike(e: Expr, test: CompOp)
    requires NegatesSymbols(e) && (test.Equal? || test.Unequal?)
    ensures Transform(TransCompare(Tested(e), test, SymNo).value) == Transform(TransCompare(e, test, SymNo).value)
  {
    match e
    case Sym(s) => TestedSymbol(s, Unequal, test);
    case Not(a) =>
      assert TransCompare(e, test, SymNo) == TransCompare(a, if test.Equal? then Unequal else Equal, SymNo);
      TestedSymbol(a.sym, Equal, test);
    case Bin(op, l, r) =>
      hide TransformNot;
      TestedIsTestedAlike(l, Equal);
      TestedIsTestedAlike(r, Equal);
    case Comp(_, _, _) =>
  }

  lemma {:induction false} TestedValue(e: Expr, env: Env)
    requires WellTyped(env) && NegatesSymbols(e) && Orderable(e, false)
    ensures Eval(Tested(e), env) == EvalCrisp(e, env, true) == EvalCrisp(Tested(e), env, true)
    ensures Stored(Some(Tested(e))) && PlainHasValue(Tested(e))
  {
    hide WellTyped, Compare, CompValue, SymCrisp;
    match e
    case Sym(s) => LeafCompare(s, SymNo, env);
    case Not(a) => LeafCompare(a.sym, SymNo, env); NotTest(a.sym, env);
    case Bin(_, l, r) =>
      TestedValue(l, env);
      TestedValue(r, env);
    case Comp(_, _, _) =>
  }

  /** An accepted entry is not shown without its base, provided that the test built for the
      entry's condition denies nothing and the one built for the base claims nothing. */
  lemma ImpliesBaseVisible(dep: Option<Expr>, basedep: Option<Expr>, env: Env)
    requires WellTyped(env) && MenuCondition(dep) && MenuCondition(basedep)
    requires ImpliesBase(dep, basedep)
    ensures TestedRight(dep, env) && TestedSafe(basedep, env) ==>
              (EvalOpt(dep, env) != NO ==> EvalOpt(basedep, env) != NO)
  {
    hide WellTyped, ImpliesBase;
    ImpliesBaseSound(dep, basedep, env);
  }

  /** Both conditions are exact.  Where the test denies a condition that is met (and that is
      accepted against itself), some base condition without plain symbols that lack a
      tristate value is accepted, and n while the entry's is met. */
  lemma ImpliesBaseVisibleExact(dep: Expr, env: Env)
    requires WellTyped(env) && Stored(Some(dep)) && ImpliesBase(Some(dep), Some(dep))
    ensures (forall basedep ::
               Stored(Some(basedep)) && PlainHasValue(basedep) && ImpliesBase(Some(dep), Some(basedep)) ==>
                 (Eval(dep, env) != NO ==> Eval(basedep, env) != NO))
            <==> TestedRight(Some(dep), env)
  {
    hide WellTyped, ImpliesBase;
    forall basedep | Stored(Some(basedep)) && PlainHasValue(basedep) && ImpliesBase(Some(dep), Some(basedep))
                     && TestedRight(Some(dep), env)
      ensures Eval(dep, env) != NO ==> Eval(basedep, env) != NO
    {
      CrispIsBelow(basedep, env);
      ImpliesBaseVisible(Some(dep), Some(basedep), env);
    }
    TestedValue(dep, env);
    TestedImplies(dep);
    assert Eval(Tested(dep), env) == EvalCrisp(dep, env, true);
  }

  /** And where the test claims a base condition that is not met, some entry that negates
      only booleans is accepted below it, and met. */
  lemma ImpliesBaseHiddenExact(basedep: Expr, env: Env)
    requires WellTyped(env) && Stored(Some(basedep)) && ImpliesBase(Some(basedep), Some(basedep))
    ensures (forall dep ::
               Stored(Some(dep)) && NegatesBooleans(dep) && ImpliesBase(Some(dep), Some(basedep)) ==>
                 (Eval(dep, env) != NO ==> Eval(basedep, env) != NO))
            <==> TestedSafe(Some(basedep), env)
  {
    hide WellTyped, ImpliesBase;
    forall dep | Stored(Some(dep)) && NegatesBooleans(dep) && ImpliesBase(Some(dep), Some(basedep))
                 && TestedSafe(Some(basedep), env)
      ensures Eval(dep, env) != NO ==> Eval(basedep, env) != NO
    {
      NegatedBooleansAreRight(dep, env);
      ImpliesBaseVisible(Some(dep), Some(basedep), env);
    }
    TestedValue(basedep, env);
    TestedNegatesNothing(basedep);
    TestedImplies(basedep);
    assert Eval(Tested(basedep), env) == EvalCrisp(basedep, env, true);
  }

  lemma {:induction false} TestedNegatesNothing(e: Expr)
    requires NegatesSymbols(e)
    ensures NegatesBooleans(Tested(e))
  {
    if e.Bin? {
      TestedNegatesNothing(e.left);
      TestedNegatesNothing(e.right);
    }
  }

  lemma TestedImplies(dep: Expr)
    requires NegatesSymbols(dep) && ImpliesBase(Some(dep), Some(dep))
    ensures ImpliesBase(Some(dep), Some(Tested(dep))) && ImpliesBase(Some(Tested(dep)), Some(dep))
  {
    TestedIsTestedAlike(dep, Unequal);
  }

  /** Only boolean symbols are negated. */
  ghost predicate NegatesBooleans(e: Expr) {
    match e
    case Not(a) => a.Sym? && TypeOf(a.sym).Boolean?
    case Bin(_, l, r) => NegatesBooleans(l) && NegatesBooleans(r)
    case _ => true
  }

  lemma {:induction false} NegatedBooleansAreRight(e: Expr, env: Env)
    requires WellTyped(env) && NegatesBooleans(e)
    ensures Eval(e, env) != NO ==> EvalCrisp(e, env, true) != NO
  {
    match e
    case Not(a) => NotTest(a.sym, env);
    case Bin(_, l, r) => NegatedBooleansAreRight(l, env); NegatedBooleansAreRight(r, env);
    case _ =>
  }

  /** What can be seen from the conditions alone: an entry's test denies nothing when only
      booleans are negated (or no negated operand is m, all symbols being tristate), and a
      base's claims nothing when no plain symbol of it lacks a tristate value. */
  lemma TestsAreRight(e: Expr, env: Env)
    requires WellTyped(env)
    ensures NegatesBooleans(e) ==> TestedRight(Some(e), env)
    ensures NegationsCrisp(e, env) && TriSymbols(e) ==> TestedRight(Some(e), env)
    ensures NegatesSymbols(e) && PlainHasValue(e) ==> TestedSafe(Some(e), env)
  {
    hide WellTyped;
    if NegatesBooleans(e) { NegatedBooleansAreRight(e, env); }
    if NegationsCrisp(e, env) && TriSymbols(e) { CrispBounds(e, env); }
    if NegatesSymbols(e) && PlainHasValue(e) { CrispIsBelow(e, env); }
  }

  /** The test does not accept every true implication.  It accepts a condition against
      itself exactly when the condition is y, an AND without an n operand or an OR with
      a y operand: any other OR is cancelled down to n, and a lone term is not
      cancelled at all. */
  lemma SelfImplication(c: Expr)
    ensures IsYes(EliminateEq(c, c).1) <==>
              || c == Sym(SymYes)
              || (IsNode(OpAnd, c) && Sym(SymNo) !in Leaves(OpAnd, c))
              || (IsNode(OpOr, c) && Sym(SymYes) in Leaves(OpOr, c))
  {
    hide ExprEq, EliminatePairs;
    if c.Bin? {
      var (a, b) := EliminatePairs(c.op, c, c);
      CancelsItsCopy(c.op, c, c, 0);
      ChainEqualsItself(c);
      CancelRangeKeepsYn(c.op, Leaves(c.op, c));
      YnChainIsYes(c.op, b);
      assert EliminateEq(c, c).1 == EliminateYn(b);
    }
  }

  lemma CancelRangeKeepsYn(op: BinOp, ls: seq<Expr>)
    ensures var r := CancelRange(op, ls, 0, |ls|);
            && (forall x :: x in r ==> IsYn(x))
            && (Sym(Absorbing(op)) in r <==> Sym(Absorbing(op)) in ls)
  {
    var r := CancelRange(op, ls, 0, |ls|);
    var z := Sym(Absorbing(op));
    if i :| 0 <= i < |ls| && ls[i] == z { assert r[i] == z; }
    if i :| 0 <= i < |r| && r[i] == z { assert ls[i] == z; }
  }

  lemma {:induction false} YnChainIsYes(op: BinOp, e: Expr)
    requires forall x :: x in Leaves(op, e) ==> IsYn(x)
    ensures op.OpAnd? ==> (IsYes(EliminateYn(e)) <==> Sym(SymNo) !in Leaves(op, e))
    ensures op.OpOr? ==> (IsYes(EliminateYn(e)) <==> Sym(SymYes) in Leaves(op, e))
  {
    if IsNode(op, e) {
      YnChainIsYes(op, e.left);
      YnChainIsYes(op, e.right);
      YnChainIsSymbol(op, e.left);
      YnChainIsSymbol(op, e.right);
    } else {
      assert e in Leaves(op, e);
    }
  }

  // ---------------------------------------------------- direct dependency

  function ContainsSymbol(e: Option<Expr>, s: Symbol): bool { e.Some? && Mentions(e.value, s) }

  function Mentions(e: Expr, s: Symbol): bool {
    match e
    case Bin(_, l, r) => Mentions(l, s) || Mentions(r, s)
    case Sym(t) => t == s
    case Comp(_, l, r) => l == s || r == s
    case Not(a) => Mentions(a, s)
  }

  /** expr_depends_symbol */
  function Depends(e: Expr, s: Symbol): bool {
    match e
    case Bin(op, l, r) => op.OpAnd? && (Depends(l, s) || Depends(r, s))
    case Sym(t) => t == s
    case Comp(op, l, r) =>
      || (op.Equal? && l == s && (r == SymYes || r == SymMod))
      || (op.Unequal? && l == s && r == SymNo)
    case Not(_) => false
  }

  function DependsSymbol(e: Option<Expr>, s: Symbol): bool { e.Some? && Depends(e.value, s) }

  /** A condition that expr_depends_symbol finds to depend on `s` is only met when the text of
      `s` is not "n", whatever it negates; for a boolean or tristate symbol, when it is set. */
  lemma {:induction false} DependsSound(e: Expr, s: Symbol, env: Env)
    requires WellTyped(env) && Depends(e, s)
    ensures Eval(e, env) != NO ==> SymText(env, s) != "n" || SymTri(env, s) != NO
    ensures HasTriValue(s) ==> (Eval(e, env) != NO ==> SymTri(env, s) != NO)
  {
    match e
    case Bin(_, l, r) => if Depends(l, s) { DependsSound(l, s, env); } else { DependsSound(r, s, env); }
    case Comp(_, _, r) =>
      hide WellTyped, Compare;
      DifferentNames();
      CompareTri(env, s, r);
      if HasTriValue(s) { EqualTriConst(env, s, r); }
    case _ =>
  }

  /** An expression and everything it is made of */
  ghost function Parts(e: Expr): set<Expr> {
    {e} + match e
          case Not(a) => Parts(a)
          case Bin(_, l, r) => Parts(l) + Parts(r)
          case _ => {}
  }

  ghost predicate Names(p: Expr, s: Symbol) { p == Sym(s) || (p.Comp? && (p.lhs == s || p.rhs == s)) }

  /** A symbol is contained when a plain symbol or a comparison of any kind names it. */
  lemma {:induction false} MentionsExactly(e: Expr, s: Symbol)
    ensures Mentions(e, s) <==> exists p :: p in Parts(e) && Names(p, s)
  {
    assert e in Parts(e);
    match e
    case Not(a) => MentionsExactly(a, s);
    case Bin(_, l, r) =>
      MentionsExactly(l, s);
      MentionsExactly(r, s);
    case Sym(t) => assert Mentions(e, s) <==> Names(e, s);
    case Comp(_, _, _) => assert Mentions(e, s) <==> Names(e, s);
  }

  /** Among the conditions joined by AND is the symbol, or that it is y or m, or that it is
      not n. */
  ghost predicate Requires(e: Expr, s: Symbol) {
    var all := Leaves(OpAnd, e);
    Sym(s) in all || Comp(Equal, s, SymYes) in all || Comp(Equal, s, SymMod) in all || Comp(Unequal, s, SymNo) in all
  }

  /** These are the direct dependencies. */
  lemma {:induction false} DependsExactly(e: Expr, s: Symbol)
    ensures Depends(e, s) <==> Requires(e, s)
    ensures Depends(e, s) ==> Mentions(e, s)
  {
    if IsNode(OpAnd, e) {
      DependsExactly(e.left, s);
      DependsExactly(e.right, s);
    }
  }

  lemma DifferentNames()
    ensures "y" != "n" && "m" != "n"
  {
    assert "y"[0] == 'y' && "m"[0] == 'm' && "n"[0] == 'n';
  }

  /** Of other symbols only the text counts: a string `s` makes `s != n` met while it is n. */
  lemma DependsOnText()
    ensures exists s: Symbol, env :: TypeOf(s).Str? && WellTyped(env) && Depends(Comp(Unequal, s, SymNo), s)
                                     && Eval(Comp(Unequal, s, SymNo), env) == YES && SymTri(env, s) == NO
  {
    var s := Config(0, Str);
    var env := TextEnv();
    hide WellTyped, Compare;
    CompareTri(env, s, SymNo);
    assert Eval(Comp(Unequal, s, SymNo), env) == YES && SymTri(env, s) == NO;
  }

  /** Everything is n, and what is no boolean or tristate has the text "U". */
  lemma TextEnv() returns (env: Env)
    ensures WellTyped(env)
    ensures forall s: Symbol :: s.Config? ==>
              env.tri(s) == NO && (s.kind.Str? || s.kind.Unknown? ==> SymText(env, s) == "U" != "n")
  {
    env := Env((s: Symbol) => NO,
               (s: Symbol) => if s.Config? && (s.kind.Boolean? || s.kind.Tristate?) then "n" else "U",
               (_, _) => None);
    assert "U"[0] == 'U' && "n"[0] == 'n';
  }

  /** menu.c:346-361: an entry with condition `dep` is taken in under the entry of `s`. */
  predicate BelongsUnder(s: Symbol, basedep: Option<Expr>, dep: Option<Expr>) {
    ContainsSymbol(dep, s) && (DependsSymbol(dep, s) || ImpliesBase(dep, basedep))
  }

  /** What depends on the symbol directly is taken in, whatever the base condition, and what does
      not name it is not. */
  lemma BelongsUnderExactly(s: Symbol, basedep: Option<Expr>, dep: Option<Expr>)
    ensures dep.Some? && Requires(dep.value, s) ==> BelongsUnder(s, basedep, dep)
    ensures dep.None? || (forall p :: p in Parts(dep.value) ==> !Names(p, s)) ==> !BelongsUnder(s, basedep, dep)
    ensures ImpliesBase(dep, basedep) && dep.Some? && (exists p :: p in Parts(dep.value) && Names(p, s)) ==>
              BelongsUnder(s, basedep, dep)
  {
    hide ImpliesBase;
    if dep.Some? {
      DependsExactly(dep.value, s);
      MentionsExactly(dep.value, s);
    }
  }

  /** An entry that is taken in is only shown when the symbol it is put under is set (its text
      is not "n", if it is neither boolean nor tristate) or at least shown itself, provided
      that the tests are right: for instance, because the entry negates only booleans and
      the plain symbols of the base condition have tristate values. */
  lemma BelongsUnderSound(s: Symbol, basedep: Option<Expr>, dep: Option<Expr>, env: Env)
    requires WellTyped(env) && MenuCondition(dep) && Stored(basedep)
    requires BelongsUnder(s, basedep, dep)
    ensures TestedRight(dep, env) && TestedSafe(basedep, env) ==>
              (EvalOpt(dep, env) != NO ==>
                 || SymTri(env, s) != NO || (!HasTriValue(s) && SymText(env, s) != "n")
                 || EvalOpt(basedep, env) != NO)
    ensures NegatesBooleans(dep.value) ==> TestedRight(dep, env)
    ensures basedep.None? || PlainHasValue(basedep.value) ==> TestedSafe(basedep, env)
  {
    hide ImpliesBase, WellTyped;
    TestsAreRight(dep.value, env);
    if basedep.Some? { TestsAreRight(basedep.value, env); }
    if DependsSymbol(dep, s) {
      DependsSound(dep.value, s, env);
    } else {
      ImpliesBaseVisible(dep, basedep, env);
    }
  }

  // Two entries taken in by X, and what they are compared with
  const A: Symbol := Config(0, Boolean)
  const T: Symbol := Config(1, Tristate)
  const X: Symbol := Config(2, Tristate)
  const U: Symbol := Config(3, Unknown)

  const SHOWN: Expr := Bin(OpAnd, Bin(OpAnd, Sym(A), Not(Sym(T))), Comp(Unequal, X, SymYes))
  const SHOWN_BASE: Expr := Bin(OpAnd, Sym(A), Comp(Equal, T, SymNo))

  const ASKED: Expr := Bin(OpAnd, Bin(OpAnd, Sym(A), Comp(Unequal, U, SymNo)), Comp(Unequal, X, SymYes))
  const ASKED_BASE: Expr := Bin(OpAnd, Sym(A), Sym(U))

  /** Where the entry's test denies too much, the entry can be shown below one that is not:
      `A && !T && X != y` is taken in by X, shown under `A && T = n`; at T = m the first is
      m and the second n. */
  lemma ShownWithoutBase()
    ensures BelongsUnder(X, Some(SHOWN_BASE), Some(SHOWN)) && Stored(Some(SHOWN)) && Stored(Some(SHOWN_BASE))
    ensures PlainHasValue(SHOWN_BASE)
    ensures exists env :: WellTyped(env) && Eval(SHOWN, env) != NO && Eval(SHOWN_BASE, env) == NO
                          && SymTri(env, X) == NO
  {
    hide BelongsUnder, WellTyped, Eval, SymTri, Transform, TransCompare;
    assert Mentions(SHOWN, X);
    ShownTransforms();
    AcceptedUnderX(SHOWN, SHOWN_BASE, Comp(Equal, T, SymNo));
    var env := ShownValues();
  }

  /** And where the base's test claims too much: `A && U != n && X != y` negates nothing and is
      taken in by X, shown under `A && U` for an undefined U; when A is y and X is n, the
      first is y and the second n. */
  lemma ShownBelowUndefined()
    ensures BelongsUnder(X, Some(ASKED_BASE), Some(ASKED)) && Stored(Some(ASKED)) && Stored(Some(ASKED_BASE))
    ensures NegatesBooleans(ASKED) && !PlainHasValue(ASKED_BASE)
    ensures exists env :: WellTyped(env) && Eval(ASKED, env) == YES && Eval(ASKED_BASE, env) == NO
                          && SymTri(env, X) == NO
  {
    hide BelongsUnder, WellTyped, Eval, SymTri, Transform, TransCompare;
    assert Mentions(ASKED, X);
    AskedTransforms();
    AcceptedUnderX(ASKED, ASKED_BASE, Comp(Unequal, U, SymNo));
    var env := AskedValues();
  }

  lemma ShownValues() returns (env: Env)
    ensures WellTyped(env) && Eval(SHOWN, env) == MOD && Eval(SHOWN_BASE, env) == NO && SymTri(env, X) == NO
  {
    env := Env((s: Symbol) => if s == A then YES else if s == T then MOD else NO,
               (s: Symbol) => if s == A then "y" else if s == T then "m" else "n",
               (_, _) => None);
    EqualTriConst(env, T, SymNo);
    EqualTriConst(env, X, SymYes);
    hide Compare, CompValue;
    assert Eval(Bin(OpAnd, Sym(A), Not(Sym(T))), env) == MOD;
  }

  lemma AskedValues() returns (env: Env)
    ensures WellTyped(env) && Eval(ASKED, env) == YES && Eval(ASKED_BASE, env) == NO && SymTri(env, X) == NO
  {
    env := Env((s: Symbol) => if s == A then YES else NO,
               (s: Symbol) => if s == A then "y" else if s == U then "U" else "n",
               (_, _) => None);
    assert "U"[0] == 'U' && "n"[0] == 'n';
    LeafCompare(U, SymNo, env);
    EqualTriConst(env, X, SymYes);
    hide Compare, CompValue;
    assert Eval(Bin(OpAnd, Sym(A), Comp(Unequal, U, SymNo)), env) == YES;
  }

  /** The shape of both: the entry tests for `A && c && X != y`, the base for `A && c`. */
  lemma AcceptedUnderX(dep: Expr, basedep: Expr, c: Expr)
    requires c == Comp(Equal, T, SymNo) || c == Comp(Unequal, U, SymNo)
    requires Mentions(dep, X)
    requires Transform(TransCompare(dep, Unequal, SymNo).value)
          == Bin(OpAnd, Bin(OpAnd, Sym(A), c), Comp(Unequal, X, SymYes))
    requires Transform(TransCompare(basedep, Unequal, SymNo).value) == Bin(OpAnd, Sym(A), c)
    ensures BelongsUnder(X, Some(basedep), Some(dep))
  {
    hide Transform, TransCompare, EliminateEq, EliminateDups, Settled, Mentions, Depends;
    var base := Bin(OpAnd, Sym(A), c);
    SettledUnderX(c);
    EliminateDupsFixpoints(Bin(OpAnd, base, Comp(Unequal, X, SymYes)));
    EliminateDupsFixpoints(base);
    CancelledUnderX(c);
    assert TransCompareOpt(Some(dep), Unequal, SymNo) == TransCompare(dep, Unequal, SymNo);
    assert Condition(Some(basedep)) == base;
  }

  lemma SettledUnderX(c: Expr)
    requires c == Comp(Equal, T, SymNo) || c == Comp(Unequal, U, SymNo)
    ensures var base := Bin(OpAnd, Sym(A), c); Settled(Bin(OpAnd, base, Comp(Unequal, X, SymYes))) && Settled(base)
  {
    hide JoinAnd;
    var a, x := Sym(A), Comp(Unequal, X, SymYes);
    var base := Bin(OpAnd, a, c);
    assert Leaves(OpAnd, base) == [a, c];
    assert Leaves(OpAnd, Bin(OpAnd, base, x)) == [a, c, x];
    assert Settled(a) && Settled(c) && Settled(x);
    NotJoined(a, c);
    NotJoined(a, x);
    NotJoined(c, x);
  }

  lemma NotJoined(e1: Expr, e2: Expr)
    requires (e1.Sym? || e1.Comp?) && e2.Comp? && (if e1.Sym? then e1.sym else e1.lhs) != e2.lhs
    ensures JoinAnd(e1, e2).None? && JoinAnd(e2, e1).None?
  {
  }

  lemma CancelledUnderX(c: Expr)
    requires c == Comp(Equal, T, SymNo) || c == Comp(Unequal, U, SymNo)
    ensures var base := Bin(OpAnd, Sym(A), c);
            IsYes(EliminateEq(Bin(OpAnd, base, Comp(Unequal, X, SymYes)), base).1)
  {
    var a, x, y := Sym(A), Comp(Unequal, X, SymYes), Sym(SymYes);
    var base := Bin(OpAnd, a, c);
    assert EliminatePairs(OpAnd, a, base) == (y, Bin(OpAnd, y, c)) by {
      assert EliminatePairs(OpAnd, a, a) == (y, y) && EliminatePairs(OpAnd, y, c) == (y, c);
    }
    assert EliminatePairs(OpAnd, c, Bin(OpAnd, y, c)) == (y, Bin(OpAnd, y, y)) by {
      assert EliminatePairs(OpAnd, c, y) == (c, y) && EliminatePairs(OpAnd, c, c) == (y, y);
    }
    assert EliminatePairs(OpAnd, x, Bin(OpAnd, y, y)) == (x, Bin(OpAnd, y, y)) by {
      assert EliminatePairs(OpAnd, x, y) == (x, y);
    }
    assert EliminatePairs(OpAnd, base, base) == (Bin(OpAnd, y, y), Bin(OpAnd, y, y));
    assert EliminatePairs(OpAnd, Bin(OpAnd, base, x), base) == (Bin(OpAnd, Bin(OpAnd, y, y), x), Bin(OpAnd, y, y));
    assert EliminateYn(Bin(OpAnd, y, y)) == y;
  }

  lemma ShownTransforms()
    ensures Transform(TransCompare(SHOWN, Unequal, SymNo).value) == Bin(OpAnd, SHOWN_BASE, Comp(Unequal, X, SymYes))
    ensures Transform(TransCompare(SHOWN_BASE, Unequal, SymNo).value) == SHOWN_BASE
  {
    var a, t := TransCompare(Sym(A), Equal, SymNo).value, TransCompare(Not(Sym(T)), Equal, SymNo).value;
    var x := TransCompare(Comp(Unequal, X, SymYes), Equal, SymNo).value;
    var t' := TransCompare(Comp(Equal, T, SymNo), Equal, SymNo).value;
    assert Transform(a) == Not(Sym(A)) && Transform(t) == Transform(t') == Comp(Unequal, T, SymNo);
    assert Transform(x) == Comp(Equal, X, SymYes);
    assert TransCompare(SHOWN_BASE, Unequal, SymNo) == Some(Not(Bin(OpOr, a, t')));
    assert TransCompare(SHOWN, Unequal, SymNo) == Some(Not(Bin(OpOr, Bin(OpOr, a, t), x)));
    hide TransCompare, Normal;
    NegatedUnderX(T, Unequal);
  }

  lemma AskedTransforms()
    ensures var c := Comp(Unequal, U, SymNo);
            && Transform(TransCompare(ASKED, Unequal, SymNo).value)
            == Bin(OpAnd, Bin(OpAnd, Sym(A), c), Comp(Unequal, X, SymYes))
            && Transform(TransCompare(ASKED_BASE, Unequal, SymNo).value) == Bin(OpAnd, Sym(A), c)
  {
    var a, u := TransCompare(Sym(A), Equal, SymNo).value, TransCompare(Sym(U), Equal, SymNo).value;
    var x := TransCompare(Comp(Unequal, X, SymYes), Equal, SymNo).value;
    var u' := TransCompare(Comp(Unequal, U, SymNo), Equal, SymNo).value;
    assert Transform(a) == Not(Sym(A)) && Transform(u) == Transform(u') == Comp(Equal, U, SymNo);
    assert Transform(x) == Comp(Equal, X, SymYes);
    assert TransCompare(ASKED_BASE, Unequal, SymNo) == Some(Not(Bin(OpOr, a, u)));
    assert TransCompare(ASKED, Unequal, SymNo) == Some(Not(Bin(OpOr, Bin(OpOr, a, u'), x)));
    hide TransCompare, Normal;
    NegatedUnderX(U, Equal);
  }

  lemma NegatedUnderX(t: Symbol, op: CompOp)
    requires (t == T || t == U) && (op.Equal? || op.Unequal?)
    ensures var base, x := Bin(OpOr, Not(Sym(A)), Comp(op, t, SymNo)), Comp(Equal, X, SymYes);
            var base' := Bin(OpAnd, Sym(A), Comp(Negated(op), t, SymNo));
            && TransformNot(base) == base'
            && TransformNot(Bin(OpOr, base, x)) == Bin(OpAnd, base', Comp(Unequal, X, SymYes))
  {
    var c, x := Comp(op, t, SymNo), Comp(Equal, X, SymYes);
    assert Transform(Not(Sym(A))) == Not(Sym(A)) && Transform(c) == c && Transform(x) == x;
    assert TransformNot(Not(Sym(A))) == Sym(A) && TransformNot(c) == Comp(Negated(op), t, SymNo);
    assert TransformNot(x) == Comp(Unequal, X, SymYes);
    NegatedNode(OpOr, Not(Sym(A)), c);
    NegatedNode(OpOr, Bin(OpOr, Not(Sym(A)), c), x);
  }
}
