/** Negation normal form and the rewrites menu_finalize applies with it
    (expr.c:329-356, expr.c:594-871). */
module KTransform {
  import opened KExpr
  import opened KEliminateEq
  import opened KDups

  // ------------------------------------------------------- expr_transform

  function Negated(op: CompOp): CompOp {
    match op
    case Equal => Unequal
    case Unequal => Equal
    case Leq => Gth
    case Gth => Leq
    case Lth => Geq
    case Geq => Lth
  }

  function Dual(op: BinOp): BinOp { if op.OpAnd? then OpOr else OpAnd }

  /** A boolean symbol compared with y, m or n. */
  function TransformComp(op: CompOp, l: Symbol, r: Symbol): Expr {
    if !TypeOf(l).Boolean? then Comp(op, l, r)
    else match op
      case Equal =>
        if r == SymNo then Not(Sym(l))
        else if r == SymMod then Sym(SymNo)
        else if r == SymYes then Sym(l)
        else Comp(op, l, r)
      case Unequal =>
        if r == SymNo then Sym(l)
        else if r == SymMod then Sym(SymYes)
        else if r == SymYes then Not(Sym(l))
        else Comp(op, l, r)
      case _ => Comp(op, l, r)
  }

  /** De Morgan steps enlarge the tree, so termination is by a weight in which a
      negation doubles what is below it. */
  ghost function Weight(e: Expr): (w: nat)
    ensures w >= 1
  {
    match e
    case Sym(_) => 1
    case Comp(_, _, _) => 2
    case Not(a) => 2 * Weight(a)
    case Bin(_, l, r) => 1 + Weight(l) + Weight(r)
  }

  lemma DeMorganLighter(op: BinOp, l: Expr, r: Expr)
    ensures Weight(Bin(Dual(op), Not(l), Not(r))) < Weight(Not(Bin(op, l, r)))
  {
    assert Weight(Not(l)) == 2 * Weight(l) && Weight(Not(r)) == 2 * Weight(r);
    assert Weight(Bin(op, l, r)) == 1 + Weight(l) + Weight(r);
  }

  function Transform(e: Expr): (r: Expr)
    ensures Weight(r) <= Weight(e)
    decreases Weight(e), 1
  {
    match e
    case Sym(_) => e
    case Comp(op, l, r) => TransformComp(op, l, r)
    case Bin(op, l, r) => Bin(op, Transform(l), Transform(r))
    case Not(a) => TransformNot(Transform(a))
  }

  /** The negation of an operand that has been transformed already. */
  function TransformNot(t: Expr): (r: Expr)
    ensures Weight(r) <= 2 * Weight(t)
    decreases 2 * Weight(t), 0
  {
    match t
    case Not(b) => Transform(b)
    case Comp(op, l, r) => Comp(Negated(op), l, r)
    case Bin(op, l, r) =>
      DeMorganLighter(op, l, r);
      Transform(Bin(Dual(op), Not(l), Not(r)))
    case Sym(s) =>
      if s == SymYes then Sym(SymNo)
      else if s == SymMod then Sym(SymMod)
      else if s == SymNo then Sym(SymYes)
      else Not(t)
  }

  /** The shape expr_transform aims for: negation only of symbols other than y, m and
      n, and no boolean symbol tested for equality with y, m or n. */
  ghost predicate Normal(e: Expr) {
    match e
    case Sym(_) => true
    case Comp(op, l, r) => !((op.Equal? || op.Unequal?) && TypeOf(l).Boolean? && IsTriConst(r))
    case Not(a) => a.Sym? && !IsTriConst(a.sym)
    case Bin(_, l, r) => Normal(l) && Normal(r)
  }

  lemma {:induction false} TransformIsNormal(e: Expr)
    ensures Normal(Transform(e))
    decreases Weight(e)
  {
    match e
    case Bin(_, l, r) => TransformIsNormal(l); TransformIsNormal(r);
    case Not(a) =>
      TransformIsNormal(a);
      match Transform(a) {
        case Not(b) => TransformIsNormal(b);
        case Bin(op, l, r) =>
          DeMorganLighter(op, l, r);
          TransformIsNormal(Bin(Dual(op), Not(l), Not(r)));
        case _ =>
      }
    case _ =>
  }

  lemma {:induction false} NormalIsFixed(e: Expr)
    requires Normal(e)
    ensures Transform(e) == e
  {
    match e
    case Bin(_, l, r) => NormalIsFixed(l); NormalIsFixed(r);
    case _ =>
  }

  /** expr_transform changes exactly the trees that are not in normal form, and
      running it twice is running it once. */
  lemma TransformFixpoints(e: Expr)
    ensures Transform(e) == e <==> Normal(e)
    ensures Transform(Transform(e)) == Transform(e)
  {
    TransformIsNormal(e);
    NormalIsFixed(Transform(e));
    if Normal(e) { NormalIsFixed(e); }
  }

  /** No order comparison whose operator is flipped has an operand of type S_OTHER: one that
      stands under an odd number of negations, counting `negated`. */
  ghost predicate Orderable(e: Expr, negated: bool) {
    match e
    case Sym(_) => true
    case Comp(op, l, r) => negated ==> op.Equal? || op.Unequal? || (!TypeOf(l).Other? && !TypeOf(r).Other?)
    case Not(a) => Orderable(a, !negated)
    case Bin(_, l, r) => Orderable(l, negated) && Orderable(r, negated)
  }

  /** A double negation takes back what a negation does to a normal form. */
  lemma {:induction false} NegatedTwice(t: Expr)
    requires Normal(t)
    ensures TransformNot(TransformNot(t)) == t
  {
    match t
    case Bin(op, l, r) =>
      NormalIsFixed(l);
      NormalIsFixed(r);
      NegatedNode(op, l, r);
      TransformIsNormal(Not(l));
      TransformIsNormal(Not(r));
      NormalIsFixed(TransformNot(l));
      NormalIsFixed(TransformNot(r));
      NegatedNode(Dual(op), TransformNot(l), TransformNot(r));
      NegatedTwice(l);
      NegatedTwice(r);
    case _ =>
  }

  lemma NegatedNode(op: BinOp, l: Expr, r: Expr)
    requires Transform(l) == l && Transform(r) == r
    ensures TransformNot(Bin(op, l, r)) == Bin(Dual(op), TransformNot(l), TransformNot(r))
  {
    DeMorganLighter(op, l, r);
    assert Transform(Not(l)) == TransformNot(l) && Transform(Not(r)) == TransformNot(r);
  }

  lemma TransformCompValue(op: CompOp, l: Symbol, r: Symbol, env: Env)
    requires WellTyped(env)
    ensures Eval(TransformComp(op, l, r), env) == Eval(Comp(op, l, r), env)
  {
    if TypeOf(l).Boolean? && IsTriConst(r) {
      hide Compare;
      WellTypedTests(l, env);
    }
  }

  /** Negating a comparison flips its operator exactly when the operands can be ordered
      (or only equality is asked for). */
  lemma NegatedComparison(op: CompOp, l: Symbol, r: Symbol, env: Env)
    ensures Eval(Comp(Negated(op), l, r), env) == Eval(Not(Comp(op, l, r)), env)
            <==> op.Equal? || op.Unequal? || Compare(env, l, r).ordered
  {
    hide Compare;
  }

  lemma OrderableIsOrdered(l: Symbol, r: Symbol, env: Env)
    requires !TypeOf(l).Other? && !TypeOf(r).Other?
    ensures Compare(env, l, r).ordered
  {
  }

  /** expr_transform keeps the value under every well-typed assignment. */
  lemma TransformPreservesValue(e: Expr, env: Env)
    requires WellTyped(env) && Orderable(e, false)
    ensures Eval(Transform(e), env) == Eval(e, env)
  {
    hide WellTyped;
    TransformedValue(e, env, false);
  }

  /** The same for a tree that stands under negations, an odd number of them if `negated`. */
  lemma {:induction false} TransformedValue(e: Expr, env: Env, negated: bool)
    requires WellTyped(env) && Orderable(e, negated)
    ensures !negated ==> Eval(Transform(e), env) == Eval(e, env)
    ensures negated ==> Eval(TransformNot(Transform(e)), env) == TriNot(Eval(e, env))
  {
    hide Compare, CompValue, WellTyped, TransformNot;
    match e
    case Sym(s) => NegatedSymbol(s, env);
    case Comp(op, l, r) =>
      TransformCompValue(op, l, r, env);
      if negated { NegatedTest(op, l, r, env); }
    case Bin(op, l, r) =>
      TransformedValue(l, env, negated);
      TransformedValue(r, env, negated);
      if negated {
        TransformIsNormal(l);
        TransformIsNormal(r);
        NormalIsFixed(Transform(l));
        NormalIsFixed(Transform(r));
        NegatedNode(op, Transform(l), Transform(r));
      }
    case Not(a) =>
      TransformedValue(a, env, !negated);
      TransformIsNormal(a);
      NegatedTwice(Transform(a));
  }

  lemma NegatedSymbol(s: Symbol, env: Env)
    ensures Eval(TransformNot(Sym(s)), env) == TriNot(SymTri(env, s))
  {
  }

  lemma NegatedTest(op: CompOp, l: Symbol, r: Symbol, env: Env)
    requires WellTyped(env) && Orderable(Comp(op, l, r), true)
    ensures Eval(TransformNot(TransformComp(op, l, r)), env) == TriNot(Eval(Comp(op, l, r), env))
  {
    hide Compare, CompValue, WellTyped;
    TransformCompValue(op, l, r, env);
    if !op.Equal? && !op.Unequal? { OrderableIsOrdered(l, r, env); }
    NegatedComparison(op, l, r, env);
  }

  // ------------------------------------------------------- expr_trans_bool

  /** expr_trans_bool: tristate FOO != n becomes FOO. */
  function TransBool(e: Expr): Expr {
    match e
    case Sym(_) => e
    case Not(a) => Not(TransBool(a))
    case Bin(op, l, r) => Bin(op, TransBool(l), TransBool(r))
    case Comp(op, l, r) => if op.Unequal? && TypeOf(l).Tristate? && r == SymNo then Sym(l) else e
  }

  /** Negation stands only on plain symbols. */
  ghost predicate NegatesSymbols(e: Expr) {
    match e
    case Not(a) => a.Sym?
    case Bin(_, l, r) => NegatesSymbols(l) && NegatesSymbols(r)
    case _ => true
  }

  /** On negation normal form expr_trans_bool keeps "is not n" and never raises a value. */
  lemma {:induction false} TransBoolKeepsVisibility(e: Expr, env: Env)
    requires WellTyped(env) && NegatesSymbols(e)
    ensures Eval(TransBool(e), env) != NO <==> Eval(e, env) != NO
    ensures Eval(TransBool(e), env) <= Eval(e, env)
  {
    match e
    case Bin(_, l, r) => TransBoolKeepsVisibility(l, env); TransBoolKeepsVisibility(r, env);
    case Comp(op, l, r) =>
      if op.Unequal? && TypeOf(l).Tristate? && r == SymNo {
        hide Compare;
        WellTypedTests(l, env);
      }
    case _ =>
  }

  lemma {:induction false} TransBoolNegatesSymbols(e: Expr)
    requires NegatesSymbols(e)
    ensures NegatesSymbols(TransBool(e))
  {
    if e.Bin? { TransBoolNegatesSymbols(e.left); TransBoolNegatesSymbols(e.right); }
  }

  /** No tristate symbol that `e` tests with `!= n` has the value m. */
  ghost predicate TestsCrisp(e: Expr, env: Env) {
    match e
    case Sym(_) => true
    case Not(a) => TestsCrisp(a, env)
    case Bin(_, l, r) => TestsCrisp(l, env) && TestsCrisp(r, env)
    case Comp(op, l, r) => op.Unequal? && TypeOf(l).Tristate? && r == SymNo ==> SymTri(env, l) != MOD
  }

  /** A single test is replaced by a symbol of the same value exactly when that is not m. */
  lemma TransBoolTestExact(s: Symbol, env: Env)
    requires WellTyped(env) && TypeOf(s).Tristate?
    ensures Eval(TransBool(Comp(Unequal, s, SymNo)), env) == Eval(Comp(Unequal, s, SymNo), env)
            <==> SymTri(env, s) != MOD
  {
    hide Compare, CompValue, WellTyped;
    WellTypedTests(s, env);
  }

  /** When none of the symbols tested is m, expr_trans_bool keeps the value of any tree. */
  lemma {:induction false} TransBoolKeepsValue(e: Expr, env: Env)
    requires WellTyped(env) && TestsCrisp(e, env)
    ensures Eval(TransBool(e), env) == Eval(e, env)
  {
    hide Compare, CompValue, WellTyped;
    match e
    case Sym(_) =>
    case Not(a) => TransBoolKeepsValue(a, env);
    case Bin(_, l, r) => TransBoolKeepsValue(l, env); TransBoolKeepsValue(r, env);
    case Comp(op, l, r) =>
      if op.Unequal? && TypeOf(l).Tristate? && r == SymNo { TransBoolTestExact(l, env); }
  }

  /** It does not keep the value itself, and under a negated comparison not even "is not n". */
  lemma TransBoolChangesValues()
    ensures exists e, env :: WellTyped(env) && NegatesSymbols(e) && Eval(TransBool(e), env) != Eval(e, env)
    ensures exists e, env :: WellTyped(env) && Eval(e, env) == NO && Eval(TransBool(e), env) != NO
  {
    var foo := Config(0, Tristate);
    var env := Env((s: Symbol) => if s.Config? && s.kind.Tristate? then MOD else NO,
                   (s: Symbol) => if s.Config? && s.kind.Tristate? then "m" else "n",
                   (_, _) => None);
    var test := Comp(Unequal, foo, SymNo);
    EqualTriConst(env, foo, SymNo);
    assert WellTyped(env) && NegatesSymbols(test) && Eval(TransBool(test), env) != Eval(test, env);
    assert Eval(Not(test), env) == NO && Eval(TransBool(Not(test)), env) != NO;
    hide Eval, NegatesSymbols, TransBool, WellTyped;
  }

  // ------------------------------------- duplicate elimination keeps the form

  lemma {:induction false} NegatesSymbolsLeaves(op: BinOp, e: Expr)
    ensures NegatesSymbols(e) <==> AllNegateSymbols(Leaves(op, e))
  {
    if IsNode(op, e) {
      NegatesSymbolsLeaves(op, e.left);
      NegatesSymbolsLeaves(op, e.right);
      var L, R := Leaves(op, e.left), Leaves(op, e.right);
      assert Leaves(op, e) == L + R;
      forall i | 0 <= i < |L| && AllNegateSymbols(L + R) ensures NegatesSymbols(L[i]) { assert (L + R)[i] == L[i]; }
      forall i | 0 <= i < |R| && AllNegateSymbols(L + R) ensures NegatesSymbols(R[i]) {
        assert (L + R)[|L| + i] == R[i];
      }
    } else {
      assert Leaves(op, e)[0] == e;
    }
  }

  ghost predicate AllNegateSymbols(ls: seq<Expr>) { forall i :: 0 <= i < |ls| ==> NegatesSymbols(ls[i]) }

  lemma JoinNegatesSymbols(op: BinOp, e1: Expr, e2: Expr)
    requires Join(op, e1, e2).Some? && NegatesSymbols(e1)
    ensures NegatesSymbols(Join(op, e1, e2).value)
  {
    hide ExprEq;
  }

  lemma {:induction false} PassNegatesSymbols(e: Expr)
    requires NegatesSymbols(e)
    ensures NegatesSymbols(DupsPass(e).expr)
    decreases Size(e) + 1, 4
  {
    hide DupsRows, DupsRow, DupsPair;
    if e.Bin? {
      var ls := Leaves(e.op, e);
      LeavesAreLeaves(e.op, e);
      SizeIsTotal(e.op, e);
      NegatesSymbolsLeaves(e.op, e);
      RowsNegateSymbols(e.op, ls, 0);
      var run := DupsRows(e.op, ls, 0, |ls|, 0, |ls|);
      RebuildLeaves(e.op, e, run.leaves);
      NegatesSymbolsLeaves(e.op, Rebuild(e.op, e, run.leaves));
    }
  }

  lemma {:induction false} RowsNegateSymbols(op: BinOp, ls: seq<Expr>, i: nat)
    requires i <= |ls| && NoneIsNode(op, ls) && AllNegateSymbols(ls)
    ensures AllNegateSymbols(DupsRows(op, ls, i, |ls|, 0, |ls|).leaves)
    decreases TotalSize(ls) + |ls|, 3, |ls| - i
  {
    hide DupsPass, DupsRow, DupsPair, AllNegateSymbols;
    if i < |ls| {
      RowNegatesSymbols(op, ls, i, 0, |ls|);
      RowsNegateSymbols(op, DupsRow(op, ls, i, 0, |ls|).leaves, i + 1);
    }
  }

  lemma {:induction false} RowNegatesSymbols(op: BinOp, ls: seq<Expr>, i: nat, j: nat, jEnd: nat)
    requires i < |ls| && j <= jEnd <= |ls| && NoneIsNode(op, ls) && AllNegateSymbols(ls)
    ensures AllNegateSymbols(DupsRow(op, ls, i, j, jEnd).leaves)
    decreases TotalSize(ls) + |ls|, 2, jEnd - j
  {
    hide DupsPass, DupsRows, DupsPair, AllNegateSymbols;
    if j == jEnd {
    } else if i == j {
      RowNegatesSymbols(op, ls, i, j + 1, jEnd);
    } else {
      PairNegatesSymbols(op, ls, i, j);
      RowNegatesSymbols(op, DupsPair(op, ls, i, j).leaves, i, j + 1, jEnd);
    }
  }

  lemma {:induction false} PairNegatesSymbols(op: BinOp, ls: seq<Expr>, i: nat, j: nat)
    requires i < |ls| && j < |ls| && i != j && NoneIsNode(op, ls) && AllNegateSymbols(ls)
    ensures AllNegateSymbols(DupsPair(op, ls, i, j).leaves)
    decreases TotalSize(ls) + |ls|, 1
  {
    hide DupsPass, DupsRows, DupsRow, Join;
    TotalSizeAtLeast(ls, i);
    PassNegatesSymbols(ls[i]);
    var x := DupsPass(ls[i]).expr;
    if Join(op, x, ls[j]).Some? { JoinNegatesSymbols(op, x, ls[j]); }
  }

  lemma {:induction false} YnNegatesSymbols(e: Expr)
    requires NegatesSymbols(e)
    ensures NegatesSymbols(EliminateYn(e))
  {
    if e.Bin? { YnNegatesSymbols(e.left); YnNegatesSymbols(e.right); }
  }

  /** Duplicate elimination introduces no negation over anything but a symbol. */
  lemma {:induction false} EliminateDupsNegatesSymbols(e: Expr)
    requires NegatesSymbols(e)
    ensures NegatesSymbols(EliminateDups(e))
    decreases Size(e)
  {
    hide DupsPass;
    PassNegatesSymbols(e);
    if DupsPass(e).count > 0 {
      PassThenYnShrinks(e);
      YnNegatesSymbols(DupsPass(e).expr);
      EliminateDupsNegatesSymbols(EliminateYn(DupsPass(e).expr));
    }
  }

  lemma {:induction false} NormalNegatesSymbols(e: Expr)
    requires Normal(e)
    ensures NegatesSymbols(e)
  {
    if e.Bin? { NormalNegatesSymbols(e.left); NormalNegatesSymbols(e.right); }
  }

  function AllocAnd(a: Option<Expr>, b: Option<Expr>): Option<Expr> {
    if a.None? then b else if b.None? then a else Some(Bin(OpAnd, a.value, b.value))
  }

  /** The condition menu_finalize stores for a menu entry or property: the inherited
      condition and the entry's own, simplified; `asBool` for non-tristate symbols. */
  function PropagatedDep(base: Option<Expr>, dep: Option<Expr>, asBool: bool): Option<Expr> {
    var own := if dep.None? then None else Some(Transform(dep.value));
    var both := AllocAnd(base, own);
    var simple := if both.None? then None else Some(EliminateDups(both.value));
    if asBool && simple.Some? then Some(TransBool(simple.value)) else simple
  }

  /** Propagating a condition keeps its value for tristate entries, and keeps whether
      it is met for all others. */
  lemma PropagatedDepSound(base: Option<Expr>, dep: Option<Expr>, asBool: bool, env: Env)
    requires WellTyped(env)
    requires base.Some? ==> NegatesSymbols(base.value)
    requires dep.Some? ==> Orderable(dep.value, false)
    ensures var value := TriAnd(EvalOpt(base, env), EvalOpt(dep, env));
            var r := EvalOpt(PropagatedDep(base, dep, asBool), env);
            && (!asBool ==> r == value)
            && (r != NO <==> value != NO)
    ensures var r := PropagatedDep(base, dep, asBool); r.Some? ==> NegatesSymbols(r.value)
  {
    hide Transform, EliminateDups, TransBool, WellTyped;
    if dep.Some? {
      TransformPreservesValue(dep.value, env);
      TransformIsNormal(dep.value);
      NormalNegatesSymbols(Transform(dep.value));
    }
    var both := AllocAnd(base, if dep.None? then None else Some(Transform(dep.value)));
    if both.Some? {
      EliminateDupsPreservesValue(both.value, env);
      EliminateDupsNegatesSymbols(both.value);
      TransBoolKeepsVisibility(EliminateDups(both.value), env);
      TransBoolNegatesSymbols(EliminateDups(both.value));
    }
  }
}
