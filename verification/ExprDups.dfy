/** Joining of two operands and the duplicate elimination built on it
    (expr.c:358-592). */
module KDups {
  import opened KExpr
  import opened KEliminateEq

  // ------------------------------------------------------------- joining

  predicate IsEquality(e: Expr) { e.Comp? && (e.cop.Equal? || e.cop.Unequal?) }

  predicate IsComp(op: CompOp, rhs: Symbol, e: Expr) { e.Comp? && e.cop == op && e.rhs == rhs }

  /** The symbol tested by the first operand, if it has a form that can be joined. */
  function FirstSym(e: Expr): Option<Symbol> {
    if IsEquality(e) then Some(e.lhs)
    else if e.Sym? then Some(e.sym)
    else if e.Not? && IsEquality(e.arg) then Some(e.arg.lhs)
    else if e.Not? && e.arg.Sym? then Some(e.arg.sym)
    else None
  }

  /** Likewise for the second operand; a negation must be of a plain symbol. */
  function SecondSym(e: Expr): Option<Symbol> {
    if IsEquality(e) then Some(e.lhs)
    else if e.Sym? then Some(e.sym)
    else if e.Not? && e.arg.Sym? then Some(e.arg.sym)
    else None
  }

  /** The boolean or tristate symbol that both operands test. */
  function SharedSym(e1: Expr, e2: Expr): Option<Symbol> {
    match (FirstSym(e1), SecondSym(e2))
    case (Some(s), Some(t)) =>
      if s == t && (TypeOf(s).Boolean? || TypeOf(s).Tristate?) then Some(s) else None
    case _ => None
  }

  /** One operand is `a` and the other `b`, in either order. */
  predicate EitherWay(op: CompOp, a: Symbol, b: Symbol, e1: Expr, e2: Expr) {
    (IsComp(op, a, e1) && IsComp(op, b, e2)) || (IsComp(op, b, e1) && IsComp(op, a, e2))
  }

  /** One operand is a plain symbol and the other compares with `c`. */
  predicate SymAndComp(op: CompOp, c: Symbol, e1: Expr, e2: Expr) {
    (e1.Sym? && IsComp(op, c, e2)) || (e2.Sym? && IsComp(op, c, e1))
  }

  /** expr_join_or; None stands for NULL. */
  function JoinOr(e1: Expr, e2: Expr): Option<Expr> {
    if ExprEq(e1, e2) then Some(e1)
    else match SharedSym(e1, e2)
      case None => None
      case Some(s) =>
        if TypeOf(s).Tristate? && EitherWay(Equal, SymYes, SymMod, e1, e2) then Some(Comp(Unequal, s, SymNo))
        else if TypeOf(s).Tristate? && EitherWay(Equal, SymYes, SymNo, e1, e2) then Some(Comp(Unequal, s, SymMod))
        else if TypeOf(s).Tristate? && EitherWay(Equal, SymMod, SymNo, e1, e2) then Some(Comp(Unequal, s, SymYes))
        else if TypeOf(s).Boolean? && ((e1.Not? && e1.arg.Sym? && e2.Sym?) || (e2.Not? && e2.arg.Sym? && e1.Sym?))
        then Some(Sym(SymYes))
        else None
  }

  /** (a = b) && (a != c) for constants b and c. */
  function JoinEqualUnequal(s: Symbol, b: Symbol, c: Symbol): Expr {
    if b != c then Comp(Equal, s, b) else Sym(SymNo)
  }

  /** expr_join_and. */
  function JoinAnd(e1: Expr, e2: Expr): Option<Expr> {
    if ExprEq(e1, e2) then Some(e1)
    else match SharedSym(e1, e2)
      case None => None
      case Some(s) =>
        if SymAndComp(Equal, SymYes, e1, e2) then Some(Comp(Equal, s, SymYes))
        else if SymAndComp(Unequal, SymNo, e1, e2) then Some(Sym(s))
        else if SymAndComp(Unequal, SymMod, e1, e2) then Some(Comp(Equal, s, SymYes))
        else if !TypeOf(s).Tristate? then None
        else if e1.Comp? && e1.cop.Equal? && e2.Comp? && e2.cop.Unequal? && IsConst(e2.rhs) && IsConst(e1.rhs)
        then Some(JoinEqualUnequal(s, e1.rhs, e2.rhs))
        else if e1.Comp? && e1.cop.Unequal? && e2.Comp? && e2.cop.Equal? && IsConst(e1.rhs) && IsConst(e2.rhs)
        then Some(JoinEqualUnequal(s, e2.rhs, e1.rhs))
        else if EitherWay(Unequal, SymYes, SymNo, e1, e2) then Some(Comp(Equal, s, SymMod))
        else if EitherWay(Unequal, SymYes, SymMod, e1, e2) then Some(Comp(Equal, s, SymNo))
        else if EitherWay(Unequal, SymMod, SymNo, e1, e2) then Some(Comp(Equal, s, SymYes))
        else None
  }

  function Join(op: BinOp, e1: Expr, e2: Expr): Option<Expr> {
    if op.OpOr? then JoinOr(e1, e2) else JoinAnd(e1, e2)
  }

  /** The six tests of a boolean or tristate symbol against y, m and n. */
  ghost predicate TestsAreExact(s: Symbol, env: Env) {
    && Eval(Comp(Equal, s, SymYes), env) == TriOf(SymTri(env, s) == YES)
    && Eval(Comp(Equal, s, SymMod), env) == TriOf(SymTri(env, s) == MOD)
    && Eval(Comp(Equal, s, SymNo), env) == TriOf(SymTri(env, s) == NO)
    && Eval(Comp(Unequal, s, SymYes), env) == TriOf(SymTri(env, s) != YES)
    && Eval(Comp(Unequal, s, SymMod), env) == TriOf(SymTri(env, s) != MOD)
    && Eval(Comp(Unequal, s, SymNo), env) == TriOf(SymTri(env, s) != NO)
  }

  lemma WellTypedTests(s: Symbol, env: Env)
    requires WellTyped(env)
    requires TypeOf(s).Boolean? || TypeOf(s).Tristate?
    ensures TestsAreExact(s, env)
    ensures TypeOf(s).Boolean? ==> SymTri(env, s) != MOD
  {
    hide Compare, SymText;
    EqualTriConst(env, s, SymYes);
    EqualTriConst(env, s, SymMod);
    EqualTriConst(env, s, SymNo);
  }

  lemma OrRulesSound(s: Symbol, e1: Expr, e2: Expr, env: Env)
    requires !ExprEq(e1, e2) && SharedSym(e1, e2) == Some(s) && JoinOr(e1, e2).Some?
    requires TestsAreExact(s, env) && (TypeOf(s).Boolean? ==> SymTri(env, s) != MOD)
    ensures Eval(JoinOr(e1, e2).value, env) == TriOr(Eval(e1, env), Eval(e2, env))
  {
    hide ExprEq, Compare, CompValue;
  }

  /** (a = 'b') && (a != 'c') for constants: never both when b is c, otherwise just a = 'b'. */
  lemma EqualUnequalSound(s: Symbol, b: Symbol, c: Symbol, env: Env)
    requires TypeOf(s).Boolean? || TypeOf(s).Tristate?
    requires IsConst(b) && IsConst(c)
    ensures Eval(JoinEqualUnequal(s, b, c), env)
         == TriAnd(Eval(Comp(Equal, s, b), env), Eval(Comp(Unequal, s, c), env))
  {
    hide Compare, SymText;
    CompareTri(env, s, b);
    CompareTri(env, s, c);
    ConstTextInjective(env, b, c);
  }

  lemma AndRulesSound(s: Symbol, e1: Expr, e2: Expr, env: Env)
    requires !ExprEq(e1, e2) && SharedSym(e1, e2) == Some(s) && JoinAnd(e1, e2).Some?
    requires TestsAreExact(s, env)
    ensures Eval(JoinAnd(e1, e2).value, env) == TriAnd(Eval(e1, env), Eval(e2, env))
  {
    hide ExprEq, Compare, CompValue;
    if IsEquality(e1) && IsEquality(e2) && IsConst(e1.rhs) && IsConst(e2.rhs) {
      if e1.cop.Equal? {
        EqualUnequalSound(s, e1.rhs, e2.rhs, env);
      } else {
        EqualUnequalSound(s, e2.rhs, e1.rhs, env);
      }
    }
  }

  /** A joined pair has the value of the two operands under the operator, for every
      well-typed assignment. */
  lemma JoinSound(op: BinOp, e1: Expr, e2: Expr, env: Env)
    requires WellTyped(env) && Join(op, e1, e2).Some?
    ensures Eval(Join(op, e1, e2).value, env) == BinValue(op, Eval(e1, env), Eval(e2, env))
  {
    if ExprEq(e1, e2) {
      ExprEqSound(e1, e2, env);
    } else {
      hide ExprEq, Compare, CompValue, TestsAreExact;
      var s := SharedSym(e1, e2).value;
      WellTypedTests(s, env);
      if op.OpOr? { OrRulesSound(s, e1, e2, env); } else { AndRulesSound(s, e1, e2, env); }
    }
  }

  /** Which pairs of tests of one symbol are joined: of a tristate symbol, under AND a required and
      an excluded constant, and two excluded values; under OR two required values; of any symbol a
      repetition. */
  lemma JoinTestsExactly(s: Symbol, p: CompOp, b: Symbol, q: CompOp, c: Symbol)
    requires (p.Equal? || p.Unequal?) && (q.Equal? || q.Unequal?)
    ensures Join(OpAnd, Comp(p, s, b), Comp(q, s, c)).Some? <==>
              || (p == q && b == c)
              || (TypeOf(s).Tristate? && p != q && IsConst(b) && IsConst(c))
              || (TypeOf(s).Tristate? && p.Unequal? && q.Unequal? && IsTriConst(b) && IsTriConst(c))
    ensures Join(OpOr, Comp(p, s, b), Comp(q, s, c)).Some? <==>
              || (p == q && b == c)
              || (TypeOf(s).Tristate? && p.Equal? && q.Equal? && IsTriConst(b) && IsTriConst(c))
  {
    hide EliminateEq, EliminatePairs;
  }

  /** A plain boolean or tristate symbol is joined under AND with a test for y, or against n or m,
      on either side, and a boolean one under OR with its negation. */
  lemma JoinPlainExactly(s: Symbol, p: CompOp, c: Symbol)
    requires (TypeOf(s).Boolean? || TypeOf(s).Tristate?) && (p.Equal? || p.Unequal?)
    ensures var (e, t) := (Sym(s), Comp(p, s, c));
            && (Join(OpAnd, e, t).Some? <==> if p.Equal? then c == SymYes else c == SymNo || c == SymMod)
            && (Join(OpAnd, t, e).Some? <==> if p.Equal? then c == SymYes else c == SymNo || c == SymMod)
            && Join(OpOr, e, t).None? && Join(OpOr, t, e).None?
    ensures var (e, n) := (Sym(s), Not(Sym(s)));
            && (Join(OpOr, e, n).Some? <==> TypeOf(s).Boolean?) && (Join(OpOr, n, e).Some? <==> TypeOf(s).Boolean?)
            && Join(OpAnd, e, n).None? && Join(OpAnd, n, e).None?
    ensures var (n, t) := (Not(Sym(s)), Comp(p, s, c));
            forall op :: Join(op, n, t).None? && Join(op, t, n).None?
  {
    hide EliminateEq, EliminatePairs;
  }

  /** A symbol, its negation, or a test whether it is or is not something */
  ghost predicate Tests(e: Expr, s: Symbol) {
    e == Sym(s) || e == Not(Sym(s)) || (IsEquality(e) && e.lhs == s)
  }

  /** Nothing else is joined, but what expr_eq calls equal. */
  lemma OnlyTestsAreJoined(op: BinOp, e1: Expr, e2: Expr)
    requires Join(op, e1, e2).Some? && !ExprEq(e1, e2)
    ensures exists s :: (TypeOf(s).Boolean? || TypeOf(s).Tristate?) && Tests(e1, s) && Tests(e2, s)
  {
    hide ExprEq;
    var s := SharedSym(e1, e2).value;
    assert Tests(e1, s) && Tests(e2, s);
  }

  // ---------------------------------------------------------- tree sizes

  function TotalSize(ls: seq<Expr>): nat {
    if ls == [] then 0 else Size(ls[0]) + TotalSize(ls[1..])
  }

  lemma {:induction false} TotalSizeConcat(a: seq<Expr>, b: seq<Expr>)
    ensures TotalSize(a + b) == TotalSize(a) + TotalSize(b)
  {
    if a == [] {
      assert a + b == b;
    } else {
      assert (a + b)[1..] == a[1..] + b;
      TotalSizeConcat(a[1..], b);
    }
  }

  lemma {:induction false} TotalSizeUpdate(ls: seq<Expr>, i: nat, x: Expr)
    requires i < |ls|
    ensures TotalSize(ls[i := x]) == TotalSize(ls) - Size(ls[i]) + Size(x)
  {
    if i > 0 {
      assert ls[i := x][1..] == ls[1..][i - 1 := x];
      TotalSizeUpdate(ls[1..], i - 1, x);
    }
  }

  lemma {:induction false} TotalSizeAtLeast(ls: seq<Expr>, i: nat)
    requires i < |ls|
    ensures Size(ls[i]) + |ls| - 1 <= TotalSize(ls)
  {
    if |ls| > 1 {
      TotalSizeAtLeast(ls[1..], if i > 0 then i - 1 else 0);
    }
  }

  /** An AND/OR spine is its operands and one node fewer. */
  lemma {:induction false} SizeIsTotal(op: BinOp, e: Expr)
    ensures Size(e) == TotalSize(Leaves(op, e)) + |Leaves(op, e)| - 1
  {
    if IsNode(op, e) {
      SizeIsTotal(op, e.left);
      SizeIsTotal(op, e.right);
      TotalSizeConcat(Leaves(op, e.left), Leaves(op, e.right));
    }
  }

  lemma JoinShrinks(op: BinOp, e1: Expr, e2: Expr)
    requires Join(op, e1, e2).Some?
    ensures Size(Join(op, e1, e2).value) + 1 <= Size(e1) + Size(e2)
  {
    hide ExprEq;
  }

  /** The operands of a spine are not spine nodes themselves. */
  ghost predicate NoneIsNode(op: BinOp, ls: seq<Expr>) {
    forall i :: 0 <= i < |ls| ==> !IsNode(op, ls[i])
  }

  lemma {:induction false} LeavesAreLeaves(op: BinOp, e: Expr)
    ensures NoneIsNode(op, Leaves(op, e))
    ensures IsNode(op, e) ==> |Leaves(op, e)| >= 2
  {
    if IsNode(op, e) {
      LeavesAreLeaves(op, e.left);
      LeavesAreLeaves(op, e.right);
    }
  }

  /** The spine of `e` over other operands. */
  function Rebuild(op: BinOp, e: Expr, ls: seq<Expr>): Expr
    requires |ls| == |Leaves(op, e)|
  {
    if IsNode(op, e) then
      var n := |Leaves(op, e.left)|;
      Bin(op, Rebuild(op, e.left, ls[..n]), Rebuild(op, e.right, ls[n..]))
    else ls[0]
  }

  lemma {:induction false} RebuildLeaves(op: BinOp, e: Expr, ls: seq<Expr>)
    requires |ls| == |Leaves(op, e)| && NoneIsNode(op, ls)
    ensures Leaves(op, Rebuild(op, e, ls)) == ls
    ensures IsNode(op, e) ==> IsNode(op, Rebuild(op, e, ls))
  {
    if IsNode(op, e) {
      var n := |Leaves(op, e.left)|;
      RebuildLeaves(op, e.left, ls[..n]);
      RebuildLeaves(op, e.right, ls[n..]);
      assert ls == ls[..n] + ls[n..];
    } else {
      assert ls == [ls[0]];
    }
  }

  lemma {:induction false} RebuildSame(op: BinOp, e: Expr)
    ensures Rebuild(op, e, Leaves(op, e)) == e
  {
    if IsNode(op, e) {
      var L, R := Leaves(op, e.left), Leaves(op, e.right);
      assert (L + R)[..|L|] == L && (L + R)[|L|..] == R;
      RebuildSame(op, e.left);
      RebuildSame(op, e.right);
    }
  }

  // ---------------------------------------------------------- one pass

  /** The operands of a spine during a pass, and how often trans_count was bumped. */
  datatype Run = Run(leaves: seq<Expr>, count: nat)

  datatype Counted = Counted(expr: Expr, count: nat)

  /** expr_eliminate_dups1 called with both arguments on the same tree: every ordered
      pair of distinct operand positions is visited, row by row. */
  function DupsPass(e: Expr): (r: Counted)
    ensures Size(r.expr) <= Size(e)
    ensures e.Bin? ==> IsNode(e.op, r.expr)
    ensures !e.Bin? ==> r == Counted(e, 0)
    decreases Size(e) + 1, 4
  {
    if !e.Bin? then Counted(e, 0)
    else
      var ls := Leaves(e.op, e);
      LeavesAreLeaves(e.op, e);
      SizeIsTotal(e.op, e);
      var run := DupsRows(e.op, ls, 0, |ls|, 0, |ls|);
      RebuildLeaves(e.op, e, run.leaves);
      SizeIsTotal(e.op, Rebuild(e.op, e, run.leaves));
      Counted(Rebuild(e.op, e, run.leaves), run.count)
  }

  /** Operands i, ..., iEnd-1 against operands j, ..., jEnd-1. */
  function DupsRows(op: BinOp, ls: seq<Expr>, i: nat, iEnd: nat, j: nat, jEnd: nat): (r: Run)
    requires i <= iEnd <= |ls| && j <= jEnd <= |ls| && NoneIsNode(op, ls)
    ensures |r.leaves| == |ls| && NoneIsNode(op, r.leaves)
    ensures TotalSize(r.leaves) <= TotalSize(ls)
    decreases TotalSize(ls) + |ls|, 3, iEnd - i
  {
    if i == iEnd then Run(ls, 0)
    else
      var first := DupsRow(op, ls, i, j, jEnd);
      var rest := DupsRows(op, first.leaves, i + 1, iEnd, j, jEnd);
      Run(rest.leaves, first.count + rest.count)
  }

  /** Operand i against operands j, ..., jEnd-1 other than itself. */
  function DupsRow(op: BinOp, ls: seq<Expr>, i: nat, j: nat, jEnd: nat): (r: Run)
    requires i < |ls| && j <= jEnd <= |ls| && NoneIsNode(op, ls)
    ensures |r.leaves| == |ls| && NoneIsNode(op, r.leaves)
    ensures TotalSize(r.leaves) <= TotalSize(ls)
    decreases TotalSize(ls) + |ls|, 2, jEnd - j
  {
    if j == jEnd then Run(ls, 0)
    else if i == j then DupsRow(op, ls, i, j + 1, jEnd)
    else
      var first := DupsPair(op, ls, i, j);
      var rest := DupsRow(op, first.leaves, i, j + 1, jEnd);
      Run(rest.leaves, first.count + rest.count)
  }

  /** One pair of operands: duplicates inside the first one go first, then the two
      are joined if they can be. */
  function DupsPair(op: BinOp, ls: seq<Expr>, i: nat, j: nat): (r: Run)
    requires i < |ls| && j < |ls| && i != j && NoneIsNode(op, ls)
    ensures |r.leaves| == |ls| && NoneIsNode(op, r.leaves)
    ensures TotalSize(r.leaves) <= TotalSize(ls)
    decreases TotalSize(ls) + |ls|, 1
  {
    TotalSizeAtLeast(ls, i);
    var inner := DupsPass(ls[i]);
    var ls1 := ls[i := inner.expr];
    TotalSizeUpdate(ls, i, inner.expr);
    match Join(op, inner.expr, ls[j])
    case None => Run(ls1, inner.count)
    case Some(joined) =>
      var ls2 := ls1[i := Sym(Identity(op))];
      TotalSizeUpdate(ls1, i, Sym(Identity(op)));
      TotalSizeUpdate(ls2, j, joined);
      JoinShrinks(op, inner.expr, ls[j]);
      JoinIsLeaf(op, inner.expr, ls[j]);
      Run(ls2[j := joined], inner.count + 1)
  }

  lemma JoinIsLeaf(op: BinOp, e1: Expr, e2: Expr)
    requires Join(op, e1, e2).Some? && !IsNode(op, e1)
    ensures !IsNode(op, Join(op, e1, e2).value)
  {
    hide ExprEq;
  }

  // ------------------------------------------------ value of a pass

  /** Replacing two operands by the neutral symbol and their joint value changes nothing. */
  lemma FoldPairUpdate(op: BinOp, ls: seq<Expr>, i: nat, j: nat, x: Expr, env: Env)
    requires i < |ls| && j < |ls| && i != j
    requires Eval(x, env) == BinValue(op, Eval(ls[i], env), Eval(ls[j], env))
    ensures Fold(op, ls[i := Sym(Identity(op))][j := x], env) == Fold(op, ls, env)
  {
    var id := Sym(Identity(op));
    FoldExtract(op, ls, i, env);
    FoldExtract(op, ls[i := id], j, env);
    FoldExtract(op, ls[i := id][j := x], j, env);
    assert ls[i := id][j := x][j := id] == ls[i := id][j := id];
  }

  lemma FoldSameValue(op: BinOp, ls: seq<Expr>, i: nat, x: Expr, env: Env)
    requires i < |ls| && Eval(x, env) == Eval(ls[i], env)
    ensures Fold(op, ls[i := x], env) == Fold(op, ls, env)
  {
    FoldExtract(op, ls, i, env);
    FoldExtract(op, ls[i := x], i, env);
    assert ls[i := x][i := Sym(Identity(op))] == ls[i := Sym(Identity(op))];
  }

  lemma {:induction false} RebuildValue(op: BinOp, e: Expr, ls: seq<Expr>, env: Env)
    requires |ls| == |Leaves(op, e)| && NoneIsNode(op, ls)
    ensures Eval(Rebuild(op, e, ls), env) == Fold(op, ls, env)
  {
    RebuildLeaves(op, e, ls);
    EvalIsFold(op, Rebuild(op, e, ls), env);
  }

  lemma {:induction false} PassPreservesValue(e: Expr, env: Env)
    requires WellTyped(env)
    ensures Eval(DupsPass(e).expr, env) == Eval(e, env)
    decreases Size(e) + 1, 4
  {
    hide DupsRows, DupsRow, DupsPair;
    if e.Bin? {
      var ls := Leaves(e.op, e);
      LeavesAreLeaves(e.op, e);
      SizeIsTotal(e.op, e);
      RowsPreserveValue(e.op, ls, 0, |ls|, 0, |ls|, env);
      RebuildValue(e.op, e, DupsRows(e.op, ls, 0, |ls|, 0, |ls|).leaves, env);
      EvalIsFold(e.op, e, env);
    }
  }

  lemma {:induction false} RowsPreserveValue(op: BinOp, ls: seq<Expr>, i: nat, iEnd: nat, j: nat, jEnd: nat, env: Env)
    requires WellTyped(env)
    requires i <= iEnd <= |ls| && j <= jEnd <= |ls| && NoneIsNode(op, ls)
    ensures Fold(op, DupsRows(op, ls, i, iEnd, j, jEnd).leaves, env) == Fold(op, ls, env)
    decreases TotalSize(ls) + |ls|, 3, iEnd - i
  {
    hide DupsPass, DupsRow, DupsPair, Fold;
    if i < iEnd {
      RowPreservesValue(op, ls, i, j, jEnd, env);
      RowsPreserveValue(op, DupsRow(op, ls, i, j, jEnd).leaves, i + 1, iEnd, j, jEnd, env);
    }
  }

  lemma {:induction false} RowPreservesValue(op: BinOp, ls: seq<Expr>, i: nat, j: nat, jEnd: nat, env: Env)
    requires WellTyped(env)
    requires i < |ls| && j <= jEnd <= |ls| && NoneIsNode(op, ls)
    ensures Fold(op, DupsRow(op, ls, i, j, jEnd).leaves, env) == Fold(op, ls, env)
    decreases TotalSize(ls) + |ls|, 2, jEnd - j
  {
    hide DupsPass, DupsRows, DupsPair, Fold;
    if j == jEnd {
    } else if i == j {
      RowPreservesValue(op, ls, i, j + 1, jEnd, env);
    } else {
      PairPreservesValue(op, ls, i, j, env);
      RowPreservesValue(op, DupsPair(op, ls, i, j).leaves, i, j + 1, jEnd, env);
    }
  }

  lemma {:induction false} PairPreservesValue(op: BinOp, ls: seq<Expr>, i: nat, j: nat, env: Env)
    requires WellTyped(env)
    requires i < |ls| && j < |ls| && i != j && NoneIsNode(op, ls)
    ensures Fold(op, DupsPair(op, ls, i, j).leaves, env) == Fold(op, ls, env)
    decreases TotalSize(ls) + |ls|, 1
  {
    hide DupsPass, DupsRows, DupsRow, Fold, Join;
    TotalSizeAtLeast(ls, i);
    PassPreservesValue(ls[i], env);
    var x := DupsPass(ls[i]).expr;
    FoldSameValue(op, ls, i, x, env);
    if Join(op, x, ls[j]).Some? {
      JoinSound(op, x, ls[j], env);
      FoldPairUpdate(op, ls[i := x], i, j, Join(op, x, ls[j]).value, env);
    }
  }

  // ------------------------------------- a pass that finds nothing to do

  lemma LeavesSmaller(e: Expr, i: nat)
    requires e.Bin? && i < |Leaves(e.op, e)|
    ensures Size(Leaves(e.op, e)[i]) < Size(e)
  {
    LeavesAreLeaves(e.op, e);
    SizeIsTotal(e.op, e);
    TotalSizeAtLeast(Leaves(e.op, e), i);
  }

  /** No operand of a spine can be joined with another one, here or in any nested
      AND/OR operand. */
  ghost predicate Settled(e: Expr)
    decreases Size(e)
  {
    e.Bin? ==>
      && Unjoinable(e.op, Leaves(e.op, e))
      && (forall i :: 0 <= i < |Leaves(e.op, e)| ==> (LeavesSmaller(e, i); Settled(Leaves(e.op, e)[i])))
  }

  ghost predicate Unjoinable(op: BinOp, ls: seq<Expr>) {
    forall i, j :: 0 <= i < |ls| && 0 <= j < |ls| && i != j ==> Join(op, ls[i], ls[j]).None?
  }

  ghost predicate QuietPair(op: BinOp, a: Expr, b: Expr) { Settled(a) && Join(op, a, b).None? }

  ghost predicate QuietRow(op: BinOp, ls: seq<Expr>, i: nat, j: nat, jEnd: nat)
    requires i < |ls| && jEnd <= |ls|
  {
    forall b :: j <= b < jEnd && b != i ==> QuietPair(op, ls[i], ls[b])
  }

  /** A pass leaves trans_count at zero exactly when no two operands can be joined,
      and then it has changed nothing. */
  lemma {:induction false} PassCountsJoins(e: Expr)
    ensures DupsPass(e).count == 0 <==> Settled(e)
    ensures DupsPass(e).count == 0 ==> DupsPass(e).expr == e
    decreases Size(e) + 1, 4
  {
    hide DupsRows, DupsRow, DupsPair, Join;
    if e.Bin? {
      var ls := Leaves(e.op, e);
      LeavesAreLeaves(e.op, e);
      SizeIsTotal(e.op, e);
      RowsCountJoins(e.op, ls, 0);
      RebuildSame(e.op, e);
      if forall a :: 0 <= a < |ls| ==> QuietRow(e.op, ls, a, 0, |ls|) {
        forall i | 0 <= i < |ls| ensures Settled(ls[i]) {
          var other := if i == 0 then 1 else 0;
          assert QuietRow(e.op, ls, i, 0, |ls|);
          assert QuietPair(e.op, ls[i], ls[other]);
        }
        forall i, j | 0 <= i < |ls| && 0 <= j < |ls| && i != j ensures Join(e.op, ls[i], ls[j]).None? {
          assert QuietRow(e.op, ls, i, 0, |ls|);
          assert QuietPair(e.op, ls[i], ls[j]);
        }
      }
    }
  }

  lemma {:induction false} RowsCountJoins(op: BinOp, ls: seq<Expr>, i: nat)
    requires i <= |ls| && NoneIsNode(op, ls)
    ensures DupsRows(op, ls, i, |ls|, 0, |ls|).count == 0 <==>
              forall a :: i <= a < |ls| ==> QuietRow(op, ls, a, 0, |ls|)
    ensures DupsRows(op, ls, i, |ls|, 0, |ls|).count == 0 ==> DupsRows(op, ls, i, |ls|, 0, |ls|).leaves == ls
    decreases TotalSize(ls) + |ls|, 3, |ls| - i
  {
    hide DupsPass, DupsRow, DupsPair, QuietRow;
    if i < |ls| {
      RowCountsJoins(op, ls, i, 0, |ls|);
      RowsCountJoins(op, DupsRow(op, ls, i, 0, |ls|).leaves, i + 1);
    }
  }

  lemma {:induction false} RowCountsJoins(op: BinOp, ls: seq<Expr>, i: nat, j: nat, jEnd: nat)
    requires i < |ls| && j <= jEnd <= |ls| && NoneIsNode(op, ls)
    ensures DupsRow(op, ls, i, j, jEnd).count == 0 <==> QuietRow(op, ls, i, j, jEnd)
    ensures DupsRow(op, ls, i, j, jEnd).count == 0 ==> DupsRow(op, ls, i, j, jEnd).leaves == ls
    decreases TotalSize(ls) + |ls|, 2, jEnd - j
  {
    hide DupsPass, DupsRows, DupsPair, QuietPair;
    if j == jEnd {
    } else if i == j {
      RowCountsJoins(op, ls, i, j + 1, jEnd);
    } else {
      PairCountsJoins(op, ls, i, j);
      RowCountsJoins(op, DupsPair(op, ls, i, j).leaves, i, j + 1, jEnd);
    }
  }

  lemma {:induction false} PairCountsJoins(op: BinOp, ls: seq<Expr>, i: nat, j: nat)
    requires i < |ls| && j < |ls| && i != j && NoneIsNode(op, ls)
    ensures DupsPair(op, ls, i, j).count == 0 <==> QuietPair(op, ls[i], ls[j])
    ensures DupsPair(op, ls, i, j).count == 0 ==> DupsPair(op, ls, i, j).leaves == ls
    decreases TotalSize(ls) + |ls|, 1
  {
    hide DupsPass, DupsRows, DupsRow, Settled, Join;
    TotalSizeAtLeast(ls, i);
    PassCountsJoins(ls[i]);
  }

  // --------------------------------------------- progress and termination

  /** After a join there is a y or n operand to remove, or the tree already shrank. */
  ghost predicate Progress(e: Expr, before: nat) { HasYnOperand(e) || Size(e) < before }

  ghost predicate RunProgress(ls: seq<Expr>, before: nat) {
    || (exists i :: 0 <= i < |ls| && (IsYn(ls[i]) || HasYnOperand(ls[i])))
    || TotalSize(ls) < before
  }

  lemma {:induction false} RebuildHasYn(op: BinOp, e: Expr, ls: seq<Expr>, i: nat)
    requires IsNode(op, e) && |ls| == |Leaves(op, e)| && i < |ls|
    requires IsYn(ls[i]) || HasYnOperand(ls[i])
    ensures HasYnOperand(Rebuild(op, e, ls))
  {
    var n := |Leaves(op, e.left)|;
    if i < n {
      assert ls[..n][i] == ls[i];
      if IsNode(op, e.left) { RebuildHasYn(op, e.left, ls[..n], i); }
    } else {
      assert ls[n..][i - n] == ls[i];
      if IsNode(op, e.right) { RebuildHasYn(op, e.right, ls[n..], i - n); }
    }
  }

  lemma {:induction false} PassProgress(e: Expr)
    requires DupsPass(e).count > 0
    ensures Progress(DupsPass(e).expr, Size(e))
    decreases Size(e) + 1, 4
  {
    hide DupsRows, DupsRow, DupsPair, IsYn;
    var ls := Leaves(e.op, e);
    LeavesAreLeaves(e.op, e);
    SizeIsTotal(e.op, e);
    var run := DupsRows(e.op, ls, 0, |ls|, 0, |ls|);
    RowsProgress(e.op, ls, 0, |ls|, TotalSize(ls));
    var r := Rebuild(e.op, e, run.leaves);
    if i :| 0 <= i < |run.leaves| && (IsYn(run.leaves[i]) || HasYnOperand(run.leaves[i])) {
      RebuildHasYn(e.op, e, run.leaves, i);
    } else {
      RebuildLeaves(e.op, e, run.leaves);
      SizeIsTotal(e.op, r);
    }
  }

  /** Progress made by an earlier pair is not lost, and every counted join makes some. */
  lemma {:induction false} RowsProgress(op: BinOp, ls: seq<Expr>, i: nat, iEnd: nat, before: nat)
    requires i <= iEnd <= |ls| && NoneIsNode(op, ls) && TotalSize(ls) <= before
    requires RunProgress(ls, before) || DupsRows(op, ls, i, iEnd, 0, |ls|).count > 0
    ensures RunProgress(DupsRows(op, ls, i, iEnd, 0, |ls|).leaves, before)
    decreases TotalSize(ls) + |ls|, 3, iEnd - i
  {
    hide DupsPass, DupsRow, DupsPair, RunProgress;
    if i < iEnd {
      var first := DupsRow(op, ls, i, 0, |ls|);
      if RunProgress(ls, before) || first.count > 0 { RowProgress(op, ls, i, 0, |ls|, before); }
      RowsProgress(op, first.leaves, i + 1, iEnd, before);
    }
  }

  lemma {:induction false} RowProgress(op: BinOp, ls: seq<Expr>, i: nat, j: nat, jEnd: nat, before: nat)
    requires i < |ls| && j <= jEnd <= |ls| && NoneIsNode(op, ls) && TotalSize(ls) <= before
    requires RunProgress(ls, before) || DupsRow(op, ls, i, j, jEnd).count > 0
    ensures RunProgress(DupsRow(op, ls, i, j, jEnd).leaves, before)
    decreases TotalSize(ls) + |ls|, 2, jEnd - j
  {
    hide DupsPass, DupsRows, DupsPair, RunProgress;
    if j == jEnd {
    } else if i == j {
      RowProgress(op, ls, i, j + 1, jEnd, before);
    } else {
      var first := DupsPair(op, ls, i, j);
      if RunProgress(ls, before) || first.count > 0 { PairProgress(op, ls, i, j, before); }
      RowProgress(op, first.leaves, i, j + 1, jEnd, before);
    }
  }

  lemma {:induction false} PairProgress(op: BinOp, ls: seq<Expr>, i: nat, j: nat, before: nat)
    requires i < |ls| && j < |ls| && i != j && NoneIsNode(op, ls) && TotalSize(ls) <= before
    requires RunProgress(ls, before) || DupsPair(op, ls, i, j).count > 0
    ensures RunProgress(DupsPair(op, ls, i, j).leaves, before)
    decreases TotalSize(ls) + |ls|, 1
  {
    hide DupsPass, DupsRows, DupsRow, HasYnOperand, Join;
    TotalSizeAtLeast(ls, i);
    var inner := DupsPass(ls[i]);
    var run := DupsPair(op, ls, i, j);
    if Join(op, inner.expr, ls[j]).Some? {
      assert IsYn(run.leaves[i]);
    } else {
      TotalSizeUpdate(ls, i, inner.expr);
      PassCountsJoins(ls[i]);
      if inner.count == 0 {
        assert run.leaves == ls;
      } else {
        PassProgress(ls[i]);
        assert run.leaves[i] == inner.expr;
      }
    }
  }

  // ------------------------------------------------- eliminating duplicates

  /** expr_eliminate_dups: passes, with y/n removal in between, until one finds nothing. */
  function EliminateDups(e: Expr): Expr
    decreases Size(e)
  {
    var pass := DupsPass(e);
    if pass.count == 0 then pass.expr
    else
      PassThenYnShrinks(e);
      EliminateDups(EliminateYn(pass.expr))
  }

  /** Every pass that joined something leads to a strictly smaller tree, so the loop
      of expr_eliminate_dups ends. */
  lemma PassThenYnShrinks(e: Expr)
    requires DupsPass(e).count > 0
    ensures Size(EliminateYn(DupsPass(e).expr)) < Size(e)
  {
    hide DupsPass;
    PassProgress(e);
    EliminateYnShrinks(DupsPass(e).expr);
  }

  /** Duplicate elimination keeps the value under every well-typed assignment. */
  lemma {:induction false} EliminateDupsPreservesValue(e: Expr, env: Env)
    requires WellTyped(env)
    ensures Eval(EliminateDups(e), env) == Eval(e, env)
    decreases Size(e)
  {
    hide DupsPass;
    var pass := DupsPass(e);
    PassPreservesValue(e, env);
    if pass.count > 0 {
      PassThenYnShrinks(e);
      EliminateYnPreservesValue(pass.expr, env);
      EliminateDupsPreservesValue(EliminateYn(pass.expr), env);
    }
  }

  /** What it leaves has no two operands that could still be joined, at any AND/OR
      level, and it is no larger than the input. */
  lemma {:induction false} EliminateDupsSettles(e: Expr)
    ensures Settled(EliminateDups(e))
    ensures Size(EliminateDups(e)) <= Size(e)
    decreases Size(e)
  {
    hide DupsPass, Settled;
    var pass := DupsPass(e);
    PassCountsJoins(e);
    if pass.count > 0 {
      PassThenYnShrinks(e);
      EliminateDupsSettles(EliminateYn(pass.expr));
    }
  }

  /** It changes a tree exactly when there is something to join. */
  lemma EliminateDupsFixpoints(e: Expr)
    ensures EliminateDups(e) == e <==> Settled(e)
    ensures EliminateDups(EliminateDups(e)) == EliminateDups(e)
  {
    hide DupsPass, Settled;
    PassCountsJoins(e);
    EliminateDupsSettles(e);
    PassCountsJoins(EliminateDups(e));
  }
}
