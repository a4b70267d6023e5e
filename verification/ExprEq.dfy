/** Removal of y/n operands, structural equality up to cancellation, and the
    cancellation of common terms (expr.c:141-327). */
module KEliminateEq {
  import opened KExpr

  // -------------------------------------------------------- eliminate_yn

  /** One AND/OR node over operands that are already simplified. */
  function YnNode(op: BinOp, l: Expr, r: Expr): Expr {
    if l == Sym(Absorbing(op)) then l
    else if l == Sym(Identity(op)) then r
    else if r == Sym(Absorbing(op)) then r
    else if r == Sym(Identity(op)) then l
    else Bin(op, l, r)
  }

  function EliminateYn(e: Expr): Expr {
    match e
    case Bin(op, l, r) => YnNode(op, EliminateYn(l), EliminateYn(r))
    case _ => e
  }

  /** Some AND/OR node reached through AND/OR nodes only has a y or n operand. */
  ghost predicate HasYnOperand(e: Expr) {
    e.Bin? && (IsYn(e.left) || IsYn(e.right) || HasYnOperand(e.left) || HasYnOperand(e.right))
  }

  predicate IsYn(e: Expr) { e == Sym(SymYes) || e == Sym(SymNo) }

  lemma {:induction false} EliminateYnPreservesValue(e: Expr, env: Env)
    ensures Eval(EliminateYn(e), env) == Eval(e, env)
  {
    if e.Bin? {
      EliminateYnPreservesValue(e.left, env);
      EliminateYnPreservesValue(e.right, env);
    }
  }

  /** The simplifier never grows a tree, shrinks it exactly when there is a y or n
      operand to remove, and leaves none behind. */
  lemma {:induction false} EliminateYnShrinks(e: Expr)
    ensures Size(EliminateYn(e)) <= Size(e)
    ensures HasYnOperand(e) ==> Size(EliminateYn(e)) < Size(e)
    ensures !HasYnOperand(e) ==> EliminateYn(e) == e
    ensures !HasYnOperand(EliminateYn(e))
  {
    if e.Bin? {
      EliminateYnShrinks(e.left);
      EliminateYnShrinks(e.right);
    }
  }

  // ------------------------------------------------- equality and factoring

  /** Same `type` field: the constructor, and for AND/OR and the comparisons the operator. */
  predicate SameType(a: Expr, b: Expr) {
    match (a, b)
    case (Sym(_), Sym(_)) => true
    case (Not(_), Not(_)) => true
    case (Bin(o, _, _), Bin(p, _, _)) => o == p
    case (Comp(o, _, _), Comp(p, _, _)) => o == p
    case _ => false
  }

  /** expr_eq; it works on copies, so neither argument changes. */
  function ExprEq(e1: Expr, e2: Expr): bool
    decreases Size(e1) + Size(e2), 2
  {
    match (e1, e2)
    case (Comp(_, _, _), Comp(_, _, _)) => e1 == e2
    case (Sym(a), Sym(b)) => a == b
    case (Not(a), Not(b)) => ExprEq(a, b)
    case (Bin(o, _, _), Bin(p, _, _)) =>
      o == p && (var (a, b) := EliminateEq(e1, e2); a.Sym? && b.Sym? && a.sym == b.sym)
    case _ => false
  }

  /** expr_eliminate_eq: the two trees it leaves in its arguments. */
  function EliminateEq(e1: Expr, e2: Expr): (r: (Expr, Expr))
    decreases Size(e1) + Size(e2), 1
  {
    var (a, b) := if e1.Bin? then EliminatePairs(e1.op, e1, e2) else (e1, e2);
    var (c, d) := if !SameType(a, b) && b.Bin? then EliminatePairs(b.op, a, b) else (a, b);
    (EliminateYn(c), EliminateYn(d))
  }

  /** __expr_eliminate_eq: every leaf of the first `op` spine against every leaf of
      the second; both partners of an equal pair become the identity of `op`. */
  function EliminatePairs(op: BinOp, e1: Expr, e2: Expr): (r: (Expr, Expr))
    ensures Size(r.0) <= Size(e1) && Size(r.1) <= Size(e2)
    ensures IsNode(op, e1) ==> IsNode(op, r.0)
    ensures IsNode(op, e2) ==> IsNode(op, r.1)
    decreases Size(e1) + Size(e2), if IsNode(op, e1) || IsNode(op, e2) then 0 else 3
  {
    if IsNode(op, e1) then
      var (l, s) := EliminatePairs(op, e1.left, e2);
      var (r, t) := EliminatePairs(op, e1.right, s);
      (Bin(op, l, r), t)
    else if IsNode(op, e2) then
      var (s, l) := EliminatePairs(op, e1, e2.left);
      var (t, r) := EliminatePairs(op, s, e2.right);
      (t, Bin(op, l, r))
    else if e1 == e2 && IsYn(e1) then (e1, e2)
    else if !ExprEq(e1, e2) then (e1, e2)
    else (Sym(Identity(op)), Sym(Identity(op)))
  }

  /** The terms EliminatePairs takes out of both trees, joined by `op`. */
  ghost function CommonTerms(op: BinOp, e1: Expr, e2: Expr): Expr
    decreases Size(e1) + Size(e2)
  {
    if IsNode(op, e1) then
      var s := EliminatePairs(op, e1.left, e2).1;
      Bin(op, CommonTerms(op, e1.left, e2), CommonTerms(op, e1.right, s))
    else if IsNode(op, e2) then
      var s := EliminatePairs(op, e1, e2.left).0;
      Bin(op, CommonTerms(op, e1, e2.left), CommonTerms(op, s, e2.right))
    else if (e1 == e2 && IsYn(e1)) || !ExprEq(e1, e2) then Sym(Identity(op))
    else e1
  }

  /** Trees that expr_eq calls equal have the same value under every assignment. */
  lemma {:induction false} ExprEqSound(e1: Expr, e2: Expr, env: Env)
    requires ExprEq(e1, e2)
    ensures Eval(e1, env) == Eval(e2, env)
    decreases Size(e1) + Size(e2), 2
  {
    match (e1, e2)
    case (Not(a), Not(b)) => ExprEqSound(a, b, env);
    case (Bin(o, _, _), Bin(_, _, _)) =>
      PairsFactor(o, e1, e2, env);
      var (a, b) := EliminatePairs(o, e1, e2);
      EliminateYnPreservesValue(a, env);
      EliminateYnPreservesValue(b, env);
    case _ =>
  }

  /** `e` is `op` of what is left of it and the common value `m`. */
  ghost predicate Splits(op: BinOp, e: Tri, rest: Tri, m: Tri) { e == BinValue(op, rest, m) }

  lemma SplitsNode(op: BinOp, l: Tri, r: Tri, e2: Tri, l': Tri, r': Tri, s: Tri, t: Tri, m1: Tri, m2: Tri)
    requires Splits(op, l, l', m1) && Splits(op, e2, s, m1)
    requires Splits(op, r, r', m2) && Splits(op, s, t, m2)
    ensures Splits(op, BinValue(op, l, r), BinValue(op, l', r'), BinValue(op, m1, m2))
    ensures Splits(op, e2, t, BinValue(op, m1, m2))
  {
  }

  /** One common factor is taken out of both trees: each is `op` of what is left and
      the common terms. */
  lemma {:induction false} PairsFactor(op: BinOp, e1: Expr, e2: Expr, env: Env)
    ensures Splits(op, Eval(e1, env), Eval(EliminatePairs(op, e1, e2).0, env), Eval(CommonTerms(op, e1, e2), env))
    ensures Splits(op, Eval(e2, env), Eval(EliminatePairs(op, e1, e2).1, env), Eval(CommonTerms(op, e1, e2), env))
    decreases Size(e1) + Size(e2), if IsNode(op, e1) || IsNode(op, e2) then 0 else 3
  {
    if IsNode(op, e1) {
      var (l, s) := EliminatePairs(op, e1.left, e2);
      var (r, t) := EliminatePairs(op, e1.right, s);
      var m1, m2 := CommonTerms(op, e1.left, e2), CommonTerms(op, e1.right, s);
      assert EliminatePairs(op, e1, e2) == (Bin(op, l, r), t);
      assert CommonTerms(op, e1, e2) == Bin(op, m1, m2);
      PairsFactor(op, e1.left, e2, env);
      PairsFactor(op, e1.right, s, env);
      SplitsNode(op, Eval(e1.left, env), Eval(e1.right, env), Eval(e2, env),
                 Eval(l, env), Eval(r, env), Eval(s, env), Eval(t, env), Eval(m1, env), Eval(m2, env));
    } else if IsNode(op, e2) {
      var (s, l) := EliminatePairs(op, e1, e2.left);
      var (t, r) := EliminatePairs(op, s, e2.right);
      var m1, m2 := CommonTerms(op, e1, e2.left), CommonTerms(op, s, e2.right);
      assert EliminatePairs(op, e1, e2) == (t, Bin(op, l, r));
      assert CommonTerms(op, e1, e2) == Bin(op, m1, m2);
      PairsFactor(op, e1, e2.left, env);
      PairsFactor(op, s, e2.right, env);
      SplitsNode(op, Eval(e2.left, env), Eval(e2.right, env), Eval(e1, env),
                 Eval(l, env), Eval(r, env), Eval(s, env), Eval(t, env), Eval(m1, env), Eval(m2, env));
    } else {
      if !(e1 == e2 && IsYn(e1)) && ExprEq(e1, e2) {
        ExprEqSound(e1, e2, env);
      }
    }
  }

  /** Two leaves of one spine type that are left alone by a pass stay as they are; a
      pair that cancels makes the second tree a symbol, so at most one of the two
      passes of expr_eliminate_eq takes anything out. */
  lemma {:induction false} LeafPassAllOrNothing(op: BinOp, e1: Expr, e2: Expr)
    requires !IsNode(op, e2)
    ensures EliminatePairs(op, e1, e2).1 == Sym(Identity(op)) || EliminatePairs(op, e1, e2) == (e1, e2)
    decreases e1
  {
    if IsNode(op, e1) {
      var (l, s) := EliminatePairs(op, e1.left, e2);
      LeafPassAllOrNothing(op, e1.left, e2);
      if (l, s) == (e1.left, e2) {
        LeafPassAllOrNothing(op, e1.right, e2);
      } else {
        LeafPassAllOrNothing(op, e1.right, Sym(Identity(op)));
      }
    }
  }

  /** One pass of expr_eliminate_eq followed by the removal of y/n operands. */
  lemma PassFactors(op: BinOp, e1: Expr, e2: Expr, env: Env)
    ensures var (a, b) := EliminatePairs(op, e1, e2);
            var m := Eval(CommonTerms(op, e1, e2), env);
            && Splits(op, Eval(e1, env), Eval(EliminateYn(a), env), m)
            && Splits(op, Eval(e2, env), Eval(EliminateYn(b), env), m)
  {
    PairsFactor(op, e1, e2, env);
    EliminateYnPreservesValue(EliminatePairs(op, e1, e2).0, env);
    EliminateYnPreservesValue(EliminatePairs(op, e1, e2).1, env);
  }

  /** Both trees are `op` of what expr_eliminate_eq leaves of them and `common`. */
  ghost predicate Factored(op: BinOp, common: Expr, e1: Expr, e2: Expr) {
    forall env: Env {:trigger Eval(common, env)} ::
      && Splits(op, Eval(e1, env), Eval(EliminateEq(e1, e2).0, env), Eval(common, env))
      && Splits(op, Eval(e2, env), Eval(EliminateEq(e1, e2).1, env), Eval(common, env))
  }

  /** One spine type's pass followed by the removal of y/n operands. */
  ghost function OnePass(op: BinOp, e1: Expr, e2: Expr): (Expr, Expr) {
    (EliminateYn(EliminatePairs(op, e1, e2).0), EliminateYn(EliminatePairs(op, e1, e2).1))
  }

  /** At most one of the two passes of expr_eliminate_eq takes anything out. */
  lemma EliminateEqIsOnePass(e1: Expr, e2: Expr)
    ensures
      || EliminateEq(e1, e2) == (EliminateYn(e1), EliminateYn(e2))
      || (exists op :: EliminateEq(e1, e2) == OnePass(op, e1, e2))
  {
    if e1.Bin? {
      var (a, b) := EliminatePairs(e1.op, e1, e2);
      if IsNode(e1.op, e2) {
        assert SameType(a, b);
        assert EliminateEq(e1, e2) == OnePass(e1.op, e1, e2);
      } else {
        LeafPassAllOrNothing(e1.op, e1, e2);
        if b == Sym(Identity(e1.op)) {
          assert EliminateEq(e1, e2) == OnePass(e1.op, e1, e2);
        } else if e2.Bin? {
          assert EliminateEq(e1, e2) == OnePass(e2.op, e1, e2);
        }
      }
    } else if e2.Bin? {
      assert EliminateEq(e1, e2) == OnePass(e2.op, e1, e2);
    }
  }

  /** What expr_eliminate_eq promises its callers: there are one operator and one
      common term such that both inputs are that operator applied to the remainder
      and the term, under every assignment. */
  lemma EliminateEqFactors(e1: Expr, e2: Expr) returns (op: BinOp, common: Expr)
    ensures Factored(op, common, e1, e2)
  {
    EliminateEqIsOnePass(e1, e2);
    if o :| EliminateEq(e1, e2) == OnePass(o, e1, e2) {
      op, common := o, CommonTerms(o, e1, e2);
      forall env: Env
        ensures Splits(op, Eval(e1, env), Eval(EliminateEq(e1, e2).0, env), Eval(common, env))
        ensures Splits(op, Eval(e2, env), Eval(EliminateEq(e1, e2).1, env), Eval(common, env))
      {
        PassFactors(o, e1, e2, env);
      }
    } else {
      op, common := OpAnd, Sym(SymYes);
      forall env: Env
        ensures Splits(op, Eval(e1, env), Eval(EliminateEq(e1, e2).0, env), Eval(common, env))
        ensures Splits(op, Eval(e2, env), Eval(EliminateEq(e1, e2).1, env), Eval(common, env))
      {
        EliminateYnPreservesValue(e1, env);
        EliminateYnPreservesValue(e2, env);
      }
    }
  }

  predicate IsYes(e: Expr) { e == Sym(SymYes) }

  lemma RestYesImplies(op: BinOp, e1: Tri, rest: Tri, e2: Tri, m: Tri)
    requires Splits(op, e1, rest, m) && Splits(op, e2, YES, m)
    ensures e1 <= e2
  {
  }

  /** The test menu_finalize makes: when cancelling leaves y of the second
      expression, the first implies it under every assignment. */
  lemma EliminateEqImplies(dep: Expr, basedep: Expr, env: Env)
    requires IsYes(EliminateEq(dep, basedep).1)
    ensures Eval(dep, env) <= Eval(basedep, env)
  {
    var op, common := EliminateEqFactors(dep, basedep);
    assert Eval(EliminateEq(dep, basedep).1, env) == YES;
    RestYesImplies(op, Eval(dep, env), Eval(EliminateEq(dep, basedep).0, env), Eval(basedep, env), Eval(common, env));
  }

  // -------------------------------------------- how much gets cancelled

  /** A pair of leaves that the pass has nothing more to do with. */
  predicate Finished(a: Expr, b: Expr) { (a == b && IsYn(a)) || !ExprEq(a, b) }

  lemma PairsLeftStep(op: BinOp, e1: Expr, e2: Expr, l: Expr, s: Expr, r: Expr, t: Expr)
    requires IsNode(op, e1)
    requires EliminatePairs(op, e1.left, e2) == (l, s)
    requires EliminatePairs(op, e1.right, s) == (r, t)
    ensures EliminatePairs(op, e1, e2) == (Bin(op, l, r), t)
  {
    hide ExprEq, EliminateEq;
  }

  lemma PairsRightStep(op: BinOp, e1: Expr, e2: Expr, s: Expr, l: Expr, t: Expr, r: Expr)
    requires !IsNode(op, e1) && IsNode(op, e2)
    requires EliminatePairs(op, e1, e2.left) == (s, l)
    requires EliminatePairs(op, s, e2.right) == (t, r)
    ensures EliminatePairs(op, e1, e2) == (t, Bin(op, l, r))
  {
    hide ExprEq, EliminateEq;
  }

  /** `after` is `before` with some leaves cancelled. */
  ghost predicate OnlyCancels(op: BinOp, before: Expr, after: Expr) {
    || after == before
    || (!IsNode(op, before) && after == Sym(Identity(op)))
    || (IsNode(op, before) && IsNode(op, after)
        && OnlyCancels(op, before.left, after.left) && OnlyCancels(op, before.right, after.right))
  }

  lemma {:induction false} OnlyCancelsTransitive(op: BinOp, a: Expr, b: Expr, c: Expr)
    requires OnlyCancels(op, a, b) && OnlyCancels(op, b, c)
    ensures OnlyCancels(op, a, c)
  {
    if IsNode(op, a) && IsNode(op, c) && a != b && b != c {
      OnlyCancelsTransitive(op, a.left, b.left, c.left);
      OnlyCancelsTransitive(op, a.right, b.right, c.right);
    }
  }

  lemma {:induction false} OnlyCancelsLeaves(op: BinOp, a: Expr, b: Expr)
    requires OnlyCancels(op, a, b)
    ensures forall x :: x in Leaves(op, b) ==> x in Leaves(op, a) || x == Sym(Identity(op))
  {
    if a != b && IsNode(op, a) {
      OnlyCancelsLeaves(op, a.left, b.left);
      OnlyCancelsLeaves(op, a.right, b.right);
    }
  }

  lemma {:induction false} PairsOnlyCancel(op: BinOp, e1: Expr, e2: Expr)
    ensures OnlyCancels(op, e1, EliminatePairs(op, e1, e2).0)
    ensures OnlyCancels(op, e2, EliminatePairs(op, e1, e2).1)
    decreases Size(e1) + Size(e2)
  {
    hide ExprEq, EliminateEq;
    if IsNode(op, e1) {
      hide EliminatePairs;
      var (l, s) := EliminatePairs(op, e1.left, e2);
      var (r, t) := EliminatePairs(op, e1.right, s);
      PairsLeftStep(op, e1, e2, l, s, r, t);
      PairsOnlyCancel(op, e1.left, e2);
      PairsOnlyCancel(op, e1.right, s);
      OnlyCancelsTransitive(op, e2, s, t);
    } else if IsNode(op, e2) {
      hide EliminatePairs;
      var (s, l) := EliminatePairs(op, e1, e2.left);
      var (t, r) := EliminatePairs(op, s, e2.right);
      PairsRightStep(op, e1, e2, s, l, t, r);
      PairsOnlyCancel(op, e1, e2.left);
      PairsOnlyCancel(op, s, e2.right);
      OnlyCancelsTransitive(op, e1, s, t);
    }
  }

  lemma YnIsFinished(y: Expr, x: Expr)
    requires IsYn(y)
    ensures Finished(y, x) && Finished(x, y)
  {
  }

  /** Cancellation is exhaustive: no leaf left in the first tree equals a leaf left
      in the second, other than a y or n that was there from the start. */
  lemma {:induction false} PairsExhaustive(op: BinOp, e1: Expr, e2: Expr)
    ensures var (r1, r2) := EliminatePairs(op, e1, e2);
            forall x, y :: x in Leaves(op, r1) && y in Leaves(op, r2) ==> Finished(x, y)
    decreases Size(e1) + Size(e2)
  {
    var (r1, r2) := EliminatePairs(op, e1, e2);
    forall x
      ensures Finished(Sym(Identity(op)), x) && Finished(x, Sym(Identity(op)))
    {
      YnIsFinished(Sym(Identity(op)), x);
    }
    if IsNode(op, e1) {
      var (l, s) := EliminatePairs(op, e1.left, e2);
      assert r1 == Bin(op, l, EliminatePairs(op, e1.right, s).0);
      PairsExhaustive(op, e1.left, e2);
      PairsExhaustive(op, e1.right, s);
      PairsOnlyCancel(op, e1.right, s);
      OnlyCancelsLeaves(op, s, r2);
    } else if IsNode(op, e2) {
      var (s, l) := EliminatePairs(op, e1, e2.left);
      assert r2 == Bin(op, l, EliminatePairs(op, s, e2.right).1);
      PairsExhaustive(op, e1, e2.left);
      PairsExhaustive(op, s, e2.right);
      PairsOnlyCancel(op, s, e2.right);
      OnlyCancelsLeaves(op, s, r1);
    }
  }

  /** A leaf that equals no leaf of a chain leaves the chain alone. */
  lemma {:induction false} NoPartner(op: BinOp, e: Expr, t: Expr)
    requires !IsNode(op, e)
    requires forall x :: x in Leaves(op, t) ==> Finished(e, x)
    ensures EliminatePairs(op, e, t) == (e, t)
    decreases t
  {
    hide ExprEq, EliminateEq;
    if IsNode(op, t) {
      NoPartner(op, e, t.left);
      NoPartner(op, e, t.right);
      assert t == Bin(op, t.left, t.right);
    } else {
      assert t in Leaves(op, t);
    }
  }

  lemma YnFindsNoPartner(op: BinOp, y: Expr, t: Expr)
    requires IsYn(y)
    ensures EliminatePairs(op, y, t) == (y, t)
  {
    hide ExprEq, EliminateEq, EliminatePairs;
    forall x ensures Finished(y, x) { YnIsFinished(y, x); }
    NoPartner(op, y, t);
  }

  lemma NoPartnerInYnChain(op: BinOp, e: Expr, t: Expr)
    requires !IsNode(op, e)
    requires forall i :: 0 <= i < |Leaves(op, t)| ==> IsYn(Leaves(op, t)[i])
    ensures EliminatePairs(op, e, t) == (e, t)
  {
    hide ExprEq, EliminateEq, EliminatePairs;
    forall x | x in Leaves(op, t) ensures Finished(e, x) { YnIsFinished(x, e); }
    NoPartner(op, e, t);
  }

  /** `ls` with the leaves at k, ..., k+n-1 cancelled, other than those that are y or n. */
  ghost function CancelRange(op: BinOp, ls: seq<Expr>, k: nat, n: nat): seq<Expr> {
    seq(|ls|, i requires 0 <= i < |ls| => if k <= i < k + n && !IsYn(ls[i]) then Sym(Identity(op)) else ls[i])
  }

  lemma CancelRangeTwice(op: BinOp, ls: seq<Expr>, k: nat, m: nat, n: nat)
    ensures CancelRange(op, CancelRange(op, ls, k, m), k + m, n) == CancelRange(op, ls, k, m + n)
  {
  }

  lemma CancelRangeConcat(op: BinOp, a: seq<Expr>, b: seq<Expr>)
    ensures CancelRange(op, a, 0, |a|) + CancelRange(op, b, 0, |b|) == CancelRange(op, a + b, 0, |a + b|)
  {
  }

  /** `part` stands in `ls` at position k, behind y and n leaves only. */
  ghost predicate StandsAt(part: seq<Expr>, ls: seq<Expr>, k: nat) {
    && k + |part| <= |ls|
    && (forall i :: 0 <= i < k ==> IsYn(ls[i]))
    && part == ls[k..k + |part|]
  }

  lemma StandsAtHalves(op: BinOp, a: seq<Expr>, b: seq<Expr>, ls: seq<Expr>, k: nat)
    requires StandsAt(a + b, ls, k)
    ensures StandsAt(a, ls, k)
    ensures StandsAt(b, CancelRange(op, ls, k, |a|), k + |a|)
  {
    var ls' := CancelRange(op, ls, k, |a|);
    forall i | 0 <= i < |a| ensures a[i] == ls[k + i] { assert (a + b)[i] == ls[k..k + |a + b|][i]; }
    forall i | 0 <= i < |b| ensures b[i] == ls'[k + |a| + i] {
      assert (a + b)[|a| + i] == ls[k..k + |a + b|][|a| + i];
    }
    assert a == ls[k..k + |a|];
    assert b == ls'[k + |a|..k + |a| + |b|];
  }

  lemma LeafPairCancels(op: BinOp, e: Expr)
    requires !IsNode(op, e) && !IsYn(e) && ExprEq(e, e)
    ensures EliminatePairs(op, e, e) == (Sym(Identity(op)), Sym(Identity(op)))
  {
    hide ExprEq, EliminateEq;
  }

  /** A leaf meets its own copy first when everything before it has been cancelled. */
  lemma {:induction false} FindsItsCopy(op: BinOp, e: Expr, t: Expr, k: nat)
    requires !IsNode(op, e) && !IsYn(e) && ExprEq(e, e)
    requires StandsAt([e], Leaves(op, t), k)
    ensures EliminatePairs(op, e, t).0 == Sym(Identity(op))
    ensures Leaves(op, EliminatePairs(op, e, t).1) == Leaves(op, t)[k := Sym(Identity(op))]
    decreases t
  {
    hide ExprEq, EliminateEq, EliminatePairs;
    if !IsNode(op, t) {
      assert [e] == [t][k..k + 1];
      assert [e][0] == t;
      LeafPairCancels(op, e);
    } else if k < |Leaves(op, t.left)| {
      FindsItOnTheLeft(op, e, t, k);
    } else {
      FindsItOnTheRight(op, e, t, k);
    }
  }

  lemma {:induction false} FindsItOnTheLeft(op: BinOp, e: Expr, t: Expr, k: nat)
    requires !IsNode(op, e) && !IsYn(e) && ExprEq(e, e) && IsNode(op, t)
    requires StandsAt([e], Leaves(op, t), k) && k < |Leaves(op, t.left)|
    ensures EliminatePairs(op, e, t).0 == Sym(Identity(op))
    ensures Leaves(op, EliminatePairs(op, e, t).1) == Leaves(op, t)[k := Sym(Identity(op))]
    decreases t, 0
  {
    hide ExprEq, EliminateEq, EliminatePairs;
    var id, L, R := Sym(Identity(op)), Leaves(op, t.left), Leaves(op, t.right);
    assert forall i :: 0 <= i <= k ==> L[i] == (L + R)[i];
    FindsItsCopy(op, e, t.left, k);
    YnFindsNoPartner(op, id, t.right);
    var l := EliminatePairs(op, e, t.left).1;
    PairsRightStep(op, e, t, id, l, id, t.right);
    assert (L + R)[k := id] == L[k := id] + R;
  }

  lemma {:induction false} FindsItOnTheRight(op: BinOp, e: Expr, t: Expr, k: nat)
    requires !IsNode(op, e) && !IsYn(e) && ExprEq(e, e) && IsNode(op, t)
    requires StandsAt([e], Leaves(op, t), k) && k >= |Leaves(op, t.left)|
    ensures EliminatePairs(op, e, t).0 == Sym(Identity(op))
    ensures Leaves(op, EliminatePairs(op, e, t).1) == Leaves(op, t)[k := Sym(Identity(op))]
    decreases t, 0
  {
    hide ExprEq, EliminateEq, EliminatePairs;
    var id, L, R := Sym(Identity(op)), Leaves(op, t.left), Leaves(op, t.right);
    var j := k - |L|;
    assert forall i :: 0 <= i < |L| ==> L[i] == (L + R)[i];
    assert forall i :: 0 <= i <= j ==> R[i] == (L + R)[|L| + i];
    NoPartnerInYnChain(op, e, t.left);
    FindsItsCopy(op, e, t.right, j);
    var r := EliminatePairs(op, e, t.right).1;
    PairsRightStep(op, e, t, e, t.left, id, r);
    assert (L + R)[k := id] == L + R[j := id];
  }

  /** Cancelling a chain against a chain that contains it, behind leaves that are
      already cancelled, cancels exactly its own copy. */
  lemma {:induction false} CancelsItsCopy(op: BinOp, e: Expr, t: Expr, k: nat)
    requires StandsAt(Leaves(op, e), Leaves(op, t), k)
    ensures Leaves(op, EliminatePairs(op, e, t).0) == CancelRange(op, Leaves(op, e), 0, |Leaves(op, e)|)
    ensures Leaves(op, EliminatePairs(op, e, t).1) == CancelRange(op, Leaves(op, t), k, |Leaves(op, e)|)
    decreases Size(e), if IsNode(op, e) then 1 else 4
  {
    hide ExprEq, EliminateEq, EliminatePairs;
    if IsNode(op, e) {
      CancelsHalves(op, e, t, k);
    } else {
      assert Leaves(op, t)[k..k + 1] == [e];
      if IsYn(e) {
        YnFindsNoPartner(op, e, t);
      } else {
        ExprEqReflexive(e);
        FindsItsCopy(op, e, t, k);
      }
    }
  }

  lemma LeavesNode(op: BinOp, e: Expr)
    requires IsNode(op, e)
    ensures Leaves(op, e) == Leaves(op, e.left) + Leaves(op, e.right)
  {
  }

  lemma {:induction false} CancelsHalves(op: BinOp, e: Expr, t: Expr, k: nat)
    requires IsNode(op, e)
    requires StandsAt(Leaves(op, e), Leaves(op, t), k)
    ensures Leaves(op, EliminatePairs(op, e, t).0) == CancelRange(op, Leaves(op, e), 0, |Leaves(op, e)|)
    ensures Leaves(op, EliminatePairs(op, e, t).1) == CancelRange(op, Leaves(op, t), k, |Leaves(op, e)|)
    decreases Size(e), 0
  {
    hide ExprEq, EliminateEq, EliminatePairs, CancelRange, StandsAt, Leaves;
    LeavesNode(op, e);
    var L, R, T := Leaves(op, e.left), Leaves(op, e.right), Leaves(op, t);
    var (l, s) := EliminatePairs(op, e.left, t);
    var (r, u) := EliminatePairs(op, e.right, s);
    StandsAtHalves(op, L, R, T, k);
    CancelsItsCopy(op, e.left, t, k);
    CancelsItsCopy(op, e.right, s, k + |L|);
    PairsLeftStep(op, e, t, l, s, r, u);
    LeavesNode(op, Bin(op, l, r));
    CancelRangeConcat(op, L, R);
    CancelRangeTwice(op, T, k, |L|, |R|);
  }

  lemma {:induction false} YnChainIsSymbol(op: BinOp, e: Expr)
    requires forall x :: x in Leaves(op, e) ==> IsYn(x)
    ensures IsYn(EliminateYn(e))
  {
    if IsNode(op, e) {
      YnChainIsSymbol(op, e.left);
      YnChainIsSymbol(op, e.right);
    } else {
      assert e in Leaves(op, e);
    }
  }

  lemma SameLeavesSameYn(op: BinOp, a: Expr, b: Expr)
    requires Leaves(op, a) == Leaves(op, b)
    requires IsYn(EliminateYn(a)) && IsYn(EliminateYn(b))
    ensures EliminateYn(a) == EliminateYn(b)
  {
    var env := Env(_ => NO, _ => "", (_, _) => None);
    EvalIsFold(op, a, env);
    EvalIsFold(op, b, env);
    EliminateYnPreservesValue(a, env);
    EliminateYnPreservesValue(b, env);
  }

  /** A chain cancelled against itself is reduced to the same symbol twice. */
  lemma {:induction false} ChainEqualsItself(e: Expr)
    requires e.Bin?
    ensures EliminateEq(e, e).0.Sym? && EliminateEq(e, e).0 == EliminateEq(e, e).1
    decreases Size(e), 2
  {
    hide ExprEq, EliminatePairs;
    var op := e.op;
    CancelsItsCopy(op, e, e, 0);
    var (a, b) := EliminatePairs(op, e, e);
    YnChainIsSymbol(op, a);
    YnChainIsSymbol(op, b);
    SameLeavesSameYn(op, a, b);
  }

  /** expr_eq recognises every expression as equal to its own copy, so the
      cancellation it is built on is never too timid. */
  lemma {:induction false} ExprEqReflexive(e: Expr)
    ensures ExprEq(e, e)
    decreases Size(e), 3
  {
    hide EliminatePairs, EliminateEq;
    match e
    case Not(a) => ExprEqReflexive(a);
    case Bin(_, _, _) => ChainEqualsItself(e);
    case _ =>
  }
}
