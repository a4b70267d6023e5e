/** Kconfig expressions (openwrt/scripts/config/expr.h, expr.c): three-valued
    values, symbols, expression trees and the evaluator.

    A symbol is identified by its constructor; `Config(id, kind)` is the symbol
    with hash-table identity `id`.  Library calls (`strtoll`, `strtoull`) are the
    `number` field of an environment. */
module KExpr {

  datatype Option<+T> = None | Some(value: T)

  // ---------------------------------------------------------------- values

  /** no < mod < yes */
  type Tri = t: int | 0 <= t <= 2

  const NO: Tri := 0
  const MOD: Tri := 1
  const YES: Tri := 2

  function TriAnd(a: Tri, b: Tri): Tri { if a < b then a else b }

  function TriOr(a: Tri, b: Tri): Tri { if a > b then a else b }

  function TriNot(a: Tri): Tri { 2 - a }

  function TriOf(b: bool): Tri { if b then YES else NO }

  function TriText(t: Tri): string {
    if t == NO then "n" else if t == MOD then "m" else "y"
  }

  // --------------------------------------------------------------- symbols

  datatype SymType = Unknown | Boolean | Tristate | Int | Hex | Str | Other

  /** sym_lookup returns the three built-in symbols for these names, so no other
      constant symbol carries them. */
  type ConstName = s: string | s != "y" && s != "m" && s != "n" witness ""

  datatype Symbol =
    | SymYes
    | SymMod
    | SymNo
    | Constant(name: ConstName)
    | Config(id: nat, kind: SymType)

  function TypeOf(s: Symbol): SymType { if s.Config? then s.kind else Unknown }

  predicate IsConst(s: Symbol) { !s.Config? }

  predicate IsTriConst(s: Symbol) { s == SymYes || s == SymMod || s == SymNo }

  // ----------------------------------------------------------- expressions

  datatype BinOp = OpAnd | OpOr

  datatype CompOp = Equal | Unequal | Lth | Leq | Gth | Geq

  datatype Expr =
    | Sym(sym: Symbol)
    | Not(arg: Expr)
    | Bin(op: BinOp, left: Expr, right: Expr)
    | Comp(cop: CompOp, lhs: Symbol, rhs: Symbol)

  function Size(e: Expr): (n: nat)
    ensures n >= 1
  {
    match e
    case Sym(_) => 1
    case Not(a) => 1 + Size(a)
    case Bin(_, l, r) => 1 + Size(l) + Size(r)
    case Comp(_, _, _) => 1
  }

  predicate IsNode(op: BinOp, e: Expr) { e.Bin? && e.op == op }

  /** The operands of a chain of `op`, left to right. */
  function Leaves(op: BinOp, e: Expr): (ls: seq<Expr>)
    ensures |ls| >= 1
  {
    if IsNode(op, e) then Leaves(op, e.left) + Leaves(op, e.right) else [e]
  }

  function BinValue(op: BinOp, a: Tri, b: Tri): Tri {
    match op
    case OpAnd => TriAnd(a, b)
    case OpOr => TriOr(a, b)
  }

  /** The symbol whose value is neutral for `op`. */
  function Identity(op: BinOp): Symbol { if op.OpAnd? then SymYes else SymNo }

  function Absorbing(op: BinOp): Symbol { if op.OpAnd? then SymNo else SymYes }

  function IdentityValue(op: BinOp): Tri { if op.OpAnd? then YES else NO }

  // ------------------------------------------------------------- evaluation

  /** The current values of the configuration symbols. */
  datatype Env = Env(
    tri: Symbol -> Tri,
    text: Symbol -> string,
    number: (string, SymType) -> Option<int>)

  function SymTri(env: Env, s: Symbol): Tri {
    match s
    case SymYes => YES
    case SymMod => MOD
    case SymNo => NO
    case Constant(_) => NO
    case Config(_, _) => env.tri(s)
  }

  function SymText(env: Env, s: Symbol): string {
    match s
    case SymYes => "y"
    case SymMod => "m"
    case SymNo => "n"
    case Constant(name) => name
    case Config(_, _) => env.text(s)
  }

  /** Boolean symbols are n or y, symbols that are neither boolean nor tristate are n; the
      string value of a boolean or tristate symbol is the name of its tristate value; y, m
      and n are not numbers. */
  ghost predicate WellTyped(env: Env) {
    && env.number("y", Unknown).None? && env.number("m", Unknown).None? && env.number("n", Unknown).None?
    && (forall s: Symbol {:trigger env.tri(s)} ::
          s.Config? && !s.kind.Tristate? ==> if s.kind.Boolean? then env.tri(s) != MOD else env.tri(s) == NO)
    && (forall s: Symbol {:trigger env.text(s)} ::
          s.Config? && (s.kind.Boolean? || s.kind.Tristate?) ==> env.text(s) == TriText(env.tri(s)))
  }

  /** What expr_parse_string makes of a symbol's text. */
  datatype Parsed = KString | KSigned(s: int) | KUnsigned(u: int) | KInvalid

  function ParseString(number: (string, SymType) -> Option<int>, text: string, kind: SymType): Parsed {
    match kind
    case Boolean | Tristate => KString
    case Other => KInvalid
    case Hex => (match number(text, kind) case None => KString case Some(v) => KUnsigned(v))
    case Int | Str | Unknown => (match number(text, kind) case None => KString case Some(v) => KSigned(v))
  }

  function StrCmp(a: string, b: string): int {
    if a == [] then (if b == [] then 0 else -1)
    else if b == [] then 1
    else if a[0] < b[0] then -1
    else if a[0] > b[0] then 1
    else StrCmp(a[1..], b[1..])
  }

  function Sign(a: int, b: int): int { if a < b then -1 else if a > b then 1 else 0 }

  /** The 64 bits of a parsed number read as an unsigned value. */
  function Bits64(p: Parsed): int
    requires p.KSigned? || p.KUnsigned?
  {
    (if p.KSigned? then p.s else p.u) % 0x1_0000_0000_0000_0000
  }

  /** `res` is the sign of the comparison; `ordered` is false when the operands
      cannot be ordered. */
  datatype Compared = Compared(res: int, ordered: bool)

  function CompareTexts(number: (string, SymType) -> Option<int>,
                        t1: string, kind1: SymType, t2: string, kind2: SymType): Compared {
    if kind1.Str? && kind2.Str? then Compared(StrCmp(t1, t2), true)
    else
      var k1, k2 := ParseString(number, t1, kind1), ParseString(number, t2, kind2);
      if k1.KString? || k2.KString? then Compared(StrCmp(t1, t2), true)
      else if k1.KInvalid? || k2.KInvalid? then Compared(StrCmp(t1, t2), false)
      else if k1.KUnsigned? || k2.KUnsigned? then Compared(Sign(Bits64(k1), Bits64(k2)), true)
      else Compared(Sign(k1.s, k2.s), true)
  }

  function Compare(env: Env, l: Symbol, r: Symbol): Compared {
    CompareTexts(env.number, SymText(env, l), TypeOf(l), SymText(env, r), TypeOf(r))
  }

  function CompValue(op: CompOp, c: Compared): Tri {
    match op
    case Equal => TriOf(c.res == 0)
    case Unequal => TriOf(c.res != 0)
    case Geq => TriOf(c.ordered && c.res >= 0)
    case Gth => TriOf(c.ordered && c.res > 0)
    case Leq => TriOf(c.ordered && c.res <= 0)
    case Lth => TriOf(c.ordered && c.res < 0)
  }

  /** expr_calc_value, over given symbol values. */
  function Eval(e: Expr, env: Env): Tri {
    match e
    case Sym(s) => SymTri(env, s)
    case Not(a) => TriNot(Eval(a, env))
    case Bin(op, l, r) => BinValue(op, Eval(l, env), Eval(r, env))
    case Comp(op, l, r) => CompValue(op, Compare(env, l, r))
  }

  /** A NULL expression means y. */
  function EvalOpt(e: Option<Expr>, env: Env): Tri {
    if e.None? then YES else Eval(e.value, env)
  }

  // ------------------------------------------------------- values of chains

  /** The value of a chain, from its operands. */
  function Fold(op: BinOp, ls: seq<Expr>, env: Env): Tri {
    if ls == [] then IdentityValue(op) else BinValue(op, Eval(ls[0], env), Fold(op, ls[1..], env))
  }

  lemma {:induction false} FoldConcat(op: BinOp, a: seq<Expr>, b: seq<Expr>, env: Env)
    ensures Fold(op, a + b, env) == BinValue(op, Fold(op, a, env), Fold(op, b, env))
  {
    if a == [] {
      assert a + b == b;
    } else {
      assert (a + b)[1..] == a[1..] + b;
      FoldConcat(op, a[1..], b, env);
    }
  }

  lemma {:induction false} EvalIsFold(op: BinOp, e: Expr, env: Env)
    ensures Eval(e, env) == Fold(op, Leaves(op, e), env)
  {
    if IsNode(op, e) {
      EvalIsFold(op, e.left, env);
      EvalIsFold(op, e.right, env);
      FoldConcat(op, Leaves(op, e.left), Leaves(op, e.right), env);
    }
  }

  /** The operand at `i` can be taken out of the chain. */
  lemma {:induction false} FoldExtract(op: BinOp, ls: seq<Expr>, i: nat, env: Env)
    requires i < |ls|
    ensures Fold(op, ls, env) == BinValue(op, Eval(ls[i], env), Fold(op, ls[i := Sym(Identity(op))], env))
  {
    if i > 0 {
      assert ls[i := Sym(Identity(op))][1..] == ls[1..][i - 1 := Sym(Identity(op))];
      FoldExtract(op, ls[1..], i - 1, env);
    }
  }

  // --------------------------------------------------- facts about compares

  lemma {:induction false} StrCmpZero(a: string, b: string)
    ensures StrCmp(a, b) == 0 <==> a == b
    decreases |a|
  {
    if a != [] && b != [] && a[0] == b[0] {
      StrCmpZero(a[1..], b[1..]);
      assert a == [a[0]] + a[1..] && b == [b[0]] + b[1..];
    }
  }

  /** `a` comes before `b`: it is a proper prefix, or has the smaller character where they
      first differ. */
  ghost predicate TextLess(a: string, b: string) {
    || (|a| < |b| && a == b[..|a|])
    || exists i :: 0 <= i < |a| && i < |b| && a[..i] == b[..i] && a[i] < b[i]
  }

  lemma {:induction false} StrCmpOrders(a: string, b: string)
    ensures StrCmp(a, b) < 0 <==> TextLess(a, b)
    ensures StrCmp(a, b) > 0 <==> TextLess(b, a)
    decreases |a|
  {
    if a != [] && b != [] {
      if a[0] == b[0] { StrCmpOrders(a[1..], b[1..]); }
      LessUnfolds(a, b);
      LessUnfolds(b, a);
    }
  }

  lemma LessUnfolds(a: string, b: string)
    requires a != [] && b != []
    ensures TextLess(a, b) <==> a[0] < b[0] || (a[0] == b[0] && TextLess(a[1..], b[1..]))
  {
    var x, y := a[1..], b[1..];
    if a[0] < b[0] { assert a[..0] == b[..0]; }
    if a[0] == b[0] {
      assert |a| < |b| && a == b[..|a|] ==> x == y[..|x|];
      if |x| < |y| && x == y[..|x|] {
        assert a == [a[0]] + x && b[..|a|] == [b[0]] + y[..|x|];
      }
      if i :| 0 <= i < |x| && i < |y| && x[..i] == y[..i] && x[i] < y[i] {
        assert a[..i + 1] == [a[0]] + x[..i] && b[..i + 1] == [b[0]] + y[..i];
        assert a[i + 1] < b[i + 1];
      }
      if i :| 0 <= i < |a| && i < |b| && a[..i] == b[..i] && a[i] < b[i] {
        assert i > 0 && x[..i - 1] == a[..i][1..] && y[..i - 1] == b[..i][1..];
        assert x[i - 1] < y[i - 1];
      }
    } else {
      assert a == a[..|a|];
      forall i | 0 <= i <= |a| && i < |b| && a[..i] == b[..i]
        ensures i == 0
      {
        if i > 0 { SameStart(a, b, i); }
      }
    }
  }

  lemma SameStart(a: string, b: string, i: nat)
    requires 0 < i <= |a| && i <= |b| && a[..i] == b[..i]
    ensures a[0] == b[0]
  {
    assert a[..i][0] == b[..i][0];
  }

  /** A symbol whose text is read as a number: all kinds but boolean, tristate and S_OTHER. */
  predicate Numeric(s: Symbol) {
    TypeOf(s) == Unknown || TypeOf(s) == Int || TypeOf(s) == Hex || TypeOf(s) == Str
  }

  /** The six comparisons of two numbers. */
  ghost predicate ComparesAs(env: Env, l: Symbol, r: Symbol, a: int, b: int) {
    && Eval(Comp(Equal, l, r), env) == (if a == b then 2 else 0)
    && Eval(Comp(Unequal, l, r), env) == (if a == b then 0 else 2)
    && Eval(Comp(Lth, l, r), env) == (if a < b then 2 else 0)
    && Eval(Comp(Leq, l, r), env) == (if a <= b then 2 else 0)
    && Eval(Comp(Gth, l, r), env) == (if a > b then 2 else 0)
    && Eval(Comp(Geq, l, r), env) == (if a >= b then 2 else 0)
  }

  /** When both operands read as numbers they are compared as numbers, as unsigned ones of 64
      bits if one of them is hexadecimal. */
  lemma NumbersCompared(env: Env, l: Symbol, r: Symbol, a: int, b: int)
    requires Numeric(l) && Numeric(r) && !(TypeOf(l).Str? && TypeOf(r).Str?)
    requires env.number(SymText(env, l), TypeOf(l)) == Some(a) && env.number(SymText(env, r), TypeOf(r)) == Some(b)
    ensures TypeOf(l) != Hex && TypeOf(r) != Hex ==> ComparesAs(env, l, r, a, b)
    ensures TypeOf(l) == Hex || TypeOf(r) == Hex ==>
              ComparesAs(env, l, r, a % 0x1_0000_0000_0000_0000, b % 0x1_0000_0000_0000_0000)
  {
    var c, d := a % 0x1_0000_0000_0000_0000, b % 0x1_0000_0000_0000_0000;
    NumbersSigned(env, l, r, a, b);
    hide Compare, ComparesAs;
    if TypeOf(l) == Hex || TypeOf(r) == Hex { SignsCompare(env, l, r, c, d); } else { SignsCompare(env, l, r, a, b); }
  }

  lemma NumbersSigned(env: Env, l: Symbol, r: Symbol, a: int, b: int)
    requires Numeric(l) && Numeric(r) && !(TypeOf(l).Str? && TypeOf(r).Str?)
    requires env.number(SymText(env, l), TypeOf(l)) == Some(a) && env.number(SymText(env, r), TypeOf(r)) == Some(b)
    ensures Compare(env, l, r) ==
              if TypeOf(l) == Hex || TypeOf(r) == Hex then
                Compared(Sign(a % 0x1_0000_0000_0000_0000, b % 0x1_0000_0000_0000_0000), true)
              else Compared(Sign(a, b), true)
  {
    hide Sign;
    var k1 := ParseString(env.number, SymText(env, l), TypeOf(l));
    var k2 := ParseString(env.number, SymText(env, r), TypeOf(r));
    assert k1 == if TypeOf(l) == Hex then KUnsigned(a) else KSigned(a);
    assert k2 == if TypeOf(r) == Hex then KUnsigned(b) else KSigned(b);
    assert Bits64(k1) == a % 0x1_0000_0000_0000_0000 && Bits64(k2) == b % 0x1_0000_0000_0000_0000;
    hide ParseString, Bits64, StrCmp;
  }

  lemma SignsCompare(env: Env, l: Symbol, r: Symbol, a: int, b: int)
    requires Compare(env, l, r) == Compared(Sign(a, b), true)
    ensures ComparesAs(env, l, r, a, b)
  {
    hide Compare;
  }

  /** When an operand is boolean, tristate or no number, or both are strings, texts are
      compared. */
  lemma TextsCompared(env: Env, l: Symbol, r: Symbol)
    requires || (TypeOf(l).Str? && TypeOf(r).Str?)
             || (exists s :: (s == l || s == r) &&
                   (TypeOf(s) == Boolean || TypeOf(s) == Tristate
                    || (Numeric(s) && env.number(SymText(env, s), TypeOf(s)) == None)))
    ensures var a, b := SymText(env, l), SymText(env, r);
            && Eval(Comp(Equal, l, r), env) == (if a == b then 2 else 0)
            && Eval(Comp(Unequal, l, r), env) == (if a == b then 0 else 2)
            && Eval(Comp(Lth, l, r), env) == (if TextLess(a, b) then 2 else 0)
            && Eval(Comp(Leq, l, r), env) == (if TextLess(b, a) then 0 else 2)
            && Eval(Comp(Gth, l, r), env) == (if TextLess(b, a) then 2 else 0)
            && Eval(Comp(Geq, l, r), env) == (if TextLess(a, b) then 0 else 2)
  {
    var a, b := SymText(env, l), SymText(env, r);
    assert Compare(env, l, r) == Compared(StrCmp(a, b), true);
    StrCmpOrders(a, b);
    StrCmpZero(a, b);
    hide Compare, TextLess, StrCmp;
  }

  /** An operand of type S_OTHER can be told apart from a number by its text, but not be
      ordered. */
  lemma OthersUnordered(env: Env, l: Symbol, r: Symbol)
    requires TypeOf(l) == Other || TypeOf(r) == Other
    requires TypeOf(l) != Other ==> Numeric(l) && env.number(SymText(env, l), TypeOf(l)).Some?
    requires TypeOf(r) != Other ==> Numeric(r) && env.number(SymText(env, r), TypeOf(r)).Some?
    ensures Eval(Comp(Lth, l, r), env) == Eval(Comp(Leq, l, r), env) == 0
    ensures Eval(Comp(Gth, l, r), env) == Eval(Comp(Geq, l, r), env) == 0
    ensures Eval(Comp(Equal, l, r), env) == (if SymText(env, l) == SymText(env, r) then 2 else 0)
    ensures Eval(Comp(Unequal, l, r), env) == (if SymText(env, l) == SymText(env, r) then 0 else 2)
  {
    StrCmpZero(SymText(env, l), SymText(env, r));
  }

  /** The operators: AND is the smaller, OR the larger value, NOT turns the order around; n, m
      and y are 0, 1 and 2. */
  lemma OperatorsMean(l: Expr, r: Expr, env: Env)
    ensures Eval(Bin(OpAnd, l, r), env) == if Eval(l, env) < Eval(r, env) then Eval(l, env) else Eval(r, env)
    ensures Eval(Bin(OpOr, l, r), env) == if Eval(l, env) < Eval(r, env) then Eval(r, env) else Eval(l, env)
    ensures Eval(Not(l), env) == 2 - Eval(l, env)
    ensures Eval(Sym(SymNo), env) == 0 && Eval(Sym(SymMod), env) == 1 && Eval(Sym(SymYes), env) == 2
    ensures EvalOpt(None, env) == 2
  {
  }

  /** Testing a boolean or tristate symbol against a constant, or any symbol against y, m or
      n, is a test on its text. */
  lemma CompareTri(env: Env, s: Symbol, c: Symbol)
    requires TypeOf(s).Boolean? || TypeOf(s).Tristate? || (WellTyped(env) && (IsTriConst(s) || IsTriConst(c)))
    ensures Compare(env, s, c).ordered
    ensures Compare(env, s, c).res == 0 <==> SymText(env, s) == SymText(env, c)
  {
    StrCmpZero(SymText(env, s), SymText(env, c));
  }

  /** A symbol that has a tristate value of its own. */
  predicate HasTriValue(s: Symbol) { IsTriConst(s) || TypeOf(s).Boolean? || TypeOf(s).Tristate? }

  lemma TriTextInjective(a: Tri, b: Tri)
    ensures TriText(a) == TriText(b) <==> a == b
  {
    assert TriText(a)[0] == TriText(b)[0] <==> a == b;
  }

  /** For a well-typed assignment `s = c` holds exactly when the tristate value of
      `s` is the one `c` names. */
  lemma EqualTriConst(env: Env, s: Symbol, c: Symbol)
    requires WellTyped(env) && HasTriValue(s) && IsTriConst(c)
    ensures Eval(Comp(Equal, s, c), env) == TriOf(SymTri(env, s) == SymTri(env, c))
    ensures Eval(Comp(Unequal, s, c), env) == TriOf(SymTri(env, s) != SymTri(env, c))
  {
    CompareTri(env, s, c);
    TriTextInjective(SymTri(env, s), SymTri(env, c));
    assert SymText(env, c) == TriText(SymTri(env, c));
    assert SymText(env, s) == TriText(SymTri(env, s));
  }

  /** Distinct constants have distinct texts. */
  lemma ConstTextInjective(env: Env, a: Symbol, b: Symbol)
    requires IsConst(a) && IsConst(b)
    ensures SymText(env, a) == SymText(env, b) <==> a == b
  {
    assert "y"[0] == 'y' && "m"[0] == 'm' && "n"[0] == 'n';
  }
}
