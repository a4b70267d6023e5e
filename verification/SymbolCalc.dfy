/** The lazily cached symbol evaluator (openwrt/scripts/config/symbol.c:115-532) for
    symbols outside choices, with the value of MODULES fixed. */
module KSymbol {
  import opened KExpr
  import opened KImplies

  // -------------------------------------------------------- declarations

  /** struct symbol_value */
  datatype SymVal = SymVal(val: string, tri: Tri)

  /** def[S_DEF_USER] and its flag SYMBOL_DEF_USER */
  datatype User = User(has: bool, tri: Tri, val: string)

  /** A property with a condition: a default value, or the bounds of a range. */
  datatype Guarded<T> = Guarded(cond: Option<Expr>, what: T)

  datatype Bounds = Bounds(lo: Symbol, hi: Symbol)

  /** What the menu files say about a symbol: its properties in order, grouped by kind. */
  datatype Decl = Decl(
    kind: SymType,
    name: string,
    prompts: seq<Option<Expr>>,
    defaults: seq<Guarded<Expr>>,
    ranges: seq<Guarded<Bounds>>,
    dirDep: Option<Expr>,
    revDep: Option<Expr>)

  /** strtoll, strtoull and sprintf */
  datatype Numbers = Numbers(
    number: (string, SymType) -> Option<int>,
    toInt: (string, nat) -> int,
    show: (SymType, int) -> string)

  /** Everything the value of a symbol depends on. */
  datatype Model = Model(decls: seq<Decl>, users: seq<User>, modules: bool, numbers: Numbers, rank: seq<nat>)

  predicate IsTri(k: SymType) { k.Boolean? || k.Tristate? }

  predicate IsText(k: SymType) { k.Int? || k.Hex? || k.Str? }

  /** sym_get_type */
  function EffType(modules: bool, k: SymType): SymType { if k.Tristate? && !modules then Boolean else k }

  // ------------------------------------------- dependencies are acyclic

  /** `s` is a constant or a declared symbol that comes before `bound`. */
  predicate Below(decls: seq<Decl>, rank: seq<nat>, bound: nat, s: Symbol)
    requires |rank| == |decls|
  {
    s.Config? ==> s.id < |decls| && s.kind == decls[s.id].kind && rank[s.id] < bound
  }

  ghost predicate ExprBelow(decls: seq<Decl>, rank: seq<nat>, bound: nat, e: Expr)
    requires |rank| == |decls|
  {
    match e
    case Sym(s) => Below(decls, rank, bound, s)
    case Not(a) => ExprBelow(decls, rank, bound, a)
    case Bin(_, l, r) => ExprBelow(decls, rank, bound, l) && ExprBelow(decls, rank, bound, r)
    case Comp(_, l, r) => Below(decls, rank, bound, l) && Below(decls, rank, bound, r)
  }

  ghost predicate OptBelow(decls: seq<Decl>, rank: seq<nat>, bound: nat, e: Option<Expr>)
    requires |rank| == |decls|
  {
    e.Some? ==> ExprBelow(decls, rank, bound, e.value)
  }

  ghost predicate DeclBelow(decls: seq<Decl>, rank: seq<nat>, bound: nat, d: Decl)
    requires |rank| == |decls|
  {
    && (forall i :: 0 <= i < |d.prompts| ==> OptBelow(decls, rank, bound, d.prompts[i]))
    && (forall i :: 0 <= i < |d.defaults| ==>
          OptBelow(decls, rank, bound, d.defaults[i].cond) && ExprBelow(decls, rank, bound, d.defaults[i].what))
    && (forall i :: 0 <= i < |d.ranges| ==>
          && OptBelow(decls, rank, bound, d.ranges[i].cond)
          && Below(decls, rank, bound, d.ranges[i].what.lo) && Below(decls, rank, bound, d.ranges[i].what.hi))
    && OptBelow(decls, rank, bound, d.dirDep)
    && OptBelow(decls, rank, bound, d.revDep)
  }

  /** Every symbol reads only symbols of a smaller rank. */
  ghost predicate Acyclic(decls: seq<Decl>, rank: seq<nat>) {
    && |rank| == |decls|
    && forall id :: 0 <= id < |decls| ==> DeclBelow(decls, rank, rank[id], decls[id])
  }

  /** The same rank for every symbol: what is below 1 is just declared. */
  function NoRank(n: nat): seq<nat> { seq(n, _ => 0) }

  /** Every symbol mentioned is declared, with its kind; dependencies may go in circles. */
  ghost predicate Declared(decls: seq<Decl>) {
    forall id :: 0 <= id < |decls| ==> DeclBelow(decls, NoRank(|decls|), 1, decls[id])
  }

  ghost predicate WellFormed(m: Model) {
    && Acyclic(m.decls, m.rank) && |m.users| == |m.decls|
    && m.numbers.number("y", Unknown).None? && m.numbers.number("m", Unknown).None?
    && m.numbers.number("n", Unknown).None?
  }

  // ------------------------------------------------- the uncached meaning

  /** All a calculation leaves in a symbol. */
  datatype Out = Out(curr: SymVal, visible: Tri, dir: Tri, rev: Tri, write: bool)

  function PromptOr(ps: seq<Option<Expr>>, env: Env): Tri {
    if ps == [] then NO else TriOr(PromptOr(ps[..|ps| - 1], env), EvalOpt(ps[|ps| - 1], env))
  }

  function Promote(t: Tri, asBool: bool): Tri { if t == MOD && asBool then YES else t }

  /** sym_calc_visibility */
  function VisibleOf(d: Decl, env: Env, modules: bool): Tri {
    Promote(PromptOr(d.prompts, env), !d.kind.Tristate? || !modules)
  }

  function DirOf(d: Decl, env: Env): Tri { Promote(EvalOpt(d.dirDep, env), true) }

  function RevOf(d: Decl, env: Env, modules: bool): Tri {
    Promote(if d.revDep.Some? then Eval(d.revDep.value, env) else NO, EffType(modules, d.kind).Boolean?)
  }

  /** The first property from position i on whose condition is not n; |ps| if none. */
  function FirstMet<T>(ps: seq<Guarded<T>>, env: Env, i: nat): (k: nat)
    requires i <= |ps|
    ensures i <= k <= |ps| && (forall j :: i <= j < k ==> EvalOpt(ps[j].cond, env) == NO)
    ensures k < |ps| ==> EvalOpt(ps[k].cond, env) != NO
    decreases |ps| - i
  {
    if i == |ps| || EvalOpt(ps[i].cond, env) != NO then i else FirstMet(ps, env, i + 1)
  }

  function DefaultTri(d: Decl, env: Env): Tri {
    var k := FirstMet(d.defaults, env, 0);
    if k == |d.defaults| then NO
    else TriAnd(Eval(d.defaults[k].what, env), EvalOpt(d.defaults[k].cond, env))
  }

  /** The user's value capped by visibility, or else the default. */
  function OwnTriOf(d: Decl, u: User, env: Env, modules: bool): Tri {
    if VisibleOf(d, env, modules) != NO && u.has then TriAnd(u.tri, VisibleOf(d, env, modules))
    else DefaultTri(d, env)
  }

  /** A boolean or tristate symbol: its own value raised to what selects it, or n when it
      is selected against its dependencies. */
  function TriValue(d: Decl, u: User, env: Env, modules: bool): Tri {
    var dir, rev := DirOf(d, env), RevOf(d, env, modules);
    var v := if dir == NO && rev != NO then NO else TriOr(OwnTriOf(d, u, env, modules), rev);
    Promote(v, EffType(modules, d.kind).Boolean?)
  }

  /** curr.val of a symbol, over `vals` for declared symbols. */
  function ValOf(s: Symbol, vals: Symbol -> string): string {
    match s
    case SymYes => "y"
    case SymMod => "m"
    case SymNo => "n"
    case Constant(name) => name
    case Config(_, _) => vals(s)
  }

  function DefaultText(d: Decl, env: Env, vals: Symbol -> string): string {
    var k := FirstMet(d.defaults, env, 0);
    if k < |d.defaults| && d.defaults[k].what.Sym? then ValOf(d.defaults[k].what.sym, vals) else ""
  }

  function Base(kind: SymType): nat { if kind.Hex? then 16 else 10 }

  /** sym_get_range_val: the bound is read in its own base, or in the symbol's. */
  function RangeVal(s: Symbol, base: nat, vals: Symbol -> string, numbers: Numbers): int {
    var b := if TypeOf(s).Int? then 10 else if TypeOf(s).Hex? then 16 else base;
    numbers.toInt(ValOf(s, vals), b)
  }

  /** sym_validate_range */
  function Clamp(d: Decl, env: Env, vals: Symbol -> string, numbers: Numbers, val: string): string {
    if !d.kind.Int? && !d.kind.Hex? then val
    else
      var k := FirstMet(d.ranges, env, 0);
      if k == |d.ranges| then val
      else
        var v := numbers.toInt(val, Base(d.kind));
        var lo := RangeVal(d.ranges[k].what.lo, Base(d.kind), vals, numbers);
        var hi := RangeVal(d.ranges[k].what.hi, Base(d.kind), vals, numbers);
        if v < lo then numbers.show(d.kind, lo)
        else if v <= hi then val
        else numbers.show(d.kind, hi)
  }

  /** The user's text if the symbol is visible, or else the default's. */
  function OwnText(d: Decl, u: User, env: Env, vals: Symbol -> string, modules: bool): string {
    if VisibleOf(d, env, modules) != NO && u.has then u.val else DefaultText(d, env, vals)
  }

  function TextValue(d: Decl, u: User, env: Env, vals: Symbol -> string, modules: bool, numbers: Numbers): string {
    Clamp(d, env, vals, numbers, OwnText(d, u, env, vals, modules))
  }

  /** SYMBOL_WRITE */
  function WriteFlag(d: Decl, env: Env, modules: bool): bool {
    var k := FirstMet(d.defaults, env, 0);
    || VisibleOf(d, env, modules) != NO
    || (IsTri(d.kind) && (RevOf(d, env, modules) != NO || k < |d.defaults|))
    || (IsText(d.kind) && k < |d.defaults| && d.defaults[k].what.Sym?)
  }

  /** What sym_calc_value leaves in a symbol, given the values of the others. */
  function CalcWith(d: Decl, u: User, env: Env, vals: Symbol -> string, modules: bool, numbers: Numbers): Out {
    if !IsTri(d.kind) && !IsText(d.kind) then Out(SymVal(d.name, NO), NO, NO, NO, false)
    else
      Out(if IsTri(d.kind) then SymVal("n", TriValue(d, u, env, modules))
          else SymVal(TextValue(d, u, env, vals, modules, numbers), NO),
          VisibleOf(d, env, modules), DirOf(d, env), RevOf(d, env, modules), WriteFlag(d, env, modules))
  }

  /** sym_get_string_value of a boolean or tristate symbol */
  function TriString(t: Tri, modules: bool): string { if t == MOD && !modules then "n" else TriText(t) }

  /** The uncached value of a symbol: well defined because dependencies are acyclic. */
  ghost function Calc(m: Model, id: nat): Out
    requires WellFormed(m) && id < |m.decls|
    decreases m.rank[id], 1
  {
    CalcWith(m.decls[id], m.users[id], EnvBelow(m, m.rank[id]), ValsBelow(m, m.rank[id]), m.modules, m.numbers)
  }

  /** The values of all symbols below `bound`. */
  ghost function EnvBelow(m: Model, bound: nat): Env
    requires WellFormed(m)
    decreases bound, 0
  {
    Env((s: Symbol) => if s.Config? && Below(m.decls, m.rank, bound, s) then Calc(m, s.id).curr.tri else NO,
        (s: Symbol) =>
          if s.Config? && Below(m.decls, m.rank, bound, s) then
            if IsTri(s.kind) then TriString(Calc(m, s.id).curr.tri, m.modules) else Calc(m, s.id).curr.val
          else "n",
        m.numbers.number)
  }

  ghost function ValsBelow(m: Model, bound: nat): Symbol -> string
    requires WellFormed(m)
    decreases bound, 0
  {
    (s: Symbol) => if s.Config? && Below(m.decls, m.rank, bound, s) then Calc(m, s.id).curr.val else ""
  }

  // --------------------------------------------- properties of the values

  /** Booleans are never m, and m is used only with modules on; so every environment the
      evaluator produces is a well-typed one. */
  lemma ValuesAreTyped(m: Model, id: nat)
    requires WellFormed(m) && id < |m.decls|
    ensures IsTri(m.decls[id].kind) && EffType(m.modules, m.decls[id].kind).Boolean? ==> Calc(m, id).curr.tri != MOD
    ensures !IsTri(m.decls[id].kind) ==> Calc(m, id).curr.tri == NO
  {
  }

  lemma EnvIsWellTyped(m: Model, bound: nat)
    requires WellFormed(m)
    ensures WellTyped(EnvBelow(m, bound))
  {
    var env := EnvBelow(m, bound);
    forall s: Symbol | s.Config? && IsTri(s.kind)
      ensures s.kind.Boolean? ==> env.tri(s) != MOD
      ensures env.text(s) == TriText(env.tri(s))
    {
      if Below(m.decls, m.rank, bound, s) { ValuesAreTyped(m, s.id); }
    }
  }

  // ----------------------------- what is left, read off the declaration

  /** Symbols that are read have the values calculated for them. */
  lemma ReadsCalculated(m: Model, id: nat, s: Symbol)
    requires WellFormed(m) && id < |m.decls| && s.Config? && Below(m.decls, m.rank, m.rank[id], s)
    ensures SymTri(EnvBelow(m, m.rank[id]), s) == Calc(m, s.id).curr.tri
    ensures !IsTri(s.kind) ==> SymText(EnvBelow(m, m.rank[id]), s) == Calc(m, s.id).curr.val
    ensures IsTri(s.kind) ==>
              var t := Calc(m, s.id).curr.tri;
              SymText(EnvBelow(m, m.rank[id]), s) == if t == NO then "n" else if t == MOD then "m" else "y"
    ensures ValOf(s, ValsBelow(m, m.rank[id])) == Calc(m, s.id).curr.val
  {
    if IsTri(s.kind) { ValuesAreTyped(m, s.id); }
  }

  lemma {:induction false} PromptOrExactly(ps: seq<Option<Expr>>, env: Env)
    ensures PromptOr(ps, env) != NO <==> exists i :: 0 <= i < |ps| && EvalOpt(ps[i], env) != NO
    ensures PromptOr(ps, env) == YES <==> exists i :: 0 <= i < |ps| && EvalOpt(ps[i], env) == YES
  {
    if ps != [] {
      var init, last := ps[..|ps| - 1], ps[|ps| - 1];
      PromptOrExactly(init, env);
      assert forall i :: 0 <= i < |init| ==> init[i] == ps[i];
    }
  }

  /** A symbol is visible when some prompt's condition is met, and visible as y when one is y
      or m is no value for it; what is selected against is n or y, and a select is worth what
      selects it, or y where m is no value. */
  lemma VisibilityExactly(m: Model, id: nat)
    requires WellFormed(m) && id < |m.decls| && !m.decls[id].kind.Unknown? && !m.decls[id].kind.Other?
    ensures var o, d, env := Calc(m, id), m.decls[id], EnvBelow(m, m.rank[id]);
            && (o.visible != NO <==> exists i :: 0 <= i < |d.prompts| && EvalOpt(d.prompts[i], env) != NO)
            && (o.visible == YES <==>
                  || (exists i :: 0 <= i < |d.prompts| && EvalOpt(d.prompts[i], env) == YES)
                  || (o.visible != NO && !(d.kind.Tristate? && m.modules)))
            && (o.dir == NO <==> EvalOpt(d.dirDep, env) == NO) && o.dir != MOD
            && (o.rev == NO <==> d.revDep.None? || Eval(d.revDep.value, env) == NO)
            && (o.rev == MOD <==> d.revDep.Some? && Eval(d.revDep.value, env) == MOD
                                  && (IsTri(d.kind) ==> d.kind.Tristate? && m.modules))
  {
    PromptOrExactly(m.decls[id].prompts, EnvBelow(m, m.rank[id]));
  }

  /** A select raises a symbol to what selects it at least, unless the symbol's own
      dependencies are not met; without prompts and defaults it is all there is. */
  lemma SelectExactly(m: Model, id: nat)
    requires WellFormed(m) && id < |m.decls| && (m.decls[id].kind.Boolean? || m.decls[id].kind.Tristate?)
    ensures var d, env, v := m.decls[id], EnvBelow(m, m.rank[id]), Calc(m, id).curr.tri;
            var t := if d.revDep.Some? then Eval(d.revDep.value, env) else NO;
            && (EvalOpt(d.dirDep, env) != NO ==> v >= t)
            && (EvalOpt(d.dirDep, env) == NO && t != NO ==> v == NO)
            && ((forall i :: 0 <= i < |d.prompts| ==> EvalOpt(d.prompts[i], env) == NO)
                && (forall i :: 0 <= i < |d.defaults| ==> EvalOpt(d.defaults[i].cond, env) == NO) ==>
                  (v == NO <==> t == NO || EvalOpt(d.dirDep, env) == NO)
                  && (v == MOD ==> t == MOD && d.kind.Tristate? && m.modules))
  {
    VisibilityExactly(m, id);
    hide EnvBelow;
  }

  /** The value in full.  `k` is the first default whose condition is met, if there is one. */
  lemma ValueExactly(m: Model, id: nat, k: nat)
    requires WellFormed(m) && id < |m.decls| && (m.decls[id].kind.Boolean? || m.decls[id].kind.Tristate?)
    requires k <= |m.decls[id].defaults|
    requires forall j :: 0 <= j < k ==> EvalOpt(m.decls[id].defaults[j].cond, EnvBelow(m, m.rank[id])) == NO
    requires k < |m.decls[id].defaults| ==> EvalOpt(m.decls[id].defaults[k].cond, EnvBelow(m, m.rank[id])) != NO
    ensures var o, d, env, u := Calc(m, id), m.decls[id], EnvBelow(m, m.rank[id]), m.users[id];
            var own: int :=
              if o.visible != NO && u.has then (if u.tri <= o.visible then u.tri else o.visible)
              else if k == |d.defaults| then 0
              else
                var cond, what := EvalOpt(d.defaults[k].cond, env), Eval(d.defaults[k].what, env);
                if what <= cond then what else cond;
            var raised: int := if o.rev > own then o.rev else own;
            o.curr.val == "n" &&
            o.curr.tri == if o.dir == NO && o.rev != NO then 0
                          else if raised == 1 && !(d.kind.Tristate? && m.modules) then 2
                          else raised
  {
    hide EnvBelow;
    FirstMetIs(m.decls[id].defaults, EnvBelow(m, m.rank[id]), k);
  }

  lemma FirstMetIs<T>(ps: seq<Guarded<T>>, env: Env, k: nat)
    requires k <= |ps| && forall j :: 0 <= j < k ==> EvalOpt(ps[j].cond, env) == NO
    requires k < |ps| ==> EvalOpt(ps[k].cond, env) != NO
    ensures FirstMet(ps, env, 0) == k
  {
  }

  /** The text of a symbol that a default or a range names. */
  ghost predicate HasText(m: Model, s: Symbol, text: string)
    requires WellFormed(m)
  {
    match s
    case Config(id, _) => id < |m.decls| && Calc(m, id).curr.val == text
    case Constant(name) => text == name
    case SymYes => text == "y"
    case SymMod => text == "m"
    case SymNo => text == "n"
  }

  lemma TextIs(m: Model, id: nat, s: Symbol, text: string)
    requires WellFormed(m) && id < |m.decls| && Below(m.decls, m.rank, m.rank[id], s) && HasText(m, s, text)
    ensures ValOf(s, ValsBelow(m, m.rank[id])) == text
  {
    if s.Config? { ReadsCalculated(m, id, s); }
  }

  /** Strings and numbers: the user's text of a visible symbol, or else the text of the symbol
      that the first default with a met condition names, or else nothing. */
  lemma TextExactly(m: Model, id: nat, k: nat, text: string)
    requires WellFormed(m) && id < |m.decls| && k <= |m.decls[id].defaults|
    requires m.decls[id].kind.Int? || m.decls[id].kind.Hex? || m.decls[id].kind.Str?
    requires forall j :: 0 <= j < k ==> EvalOpt(m.decls[id].defaults[j].cond, EnvBelow(m, m.rank[id])) == NO
    requires k < |m.decls[id].defaults| ==>
               var what := m.decls[id].defaults[k];
               EvalOpt(what.cond, EnvBelow(m, m.rank[id])) != NO && what.what.Sym? && HasText(m, what.what.sym, text)
    ensures var o, d, env, u := Calc(m, id), m.decls[id], EnvBelow(m, m.rank[id]), m.users[id];
            var own := if o.visible != NO && u.has then u.val else if k < |d.defaults| then text else "";
            && OwnText(d, u, env, ValsBelow(m, m.rank[id]), m.modules) == own
            && (d.kind.Str? || (forall i :: 0 <= i < |d.ranges| ==> EvalOpt(d.ranges[i].cond, env) == NO) ==>
                  o.curr.val == own)
            && o.curr.tri == NO
  {
    var d, env := m.decls[id], EnvBelow(m, m.rank[id]);
    assert DeclBelow(m.decls, m.rank, m.rank[id], d);
    if k < |d.defaults| { TextIs(m, id, d.defaults[k].what.sym, text); }
    FirstMetIs(d.defaults, env, k);
    hide EnvBelow, ValsBelow, VisibleOf;
  }

  /** A number with a range whose condition is met: one below the range becomes the lower
      bound, one above becomes the upper, one inside keeps its text.  Integers are read in
      base 10 and hexadecimal numbers in base 16, each bound as its own symbol says. */
  lemma RangeExactly(m: Model, id: nat, own: string, k: nat, lo: string, hi: string)
    requires WellFormed(m) && id < |m.decls| && (m.decls[id].kind.Int? || m.decls[id].kind.Hex?)
    requires own == OwnText(m.decls[id], m.users[id], EnvBelow(m, m.rank[id]), ValsBelow(m, m.rank[id]), m.modules)
    requires k < |m.decls[id].ranges| && EvalOpt(m.decls[id].ranges[k].cond, EnvBelow(m, m.rank[id])) != NO
    requires forall j :: 0 <= j < k ==> EvalOpt(m.decls[id].ranges[j].cond, EnvBelow(m, m.rank[id])) == NO
    requires HasText(m, m.decls[id].ranges[k].what.lo, lo) && HasText(m, m.decls[id].ranges[k].what.hi, hi)
    ensures var d, read := m.decls[id], m.numbers.toInt;
            var base := if d.kind.Hex? then 16 else 10;
            var own', lo', hi' := read(own, base), read(lo, BaseFor(d.ranges[k].what.lo, base)),
                                  read(hi, BaseFor(d.ranges[k].what.hi, base));
            Calc(m, id).curr.val == if own' < lo' then m.numbers.show(d.kind, lo')
                                    else if own' <= hi' then own
                                    else m.numbers.show(d.kind, hi')
  {
    var d, env := m.decls[id], EnvBelow(m, m.rank[id]);
    NumberIsClamped(m, id, own);
    hide Calc, Clamp, EnvBelow, HasText, OwnText, ValsBelow, WellFormed;
    RangeParts(m, id, k);
    TextIs(m, id, d.ranges[k].what.lo, lo);
    TextIs(m, id, d.ranges[k].what.hi, hi);
    ClampExactly(d, env, ValsBelow(m, m.rank[id]), m.numbers, own, k, lo, hi);
  }

  lemma NumberIsClamped(m: Model, id: nat, own: string)
    requires WellFormed(m) && id < |m.decls| && IsText(m.decls[id].kind)
    requires own == OwnText(m.decls[id], m.users[id], EnvBelow(m, m.rank[id]), ValsBelow(m, m.rank[id]), m.modules)
    ensures Calc(m, id).curr.val
         == Clamp(m.decls[id], EnvBelow(m, m.rank[id]), ValsBelow(m, m.rank[id]), m.numbers, own)
  {
    hide EnvBelow, ValsBelow, OwnText, VisibleOf, DirOf, RevOf, WriteFlag, Clamp;
  }

  lemma ClampExactly(d: Decl, env: Env, vals: Symbol -> string, numbers: Numbers, own: string, k: nat,
                     lo: string, hi: string)
    requires (d.kind.Int? || d.kind.Hex?) && k < |d.ranges| && EvalOpt(d.ranges[k].cond, env) != NO
    requires forall j :: 0 <= j < k ==> EvalOpt(d.ranges[j].cond, env) == NO
    requires ValOf(d.ranges[k].what.lo, vals) == lo && ValOf(d.ranges[k].what.hi, vals) == hi
    ensures var read, base := numbers.toInt, if d.kind.Hex? then 16 else 10;
            var own', lo', hi' := read(own, base), read(lo, BaseFor(d.ranges[k].what.lo, base)),
                                  read(hi, BaseFor(d.ranges[k].what.hi, base));
            Clamp(d, env, vals, numbers, own) == if own' < lo' then numbers.show(d.kind, lo')
                                                 else if own' <= hi' then own
                                                 else numbers.show(d.kind, hi')
  {
    FirstMetIs(d.ranges, env, k);
    hide EvalOpt;
  }

  lemma RangeParts(m: Model, id: nat, k: nat)
    requires WellFormed(m) && id < |m.decls| && k < |m.decls[id].ranges|
    ensures Below(m.decls, m.rank, m.rank[id], m.decls[id].ranges[k].what.lo)
    ensures Below(m.decls, m.rank, m.rank[id], m.decls[id].ranges[k].what.hi)
  {
    assert DeclBelow(m.decls, m.rank, m.rank[id], m.decls[id]);
  }

  /** The base of a bound: 10 of an integer, 16 of a hexadecimal number, else the symbol's. */
  function BaseFor(s: Symbol, base: nat): nat {
    match s
    case Config(_, Int) => 10
    case Config(_, Hex) => 16
    case _ => base
  }

  /** A symbol is written to the configuration when it is visible, or selected, or has a default
      whose condition is met (for strings and numbers, one that names a symbol). */
  lemma WrittenExactly(m: Model, id: nat, k: nat)
    requires WellFormed(m) && id < |m.decls| && !m.decls[id].kind.Unknown? && !m.decls[id].kind.Other?
    requires k <= |m.decls[id].defaults|
    requires forall j :: 0 <= j < k ==> EvalOpt(m.decls[id].defaults[j].cond, EnvBelow(m, m.rank[id])) == NO
    requires k < |m.decls[id].defaults| ==> EvalOpt(m.decls[id].defaults[k].cond, EnvBelow(m, m.rank[id])) != NO
    ensures var o, d := Calc(m, id), m.decls[id];
            o.write <==>
              || o.visible != NO
              || ((d.kind.Boolean? || d.kind.Tristate?) && (o.rev != NO || k < |d.defaults|))
              || ((d.kind.Int? || d.kind.Hex? || d.kind.Str?) && k < |d.defaults| && d.defaults[k].what.Sym?)
  {
    hide EnvBelow;
    FirstMetIs(m.decls[id].defaults, EnvBelow(m, m.rank[id]), k);
  }

  /** What a boolean or tristate value can be: a select raises it, unless it is made against
      the dependencies; a user's value goes no higher than visibility and selects allow; and
      nothing comes from nothing. */
  lemma ValueLimits(m: Model, id: nat)
    requires WellFormed(m) && id < |m.decls| && IsTri(m.decls[id].kind)
    ensures var o, d := Calc(m, id), m.decls[id];
            && (o.dir == NO && o.rev != NO ==> o.curr.tri == NO)
            && (o.dir != NO || o.rev == NO ==> o.curr.tri >= o.rev)
            && (o.visible != NO && m.users[id].has ==> o.curr.tri <= TriOr(o.visible, o.rev))
            && (o.visible == NO && o.rev == NO && d.defaults == [] ==> o.curr.tri == NO)
  {
  }

  /** A number outside its range is replaced by the nearest bound, one inside is kept; provided
      that what is printed reads back. */
  lemma ClampedIsInRange(d: Decl, env: Env, vals: Symbol -> string, numbers: Numbers, val: string)
    requires d.kind.Int? || d.kind.Hex?
    requires FirstMet(d.ranges, env, 0) < |d.ranges|
    requires forall n :: numbers.toInt(numbers.show(d.kind, n), Base(d.kind)) == n
    ensures var k := FirstMet(d.ranges, env, 0);
            var lo := RangeVal(d.ranges[k].what.lo, Base(d.kind), vals, numbers);
            var hi := RangeVal(d.ranges[k].what.hi, Base(d.kind), vals, numbers);
            var v := numbers.toInt(val, Base(d.kind));
            var r := Clamp(d, env, vals, numbers, val);
            && (lo <= hi ==> lo <= numbers.toInt(r, Base(d.kind)) <= hi)
            && (lo <= v <= hi ==> r == val)
            && (v < lo ==> numbers.toInt(r, Base(d.kind)) == lo)
  {
  }

  // ------------------------------------------------------ setting a value

  /** sym_tristate_within_range, from the fields it looks at */
  predicate Accepts(t: SymType, visible: Tri, rev: Tri, val: Tri) {
    visible != NO && IsTri(t) && !(t.Boolean? && val == MOD) && visible > rev && rev <= val <= visible
  }

  ghost predicate CanSet(m: Model, id: nat, val: Tri)
    requires WellFormed(m) && id < |m.decls|
  {
    Accepts(EffType(m.modules, m.decls[id].kind), Calc(m, id).visible, Calc(m, id).rev, val)
  }

  /** Of a visible symbol whose selects are weaker than its visibility, exactly the values from
      the one to the other can be set, m only for a tristate with modules on. */
  lemma SettableExactly(m: Model, id: nat, val: Tri)
    requires WellFormed(m) && id < |m.decls| && IsTri(m.decls[id].kind)
    ensures var d, env := m.decls[id], EnvBelow(m, m.rank[id]);
            var crisp := !(d.kind.Tristate? && m.modules);
            var select := if d.revDep.Some? then Eval(d.revDep.value, env) else NO;
            var prompted := exists i :: 0 <= i < |d.prompts| && EvalOpt(d.prompts[i], env) != NO;
            var fully := prompted && (crisp || exists i :: 0 <= i < |d.prompts| && EvalOpt(d.prompts[i], env) == YES);
            CanSet(m, id, val) <==>
              && prompted && !(val == MOD && crisp) && (val == YES ==> fully)
              && (select == NO || (select == MOD && !crisp && fully && val != NO))
  {
    VisibilityExactly(m, id);
    hide EnvBelow;
  }

  /** `m` after the user sets symbol `id` to `val`. */
  function WithUser(m: Model, id: nat, val: Tri): Model
    requires id < |m.users|
  {
    m.(users := m.users[id := User(true, val, m.users[id].val)])
  }

  lemma WithUserWellFormed(m: Model, id: nat, val: Tri)
    requires WellFormed(m) && id < |m.users|
    ensures WellFormed(WithUser(m, id, val))
  {
  }

  /** The value set is not above what visibility and selects allow, and not raised
      against the symbol's own dependencies. */
  ghost predicate ReadsBack(m: Model, id: nat, val: Tri)
    requires WellFormed(m) && id < |m.decls|
  {
    var o := Calc(m, id);
    o.visible == NO || (val <= TriOr(o.visible, o.rev) && (o.dir != NO || o.rev == NO || val == NO))
  }

  ghost predicate EnvAgree(a: Env, b: Env) {
    && a.number == b.number
    && (forall s {:trigger a.tri(s)} {:trigger b.tri(s)} :: a.tri(s) == b.tri(s))
    && (forall s {:trigger a.text(s)} {:trigger b.text(s)} :: a.text(s) == b.text(s))
  }

  ghost predicate ValsAgree(a: Symbol -> string, b: Symbol -> string) {
    forall s {:trigger a(s)} {:trigger b(s)} :: a(s) == b(s)
  }

  lemma {:induction false} EvalAgree(e: Expr, a: Env, b: Env)
    requires EnvAgree(a, b)
    ensures Eval(e, a) == Eval(e, b)
  {
    match e
    case Sym(_) =>
    case Not(x) => EvalAgree(x, a, b);
    case Bin(_, l, r) =>
      EvalAgree(l, a, b);
      EvalAgree(r, a, b);
    case Comp(_, _, _) =>
  }

  lemma OptAgree(e: Option<Expr>, a: Env, b: Env)
    requires EnvAgree(a, b)
    ensures EvalOpt(e, a) == EvalOpt(e, b)
  {
    if e.Some? { EvalAgree(e.value, a, b); }
  }

  lemma {:induction false} PromptsAgree(ps: seq<Option<Expr>>, a: Env, b: Env)
    requires EnvAgree(a, b)
    ensures PromptOr(ps, a) == PromptOr(ps, b)
  {
    if ps != [] {
      PromptsAgree(ps[..|ps| - 1], a, b);
      OptAgree(ps[|ps| - 1], a, b);
    }
  }

  lemma {:induction false} FirstMetAgree<T>(ps: seq<Guarded<T>>, a: Env, b: Env, i: nat)
    requires EnvAgree(a, b) && i <= |ps|
    ensures FirstMet(ps, a, i) == FirstMet(ps, b, i)
    decreases |ps| - i
  {
    if i < |ps| {
      OptAgree(ps[i].cond, a, b);
      FirstMetAgree(ps, a, b, i + 1);
    }
  }

  /** Visibility, dependencies and the default do not depend on the user's value. */
  lemma PartsAgree(d: Decl, a: Env, b: Env, modules: bool)
    requires EnvAgree(a, b)
    ensures VisibleOf(d, a, modules) == VisibleOf(d, b, modules) && DirOf(d, a) == DirOf(d, b)
    ensures RevOf(d, a, modules) == RevOf(d, b, modules) && DefaultTri(d, a) == DefaultTri(d, b)
    ensures WriteFlag(d, a, modules) == WriteFlag(d, b, modules)
  {
    PromptsAgree(d.prompts, a, b);
    OptAgree(d.dirDep, a, b);
    OptAgree(d.revDep, a, b);
    FirstMetAgree(d.defaults, a, b, 0);
    var k := FirstMet(d.defaults, a, 0);
    if k < |d.defaults| {
      EvalAgree(d.defaults[k].what, a, b);
      OptAgree(d.defaults[k].cond, a, b);
    }
  }

  lemma CalcWithAgree(d: Decl, u: User, a: Env, va: Symbol -> string, b: Env, vb: Symbol -> string,
                      modules: bool, numbers: Numbers)
    requires EnvAgree(a, b) && ValsAgree(va, vb)
    ensures CalcWith(d, u, a, va, modules, numbers) == CalcWith(d, u, b, vb, modules, numbers)
  {
    PartsAgree(d, a, b, modules);
    FirstMetAgree(d.defaults, a, b, 0);
    FirstMetAgree(d.ranges, a, b, 0);
  }

  /** A user's value reaches only the symbols that read it: symbols of no higher rank keep
      their value, and all do if the symbol itself does. */
  lemma {:induction false} CalcSame(m: Model, id: nat, val: Tri, stable: bool, j: nat)
    requires id < |m.users| && WellFormed(m) && WellFormed(WithUser(m, id, val)) && j < |m.decls| && j != id
    requires if stable then Calc(WithUser(m, id, val), id) == Calc(m, id) else m.rank[j] <= m.rank[id]
    ensures Calc(WithUser(m, id, val), j) == Calc(m, j)
    decreases m.rank[j], 1
  {
    EnvSame(m, id, val, stable, m.rank[j]);
    var m', bound := WithUser(m, id, val), m.rank[j];
    CalcWithAgree(m.decls[j], m.users[j], EnvBelow(m, bound), ValsBelow(m, bound),
                  EnvBelow(m', bound), ValsBelow(m', bound), m.modules, m.numbers);
  }

  lemma {:induction false} EnvSame(m: Model, id: nat, val: Tri, stable: bool, bound: nat)
    requires id < |m.users| && WellFormed(m) && WellFormed(WithUser(m, id, val))
    requires if stable then Calc(WithUser(m, id, val), id) == Calc(m, id) else bound <= m.rank[id]
    ensures EnvAgree(EnvBelow(m, bound), EnvBelow(WithUser(m, id, val), bound))
    ensures ValsAgree(ValsBelow(m, bound), ValsBelow(WithUser(m, id, val), bound))
    decreases bound, 0
  {
    hide Calc;
    var m' := WithUser(m, id, val);
    forall s: Symbol | s.Config? && Below(m.decls, m.rank, bound, s)
      ensures Calc(m', s.id) == Calc(m, s.id)
    {
      if s.id != id { CalcSame(m, id, val, stable, s.id); }
    }
  }

  /** An accepted value is what recomputation yields if and only if `ReadsBack`. */
  lemma ReadBack(m: Model, id: nat, val: Tri)
    requires id < |m.users| && WellFormed(m) && WellFormed(WithUser(m, id, val)) && IsTri(m.decls[id].kind)
    requires val == Calc(m, id).curr.tri || CanSet(m, id, val)
    ensures Calc(WithUser(m, id, val), id).curr.tri == val <==> ReadsBack(m, id, val)
    ensures Calc(WithUser(m, id, val), id) == Calc(m, id).(curr := SymVal("n", Calc(WithUser(m, id, val), id).curr.tri))
  {
    EnvSame(m, id, val, false, m.rank[id]);
    var m', bound := WithUser(m, id, val), m.rank[id];
    PartsAgree(m.decls[id], EnvBelow(m, bound), EnvBelow(m', bound), m.modules);
    hide EnvBelow, ValsBelow, VisibleOf, DirOf, RevOf, DefaultTri, WriteFlag, WellFormed;
  }

  /** Setting the value a symbol already has changes no value. */
  lemma SetSame(m: Model, id: nat, val: Tri)
    requires id < |m.users| && WellFormed(m) && WellFormed(WithUser(m, id, val)) && IsTri(m.decls[id].kind)
    requires val == Calc(m, id).curr.tri && ReadsBack(m, id, val)
    ensures forall j: nat :: j < |m.decls| ==> Calc(WithUser(m, id, val), j) == Calc(m, j)
  {
    ReadBack(m, id, val);
    forall j: nat | j < |m.decls| && j != id
      ensures Calc(WithUser(m, id, val), j) == Calc(m, j)
    {
      CalcSame(m, id, val, true, j);
    }
  }

  /** A tristate symbol with a prompt that is visible as m, a default of y and no user's
      value is y; setting it to y is accepted, and yet makes it m. */
  lemma SetCanLowerAValue()
    ensures
      var d := Decl(Tristate, "A", [Some(Sym(SymMod))], [Guarded(None, Sym(SymYes))], [], None, None);
      var numbers := Numbers((s, k) => None, (s, b) => 0, (k, v) => "");
      var m := Model([d], [User(false, NO, "")], true, numbers, [0]);
      && WellFormed(m) && WellFormed(WithUser(m, 0, YES)) && Calc(m, 0).curr.tri == YES
      && Calc(WithUser(m, 0, YES), 0).curr.tri == MOD
  {
    var d := Decl(Tristate, "A", [Some(Sym(SymMod))], [Guarded(None, Sym(SymYes))], [], None, None);
    var numbers := Numbers((s, k) => None, (s, b) => 0, (k, v) => "");
    var m := Model([d], [User(false, NO, "")], true, numbers, [0]);
    assert WellFormed(m) && WellFormed(WithUser(m, 0, YES));
    assert d.prompts[..0] == [];
    assert VisibleOf(d, EnvBelow(m, 0), true) == MOD;
    assert FirstMet(d.defaults, EnvBelow(m, 0), 0) == 0;
    ReadBack(m, 0, YES);
    assert !ReadsBack(m, 0, YES);
    assert VisibleOf(d, EnvBelow(WithUser(m, 0, YES), 0), true) == MOD;
  }

  // ---------------------------------------------------- the cached evaluator

  /** struct symbol: the fields that change. */
  class SymState {
    var curr: SymVal
    var visible: Tri
    var dirTri: Tri
    var revTri: Tri
    var valid: bool
    var write: bool
    var user: User

    constructor ()
      ensures !valid && !user.has
    {
      curr, visible, dirTri, revTri := SymVal("", NO), NO, NO, NO;
      valid, write, user := false, false, User(false, NO, "");
    }
  }

  /** Without circles, no symbol of `busy` can be reached from symbols below `bound`. */
  ghost predicate Above(m: Model, busy: set<nat>, bound: nat) {
    WellFormed(m) ==> forall b :: b in busy ==> b < |m.rank| && m.rank[b] >= bound
  }

  /** `e` reads declared symbols, and without circles only ones below `bound`. */
  ghost predicate Reads(m: Model, bound: nat, e: Expr) {
    ExprBelow(m.decls, NoRank(|m.decls|), 1, e) && (WellFormed(m) ==> ExprBelow(m.decls, m.rank, bound, e))
  }

  ghost predicate ReadsOpt(m: Model, bound: nat, e: Option<Expr>) { e.Some? ==> Reads(m, bound, e.value) }

  ghost predicate ReadsSymbol(m: Model, bound: nat, s: Symbol) {
    Below(m.decls, NoRank(|m.decls|), 1, s) && (WellFormed(m) ==> Below(m.decls, m.rank, bound, s))
  }

  lemma PartsRead(m: Model, id: nat)
    requires Declared(m.decls) && id < |m.decls| == |m.rank|
    ensures var d, bound := m.decls[id], m.rank[id];
            && (forall i :: 0 <= i < |d.prompts| ==> ReadsOpt(m, bound, d.prompts[i]))
            && (forall i :: 0 <= i < |d.defaults| ==>
                  ReadsOpt(m, bound, d.defaults[i].cond) && Reads(m, bound, d.defaults[i].what))
            && (forall i :: 0 <= i < |d.ranges| ==>
                  && ReadsOpt(m, bound, d.ranges[i].cond)
                  && ReadsSymbol(m, bound, d.ranges[i].what.lo) && ReadsSymbol(m, bound, d.ranges[i].what.hi))
            && ReadsOpt(m, bound, d.dirDep) && ReadsOpt(m, bound, d.revDep)
  {
    hide ExprBelow, Below;
    assert DeclBelow(m.decls, NoRank(|m.decls|), 1, m.decls[id]);
    if WellFormed(m) { assert DeclBelow(m.decls, m.rank, m.rank[id], m.decls[id]); }
  }

  /** How many symbols are not flagged. */
  function Left(flags: seq<bool>): nat {
    if flags == [] then 0 else (if flags[0] then 0 else 1) + Left(flags[1..])
  }

  lemma {:induction false} LeftFalls(a: seq<bool>, b: seq<bool>)
    requires |a| == |b| && forall i :: 0 <= i < |a| && a[i] ==> b[i]
    ensures Left(b) <= Left(a)
    ensures a != b ==> Left(b) < Left(a)
  {
    if a != [] {
      assert a[1..] == b[1..] && a[0] == b[0] ==> a == b by {
        assert a == [a[0]] + a[1..] && b == [b[0]] + b[1..];
      }
      LeftFalls(a[1..], b[1..]);
    }
  }

  lemma OtherValue(m: Model, id: nat)
    requires WellFormed(m) && id < |m.decls| && !IsTri(m.decls[id].kind) && !IsText(m.decls[id].kind)
    ensures Calc(m, id).curr == SymVal(m.decls[id].name, NO)
  {
  }

  class Kconfig {
    const decls: seq<Decl>
    const modules: bool
    const numbers: Numbers
    const syms: seq<SymState>

    /** `m` is what the values depend on, right now. */
    ghost predicate Models(m: Model)
      reads syms
    {
      && m.decls == decls && m.modules == modules && m.numbers == numbers
      && |m.users| == |syms| == |decls| == |m.rank|
      && (forall i :: 0 <= i < |syms| ==> syms[i].user == m.users[i])
      && (forall i, j :: 0 <= i < j < |syms| ==> syms[i] != syms[j])
    }

    /** The symbol holds its uncached value. */
    ghost predicate Correct(m: Model, i: nat)
      requires WellFormed(m) && i < |m.decls| && i < |syms|
      reads syms[i]
    {
      var s, o := syms[i], Calc(m, i);
      && s.curr == o.curr
      && (IsTri(m.decls[i].kind) || IsText(m.decls[i].kind) ==>
            s.visible == o.visible && s.dirTri == o.dir && s.revTri == o.rev && s.write == o.write)
    }

    /** The symbols being calculated are flagged valid.  If dependencies do not go in circles,
        every other symbol flagged valid holds its uncached value. */
    ghost predicate Ready(m: Model, busy: set<nat>)
      reads syms
    {
      && Models(m) && Declared(decls)
      && (forall b :: b in busy ==> b < |syms| && syms[b].valid)
      && (WellFormed(m) ==> forall i: nat :: i < |syms| && syms[i].valid && i !in busy ==> Correct(m, i))
    }

    function Flags(): (f: seq<bool>)
      reads syms
      ensures |f| == |syms| && forall i :: 0 <= i < |syms| ==> f[i] == syms[i].valid
    {
      seq(|syms|, i requires 0 <= i < |syms| reads syms => syms[i].valid)
    }

    /** Flags are only set, so fewer symbols are left. */
    twostate lemma FlagsGrow()
      requires forall j :: 0 <= j < |syms| && old(syms[j].valid) ==> syms[j].valid
      ensures Left(Flags()) <= Left(old(Flags()))
    {
      LeftFalls(old(Flags()), Flags());
    }

    /** sym_get_tristate_value, sym_get_string_value and curr.val of an expression's
        symbol, calculated first. */
    method CalcSymbol(s: Symbol, ghost bound: nat, ghost m: Model, ghost busy: set<nat>)
      returns (tri: Tri, text: string, val: string)
      requires Ready(m, busy) && Above(m, busy, bound) && ReadsSymbol(m, bound, s)
      modifies syms
      ensures Ready(m, busy)
      ensures forall j :: 0 <= j < |syms| && old(syms[j].valid) ==> unchanged(syms[j])
      ensures WellFormed(m) ==>
        tri == SymTri(EnvBelow(m, bound), s) && text == SymText(EnvBelow(m, bound), s)
      ensures WellFormed(m) ==> val == ValOf(s, ValsBelow(m, bound))
      decreases Left(Flags()), 1
    {
      if s.Config? {
        CalcValue(s.id, m, busy);
        tri, val := syms[s.id].curr.tri, syms[s.id].curr.val;
        text := if IsTri(s.kind) then TriString(tri, modules) else val;
      } else if s == SymYes {
        tri, text, val := YES, "y", "y";
      } else if s == SymMod {
        tri, text, val := MOD, "m", "m";
      } else if s == SymNo {
        tri, text, val := NO, "n", "n";
      } else {
        tri, text, val := NO, s.name, s.name;
      }
    }

    /** expr_calc_value */
    method CalcExpr(e: Expr, ghost bound: nat, ghost m: Model, ghost busy: set<nat>) returns (t: Tri)
      requires Ready(m, busy) && Above(m, busy, bound) && Reads(m, bound, e)
      modifies syms
      ensures Ready(m, busy)
      ensures forall j :: 0 <= j < |syms| && old(syms[j].valid) ==> unchanged(syms[j])
      ensures WellFormed(m) ==> t == Eval(e, EnvBelow(m, bound))
      decreases Left(Flags()), 2, e
    {
      assert WellFormed(m) ==> EnvBelow(m, bound).number == numbers.number;
      hide Correct, WellFormed, Models, Calc, EnvBelow, ValsBelow;
      if e.Sym? {
        var text, val;
        t, text, val := CalcSymbol(e.sym, bound, m, busy);
      } else if e.Not? {
        t := CalcExpr(e.arg, bound, m, busy);
        t := TriNot(t);
      } else if e.Bin? {
        var l := CalcExpr(e.left, bound, m, busy);
        FlagsGrow();
        var r := CalcExpr(e.right, bound, m, busy);
        t := BinValue(e.op, l, r);
      } else {
        var tri, text1, text2, val;
        tri, text1, val := CalcSymbol(e.lhs, bound, m, busy);
        FlagsGrow();
        tri, text2, val := CalcSymbol(e.rhs, bound, m, busy);
        t := CompValue(e.cop, CompareTexts(numbers.number, text1, TypeOf(e.lhs), text2, TypeOf(e.rhs)));
      }
    }

    method CalcOpt(e: Option<Expr>, ghost bound: nat, ghost m: Model, ghost busy: set<nat>) returns (t: Tri)
      requires Ready(m, busy) && Above(m, busy, bound) && ReadsOpt(m, bound, e)
      modifies syms
      ensures Ready(m, busy)
      ensures forall j :: 0 <= j < |syms| && old(syms[j].valid) ==> unchanged(syms[j])
      ensures WellFormed(m) ==> t == EvalOpt(e, EnvBelow(m, bound))
      decreases Left(Flags()), 3
    {
      if e.None? { return YES; }
      t := CalcExpr(e.value, bound, m, busy);
    }

    /** The largest value of a prompt's condition */
    method AnyPrompt(id: nat, ghost m: Model, ghost busy: set<nat>) returns (tri: Tri)
      requires Ready(m, busy) && id < |syms| && id in busy && Above(m, busy, m.rank[id])
      modifies syms
      ensures Ready(m, busy)
      ensures forall j :: 0 <= j < |syms| && old(syms[j].valid) ==> unchanged(syms[j])
      ensures WellFormed(m) ==> tri == PromptOr(decls[id].prompts, EnvBelow(m, m.rank[id]))
      decreases Left(Flags()), 4
    {
      hide Correct, WellFormed, Calc, EnvBelow, ValsBelow, Below, ExprBelow;
      var ps := decls[id].prompts;
      PartsRead(m, id);
      tri := NO;
      for i := 0 to |ps|
        invariant Ready(m, busy)
        invariant forall j :: 0 <= j < |syms| && old(syms[j].valid) ==> unchanged(syms[j])
        invariant WellFormed(m) ==> tri == PromptOr(ps[..i], EnvBelow(m, m.rank[id]))
      {
        FlagsGrow();
        var t := CalcOpt(ps[i], m.rank[id], m, busy);
        tri := TriOr(tri, t);
        assert ps[..i + 1] == ps[..i] + [ps[i]];
      }
      assert ps[..|ps|] == ps;
    }

    /** sym_calc_visibility: `visible` */
    method CalcVisible(id: nat, ghost m: Model, ghost busy: set<nat>)
      requires Ready(m, busy) && id < |syms| && id in busy && Above(m, busy, m.rank[id])
      modifies syms
      ensures Ready(m, busy)
      ensures forall j :: 0 <= j < |syms| && j != id && old(syms[j].valid) ==> unchanged(syms[j])
      ensures syms[id].valid == old(syms[id].valid) && syms[id].write == old(syms[id].write)
      ensures WellFormed(m) ==> syms[id].visible == VisibleOf(decls[id], EnvBelow(m, m.rank[id]), modules)
      decreases Left(Flags()), 5
    {
      hide Above, Calc, Declared, EnvBelow, Flags, Left, PromptOr, WellFormed;
      var sym, d := syms[id], decls[id];
      var tri := AnyPrompt(id, m, busy);
      if tri == MOD && (!d.kind.Tristate? || !modules) { tri := YES; }
      if sym.visible != tri { sym.visible := tri; }
    }

    /** sym_calc_visibility: `dir_dep.tri` */
    method CalcDir(id: nat, ghost m: Model, ghost busy: set<nat>)
      requires Ready(m, busy) && id < |syms| && id in busy && Above(m, busy, m.rank[id])
      modifies syms
      ensures Ready(m, busy)
      ensures forall j :: 0 <= j < |syms| && j != id && old(syms[j].valid) ==> unchanged(syms[j])
      ensures syms[id].valid == old(syms[id].valid) && syms[id].write == old(syms[id].write)
      ensures syms[id].visible == old(syms[id].visible)
      ensures WellFormed(m) ==> syms[id].dirTri == DirOf(decls[id], EnvBelow(m, m.rank[id]))
      decreases Left(Flags()), 5
    {
      hide Above, Calc, Declared, EnvBelow, ExprBelow, Flags, Left, WellFormed;
      var sym, d := syms[id], decls[id];
      PartsRead(m, id);
      var tri := CalcOpt(d.dirDep, m.rank[id], m, busy);
      if tri == MOD { tri := YES; }
      if sym.dirTri != tri { sym.dirTri := tri; }
    }

    /** sym_calc_visibility: `rev_dep.tri` */
    method CalcRev(id: nat, ghost m: Model, ghost busy: set<nat>)
      requires Ready(m, busy) && id < |syms| && id in busy && Above(m, busy, m.rank[id])
      modifies syms
      ensures Ready(m, busy)
      ensures forall j :: 0 <= j < |syms| && j != id && old(syms[j].valid) ==> unchanged(syms[j])
      ensures syms[id].valid == old(syms[id].valid) && syms[id].write == old(syms[id].write)
      ensures syms[id].visible == old(syms[id].visible)
      ensures syms[id].dirTri == old(syms[id].dirTri)
      ensures WellFormed(m) ==> syms[id].revTri == RevOf(decls[id], EnvBelow(m, m.rank[id]), modules)
      decreases Left(Flags()), 5
    {
      hide Above, Calc, Declared, EnvBelow, ExprBelow, Flags, Left, WellFormed;
      var sym, d := syms[id], decls[id];
      PartsRead(m, id);
      var tri := NO;
      if d.revDep.Some? { tri := CalcExpr(d.revDep.value, m.rank[id], m, busy); }
      if tri == MOD && EffType(modules, d.kind).Boolean? { tri := YES; }
      if sym.revTri != tri { sym.revTri := tri; }
    }

    method CalcVisibility(id: nat, ghost m: Model, ghost busy: set<nat>)
      requires Ready(m, busy) && id < |syms| && id in busy && Above(m, busy, m.rank[id])
      modifies syms
      ensures Ready(m, busy)
      ensures forall j :: 0 <= j < |syms| && j != id && old(syms[j].valid) ==> unchanged(syms[j])
      ensures syms[id].valid == old(syms[id].valid) && syms[id].write == old(syms[id].write)
      ensures WellFormed(m) ==> syms[id].visible == VisibleOf(decls[id], EnvBelow(m, m.rank[id]), modules)
      ensures WellFormed(m) ==> syms[id].dirTri == DirOf(decls[id], EnvBelow(m, m.rank[id]))
      ensures WellFormed(m) ==> syms[id].revTri == RevOf(decls[id], EnvBelow(m, m.rank[id]), modules)
      decreases Left(Flags()), 6
    {
      hide Ready, EnvBelow, Above, VisibleOf, DirOf, RevOf;
      CalcVisible(id, m, busy);
      FlagsGrow();
      CalcDir(id, m, busy);
      FlagsGrow();
      CalcRev(id, m, busy);
    }

    /** sym_get_default_prop, with the value of the condition it found */
    method DefaultProp(id: nat, ghost m: Model, ghost busy: set<nat>) returns (k: nat, cond: Tri)
      requires Ready(m, busy) && id < |syms| && id in busy && Above(m, busy, m.rank[id])
      modifies syms
      ensures Ready(m, busy)
      ensures forall j :: 0 <= j < |syms| && old(syms[j].valid) ==> unchanged(syms[j])
      ensures WellFormed(m) ==> k == FirstMet(decls[id].defaults, EnvBelow(m, m.rank[id]), 0)
      ensures WellFormed(m) && k < |decls[id].defaults| ==>
        cond == EvalOpt(decls[id].defaults[k].cond, EnvBelow(m, m.rank[id]))
      decreases Left(Flags()), 4
    {
      hide Below, Calc, Correct, EnvBelow, ExprBelow, ValsBelow, WellFormed;
      PartsRead(m, id);
      var ds := decls[id].defaults;
      k, cond := 0, NO;
      while k < |ds|
        invariant k <= |ds|
        invariant WellFormed(m) ==>
          FirstMet(ds, EnvBelow(m, m.rank[id]), 0) == FirstMet(ds, EnvBelow(m, m.rank[id]), k)
        invariant Ready(m, busy)
        invariant forall j :: 0 <= j < |syms| && old(syms[j].valid) ==> unchanged(syms[j])
      {
        FlagsGrow();
        cond := CalcOpt(ds[k].cond, m.rank[id], m, busy);
        if cond != NO { return; }
        k := k + 1;
      }
    }

    /** sym_get_range_prop */
    method RangeProp(id: nat, ghost m: Model, ghost busy: set<nat>) returns (k: nat)
      requires Ready(m, busy) && id < |syms| && id in busy && Above(m, busy, m.rank[id])
      modifies syms
      ensures Ready(m, busy)
      ensures forall j :: 0 <= j < |syms| && old(syms[j].valid) ==> unchanged(syms[j])
      ensures k <= |decls[id].ranges|
      ensures WellFormed(m) ==> k == FirstMet(decls[id].ranges, EnvBelow(m, m.rank[id]), 0)
      decreases Left(Flags()), 4
    {
      hide Below, Calc, Correct, EnvBelow, ExprBelow, ValsBelow, WellFormed;
      PartsRead(m, id);
      var rs := decls[id].ranges;
      k := 0;
      while k < |rs|
        invariant k <= |rs|
        invariant WellFormed(m) ==>
          FirstMet(rs, EnvBelow(m, m.rank[id]), 0) == FirstMet(rs, EnvBelow(m, m.rank[id]), k)
        invariant Ready(m, busy)
        invariant forall j :: 0 <= j < |syms| && old(syms[j].valid) ==> unchanged(syms[j])
      {
        FlagsGrow();
        var cond := CalcOpt(rs[k].cond, m.rank[id], m, busy);
        if cond != NO { return; }
        k := k + 1;
      }
    }

    /** sym_get_range_val */
    method RangeValue(s: Symbol, base: nat, ghost bound: nat, ghost m: Model, ghost busy: set<nat>) returns (v: int)
      requires Ready(m, busy) && Above(m, busy, bound) && ReadsSymbol(m, bound, s)
      modifies syms
      ensures Ready(m, busy)
      ensures forall j :: 0 <= j < |syms| && old(syms[j].valid) ==> unchanged(syms[j])
      ensures WellFormed(m) ==> v == RangeVal(s, base, ValsBelow(m, bound), numbers)
      decreases Left(Flags()), 3
    {
      var tri, text, val := CalcSymbol(s, bound, m, busy);
      var b := if TypeOf(s).Int? then 10 else if TypeOf(s).Hex? then 16 else base;
      v := numbers.toInt(val, b);
    }

    /** sym_validate_range up to its assignment: `over` is the bound `val` violates */
    method RangeViolated(id: nat, val: string, ghost m: Model, ghost busy: set<nat>) returns (over: Option<int>)
      requires Ready(m, busy) && id < |syms| && id in busy && Above(m, busy, m.rank[id])
      modifies syms
      ensures Ready(m, busy)
      ensures forall j :: 0 <= j < |syms| && old(syms[j].valid) ==> unchanged(syms[j])
      ensures WellFormed(m) ==>
        Clamp(decls[id], EnvBelow(m, m.rank[id]), ValsBelow(m, m.rank[id]), numbers, val)
        == if over.None? then val else numbers.show(decls[id].kind, over.value)
      decreases Left(Flags()), 5
    {
      hide Correct, WellFormed, Calc, EnvBelow, ValsBelow, Below, ExprBelow, FirstMet, RangeVal;
      var d := decls[id];
      PartsRead(m, id);
      if !d.kind.Int? && !d.kind.Hex? { return None; }
      var k := RangeProp(id, m, busy);
      if k == |d.ranges| { return None; }
      var v := numbers.toInt(val, Base(d.kind));
      FlagsGrow();
      var v2 := RangeValue(d.ranges[k].what.lo, Base(d.kind), m.rank[id], m, busy);
      if v >= v2 {
        FlagsGrow();
        v2 := RangeValue(d.ranges[k].what.hi, Base(d.kind), m.rank[id], m, busy);
        if v <= v2 { return None; }
      }
      over := Some(v2);
    }

    /** sym_validate_range */
    method ValidateRange(id: nat, ghost m: Model, ghost busy: set<nat>)
      requires Ready(m, busy) && id < |syms| && id in busy && Above(m, busy, m.rank[id])
      modifies syms
      ensures Ready(m, busy)
      ensures forall j :: 0 <= j < |syms| && j != id && old(syms[j].valid) ==> unchanged(syms[j])
      ensures syms[id].valid == old(syms[id].valid) && syms[id].write == old(syms[id].write)
      ensures syms[id].visible == old(syms[id].visible)
      ensures syms[id].dirTri == old(syms[id].dirTri) && syms[id].revTri == old(syms[id].revTri)
      ensures syms[id].curr.tri == old(syms[id].curr.tri)
      ensures WellFormed(m) ==>
        syms[id].curr.val
        == Clamp(decls[id], EnvBelow(m, m.rank[id]), ValsBelow(m, m.rank[id]), numbers, old(syms[id].curr.val))
      decreases Left(Flags()), 6
    {
      hide Correct, WellFormed, EnvBelow, ValsBelow, Clamp;
      var over := RangeViolated(id, syms[id].curr.val, m, busy);
      if over.Some? { SetCurr(id, SymVal(numbers.show(decls[id].kind, over.value), syms[id].curr.tri), m, busy); }
    }

    /** SYMBOL_VALID */
    method Flag(id: nat, ghost m: Model, ghost busy: set<nat>)
      requires Ready(m, busy) && id < |syms| && !syms[id].valid
      modifies syms[id]
      ensures Ready(m, busy + {id}) && syms[id].valid
      ensures Left(Flags()) < Left(old(Flags()))
    {
      hide Calc, WellFormed, Declared, Left, Flags;
      syms[id].valid := true;
      FlagSet(id);
    }

    twostate lemma FlagSet(id: nat)
      requires id < |syms| && !old(syms[id].valid) && syms[id].valid
      requires forall j :: 0 <= j < |syms| && old(syms[j].valid) ==> syms[j].valid
      ensures Left(Flags()) < Left(old(Flags()))
    {
      LeftFalls(old(Flags()), Flags());
      assert Flags()[id] && !old(Flags())[id];
    }

    /** SYMBOL_WRITE */
    method SetWrite(id: nat, write: bool, ghost m: Model, ghost busy: set<nat>)
      requires Ready(m, busy) && id < |syms| && id in busy
      modifies syms[id]
      ensures Ready(m, busy) && syms[id].valid && syms[id].write == write
      ensures syms[id].visible == old(syms[id].visible) && syms[id].curr == old(syms[id].curr)
      ensures syms[id].dirTri == old(syms[id].dirTri) && syms[id].revTri == old(syms[id].revTri)
    {
      hide Calc, WellFormed, Declared;
      syms[id].write := write;
    }

    /** curr */
    method SetCurr(id: nat, curr: SymVal, ghost m: Model, ghost busy: set<nat>)
      requires Ready(m, busy) && id < |syms| && id in busy
      modifies syms[id]
      ensures Ready(m, busy) && syms[id].valid && syms[id].curr == curr
      ensures syms[id].visible == old(syms[id].visible) && syms[id].write == old(syms[id].write)
      ensures syms[id].dirTri == old(syms[id].dirTri) && syms[id].revTri == old(syms[id].revTri)
    {
      hide Calc, WellFormed, Declared;
      syms[id].curr := curr;
    }

    /** sym_calc_value of a symbol of a known type, once it is flagged valid */
    method CalcTyped(id: nat, ghost m: Model, ghost busy: set<nat>)
      requires Ready(m, busy) && id < |syms| && id in busy && Above(m, busy, m.rank[id])
      requires IsTri(decls[id].kind) || IsText(decls[id].kind)
      modifies syms
      ensures Ready(m, busy)
      ensures forall j :: 0 <= j < |syms| && j != id && old(syms[j].valid) ==> unchanged(syms[j])
      ensures syms[id].valid == old(syms[id].valid) && (WellFormed(m) ==> Correct(m, id))
      decreases Left(Flags()), 7
    {
      hide WellFormed, EnvBelow, ValsBelow, VisibleOf, DirOf, RevOf, TriValue, OwnText, Clamp, WriteFlag;
      hide Above, Declared, Left, Correct;
      SetWrite(id, false, m, busy);
      FlagsGrow();
      CalcVisibility(id, m, busy);
      // what a symbol that is reached again while it is calculated appears to be
      SetCurr(id, if IsTri(decls[id].kind) then SymVal("n", NO) else SymVal("", NO), m, busy);
      FlagsGrow();
      if IsTri(decls[id].kind) {
        CalcTri(id, m, busy);
      } else {
        CalcText(id, m, busy);
        FlagsGrow();
        ValidateRange(id, m, busy);
      }
      if WellFormed(m) { Calculated(m, id); }
    }

    lemma Calculated(m: Model, id: nat)
      requires Models(m) && WellFormed(m) && id < |syms| && (IsTri(decls[id].kind) || IsText(decls[id].kind))
      requires var d, env, vals := decls[id], EnvBelow(m, m.rank[id]), ValsBelow(m, m.rank[id]);
               && syms[id].visible == VisibleOf(d, env, modules)
               && syms[id].dirTri == DirOf(d, env) && syms[id].revTri == RevOf(d, env, modules)
               && syms[id].write == WriteFlag(d, env, modules)
               && (IsTri(d.kind) ==> syms[id].curr == SymVal("n", TriValue(d, m.users[id], env, modules)))
               && (!IsTri(d.kind) ==>
                     syms[id].curr == SymVal(TextValue(d, m.users[id], env, vals, modules, numbers), NO))
      ensures Correct(m, id)
    {
      hide EnvBelow, ValsBelow, VisibleOf, DirOf, RevOf, TriValue, OwnText, Clamp, WriteFlag;
    }

    /** sym_calc_value: it ends whatever the dependencies, because each symbol is flagged before
        anything is read for it, and a flagged one is not calculated again.  Afterwards the
        symbol is valid, and the ones that were valid before are untouched; if dependencies do
        not go in circles, every valid symbol holds its uncached value. */
    method CalcValue(id: nat, ghost m: Model, ghost busy: set<nat>)
      requires Ready(m, busy) && id < |syms| && Above(m, busy, m.rank[id] + 1)
      modifies syms
      ensures Ready(m, busy)
      ensures forall j :: 0 <= j < |syms| && old(syms[j].valid) ==> unchanged(syms[j])
      ensures syms[id].valid
      decreases Left(Flags()), 0
    {
      hide WellFormed, Calc, EnvBelow, Correct, Left, Declared;
      var sym, d := syms[id], decls[id];
      if sym.valid { return; }
      Flag(id, m, busy);
      if !IsTri(d.kind) && !IsText(d.kind) {
        NameOnly(id, m, busy + {id});
      } else {
        CalcTyped(id, m, busy + {id});
      }
    }

    /** A symbol without a known type: its value is its name. */
    method NameOnly(id: nat, ghost m: Model, ghost busy: set<nat>)
      requires Ready(m, busy) && id < |syms| && id in busy && !IsTri(decls[id].kind) && !IsText(decls[id].kind)
      modifies syms[id]
      ensures Ready(m, busy) && syms[id].valid && (WellFormed(m) ==> Correct(m, id))
    {
      hide Calc, WellFormed, Declared;
      syms[id].curr := SymVal(decls[id].name, NO);
      if WellFormed(m) { OtherValue(m, id); }
    }

    /** The boolean and tristate branch of sym_calc_value up to `calc_newval`. */
    method OwnTri(id: nat, ghost m: Model, ghost busy: set<nat>) returns (tri: Tri, write: bool)
      requires Ready(m, busy) && id < |syms| && id in busy && Above(m, busy, m.rank[id]) && IsTri(decls[id].kind)
      requires WellFormed(m) ==> syms[id].visible == VisibleOf(decls[id], EnvBelow(m, m.rank[id]), modules)
      requires WellFormed(m) ==> syms[id].revTri == RevOf(decls[id], EnvBelow(m, m.rank[id]), modules)
      modifies syms
      ensures Ready(m, busy)
      ensures forall j :: 0 <= j < |syms| && old(syms[j].valid) ==> unchanged(syms[j])
      ensures WellFormed(m) ==> tri == OwnTriOf(decls[id], m.users[id], EnvBelow(m, m.rank[id]), modules)
      ensures WellFormed(m) ==> write == WriteFlag(decls[id], EnvBelow(m, m.rank[id]), modules)
      decreases Left(Flags()), 5
    {
      hide Below, Calc, Correct, EnvBelow, ExprBelow, RevOf, ValsBelow, VisibleOf, WellFormed;
      PartsRead(m, id);
      var sym, d := syms[id], decls[id];
      tri, write := NO, sym.visible != NO;
      if sym.visible != NO && sym.user.has {
        tri := TriAnd(sym.user.tri, sym.visible);
        return;
      }
      if sym.revTri != NO { write := true; }
      var k, cond := DefaultProp(id, m, busy);
      if k < |d.defaults| {
        write := true;
        FlagsGrow();
        tri := CalcExpr(d.defaults[k].what, m.rank[id], m, busy);
        tri := TriAnd(tri, cond);
      }
    }

    /** The boolean and tristate branch of sym_calc_value. */
    method CalcTri(id: nat, ghost m: Model, ghost busy: set<nat>)
      requires Ready(m, busy) && id < |syms| && id in busy && Above(m, busy, m.rank[id]) && IsTri(decls[id].kind)
      requires WellFormed(m) ==> syms[id].visible == VisibleOf(decls[id], EnvBelow(m, m.rank[id]), modules)
      requires WellFormed(m) ==> syms[id].dirTri == DirOf(decls[id], EnvBelow(m, m.rank[id]))
      requires WellFormed(m) ==> syms[id].revTri == RevOf(decls[id], EnvBelow(m, m.rank[id]), modules)
      modifies syms
      ensures Ready(m, busy)
      ensures forall j :: 0 <= j < |syms| && j != id && old(syms[j].valid) ==> unchanged(syms[j])
      ensures syms[id].valid == old(syms[id].valid) && syms[id].visible == old(syms[id].visible)
      ensures syms[id].dirTri == old(syms[id].dirTri) && syms[id].revTri == old(syms[id].revTri)
      ensures WellFormed(m) ==>
        syms[id].curr == SymVal("n", TriValue(decls[id], m.users[id], EnvBelow(m, m.rank[id]), modules))
      ensures WellFormed(m) ==> syms[id].write == WriteFlag(decls[id], EnvBelow(m, m.rank[id]), modules)
      decreases Left(Flags()), 6
    {
      hide Calc, Correct, DeclBelow, DirOf, EnvBelow, OwnTriOf, RevOf, ValsBelow, VisibleOf, WellFormed, WriteFlag;
      var sym, d := syms[id], decls[id];
      var tri, write := OwnTri(id, m, busy);
      SetWrite(id, write, m, busy);
      tri := if sym.dirTri == NO && sym.revTri != NO then NO else TriOr(tri, sym.revTri);
      if tri == MOD && EffType(modules, d.kind).Boolean? { tri := YES; }
      SetCurr(id, SymVal("n", tri), m, busy);
    }

    /** The string, int and hex branch of sym_calc_value. */
    method OwnVal(id: nat, ghost m: Model, ghost busy: set<nat>) returns (val: string, write: bool)
      requires Ready(m, busy) && id < |syms| && id in busy && Above(m, busy, m.rank[id]) && IsText(decls[id].kind)
      requires WellFormed(m) ==> syms[id].visible == VisibleOf(decls[id], EnvBelow(m, m.rank[id]), modules)
      modifies syms
      ensures Ready(m, busy)
      ensures forall j :: 0 <= j < |syms| && old(syms[j].valid) ==> unchanged(syms[j])
      ensures WellFormed(m) ==>
        val == OwnText(decls[id], m.users[id], EnvBelow(m, m.rank[id]), ValsBelow(m, m.rank[id]), modules)
      ensures WellFormed(m) ==> write == WriteFlag(decls[id], EnvBelow(m, m.rank[id]), modules)
      decreases Left(Flags()), 5
    {
      hide Below, Calc, Correct, EnvBelow, ValsBelow, VisibleOf, WellFormed, ValOf;
      PartsRead(m, id);
      var sym, d := syms[id], decls[id];
      val, write := "", false;
      if sym.visible != NO {
        write := true;
        if sym.user.has { return sym.user.val, write; }
      }
      var k, cond := DefaultProp(id, m, busy);
      if k < |d.defaults| && d.defaults[k].what.Sym? {
        var tri, text;
        write := true;
        FlagsGrow();
        tri, text, val := CalcSymbol(d.defaults[k].what.sym, m.rank[id], m, busy);
      }
    }

    /** The string, int and hex branch of sym_calc_value. */
    method CalcText(id: nat, ghost m: Model, ghost busy: set<nat>)
      requires Ready(m, busy) && id < |syms| && id in busy && Above(m, busy, m.rank[id]) && IsText(decls[id].kind)
      requires WellFormed(m) ==> syms[id].visible == VisibleOf(decls[id], EnvBelow(m, m.rank[id]), modules)
      modifies syms
      ensures Ready(m, busy)
      ensures forall j :: 0 <= j < |syms| && j != id && old(syms[j].valid) ==> unchanged(syms[j])
      ensures syms[id].valid == old(syms[id].valid) && syms[id].visible == old(syms[id].visible)
      ensures syms[id].dirTri == old(syms[id].dirTri) && syms[id].revTri == old(syms[id].revTri)
      ensures syms[id].curr.tri == NO
      ensures WellFormed(m) ==>
        syms[id].curr.val == OwnText(decls[id], m.users[id], EnvBelow(m, m.rank[id]), ValsBelow(m, m.rank[id]), modules)
      ensures WellFormed(m) ==> syms[id].write == WriteFlag(decls[id], EnvBelow(m, m.rank[id]), modules)
      decreases Left(Flags()), 6
    {
      hide Correct, Calc, EnvBelow, ValsBelow, DeclBelow, VisibleOf, OwnText, WriteFlag;
      var val, write := OwnVal(id, m, busy);
      SetWrite(id, write, m, busy);
      SetCurr(id, SymVal(val, NO), m, busy);
    }

    /** sym_clear_all_valid, with modules_val fixed */
    method ClearAllValid(ghost m: Model)
      requires Models(m) && Declared(decls)
      modifies syms
      ensures Ready(m, {})
      ensures forall i :: 0 <= i < |syms| ==> !syms[i].valid && syms[i].user == old(syms[i].user)
      ensures forall i :: 0 <= i < |syms| ==> syms[i].curr == old(syms[i].curr)
    {
      hide WellFormed;
      for i := 0 to |syms|
        invariant Models(m)
        invariant forall j :: 0 <= j < i ==> !syms[j].valid
        invariant forall j :: 0 <= j < |syms| ==>
          syms[j].user == old(syms[j].user) && syms[j].curr == old(syms[j].curr)
      {
        syms[i].valid := false;
      }
    }

    /** Whatever was cached before and in whatever order values are asked for, each comes
        out as its uncached value, if dependencies do not go in circles. */
    method CalcAll(order: seq<nat>, ghost m: Model)
      requires Ready(m, {}) && forall k :: 0 <= k < |order| ==> order[k] < |syms|
      modifies syms
      ensures Ready(m, {})
      ensures forall k :: 0 <= k < |order| ==> syms[order[k]].valid && (WellFormed(m) ==> Correct(m, order[k]))
    {
      hide WellFormed, Calc;
      for n := 0 to |order|
        invariant Ready(m, {})
        invariant forall k :: 0 <= k < n ==> syms[order[k]].valid
      {
        CalcValue(order[n], m, {});
      }
    }

    /** sym_tristate_within_range */
    predicate WithinRange(id: nat, val: Tri)
      requires id < |syms| && id < |decls|
      reads syms[id]
    {
      Accepts(EffType(modules, decls[id].kind), syms[id].visible, syms[id].revTri, val)
    }

    /** sym_set_tristate_value: it looks at the fields as they are, calculated or not.  A refused
        value changes nothing; an accepted one becomes the user's value.  The cache is dropped
        only when the value differs from the old one; otherwise, if dependencies do not go in
        circles, what stays cached is right exactly when no cached value depends on the change,
        and for a symbol that was valid exactly when the value can be read back. */
    method SetTristateValue(id: nat, val: Tri, ghost m: Model) returns (ok: bool)
      requires Ready(m, {}) && id < |syms| && IsTri(decls[id].kind)
      modifies syms
      ensures ok <==> val == old(syms[id].curr.tri) || old(WithinRange(id, val))
      ensures WellFormed(m) && old(syms[id].valid) ==> (ok <==> val == Calc(m, id).curr.tri || CanSet(m, id, val))
      ensures !ok ==> unchanged(syms)
      ensures ok ==> Models(WithUser(m, id, val))
      ensures ok && val != old(syms[id].curr.tri) ==>
        Ready(WithUser(m, id, val), {}) && forall j :: 0 <= j < |syms| ==> !syms[j].valid
      ensures ok && val == old(syms[id].curr.tri) ==> forall j :: 0 <= j < |syms| ==>
        syms[j].valid == old(syms[j].valid) && syms[j].curr == old(syms[j].curr)
      ensures WellFormed(m) ==> WellFormed(WithUser(m, id, val))
      ensures WellFormed(m) && ok && val == old(syms[id].curr.tri) ==>
        (Ready(WithUser(m, id, val), {}) <==>
         forall j: nat :: j < |syms| && old(syms[j].valid) ==> Calc(WithUser(m, id, val), j) == Calc(m, j))
      ensures WellFormed(m) && ok && val == old(syms[id].curr.tri) && old(syms[id].valid) ==>
        (Ready(WithUser(m, id, val), {}) <==> ReadsBack(m, id, val))
    {
      hide WellFormed, Calc;
      var sym := syms[id];
      var oldval := sym.curr.tri;
      ghost var m' := WithUser(m, id, val);
      if WellFormed(m) { WithUserWellFormed(m, id, val); }
      if oldval != val && !WithinRange(id, val) { return false; }
      sym.user := User(true, val, sym.user.val);
      if oldval != val {
        ClearAllValid(m');
      } else if WellFormed(m) {
        CachedAlike(m, m');
        if sym.valid {
          if ReadsBack(m, id, val) { SetSame(m, id, val); } else { ReadBack(m, id, val); }
        }
      }
      ok := true;
    }

    /** What is cached is right for another user's value exactly when that changes none of the
        cached values. */
    lemma CachedAlike(m: Model, m': Model)
      requires WellFormed(m) && Models(m') && WellFormed(m') && Declared(decls)
      requires m'.decls == m.decls && m'.modules == m.modules
      requires forall i: nat :: i < |syms| && syms[i].valid ==> Correct(m, i)
      ensures Ready(m', {}) <==> forall j: nat :: j < |syms| && syms[j].valid ==> Calc(m', j) == Calc(m, j)
    {
      hide WellFormed, EnvBelow, ValsBelow;
      forall j: nat | j < |syms| && syms[j].valid
        ensures Correct(m', j) <==> Calc(m', j) == Calc(m, j)
      {
        OutOfOther(m, j);
        OutOfOther(m', j);
      }
    }

    /** Symbols of other kinds have nothing but their name. */
    lemma OutOfOther(m: Model, id: nat)
      requires WellFormed(m) && id < |m.decls|
      ensures !IsTri(m.decls[id].kind) && !IsText(m.decls[id].kind) ==>
        Calc(m, id) == Out(SymVal(m.decls[id].name, NO), NO, NO, NO, false)
    {
    }
  }
}
