/** The menu tree (openwrt/scripts/config/menu.c:282-371, 415-424) as values: which entry ends
    up below which. */
module KMenu {
  import opened KExpr
  import opened KTransform
  import opened KImplies

  /** menu->prompt: its condition and whether it has a text */
  datatype Caption = Caption(visible: Option<Expr>, text: bool)

  /** struct menu without its links; `choice` when its symbol is a choice. */
  datatype Info = Info(id: nat, sym: Option<Symbol>, choice: bool, dep: Option<Expr>, prompt: Option<Caption>)

  datatype Menu = Menu(info: Info, kids: seq<Menu>)

  /** How many entries there are in a row of siblings and below. */
  function Count(ms: seq<Menu>): (n: nat)
    ensures n >= |ms|
  {
    if ms == [] then 0 else 1 + Count(ms[0].kids) + Count(ms[1..])
  }

  /** The entries of a row of siblings and all below, in preorder. */
  function Ids(ms: seq<Menu>): seq<nat> {
    if ms == [] then [] else [ms[0].info.id] + (Ids(ms[0].kids) + Ids(ms[1..]))
  }

  lemma {:induction false} CountConcat(a: seq<Menu>, b: seq<Menu>)
    ensures Count(a + b) == Count(a) + Count(b)
  {
    if a == [] {
      assert a + b == b;
    } else {
      assert (a + b)[1..] == a[1..] + b;
      CountConcat(a[1..], b);
    }
  }

  lemma {:induction false} IdsConcat(a: seq<Menu>, b: seq<Menu>)
    ensures Ids(a + b) == Ids(a) + Ids(b)
  {
    if a == [] {
      assert a + b == b;
    } else {
      assert (a + b)[1..] == a[1..] + b;
      IdsConcat(a[1..], b);
    }
  }

  lemma NoIds()
    ensures Ids([]) == []
  {
  }

  lemma Cons(m: Menu, ms: seq<Menu>)
    ensures Ids([m] + ms) == [m.info.id] + (Ids(m.kids) + Ids(ms)) && Count([m] + ms) == 1 + Count(m.kids) + Count(ms)
  {
    assert ([m] + ms)[1..] == ms;
  }

  // ------------------------------------------------- conditions inherited

  /** parentdep */
  function Inherited(i: Info): Option<Expr> {
    if i.choice && i.sym.Some? then Some(Sym(i.sym.value))
    else if i.prompt.Some? then i.prompt.value.visible
    else i.dep
  }

  function Condition(i: Info): Option<Expr> { if i.prompt.Some? then i.prompt.value.visible else i.dep }

  predicate Captioned(i: Info) { i.prompt.Some? && i.prompt.value.text }

  /** A child entry takes over the condition of its parent. */
  function Propagate(base: Option<Expr>, i: Info): Info {
    var dep := PropagatedDep(base, i.dep, false);
    var asBool := i.sym.Some? && !TypeOf(i.sym.value).Tristate?;
    i.(dep := dep,
       prompt := if i.prompt.None? then None
                 else Some(i.prompt.value.(visible := PropagatedDep(dep, i.prompt.value.visible, asBool))))
  }

  /** A child is only offered when its parent's condition is met, and its own are. */
  lemma ChildNeedsParent(base: Option<Expr>, i: Info, env: Env)
    requires WellTyped(env)
    requires base.Some? ==> NegatesSymbols(base.value)
    requires i.dep.Some? ==> Orderable(i.dep.value, false)
    requires i.prompt.Some? && i.prompt.value.visible.Some? ==> Orderable(i.prompt.value.visible.value, false)
    ensures EvalOpt(Condition(Propagate(base, i)), env) != NO <==>
            && EvalOpt(base, env) != NO && EvalOpt(i.dep, env) != NO
            && (i.prompt.Some? ==> EvalOpt(i.prompt.value.visible, env) != NO)
  {
    hide PropagatedDep, WellTyped, NegatesSymbols, Orderable;
    PropagatedDepSound(base, i.dep, false, env);
    if i.prompt.Some? {
      var asBool := i.sym.Some? && !TypeOf(i.sym.value).Tristate?;
      PropagatedDepSound(PropagatedDep(base, i.dep, false), i.prompt.value.visible, asBool, env);
    }
  }

  function PropagateRow(base: Option<Expr>, ms: seq<Menu>): (r: seq<Menu>)
    ensures |r| == |ms| && Count(r) == Count(ms)
  {
    if ms == [] then [] else [ms[0].(info := Propagate(base, ms[0].info))] + PropagateRow(base, ms[1..])
  }

  /** basedep of an entry without children */
  function BaseDep(i: Info): Option<Expr> { if i.prompt.Some? then i.prompt.value.visible else None }

  // ------------------------------------------------------- restructuring

  /** menu_finalize of the first entry of a row of siblings: it may take in some of the
      ones that follow. */
  function Finalize(ms: seq<Menu>): (r: seq<Menu>)
    requires ms != []
    ensures r != [] && |r| <= |ms| && r[0].info == ms[0].info && Count(r) == Count(ms)
    decreases Count(ms), 1
  {
    var m := ms[0];
    if m.kids != [] then [Menu(m.info, Hoist(FinalizeEach(PropagateRow(Inherited(m.info), m.kids))))] + ms[1..]
    else if m.info.sym.Some? then
      var p := Absorb(m.info.sym.value, BaseDep(m.info), ms[1..]);
      [Menu(m.info, Hoist(p.0))] + p.1
    else ms
  }

  /** menu_finalize of every child */
  function FinalizeEach(ms: seq<Menu>): (r: seq<Menu>)
    ensures Count(r) == Count(ms)
    decreases Count(ms), 2
  {
    if ms == [] then []
    else
      var f := Finalize(ms);
      [f[0]] + FinalizeEach(f[1..])
  }

  /** The siblings taken in by the entry of `s`, finalized, and the ones left. */
  function Absorb(s: Symbol, base: Option<Expr>, ms: seq<Menu>): (r: (seq<Menu>, seq<Menu>))
    ensures Count(r.0) + Count(r.1) == Count(ms) && |r.1| <= |ms|
    decreases Count(ms), 2
  {
    if ms == [] || !BelongsUnder(s, base, Condition(ms[0].info)) then ([], ms)
    else
      var f := Finalize(ms);
      var p := Absorb(s, base, f[1..]);
      ([f[0]] + p.0, p.1)
  }

  /** Children of an entry without a caption become its siblings. */
  function Hoist(ms: seq<Menu>): (r: seq<Menu>)
    ensures Count(r) == Count(ms)
    decreases Count(ms), 0
  {
    if ms == [] then []
    else if ms[0].kids != [] && !Captioned(ms[0].info) then
      CountConcat(ms[0].kids, ms[1..]);
      [Menu(ms[0].info, [])] + Hoist(ms[0].kids + ms[1..])
    else [ms[0]] + Hoist(ms[1..])
  }

  // --------------------------------------------------- what stays the same

  lemma {:induction false} PropagateKeepsOrder(base: Option<Expr>, ms: seq<Menu>)
    ensures Ids(PropagateRow(base, ms)) == Ids(ms)
  {
    if ms != [] {
      PropagateKeepsOrder(base, ms[1..]);
      Cons(ms[0].(info := Propagate(base, ms[0].info)), PropagateRow(base, ms[1..]));
    }
  }

  lemma {:induction false} HoistKeepsOrder(ms: seq<Menu>)
    ensures Ids(Hoist(ms)) == Ids(ms)
    decreases Count(ms)
  {
    if ms != [] {
      if ms[0].kids != [] && !Captioned(ms[0].info) {
        CountConcat(ms[0].kids, ms[1..]);
        HoistKeepsOrder(ms[0].kids + ms[1..]);
        IdsConcat(ms[0].kids, ms[1..]);
        Cons(Menu(ms[0].info, []), Hoist(ms[0].kids + ms[1..]));
        assert Ids([]) + Ids(ms[0].kids + ms[1..]) == Ids(ms[0].kids + ms[1..]);
      } else {
        HoistKeepsOrder(ms[1..]);
        Cons(ms[0], Hoist(ms[1..]));
      }
    }
  }

  /** No entry is lost and none moves in the preorder. */
  lemma {:induction false} FinalizeKeepsOrder(ms: seq<Menu>)
    requires ms != []
    ensures Ids(Finalize(ms)) == Ids(ms)
    decreases Count(ms), 1
  {
    hide FinalizeEach, Absorb, Hoist, PropagateRow;
    var m := ms[0];
    if m.kids != [] {
      var kids := PropagateRow(Inherited(m.info), m.kids);
      PropagateKeepsOrder(Inherited(m.info), m.kids);
      FinalizeEachKeepsOrder(kids);
      HoistKeepsOrder(FinalizeEach(kids));
      Cons(Menu(m.info, Hoist(FinalizeEach(kids))), ms[1..]);
    } else if m.info.sym.Some? {
      var p := Absorb(m.info.sym.value, BaseDep(m.info), ms[1..]);
      AbsorbKeepsOrder(m.info.sym.value, BaseDep(m.info), ms[1..]);
      HoistKeepsOrder(p.0);
      Cons(Menu(m.info, Hoist(p.0)), p.1);
      assert Ids([]) + Ids(ms[1..]) == Ids(ms[1..]);
    }
  }

  lemma {:induction false} FinalizeEachKeepsOrder(ms: seq<Menu>)
    ensures Ids(FinalizeEach(ms)) == Ids(ms)
    decreases Count(ms), 2
  {
    hide Finalize;
    if ms != [] {
      var f := Finalize(ms);
      FinalizeKeepsOrder(ms);
      FinalizeEachKeepsOrder(f[1..]);
      Cons(f[0], FinalizeEach(f[1..]));
    }
  }

  lemma {:induction false} AbsorbKeepsOrder(s: Symbol, base: Option<Expr>, ms: seq<Menu>)
    ensures Ids(Absorb(s, base, ms).0) + Ids(Absorb(s, base, ms).1) == Ids(ms)
    decreases Count(ms), 2
  {
    hide Finalize, Ids;
    if ms == [] || !BelongsUnder(s, base, Condition(ms[0].info)) {
      NoIds();
      assert [] + Ids(ms) == Ids(ms);
    } else {
      var f := Finalize(ms);
      var p := Absorb(s, base, f[1..]);
      FinalizeKeepsOrder(ms);
      AbsorbKeepsOrder(s, base, f[1..]);
      Cons(f[0], p.0);
      Cons(f[0], f[1..]);
      assert [f[0]] + f[1..] == f;
      Associate([f[0].info.id], Ids(f[0].kids), Ids(p.0), Ids(p.1));
    }
  }

  lemma Associate(a: seq<nat>, b: seq<nat>, c: seq<nat>, d: seq<nat>)
    ensures (a + (b + c)) + d == a + (b + (c + d))
  {
  }

  // ------------------------------------------------- what is inherited

  /** The entries of a row and all below, in preorder. */
  function Infos(ms: seq<Menu>): (r: seq<Info>)
    ensures |r| == Count(ms)
  {
    if ms == [] then [] else [ms[0].info] + (Infos(ms[0].kids) + Infos(ms[1..]))
  }

  lemma {:induction false} InfosConcat(a: seq<Menu>, b: seq<Menu>)
    ensures Infos(a + b) == Infos(a) + Infos(b)
  {
    if a == [] {
      assert a + b == b;
    } else {
      assert (a + b)[1..] == a[1..] + b;
      InfosConcat(a[1..], b);
    }
  }

  lemma InfosCons(m: Menu, ms: seq<Menu>)
    ensures Infos([m] + ms) == Infos([m]) + Infos(ms) == [m.info] + (Infos(m.kids) + Infos(ms))
    ensures Infos([m]) == [m.info] + Infos(m.kids)
  {
    assert ([m] + ms)[1..] == ms && [m][1..] == [];
  }

  /** Conditions handed down from each entry to its children, nothing moved. */
  function PropagateBelow(ms: seq<Menu>): (r: seq<Menu>)
    ensures Count(r) == Count(ms)
    decreases Count(ms)
  {
    if ms == [] then []
    else [Menu(ms[0].info, PropagateBelow(PropagateRow(Inherited(ms[0].info), ms[0].kids)))] + PropagateBelow(ms[1..])
  }

  lemma {:induction false} HoistKeepsInfos(ms: seq<Menu>)
    ensures Infos(Hoist(ms)) == Infos(ms)
    decreases Count(ms)
  {
    if ms != [] {
      if ms[0].kids != [] && !Captioned(ms[0].info) {
        CountConcat(ms[0].kids, ms[1..]);
        HoistKeepsInfos(ms[0].kids + ms[1..]);
        InfosConcat(ms[0].kids, ms[1..]);
        InfosCons(Menu(ms[0].info, []), Hoist(ms[0].kids + ms[1..]));
        assert Infos([]) + Infos(ms[0].kids + ms[1..]) == Infos(ms[0].kids + ms[1..]);
      } else {
        HoistKeepsInfos(ms[1..]);
        InfosCons(ms[0], Hoist(ms[1..]));
      }
    }
  }

  lemma InfosAssociate(a: seq<Info>, b: seq<Info>, c: seq<Info>)
    ensures (a + b) + c == a + (b + c)
  {
  }

  lemma BelowUnfolds(ms: seq<Menu>)
    requires ms != []
    ensures var below := PropagateBelow(PropagateRow(Inherited(ms[0].info), ms[0].kids));
            Infos(PropagateBelow(ms)) == [ms[0].info] + (Infos(below) + Infos(PropagateBelow(ms[1..])))
    ensures ms[0].kids == [] ==> Infos(PropagateBelow(ms)) == [ms[0].info] + Infos(PropagateBelow(ms[1..]))
  {
    var below := PropagateBelow(PropagateRow(Inherited(ms[0].info), ms[0].kids));
    InfosCons(Menu(ms[0].info, below), PropagateBelow(ms[1..]));
    var rest := Infos(PropagateBelow(ms[1..]));
    assert ms[0].kids == [] ==> Infos(below) == [] && [] + rest == rest;
  }

  /** Every entry has what was handed down to it, wherever it ends up. */
  lemma {:induction false} FinalizeHandsDown(ms: seq<Menu>)
    requires ms != []
    ensures Infos([Finalize(ms)[0]]) + Infos(PropagateBelow(Finalize(ms)[1..])) == Infos(PropagateBelow(ms))
    decreases Count(ms), 1
  {
    hide FinalizeEach, Absorb, Hoist, PropagateRow, PropagateBelow, Infos, Inherited;
    var m, f := ms[0], Finalize(ms);
    BelowUnfolds(ms);
    if m.kids != [] {
      var kids := PropagateRow(Inherited(m.info), m.kids);
      FinalizeEachHandsDown(kids);
      HoistKeepsInfos(FinalizeEach(kids));
      assert f[1..] == ms[1..];
      InfosCons(f[0], []);
      InfosAssociate([m.info], Infos(PropagateBelow(kids)), Infos(PropagateBelow(ms[1..])));
    } else if m.info.sym.Some? {
      var p := Absorb(m.info.sym.value, BaseDep(m.info), ms[1..]);
      AbsorbHandsDown(m.info.sym.value, BaseDep(m.info), ms[1..]);
      HoistKeepsInfos(p.0);
      assert f[1..] == p.1;
      InfosCons(f[0], []);
      InfosAssociate([m.info], Infos(p.0), Infos(PropagateBelow(p.1)));
    } else {
      InfosCons(m, []);
      NoInfos();
      assert [m.info] + [] == [m.info];
    }
  }

  lemma NoInfos()
    ensures Infos([]) == [] && PropagateBelow([]) == []
  {
  }

  lemma {:induction false} FinalizeEachHandsDown(ms: seq<Menu>)
    ensures Infos(FinalizeEach(ms)) == Infos(PropagateBelow(ms))
    decreases Count(ms), 2
  {
    hide Finalize, PropagateBelow, Infos;
    NoInfos();
    if ms != [] {
      var f := Finalize(ms);
      FinalizeHandsDown(ms);
      FinalizeEachHandsDown(f[1..]);
      InfosCons(f[0], FinalizeEach(f[1..]));
    }
  }

  lemma {:induction false} AbsorbHandsDown(s: Symbol, base: Option<Expr>, ms: seq<Menu>)
    ensures var p := Absorb(s, base, ms); Infos(p.0) + Infos(PropagateBelow(p.1)) == Infos(PropagateBelow(ms))
    decreases Count(ms), 2
  {
    hide Finalize, PropagateBelow, Infos;
    NoInfos();
    if ms == [] || !BelongsUnder(s, base, Condition(ms[0].info)) {
      assert [] + Infos(PropagateBelow(ms)) == Infos(PropagateBelow(ms));
    } else {
      var f := Finalize(ms);
      var p := Absorb(s, base, f[1..]);
      FinalizeHandsDown(ms);
      AbsorbHandsDown(s, base, f[1..]);
      InfosCons(f[0], p.0);
      InfosAssociate(Infos([f[0]]), Infos(p.0), Infos(PropagateBelow(p.1)));
    }
  }

  /** What a parent hands down: the value of the choice, or of the condition of its prompt, or
      of its own dependency. */
  function ParentValue(p: Info, env: Env): Tri {
    if p.choice && p.sym.Some? then SymTri(env, p.sym.value)
    else if p.prompt.Some? then EvalOpt(p.prompt.value.visible, env)
    else EvalOpt(p.dep, env)
  }

  /** Whether an entry is shown: by the condition of its prompt, if it has one. */
  predicate Shown(i: Info, env: Env) {
    if i.prompt.Some? then EvalOpt(i.prompt.value.visible, env) != NO else EvalOpt(i.dep, env) != NO
  }

  function Least(a: Tri, b: Tri): Tri { if a <= b then a else b }

  /** `f` is the entry `i` with the conditions it has below a parent `p`: it is shown exactly
      when what the parent hands down and its own conditions are met; its dependency, and the
      condition of a tristate's prompt, keep their values. */
  ghost predicate HandedDown(p: Info, i: Info, f: Info, env: Env) {
    && f.id == i.id && f.sym == i.sym && f.choice == i.choice && f.prompt.Some? == i.prompt.Some?
    && (i.prompt.Some? ==> f.prompt.value.text == i.prompt.value.text)
    && EvalOpt(f.dep, env) == Least(ParentValue(p, env), EvalOpt(i.dep, env))
    && (i.prompt.Some? && (i.sym.None? || TypeOf(i.sym.value).Tristate?) ==>
          EvalOpt(f.prompt.value.visible, env) == Least(EvalOpt(f.dep, env), EvalOpt(i.prompt.value.visible, env)))
    && (Shown(f, env) <==>
          && ParentValue(p, env) != NO && EvalOpt(i.dep, env) != NO
          && (i.prompt.Some? ==> EvalOpt(i.prompt.value.visible, env) != NO))
  }

  /** The final entries `fs`, in preorder, of what is declared below `p`. */
  ghost predicate Inherits(p: Info, ms: seq<Menu>, fs: seq<Info>, env: Env)
    decreases Count(ms)
  {
    |fs| == Count(ms) &&
    (ms != [] ==>
       var n := Count(ms[0].kids);
       && HandedDown(p, ms[0].info, fs[0], env)
       && Inherits(fs[0], ms[0].kids, fs[1..1 + n], env) && Inherits(p, ms[1..], fs[1 + n..], env))
  }

  /** A condition as it is declared: it can be compared. */
  ghost predicate Comparable(e: Option<Expr>) { e.Some? ==> Orderable(e.value, false) }

  ghost predicate Declared(ms: seq<Menu>)
    decreases Count(ms)
  {
    ms != [] ==>
      && Comparable(ms[0].info.dep) && (ms[0].info.prompt.Some? ==> Comparable(ms[0].info.prompt.value.visible))
      && Declared(ms[0].kids) && Declared(ms[1..])
  }

  /** Conditions in the form they are stored in. */
  ghost predicate Simple(i: Info) {
    && (i.dep.Some? ==> NegatesSymbols(i.dep.value))
    && (i.prompt.Some? && i.prompt.value.visible.Some? ==> NegatesSymbols(i.prompt.value.visible.value))
  }

  lemma PropagateHandsDown(p: Info, i: Info, env: Env)
    requires WellTyped(env) && Simple(p)
    requires Comparable(i.dep) && (i.prompt.Some? ==> Comparable(i.prompt.value.visible))
    ensures HandedDown(p, i, Propagate(Inherited(p), i), env) && Simple(Propagate(Inherited(p), i))
  {
    hide PropagatedDep, WellTyped, NegatesSymbols, Orderable;
    var base := Inherited(p);
    BaseIsSimple(p, env);
    PropagatedDepSound(base, i.dep, false, env);
    if i.prompt.Some? {
      var asBool := i.sym.Some? && !TypeOf(i.sym.value).Tristate?;
      PropagatedDepSound(PropagatedDep(base, i.dep, false), i.prompt.value.visible, asBool, env);
    }
  }

  lemma BaseIsSimple(p: Info, env: Env)
    requires Simple(p)
    ensures EvalOpt(Inherited(p), env) == ParentValue(p, env)
    ensures Inherited(p).Some? ==> NegatesSymbols(Inherited(p).value)
  {
  }

  lemma {:induction false} BelowInherits(p: Info, ms: seq<Menu>, env: Env)
    requires WellTyped(env) && Simple(p) && Declared(ms)
    ensures Inherits(p, ms, Infos(PropagateBelow(PropagateRow(Inherited(p), ms))), env)
    decreases Count(ms)
  {
    hide HandedDown, Propagate, Inherited, WellTyped, Simple, Comparable, PropagateRow, PropagateBelow, Infos;
    if ms != [] {
      var m, base := ms[0], Inherited(p);
      var f := Propagate(base, m.info);
      PropagateHandsDown(p, m.info, env);
      BelowInherits(f, m.kids, env);
      BelowInherits(p, ms[1..], env);
      var row := PropagateRow(base, ms);
      RowUnfolds(base, ms);
      BelowUnfolds(row);
      var kids := Infos(PropagateBelow(PropagateRow(Inherited(f), m.kids)));
      var rest := Infos(PropagateBelow(PropagateRow(base, ms[1..])));
      Slices(f, kids, rest);
    }
  }

  lemma RowUnfolds(base: Option<Expr>, ms: seq<Menu>)
    requires ms != []
    ensures var row := PropagateRow(base, ms);
            row[0] == Menu(Propagate(base, ms[0].info), ms[0].kids) && row[1..] == PropagateRow(base, ms[1..])
  {
  }

  lemma Slices(f: Info, kids: seq<Info>, rest: seq<Info>)
    ensures var fs := [f] + (kids + rest);
            fs[0] == f && fs[1..1 + |kids|] == kids && fs[1 + |kids|..] == rest
  {
  }

  /** After menu_finalize every entry declared below the first one, at any depth, is shown
      exactly when what its declared parent hands down and its own conditions are met. */
  lemma FinalizeInherits(ms: seq<Menu>, env: Env)
    requires WellTyped(env) && ms != [] && ms[0].kids != [] && Simple(ms[0].info) && Declared(ms[0].kids)
    ensures Inherits(ms[0].info, ms[0].kids, Infos(Finalize(ms)[0].kids), env)
  {
    hide FinalizeEach, Hoist, PropagateRow, PropagateBelow, Infos, Inherited, WellTyped, Simple;
    var kids := PropagateRow(Inherited(ms[0].info), ms[0].kids);
    FinalizeEachHandsDown(kids);
    HoistKeepsInfos(FinalizeEach(kids));
    BelowInherits(ms[0].info, ms[0].kids, env);
  }

  /** Only entries with a caption have children. */
  ghost predicate Tidy(ms: seq<Menu>) {
    forall i :: 0 <= i < |ms| ==>
      && (ms[i].kids != [] ==> ms[i].info.prompt.Some? && ms[i].info.prompt.value.text) && Tidy(ms[i].kids)
  }

  /** `Tidy` below the row. */
  ghost predicate TidyBelow(ms: seq<Menu>) {
    forall i :: 0 <= i < |ms| ==> Tidy(ms[i].kids)
  }

  lemma {:induction false} HoistTidies(ms: seq<Menu>)
    requires TidyBelow(ms)
    ensures Tidy(Hoist(ms))
    decreases Count(ms)
  {
    if ms != [] {
      if ms[0].kids != [] && !Captioned(ms[0].info) {
        CountConcat(ms[0].kids, ms[1..]);
        assert TidyBelow(ms[0].kids + ms[1..]);
        HoistTidies(ms[0].kids + ms[1..]);
      } else {
        HoistTidies(ms[1..]);
      }
    }
  }

  /** Once finalized, no entry without a caption has children, anywhere below the entry. */
  lemma {:induction false} FinalizeTidies(ms: seq<Menu>)
    requires ms != []
    ensures Tidy(Finalize(ms)[0].kids)
    decreases Count(ms), 1
  {
    hide FinalizeEach, Absorb, Hoist, PropagateRow;
    var m := ms[0];
    if m.kids != [] {
      var kids := PropagateRow(Inherited(m.info), m.kids);
      FinalizeEachTidies(kids);
      HoistTidies(FinalizeEach(kids));
    } else if m.info.sym.Some? {
      var p := Absorb(m.info.sym.value, BaseDep(m.info), ms[1..]);
      AbsorbTidies(m.info.sym.value, BaseDep(m.info), ms[1..]);
      HoistTidies(p.0);
    }
  }

  lemma {:induction false} FinalizeEachTidies(ms: seq<Menu>)
    ensures TidyBelow(FinalizeEach(ms))
    decreases Count(ms), 2
  {
    hide Finalize;
    if ms != [] {
      FinalizeTidies(ms);
      FinalizeEachTidies(Finalize(ms)[1..]);
    }
  }

  lemma {:induction false} AbsorbTidies(s: Symbol, base: Option<Expr>, ms: seq<Menu>)
    ensures TidyBelow(Absorb(s, base, ms).0)
    decreases Count(ms), 2
  {
    hide Finalize;
    if ms != [] && BelongsUnder(s, base, Condition(ms[0].info)) {
      FinalizeTidies(ms);
      AbsorbTidies(s, base, Finalize(ms)[1..]);
    }
  }

  /** Siblings are taken in up to the first one that does not belong, and no further. */
  lemma {:induction false} AbsorbTakesWhatBelongs(s: Symbol, base: Option<Expr>, ms: seq<Menu>)
    ensures var r := Absorb(s, base, ms);
            && (forall i :: 0 <= i < |r.0| ==> BelongsUnder(s, base, Condition(r.0[i].info)))
            && (r.1 != [] ==> !BelongsUnder(s, base, Condition(r.1[0].info)))
    decreases Count(ms)
  {
    hide BelongsUnder;
    if ms != [] && BelongsUnder(s, base, Condition(ms[0].info)) {
      AbsorbTakesWhatBelongs(s, base, Finalize(ms)[1..]);
    }
  }

  /** The first sibling that is left does not belong, and the entry takes in something exactly
      when the next one belongs.  What belongs is asked of the condition of an entry's prompt,
      if it has one, and else of its dependency; the base is the condition of the prompt. */
  lemma FinalizeTakesWhatBelongs(ms: seq<Menu>)
    requires ms != [] && ms[0].kids == [] && ms[0].info.sym.Some?
    ensures var (s, r, p) := (ms[0].info.sym.value, Finalize(ms), ms[0].info.prompt);
            var base := if p.Some? then p.value.visible else None;
            && (|r| > 1 ==> var i := r[1].info;
                            !BelongsUnder(s, base, if i.prompt.Some? then i.prompt.value.visible else i.dep))
            && (|ms| > 1 ==> var i := ms[1].info;
                             (r[0].kids != [] <==>
                                BelongsUnder(s, base, if i.prompt.Some? then i.prompt.value.visible else i.dep)))
  {
    hide BelongsUnder, Finalize, Hoist, Absorb;
    var s, base := ms[0].info.sym.value, BaseDep(ms[0].info);
    FinalizeLeaf(ms);
    HoistNothing(Absorb(s, base, ms[1..]).0);
    AbsorbNext(s, base, ms[1..]);
    AbsorbTakesWhatBelongs(s, base, ms[1..]);
  }

  lemma FinalizeLeaf(ms: seq<Menu>)
    requires ms != [] && ms[0].kids == [] && ms[0].info.sym.Some?
    ensures var p := Absorb(ms[0].info.sym.value, BaseDep(ms[0].info), ms[1..]);
            Finalize(ms) == [Menu(ms[0].info, Hoist(p.0))] + p.1
  {
  }

  lemma HoistNothing(ms: seq<Menu>)
    ensures Hoist(ms) == [] <==> ms == []
  {
  }

  lemma AbsorbNext(s: Symbol, base: Option<Expr>, ms: seq<Menu>)
    ensures Absorb(s, base, ms).0 != [] <==> ms != [] && BelongsUnder(s, base, Condition(ms[0].info))
  {
    hide BelongsUnder;
  }

  // ------------------------------------------------- what stays below what

  /** Of every entry, in preorder: the entries below it, if it has a prompt with a text, and
      whether it has a symbol. */
  function Below(ms: seq<Menu>): seq<(seq<nat>, bool)> {
    if ms == [] then []
    else [(if ms[0].info.prompt.Some? && ms[0].info.prompt.value.text then Ids(ms[0].kids) else [],
           ms[0].info.sym.Some?)]
         + (Below(ms[0].kids) + Below(ms[1..]))
  }

  /** The same entries lie below an entry as before, except that one with a symbol and
      nothing below may have got some. */
  ghost predicate Keeps(a: seq<(seq<nat>, bool)>, b: seq<(seq<nat>, bool)>) {
    |a| == |b| && forall i :: 0 <= i < |a| ==> a[i].1 == b[i].1 && (a[i].0 == b[i].0 || (a[i].0 == [] && a[i].1))
  }

  lemma {:induction false} BelowConcat(a: seq<Menu>, b: seq<Menu>)
    ensures Below(a + b) == Below(a) + Below(b)
  {
    if a == [] {
      assert a + b == b;
    } else {
      assert (a + b)[1..] == a[1..] + b;
      BelowConcat(a[1..], b);
    }
  }

  lemma BelowCons(m: Menu, ms: seq<Menu>)
    ensures Below([m] + ms)
         == [(if Captioned(m.info) then Ids(m.kids) else [], m.info.sym.Some?)] + (Below(m.kids) + Below(ms))
    ensures Below([]) == [] && Ids([]) == []
  {
    assert ([m] + ms)[1..] == ms;
  }

  lemma KeepsConcat(a: seq<(seq<nat>, bool)>, a': seq<(seq<nat>, bool)>,
                    b: seq<(seq<nat>, bool)>, b': seq<(seq<nat>, bool)>)
    requires Keeps(a, a') && Keeps(b, b')
    ensures Keeps(a + b, a' + b')
  {
  }

  lemma KeepsTwice(a: seq<(seq<nat>, bool)>, b: seq<(seq<nat>, bool)>, c: seq<(seq<nat>, bool)>)
    requires Keeps(a, b) && Keeps(b, c)
    ensures Keeps(a, c)
  {
  }

  lemma {:induction false} PropagateKeepsBelow(base: Option<Expr>, ms: seq<Menu>)
    ensures Below(PropagateRow(base, ms)) == Below(ms)
  {
    if ms != [] {
      PropagateKeepsBelow(base, ms[1..]);
      BelowCons(ms[0].(info := Propagate(base, ms[0].info)), PropagateRow(base, ms[1..]));
      BelowCons(ms[0], ms[1..]);
    }
  }

  lemma {:induction false} HoistKeepsBelow(ms: seq<Menu>)
    ensures Below(Hoist(ms)) == Below(ms)
    decreases Count(ms)
  {
    if ms != [] {
      BelowCons(ms[0], ms[1..]);
      if ms[0].kids != [] && !Captioned(ms[0].info) {
        CountConcat(ms[0].kids, ms[1..]);
        HoistKeepsBelow(ms[0].kids + ms[1..]);
        BelowConcat(ms[0].kids, ms[1..]);
        BelowCons(Menu(ms[0].info, []), Hoist(ms[0].kids + ms[1..]));
        assert [] + Below(ms[0].kids + ms[1..]) == Below(ms[0].kids + ms[1..]);
      } else {
        HoistKeepsBelow(ms[1..]);
        BelowCons(ms[0], Hoist(ms[1..]));
      }
    }
  }

  /** An entry with a caption keeps exactly the entries declared below it, at whatever depth;
      only an entry that has a symbol and nothing below it gets some. */
  lemma {:induction false} FinalizeKeepsBelow(ms: seq<Menu>)
    requires ms != []
    ensures Keeps(Below(ms), Below(Finalize(ms)))
    decreases Count(ms), 1
  {
    hide FinalizeEach, Absorb, Hoist, PropagateRow, Below, Ids, Captioned;
    KeepsItself(Below(ms));
    var m := ms[0];
    assert [m] + ms[1..] == ms;
    BelowCons(m, ms[1..]);
    if m.kids != [] {
      var kids := PropagateRow(Inherited(m.info), m.kids);
      PropagateKeepsBelow(Inherited(m.info), m.kids);
      PropagateKeepsOrder(Inherited(m.info), m.kids);
      FinalizeEachKeepsBelow(kids);
      FinalizeEachKeepsOrder(kids);
      HoistKeepsBelow(FinalizeEach(kids));
      HoistKeepsOrder(FinalizeEach(kids));
      BelowCons(Menu(m.info, Hoist(FinalizeEach(kids))), ms[1..]);
      KeepsItself(Below(ms[1..]));
      KeepsConcat(Below(m.kids), Below(Hoist(FinalizeEach(kids))), Below(ms[1..]), Below(ms[1..]));
      var head := (if Captioned(m.info) then Ids(m.kids) else [], m.info.sym.Some?);
      KeepsItself([head]);
      KeepsConcat([head], [head], Below(m.kids) + Below(ms[1..]), Below(Hoist(FinalizeEach(kids))) + Below(ms[1..]));
    } else if m.info.sym.Some? {
      var p := Absorb(m.info.sym.value, BaseDep(m.info), ms[1..]);
      AbsorbKeepsBelow(m.info.sym.value, BaseDep(m.info), ms[1..]);
      HoistKeepsBelow(p.0);
      BelowCons(Menu(m.info, Hoist(p.0)), p.1);
      assert [] + Below(ms[1..]) == Below(ms[1..]);
      var taken := if Captioned(m.info) then Ids(Hoist(p.0)) else [];
      NothingBelow();
      KeepsConcat([([], true)], [(taken, true)], Below(ms[1..]), Below(p.0) + Below(p.1));
    }
  }

  lemma {:induction false} FinalizeEachKeepsBelow(ms: seq<Menu>)
    ensures Keeps(Below(ms), Below(FinalizeEach(ms)))
    decreases Count(ms), 2
  {
    hide Finalize, Below, Ids, Captioned, Keeps;
    if ms == [] {
      KeepsNothing();
    } else {
      var f := Finalize(ms);
      FinalizeKeepsBelow(ms);
      FinalizeEachKeepsBelow(f[1..]);
      assert f == [f[0]] + f[1..];
      BelowConcat([f[0]], f[1..]);
      BelowConcat([f[0]], FinalizeEach(f[1..]));
      KeepsItself(Below([f[0]]));
      KeepsConcat(Below([f[0]]), Below([f[0]]), Below(f[1..]), Below(FinalizeEach(f[1..])));
      KeepsTwice(Below(ms), Below(f), Below(FinalizeEach(ms)));
    }
  }

  lemma NothingBelow()
    ensures Ids([]) == [] && Below([]) == []
  {
  }

  lemma KeepsNothing()
    ensures Below([]) == [] && Keeps([], [])
  {
  }

  lemma KeepsItself(a: seq<(seq<nat>, bool)>)
    ensures Keeps(a, a)
  {
  }

  lemma {:induction false} AbsorbKeepsBelow(s: Symbol, base: Option<Expr>, ms: seq<Menu>)
    ensures Keeps(Below(ms), Below(Absorb(s, base, ms).0) + Below(Absorb(s, base, ms).1))
    decreases Count(ms), 2
  {
    hide Finalize, Below, Ids, Captioned, Keeps, BelongsUnder;
    if ms == [] || !BelongsUnder(s, base, Condition(ms[0].info)) {
      KeepsNothing();
      KeepsItself(Below(ms));
      assert [] + Below(ms) == Below(ms);
    } else {
      var f := Finalize(ms);
      var p := Absorb(s, base, f[1..]);
      FinalizeKeepsBelow(ms);
      AbsorbKeepsBelow(s, base, f[1..]);
      assert f == [f[0]] + f[1..];
      BelowConcat([f[0]], f[1..]);
      BelowConcat([f[0]], p.0);
      KeepsItself(Below([f[0]]));
      KeepsConcat(Below([f[0]]), Below([f[0]]), Below(f[1..]), Below(p.0) + Below(p.1));
      BelowAssociate(Below([f[0]]), Below(p.0), Below(p.1));
      KeepsTwice(Below(ms), Below(f), Below([f[0]]) + (Below(p.0) + Below(p.1)));
    }
  }

  lemma BelowAssociate(a: seq<(seq<nat>, bool)>, b: seq<(seq<nat>, bool)>, c: seq<(seq<nat>, bool)>)
    ensures (a + b) + c == a + (b + c)
  {
  }
}
