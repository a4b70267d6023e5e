/** Choices (openwrt/scripts/config/symbol.c:209-325, 327-437, 499-532): a choice symbol
    that evaluates to y picks exactly one of its visible members. */
module KChoice {
  import opened KExpr
  import opened KSymbol

  // ------------------------------------------------------------ the meaning

  /** A default of the choice: a condition and the member it names. */
  datatype Preferred = Preferred(cond: Option<Expr>, member: nat)

  /** The other symbols' values, and the value `t` of the choice itself. */
  function WithChoice(env: Env, choice: Symbol, t: Tri): Env {
    var tri: Symbol -> Tri := (s: Symbol) => var r: Tri := if s == choice then t else env.tri(s); r;
    env.(tri := tri, text := (s: Symbol) => if s == choice then TriText(t) else env.text(s))
  }

  /** The prompts' conditions joined; `drop` turns m into n one prompt at a time. */
  function MemberPrompts(ps: seq<Option<Expr>>, env: Env, drop: bool): Tri {
    if ps == [] then NO
    else
      var last := EvalOpt(ps[|ps| - 1], env);
      TriOr(MemberPrompts(ps[..|ps| - 1], env, drop), if drop && last == MOD then NO else last)
  }

  /** sym_calc_visibility of a member, when the choice has value `t`. */
  function MemberVisible(d: Decl, env: Env, t: Tri, modules: bool): Tri {
    Promote(MemberPrompts(d.prompts, env, d.kind.Tristate? && t == YES), !d.kind.Tristate? || !modules)
  }

  function MembersVisible(ds: seq<Decl>, env: Env, t: Tri, modules: bool): (vis: seq<Tri>)
    ensures |vis| == |ds|
  {
    seq(|ds|, i requires 0 <= i < |ds| => MemberVisible(ds[i], env, t, modules))
  }

  /** Under a choice that is y no boolean or tristate member is visible as m. */
  lemma MemberVisibleCrisp(d: Decl, env: Env, modules: bool)
    ensures MemberVisible(d, env, YES, modules) != MOD
  {
    if d.kind.Tristate? { DroppedPromptsCrisp(d.prompts, env); }
  }

  lemma {:induction false} DroppedPromptsCrisp(ps: seq<Option<Expr>>, env: Env)
    ensures MemberPrompts(ps, env, true) != MOD
  {
    if ps != [] { DroppedPromptsCrisp(ps[..|ps| - 1], env); }
  }

  function FirstVisible(vis: seq<Tri>, i: nat): Option<nat>
    decreases |vis| - i
  {
    if i >= |vis| then None else if vis[i] != NO then Some(i) else FirstVisible(vis, i + 1)
  }

  function FirstPreferred(ps: seq<Preferred>, env: Env, vis: seq<Tri>, i: nat): Option<nat>
    requires forall k :: 0 <= k < |ps| ==> ps[k].member < |vis|
    decreases |ps| - i
  {
    if i >= |ps| then None
    else if EvalOpt(ps[i].cond, env) != NO && vis[ps[i].member] != NO then Some(ps[i].member)
    else FirstPreferred(ps, env, vis, i + 1)
  }

  /** The member a choice picks: the user's, or the first visible default, or the first
      visible member. */
  function Pick(user: Option<nat>, ps: seq<Preferred>, env: Env, vis: seq<Tri>): Option<nat>
    requires forall k :: 0 <= k < |ps| ==> ps[k].member < |vis|
    requires user.Some? ==> user.value < |vis|
  {
    if user.Some? && vis[user.value] != NO then user
    else
      var p := FirstPreferred(ps, env, vis, 0);
      if p.Some? then p else FirstVisible(vis, 0)
  }

  lemma {:induction false} FirstVisibleSound(vis: seq<Tri>, i: nat)
    ensures var r := FirstVisible(vis, i);
            if r.Some? then r.value < |vis| && vis[r.value] != NO else forall k :: i <= k < |vis| ==> vis[k] == NO
    decreases |vis| - i
  {
    if i < |vis| { FirstVisibleSound(vis, i + 1); }
  }

  lemma {:induction false} FirstPreferredSound(ps: seq<Preferred>, env: Env, vis: seq<Tri>, i: nat)
    requires forall k :: 0 <= k < |ps| ==> ps[k].member < |vis|
    ensures var r := FirstPreferred(ps, env, vis, i); r.Some? ==> r.value < |vis| && vis[r.value] != NO
    decreases |ps| - i
  {
    if i < |ps| { FirstPreferredSound(ps, env, vis, i + 1); }
  }

  /** Something visible is picked exactly when something is visible. */
  lemma PickSound(user: Option<nat>, ps: seq<Preferred>, env: Env, vis: seq<Tri>)
    requires forall k :: 0 <= k < |ps| ==> ps[k].member < |vis|
    requires user.Some? ==> user.value < |vis|
    ensures var r := Pick(user, ps, env, vis);
            if r.Some? then r.value < |vis| && vis[r.value] != NO else forall k :: 0 <= k < |vis| ==> vis[k] == NO
  {
    FirstVisibleSound(vis, 0);
    FirstPreferredSound(ps, env, vis, 0);
  }

  /** The pick, by the order of the members and of the choice's defaults. */
  ghost predicate PicksInOrder(user: Option<nat>, ps: seq<Preferred>, env: Env, vis: seq<Tri>, r: Option<nat>) {
    && (user.Some? && user.value < |vis| && vis[user.value] != NO ==> r == user)
    && (!(user.Some? && user.value < |vis| && vis[user.value] != NO) ==>
          && (forall k :: 0 <= k < |ps| && ps[k].member < |vis|
                          && EvalOpt(ps[k].cond, env) != NO && vis[ps[k].member] != NO
                          && (forall j :: 0 <= j < k ==>
                                EvalOpt(ps[j].cond, env) == NO || ps[j].member >= |vis| || vis[ps[j].member] == NO) ==>
                            r == Some(ps[k].member))
          && ((forall k :: 0 <= k < |ps| ==>
                 EvalOpt(ps[k].cond, env) == NO || ps[k].member >= |vis| || vis[ps[k].member] == NO) ==>
                && (forall i :: 0 <= i < |vis| && vis[i] != NO && (forall j :: 0 <= j < i ==> vis[j] == NO) ==>
                                  r == Some(i))
                && ((forall i :: 0 <= i < |vis| ==> vis[i] == NO) ==> r == None)))
  }

  lemma {:induction false} FirstVisibleIs(vis: seq<Tri>, i: nat, k: nat)
    requires i <= k <= |vis| && (forall j :: i <= j < k ==> vis[j] == NO) && (k < |vis| ==> vis[k] != NO)
    ensures FirstVisible(vis, i) == if k < |vis| then Some(k) else None
    decreases k - i
  {
    if i < k { FirstVisibleIs(vis, i + 1, k); }
  }

  lemma {:induction false} FirstPreferredIs(ps: seq<Preferred>, env: Env, vis: seq<Tri>, i: nat, k: nat)
    requires forall j :: 0 <= j < |ps| ==> ps[j].member < |vis|
    requires i <= k <= |ps|
    requires forall j :: i <= j < k ==> EvalOpt(ps[j].cond, env) == NO || vis[ps[j].member] == NO
    requires k < |ps| ==> EvalOpt(ps[k].cond, env) != NO && vis[ps[k].member] != NO
    ensures FirstPreferred(ps, env, vis, i) == if k < |ps| then Some(ps[k].member) else None
    decreases k - i
  {
    if i < k { FirstPreferredIs(ps, env, vis, i + 1, k); }
  }

  /** A visible member that the user chose is picked; or else the member of the first default
      whose condition is met and whose member is visible; or else the first visible member. */
  lemma PickExactly(user: Option<nat>, ps: seq<Preferred>, env: Env, vis: seq<Tri>)
    requires forall k :: 0 <= k < |ps| ==> ps[k].member < |vis|
    requires user.Some? ==> user.value < |vis|
    ensures PicksInOrder(user, ps, env, vis, Pick(user, ps, env, vis))
  {
    hide FirstPreferred, FirstVisible;
    forall k | 0 <= k < |ps| && EvalOpt(ps[k].cond, env) != NO && vis[ps[k].member] != NO
               && (forall j :: 0 <= j < k ==> EvalOpt(ps[j].cond, env) == NO || vis[ps[j].member] == NO)
      ensures FirstPreferred(ps, env, vis, 0) == Some(ps[k].member)
    {
      FirstPreferredIs(ps, env, vis, 0, k);
    }
    if forall k :: 0 <= k < |ps| ==> EvalOpt(ps[k].cond, env) == NO || vis[ps[k].member] == NO {
      FirstPreferredIs(ps, env, vis, 0, |ps|);
    }
    forall i | 0 <= i < |vis| && vis[i] != NO && (forall j :: 0 <= j < i ==> vis[j] == NO)
      ensures FirstVisible(vis, 0) == Some(i)
    {
      FirstVisibleIs(vis, 0, i);
    }
    if forall i :: 0 <= i < |vis| ==> vis[i] == NO { FirstVisibleIs(vis, 0, |vis|); }
  }

  /** Inside, the choice has the value it is calculated with, and nothing else changes. */
  lemma InsideExactly(env: Env, choice: Symbol, t: Tri, s: Symbol)
    requires s.Config?
    ensures SymTri(WithChoice(env, choice, t), s) == if s == choice then t else SymTri(env, s)
    ensures SymText(WithChoice(env, choice, t), s) ==
              if s != choice then SymText(env, s) else if t == NO then "n" else if t == MOD then "m" else "y"
  {
    assert WithChoice(env, choice, t).text(s) == if s == choice then TriText(t) else env.text(s);
  }

  /** A member is visible when some prompt's condition is met; but under a choice that is y a
      tristate member only when one is y. */
  lemma {:induction false} MemberPromptsExactly(ps: seq<Option<Expr>>, env: Env, drop: bool)
    ensures MemberPrompts(ps, env, drop) == YES <==> exists i :: 0 <= i < |ps| && EvalOpt(ps[i], env) == YES
    ensures MemberPrompts(ps, env, drop) != NO <==>
              || (exists i :: 0 <= i < |ps| && EvalOpt(ps[i], env) == YES)
              || (!drop && exists i :: 0 <= i < |ps| && EvalOpt(ps[i], env) == MOD)
  {
    if ps != [] {
      var init, last := ps[..|ps| - 1], ps[|ps| - 1];
      MemberPromptsExactly(init, env, drop);
      assert ps == init + [last];
      SomePrompt(init, last, env, YES);
      SomePrompt(init, last, env, MOD);
    }
  }

  lemma SomePrompt(init: seq<Option<Expr>>, last: Option<Expr>, env: Env, t: Tri)
    ensures var ps := init + [last];
            (exists i :: 0 <= i < |ps| && EvalOpt(ps[i], env) == t) <==>
            (exists i :: 0 <= i < |init| && EvalOpt(init[i], env) == t) || EvalOpt(last, env) == t
  {
    hide EvalOpt;
    var ps := init + [last];
    if i :| 0 <= i < |ps| && EvalOpt(ps[i], env) == t {
      if i < |init| { assert EvalOpt(init[i], env) == t; }
    }
    if i :| 0 <= i < |init| && EvalOpt(init[i], env) == t { assert EvalOpt(ps[i], env) == t; }
    if EvalOpt(last, env) == t { assert EvalOpt(ps[|init|], env) == t; }
  }

  lemma MemberVisibleExactly(d: Decl, env: Env, t: Tri, modules: bool)
    ensures var v := MemberVisible(d, env, t, modules);
            && (v != NO <==>
                  || (exists i :: 0 <= i < |d.prompts| && EvalOpt(d.prompts[i], env) == YES)
                  || (!(d.kind.Tristate? && t == YES)
                      && exists i :: 0 <= i < |d.prompts| && EvalOpt(d.prompts[i], env) == MOD))
            && (v == YES <==>
                  || (exists i :: 0 <= i < |d.prompts| && EvalOpt(d.prompts[i], env) == YES)
                  || (v != NO && !(d.kind.Tristate? && modules)))
  {
    MemberPromptsExactly(d.prompts, env, d.kind.Tristate? && t == YES);
  }

  /** A member that is visible as y is y exactly when picked; one that is not takes its own
      value, with no select and no dependency ever computed for it. */
  function MemberValue(d: Decl, u: User, env: Env, visible: Tri, picked: bool, modules: bool): Tri {
    if visible == YES then TriOf(picked)
    else
      var own := if visible != NO && u.has then TriAnd(u.tri, visible) else DefaultTri(d, env);
      Promote(own, EffType(modules, d.kind).Boolean?)
  }

  /** The value in full.  `k` is the first default whose condition is met, if there is one. */
  lemma MemberValueExactly(d: Decl, u: User, env: Env, visible: Tri, picked: bool, modules: bool, k: nat)
    requires IsTri(d.kind) && k <= |d.defaults|
    requires forall j :: 0 <= j < k ==> EvalOpt(d.defaults[j].cond, env) == NO
    requires k < |d.defaults| ==> EvalOpt(d.defaults[k].cond, env) != NO
    ensures var own: int :=
              if visible != NO && u.has then (if u.tri <= visible then u.tri else visible)
              else if k == |d.defaults| then 0
              else
                var cond, what := EvalOpt(d.defaults[k].cond, env), Eval(d.defaults[k].what, env);
                if what <= cond then what else cond;
            MemberValue(d, u, env, visible, picked, modules) ==
              if visible == YES then (if picked then 2 else 0)
              else if own == 1 && !(d.kind.Tristate? && modules) then 2
              else own
  {
    FirstMetIs(d.defaults, env, k);
  }

  // ----------------------------------------------------------- the evaluator

  /** A choice symbol, its members, and the values `env` of everything outside. */
  class Choice {
    const sym: Symbol
    const decl: Decl
    const preferred: seq<Preferred>
    const decls: seq<Decl>
    const env: Env
    const modules: bool
    const choice: SymState
    const members: seq<SymState>
    /** curr.val and def[S_DEF_USER].val of a choice symbol point to a member. */
    var picked: Option<nat>
    var userPick: Option<nat>

    constructor (sym: Symbol, decl: Decl, preferred: seq<Preferred>, decls: seq<Decl>, env: Env, modules: bool,
                 choice: SymState, members: seq<SymState>)
      requires IsTri(decl.kind) && |members| == |decls| && choice !in members
      requires forall i, j :: 0 <= i < j < |members| ==> members[i] != members[j]
      requires forall i :: 0 <= i < |members| ==>
        IsTri(decls[i].kind) && members[i].revTri == NO && members[i].dirTri == NO
      requires forall k :: 0 <= k < |preferred| ==> preferred[k].member < |members|
      ensures Valid() && userPick.None?
    {
      this.sym, this.decl, this.preferred, this.decls := sym, decl, preferred, decls;
      this.env, this.modules, this.choice, this.members := env, modules, choice, members;
      picked, userPick := None, None;
    }

    ghost predicate Valid()
      reads this, choice, members
    {
      && IsTri(decl.kind) && |members| == |decls| && choice !in members
      && (forall i, j :: 0 <= i < j < |members| ==> members[i] != members[j])
      && (forall i :: 0 <= i < |members| ==>
            IsTri(decls[i].kind) && members[i].revTri == NO && members[i].dirTri == NO)
      && (forall k :: 0 <= k < |preferred| ==> preferred[k].member < |members|)
      && (userPick.Some? ==> userPick.value < |members|)
    }

    /** The choice's own value, when it has a user's value or not: the defaults of a choice
        name members, so they give it no value. */
    function OwnTri(has: bool): Tri
      reads choice
    {
      TriValue(decl.(defaults := []), choice.user.(has := has), env, modules)
    }

    /** That value in full: the user's, if a prompt's condition is met, but not above it; raised
        to what selects the choice, or n when that is against its dependencies; and y for m
        where m is no value. */
    lemma OwnTriExactly(has: bool)
      requires IsTri(decl.kind)
      ensures var crisp := !(decl.kind.Tristate? && modules);
              var prompted := exists i :: 0 <= i < |decl.prompts| && EvalOpt(decl.prompts[i], env) != NO;
              var fully := prompted && (crisp || exists i :: 0 <= i < |decl.prompts| &&
                                                             EvalOpt(decl.prompts[i], env) == YES);
              var select := if decl.revDep.Some? then Eval(decl.revDep.value, env) else NO;
              var user := if !has || !prompted then NO
                          else if choice.user.tri == YES && !fully then MOD else choice.user.tri;
              var value := if user <= select then select else user;
              OwnTri(has) == if select != NO && EvalOpt(decl.dirDep, env) == NO then NO
                             else if value == MOD && crisp then YES else value
    {
      PromptOrExactly(decl.prompts, env);
    }

    function Inside(t: Tri): Env { WithChoice(env, sym, t) }

    function Visibilities(t: Tri): (vis: seq<Tri>)
      ensures |vis| == |decls|
    {
      MembersVisible(decls, Inside(t), t, modules)
    }

    /** The member picked if the choice is y. */
    function WouldPick(): Option<nat>
      requires Valid()
      reads this, choice, members
    {
      Pick(userPick, preferred, Inside(YES), Visibilities(YES))
    }

    /** The choice holds the value it evaluated to: y only with a member to pick. */
    ghost predicate Settled(has: bool)
      requires Valid()
      reads this, choice, members
    {
      && choice.curr.tri == (if OwnTri(has) == YES && WouldPick().None? then NO else OwnTri(has))
      && picked == (if OwnTri(has) == YES then WouldPick() else None)
    }

    /** The member holds the value it evaluates to. */
    ghost predicate MemberSettled(i: nat)
      requires i < |members| && i < |decls|
      reads this, choice, members[i]
    {
      var t := choice.curr.tri;
      && members[i].visible == MemberVisible(decls[i], Inside(t), t, modules)
      && members[i].curr.tri
         == MemberValue(decls[i], members[i].user, Inside(t), members[i].visible, picked == Some(i), modules)
    }

    /** What is flagged valid is settled.  Calculating the choice may have dropped its user
        flag, so its value may stem from a flag it no longer has. */
    ghost predicate Ready()
      reads this, choice, members
    {
      && Valid()
      && (choice.valid ==> exists has :: (choice.user.has ==> has) && Settled(has))
      && (forall i :: 0 <= i < |members| && members[i].valid ==> choice.valid && MemberSettled(i))
    }

    /** Exactly one visible member is y. */
    ghost predicate Exclusive(k: nat)
      reads members
    {
      && k < |members| && members[k].visible != NO
      && forall i :: 0 <= i < |members| && members[i].visible != NO ==> (members[i].curr.tri == YES <==> i == k)
    }

    /** sym_calc_visibility of a member */
    method CalcMemberVisibility(i: nat)
      requires Valid() && i < |members|
      modifies members[i]
      ensures Valid() && members[i].curr == old(members[i].curr) && members[i].user == old(members[i].user)
      ensures members[i].valid == old(members[i].valid)
      ensures members[i].visible == MemberVisible(decls[i], Inside(choice.curr.tri), choice.curr.tri, modules)
    {
      var d, inside, tri := decls[i], Inside(choice.curr.tri), NO;
      for k := 0 to |d.prompts|
        invariant tri == MemberPrompts(d.prompts[..k], inside, d.kind.Tristate? && choice.curr.tri == YES)
      {
        var t := EvalOpt(d.prompts[k], inside);
        if d.kind.Tristate? && t == MOD && choice.curr.tri == YES { t := NO; }
        tri := TriOr(tri, t);
        assert d.prompts[..k + 1][..k] == d.prompts[..k];
      }
      assert d.prompts[..|d.prompts|] == d.prompts;
      if tri == MOD && (!d.kind.Tristate? || !modules) { tri := YES; }
      if members[i].visible != tri { members[i].visible := tri; }
    }

    /** sym_choice_default */
    method ChoiceDefault(ghost vis: seq<Tri>) returns (r: Option<nat>)
      requires Valid() && choice.curr.tri == YES && |vis| == |members|
      requires forall i :: 0 <= i < |members| ==> members[i].visible == vis[i]
      ensures r == Pick(None, preferred, Inside(YES), vis)
    {
      for k := 0 to |preferred|
        invariant FirstPreferred(preferred, Inside(YES), vis, 0) == FirstPreferred(preferred, Inside(YES), vis, k)
      {
        if EvalOpt(preferred[k].cond, Inside(YES)) == NO { continue; }
        if members[preferred[k].member].visible != NO { return Some(preferred[k].member); }
      }
      for k := 0 to |members|
        invariant FirstVisible(vis, 0) == FirstVisible(vis, k)
      {
        if members[k].visible != NO { return Some(k); }
      }
      r := None;
    }

    /** The first loop of sym_calc_choice: `flag` if no visible member lacks a user's value. */
    method CalcMembers() returns (flag: bool)
      requires Valid() && choice.curr.tri == YES
      modifies members
      ensures Valid()
      ensures forall i :: 0 <= i < |members| ==>
        && members[i].user == old(members[i].user) && members[i].valid == old(members[i].valid)
        && members[i].visible == Visibilities(YES)[i]
      ensures flag <==> forall i :: 0 <= i < |members| ==> Visibilities(YES)[i] != NO ==> members[i].user.has
    {
      hide MemberVisible;
      flag := true;
      ghost var vis := Visibilities(YES);
      for i := 0 to |members|
        invariant Valid() && choice.curr.tri == YES
        invariant forall j :: 0 <= j < |members| ==>
          members[j].user == old(members[j].user) && members[j].valid == old(members[j].valid)
        invariant forall j :: 0 <= j < i ==> members[j].visible == vis[j]
        invariant flag <==> forall j :: 0 <= j < i ==> vis[j] != NO ==> members[j].user.has
      {
        CalcMemberVisibility(i);
        if members[i].visible != NO { flag := flag && members[i].user.has; }
      }
    }

    /** sym_calc_choice, in terms of `WouldPick` */
    method CalcPick() returns (r: Option<nat>)
      requires Valid() && choice.curr.tri == YES
      modifies members, choice
      ensures Valid() && r == WouldPick()
      ensures choice.curr == old(choice.curr).(tri := if r.None? then NO else YES)
      ensures choice.valid == old(choice.valid) && choice.visible == old(choice.visible)
      ensures choice.user == old(choice.user).(has := choice.user.has)
      ensures choice.user.has <==>
        old(choice.user.has) &&
        forall i :: 0 <= i < |members| ==> Visibilities(YES)[i] != NO ==> members[i].user.has
      ensures forall i :: 0 <= i < |members| ==>
        && members[i].user == old(members[i].user) && members[i].valid == old(members[i].valid)
        && members[i].visible == Visibilities(YES)[i]
    {
      hide MemberVisible, FirstVisible, FirstPreferred;
      var flag := CalcMembers();
      choice.user := choice.user.(has := choice.user.has && flag);
      if userPick.Some? && members[userPick.value].visible != NO { return userPick; }
      r := ChoiceDefault(Visibilities(YES));
      if r.None? { choice.curr := choice.curr.(tri := NO); }
    }

    /** sym_calc_choice: the choice keeps its user flag only while every visible member
        has one. */
    method CalcChoice() returns (r: Option<nat>)
      requires Valid() && choice.curr.tri == YES
      modifies members, choice
      ensures Valid() && r == WouldPick()
      ensures PicksInOrder(userPick, preferred, Inside(YES), Visibilities(YES), r)
      ensures choice.curr == old(choice.curr).(tri := if r.None? then NO else YES)
      ensures choice.valid == old(choice.valid) && choice.visible == old(choice.visible)
      ensures choice.user == old(choice.user).(has := choice.user.has)
      ensures choice.user.has <==>
        old(choice.user.has) &&
        forall i :: 0 <= i < |members| ==> Visibilities(YES)[i] != NO ==> members[i].user.has
      ensures forall i :: 0 <= i < |members| ==>
        && members[i].user == old(members[i].user) && members[i].valid == old(members[i].valid)
        && members[i].visible == Visibilities(YES)[i]
    {
      hide MemberVisible, PicksInOrder;
      r := CalcPick();
      PickExactly(userPick, preferred, Inside(YES), Visibilities(YES));
    }

    /** sym_calc_value of the choice */
    method CalcValue()
      requires Ready()
      modifies this`picked, choice, members
      ensures Ready() && choice.valid
      ensures old(choice.valid) ==> unchanged(choice) && unchanged(members) && unchanged(this)
      ensures !old(choice.valid) ==> Settled(old(choice.user.has))
      ensures choice.user == old(choice.user).(has := choice.user.has)
      ensures forall i :: 0 <= i < |members| ==>
        members[i].user == old(members[i].user) && members[i].valid == old(members[i].valid)
    {
      hide Pick, TriValue, VisibleOf, DirOf, RevOf, MemberVisible, MemberValue, MembersVisible;
      if choice.valid { return; }
      ghost var has := choice.user.has;
      var tri := OwnTri(choice.user.has);
      choice.valid := true;
      choice.visible, choice.dirTri, choice.revTri :=
        VisibleOf(decl, env, modules), DirOf(decl, env), RevOf(decl, env, modules);
      choice.curr := SymVal("n", tri);
      picked := None;
      if tri == YES {
        picked := CalcChoice();
        assert choice.user.(has := has) == old(choice.user);
      }
      assert Settled(has);
    }

    /** The boolean and tristate branch of sym_calc_value, for a member */
    method MemberTri(i: nat) returns (tri: Tri)
      requires Valid() && i < |members|
      ensures tri == MemberValue(decls[i], members[i].user, Inside(choice.curr.tri), members[i].visible,
                                 picked == Some(i), modules)
    {
      var m, d := members[i], decls[i];
      tri := NO;
      if m.visible == YES {
        tri := TriOf(picked == Some(i));
      } else {
        if m.visible != NO && m.user.has {
          tri := TriAnd(m.user.tri, m.visible);
        } else {
          tri := DefaultTri(d, Inside(choice.curr.tri));
        }
        // rev_dep.tri of a member stays n: nothing calculates it
        tri := TriOr(tri, m.revTri);
        if tri == MOD && EffType(modules, d.kind).Boolean? { tri := YES; }
      }
    }

    /** sym_calc_value of a member that is not valid, when the choice is */
    method CalcSettled(i: nat)
      requires Ready() && i < |members| && choice.valid && !members[i].valid
      modifies members[i]
      ensures Ready() && members[i].valid && members[i].user == old(members[i].user)
    {
      hide Pick, TriValue, MemberVisible, MemberValue, MembersVisible;
      ghost var has :| (choice.user.has ==> has) && Settled(has);
      members[i].valid := true;
      CalcMemberVisibility(i);
      var tri := MemberTri(i);
      members[i].curr := SymVal("n", tri);
      assert Settled(has) && MemberSettled(i);
    }

    /** sym_calc_value of a member, whose prompts refer to the choice */
    method CalcMember(i: nat)
      requires Ready() && i < |members|
      modifies this`picked, choice, members
      ensures Ready() && choice.valid && members[i].valid
      ensures forall j :: 0 <= j < |members| ==>
        members[j].user == old(members[j].user) && (old(members[j].valid) ==> members[j].valid)
      ensures old(choice.valid) ==> unchanged(choice) && unchanged(this)
      ensures !old(choice.valid) ==> Settled(old(choice.user.has))
    {
      hide Pick, TriValue, MemberVisible, MembersVisible, MemberValue;
      if members[i].valid { return; }
      CalcValue();
      CalcSettled(i);
    }

    /** Whatever was cached and in whatever order members are asked for: when a choice is y,
        exactly one visible member is, the picked one. */
    method CalcMembersIn(order: seq<nat>)
      requires Ready() && forall i :: 0 <= i < |members| ==> i in order
      requires forall k :: 0 <= k < |order| ==> order[k] < |members|
      modifies this`picked, choice, members
      ensures Ready()
      ensures forall i :: 0 <= i < |members| ==> members[i].valid
      ensures choice.curr.tri == YES ==> picked.Some? && Exclusive(picked.value)
      ensures old(choice.valid) ==> unchanged(choice) && unchanged(this)
    {
      hide WouldPick, OwnTri, MemberVisible, MembersVisible, DefaultTri, Settled, MemberSettled;
      CalcValue();
      for n := 0 to |order|
        invariant Ready() && choice.valid
        invariant forall k :: 0 <= k < n ==> members[order[k]].valid
        invariant old(choice.valid) ==> unchanged(choice) && unchanged(this)
      {
        CalcMember(order[n]);
      }
      forall i | 0 <= i < |members|
        ensures members[i].valid
      {
        assert i in order;
      }
      if choice.curr.tri == YES { ReadyIsExclusive(); }
    }

    lemma ReadyIsExclusive()
      requires Ready() && choice.valid && choice.curr.tri == YES
      requires forall i :: 0 <= i < |members| ==> members[i].valid
      ensures picked.Some? && Exclusive(picked.value)
    {
      hide OwnTri, MemberVisible;
      PickSound(userPick, preferred, Inside(YES), Visibilities(YES));
      forall i | 0 <= i < |members|
        ensures members[i].visible == Visibilities(YES)[i] && members[i].visible != MOD
      {
        assert MemberSettled(i);
        MemberVisibleCrisp(decls[i], Inside(YES), modules);
      }
    }

    /** A user's flag does not take y away from a choice that would be y without it. */
    lemma FlagKeepsYes(has: bool)
      requires Valid() && OwnTri(has) == YES && (choice.user.has ==> has)
      ensures OwnTri(true) == YES
    {
    }

    /** sym_clear_all_valid */
    method ClearAllValid()
      requires Valid()
      modifies choice, members
      ensures Ready() && !choice.valid
      ensures choice.user == old(choice.user) && choice.curr == old(choice.curr)
      ensures forall j :: 0 <= j < |members| ==>
        members[j].visible == old(members[j].visible) && members[j].user == old(members[j].user)
    {
      hide Settled, MemberSettled;
      choice.valid := false;
      for j := 0 to |members|
        invariant Valid() && !choice.valid && choice.user == old(choice.user) && choice.curr == old(choice.curr)
        invariant forall k :: 0 <= k < |members| ==>
          members[k].visible == old(members[k].visible) && members[k].user == old(members[k].user)
        invariant forall k :: 0 <= k < j ==> !members[k].valid
      {
        members[j].valid := false;
      }
    }

    /** Picking a member counts as an answer for the choice and for every visible member, not
        just for the one picked. */
    method MarkVisible(i: nat)
      requires Valid() && i < |members|
      modifies this`userPick, choice, members
      ensures Valid() && userPick == Some(i)
      ensures choice.valid == old(choice.valid) && choice.curr == old(choice.curr)
      ensures choice.user == old(choice.user).(has := true)
      ensures forall j :: 0 <= j < |members| ==>
        && members[j].visible == old(members[j].visible) && members[j].valid == old(members[j].valid)
        && members[j].curr == old(members[j].curr)
        && members[j].user == old(members[j].user).(has := old(members[j].user.has) || members[j].visible != NO)
    {
      userPick := Some(i);
      choice.user := choice.user.(has := true);
      for j := 0 to |members|
        invariant Valid() && choice.valid == old(choice.valid) && choice.curr == old(choice.curr)
        invariant userPick == Some(i)
        invariant choice.user == old(choice.user).(has := true)
        invariant forall k :: 0 <= k < |members| ==>
          && members[k].visible == old(members[k].visible) && members[k].valid == old(members[k].valid)
          && members[k].curr == old(members[k].curr)
          && members[k].user == old(members[k].user).(has :=
               old(members[k].user.has) || (k < j && members[k].visible != NO))
      {
        if members[j].visible != NO { members[j].user := members[j].user.(has := true); }
      }
    }

    /** Setting the member that is picked already leaves everything cached right. */
    twostate lemma SameMember(new i: nat, new has: bool)
      requires old(Ready()) && Valid() && i < |members| && old(choice.valid) && old(Settled(has))
      requires old(picked) == picked == userPick == Some(i) && choice.user == old(choice.user).(has := true)
      requires choice.valid && choice.curr == old(choice.curr) && choice.curr.tri == YES && OwnTri(true) == YES
      requires Visibilities(YES)[i] == YES
      requires forall j :: 0 <= j < |members| ==>
        && members[j].visible == old(members[j].visible) && members[j].valid == old(members[j].valid)
        && members[j].curr == old(members[j].curr)
      ensures Ready()
    {
      hide TriValue, MemberVisible, FirstPreferred, FirstVisible;
      assert choice.user.(has := true) == choice.user;
      assert Settled(true);
      forall j | 0 <= j < |members| && members[j].valid
        ensures MemberSettled(j)
      {
        assert old(MemberSettled(j));
        MemberVisibleCrisp(decls[j], Inside(YES), modules);
      }
    }

    /** sym_set_tristate_value of a visible member to y, in a choice that is y: what stays
        cached stays right. */
    method SetMember(i: nat)
      requires Ready() && i < |members| && choice.valid && choice.curr.tri == YES
      requires members[i].valid && members[i].visible == YES
      modifies this`userPick, choice, members
      ensures Ready() && userPick == Some(i) && choice.user == old(choice.user).(has := true)
      ensures OwnTri(true) == YES && Visibilities(YES)[i] == YES
      ensures forall j :: 0 <= j < |members| ==>
        && members[j].visible == old(members[j].visible)
        && members[j].user.has == (old(members[j].user.has) || members[j].visible != NO)
        && members[j].user.tri == if j == i then YES else old(members[j].user.tri)
    {
      hide TriValue, MemberVisible, Pick;
      ghost var has :| (choice.user.has ==> has) && Settled(has);
      FlagKeepsYes(has);
      var oldval := members[i].curr.tri;
      MarkVisible(i);
      members[i].user := members[i].user.(tri := YES);
      if oldval != YES { ClearAllValid(); } else { SameMember(i, has); }
    }

    /** After a visible member is set to y, recalculation makes it the one visible member
        that is y. */
    method PickMember(i: nat, order: seq<nat>)
      requires Ready() && i < |members| && choice.valid && choice.curr.tri == YES
      requires members[i].valid && members[i].visible == YES
      requires forall j :: 0 <= j < |members| ==> j in order
      requires forall k :: 0 <= k < |order| ==> order[k] < |members|
      modifies this, choice, members
      ensures Ready() && choice.curr.tri == YES && picked == Some(i) && Exclusive(i)
    {
      hide TriValue, MemberVisible, FirstPreferred, FirstVisible, MemberSettled, Exclusive;
      SetMember(i);
      ghost var was := choice.user;
      assert was.(has := true) == was;
      CalcValue();
      CalcMembersIn(order);
    }
  }
}
