/** The recursive dependency check (openwrt/scripts/config/symbol.c:1057-1079, 1160-1227,
    1266-1298) over symbols outside choices. */
module KCheck {
  import opened KExpr
  import KSymbol

  // ------------------------------------------------------ what is followed

  datatype PropKind = Prompt | DefaultProp | RangeProp | Select

  /** struct property: its condition and its expression */
  datatype Prop = Prop(kind: PropKind, visible: Option<Expr>, expr: Option<Expr>)

  datatype Entry = Entry(revDep: Option<Expr>, props: seq<Prop>)

  function SymRef(s: Symbol): set<nat> { if s.Config? then {s.id} else {} }

  /** The symbols an expression mentions. */
  function Refs(e: Expr): set<nat> {
    match e
    case Sym(s) => SymRef(s)
    case Not(a) => Refs(a)
    case Bin(_, l, r) => Refs(l) + Refs(r)
    case Comp(_, l, r) => SymRef(l) + SymRef(r)
  }

  function OptRefs(e: Option<Expr>): set<nat> { if e.Some? then Refs(e.value) else {} }

  /** Conditions are followed, except of selects; expressions only of defaults. */
  function PropRefs(p: Prop): set<nat> {
    (if p.kind.Select? then {} else OptRefs(p.visible)) + (if p.kind.DefaultProp? then OptRefs(p.expr) else {})
  }

  function PropsRefs(ps: seq<Prop>): set<nat> {
    if ps == [] then {} else PropsRefs(ps[..|ps| - 1]) + PropRefs(ps[|ps| - 1])
  }

  function Edges(es: seq<Entry>, id: nat): set<nat>
    requires id < |es|
  {
    OptRefs(es[id].revDep) + PropsRefs(es[id].props)
  }

  ghost predicate Closed(es: seq<Entry>) {
    forall id, v :: 0 <= id < |es| && v in Edges(es, id) ==> v < |es|
  }

  ghost predicate Path(es: seq<Entry>, p: seq<nat>) {
    && (forall k :: 0 <= k < |p| ==> p[k] < |es|)
    && (forall k :: 0 <= k < |p| - 1 ==> p[k + 1] in Edges(es, p[k]))
  }

  /** Some dependencies lead from `s` back to `s`. */
  ghost predicate OnCycle(es: seq<Entry>, s: nat) {
    exists p :: |p| >= 2 && p[0] == s && p[|p| - 1] == s && Path(es, p)
  }

  ghost predicate AllBelow(rank: seq<nat>, bound: nat, vs: set<nat>) {
    forall v {:trigger v in vs} :: v in vs ==> v < |rank| && rank[v] < bound
  }

  ghost predicate Ranked(es: seq<Entry>, rank: seq<nat>) {
    |rank| == |es| && forall id :: 0 <= id < |es| ==> AllBelow(rank, rank[id], Edges(es, id))
  }

  /** Every followed edge goes from a symbol to one finished before it. */
  ghost predicate Ordered(es: seq<Entry>, done: seq<nat>) {
    && (forall k :: 0 <= k < |done| ==> done[k] < |es|)
    && (forall k, v :: 0 <= k < |done| && v in Edges(es, done[k]) ==> v in done[..k])
  }

  // -------------------------------------------------------- acyclic or not

  lemma {:induction false} RankFalls(es: seq<Entry>, rank: seq<nat>, p: seq<nat>)
    requires Ranked(es, rank) && Path(es, p) && |p| >= 2
    ensures rank[p[|p| - 1]] < rank[p[0]]
  {
    var q := p[..|p| - 1];
    assert p[|q|] in Edges(es, p[|q| - 1]);
    if |q| >= 2 {
      assert Path(es, q) by {
        forall k | 0 <= k < |q| - 1
          ensures q[k + 1] in Edges(es, q[k])
        {
          assert p[k + 1] in Edges(es, p[k]);
        }
      }
      RankFalls(es, rank, q);
    }
  }

  lemma CycleHasNoRank(es: seq<Entry>, rank: seq<nat>, s: nat)
    requires OnCycle(es, s)
    ensures !Ranked(es, rank)
  {
    if Ranked(es, rank) {
      var p :| |p| >= 2 && p[0] == s && p[|p| - 1] == s && Path(es, p);
      RankFalls(es, rank, p);
    }
  }

  function Position(done: seq<nat>, id: nat): nat {
    if done == [] || done[0] == id then 0 else 1 + Position(done[1..], id)
  }

  lemma {:induction false} PositionFound(done: seq<nat>, id: nat)
    requires id in done
    ensures Position(done, id) < |done| && done[Position(done, id)] == id
    ensures id !in done[..Position(done, id)]
  {
    if done[0] != id {
      PositionFound(done[1..], id);
      var k := Position(done[1..], id);
      assert done[..k + 1] == [done[0]] + done[1..][..k];
    }
  }

  lemma {:induction false} PositionEarly(done: seq<nat>, id: nat, k: nat)
    requires k <= |done| && id in done[..k]
    ensures Position(done, id) < k
  {
    assert done[..k] != [];
    if done[0] != id {
      assert done[..k] == [done[0]] + done[1..][..k - 1];
      PositionEarly(done[1..], id, k - 1);
    }
  }

  /** The order in which symbols are finished ranks them. */
  function RankOf(es: seq<Entry>, done: seq<nat>): (rank: seq<nat>)
    ensures |rank| == |es|
  {
    seq(|es|, (id: nat) => Position(done, id))
  }

  lemma OrderedRanks(es: seq<Entry>, done: seq<nat>)
    requires Ordered(es, done) && Closed(es) && forall id: nat :: id < |es| ==> id in done
    ensures Ranked(es, RankOf(es, done))
  {
    var rank := RankOf(es, done);
    forall id | 0 <= id < |es|
      ensures AllBelow(rank, rank[id], Edges(es, id))
    {
      PositionFound(done, id);
      forall v | v in Edges(es, id)
        ensures v < |rank| && rank[v] < rank[id]
      {
        PositionEarly(done, v, Position(done, id));
      }
    }
  }

  lemma PathPrefix(es: seq<Entry>, p: seq<nat>, last: nat)
    requires Path(es, p + [last])
    ensures Path(es, p)
  {
    var q := p + [last];
    assert forall k :: 0 <= k < |p| ==> p[k] == q[k];
  }

  lemma OrderedExtends(es: seq<Entry>, done: seq<nat>, id: nat)
    requires Ordered(es, done) && id < |es| && forall v :: v in Edges(es, id) ==> v in done
    ensures Ordered(es, done + [id])
  {
    var more := done + [id];
    forall k, v | 0 <= k < |more| && v in Edges(es, more[k])
      ensures v in more[..k]
    {
      assert more[..k] == done[..k];
    }
  }

  lemma {:induction false} PropInProps(ps: seq<Prop>, p: Prop)
    requires p in ps
    ensures PropRefs(p) <= PropsRefs(ps)
  {
    if p != ps[|ps| - 1] {
      assert ps == ps[..|ps| - 1] + [ps[|ps| - 1]];
      PropInProps(ps[..|ps| - 1], p);
    }
  }

  // ------------------------------------------------------------- the search

  /** Flags SYMBOL_CHECK and SYMBOL_CHECKED of every symbol, the stack of symbols being
      checked, and the symbols whose recursion was reported. */
  class Checker {
    const entries: seq<Entry>
    const check: array<bool>
    const checked: array<bool>
    var stack: seq<nat>
    var reports: seq<nat>
    ghost var done: seq<nat>

    constructor (entries: seq<Entry>)
      requires Closed(entries)
      ensures this.entries == entries && Inv([]) && stack == [] && reports == [] && done == []
      ensures fresh(check) && fresh(checked)
    {
      this.entries := entries;
      check := new bool[|entries|](i => false);
      checked := new bool[|entries|](i => false);
      stack, reports, done := [], [], [];
    }

    /** SYMBOL_CHECK marks exactly the symbols `st` being checked, a chain of dependencies;
        SYMBOL_CHECKED marks those and the finished ones; what was reported is on a cycle;
        while nothing is reported, finished symbols depend on earlier finished ones. */
    ghost predicate Inv(st: seq<nat>)
      reads this, check, checked
    {
      && Closed(entries) && check.Length == checked.Length == |entries| && check != checked
      && (forall i :: 0 <= i < |entries| ==> (check[i] <==> i in st))
      && (forall i :: 0 <= i < |entries| ==> (checked[i] <==> i in st || i in done))
      && Path(entries, st)
      && (forall r :: r in reports ==> OnCycle(entries, r))
      && (forall k :: 0 <= k < |done| ==> done[k] < |entries|)
      && (reports == [] ==> Ordered(entries, done))
    }

    /** sym_check_deps: flags and stack are as before, unless the symbol is finished or its
        recursion was reported; the symbol returned is still being checked. */
    method CheckDeps(sym: nat) returns (r: Option<nat>)
      requires Inv(stack) && sym < |entries| && (stack != [] ==> sym in Edges(entries, stack[|stack| - 1]))
      modifies this`stack, this`reports, this`done, check, checked
      ensures Inv(stack)
      ensures stack == old(stack) && old(done) <= done && old(reports) <= reports
      ensures forall i :: 0 <= i < checked.Length && old(checked[i]) ==> checked[i]
      ensures r.Some? ==> r.value in stack && reports != []
      ensures checked[sym] && (reports == [] ==> sym in done)
      decreases KSymbol.Left(checked[..]), 0
    {
      if check[sym] {
        hide OnCycle, Ordered, Edges;
        SymbolOnCycle(sym);
        reports := reports + [sym];
        return Some(sym);
      }
      if checked[sym] { return None; }
      hide Inv;
      Enter(sym);
      r := CheckSymDeps(sym);
      Leave(sym);
      if r == Some(sym) { r := None; }
    }

    /** Sets SYMBOL_CHECK and SYMBOL_CHECKED. */
    method Enter(sym: nat)
      requires Inv(stack) && sym < |entries| && (stack != [] ==> sym in Edges(entries, stack[|stack| - 1]))
      requires !checked[sym]
      modifies check, checked
      ensures Inv(stack + [sym]) && sym !in stack && check.Length == checked.Length == |entries|
      ensures forall i :: 0 <= i < checked.Length ==> checked[i] == (old(checked[i]) || i == sym)
      ensures KSymbol.Left(checked[..]) < KSymbol.Left(old(checked[..]))
    {
      hide OnCycle, Ordered, Edges;
      check[sym], checked[sym] := true, true;
      KSymbol.LeftFalls(old(checked[..]), checked[..]);
      assert checked[..][sym] && !old(checked[..])[sym];
    }

    /** Clears SYMBOL_CHECK, whether or not the symbol's check was cut short. */
    method Leave(sym: nat)
      requires sym < |entries| && Inv(stack + [sym]) && sym !in stack && checked[sym]
      requires reports == [] ==> forall v :: v in Edges(entries, sym) ==> v in done
      modifies check, this`done
      ensures Inv(stack) && done == old(done) + [sym]
    {
      hide OnCycle, Edges, Path, Ordered;
      check[sym] := false;
      if reports == [] { OrderedExtends(entries, done, sym); }
      PathPrefix(entries, stack, sym);
      done := done + [sym];
    }

    /** A symbol met while it is being checked depends on itself. */
    lemma SymbolOnCycle(sym: nat)
      requires Inv(stack) && sym in stack && sym in Edges(entries, stack[|stack| - 1])
      ensures OnCycle(entries, sym)
    {
      var k :| 0 <= k < |stack| && stack[k] == sym;
      var p := stack[k..] + [sym];
      forall n | 0 <= n < |p| - 1
        ensures p[n + 1] in Edges(entries, p[n])
      {
        if n < |p| - 2 { assert stack[k + n + 1] in Edges(entries, stack[k + n]); }
      }
      assert |p| >= 2 && p[0] == sym && p[|p| - 1] == sym && Path(entries, p);
    }

    lemma TopInRange()
      requires Inv(stack) && stack != []
      ensures var top := stack[|stack| - 1];
              top < |entries| && forall v :: v in Edges(entries, top) ==> v < |entries|
    {
    }

    /** sym_check_deps of a symbol of an expression; a constant has no dependencies */
    method CheckRef(s: Symbol) returns (r: Option<nat>)
      requires Inv(stack) && stack != [] && SymRef(s) <= Edges(entries, stack[|stack| - 1])
      modifies this`stack, this`reports, this`done, check, checked
      ensures Inv(stack)
      ensures stack == old(stack) && old(done) <= done && old(reports) <= reports
      ensures forall i :: 0 <= i < checked.Length && old(checked[i]) ==> checked[i]
      ensures r.Some? ==> r.value in stack && reports != []
      ensures reports == [] ==> forall v :: v in SymRef(s) ==> v in done
      decreases KSymbol.Left(checked[..]), 1
    {
      TopInRange();
      hide Ordered, OnCycle, Path, Closed, Edges;
      r := None;
      if s.Config? { r := CheckDeps(s.id); }
    }

    /** sym_check_expr_deps */
    method CheckExpr(e: Expr) returns (r: Option<nat>)
      requires Inv(stack) && stack != [] && Refs(e) <= Edges(entries, stack[|stack| - 1])
      modifies this`stack, this`reports, this`done, check, checked
      ensures Inv(stack)
      ensures stack == old(stack) && old(done) <= done && old(reports) <= reports
      ensures forall i :: 0 <= i < checked.Length && old(checked[i]) ==> checked[i]
      ensures r.Some? ==> r.value in stack && reports != []
      ensures reports == [] ==> forall v :: v in Refs(e) ==> v in done
      decreases KSymbol.Left(checked[..]), 2, e
    {
      hide Ordered, OnCycle, Path, Closed, Edges, SymRef;
      r := None;
      if e.Sym? {
        r := CheckRef(e.sym);
      } else if e.Not? {
        r := CheckExpr(e.arg);
      } else if e.Bin? {
        r := CheckExpr(e.left);
        if r.Some? { return; }
        KSymbol.LeftFalls(old(checked[..]), checked[..]);
        r := CheckExpr(e.right);
      } else {
        r := CheckRef(e.lhs);
        if r.Some? { return; }
        KSymbol.LeftFalls(old(checked[..]), checked[..]);
        r := CheckRef(e.rhs);
      }
    }

    method CheckOpt(e: Option<Expr>) returns (r: Option<nat>)
      requires Inv(stack) && stack != [] && OptRefs(e) <= Edges(entries, stack[|stack| - 1])
      modifies this`stack, this`reports, this`done, check, checked
      ensures Inv(stack)
      ensures stack == old(stack) && old(done) <= done && old(reports) <= reports
      ensures forall i :: 0 <= i < checked.Length && old(checked[i]) ==> checked[i]
      ensures r.Some? ==> r.value in stack && reports != []
      ensures reports == [] ==> forall v :: v in OptRefs(e) ==> v in done
      decreases KSymbol.Left(checked[..]), 3
    {
      TopInRange();
      hide Ordered, OnCycle, Path, Closed, Edges;
      if e.None? { return None; }
      r := CheckExpr(e.value);
    }

    /** One property in the loop of sym_check_sym_deps */
    method CheckProp(p: Prop) returns (r: Option<nat>)
      requires Inv(stack) && stack != [] && PropRefs(p) <= Edges(entries, stack[|stack| - 1])
      modifies this`stack, this`reports, this`done, check, checked
      ensures Inv(stack)
      ensures stack == old(stack) && old(done) <= done && old(reports) <= reports
      ensures forall i :: 0 <= i < checked.Length && old(checked[i]) ==> checked[i]
      ensures r.Some? ==> r.value in stack && reports != []
      ensures reports == [] ==> forall v :: v in PropRefs(p) ==> v in done
      decreases KSymbol.Left(checked[..]), 4
    {
      TopInRange();
      hide Ordered, OnCycle, Path, Closed, Edges, OptRefs;
      if p.kind.Select? { return None; }
      r := CheckOpt(p.visible);
      if r.Some? || !p.kind.DefaultProp? { return; }
      KSymbol.LeftFalls(old(checked[..]), checked[..]);
      r := CheckOpt(p.expr);
    }

    /** The loop of sym_check_sym_deps over the properties */
    method CheckProps(sym: nat) returns (r: Option<nat>)
      requires Inv(stack) && stack != [] && sym == stack[|stack| - 1]
      modifies this`stack, this`reports, this`done, check, checked
      ensures Inv(stack)
      ensures stack == old(stack) && old(done) <= done && old(reports) <= reports
      ensures forall i :: 0 <= i < checked.Length && old(checked[i]) ==> checked[i]
      ensures r.Some? ==> r.value in stack && reports != []
      ensures reports == [] ==> forall v :: v in PropsRefs(entries[sym].props) ==> v in done
      decreases KSymbol.Left(checked[..]), 5
    {
      TopInRange();
      var ps := entries[sym].props;
      hide Ordered, OnCycle, Path, Closed, PropRefs;
      r := None;
      for i := 0 to |ps|
        invariant Inv(stack) && r.None?
        invariant stack == old(stack) && old(done) <= done && old(reports) <= reports
        invariant forall i :: 0 <= i < checked.Length && old(checked[i]) ==> checked[i]
        invariant reports == [] ==> forall v :: v in PropsRefs(ps[..i]) ==> v in done
      {
        PropInProps(ps, ps[i]);
        assert ps[..i + 1][..i] == ps[..i];
        KSymbol.LeftFalls(old(checked[..]), checked[..]);
        r := CheckProp(ps[i]);
        if r.Some? { return; }
      }
      assert ps[..|ps|] == ps;
    }

    /** sym_check_sym_deps */
    method CheckSymDeps(sym: nat) returns (r: Option<nat>)
      requires sym < |entries| && Inv(stack + [sym])
      modifies this`stack, this`reports, this`done, check, checked
      ensures Inv(stack + [sym])
      ensures stack == old(stack) && old(done) <= done && old(reports) <= reports
      ensures forall i :: 0 <= i < checked.Length && old(checked[i]) ==> checked[i]
      ensures r.Some? ==> r.value in stack + [sym] && reports != []
      ensures reports == [] ==> forall v :: v in Edges(entries, sym) ==> v in done
      decreases KSymbol.Left(checked[..]), 6
    {
      stack := stack + [sym];
      r := CheckOpt(entries[sym].revDep);
      if r.None? {
        KSymbol.LeftFalls(old(checked[..]), checked[..]);
        r := CheckProps(sym);
      }
      stack := stack[..|stack| - 1];
      assert stack + [sym] == old(stack) + [sym];
    }

    /** sym_check_deps for every symbol: every flag SYMBOL_CHECK is clear and the stack empty
        at the end; nothing is reported if and only if no symbol depends on itself, and what
        is reported does. */
    method CheckAll()
      requires Inv([]) && stack == [] && reports == []
      modifies this`stack, this`reports, this`done, check, checked
      ensures stack == [] && forall i :: 0 <= i < |entries| ==> !check[i] && checked[i]
      ensures forall s :: s in reports ==> OnCycle(entries, s)
      ensures reports == [] <==> exists rank :: Ranked(entries, rank)
    {
      for i := 0 to |entries|
        invariant Inv([]) && stack == []
        invariant forall k :: 0 <= k < i ==> checked[k]
      {
        var r := CheckDeps(i);
        assert r.None?;
      }
      if reports == [] {
        OrderedRanks(entries, done);
      } else {
        forall rank
          ensures !Ranked(entries, rank)
        {
          CycleHasNoRank(entries, rank, reports[0]);
        }
      }
    }
  }

  // --------------------------------------------- a graph without cycles

  /** Repeated elements: more numbers below n than n. */
  lemma {:induction false} Pigeonhole(p: seq<nat>, n: nat) returns (i: nat, j: nat)
    requires |p| > n && forall k :: 0 <= k < |p| ==> p[k] < n
    ensures i < j < |p| && p[i] == p[j]
  {
    if forall i, j :: 0 <= i < j < |p| ==> p[i] != p[j] {
      DistinctSize(p);
      var all := UpTo(n);
      assert Elems(p) <= all;
      SubsetSize(Elems(p), all);
      assert false;
    }
    i, j :| 0 <= i < j < |p| && p[i] == p[j];
  }

  function Elems(p: seq<nat>): set<nat> { set x | x in p }

  lemma {:induction false} DistinctSize(p: seq<nat>)
    requires forall i, j :: 0 <= i < j < |p| ==> p[i] != p[j]
    ensures |Elems(p)| == |p|
  {
    if p == [] {
      assert Elems(p) == {};
    } else {
      var q, last := p[..|p| - 1], p[|p| - 1];
      DistinctSize(q);
      assert p == q + [last];
      assert Elems(p) == Elems(q) + {last};
    }
  }

  function UpTo(n: nat): (r: set<nat>)
    ensures |r| == n && forall x: nat :: x in r <==> x < n
  {
    if n == 0 then {} else UpTo(n - 1) + {n - 1}
  }

  lemma SubsetSize(a: set<nat>, b: set<nat>)
    requires a <= b
    ensures |a| <= |b|
  {
    assert b == a + (b - a);
  }

  /** Every symbol not done depends on one that is not done. */
  ghost predicate Stuck(es: seq<Entry>, done: seq<nat>) {
    forall id: nat :: id < |es| && id !in done ==> exists v :: v in Edges(es, id) && v !in done
  }

  lemma {:induction false} Walk(es: seq<Entry>, done: seq<nat>, u: nat, k: nat) returns (p: seq<nat>)
    requires Closed(es) && Stuck(es, done) && u < |es| && u !in done
    ensures |p| == k + 1 && p[0] == u && Path(es, p)
    decreases k
  {
    hide Edges, Path;
    p := [u];
    if k == 0 {
      Alone(es, u);
    } else {
      var v :| v in Edges(es, u) && v !in done;
      var q := Walk(es, done, v, k - 1);
      p := [u] + q;
      PathExtends(es, u, q);
    }
  }

  lemma Alone(es: seq<Entry>, u: nat)
    requires u < |es|
    ensures Path(es, [u])
  {
  }

  lemma PathExtends(es: seq<Entry>, u: nat, q: seq<nat>)
    requires u < |es| && Path(es, q) && q != [] && q[0] in Edges(es, u)
    ensures Path(es, [u] + q)
  {
    hide Edges;
    var p := [u] + q;
    assert forall n :: 0 < n < |p| ==> p[n] == q[n - 1];
  }

  lemma StuckHasCycle(es: seq<Entry>, done: seq<nat>, u: nat)
    requires Closed(es) && Stuck(es, done) && u < |es| && u !in done
    ensures exists s :: OnCycle(es, s)
  {
    hide Edges, Stuck;
    var p := Walk(es, done, u, |es|);
    var i, j := Pigeonhole(p, |es|);
    var q := p[i..j + 1];
    forall k | 0 <= k < |q| - 1
      ensures q[k + 1] in Edges(es, q[k])
    {
      assert p[i + k + 1] in Edges(es, p[i + k]);
    }
    assert Path(es, q) && q[0] == q[|q| - 1];
    assert OnCycle(es, q[0]);
  }

  ghost predicate NoCycle(es: seq<Entry>) { forall s :: !OnCycle(es, s) }

  /** Without cycles all symbols can be put in order. */
  lemma {:induction false} OrderExists(es: seq<Entry>, done: seq<nat>, left: set<nat>) returns (all: seq<nat>)
    requires Closed(es) && NoCycle(es) && Ordered(es, done)
    requires forall id: nat :: id in left <==> id < |es| && id !in done
    ensures Ordered(es, all) && forall id: nat :: id < |es| ==> id in all
    decreases |left|
  {
    hide OnCycle, Ordered, Edges;
    all := done;
    if left != {} {
      var u :| u in left;
      if Stuck(es, done) { StuckHasCycle(es, done, u); }
      var id: nat :| id < |es| && id !in done && forall v :: v in Edges(es, id) ==> v in done;
      OrderedExtends(es, done, id);
      all := OrderExists(es, done + [id], left - {id});
    }
  }

  lemma NoCycleRanks(es: seq<Entry>) returns (rank: seq<nat>)
    requires Closed(es) && NoCycle(es)
    ensures Ranked(es, rank)
  {
    var done := OrderExists(es, [], UpTo(|es|));
    OrderedRanks(es, done);
    rank := RankOf(es, done);
  }

  // ----------------------------------------- what a clean check guarantees

  /** Symbols are declared, and carry the kind they are declared with. */
  ghost predicate Kinds(decls: seq<KSymbol.Decl>, e: Expr) {
    KSymbol.ExprBelow(decls, KSymbol.NoRank(|decls|), 1, e)
  }

  ghost predicate OptKinds(decls: seq<KSymbol.Decl>, e: Option<Expr>) { e.Some? ==> Kinds(decls, e.value) }

  function PromptProps(d: KSymbol.Decl): seq<Prop> {
    seq(|d.prompts|, i requires 0 <= i < |d.prompts| => Prop(Prompt, d.prompts[i], None))
  }

  function DefaultProps(d: KSymbol.Decl): seq<Prop> {
    seq(|d.defaults|, i requires 0 <= i < |d.defaults| =>
      Prop(DefaultProp, d.defaults[i].cond, Some(d.defaults[i].what)))
  }

  /** The bounds of ranges are the operands of a comparison; `kind` says whether it is followed. */
  function RangeProps(d: KSymbol.Decl, kind: PropKind): seq<Prop> {
    seq(|d.ranges|, i requires 0 <= i < |d.ranges| =>
      Prop(kind, d.ranges[i].cond, Some(Comp(Equal, d.ranges[i].what.lo, d.ranges[i].what.hi))))
  }

  ghost predicate PropKinds(decls: seq<KSymbol.Decl>, p: Prop) { OptKinds(decls, p.visible) && OptKinds(decls, p.expr) }

  /** The properties of `e` are those of `d`, and selects. */
  ghost predicate Lists(d: KSymbol.Decl, e: Entry) {
    && d.revDep == e.revDep
    && forall p: Prop :: !p.kind.Select? ==>
                     (p in e.props <==> p in PromptProps(d) + DefaultProps(d) + RangeProps(d, RangeProp))
  }

  /** The check as it would have to be for the evaluator: it also follows dir_dep and the
      bounds of ranges. */
  function ReadBy(d: KSymbol.Decl): Entry {
    Entry(d.revDep, PromptProps(d) + DefaultProps(d) + RangeProps(d, DefaultProp) + [Prop(Prompt, d.dirDep, None)])
  }

  function AllRead(decls: seq<KSymbol.Decl>): (es: seq<Entry>)
    ensures |es| == |decls|
  {
    seq(|decls|, i requires 0 <= i < |decls| => ReadBy(decls[i]))
  }

  ghost predicate IsBound(d: KSymbol.Decl, v: nat) {
    exists i :: 0 <= i < |d.ranges| && v in SymRef(d.ranges[i].what.lo) + SymRef(d.ranges[i].what.hi)
  }

  /** What the check does not follow. */
  ghost predicate Unfollowed(d: KSymbol.Decl, v: nat) { v in OptRefs(d.dirDep) || IsBound(d, v) }

  lemma {:induction false} InProps(ps: seq<Prop>, v: nat)
    ensures v in PropsRefs(ps) <==> exists p :: p in ps && v in PropRefs(p)
  {
    if ps != [] {
      var init, last := ps[..|ps| - 1], ps[|ps| - 1];
      InProps(init, v);
      assert ps == init + [last];
    }
  }

  /** What the evaluator reads is what the check follows, and dir_dep and the bounds. */
  lemma ReadIsFollowedOrNot(d: KSymbol.Decl, e: Entry, v: nat)
    requires Lists(d, e)
    ensures var r := ReadBy(d);
            v in OptRefs(r.revDep) + PropsRefs(r.props) <==>
              v in OptRefs(e.revDep) + PropsRefs(e.props) || Unfollowed(d, v)
  {
    hide Refs;
    var r := ReadBy(d);
    InProps(r.props, v);
    InProps(e.props, v);
    if v in PropsRefs(e.props) {
      var p :| p in e.props && v in PropRefs(p);
      ReadFollowed(d, p, v);
    }
    if v in PropsRefs(r.props) {
      var p :| p in r.props && v in PropRefs(p);
      FollowedOrNot(d, p, v);
    }
    if v in OptRefs(d.dirDep) { assert Prop(Prompt, d.dirDep, None) in r.props; }
    if IsBound(d, v) { BoundIsRead(d, v); }
  }

  lemma BoundIsRead(d: KSymbol.Decl, v: nat)
    requires IsBound(d, v)
    ensures exists q :: q in ReadBy(d).props && v in PropRefs(q)
  {
    var i :| 0 <= i < |d.ranges| && v in SymRef(d.ranges[i].what.lo) + SymRef(d.ranges[i].what.hi);
    var q := RangeProps(d, DefaultProp)[i];
    assert q in ReadBy(d).props && v in Refs(q.expr.value);
  }

  /** A followed property is read. */
  lemma ReadFollowed(d: KSymbol.Decl, p: Prop, v: nat)
    requires p in PromptProps(d) + DefaultProps(d) + RangeProps(d, RangeProp) && v in PropRefs(p)
    ensures exists q :: q in ReadBy(d).props && v in PropRefs(q)
  {
    if p in RangeProps(d, RangeProp) {
      var i :| 0 <= i < |d.ranges| && RangeProps(d, RangeProp)[i] == p;
      assert RangeProps(d, DefaultProp)[i] in ReadBy(d).props;
      assert v in PropRefs(RangeProps(d, DefaultProp)[i]);
    } else {
      assert p in ReadBy(d).props;
    }
  }

  lemma FollowedOrNot(d: KSymbol.Decl, p: Prop, v: nat)
    requires p in ReadBy(d).props && v in PropRefs(p)
    ensures Unfollowed(d, v) ||
            exists q :: q in PromptProps(d) + DefaultProps(d) + RangeProps(d, RangeProp) && v in PropRefs(q)
  {
    var own := PromptProps(d) + DefaultProps(d) + RangeProps(d, RangeProp);
    if p in RangeProps(d, DefaultProp) {
      var i :| 0 <= i < |d.ranges| && RangeProps(d, DefaultProp)[i] == p;
      assert RangeProps(d, RangeProp)[i] in own;
      if v !in PropRefs(RangeProps(d, RangeProp)[i]) { assert IsBound(d, v); }
    } else if p in PromptProps(d) + DefaultProps(d) {
      assert p in own;
    }
  }

  lemma {:induction false} RefsBelow(decls: seq<KSymbol.Decl>, rank: seq<nat>, bound: nat, e: Expr)
    requires |rank| == |decls| && Kinds(decls, e)
    requires forall v :: v in Refs(e) && v < |rank| ==> rank[v] < bound
    ensures KSymbol.ExprBelow(decls, rank, bound, e)
  {
    match e
    case Sym(s) =>
    case Not(a) => RefsBelow(decls, rank, bound, a);
    case Bin(_, l, r) =>
      RefsBelow(decls, rank, bound, l);
      RefsBelow(decls, rank, bound, r);
    case Comp(_, l, r) =>
  }

  lemma OptBelow(decls: seq<KSymbol.Decl>, rank: seq<nat>, bound: nat, e: Option<Expr>)
    requires |rank| == |decls| && OptKinds(decls, e)
    requires forall v :: v in OptRefs(e) && v < |rank| ==> rank[v] < bound
    ensures KSymbol.OptBelow(decls, rank, bound, e)
  {
    if e.Some? { RefsBelow(decls, rank, bound, e.value); }
  }

  lemma {:induction false} BelowRefs(decls: seq<KSymbol.Decl>, rank: seq<nat>, bound: nat, e: Expr)
    requires |rank| == |decls| && KSymbol.ExprBelow(decls, rank, bound, e)
    ensures AllBelow(rank, bound, Refs(e))
  {
    match e
    case Sym(s) =>
    case Not(a) => BelowRefs(decls, rank, bound, a);
    case Bin(_, l, r) =>
      BelowRefs(decls, rank, bound, l);
      BelowRefs(decls, rank, bound, r);
    case Comp(_, l, r) =>
  }

  lemma {:induction false} RefsInRange(decls: seq<KSymbol.Decl>, e: Expr)
    requires Kinds(decls, e)
    ensures forall v :: v in Refs(e) ==> v < |decls|
  {
    match e
    case Sym(s) =>
    case Not(a) => RefsInRange(decls, a);
    case Bin(_, l, r) =>
      RefsInRange(decls, l);
      RefsInRange(decls, r);
    case Comp(_, l, r) =>
  }

  /** A property of which everything is read comes before `bound`. */
  ghost predicate PropBelow(decls: seq<KSymbol.Decl>, rank: seq<nat>, bound: nat, p: Prop)
    requires |rank| == |decls|
  {
    KSymbol.OptBelow(decls, rank, bound, p.visible) && KSymbol.OptBelow(decls, rank, bound, p.expr)
  }

  /** A declaration comes before `bound` when what it reads does. */
  lemma DeclBelowMeans(decls: seq<KSymbol.Decl>, rank: seq<nat>, bound: nat, d: KSymbol.Decl)
    requires |rank| == |decls|
    ensures KSymbol.DeclBelow(decls, rank, bound, d) <==>
            KSymbol.OptBelow(decls, rank, bound, d.revDep) &&
            forall p :: p in ReadBy(d).props ==> PropBelow(decls, rank, bound, p)
  {
    hide KSymbol.Below, KSymbol.ExprBelow, ReadBy;
    if KSymbol.DeclBelow(decls, rank, bound, d) {
      forall p | p in ReadBy(d).props
        ensures PropBelow(decls, rank, bound, p)
      {
        BelowProp(decls, rank, bound, d, p);
      }
    }
    if forall p :: p in ReadBy(d).props ==> PropBelow(decls, rank, bound, p) {
      PropsBelow(decls, rank, bound, d);
      DirDepIsRead(d);
    }
  }

  lemma DirDepIsRead(d: KSymbol.Decl)
    ensures Prop(Prompt, d.dirDep, None) in ReadBy(d).props
  {
  }

  lemma BelowProp(decls: seq<KSymbol.Decl>, rank: seq<nat>, bound: nat, d: KSymbol.Decl, p: Prop)
    requires |rank| == |decls| && KSymbol.DeclBelow(decls, rank, bound, d) && p in ReadBy(d).props
    ensures PropBelow(decls, rank, bound, p)
  {
    hide KSymbol.Below;
    if p in RangeProps(d, DefaultProp) {
      var i :| 0 <= i < |d.ranges| && RangeProps(d, DefaultProp)[i] == p;
      assert p.expr.value == Comp(Equal, d.ranges[i].what.lo, d.ranges[i].what.hi);
    }
  }

  lemma PropsBelow(decls: seq<KSymbol.Decl>, rank: seq<nat>, bound: nat, d: KSymbol.Decl)
    requires |rank| == |decls| && forall p :: p in ReadBy(d).props ==> PropBelow(decls, rank, bound, p)
    ensures forall i :: 0 <= i < |d.prompts| ==> KSymbol.OptBelow(decls, rank, bound, d.prompts[i])
    ensures forall i :: 0 <= i < |d.defaults| ==>
              && KSymbol.OptBelow(decls, rank, bound, d.defaults[i].cond)
              && KSymbol.ExprBelow(decls, rank, bound, d.defaults[i].what)
    ensures forall i :: 0 <= i < |d.ranges| ==>
              && KSymbol.OptBelow(decls, rank, bound, d.ranges[i].cond)
              && KSymbol.Below(decls, rank, bound, d.ranges[i].what.lo)
              && KSymbol.Below(decls, rank, bound, d.ranges[i].what.hi)
  {
    hide KSymbol.Below;
    forall i | 0 <= i < |d.prompts|
      ensures KSymbol.OptBelow(decls, rank, bound, d.prompts[i])
    {
      assert PromptProps(d)[i] in ReadBy(d).props;
    }
    forall i | 0 <= i < |d.defaults|
      ensures KSymbol.OptBelow(decls, rank, bound, d.defaults[i].cond)
      ensures KSymbol.ExprBelow(decls, rank, bound, d.defaults[i].what)
    {
      assert DefaultProps(d)[i] in ReadBy(d).props;
    }
    forall i | 0 <= i < |d.ranges|
      ensures KSymbol.OptBelow(decls, rank, bound, d.ranges[i].cond)
      ensures KSymbol.ExprBelow(decls, rank, bound, Comp(Equal, d.ranges[i].what.lo, d.ranges[i].what.hi))
    {
      assert RangeProps(d, DefaultProp)[i] in ReadBy(d).props;
    }
  }

  lemma ReadKinds(decls: seq<KSymbol.Decl>, d: KSymbol.Decl)
    requires KSymbol.DeclBelow(decls, KSymbol.NoRank(|decls|), 1, d)
    ensures ReadBy(d).revDep == d.revDep && OptKinds(decls, d.revDep)
    ensures forall p :: p in ReadBy(d).props ==> PropKinds(decls, p)
  {
    hide KSymbol.ExprBelow, KSymbol.DeclBelow;
    DeclBelowMeans(decls, KSymbol.NoRank(|decls|), 1, d);
    forall p | p in ReadBy(d).props
      ensures PropKinds(decls, p)
    {
      assert PropBelow(decls, KSymbol.NoRank(|decls|), 1, p);
    }
  }

  /** Of a property that is read, everything is followed. */
  lemma ReadIsFollowed(d: KSymbol.Decl, p: Prop)
    requires p in ReadBy(d).props
    ensures PropRefs(p) == OptRefs(p.visible) + OptRefs(p.expr)
  {
    assert p.kind.DefaultProp? || (p.kind.Prompt? && p.expr.None?);
  }

  lemma OptRefsInRange(decls: seq<KSymbol.Decl>, e: Option<Expr>)
    requires OptKinds(decls, e)
    ensures forall v :: v in OptRefs(e) ==> v < |decls|
  {
    if e.Some? { RefsInRange(decls, e.value); }
  }

  lemma ReadIsClosed(decls: seq<KSymbol.Decl>)
    requires KSymbol.Declared(decls)
    ensures Closed(AllRead(decls))
  {
    hide Kinds, Refs, PropRefs;
    var es := AllRead(decls);
    forall id, v | 0 <= id < |es| && v in Edges(es, id)
      ensures v < |es|
    {
      var d := decls[id];
      ReadKinds(decls, d);
      OptRefsInRange(decls, d.revDep);
      InProps(es[id].props, v);
      if v in PropsRefs(es[id].props) {
        var p :| p in es[id].props && v in PropRefs(p);
        ReadIsFollowed(d, p);
        OptRefsInRange(decls, p.visible);
        OptRefsInRange(decls, p.expr);
      }
    }
  }

  lemma OptBelowRefs(decls: seq<KSymbol.Decl>, rank: seq<nat>, bound: nat, e: Option<Expr>)
    requires |rank| == |decls| && OptKinds(decls, e)
    ensures KSymbol.OptBelow(decls, rank, bound, e) <==> AllBelow(rank, bound, OptRefs(e))
  {
    if KSymbol.OptBelow(decls, rank, bound, e) && e.Some? { BelowRefs(decls, rank, bound, e.value); }
    if AllBelow(rank, bound, OptRefs(e)) { OptBelow(decls, rank, bound, e); }
  }

  lemma BothBelow(rank: seq<nat>, bound: nat, a: set<nat>, b: set<nat>)
    ensures AllBelow(rank, bound, a + b) <==> AllBelow(rank, bound, a) && AllBelow(rank, bound, b)
  {
    assert AllBelow(rank, bound, a + b) ==> forall v :: v in a ==> v in a + b;
    assert AllBelow(rank, bound, a + b) ==> forall v :: v in b ==> v in a + b;
  }

  lemma {:induction false} PropsRefsBelow(rank: seq<nat>, bound: nat, ps: seq<Prop>)
    ensures AllBelow(rank, bound, PropsRefs(ps)) <==> forall p :: p in ps ==> AllBelow(rank, bound, PropRefs(p))
  {
    hide PropRefs;
    if ps != [] {
      var init, last := ps[..|ps| - 1], ps[|ps| - 1];
      PropsRefsBelow(rank, bound, init);
      BothBelow(rank, bound, PropsRefs(init), PropRefs(last));
      hide AllBelow;
      assert ps == init + [last];
    }
  }

  lemma OnePropBelow(decls: seq<KSymbol.Decl>, rank: seq<nat>, bound: nat, d: KSymbol.Decl, p: Prop)
    requires |rank| == |decls| && p in ReadBy(d).props && PropKinds(decls, p)
    ensures PropBelow(decls, rank, bound, p) <==> AllBelow(rank, bound, PropRefs(p))
  {
    hide KSymbol.OptBelow, Kinds, PropRefs, OptRefs, ReadBy, AllBelow;
    ReadIsFollowed(d, p);
    OptBelowRefs(decls, rank, bound, p.visible);
    OptBelowRefs(decls, rank, bound, p.expr);
    BothBelow(rank, bound, OptRefs(p.visible), OptRefs(p.expr));
  }

  lemma OneIsBelow(decls: seq<KSymbol.Decl>, rank: seq<nat>, bound: nat, d: KSymbol.Decl)
    requires KSymbol.DeclBelow(decls, KSymbol.NoRank(|decls|), 1, d) && |rank| == |decls|
    ensures KSymbol.DeclBelow(decls, rank, bound, d) <==>
            AllBelow(rank, bound, OptRefs(d.revDep) + PropsRefs(ReadBy(d).props))
  {
    hide KSymbol.DeclBelow, KSymbol.OptBelow, PropBelow, Kinds, PropRefs, OptRefs, AllBelow, ReadBy;
    var r := ReadBy(d);
    DeclBelowMeans(decls, rank, bound, d);
    ReadKinds(decls, d);
    OptBelowRefs(decls, rank, bound, d.revDep);
    forall p | p in r.props
      ensures PropBelow(decls, rank, bound, p) <==> AllBelow(rank, bound, PropRefs(p))
    {
      OnePropBelow(decls, rank, bound, d, p);
    }
    PropsRefsBelow(rank, bound, r.props);
    BothBelow(rank, bound, OptRefs(d.revDep), PropsRefs(r.props));
  }

  /** Ranks that found the definition of the values are ranks of what is read. */
  lemma RankedIsAcyclic(decls: seq<KSymbol.Decl>, rank: seq<nat>)
    requires KSymbol.Declared(decls)
    ensures KSymbol.Acyclic(decls, rank) <==> Ranked(AllRead(decls), rank)
  {
    hide KSymbol.DeclBelow, AllBelow, PropsRefs, OptRefs;
    if |rank| == |decls| {
      forall id | 0 <= id < |decls|
        ensures KSymbol.DeclBelow(decls, rank, rank[id], decls[id])
                <==> AllBelow(rank, rank[id], Edges(AllRead(decls), id))
      {
        OneIsBelow(decls, rank, rank[id], decls[id]);
      }
    }
  }

  /** The recursive definition of the values is well founded if and only if no symbol leads back
      to itself through what the check follows, range bounds and dir_dep. */
  lemma AcyclicExactly(decls: seq<KSymbol.Decl>)
    requires KSymbol.Declared(decls)
    ensures (exists rank :: KSymbol.Acyclic(decls, rank)) <==> NoCycle(AllRead(decls))
  {
    hide KSymbol.Acyclic, Ranked, OnCycle, Closed, KSymbol.Declared, AllRead;
    var es := AllRead(decls);
    if rank :| KSymbol.Acyclic(decls, rank) {
      RankedIsAcyclic(decls, rank);
      forall s
        ensures !OnCycle(es, s)
      {
        if OnCycle(es, s) { CycleHasNoRank(es, rank, s); }
      }
    }
    if NoCycle(es) {
      ReadIsClosed(decls);
      var rank := NoCycleRanks(es);
      RankedIsAcyclic(decls, rank);
    }
  }

  ghost predicate Leads(es: seq<Entry>, v: nat, w: nat) {
    exists p :: |p| >= 1 && p[0] == v && p[|p| - 1] == w && Path(es, p)
  }

  /** Going round from another place */
  lemma CycleTurned(es: seq<Entry>, p: seq<nat>, k: nat)
    requires |p| >= 2 && p[0] == p[|p| - 1] && Path(es, p) && k < |p| - 1
    ensures Leads(es, p[k + 1], p[k])
  {
    var q := p[k + 1..] + p[1..k + 1];
    forall n | 0 <= n < |q| - 1
      ensures q[n + 1] in Edges(es, q[n])
    {
      if n < |p| - k - 2 {
        assert p[k + 1 + n + 1] in Edges(es, p[k + 1 + n]);
      } else {
        var m := n - (|p| - k - 2);
        assert p[m + 1] in Edges(es, p[m]);
      }
    }
    assert Path(es, q);
  }

  lemma LeadsBack(es: seq<Entry>, id: nat, v: nat)
    requires id < |es| && v in Edges(es, id) && Leads(es, v, id)
    ensures OnCycle(es, id)
  {
    var p :| |p| >= 1 && p[0] == v && p[|p| - 1] == id && Path(es, p);
    var q := [id] + p;
    assert Path(es, q);
  }

  /** After a check that reported nothing the definition is well founded if and only if nothing
      that the check does not follow leads back to the symbol that reads it. */
  lemma CleanCheckIsAcyclic(decls: seq<KSymbol.Decl>, es: seq<Entry>, rank: seq<nat>)
    requires KSymbol.Declared(decls) && |decls| == |es| && Ranked(es, rank)
    requires forall id :: 0 <= id < |es| ==> Lists(decls[id], es[id])
    ensures (exists rank :: KSymbol.Acyclic(decls, rank)) <==>
            forall id: nat, v :: id < |decls| && Unfollowed(decls[id], v) ==> !Leads(AllRead(decls), v, id)
  {
    hide KSymbol.Acyclic, KSymbol.Declared, Lists, Unfollowed, PropsRefs, ReadBy, OptRefs;
    var all := AllRead(decls);
    AcyclicExactly(decls);
    forall id: nat, v: nat | id < |decls|
      ensures v in Edges(all, id) <==> v in Edges(es, id) || Unfollowed(decls[id], v)
    {
      ReadIsFollowedOrNot(decls[id], es[id], v);
    }
    hide Edges, AllRead, Path, OnCycle, Leads;
    if NoCycle(all) {
      forall id: nat, v | id < |decls| && Unfollowed(decls[id], v)
        ensures !Leads(all, v, id)
      {
        if Leads(all, v, id) { LeadsBack(all, id, v); }
      }
    }
    if !NoCycle(all) {
      var id, v := CycleUsesUnfollowed(decls, es, rank);
    }
  }

  lemma CycleUsesUnfollowed(decls: seq<KSymbol.Decl>, es: seq<Entry>, rank: seq<nat>) returns (id: nat, v: nat)
    requires |decls| == |es| && Ranked(es, rank) && !NoCycle(AllRead(decls))
    requires forall id: nat, v: nat :: id < |decls| ==>
               (v in Edges(AllRead(decls), id) <==> v in Edges(es, id) || Unfollowed(decls[id], v))
    ensures id < |decls| && Unfollowed(decls[id], v) && Leads(AllRead(decls), v, id)
  {
    hide Edges, AllRead, Unfollowed, Leads;
    var all := AllRead(decls);
    var s :| OnCycle(all, s);
    var p :| |p| >= 2 && p[0] == s && p[|p| - 1] == s && Path(all, p);
    if forall k :: 0 <= k < |p| - 1 ==> p[k + 1] in Edges(es, p[k]) {
      assert Path(es, p) && OnCycle(es, s);
      CycleHasNoRank(es, rank, s);
    }
    var k :| 0 <= k < |p| - 1 && p[k + 1] !in Edges(es, p[k]);
    CycleTurned(all, p, k);
    id, v := p[k], p[k + 1];
  }

  /** A symbol whose range starts at its own value passes the check, though its value does
      depend on itself. */
  lemma RangeBoundsEscape()
    ensures
      var a := Config(0, Int);
      var d := KSymbol.Decl(Int, "A", [], [], [KSymbol.Guarded(None, KSymbol.Bounds(a, Constant("9")))], None, None);
      var e := Entry(None, [Prop(RangeProp, None, Some(Comp(Equal, a, Constant("9"))))]);
      Ranked([e], [0]) && KSymbol.Declared([d]) && Lists(d, e) && forall rank :: !KSymbol.Acyclic([d], rank)
  {
    var a := Config(0, Int);
    var d := KSymbol.Decl(Int, "A", [], [], [KSymbol.Guarded(None, KSymbol.Bounds(a, Constant("9")))], None, None);
    var e := Entry(None, [Prop(RangeProp, None, Some(Comp(Equal, a, Constant("9"))))]);
    assert RangeProps(d, RangeProp) == e.props;
    NothingFollowed(e);
    forall rank
      ensures !KSymbol.Acyclic([d], rank)
    {
      assert KSymbol.Acyclic([d], rank) ==> KSymbol.DeclBelow([d], rank, rank[0], [d][0]);
      assert KSymbol.Acyclic([d], rank) ==> KSymbol.Below([d], rank, rank[0], [d][0].ranges[0].what.lo);
    }
  }

  /** So does a symbol without properties that depends on itself directly. */
  lemma DirDepEscapes()
    ensures
      var d := KSymbol.Decl(Boolean, "A", [], [], [], Some(Sym(Config(0, Boolean))), None);
      var e := Entry(None, []);
      Ranked([e], [0]) && KSymbol.Declared([d]) && Lists(d, e) && forall rank :: !KSymbol.Acyclic([d], rank)
  {
    var d := KSymbol.Decl(Boolean, "A", [], [], [], Some(Sym(Config(0, Boolean))), None);
    NothingFollowed(Entry(None, []));
    forall rank
      ensures !KSymbol.Acyclic([d], rank)
    {
      assert KSymbol.Acyclic([d], rank) ==> KSymbol.DeclBelow([d], rank, rank[0], [d][0]);
    }
  }

  lemma NothingFollowed(e: Entry)
    requires e.revDep.None? && (e.props == [] || (|e.props| == 1 && PropRefs(e.props[0]) == {}))
    ensures Ranked([e], [0])
  {
    if e.props != [] {
      assert e.props[..|e.props| - 1] == [];
      assert PropsRefs(e.props) == PropsRefs([]) + PropRefs(e.props[0]);
    }
    assert Edges([e], 0) == {};
  }
}
