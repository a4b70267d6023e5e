/** menu_finalize on the linked tree (openwrt/scripts/config/menu.c:282-371, 415-424): first
    child, next sibling, parent. */
module KMenuHeap {
  import opened KExpr
  import opened KTransform
  import opened KImplies
  import opened KMenu

  /** struct menu */
  class MenuNode {
    const id: nat
    const sym: Option<Symbol>
    const choice: bool
    var dep: Option<Expr>
    var prompt: Option<Caption>
    var list: MenuNode?
    var next: MenuNode?
    var parent: MenuNode?

    constructor (id: nat, sym: Option<Symbol>, choice: bool, dep: Option<Expr>, prompt: Option<Caption>)
      ensures Own() == Info(id, sym, choice, dep, prompt)
      ensures list == null && next == null && parent == null
    {
      this.id, this.sym, this.choice, this.dep, this.prompt := id, sym, choice, dep, prompt;
      list, next, parent := null, null, null;
    }

    function Own(): Info
      reads this`dep, this`prompt
    {
      Info(id, sym, choice, dep, prompt)
    }
  }

  /** A row of siblings, with what is below each. */
  datatype Item = Item(n: MenuNode, kids: seq<Item>)

  ghost function Nodes(c: seq<Item>): (ns: seq<MenuNode>)
    ensures |ns| >= |c|
  {
    if c == [] then [] else [c[0].n] + (Nodes(c[0].kids) + Nodes(c[1..]))
  }

  ghost function Set(c: seq<Item>): set<MenuNode> { set n | n in Nodes(c) }

  ghost predicate Distinct(ns: seq<MenuNode>) { forall i, j :: 0 <= i < j < |ns| ==> ns[i] != ns[j] }

  ghost function First(c: seq<Item>, end: MenuNode?): MenuNode? { if c == [] then end else c[0].n }

  /** The links of a row whose last entry is followed by `end`. */
  ghost predicate Row(c: seq<Item>, parent: MenuNode?, end: MenuNode?)
    reads Set(c)`list, Set(c)`next, Set(c)`parent
  {
    c == [] ||
    (&& c[0].n in Nodes(c) && Set(c[0].kids) <= Set(c) && Set(c[1..]) <= Set(c)
     && c[0].n.parent == parent && c[0].n.next == First(c[1..], end) && c[0].n.list == First(c[0].kids, null)
     && Row(c[0].kids, c[0].n, null) && Row(c[1..], parent, end))
  }

  ghost function Read(c: seq<Item>): (ms: seq<Menu>)
    reads Set(c)`dep, Set(c)`prompt
    ensures |ms| == |c|
  {
    if c == [] then []
    else
      SetParts(c);
      [Menu(c[0].n.Own(), Read(c[0].kids))] + Read(c[1..])
  }

  lemma {:induction false} Allocated(c: seq<Item>)
    ensures forall n :: n in Set(c) ==> allocated(n)
  {
    if c != [] {
      var x := c[0];
      Allocated(x.kids);
      Allocated(c[1..]);
      SetParts(c);
      assert allocated(x.n);
    }
  }

  lemma SetParts(c: seq<Item>)
    requires c != []
    ensures c[0].n in Set(c) && Set(c[0].kids) <= Set(c) && Set(c[1..]) <= Set(c)
    ensures Set(c) == {c[0].n} + Set(c[0].kids) + Set(c[1..])
  {
  }

  lemma {:induction false} NodesConcat(a: seq<Item>, b: seq<Item>)
    ensures Nodes(a + b) == Nodes(a) + Nodes(b)
  {
    if a == [] {
      assert a + b == b;
    } else {
      assert (a + b)[1..] == a[1..] + b;
      NodesConcat(a[1..], b);
    }
  }

  lemma {:induction false} ReadConcat(a: seq<Item>, b: seq<Item>)
    ensures Read(a + b) == Read(a) + Read(b)
  {
    if a == [] {
      assert a + b == b;
    } else {
      assert (a + b)[1..] == a[1..] + b;
      ReadConcat(a[1..], b);
    }
  }

  /** Two rows in a row make one. */
  lemma {:induction false} RowConcat(a: seq<Item>, b: seq<Item>, parent: MenuNode?, end: MenuNode?)
    ensures Row(a + b, parent, end) <==> Row(a, parent, First(b, end)) && Row(b, parent, end)
  {
    NodesConcat(a, b);
    if a == [] {
      assert a + b == b;
    } else {
      assert (a + b)[1..] == a[1..] + b;
      SetParts(a);
      SetParts(a + b);
      RowConcat(a[1..], b, parent, end);
    }
  }

  lemma DistinctParts(a: seq<MenuNode>, b: seq<MenuNode>)
    requires Distinct(a + b)
    ensures Distinct(a) && Distinct(b)
    ensures forall x :: x in a ==> x !in b
  {
    var ab := a + b;
    assert forall i :: 0 <= i < |a| ==> ab[i] == a[i];
    assert forall i :: 0 <= i < |b| ==> ab[|a| + i] == b[i];
  }

  /** The first item of a row shares no node with the rest. */
  lemma HeadApart(c: seq<Item>)
    requires c != [] && Distinct(Nodes(c))
    ensures c[0].n !in Nodes(c[0].kids) && c[0].n !in Nodes(c[1..])
    ensures Distinct(Nodes(c[0].kids)) && Distinct(Nodes(c[1..]))
    ensures forall x :: x in Nodes(c[0].kids) ==> x !in Nodes(c[1..])
  {
    DistinctParts([c[0].n], Nodes(c[0].kids) + Nodes(c[1..]));
    DistinctParts(Nodes(c[0].kids), Nodes(c[1..]));
    assert c[0].n in [c[0].n];
  }

  /** A row of one. */
  lemma SingleRow(x: Item, parent: MenuNode?, end: MenuNode?)
    ensures Row([x], parent, end) <==>
            x.n.parent == parent && x.n.next == end && x.n.list == First(x.kids, null) && Row(x.kids, x.n, null)
    ensures Nodes([x]) == [x.n] + Nodes(x.kids)
    ensures Read([x]) == [Menu(x.n.Own(), Read(x.kids))]
  {
    assert [x][1..] == [];
    SetParts([x]);
    assert Nodes([x]) == [x.n] + (Nodes(x.kids) + []);
  }

  lemma Assoc<T>(a: seq<T>, b: seq<T>, c: seq<T>)
    ensures (a + b) + c == a + (b + c)
  {
  }

  lemma NodesCons(c: seq<Item>)
    requires c != []
    ensures Nodes(c) == Nodes([c[0]]) + Nodes(c[1..]) && [c[0]] + c[1..] == c
  {
    SingleRow(c[0], null, null);
    Assoc([c[0].n], Nodes(c[0].kids), Nodes(c[1..]));
  }

  /** Moving the boundary between two rows by one item. */
  lemma Advance(pre: seq<Item>, suf: seq<Item>)
    requires suf != []
    ensures pre + [suf[0]] + suf[1..] == pre + suf
    ensures Nodes(pre + [suf[0]]) + Nodes(suf[1..]) == Nodes(pre) + Nodes(suf)
  {
    hide Nodes;
    NodesConcat(pre, [suf[0]]);
    NodesCons(suf);
    Assoc(pre, [suf[0]], suf[1..]);
    Assoc(Nodes(pre), Nodes([suf[0]]), Nodes(suf[1..]));
  }

  /** The head of a row and its links. */
  lemma RowHead(c: seq<Item>, parent: MenuNode?, end: MenuNode?)
    requires c != [] && Row(c, parent, end)
    ensures c[0].n.parent == parent && c[0].n.next == First(c[1..], end) && c[0].n.list == First(c[0].kids, null)
    ensures Row(c[0].kids, c[0].n, null) && Row(c[1..], parent, end)
  {
  }

  // ------------------------------------------------ conditions, in place

  /** The first loop of menu_finalize: every child takes over the parent's condition. */
  method PropagateAll(first: MenuNode?, base: Option<Expr>, ghost c: seq<Item>, ghost parent: MenuNode?)
    requires first == First(c, null) && Row(c, parent, null) && Distinct(Nodes(c))
    modifies Set(c)`dep, Set(c)`prompt
    ensures Read(c) == PropagateRow(base, old(Read(c)))
  {
    hide Propagate, PropagateRow, Row, Nodes, Read, Distinct;
    var menu := first;
    ghost var was := Read(c);
    ghost var pre, suf := [], c;
    NoItems();
    while menu != null
      invariant menu == First(suf, null) && Row(suf, parent, null) && Nodes(pre) + Nodes(suf) == Nodes(c)
      invariant pre + suf == c && Read(pre) + PropagateRow(base, Read(suf)) == PropagateRow(base, was)
      decreases |suf|
    {
      DistinctParts(Nodes(pre), Nodes(suf));
      RowHead(suf, parent, null);
      HeadInRow(suf);
      Allocated(pre);
      Allocated(suf[1..]);
      PropagateHead(menu, base, suf);
      Advance(pre, suf);
      ReadConcat(pre, [suf[0]]);
      Assoc(Read(pre), Read([suf[0]]), PropagateRow(base, Read(suf[1..])));
      menu := menu.next;
      pre, suf := pre + [suf[0]], suf[1..];
    }
    assert pre == c;
    PropagateNone(base);
  }

  lemma NoItems()
    ensures Nodes([]) == [] && Read([]) == []
  {
  }

  lemma PropagateNone(base: Option<Expr>)
    ensures PropagateRow(base, []) == []
  {
  }

  lemma HeadInRow(c: seq<Item>)
    requires c != []
    ensures c[0].n in Nodes(c)
  {
  }

  /** What propagation does to the first of a row. */
  method PropagateHead(menu: MenuNode, base: Option<Expr>, ghost c: seq<Item>)
    requires c != [] && c[0].n == menu && Distinct(Nodes(c))
    modifies menu`dep, menu`prompt
    ensures Read([c[0]]) + PropagateRow(base, Read(c[1..])) == PropagateRow(base, old(Read(c)))
  {
    HeadApart(c);
    hide Propagate, Distinct;
    ghost var was, kids, rest := Read(c), Read(c[0].kids), Read(c[1..]);
    assert was == [Menu(menu.Own(), kids)] + rest;
    assert was[1..] == rest;
    assert menu !in Set(c[1..]) && menu !in Set(c[0].kids);
    var i := Propagate(base, menu.Own());
    OwnParts(base, menu);
    menu.dep, menu.prompt := i.dep, i.prompt;
    assert menu.Own() == i;
    assert Read(c[1..]) == rest;
    assert Read(c[0].kids) == kids;
    SingleRow(c[0], null, null);
  }

  lemma OwnParts(base: Option<Expr>, n: MenuNode)
    ensures Propagate(base, n.Own()) == n.Own().(dep := Propagate(base, n.Own()).dep,
                                                 prompt := Propagate(base, n.Own()).prompt)
  {
  }

  // --------------------------------------------------------- links, in place

  /** Links the last entry of a row to `end`. */
  method SetEnd(last: MenuNode, end: MenuNode?, ghost c: seq<Item>, ghost parent: MenuNode?, ghost was: MenuNode?)
    requires c != [] && Row(c, parent, was) && Distinct(Nodes(c)) && last == c[|c| - 1].n
    modifies last`next
    ensures Row(c, parent, end) && last.next == end
  {
    hide Row, Nodes, Distinct;
    ghost var init, x := c[..|c| - 1], c[|c| - 1];
    assert init + [x] == c;
    NodesConcat(init, [x]);
    DistinctParts(Nodes(init), Nodes([x]));
    HeadApart([x]);
    HeadInRow([x]);
    RowConcat(init, [x], parent, was);
    SingleRow(x, parent, was);
    Allocated(init);
    Allocated(x.kids);
    last.next := end;
    SingleRow(x, parent, end);
    RowConcat(init, [x], parent, end);
  }

  /** The head of a row gets a new parent, and joins a row that it follows. */
  method MoveHead(menu: MenuNode, to: MenuNode?, ghost pre: seq<Item>, ghost suf: seq<Item>, ghost from: MenuNode?)
    requires suf != [] && suf[0].n == menu && Row(pre, to, menu) && Row(suf, from, null)
    requires Distinct(Nodes(pre) + Nodes(suf))
    modifies menu`parent
    ensures Row(pre + [suf[0]], to, First(suf[1..], null)) && Row(suf[1..], from, null)
    ensures menu.parent == to
  {
    hide Row, Nodes, Distinct;
    DistinctParts(Nodes(pre), Nodes(suf));
    HeadApart(suf);
    HeadInRow(suf);
    RowHead(suf, from, null);
    Allocated(pre);
    Allocated(suf[0].kids);
    Allocated(suf[1..]);
    menu.parent := to;
    SingleRow(suf[0], to, First(suf[1..], null));
    RowConcat(pre, [suf[0]], to, First(suf[1..], null));
  }

  /** The inner loop of the hoisting: every child gets a new parent. */
  method Reparent(first: MenuNode, to: MenuNode, ghost c: seq<Item>, ghost from: MenuNode?)
    returns (last: MenuNode)
    requires c != [] && first == c[0].n && Row(c, from, null) && Distinct(Nodes(c))
    modifies Set(c)`parent
    ensures Row(c, to, null) && last == c[|c| - 1].n
  {
    hide Row, Nodes, Distinct;
    last := first;
    ghost var pre, suf := [], c;
    NoItems();
    NoRow(to, first);
    while true
      invariant suf != [] && last == suf[0].n && pre + suf == c && Nodes(pre) + Nodes(suf) == Nodes(c)
      invariant Row(pre, to, last) && Row(suf, from, null)
      decreases |suf|
    {
      HeadInRow(suf);
      RowHead(suf, from, null);
      MoveHead(last, to, pre, suf, from);
      Advance(pre, suf);
      pre, suf := pre + [suf[0]], suf[1..];
      if last.next == null {
        assert pre == c;
        break;
      }
      last := last.next;
    }
  }

  lemma NoRow(parent: MenuNode?, end: MenuNode?)
    ensures Row([], parent, end)
  {
  }

  /** Hoisting the children of one entry: they follow it as siblings. */
  method HoistOne(p: MenuNode, menu: MenuNode, ghost c: seq<Item>) returns (ghost d: seq<Item>)
    requires c != [] && menu == c[0].n && c[0].kids != [] && Row(c, p, null) && Distinct(Nodes(c))
    modifies Set(c)`list, Set(c)`next, Set(c)`parent
    ensures d == c[0].kids + c[1..] && Row([Item(menu, [])], p, First(d, null)) && Row(d, p, null)
  {
    hide Row, Nodes, Distinct;
    ghost var kids, rest := c[0].kids, c[1..];
    HeadApart(c);
    HeadInRow(c);
    SetParts(c);
    RowHead(c, p, null);
    Allocated(kids);
    Allocated(rest);
    var last := Reparent(menu.list, p, kids, menu);
    LastInRow(kids);
    SetEnd(last, menu.next, kids, p, null);
    assert menu.next == First(rest, null);
    menu.next := menu.list;
    menu.list := null;
    d := kids + rest;
    RowConcat(kids, rest, p, null);
    NoRow(menu, null);
    SingleRow(Item(menu, []), p, First(d, null));
  }

  lemma LastInRow(c: seq<Item>)
    requires c != []
    ensures c[|c| - 1].n in Set(c)
  {
    NodesConcat(c[..|c| - 1], [c[|c| - 1]]);
    assert c == c[..|c| - 1] + [c[|c| - 1]];
    SingleRow(c[|c| - 1], null, null);
  }

  lemma FirstByNodes(a: seq<Item>, b: seq<Item>)
    requires Nodes(a) == Nodes(b)
    ensures First(a, null) == First(b, null)
  {
    if a != [] && b != [] { assert Nodes(a)[0] == a[0].n && Nodes(b)[0] == b[0].n; }
  }

  /** One step of `Hoist`, when the head of the row gives up its children. */
  lemma {:induction false} HoistStep(c: seq<Item>)
    requires c != [] && c[0].kids != [] && !Captioned(c[0].n.Own())
    ensures Read([Item(c[0].n, [])]) + Hoist(Read(c[0].kids + c[1..])) == Hoist(Read(c))
  {
    ReadConcat(c[0].kids, c[1..]);
    SingleRow(Item(c[0].n, []), null, null);
    var ms := Read(c);
    assert ms[0] == Menu(c[0].n.Own(), Read(c[0].kids)) && ms[1..] == Read(c[1..]);
  }

  lemma {:induction false} NodesStep(c: seq<Item>)
    requires c != []
    ensures Nodes([Item(c[0].n, [])]) + Nodes(c[0].kids + c[1..]) == Nodes(c)
    ensures |Nodes(c[0].kids + c[1..])| < |Nodes(c)|
  {
    NodesConcat(c[0].kids, c[1..]);
    SingleRow(Item(c[0].n, []), null, null);
    assert Nodes([Item(c[0].n, [])]) == [c[0].n];
  }

  /** One step of `Hoist`, when the head of the row stays as it is. */
  lemma {:induction false} HoistSkip(c: seq<Item>)
    requires c != [] && (c[0].kids == [] || Captioned(c[0].n.Own()))
    ensures Read([c[0]]) + Hoist(Read(c[1..])) == Hoist(Read(c))
  {
    var ms := Read(c);
    assert ms[0] == Menu(c[0].n.Own(), Read(c[0].kids)) && ms[1..] == Read(c[1..]);
    SingleRow(c[0], null, null);
  }

  /** The last loop of menu_finalize, over the children of `p` */
  method HoistAll(p: MenuNode, ghost c: seq<Item>) returns (ghost d: seq<Item>)
    requires p.list == First(c, null) && Row(c, p, null) && Distinct([p] + Nodes(c))
    modifies Set(c)`list, Set(c)`next, Set(c)`parent
    ensures Row(d, p, null) && p.list == First(d, null) && Nodes(d) == Nodes(c)
    ensures Read(d) == Hoist(old(Read(c)))
  {
    hide Row, Nodes, Read, Distinct, Hoist, Captioned;
    DistinctParts([p], Nodes(c));
    assert p in [p];
    var menu := p.list;
    ghost var was := Read(c);
    ghost var pre, suf := [], c;
    NoItems();
    NoRow(p, menu);
    while menu != null
      invariant menu == First(suf, null) && Row(pre, p, menu) && Row(suf, p, null)
      invariant Nodes(pre) + Nodes(suf) == Nodes(c) && Read(pre) + Hoist(Read(suf)) == Hoist(was)
      decreases |Nodes(suf)|
    {
      ghost var head, rest := HoistAt(p, menu, pre, suf);
      menu := menu.next;
      pre, suf := pre + [head], rest;
    }
    d := pre;
    HoistNone();
    FirstByNodes(d, c);
  }

  lemma HoistNone()
    ensures Hoist([]) == []
  {
  }

  /** One round of that loop: the head is done, `rest` is to do. */
  method HoistAt(p: MenuNode, menu: MenuNode, ghost pre: seq<Item>, ghost suf: seq<Item>)
    returns (ghost head: Item, ghost rest: seq<Item>)
    requires suf != [] && menu == suf[0].n && Row(pre, p, menu) && Row(suf, p, null)
    requires Distinct(Nodes(pre) + Nodes(suf))
    modifies Set(suf)`list, Set(suf)`next, Set(suf)`parent
    ensures Row(pre + [head], p, First(rest, null)) && Row(rest, p, null) && menu.next == First(rest, null)
    ensures Nodes(pre + [head]) + Nodes(rest) == Nodes(pre) + Nodes(suf) && |Nodes(rest)| < |Nodes(suf)|
    ensures Read(pre + [head]) + Hoist(Read(rest)) == old(Read(pre) + Hoist(Read(suf)))
  {
    hide Row, Nodes, Read, Distinct, Hoist, Captioned;
    DistinctParts(Nodes(pre), Nodes(suf));
    RowHead(suf, p, null);
    Allocated(pre);
    Allocated(suf);
    if menu.list != null && !Captioned(menu.Own()) {
      HoistStep(suf);
      head := Item(menu, []);
      rest := HoistOne(p, menu, suf);
      SingleRow(head, p, First(rest, null));
      HoistStep(suf);
      NodesStep(suf);
    } else {
      HoistSkip(suf);
      NodesCons(suf);
      head, rest := suf[0], suf[1..];
      SingleRow(head, p, First(rest, null));
    }
    RowConcat(pre, [head], p, First(rest, null));
    NodesConcat(pre, [head]);
    ReadConcat(pre, [head]);
    Assoc(Nodes(pre), Nodes([head]), Nodes(rest));
    Assoc(Read(pre), Read([head]), Hoist(Read(rest)));
  }

  // ---------------------------------------------------------- menu_finalize

  /** menu_finalize of the first of a row of siblings, which becomes the row `d`: the links
      are consistent, the preorder of the entries is the same, and the entries are arranged
      as `Finalize` says. */
  method MenuFinalize(p: MenuNode, ghost c: seq<Item>, ghost parent: MenuNode?) returns (ghost d: seq<Item>)
    requires c != [] && c[0].n == p && Row(c, parent, null) && Distinct(Nodes(c))
    modifies Set(c)
    ensures d != [] && d[0].n == p && Row(d, parent, null) && Nodes(d) == Nodes(c)
    ensures Read(d) == Finalize(old(Read(c)))
    decreases |Nodes(c)|, 2
  {
    hide Row, Nodes, Read, Distinct, FinalizeEach, PropagateRow, Absorb, Hoist;
    HeadApart(c);
    RowHead(c, parent, null);
    SetParts(c);
    ReadHead(c);
    if p.list != null {
      d := FinalizeBelow(p, c, parent);
    } else if p.sym.Some? {
      d := FinalizeLeaf(p, c, parent);
    } else {
      d := c;
    }
  }

  /** The branch for an entry with children */
  method FinalizeBelow(p: MenuNode, ghost c: seq<Item>, ghost parent: MenuNode?) returns (ghost d: seq<Item>)
    requires c != [] && c[0].n == p && Row(c, parent, null) && Distinct(Nodes(c)) && c[0].kids != []
    modifies Set(c)
    ensures d != [] && d[0].n == p && Row(d, parent, null) && Nodes(d) == Nodes(c)
    ensures Read(d) == Finalize(old(Read(c)))
    decreases |Nodes(c)|, 1
  {
    hide Row, Nodes, Read, Distinct, Finalize, FinalizeEach, PropagateRow, Absorb, Hoist;
    ghost var kids, rest := c[0].kids, c[1..];
    HeadApart(c);
    RowHead(c, parent, null);
    SetParts(c);
    ReadHead(c);
    FinalizeCases(Read(c));
    Allocated(rest);
    Allocated(kids);
    ConsDistinct(p, Nodes(kids));
    PropagateAll(p.list, Inherited(p.Own()), kids, p);
    kids := FinalizeChildren(p, kids);
    d := HoistBelow(p, kids, rest, parent);
  }

  /** The branch for an entry without children */
  method FinalizeLeaf(p: MenuNode, ghost c: seq<Item>, ghost parent: MenuNode?) returns (ghost d: seq<Item>)
    requires c != [] && c[0].n == p && Row(c, parent, null) && Distinct(Nodes(c)) && c[0].kids == [] && p.sym.Some?
    modifies Set(c)
    ensures d != [] && d[0].n == p && Row(d, parent, null) && Nodes(d) == Nodes(c)
    ensures Read(d) == Finalize(old(Read(c)))
    decreases |Nodes(c)|, 1
  {
    hide Row, Nodes, Read, Distinct, Finalize, FinalizeEach, PropagateRow, Absorb, Hoist;
    HeadApart(c);
    RowHead(c, parent, null);
    SetParts(c);
    ReadHead(c);
    FinalizeCases(Read(c));
    NoItems();
    assert [] + Nodes(c[1..]) == Nodes(c[1..]);
    ConsDistinct(p, Nodes(c[1..]));
    ghost var kids, rest := TakeIn(p, c[1..], parent);
    SetOf(kids);
    d := HoistBelow(p, kids, rest, parent);
  }

  /** The last loop of menu_finalize, once the entry has its children. */
  method HoistBelow(p: MenuNode, ghost kids: seq<Item>, ghost rest: seq<Item>, ghost parent: MenuNode?)
    returns (ghost d: seq<Item>)
    requires p.parent == parent && p.list == First(kids, null) && p.next == First(rest, null)
    requires Row(kids, p, null) && Row(rest, parent, null) && Distinct([p] + (Nodes(kids) + Nodes(rest)))
    modifies Set(kids)`list, Set(kids)`next, Set(kids)`parent
    ensures d != [] && d[0].n == p && Row(d, parent, null) && Nodes(d) == [p] + (Nodes(kids) + Nodes(rest))
    ensures Read(d) == [Menu(p.Own(), Hoist(old(Read(kids))))] + old(Read(rest))
  {
    hide Row, Nodes, Read, Distinct, Hoist;
    DistinctParts([p], Nodes(kids) + Nodes(rest));
    DistinctParts(Nodes(kids), Nodes(rest));
    assert p in [p];
    ConsDistinct(p, Nodes(kids));
    Allocated(rest);
    ghost var more := HoistAll(p, kids);
    d := Rebuilt(p, more, rest, parent);
  }

  lemma FinalizeCases(ms: seq<Menu>)
    requires ms != []
    ensures ms[0].kids != [] ==>
      Finalize(ms)
      == [Menu(ms[0].info, Hoist(FinalizeEach(PropagateRow(Inherited(ms[0].info), ms[0].kids))))] + ms[1..]
    ensures ms[0].kids == [] && ms[0].info.sym.Some? ==>
      var p := Absorb(ms[0].info.sym.value, BaseDep(ms[0].info), ms[1..]);
      Finalize(ms) == [Menu(ms[0].info, Hoist(p.0))] + p.1
  {
  }

  lemma ConsDistinct(p: MenuNode, ns: seq<MenuNode>)
    requires p !in ns && Distinct(ns)
    ensures Distinct([p] + ns)
  {
  }

  lemma ReadHead(c: seq<Item>)
    requires c != []
    ensures Read(c) == [Menu(c[0].n.Own(), Read(c[0].kids))] + Read(c[1..])
    ensures |Read(c[0].kids)| == |c[0].kids| && Nodes(c) == [c[0].n] + (Nodes(c[0].kids) + Nodes(c[1..]))
  {
  }

  /** The row whose first entry now has the children `kids` and is followed by `rest`. */
  ghost method Rebuilt(p: MenuNode, kids: seq<Item>, rest: seq<Item>, parent: MenuNode?)
    returns (d: seq<Item>)
    requires p.parent == parent && p.list == First(kids, null) && p.next == First(rest, null)
    requires Row(kids, p, null) && Row(rest, parent, null)
    ensures d == [Item(p, kids)] + rest && Row(d, parent, null)
    ensures Nodes(d) == [p] + (Nodes(kids) + Nodes(rest)) && Read(d) == [Menu(p.Own(), Read(kids))] + Read(rest)
  {
    hide Row, Nodes, Read;
    d := [Item(p, kids)] + rest;
    SingleRow(Item(p, kids), parent, First(rest, null));
    RowConcat([Item(p, kids)], rest, parent, null);
    assert d[0] == Item(p, kids) && d[1..] == rest;
    ReadHead(d);
  }

  /** The loop that finalizes every child */
  method FinalizeChildren(p: MenuNode, ghost c: seq<Item>) returns (ghost d: seq<Item>)
    requires p.list == First(c, null) && Row(c, p, null) && Distinct([p] + Nodes(c))
    modifies Set(c)
    ensures Row(d, p, null) && p.list == First(d, null) && Nodes(d) == Nodes(c)
    ensures Read(d) == FinalizeEach(old(Read(c)))
    decreases |Nodes(c)|, 3
  {
    hide Row, Nodes, Read, Distinct, Finalize, FinalizeEach;
    DistinctParts([p], Nodes(c));
    assert p in [p];
    var menu := p.list;
    ghost var was := Read(c);
    ghost var pre, suf := [], c;
    NoItems();
    NoRow(p, menu);
    while menu != null
      invariant menu == First(suf, null) && Row(pre, p, menu) && Row(suf, p, null)
      invariant Nodes(pre) + Nodes(suf) == Nodes(c)
      invariant Read(pre) + FinalizeEach(Read(suf)) == FinalizeEach(was)
      decreases |suf|
    {
      DistinctParts(Nodes(pre), Nodes(suf));
      Allocated(pre);
      FinalizeStep(suf);
      suf := MenuFinalize(menu, suf, p);
      RowHead(suf, p, null);
      ReadHead(suf);
      SingleRow(suf[0], p, First(suf[1..], null));
      RowConcat(pre, [suf[0]], p, First(suf[1..], null));
      Advance(pre, suf);
      ReadConcat(pre, [suf[0]]);
      Assoc(Read(pre), Read([suf[0]]), FinalizeEach(Read(suf[1..])));
      menu := menu.next;
      pre, suf := pre + [suf[0]], suf[1..];
    }
    d := pre;
    NoChildren();
    FirstByNodes(d, c);
  }

  lemma FinalizeStep(c: seq<Item>)
    requires c != []
    ensures var f := Finalize(Read(c)); FinalizeEach(Read(c)) == [f[0]] + FinalizeEach(f[1..])
    ensures |Finalize(Read(c))| <= |c|
  {
  }

  lemma NoChildren()
    ensures FinalizeEach([]) == []
  {
  }

  /** The loop that takes in siblings of an entry without children */
  method TakeIn(p: MenuNode, ghost c: seq<Item>, ghost parent: MenuNode?)
    returns (ghost kids: seq<Item>, ghost rest: seq<Item>)
    requires p.list == null && p.next == First(c, null) && p.parent == parent && p.sym.Some?
    requires Row(c, parent, null) && Distinct([p] + Nodes(c))
    modifies p`list, p`next, Set(c)
    ensures p.list == First(kids, null) && p.next == First(rest, null)
    ensures Row(kids, p, null) && Row(rest, parent, null) && Nodes(kids) + Nodes(rest) == Nodes(c)
    ensures (Read(kids), Read(rest)) == Absorb(p.sym.value, BaseDep(p.Own()), old(Read(c)))
    decreases |Nodes(c)|, 4
  {
    hide Row, Nodes, Read, Distinct, Finalize, Absorb, BelongsUnder, Set;
    DistinctParts([p], Nodes(c));
    assert p in [p];
    ghost var own := p.Own();
    ghost var was := Absorb(p.sym.value, BaseDep(own), Read(c));
    kids, rest := [], c;
    var menu, last: MenuNode? := p.next, null;
    NoItems();
    NoRow(p, menu);
    SetOf(c);
    while menu != null && BelongsUnder(p.sym.value, BaseDep(p.Own()), KMenu.Condition(menu.Own()))
      invariant menu == First(rest, null) && Row(kids, p, menu) && Row(rest, parent, null)
      invariant Nodes(kids) + Nodes(rest) == Nodes(c)
      invariant Read(kids) + Absorb(p.sym.value, BaseDep(p.Own()), Read(rest)).0 == was.0
      invariant Absorb(p.sym.value, BaseDep(p.Own()), Read(rest)).1 == was.1
      invariant last == if kids == [] then null else kids[|kids| - 1].n
      invariant p.list == null && p.next == First(c, null) && p.parent == parent && p.Own() == own
      decreases |rest|
    {
      SetOf(rest);
      kids, rest := TakeOne(p, menu, kids, rest, parent);
      last := menu;
      menu := menu.next;
    }
    AbsorbStop(p.sym.value, BaseDep(p.Own()), rest);
    SetOf(kids);
    assert Read(kids) + [] == Read(kids);
    TakeLinks(p, last, kids, rest, c, parent);
  }

  lemma SetOf(c: seq<Item>)
    ensures forall n :: n in Set(c) <==> n in Nodes(c)
  {
  }

  /** One round of that loop: the sibling is finalized and changes its parent. */
  method TakeOne(p: MenuNode, menu: MenuNode, ghost kids: seq<Item>, ghost rest: seq<Item>, ghost parent: MenuNode?)
    returns (ghost more: seq<Item>, ghost left: seq<Item>)
    requires rest != [] && menu == rest[0].n && p !in Nodes(rest) && p.sym.Some?
    requires BelongsUnder(p.sym.value, BaseDep(p.Own()), KMenu.Condition(menu.Own()))
    requires Row(kids, p, menu) && Row(rest, parent, null) && Distinct(Nodes(kids) + Nodes(rest))
    modifies Set(rest)
    ensures |left| < |rest| && more != [] && more[|more| - 1].n == menu && menu.next == First(left, null)
    ensures Row(more, p, First(left, null)) && Row(left, parent, null)
    ensures Nodes(more) + Nodes(left) == Nodes(kids) + Nodes(rest)
    ensures var a := Absorb(p.sym.value, BaseDep(p.Own()), Read(left));
            var b := old(Absorb(p.sym.value, BaseDep(p.Own()), Read(rest)));
            Read(more) + a.0 == old(Read(kids)) + b.0 && a.1 == b.1
    decreases |Nodes(rest)|, 3
  {
    hide Row, Nodes, Read, Distinct, Finalize, Absorb, BelongsUnder;
    DistinctParts(Nodes(kids), Nodes(rest));
    Allocated(kids);
    HeadInRow(rest);
    AbsorbStep(p.sym.value, BaseDep(p.Own()), rest);
    ghost var d := MenuFinalize(menu, rest, parent);
    RowHead(d, parent, null);
    ReadHead(d);
    Allocated(d[1..]);
    Allocated(d[0].kids);
    ghost var f := Read(d);
    assert f[1..] == Read(d[1..]);
    MoveHead(menu, p, kids, d, parent);
    assert f[1..] == Read(d[1..]);
    Advance(kids, d);
    SingleRow(d[0], null, null);
    ReadConcat(kids, [d[0]]);
    more, left := kids + [d[0]], d[1..];
    Assoc(Read(kids), Read([d[0]]), Absorb(p.sym.value, BaseDep(p.Own()), Read(left)).0);
  }

  /** What follows that loop: the siblings taken in are cut out of the row. */
  method TakeLinks(p: MenuNode, last: MenuNode?, ghost kids: seq<Item>, ghost rest: seq<Item>, ghost c: seq<Item>,
                   ghost parent: MenuNode?)
    requires p.list == null && p.next == First(c, null) && p !in Nodes(c) && Distinct(Nodes(c))
    requires Nodes(kids) + Nodes(rest) == Nodes(c)
    requires Row(kids, p, First(rest, null)) && Row(rest, parent, null)
    requires last == if kids == [] then null else kids[|kids| - 1].n
    modifies p`list, p`next, Set(kids)`next
    ensures p.list == First(kids, null) && p.next == First(rest, null)
    ensures Row(kids, p, null) && Row(rest, parent, null)
    ensures Read(kids) == old(Read(kids)) && Read(rest) == old(Read(rest))
  {
    hide Row, Nodes, Read, Distinct;
    DistinctParts(Nodes(kids), Nodes(rest));
    Allocated(kids);
    Allocated(rest);
    if last != null {
      FirstOfBoth(kids, rest, c);
      LastInRow(kids);
      LastNext(kids, p, First(rest, null));
      p.list := p.next;
      p.next := last.next;
      SetEnd(last, null, kids, p, First(rest, null));
    } else {
      NoItems();
      NoRow(p, null);
      FirstByNodes(rest, c);
    }
  }

  lemma FirstOfBoth(a: seq<Item>, b: seq<Item>, c: seq<Item>)
    requires a != [] && Nodes(a) + Nodes(b) == Nodes(c)
    ensures First(a, null) == First(c, null)
  {
    assert Nodes(a)[0] == a[0].n && (Nodes(a) + Nodes(b))[0] == Nodes(a)[0];
    if c != [] { assert Nodes(c)[0] == c[0].n; }
  }

  lemma LastNext(c: seq<Item>, parent: MenuNode?, end: MenuNode?)
    requires c != [] && Row(c, parent, end)
    ensures c[|c| - 1].n.next == end
  {
    var init, x := c[..|c| - 1], c[|c| - 1];
    assert init + [x] == c;
    RowConcat(init, [x], parent, end);
    SingleRow(x, parent, end);
  }

  lemma AbsorbStop(s: Symbol, base: Option<Expr>, c: seq<Item>)
    requires c == [] || !BelongsUnder(s, base, KMenu.Condition(c[0].n.Own()))
    ensures Absorb(s, base, Read(c)) == ([], Read(c))
  {
  }

  lemma AbsorbStep(s: Symbol, base: Option<Expr>, c: seq<Item>)
    requires c != [] && BelongsUnder(s, base, KMenu.Condition(c[0].n.Own()))
    ensures var f := Finalize(Read(c));
            var a := Absorb(s, base, f[1..]);
            Absorb(s, base, Read(c)) == ([f[0]] + a.0, a.1)
    ensures |Finalize(Read(c))| <= |c|
  {
  }
}
