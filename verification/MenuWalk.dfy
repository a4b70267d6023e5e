/** The walk over the menu tree that writes the configuration (openwrt/scripts/config/
    confdata.c:793-826, and 692-737 for the minimal one): no recursion and no stack, only the
    links of the entries. */
module KMenuWalk {
  import opened KExpr
  import KMenu
  import opened KMenuHeap

  /** An entry the walk is below, and its siblings that are still to come. */
  datatype Level = Level(entry: MenuNode, rest: seq<Item>)

  ghost function Pending(ups: seq<Level>): seq<MenuNode> {
    if ups == [] then [] else Nodes(ups[0].rest) + Pending(ups[1..])
  }

  ghost function PendingSet(ups: seq<Level>): set<MenuNode> {
    if ups == [] then {} else {ups[0].entry} + Set(ups[0].rest) + PendingSet(ups[1..])
  }

  /** The parents from `p` up, with what follows each. */
  ghost predicate Spine(p: MenuNode?, ups: seq<Level>)
    reads PendingSet(ups)
  {
    if ups == [] then p == null
    else
      && p == ups[0].entry && p.next == First(ups[0].rest, null) && (p.next != null ==> p.parent != null)
      && Row(ups[0].rest, p.parent, null) && Spine(p.parent, ups[1..])
  }

  /** Visiting the head of the row leaves what is below it, beside it and above it. */
  lemma Visit(visited: seq<MenuNode>, suf: seq<Item>, up: seq<MenuNode>)
    requires suf != []
    ensures visited + (Nodes(suf) + up)
         == (visited + [suf[0].n]) + (Nodes(suf[0].kids) + (Nodes(suf[1..]) + up))
    ensures suf[0].kids == [] ==>
      visited + (Nodes(suf) + up) == (visited + [suf[0].n]) + (Nodes(suf[1..]) + up)
    ensures suf[0].kids == [] && suf[1..] == [] ==> visited + (Nodes(suf) + up) == (visited + [suf[0].n]) + up
    ensures |Nodes(suf)| == 1 + |Nodes(suf[0].kids)| + |Nodes(suf[1..])|
  {
    NoItems();
    Regroup(visited, [suf[0].n], Nodes(suf[0].kids), Nodes(suf[1..]), up);
  }

  lemma Regroup(v: seq<MenuNode>, a: seq<MenuNode>, b: seq<MenuNode>, c: seq<MenuNode>, up: seq<MenuNode>)
    ensures v + ((a + (b + c)) + up) == (v + a) + (b + (c + up))
    ensures b == [] ==> b + (c + up) == c + up
    ensures b == [] && c == [] ==> b + (c + up) == up
  {
  }

  lemma Descend(menu: MenuNode, rest: seq<Item>, ups: seq<Level>, p: MenuNode)
    requires menu.parent == p && menu.next == First(rest, null) && Row(rest, p, null) && Spine(p, ups)
    ensures Spine(menu, [Level(menu, rest)] + ups) && Pending([Level(menu, rest)] + ups) == Nodes(rest) + Pending(ups)
  {
    var all := [Level(menu, rest)] + ups;
    assert all[1..] == ups && all[0] == Level(menu, rest);
  }

  /** Every entry below the root is visited exactly once, in preorder, and the walk ends. */
  method Walk(root: MenuNode, ghost c: seq<Item>) returns (visited: seq<MenuNode>)
    requires root.parent == null && root.next == null && root.list == First(c, null) && Row(c, root, null)
    ensures visited == Nodes(c)
  {
    NoItems();
    NoRow(null, null);
    visited := [];
    var menu := root.list;
    ghost var suf, ups := c, [Level(root, [])];
    ghost var p: MenuNode? := root;
    assert ups[1..] == [] && Spine(root.parent, ups[1..]);
    hide Nodes, Row, Spine;
    while menu != null
      invariant menu == First(suf, null) && (menu != null ==> p != null) && Row(suf, p, null) && Spine(p, ups)
      invariant visited + (Nodes(suf) + Pending(ups)) == Nodes(c)
      invariant menu == null ==> Pending(ups) == []
      decreases |Nodes(suf)| + |Pending(ups)|
    {
      Visit(visited, suf, Pending(ups));
      RowHead(suf, p, null);
      visited := visited + [menu];
      if menu.list != null {
        Descend(menu, suf[1..], ups, p);
        ups, suf, p, menu := [Level(menu, suf[1..])] + ups, suf[0].kids, menu, menu.list;
      } else if menu.next != null {
        suf, menu := suf[1..], menu.next;
      } else {
        menu, suf, ups, p := Climb(menu, ups);
      }
    }
    assert visited + ([] + []) == visited;
  }

  /** `while ((menu = menu->parent)) if (menu->next) ...` */
  method Climb(from: MenuNode, ghost ups0: seq<Level>)
    returns (menu: MenuNode?, ghost suf: seq<Item>, ghost ups: seq<Level>, ghost p: MenuNode?)
    requires Spine(from.parent, ups0)
    ensures menu == First(suf, null) && (menu != null ==> p != null) && Row(suf, p, null) && Spine(p, ups)
    ensures Nodes(suf) + Pending(ups) == Pending(ups0) && (menu == null ==> Pending(ups) == [])
  {
    menu, suf, ups, p := from.parent, [], ups0, from.parent;
    while menu != null
      invariant menu == p && suf == [] && Spine(p, ups) && Pending(ups) == Pending(ups0)
      decreases |ups|
    {
      if menu.next != null {
        suf, p, ups := ups[0].rest, menu.parent, ups[1..];
        menu := menu.next;
        return;
      }
      p, ups := menu.parent, ups[1..];
      menu := menu.parent;
    }
  }

  /** menu_finalize of the whole tree: the entries keep their preorder, and every one below the
      root is shown exactly when what its declared parent hands down and its own conditions
      are met. */
  method FinalizeRoot(root: MenuNode, ghost c: seq<Item>) returns (ghost d: seq<Item>)
    requires Row([Item(root, c)], null, null) && Distinct(Nodes([Item(root, c)]))
    modifies Set([Item(root, c)])
    ensures Row([Item(root, d)], null, null) && Nodes([Item(root, d)]) == Nodes([Item(root, c)])
    ensures Read([Item(root, d)]) == KMenu.Finalize(old(Read([Item(root, c)])))
    ensures |old(Read([Item(root, c)]))| == |Read([Item(root, d)])| == 1
    ensures var was, now := old(Read([Item(root, c)]))[0], Read([Item(root, d)])[0];
            was.kids != [] && KMenu.Simple(was.info) && KMenu.Declared(was.kids) ==>
              forall env :: WellTyped(env) ==> KMenu.Inherits(was.info, was.kids, KMenu.Infos(now.kids), env)
  {
    hide Row, Nodes, Distinct, KMenu.Finalize, KMenu.Inherits, KMenu.Declared, KMenu.Simple, WellTyped;
    ghost var was := Read([Item(root, c)]);
    ghost var all := MenuFinalize(root, [Item(root, c)], null);
    d := all[0].kids;
    assert |Read(all)| == 1;
    assert all == [Item(root, d)];
    if was[0].kids != [] && KMenu.Simple(was[0].info) && KMenu.Declared(was[0].kids) {
      forall env | WellTyped(env)
        ensures KMenu.Inherits(was[0].info, was[0].kids, KMenu.Infos(Read([Item(root, d)])[0].kids), env)
      {
        KMenu.FinalizeInherits(was, env);
      }
    }
  }

  /** Finalizing the whole tree and then writing it out meets the entries in the order in
      which they were declared. */
  method FinalizeThenWalk(root: MenuNode, ghost c: seq<Item>) returns (visited: seq<MenuNode>)
    requires Row([Item(root, c)], null, null) && Distinct(Nodes([Item(root, c)]))
    modifies Set([Item(root, c)])
    ensures visited == Nodes(c)
  {
    hide Row, Nodes, Distinct, KMenu.Finalize, KMenu.Inherits;
    ghost var d := FinalizeRoot(root, c);
    SingleRow(Item(root, c), null, null);
    SingleRow(Item(root, d), null, null);
    visited := Walk(root, d);
    assert Nodes(c) == ([root] + Nodes(c))[1..];
  }
}
