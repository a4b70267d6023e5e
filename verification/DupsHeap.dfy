/** expr_eliminate_dups1 and expr_eliminate_dups on linked nodes (expr.c:519-592).  Both
    pointer arguments walk the same tree, so operands are told apart by the slots
    that hold them, and slots by the position of the operand in the spine. */
module KDupsHeap {
  import opened KExpr
  import opened KEliminateEq
  import opened KDups
  import opened KExprHeap

  // ------------------------------------------------- rows and columns

  lemma {:induction false} RowsSplit(op: BinOp, ls: seq<Expr>, i: nat, mid: nat, iEnd: nat, j: nat, jEnd: nat)
    requires i <= mid <= iEnd <= |ls| && j <= jEnd <= |ls| && NoneIsNode(op, ls)
    ensures var a := DupsRows(op, ls, i, mid, j, jEnd);
            var b := DupsRows(op, a.leaves, mid, iEnd, j, jEnd);
            DupsRows(op, ls, i, iEnd, j, jEnd) == Run(b.leaves, a.count + b.count)
    decreases mid - i
  {
    hide DupsRow;
    if i < mid {
      RowsSplit(op, DupsRow(op, ls, i, j, jEnd).leaves, i + 1, mid, iEnd, j, jEnd);
    }
  }

  lemma {:induction false} RowSplit(op: BinOp, ls: seq<Expr>, i: nat, j: nat, mid: nat, jEnd: nat)
    requires i < |ls| && j <= mid <= jEnd <= |ls| && NoneIsNode(op, ls)
    ensures var a := DupsRow(op, ls, i, j, mid);
            var b := DupsRow(op, a.leaves, i, mid, jEnd);
            DupsRow(op, ls, i, j, jEnd) == Run(b.leaves, a.count + b.count)
    decreases mid - j
  {
    hide DupsPair;
    if j < mid {
      if i == j {
        RowSplit(op, ls, i, j + 1, mid, jEnd);
      } else {
        RowSplit(op, DupsPair(op, ls, i, j).leaves, i, j + 1, mid, jEnd);
      }
    }
  }

  lemma OneRow(op: BinOp, ls: seq<Expr>, i: nat, j: nat, jEnd: nat)
    requires i < |ls| && j <= jEnd <= |ls| && NoneIsNode(op, ls)
    ensures DupsRows(op, ls, i, i + 1, j, jEnd) == DupsRow(op, ls, i, j, jEnd)
  {
    hide DupsRow;
  }

  lemma OnePair(op: BinOp, ls: seq<Expr>, i: nat, j: nat)
    requires i < |ls| && j < |ls| && NoneIsNode(op, ls)
    ensures DupsRows(op, ls, i, i + 1, j, j + 1) == if i == j then Run(ls, 0) else DupsPair(op, ls, i, j)
  {
    hide DupsPair;
    OneRow(op, ls, i, j, j + 1);
  }

  // ---------------------------------------------------- spines and slots

  /** The AND/OR nodes of a spine; operands are End. */
  datatype Skel = End | Fork(n: Node, left: Skel, right: Skel)

  ghost function SkelOf(op: BinOp, s: Shape): Skel {
    if s.SBin? && s.op == op then Fork(s.n, SkelOf(op, s.left), SkelOf(op, s.right)) else End
  }

  ghost function Width(k: Skel): (w: nat)
    ensures w >= 1
    ensures k.Fork? ==> w >= 2
  {
    if k.End? then 1 else Width(k.left) + Width(k.right)
  }

  ghost function LeafShapes(op: BinOp, s: Shape): (ls: seq<Shape>)
    ensures |ls| == Width(SkelOf(op, s))
  {
    if s.SBin? && s.op == op then LeafShapes(op, s.left) + LeafShapes(op, s.right) else [s]
  }

  /** A pointer to a pointer: a local variable, or a member of a node. */
  datatype Slot = Local(e: Node) | Field(holder: Node, isLeft: bool)

  function Target(p: Slot): Node?
    reads if p.Field? then {p.holder} else {}
  {
    match p
    case Local(e) => e
    case Field(h, isLeft) => if isLeft then h.left else h.right
  }

  /** `p` is a member of a spine node and holds the operands lo, ..., hi-1, counting the
      first one of `k` as `base`. */
  ghost predicate SlotAt(k: Skel, base: nat, p: Slot, lo: nat, hi: nat) {
    k.Fork? &&
    var mid := base + Width(k.left);
    || (p == Field(k.n, true) && lo == base && hi == mid)
    || (p == Field(k.n, false) && lo == mid && hi == base + Width(k))
    || SlotAt(k.left, base, p, lo, hi)
    || SlotAt(k.right, mid, p, lo, hi)
  }

  /** Likewise, or a local variable that holds the whole spine. */
  ghost predicate Covers(op: BinOp, root: Shape, p: Slot, lo: nat, hi: nat) {
    var k := SkelOf(op, root);
    (p == Local(root.n) && lo == 0 && hi == Width(k)) || SlotAt(k, 0, p, lo, hi)
  }

  lemma {:induction false} SlotRange(k: Skel, base: nat, p: Slot, lo: nat, hi: nat)
    requires SlotAt(k, base, p, lo, hi)
    ensures base <= lo < hi <= base + Width(k) && p.Field?
  {
    if SlotAt(k.left, base, p, lo, hi) {
      SlotRange(k.left, base, p, lo, hi);
    } else if SlotAt(k.right, base + Width(k.left), p, lo, hi) {
      SlotRange(k.right, base + Width(k.left), p, lo, hi);
    }
  }

  /** What a slot of a spine points to: a spine node, whose members split the operands,
      or an operand. */
  lemma {:induction false} SlotContent(op: BinOp, s: Shape, base: nat, p: Slot, lo: nat, hi: nat) returns (mid: nat)
    requires Valid(s) && SlotAt(SkelOf(op, s), base, p, lo, hi)
    ensures p.Field? && p.holder in Nodes(s) && base <= lo < hi <= base + Width(SkelOf(op, s))
    ensures Target(p) != null && Target(p) in Nodes(s)
    ensures Target(p).typ == OpType(op) ==>
              && lo < mid < hi
              && SlotAt(SkelOf(op, s), base, Field(Target(p), true), lo, mid)
              && SlotAt(SkelOf(op, s), base, Field(Target(p), false), mid, hi)
    ensures Target(p).typ != OpType(op) ==> hi == lo + 1 && Target(p) == LeafShapes(op, s)[lo - base].n
  {
    hide Valid, Tree, Nodes, Width;
    OpenBin(s);
    SlotRange(SkelOf(op, s), base, p, lo, hi);
    var m := base + Width(SkelOf(op, s.left));
    WidthParts(SkelOf(op, s));
    if SlotAt(SkelOf(op, s.left), base, p, lo, hi) {
      SlotRange(SkelOf(op, s.left), base, p, lo, hi);
      mid := SlotContent(op, s.left, base, p, lo, hi);
    } else if SlotAt(SkelOf(op, s.right), m, p, lo, hi) {
      SlotRange(SkelOf(op, s.right), m, p, lo, hi);
      mid := SlotContent(op, s.right, m, p, lo, hi);
    } else if p == Field(s.n, true) && hi == m {
      mid := OperandSplit(op, s.left, base);
    } else {
      mid := OperandSplit(op, s.right, m);
    }
  }

  lemma WidthParts(k: Skel)
    ensures k.Fork? ==> Width(k) == Width(k.left) + Width(k.right)
  {
  }

  lemma OperandSplit(op: BinOp, s: Shape, base: nat) returns (mid: nat)
    requires Valid(s)
    ensures s.n in Nodes(s)
    ensures s.n.typ == OpType(op) ==>
              var hi := base + Width(SkelOf(op, s));
              && base < mid < hi
              && SlotAt(SkelOf(op, s), base, Field(s.n, true), base, mid)
              && SlotAt(SkelOf(op, s), base, Field(s.n, false), mid, hi)
    ensures s.n.typ != OpType(op) ==> SkelOf(op, s) == End && LeafShapes(op, s) == [s]
  {
    Open(s);
    mid := base + if SkelOf(op, s).Fork? then Width(SkelOf(op, s).left) else 0;
  }

  /** The operands in memory are the operands of the tree. */
  lemma {:induction false} LeavesInMemory(op: BinOp, s: Shape)
    requires Valid(s)
    ensures |Leaves(op, Tree(s))| == |LeafShapes(op, s)|
    ensures forall i :: 0 <= i < |LeafShapes(op, s)| ==>
              && Leaves(op, Tree(s))[i] == Tree(LeafShapes(op, s)[i])
              && Valid(LeafShapes(op, s)[i])
              && Nodes(LeafShapes(op, s)[i]) <= Nodes(s)
              && SkelOf(op, LeafShapes(op, s)[i]) == End
  {
    hide Valid, Tree, Nodes;
    if s.SBin? && s.op == op {
      OpenBin(s);
      LeavesInMemory(op, s.left);
      LeavesInMemory(op, s.right);
      assert Leaves(op, Tree(s)) == Leaves(op, Tree(s.left)) + Leaves(op, Tree(s.right));
    } else {
      Open(s);
    }
  }

  // --------------------------------------------------- replacing an operand

  lemma {:induction false} LeafSubset(op: BinOp, s: Shape, i: nat)
    requires i < |LeafShapes(op, s)|
    ensures Nodes(LeafShapes(op, s)[i]) <= Nodes(s)
  {
    if s.SBin? && s.op == op {
      var m := |LeafShapes(op, s.left)|;
      if i < m { LeafSubset(op, s.left, i); } else { LeafSubset(op, s.right, i - m); }
    }
  }

  lemma {:induction false} HolderInside(op: BinOp, s: Shape, base: nat, p: Slot, lo: nat, hi: nat)
    requires SlotAt(SkelOf(op, s), base, p, lo, hi)
    ensures p.Field? && p.holder in Nodes(s)
  {
    var m := base + Width(SkelOf(op, s.left));
    if SlotAt(SkelOf(op, s.left), base, p, lo, hi) {
      HolderInside(op, s.left, base, p, lo, hi);
    } else if SlotAt(SkelOf(op, s.right), m, p, lo, hi) {
      HolderInside(op, s.right, m, p, lo, hi);
    }
  }

  ghost function ReplaceLeaf(op: BinOp, s: Shape, i: nat, x: Shape): Shape
    requires i < Width(SkelOf(op, s))
  {
    if s.SBin? && s.op == op then
      var m := Width(SkelOf(op, s.left));
      if i < m then SBin(s.n, s.op, ReplaceLeaf(op, s.left, i, x), s.right)
      else SBin(s.n, s.op, s.left, ReplaceLeaf(op, s.right, i - m, x))
    else x
  }

  twostate lemma {:induction false} NodesWereAllocated(s: Shape)
    ensures forall n :: n in Nodes(s) ==> old(allocated(n))
  {
    match s
    case SLeaf(_) =>
    case SNot(_, a) => NodesWereAllocated(a);
    case SBin(_, _, l, r) => NodesWereAllocated(l); NodesWereAllocated(r);
  }

  twostate lemma WasBin(s: Shape)
    requires old(Valid(s)) && s.SBin?
    ensures old(Links(s.n, s.op, s.left, s.right)) && Nodes(s) == {s.n} + Nodes(s.left) + Nodes(s.right)
    ensures old(Tree(s)) == Bin(s.op, old(Tree(s.left)), old(Tree(s.right)))
    ensures forall n :: n in Nodes(s) ==> old(allocated(n))
  {
    NodesWereAllocated(s);
  }

  /** `r` is `s`, whose operands were `before`, with operand `i` replaced by `x`. */
  ghost predicate Replaced(op: BinOp, s: Shape, before: seq<Expr>, i: nat, x: Shape, r: Shape)
    reads Nodes(r), Nodes(x)
  {
    && Valid(r) && SkelOf(op, r) == SkelOf(op, s) && (SkelOf(op, s).Fork? ==> r.n == s.n)
    && (forall n :: n in Nodes(r) ==> n in Nodes(s) || n in Nodes(x))
    && i < |before|
    && Leaves(op, Tree(r)) == before[i := Tree(x)]
  }

  lemma OneOperand(op: BinOp, s: Shape)
    requires Valid(s) && SkelOf(op, s) == End
    ensures Leaves(op, Tree(s)) == [Tree(s)] && LeafShapes(op, s) == [s] && !IsNode(op, Tree(s))
  {
  }

  lemma SlotOnTheLeft(k: Skel, base: nat, p: Slot, i: nat)
    requires SlotAt(k, base, p, base + i, base + i + 1) && i < Width(k.left)
    ensures SlotAt(k.left, base, p, base + i, base + i + 1) || (p == Field(k.n, true) && i == 0 && k.left == End)
  {
    if SlotAt(k.right, base + Width(k.left), p, base + i, base + i + 1) {
      SlotRange(k.right, base + Width(k.left), p, base + i, base + i + 1);
    }
  }

  lemma SlotOnTheRight(k: Skel, base: nat, p: Slot, i: nat)
    requires SlotAt(k, base, p, base + i, base + i + 1) && i >= Width(k.left)
    ensures var m := Width(k.left);
            || SlotAt(k.right, base + m, p, base + i, base + i + 1)
            || (p == Field(k.n, false) && i == m && k.right == End)
  {
    if SlotAt(k.left, base, p, base + i, base + i + 1) {
      SlotRange(k.left, base, p, base + i, base + i + 1);
    }
  }

  lemma {:induction false} LeafCount(op: BinOp, s: Shape)
    requires Valid(s)
    ensures |Leaves(op, Tree(s))| == Width(SkelOf(op, s))
  {
    LeavesInMemory(op, s);
  }

  /** The left half was replaced and the rest of the node is as it was. */
  twostate lemma AttachLeft(new op: BinOp, new s: Shape, new i: nat, new x: Shape, new l: Shape)
    requires old(allocated(s))
    requires old(Valid(s)) && s.SBin? && s.op == op && i < Width(SkelOf(op, s.left))
    requires l.n == s.n.left && Replaced(op, s.left, old(Leaves(op, Tree(s.left))), i, x, l)
    requires s.n.typ == old(s.n.typ) && s.n.right == old(s.n.right)
    requires forall n :: n in Nodes(s.right) && old(allocated(n)) ==> unchanged(n)
    requires forall n :: n in Nodes(x) ==> n in Nodes(s.left) || n !in Nodes(s)
    ensures Replaced(op, s, old(Leaves(op, Tree(s))), i, x, SBin(s.n, op, l, s.right))
  {
    hide Valid, Tree, Nodes;
    WasBin(s);
    var r := s.right;
    assert Valid(r) && Tree(r) == old(Tree(r));
    CloseBin(s.n, op, l, r);
    var L, R := old(Leaves(op, Tree(s.left))), old(Leaves(op, Tree(r)));
    assert old(Leaves(op, Tree(s))) == L + R;
    assert (L + R)[i := Tree(x)] == L[i := Tree(x)] + R;
  }

  twostate lemma AttachRight(new op: BinOp, new s: Shape, new j: nat, new x: Shape, new r: Shape)
    requires old(allocated(s))
    requires old(Valid(s)) && s.SBin? && s.op == op && j < Width(SkelOf(op, s.right))
    requires r.n == s.n.right && Replaced(op, s.right, old(Leaves(op, Tree(s.right))), j, x, r)
    requires s.n.typ == old(s.n.typ) && s.n.left == old(s.n.left)
    requires forall n :: n in Nodes(s.left) && old(allocated(n)) ==> unchanged(n)
    requires forall n :: n in Nodes(x) ==> n in Nodes(s.right) || n !in Nodes(s)
    ensures Replaced(op, s, old(Leaves(op, Tree(s))), Width(SkelOf(op, s.left)) + j, x, SBin(s.n, op, s.left, r))
  {
    hide Valid, Tree, Nodes;
    WasBin(s);
    var l := s.left;
    assert Valid(l) && Tree(l) == old(Tree(l));
    CloseBin(s.n, op, l, r);
    var L, R := old(Leaves(op, Tree(l))), old(Leaves(op, Tree(s.right)));
    assert old(Leaves(op, Tree(s))) == L + R;
    LeafCount(op, l);
    assert (L + R)[|L| + j := Tree(x)] == L + R[j := Tree(x)];
  }

  /** An operand standing alone. */
  twostate lemma OperandReplaced(new op: BinOp, new s: Shape, new x: Shape)
    requires old(allocated(s))
    requires old(Valid(s)) && SkelOf(op, s) == End
    requires Valid(x) && SkelOf(op, x) == End
    ensures Replaced(op, s, old(Leaves(op, Tree(s))), 0, x, x)
  {
    OneOperand(op, x);
  }

  /** Writing another operand through the slot of operand `i` gives the tree in which
      that operand is replaced. */
  twostate lemma {:induction false} LeafReplaced(
    new op: BinOp, new s: Shape, new base: nat, new p: Slot, new i: nat, new x: Shape)
    requires old(allocated(s)) && old(allocated(p))
    requires old(Valid(s)) && i < Width(SkelOf(op, s)) && SlotAt(SkelOf(op, s), base, p, base + i, base + i + 1)
    requires Valid(x) && SkelOf(op, x) == End && p.Field? && Target(p) == x.n
    requires forall n :: n in Nodes(x) ==> n in Nodes(LeafShapes(op, s)[i]) || n !in Nodes(s)
    requires forall n :: n in Nodes(s) && n !in Nodes(LeafShapes(op, s)[i]) && n != p.holder && old(allocated(n)) ==>
                           unchanged(n)
    requires p.holder.typ == old(p.holder.typ)
    requires p.isLeft ==> p.holder.right == old(p.holder.right)
    requires !p.isLeft ==> p.holder.left == old(p.holder.left)
    ensures Replaced(op, s, old(Leaves(op, Tree(s))), i, x, ReplaceLeaf(op, s, i, x))
    decreases s, 2
  {
    hide Valid, Tree, Nodes, Replaced;
    if i < Width(SkelOf(op, s.left)) {
      LeafReplacedLeft(op, s, base, p, i, x);
    }
    if i >= Width(SkelOf(op, s.left)) {
      LeafReplacedRight(op, s, base, p, i, x);
    }
  }

  twostate lemma {:induction false} LeafReplacedLeft(
    new op: BinOp, new s: Shape, new base: nat, new p: Slot, new i: nat, new x: Shape)
    requires old(allocated(s)) && old(allocated(p))
    requires old(Valid(s)) && i < Width(SkelOf(op, s)) && SlotAt(SkelOf(op, s), base, p, base + i, base + i + 1)
    requires s.SBin? && s.op == op && i < Width(SkelOf(op, s.left))
    requires Valid(x) && SkelOf(op, x) == End && p.Field? && Target(p) == x.n
    requires forall n :: n in Nodes(x) ==> n in Nodes(LeafShapes(op, s)[i]) || n !in Nodes(s)
    requires forall n :: n in Nodes(s) && n !in Nodes(LeafShapes(op, s)[i]) && n != p.holder && old(allocated(n)) ==>
                           unchanged(n)
    requires p.holder.typ == old(p.holder.typ)
    requires p.isLeft ==> p.holder.right == old(p.holder.right)
    requires !p.isLeft ==> p.holder.left == old(p.holder.left)
    ensures Replaced(op, s, old(Leaves(op, Tree(s))), i, x, ReplaceLeaf(op, s, i, x))
    decreases s, 0
  {
    hide Valid, Tree, Nodes, Replaced;
    WasBin(s);
    var l := s.left;
    SlotOnTheLeft(SkelOf(op, s), base, p, i);
    LeafSubset(op, l, i);
    assert LeafShapes(op, s)[i] == LeafShapes(op, l)[i];
    hide SlotAt;
    if SlotAt(SkelOf(op, l), base, p, base + i, base + i + 1) {
      HolderInside(op, l, base, p, base + i, base + i + 1);
      LeafReplaced(op, l, base, p, i, x);
    } else {
      OperandReplaced(op, l, x);
    }
    AttachLeft(op, s, i, x, ReplaceLeaf(op, l, i, x));
  }

  twostate lemma {:induction false} LeafReplacedRight(
    new op: BinOp, new s: Shape, new base: nat, new p: Slot, new i: nat, new x: Shape)
    requires old(allocated(s)) && old(allocated(p))
    requires old(Valid(s)) && i < Width(SkelOf(op, s)) && SlotAt(SkelOf(op, s), base, p, base + i, base + i + 1)
    requires s.SBin? && s.op == op && i >= Width(SkelOf(op, s.left))
    requires Valid(x) && SkelOf(op, x) == End && p.Field? && Target(p) == x.n
    requires forall n :: n in Nodes(x) ==> n in Nodes(LeafShapes(op, s)[i]) || n !in Nodes(s)
    requires forall n :: n in Nodes(s) && n !in Nodes(LeafShapes(op, s)[i]) && n != p.holder && old(allocated(n)) ==>
                           unchanged(n)
    requires p.holder.typ == old(p.holder.typ)
    requires p.isLeft ==> p.holder.right == old(p.holder.right)
    requires !p.isLeft ==> p.holder.left == old(p.holder.left)
    ensures Replaced(op, s, old(Leaves(op, Tree(s))), i, x, ReplaceLeaf(op, s, i, x))
    decreases s, 1
  {
    hide Valid, Tree, Nodes, Replaced, SlotAt;
    WasBin(s);
    var j := i - Width(SkelOf(op, s.left));
    RightHalfReplaced(op, s, base, p, i, x);
    LeftHalfKept(op, s, base, p, i, x);
    LeafSubset(op, s.right, j);
    assert LeafShapes(op, s)[i] == LeafShapes(op, s.right)[j];
    AttachRight(op, s, j, x, ReplaceLeaf(op, s.right, j, x));
  }

  /** The part of LeafReplacedRight that concerns the right operand. */
  twostate lemma {:induction false} RightHalfReplaced(
    new op: BinOp, new s: Shape, new base: nat, new p: Slot, new i: nat, new x: Shape)
    requires old(allocated(s)) && old(allocated(p))
    requires old(Valid(s)) && i < Width(SkelOf(op, s)) && SlotAt(SkelOf(op, s), base, p, base + i, base + i + 1)
    requires s.SBin? && s.op == op && i >= Width(SkelOf(op, s.left))
    requires Valid(x) && SkelOf(op, x) == End && p.Field? && Target(p) == x.n
    requires forall n :: n in Nodes(x) ==> n in Nodes(LeafShapes(op, s)[i]) || n !in Nodes(s)
    requires forall n :: n in Nodes(s) && n !in Nodes(LeafShapes(op, s)[i]) && n != p.holder && old(allocated(n)) ==>
                           unchanged(n)
    requires p.holder.typ == old(p.holder.typ)
    requires p.isLeft ==> p.holder.right == old(p.holder.right)
    requires !p.isLeft ==> p.holder.left == old(p.holder.left)
    ensures var j := i - Width(SkelOf(op, s.left));
            Replaced(op, s.right, old(Leaves(op, Tree(s.right))), j, x, ReplaceLeaf(op, s.right, j, x))
    decreases s, 0
  {
    hide Valid, Tree, Nodes, Replaced, SlotAt;
    WasBin(s);
    var r, m := s.right, Width(SkelOf(op, s.left));
    var j := i - m;
    assert (base + m) + j == base + i;
    SlotOnTheRight(SkelOf(op, s), base, p, i);
    LeafSubset(op, r, j);
    assert LeafShapes(op, s)[i] == LeafShapes(op, r)[j];
    if SlotAt(SkelOf(op, r), base + m, p, base + i, base + i + 1) {
      LeafReplaced(op, r, base + m, p, j, x);
    } else {
      OperandReplaced(op, r, x);
    }
  }

  /** And the part that concerns the root and the left operand, which stay. */
  twostate lemma {:induction false} LeftHalfKept(
    new op: BinOp, new s: Shape, new base: nat, new p: Slot, new i: nat, new x: Shape)
    requires old(allocated(s)) && old(allocated(p))
    requires old(Valid(s)) && i < Width(SkelOf(op, s)) && SlotAt(SkelOf(op, s), base, p, base + i, base + i + 1)
    requires s.SBin? && s.op == op && i >= Width(SkelOf(op, s.left))
    requires p.Field? && Target(p) == x.n
    requires forall n :: n in Nodes(s) && n !in Nodes(LeafShapes(op, s)[i]) && n != p.holder && old(allocated(n)) ==>
                           unchanged(n)
    requires p.holder.typ == old(p.holder.typ)
    requires p.isLeft ==> p.holder.right == old(p.holder.right)
    requires !p.isLeft ==> p.holder.left == old(p.holder.left)
    ensures s.n.typ == old(s.n.typ) && s.n.left == old(s.n.left)
    ensures s.n.right == ReplaceLeaf(op, s.right, i - Width(SkelOf(op, s.left)), x).n
    ensures forall n :: n in Nodes(s.left) && old(allocated(n)) ==> unchanged(n)
  {
    hide Valid, Tree, Nodes, SlotAt;
    WasBin(s);
    var r, m := s.right, Width(SkelOf(op, s.left));
    var j := i - m;
    assert (base + m) + j == base + i;
    SlotOnTheRight(SkelOf(op, s), base, p, i);
    LeafSubset(op, r, j);
    assert LeafShapes(op, s)[i] == LeafShapes(op, r)[j];
    if SlotAt(SkelOf(op, r), base + m, p, base + i, base + i + 1) {
      HolderInside(op, r, base + m, p, base + i, base + i + 1);
      SpineRoot(op, r, base + m, p, j);
    }
  }

  /** Where a slot is, there is a spine, and replacing an operand keeps its root. */
  lemma SpineRoot(op: BinOp, r: Shape, base: nat, p: Slot, j: nat)
    requires SlotAt(SkelOf(op, r), base, p, base + j, base + j + 1)
    ensures r.SBin? && r.op == op
  {
  }

  // ------------------------------------------------------------- the pass

  /** `s'` is a spine over the same nodes as `s`. */
  ghost predicate SameSpine(op: BinOp, s: Shape, s': Shape)
    reads Nodes(s')
  {
    && Valid(s') && s'.n == s.n && s.SBin? && s'.SBin? && s.op == op && s'.op == op
    && SkelOf(op, s') == SkelOf(op, s)
  }

  ghost predicate Spine(op: BinOp, s: Shape)
    reads Nodes(s)
  {
    Valid(s) && s.SBin? && s.op == op
  }

  /** *ep = n */
  method SetSlot(p: Slot, n: Node)
    requires p.Field?
    modifies p.holder
    ensures Target(p) == n && p.holder.typ == old(p.holder.typ)
    ensures p.isLeft ==> p.holder.right == old(p.holder.right)
    ensures !p.isLeft ==> p.holder.left == old(p.holder.left)
  {
    if p.isLeft { p.holder.left := n; } else { p.holder.right := n; }
  }

  /** The slot of an operand is no part of the operand. */
  lemma {:induction false} HolderOutside(op: BinOp, s: Shape, base: nat, p: Slot, i: nat)
    requires Valid(s) && i < |LeafShapes(op, s)| && SlotAt(SkelOf(op, s), base, p, base + i, base + i + 1)
    ensures p.Field? && p.holder in Nodes(s) && p.holder !in Nodes(LeafShapes(op, s)[i])
    decreases s, 1
  {
    hide Valid, Tree, Nodes, SlotAt;
    OpenSpine(op, s, base, p, i);
    HolderInside(op, s, base, p, base + i, base + i + 1);
    if i < Width(SkelOf(op, s.left)) {
      HolderOutsideLeft(op, s, base, p, i);
    } else {
      HolderOutsideRight(op, s, base, p, i);
    }
  }

  lemma OpenSpine(op: BinOp, s: Shape, base: nat, p: Slot, i: nat)
    requires Valid(s) && i < |LeafShapes(op, s)| && SlotAt(SkelOf(op, s), base, p, base + i, base + i + 1)
    ensures s.SBin? && s.op == op && Links(s.n, op, s.left, s.right)
    ensures Nodes(s) == {s.n} + Nodes(s.left) + Nodes(s.right)
  {
    hide Valid, Tree, Nodes;
    OpenBin(s);
  }

  lemma {:induction false} HolderOutsideLeft(op: BinOp, s: Shape, base: nat, p: Slot, i: nat)
    requires s.SBin? && s.op == op && Links(s.n, op, s.left, s.right)
    requires i < Width(SkelOf(op, s.left)) && SlotAt(SkelOf(op, s), base, p, base + i, base + i + 1)
    ensures p.Field? && p.holder !in Nodes(LeafShapes(op, s)[i])
    decreases s, 0
  {
    hide Valid, Tree, Nodes, SlotAt;
    SlotOnTheLeft(SkelOf(op, s), base, p, i);
    LeafSubset(op, s.left, i);
    if SlotAt(SkelOf(op, s.left), base, p, base + i, base + i + 1) { HolderOutside(op, s.left, base, p, i); }
  }

  lemma {:induction false} HolderOutsideRight(op: BinOp, s: Shape, base: nat, p: Slot, i: nat)
    requires s.SBin? && s.op == op && Links(s.n, op, s.left, s.right)
    requires Width(SkelOf(op, s.left)) <= i < |LeafShapes(op, s)|
    requires SlotAt(SkelOf(op, s), base, p, base + i, base + i + 1)
    ensures p.Field? && p.holder !in Nodes(LeafShapes(op, s)[i])
    decreases s, 0
  {
    hide Valid, Tree, Nodes, SlotAt;
    var r, m := s.right, Width(SkelOf(op, s.left));
    var j := i - m;
    assert (base + m) + j == base + i && LeafShapes(op, s)[i] == LeafShapes(op, r)[j];
    SlotOnTheRight(SkelOf(op, s), base, p, i);
    LeafSubset(op, r, j);
    if SlotAt(SkelOf(op, r), base + m, p, base + i, base + i + 1) { HolderOutside(op, r, base + m, p, j); }
  }

  /** Overwrites the slot of operand `i`. */
  method ReplaceOperand(op: BinOp, p: Slot, ghost s: Shape, ghost i: nat, n: Node, ghost x: Shape)
    returns (ghost s': Shape)
    requires Spine(op, s) && i < Width(SkelOf(op, s)) && SlotAt(SkelOf(op, s), 0, p, i, i + 1)
    requires Valid(x) && x.n == n && SkelOf(op, x) == End && Nodes(x) !! Nodes(s)
    modifies Nodes(s)
    ensures SameSpine(op, s, s') && (forall m :: m in Nodes(s') ==> m in Nodes(s) || m in Nodes(x))
    ensures i < |old(Leaves(op, Tree(s)))|
    ensures Leaves(op, Tree(s')) == old(Leaves(op, Tree(s)))[i := old(Tree(x))]
  {
    hide Valid, Tree, Nodes, SlotAt;
    NodesAllocated(s);
    NodesAllocated(x);
    HolderOutside(op, s, 0, p, i);
    SetSlot(p, n);
    LeafReplaced(op, s, 0, p, i, x);
    s' := ReplaceLeaf(op, s, i, x);
  }

  /** A tree matches a skeleton when its spine has that form. */
  ghost predicate Matches(op: BinOp, e: Expr, k: Skel) {
    if k.End? then !IsNode(op, e) else IsNode(op, e) && Matches(op, e.left, k.left) && Matches(op, e.right, k.right)
  }

  lemma {:induction false} TreeMatches(op: BinOp, s: Shape)
    requires Valid(s)
    ensures Matches(op, Tree(s), SkelOf(op, s))
  {
    if SkelOf(op, s).Fork? {
      TreeMatches(op, s.left);
      TreeMatches(op, s.right);
    }
  }

  lemma {:induction false} MatchesWidth(op: BinOp, e: Expr, k: Skel)
    requires Matches(op, e, k)
    ensures |Leaves(op, e)| == Width(k)
  {
    if k.Fork? { MatchesWidth(op, e.left, k.left); MatchesWidth(op, e.right, k.right); }
  }

  /** Trees of the same spine differ in their operands only. */
  lemma {:induction false} RebuildFromOperands(op: BinOp, e: Expr, e': Expr, k: Skel)
    requires Matches(op, e, k) && Matches(op, e', k)
    ensures |Leaves(op, e')| == |Leaves(op, e)| && Rebuild(op, e, Leaves(op, e')) == e'
  {
    MatchesWidth(op, e, k);
    MatchesWidth(op, e', k);
    if k.Fork? {
      MatchesWidth(op, e.left, k.left);
      MatchesWidth(op, e'.left, k.left);
      var L, R := Leaves(op, e'.left), Leaves(op, e'.right);
      assert (L + R)[..|L|] == L && (L + R)[|L|..] == R;
      RebuildFromOperands(op, e.left, e'.left, k.left);
      RebuildFromOperands(op, e.right, e'.right, k.right);
    }
  }

  lemma SpineFacts(op: BinOp, s: Shape)
    requires Spine(op, s)
    ensures IsNode(op, Tree(s)) && |Leaves(op, Tree(s))| == Width(SkelOf(op, s)) == |LeafShapes(op, s)|
    ensures NoneIsNode(op, Leaves(op, Tree(s)))
    ensures Size(Tree(s)) == TotalSize(Leaves(op, Tree(s))) + |Leaves(op, Tree(s))| - 1
  {
    LeafCount(op, s);
    LeavesAreLeaves(op, Tree(s));
    SizeIsTotal(op, Tree(s));
  }

  /** expr_eliminate_dups1(e->type, &e, &e) */
  method PassInPlace(e: Node, ghost s: Shape) returns (count: nat, ghost s': Shape)
    requires Valid(s) && s.n == e && s.SBin?
    modifies Nodes(s)
    ensures Spine(s.op, s') && s'.n == e
    ensures forall n :: n in Nodes(s') && n !in Nodes(s) ==> fresh(n)
    ensures DupsPass(old(Tree(s))) == Counted(Tree(s'), count)
    decreases Size(Tree(s)), 4
  {
    hide Valid, Tree, Nodes, DupsRows;
    ghost var v := Tree(s);
    Open(s);
    var op := if e.typ.EAnd? then OpAnd else OpOr;
    ghost var w := Width(SkelOf(op, s));
    SpineFacts(op, s);
    TreeMatches(op, s);
    count, s' := DupsInPlace(op, Local(e), Local(e), s, 0, w, 0, w);
    TreeMatches(op, s');
    RebuildFromOperands(op, v, Tree(s'), SkelOf(op, s));
  }

  /** The operands after a pass over part of the position pairs, and its count. */
  ghost predicate PassResult(op: BinOp, before: seq<Expr>, lo1: nat, hi1: nat, lo2: nat, hi2: nat,
                             after: seq<Expr>, count: nat) {
    && lo1 <= hi1 <= |before| && lo2 <= hi2 <= |before| && NoneIsNode(op, before)
    && DupsRows(op, before, lo1, hi1, lo2, hi2) == Run(after, count)
  }

  lemma PassShrinks(op: BinOp, before: seq<Expr>, lo1: nat, hi1: nat, lo2: nat, hi2: nat, after: seq<Expr>, count: nat)
    requires PassResult(op, before, lo1, hi1, lo2, hi2, after, count)
    ensures |after| == |before| && TotalSize(after) <= TotalSize(before) && NoneIsNode(op, after)
  {
    hide DupsRows;
  }

  lemma ChainRows(op: BinOp, x: seq<Expr>, lo1: nat, mid: nat, hi1: nat, lo2: nat, hi2: nat,
                  y: seq<Expr>, c: nat, z: seq<Expr>, d: nat)
    requires PassResult(op, x, lo1, mid, lo2, hi2, y, c) && PassResult(op, y, mid, hi1, lo2, hi2, z, d)
    ensures PassResult(op, x, lo1, hi1, lo2, hi2, z, c + d)
  {
    hide DupsRows;
    PassShrinks(op, x, lo1, mid, lo2, hi2, y, c);
    RowsSplit(op, x, lo1, mid, hi1, lo2, hi2);
  }

  lemma ChainColumns(op: BinOp, x: seq<Expr>, i: nat, lo2: nat, mid: nat, hi2: nat,
                     y: seq<Expr>, c: nat, z: seq<Expr>, d: nat)
    requires PassResult(op, x, i, i + 1, lo2, mid, y, c) && PassResult(op, y, i, i + 1, mid, hi2, z, d)
    ensures PassResult(op, x, i, i + 1, lo2, hi2, z, c + d)
  {
    hide DupsRows, DupsRow;
    PassShrinks(op, x, i, i + 1, lo2, mid, y, c);
    OneRow(op, x, i, lo2, mid);
    OneRow(op, y, i, mid, hi2);
    OneRow(op, x, i, lo2, hi2);
    RowSplit(op, x, i, lo2, mid, hi2);
  }

  /** What a slot that covers operands lo, ..., hi-1 points to. */
  lemma CoversContent(op: BinOp, s: Shape, p: Slot, lo: nat, hi: nat) returns (mid: nat)
    requires Spine(op, s) && Covers(op, s, p, lo, hi)
    ensures lo < hi <= Width(SkelOf(op, s)) && Target(p) != null && Target(p) in Nodes(s)
    ensures Target(p).typ == OpType(op) ==>
              lo < mid < hi && Covers(op, s, Field(Target(p), true), lo, mid)
              && Covers(op, s, Field(Target(p), false), mid, hi)
    ensures Target(p).typ != OpType(op) ==>
              hi == lo + 1 && SlotAt(SkelOf(op, s), 0, p, lo, hi) && Target(p) == LeafShapes(op, s)[lo].n
  {
    hide Valid, Tree, Nodes;
    if SlotAt(SkelOf(op, s), 0, p, lo, hi) {
      mid := SlotContent(op, s, 0, p, lo, hi);
    } else {
      OpenBin(s);
      mid := OperandSplit(op, s, 0);
    }
  }

  /** expr_eliminate_dups1.  `p1` covers operands lo1, ..., hi1-1 of the spine, `p2`
      operands lo2, ..., hi2-1. */
  method DupsInPlace(op: BinOp, p1: Slot, p2: Slot, ghost s: Shape,
                     ghost lo1: nat, ghost hi1: nat, ghost lo2: nat, ghost hi2: nat)
    returns (count: nat, ghost s': Shape)
    requires Spine(op, s) && Covers(op, s, p1, lo1, hi1) && Covers(op, s, p2, lo2, hi2)
    modifies Nodes(s)
    ensures SameSpine(op, s, s')
    ensures forall n :: n in Nodes(s') && n !in Nodes(s) ==> fresh(n)
    ensures PassResult(op, old(Leaves(op, Tree(s))), lo1, hi1, lo2, hi2, Leaves(op, Tree(s')), count)
    decreases Size(Tree(s)), 3, hi1 - lo1, hi2 - lo2, 1
  {
    hide Valid, Tree, Nodes, SlotAt, Covers, PassResult;
    NodesAllocated(s);
    ghost var mid1 := CoversContent(op, s, p1, lo1, hi1);
    ghost var mid2 := CoversContent(op, s, p2, lo2, hi2);
    if Target(p1).typ == OpType(op) {
      count, s' := DupsFirstSpine(op, p1, p2, s, lo1, mid1, hi1, lo2, hi2);
    } else if Target(p2).typ == OpType(op) {
      count, s' := DupsSecondSpine(op, p1, p2, s, lo1, lo2, mid2, hi2);
    } else {
      count, s' := DupsOperands(op, p1, p2, s, lo1, lo2);
    }
  }

  method DupsFirstSpine(op: BinOp, p1: Slot, p2: Slot, ghost s: Shape,
                        ghost lo1: nat, ghost mid: nat, ghost hi1: nat, ghost lo2: nat, ghost hi2: nat)
    returns (count: nat, ghost s': Shape)
    requires Spine(op, s) && Covers(op, s, p2, lo2, hi2) && Target(p1) != null && lo1 < mid < hi1
    requires Covers(op, s, Field(Target(p1), true), lo1, mid) && Covers(op, s, Field(Target(p1), false), mid, hi1)
    modifies Nodes(s)
    ensures SameSpine(op, s, s')
    ensures forall n :: n in Nodes(s') && n !in Nodes(s) ==> fresh(n)
    ensures PassResult(op, old(Leaves(op, Tree(s))), lo1, hi1, lo2, hi2, Leaves(op, Tree(s')), count)
    decreases Size(Tree(s)), 3, hi1 - lo1, 0
  {
    hide Valid, Tree, Nodes, SlotAt, PassResult;
    NodesAllocated(s);
    ghost var x := Leaves(op, Tree(s));
    SpineFacts(op, s);
    var e1 := Target(p1);
    var c, t := DupsInPlace(op, Field(e1, true), p2, s, lo1, mid, lo2, hi2);
    ghost var y := Leaves(op, Tree(t));
    SpineFacts(op, t);
    PassShrinks(op, x, lo1, mid, lo2, hi2, y, c);
    NodesAllocated(t);
    var d;
    d, s' := DupsInPlace(op, Field(e1, false), p2, t, mid, hi1, lo2, hi2);
    ChainRows(op, x, lo1, mid, hi1, lo2, hi2, y, c, Leaves(op, Tree(s')), d);
    count := c + d;
  }

  method DupsSecondSpine(op: BinOp, p1: Slot, p2: Slot, ghost s: Shape,
                         ghost lo1: nat, ghost lo2: nat, ghost mid: nat, ghost hi2: nat)
    returns (count: nat, ghost s': Shape)
    requires Spine(op, s) && Covers(op, s, p1, lo1, lo1 + 1) && Target(p2) != null && lo2 < mid < hi2
    requires Covers(op, s, Field(Target(p2), true), lo2, mid) && Covers(op, s, Field(Target(p2), false), mid, hi2)
    modifies Nodes(s)
    ensures SameSpine(op, s, s')
    ensures forall n :: n in Nodes(s') && n !in Nodes(s) ==> fresh(n)
    ensures PassResult(op, old(Leaves(op, Tree(s))), lo1, lo1 + 1, lo2, hi2, Leaves(op, Tree(s')), count)
    decreases Size(Tree(s)), 3, 1, hi2 - lo2, 0
  {
    hide Valid, Tree, Nodes, SlotAt, PassResult;
    NodesAllocated(s);
    ghost var x := Leaves(op, Tree(s));
    SpineFacts(op, s);
    var e2 := Target(p2);
    var c, t := DupsInPlace(op, p1, Field(e2, true), s, lo1, lo1 + 1, lo2, mid);
    ghost var y := Leaves(op, Tree(t));
    SpineFacts(op, t);
    PassShrinks(op, x, lo1, lo1 + 1, lo2, mid, y, c);
    NodesAllocated(t);
    var d;
    d, s' := DupsInPlace(op, p1, Field(e2, false), t, lo1, lo1 + 1, mid, hi2);
    ChainColumns(op, x, lo1, lo2, mid, hi2, y, c, Leaves(op, Tree(s')), d);
    count := c + d;
  }

  lemma {:induction false} LeavesDisjoint(op: BinOp, s: Shape, i: nat, j: nat)
    requires Valid(s) && i < |LeafShapes(op, s)| && j < |LeafShapes(op, s)| && i != j
    ensures Nodes(LeafShapes(op, s)[i]) !! Nodes(LeafShapes(op, s)[j])
  {
    hide Valid, Tree, Nodes;
    OpenBin(s);
    var m := |LeafShapes(op, s.left)|;
    if i < m { LeafSubset(op, s.left, i); } else { LeafSubset(op, s.right, i - m); }
    if j < m { LeafSubset(op, s.left, j); } else { LeafSubset(op, s.right, j - m); }
    if i < m && j < m { LeavesDisjoint(op, s.left, i, j); }
    if i >= m && j >= m { LeavesDisjoint(op, s.right, i - m, j - m); }
  }

  /** Duplicates inside the operand at `i`. */
  method DupsInside(op: BinOp, p: Slot, ghost s: Shape, ghost i: nat) returns (count: nat, ghost s': Shape)
    requires Spine(op, s) && SlotAt(SkelOf(op, s), 0, p, i, i + 1) && i < |LeafShapes(op, s)|
    requires Target(p) == LeafShapes(op, s)[i].n
    modifies Nodes(s)
    ensures SameSpine(op, s, s') && Target(p) == old(Target(p))
    ensures forall n :: n in Nodes(s') && n !in Nodes(s) ==> fresh(n)
    ensures i < |old(Leaves(op, Tree(s)))|
    ensures var inner := DupsPass(old(Leaves(op, Tree(s)))[i]);
            Leaves(op, Tree(s')) == old(Leaves(op, Tree(s)))[i := inner.expr] && count == inner.count
    decreases Size(Tree(s)), 1
  {
    hide Valid, Tree, Nodes, SlotAt, DupsPass;
    NodesAllocated(s);
    SpineFacts(op, s);
    LeavesInMemory(op, s);
    LeafSubset(op, s, i);
    HolderOutside(op, s, 0, p, i);
    ghost var h, x := LeafShapes(op, s)[i], Leaves(op, Tree(s));
    TotalSizeAtLeast(x, i);
    Open(h);
    s', count := s, 0;
    var e := Target(p);
    if e.typ.EAnd? || e.typ.EOr? {
      var c, t := PassInPlace(e, h);
      LeafReplaced(op, s, 0, p, i, t);
      s', count := ReplaceLeaf(op, s, i, t), c;
    } else {
      NotBinPass(x[i]);
      assert x[i := x[i]] == x;
    }
  }

  lemma NotBinPass(e: Expr)
    requires !e.Bin?
    ensures DupsPass(e) == Counted(e, 0)
  {
  }

  /** What the slot of one operand points to. */
  lemma OperandSlot(op: BinOp, s: Shape, p: Slot, i: nat)
    requires Spine(op, s) && SlotAt(SkelOf(op, s), 0, p, i, i + 1)
    ensures i < |LeafShapes(op, s)| == |Leaves(op, Tree(s))| && Target(p) == LeafShapes(op, s)[i].n
    ensures Valid(LeafShapes(op, s)[i]) && Tree(LeafShapes(op, s)[i]) == Leaves(op, Tree(s))[i]
    ensures Nodes(LeafShapes(op, s)[i]) <= Nodes(s)
  {
    hide Valid, Tree, Nodes, SlotAt;
    var mid := SlotContent(op, s, 0, p, i, i + 1);
    LeavesInMemory(op, s);
  }

  lemma SameOperand(op: BinOp, s: Shape, p1: Slot, p2: Slot, i: nat, j: nat)
    requires Spine(op, s) && SlotAt(SkelOf(op, s), 0, p1, i, i + 1) && SlotAt(SkelOf(op, s), 0, p2, j, j + 1)
    ensures Target(p1) == Target(p2) <==> i == j
  {
    hide Valid, Tree, Nodes, SlotAt;
    OperandSlot(op, s, p1, i);
    OperandSlot(op, s, p2, j);
    Open(LeafShapes(op, s)[i]);
    Open(LeafShapes(op, s)[j]);
    if i != j { LeavesDisjoint(op, s, i, j); }
  }

  /** Two operands of the spine: the pointers are equal exactly when the positions are. */
  method DupsOperands(op: BinOp, p1: Slot, p2: Slot, ghost s: Shape, ghost i: nat, ghost j: nat)
    returns (count: nat, ghost s': Shape)
    requires Spine(op, s) && SlotAt(SkelOf(op, s), 0, p1, i, i + 1) && SlotAt(SkelOf(op, s), 0, p2, j, j + 1)
    modifies Nodes(s)
    ensures SameSpine(op, s, s')
    ensures forall n :: n in Nodes(s') && n !in Nodes(s) ==> fresh(n)
    ensures PassResult(op, old(Leaves(op, Tree(s))), i, i + 1, j, j + 1, Leaves(op, Tree(s')), count)
    decreases Size(Tree(s)), 2
  {
    hide Valid, Tree, Nodes, SlotAt, DupsPass, DupsRows, DupsPair;
    ghost var x := Leaves(op, Tree(s));
    NodesAllocated(s);
    SpineFacts(op, s);
    OperandSlot(op, s, p1, i);
    OperandSlot(op, s, p2, j);
    SameOperand(op, s, p1, p2, i, j);
    OnePair(op, x, i, j);
    s', count := s, 0;
    if Target(p1) != Target(p2) {
      var c, t := DupsInside(op, p1, s, i);
      NodesAllocated(t);
      var d;
      d, s' := JoinOperands(op, p1, p2, t, i, j);
      count := c + d;
      PairInTwoSteps(op, x, i, j);
    }
  }

  /** DupsPair is the inner pass followed by the join. */
  lemma PairInTwoSteps(op: BinOp, ls: seq<Expr>, i: nat, j: nat)
    requires i < |ls| && j < |ls| && i != j && NoneIsNode(op, ls)
    ensures var inner := DupsPass(ls[i]);
            var ls1 := ls[i := inner.expr];
            DupsPair(op, ls, i, j) == Run(JoinAt(op, ls1, i, j), inner.count + if Joins(op, ls1, i, j) then 1 else 0)
  {
  }

  ghost predicate Joins(op: BinOp, ls: seq<Expr>, i: nat, j: nat)
    requires i < |ls| && j < |ls|
  {
    Join(op, ls[i], ls[j]).Some?
  }

  ghost function JoinAt(op: BinOp, ls: seq<Expr>, i: nat, j: nat): seq<Expr>
    requires i < |ls| && j < |ls|
  {
    if Joins(op, ls, i, j) then ls[i := Sym(Identity(op))][j := Join(op, ls[i], ls[j]).value] else ls
  }

  /** expr_join_or or expr_join_and, and the writes that follow. */
  method JoinOperands(op: BinOp, p1: Slot, p2: Slot, ghost s: Shape, ghost i: nat, ghost j: nat)
    returns (count: nat, ghost s': Shape)
    requires Spine(op, s) && i != j
    requires SlotAt(SkelOf(op, s), 0, p1, i, i + 1) && SlotAt(SkelOf(op, s), 0, p2, j, j + 1)
    modifies Nodes(s)
    ensures SameSpine(op, s, s')
    ensures forall n :: n in Nodes(s') && n !in Nodes(s) ==> fresh(n)
    ensures i < |old(Leaves(op, Tree(s)))| && j < |old(Leaves(op, Tree(s)))|
    ensures Leaves(op, Tree(s')) == JoinAt(op, old(Leaves(op, Tree(s))), i, j)
    ensures count == if Joins(op, old(Leaves(op, Tree(s))), i, j) then 1 else 0
  {
    hide Valid, Tree, Nodes, SlotAt, Join;
    NodesAllocated(s);
    OperandSlot(op, s, p1, i);
    OperandSlot(op, s, p2, j);
    SpineFacts(op, s);
    var v1 := ReadTree(Target(p1), LeafShapes(op, s)[i]);
    var v2 := ReadTree(Target(p2), LeafShapes(op, s)[j]);
    s', count := s, 0;
    var joined := Join(op, v1, v2);
    if joined.Some? {
      JoinIsLeaf(op, v1, v2);
      s' := WriteJoined(op, p1, p2, s, i, j, joined.value);
      count := 1;
    }
  }

  /** The first operand becomes the neutral symbol, the second the joint one. */
  method WriteJoined(op: BinOp, p1: Slot, p2: Slot, ghost s: Shape, ghost i: nat, ghost j: nat, joined: Expr)
    returns (ghost s': Shape)
    requires Spine(op, s) && i != j && !IsNode(op, joined)
    requires SlotAt(SkelOf(op, s), 0, p1, i, i + 1) && SlotAt(SkelOf(op, s), 0, p2, j, j + 1)
    requires i < Width(SkelOf(op, s)) && j < Width(SkelOf(op, s))
    modifies Nodes(s)
    ensures SameSpine(op, s, s')
    ensures forall n :: n in Nodes(s') && n !in Nodes(s) ==> fresh(n)
    ensures i < |old(Leaves(op, Tree(s)))| && j < |old(Leaves(op, Tree(s)))|
    ensures Leaves(op, Tree(s')) == old(Leaves(op, Tree(s)))[i := Sym(Identity(op))][j := joined]
  {
    hide Valid, Tree, Nodes, SlotAt;
    NodesAllocated(s);
    SpineFacts(op, s);
    var n1, x1 := Alloc(Sym(Identity(op)));
    NodesAllocated(x1);
    NotNodeIsEnd(op, x1);
    ghost var t := ReplaceOperand(op, p1, s, i, n1, x1);
    NodesAllocated(t);
    var n2, x2 := Alloc(joined);
    NodesAllocated(x2);
    NotNodeIsEnd(op, x2);
    s' := ReplaceOperand(op, p2, t, j, n2, x2);
  }

  lemma NotNodeIsEnd(op: BinOp, s: Shape)
    requires !IsNode(op, Tree(s))
    ensures SkelOf(op, s) == End
  {
  }

  // ------------------------------------------------- expr_eliminate_dups

  method EliminateDupsInPlace(e: Node, ghost s: Shape) returns (ghost s': Shape)
    requires Valid(s) && s.n == e
    modifies Nodes(s)
    ensures Valid(s') && s'.n == e && Tree(s') == EliminateDups(old(Tree(s)))
    ensures forall n :: n in Nodes(s') && n !in Nodes(s) ==> fresh(n)
  {
    hide Valid, Tree, Nodes, DupsPass, EliminateYn;
    NodesAllocated(s);
    s' := s;
    while true
      invariant Valid(s') && s'.n == e
      invariant forall n :: n in Nodes(s') && n !in Nodes(s) ==> fresh(n)
      invariant forall n :: n in Nodes(s') ==> allocated(n)
      invariant EliminateDups(Tree(s')) == EliminateDups(old(Tree(s)))
      decreases Size(Tree(s'))
    {
      ghost var v := Tree(s');
      var count := 0;
      Open(s');
      if e.typ.EOr? || e.typ.EAnd? {
        count, s' := PassInPlace(e, s');
      } else {
        NotBinPass(v);
      }
      NodesAllocated(s');
      if count == 0 {
        PassCountsJoins(v);
        break;
      }
      PassThenYnShrinks(v);
      s' := EliminateYnInPlace(e, s');
      NodesAllocated(s');
    }
  }
}
