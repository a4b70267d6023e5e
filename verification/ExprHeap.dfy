/** The in-place rewrites of expr.c on linked nodes, each proved to leave in memory
    the tree that its specification function describes. */
module KExprHeap {
  import opened KExpr
  import opened KEliminateEq
  import opened KDups
  import opened KTransform

  // ------------------------------------------------------------- the heap

  datatype NodeType = EOr | EAnd | ENot | EEqual | EUnequal | ELth | ELeq | EGth | EGeq | ESymbol

  function OpType(op: BinOp): NodeType { if op.OpAnd? then EAnd else EOr }

  function CompType(op: CompOp): NodeType {
    match op
    case Equal => EEqual
    case Unequal => EUnequal
    case Lth => ELth
    case Leq => ELeq
    case Gth => EGth
    case Geq => EGeq
  }

  function CompOf(t: NodeType): CompOp {
    match t
    case EUnequal => Unequal
    case ELth => Lth
    case ELeq => Leq
    case EGth => Gth
    case EGeq => Geq
    case _ => Equal
  }

  /** struct expr; the two members of each union are separate fields. */
  class Node {
    var typ: NodeType
    var left: Node?
    var right: Node?
    var leftSym: Symbol
    var rightSym: Symbol

    /** expr_alloc_symbol, expr_alloc_comp */
    constructor Leaf(t: NodeType, l: Symbol, r: Symbol)
      ensures typ == t && leftSym == l && rightSym == r
    {
      typ, left, right, leftSym, rightSym := t, null, null, l, r;
    }

    /** expr_alloc_one, expr_alloc_two */
    constructor Inner(t: NodeType, l: Node?, r: Node?)
      ensures typ == t && left == l && right == r
    {
      typ, left, right, leftSym, rightSym := t, l, r, SymNo, SymNo;
    }
  }

  /** Which nodes make up a tree, and how. */
  datatype Shape =
    | SLeaf(n: Node)
    | SNot(n: Node, arg: Shape)
    | SBin(n: Node, op: BinOp, left: Shape, right: Shape)

  ghost function Nodes(s: Shape): set<Node> {
    match s
    case SLeaf(n) => {n}
    case SNot(n, a) => {n} + Nodes(a)
    case SBin(n, _, l, r) => {n} + Nodes(l) + Nodes(r)
  }

  /** The nodes are linked as the shape says, and no node is used twice. */
  ghost predicate Valid(s: Shape)
    reads Nodes(s)
  {
    match s
    case SLeaf(n) => !n.typ.ENot? && !n.typ.EAnd? && !n.typ.EOr?
    case SNot(n, a) => n.typ.ENot? && n.left == a.n && n !in Nodes(a) && Valid(a)
    case SBin(n, op, l, r) =>
      && n.typ == OpType(op) && n.left == l.n && n.right == r.n
      && n !in Nodes(l) && n !in Nodes(r) && Nodes(l) !! Nodes(r)
      && Valid(l) && Valid(r)
  }

  /** The expression held in memory. */
  ghost function Tree(s: Shape): Expr
    reads Nodes(s)
  {
    match s
    case SLeaf(n) => if n.typ.ESymbol? then Sym(n.leftSym) else Comp(CompOf(n.typ), n.leftSym, n.rightSym)
    case SNot(_, a) => Not(Tree(a))
    case SBin(_, op, l, r) => Bin(op, Tree(l), Tree(r))
  }

  lemma {:induction false} NodesAllocated(s: Shape)
    ensures forall n :: n in Nodes(s) ==> allocated(n)
  {
    match s
    case SLeaf(_) =>
    case SNot(_, a) => NodesAllocated(a);
    case SBin(_, _, l, r) => NodesAllocated(l); NodesAllocated(r);
  }

  /** What the type field of the root says, and what is known about the operands. */
  lemma Open(s: Shape)
    requires Valid(s)
    ensures s.n in Nodes(s) && forall n :: n in Nodes(s) ==> allocated(n)
    ensures s.n.typ.ENot? <==> s.SNot?
    ensures s.n.typ.EAnd? || s.n.typ.EOr? <==> s.SBin?
    ensures s.SLeaf? ==> Nodes(s) == {s.n}
    ensures s.SLeaf? ==>
              Tree(s) == if s.n.typ.ESymbol? then Sym(s.n.leftSym) else Comp(CompOf(s.n.typ), s.n.leftSym, s.n.rightSym)
    ensures s.SNot? ==> s.n.left == s.arg.n && Valid(s.arg) && s.n !in Nodes(s.arg)
    ensures s.SNot? ==> Nodes(s) == {s.n} + Nodes(s.arg) && Tree(s) == Not(Tree(s.arg))
    ensures s.SBin? ==> s.n.typ == OpType(s.op) && s.n.left == s.left.n && s.n.right == s.right.n
    ensures s.SBin? ==> Valid(s.left) && Valid(s.right)
    ensures s.SBin? ==> s.n !in Nodes(s.left) && s.n !in Nodes(s.right) && Nodes(s.left) !! Nodes(s.right)
    ensures s.SBin? ==> Nodes(s) == {s.n} + Nodes(s.left) + Nodes(s.right)
    ensures s.SBin? ==> Tree(s) == Bin(s.op, Tree(s.left), Tree(s.right))
  {
    NodesAllocated(s);
  }

  /** What is known about the operands of an AND/OR node. */
  lemma OpenBin(s: Shape)
    requires Valid(s) && (s.SBin? || s.n.typ.EAnd? || s.n.typ.EOr?)
    ensures s.SBin? && Links(s.n, s.op, s.left, s.right) && Nodes(s) == {s.n} + Nodes(s.left) + Nodes(s.right)
    ensures forall n :: n in Nodes(s) ==> allocated(n)
    ensures Tree(s) == Bin(s.op, Tree(s.left), Tree(s.right))
  {
    NodesAllocated(s);
  }

  /** The node `n` links two disjoint trees. */
  ghost predicate Links(n: Node, op: BinOp, l: Shape, r: Shape)
    reads {n} + Nodes(l) + Nodes(r)
  {
    && n.typ == OpType(op) && n.left == l.n && n.right == r.n
    && n !in Nodes(l) && n !in Nodes(r) && Nodes(l) !! Nodes(r) && Valid(l) && Valid(r)
  }

  lemma CloseBin(n: Node, op: BinOp, l: Shape, r: Shape)
    requires Links(n, op, l, r)
    ensures Valid(SBin(n, op, l, r)) && Tree(SBin(n, op, l, r)) == Bin(op, Tree(l), Tree(r))
    ensures Nodes(SBin(n, op, l, r)) == {n} + Nodes(l) + Nodes(r)
  {
  }

  lemma CloseNot(n: Node, a: Shape)
    requires n.typ.ENot? && n.left == a.n && n !in Nodes(a) && Valid(a)
    ensures Valid(SNot(n, a)) && Tree(SNot(n, a)) == Not(Tree(a))
    ensures Nodes(SNot(n, a)) == {n} + Nodes(a)
  {
  }

  /** expr_copy, into a value. */
  method ReadTree(e: Node, ghost s: Shape) returns (v: Expr)
    requires Valid(s) && s.n == e
    ensures v == Tree(s)
    decreases s
  {
    Open(s);
    if e.typ.EAnd? || e.typ.EOr? {
      var l := ReadTree(e.left, s.left);
      var r := ReadTree(e.right, s.right);
      v := Bin(if e.typ.EAnd? then OpAnd else OpOr, l, r);
    } else if e.typ.ENot? {
      var a := ReadTree(e.left, s.arg);
      v := Not(a);
    } else if e.typ.ESymbol? {
      v := Sym(e.leftSym);
    } else {
      v := Comp(CompOf(e.typ), e.leftSym, e.rightSym);
    }
  }

  /** Fresh nodes for a value. */
  method Alloc(v: Expr) returns (e: Node, ghost s: Shape)
    ensures fresh(Nodes(s)) && Valid(s) && s.n == e && Tree(s) == v
    decreases v
  {
    if v.Sym? {
      e := new Node.Leaf(ESymbol, v.sym, v.sym);
      s := SLeaf(e);
    } else if v.Comp? {
      e := new Node.Leaf(CompType(v.cop), v.lhs, v.rhs);
      s := SLeaf(e);
    } else if v.Not? {
      var x, t := Alloc(v.arg);
      NodesAllocated(t);
      e := new Node.Inner(ENot, x, null);
      s := SNot(e, t);
    } else {
      var x, t := Alloc(v.left);
      NodesAllocated(t);
      var y, u := Alloc(v.right);
      NodesAllocated(t);
      NodesAllocated(u);
      e := new Node.Inner(OpType(v.op), x, y);
      s := SBin(e, v.op, t, u);
    }
  }

  // ------------------------------------------------------- eliminate_yn

  /** The same tree with `e` as its root node. */
  ghost function WithRoot(s: Shape, e: Node): Shape {
    match s
    case SLeaf(_) => SLeaf(e)
    case SNot(_, a) => SNot(e, a)
    case SBin(_, op, l, r) => SBin(e, op, l, r)
  }

  /** *e = *from */
  method CopyNode(e: Node, from: Node, ghost s: Shape)
    requires Valid(s) && s.n == from && e !in Nodes(s)
    modifies e
    ensures Valid(WithRoot(s, e)) && Tree(WithRoot(s, e)) == old(Tree(s))
  {
    e.typ, e.left, e.right, e.leftSym, e.rightSym := from.typ, from.left, from.right, from.leftSym, from.rightSym;
  }

  predicate HoldsSym(e: Node, s: Symbol)
    reads e
  {
    e.typ.ESymbol? && e.leftSym == s
  }

  method EliminateYnInPlace(e: Node, ghost s: Shape) returns (ghost s': Shape)
    requires Valid(s) && s.n == e
    modifies Nodes(s)
    ensures Valid(s') && s'.n == e && Nodes(s') <= Nodes(s)
    ensures Tree(s') == EliminateYn(old(Tree(s)))
    decreases s
  {
    hide Valid, Tree, Nodes;
    s' := s;
    Open(s);
    if e.typ.EAnd? || e.typ.EOr? {
      var op := if e.typ.EAnd? then OpAnd else OpOr;
      ghost var l := EliminateYnInPlace(e.left, s.left);
      ghost var r := EliminateYnInPlace(e.right, s.right);
      CloseBin(e, op, l, r);
      s' := YnNodeInPlace(e, op, SBin(e, op, l, r));
    }
  }

  /** The case analysis on the operands, once they are simplified. */
  method YnNodeInPlace(e: Node, op: BinOp, ghost s: Shape) returns (ghost s': Shape)
    requires Valid(s) && s.SBin? && s.n == e && s.op == op
    modifies e
    ensures Valid(s') && s'.n == e && Nodes(s') <= Nodes(s)
    ensures Tree(s') == YnNode(op, old(Tree(s.left)), old(Tree(s.right)))
  {
    Open(s);
    if HoldsSym(e.left, Absorbing(op)) {
      e.typ, e.leftSym, e.right := ESymbol, Absorbing(op), null;
      s' := SLeaf(e);
    } else if HoldsSym(e.left, Identity(op)) {
      CopyNode(e, e.right, s.right);
      s' := WithRoot(s.right, e);
    } else if HoldsSym(e.right, Absorbing(op)) {
      e.typ, e.leftSym, e.right := ESymbol, Absorbing(op), null;
      s' := SLeaf(e);
    } else if HoldsSym(e.right, Identity(op)) {
      CopyNode(e, e.left, s.left);
      s' := WithRoot(s.left, e);
    } else {
      s' := s;
    }
  }

  // ------------------------------------------------------- eliminate_eq

  ghost function SpineSize(op: BinOp, s: Shape): nat {
    if s.SBin? && s.op == op then 1 + SpineSize(op, s.left) + SpineSize(op, s.right) else 0
  }

  lemma LeafPairs(op: BinOp, a: Expr, b: Expr)
    requires !IsNode(op, a) && !IsNode(op, b)
    ensures EliminatePairs(op, a, b) ==
              if !(a == b && IsYn(a)) && ExprEq(a, b) then (Sym(Identity(op)), Sym(Identity(op))) else (a, b)
  {
    hide EliminateEq;
  }

  lemma OpenLeaf(op: BinOp, s: Shape)
    requires Valid(s) && s.n.typ != OpType(op)
    ensures !IsNode(op, Tree(s)) && SpineSize(op, s) == 0
    ensures forall n :: n in Nodes(s) ==> allocated(n)
  {
    NodesAllocated(s);
  }

  /** __expr_eliminate_eq; the two slots it writes through are returned. */
  method EliminatePairsInPlace(op: BinOp, e1: Node, ghost s1: Shape, e2: Node, ghost s2: Shape)
    returns (r1: Node, ghost t1: Shape, r2: Node, ghost t2: Shape)
    requires Valid(s1) && Valid(s2) && s1.n == e1 && s2.n == e2 && Nodes(s1) !! Nodes(s2)
    modifies Nodes(s1), Nodes(s2)
    ensures Valid(t1) && Valid(t2) && t1.n == r1 && t2.n == r2 && Nodes(t1) !! Nodes(t2)
    ensures forall n :: n in Nodes(t1) && n !in Nodes(s1) ==> fresh(n)
    ensures forall n :: n in Nodes(t2) && n !in Nodes(s2) ==> fresh(n)
    ensures SpineSize(op, t1) == SpineSize(op, s1) && SpineSize(op, t2) == SpineSize(op, s2)
    ensures (Tree(t1), Tree(t2)) == EliminatePairs(op, old(Tree(s1)), old(Tree(s2)))
    decreases SpineSize(op, s1), SpineSize(op, s2)
  {
    hide ExprEq, EliminateEq, EliminatePairs, Valid, Tree, Nodes;
    ghost var v1, v2 := Tree(s1), Tree(s2);
    Open(s1);
    Open(s2);
    if e1.typ == OpType(op) {
      r1, t1, r2, t2 := EliminateLeftSpine(op, e1, s1, e2, s2);
    } else if e2.typ == OpType(op) {
      r1, t1, r2, t2 := EliminateRightSpine(op, e1, s1, e2, s2);
    } else {
      r1, t1, r2, t2 := EliminateLeafPair(op, e1, s1, e2, s2);
    }
  }

  method EliminateLeftSpine(op: BinOp, e1: Node, ghost s1: Shape, e2: Node, ghost s2: Shape)
    returns (r1: Node, ghost t1: Shape, r2: Node, ghost t2: Shape)
    requires Valid(s1) && Valid(s2) && s1.n == e1 && s2.n == e2 && Nodes(s1) !! Nodes(s2)
    requires e1.typ == OpType(op)
    modifies Nodes(s1), Nodes(s2)
    ensures Valid(t1) && Valid(t2) && t1.n == r1 && t2.n == r2 && Nodes(t1) !! Nodes(t2)
    ensures forall n :: n in Nodes(t1) && n !in Nodes(s1) ==> fresh(n)
    ensures forall n :: n in Nodes(t2) && n !in Nodes(s2) ==> fresh(n)
    ensures SpineSize(op, t1) == SpineSize(op, s1) && SpineSize(op, t2) == SpineSize(op, s2)
    ensures (Tree(t1), Tree(t2)) == EliminatePairs(op, old(Tree(s1)), old(Tree(s2)))
    decreases SpineSize(op, s1), SpineSize(op, s2), 1
  {
    hide ExprEq, EliminateEq, EliminatePairs, Valid, Tree, Nodes;
    ghost var v1, v2 := Tree(s1), Tree(s2);
    OpenBin(s1);
    NodesAllocated(s2);
    var l, tl, x, u := EliminatePairsInPlace(op, e1.left, s1.left, e2, s2);
    e1.left := l;
    CloseBin(e1, op, tl, s1.right);
    ghost var half, vl, vx := SBin(e1, op, tl, s1.right), Tree(tl), Tree(u);
    r1, t1, r2, t2 := EliminateRightOfFirst(op, e1, half, x, u);
    PairsLeftStep(op, v1, v2, vl, vx, Tree(t1).right, Tree(t2));
  }

  /** The second recursive call on a first argument that is a spine node. */
  method EliminateRightOfFirst(op: BinOp, e1: Node, ghost s1: Shape, e2: Node, ghost s2: Shape)
    returns (r1: Node, ghost t1: Shape, r2: Node, ghost t2: Shape)
    requires Valid(s1) && Valid(s2) && s1.n == e1 && s2.n == e2 && Nodes(s1) !! Nodes(s2)
    requires e1.typ == OpType(op)
    modifies Nodes(s1), Nodes(s2)
    ensures Valid(t1) && Valid(t2) && t1.n == r1 && t2.n == r2 && Nodes(t1) !! Nodes(t2)
    ensures forall n :: n in Nodes(t1) && n !in Nodes(s1) ==> fresh(n)
    ensures forall n :: n in Nodes(t2) && n !in Nodes(s2) ==> fresh(n)
    ensures SpineSize(op, t1) == SpineSize(op, s1) && SpineSize(op, t2) == SpineSize(op, s2)
    ensures IsNode(op, old(Tree(s1)))
    ensures var (r, t) := EliminatePairs(op, old(Tree(s1)).right, old(Tree(s2)));
            Tree(t1) == Bin(op, old(Tree(s1)).left, r) && Tree(t2) == t
    decreases SpineSize(op, s1), SpineSize(op, s2), 0
  {
    hide ExprEq, EliminateEq, EliminatePairs, Valid, Tree, Nodes;
    OpenBin(s1);
    NodesAllocated(s2);
    var r;
    ghost var tr;
    r, tr, r2, t2 := EliminatePairsInPlace(op, e1.right, s1.right, e2, s2);
    e1.right := r;
    CloseBin(e1, op, s1.left, tr);
    r1, t1 := e1, SBin(e1, op, s1.left, tr);
  }

  method EliminateRightSpine(op: BinOp, e1: Node, ghost s1: Shape, e2: Node, ghost s2: Shape)
    returns (r1: Node, ghost t1: Shape, r2: Node, ghost t2: Shape)
    requires Valid(s1) && Valid(s2) && s1.n == e1 && s2.n == e2 && Nodes(s1) !! Nodes(s2)
    requires e1.typ != OpType(op) && e2.typ == OpType(op)
    modifies Nodes(s1), Nodes(s2)
    ensures Valid(t1) && Valid(t2) && t1.n == r1 && t2.n == r2 && Nodes(t1) !! Nodes(t2)
    ensures forall n :: n in Nodes(t1) && n !in Nodes(s1) ==> fresh(n)
    ensures forall n :: n in Nodes(t2) && n !in Nodes(s2) ==> fresh(n)
    ensures SpineSize(op, t1) == SpineSize(op, s1) && SpineSize(op, t2) == SpineSize(op, s2)
    ensures (Tree(t1), Tree(t2)) == EliminatePairs(op, old(Tree(s1)), old(Tree(s2)))
    decreases SpineSize(op, s1), SpineSize(op, s2), 1
  {
    hide ExprEq, EliminateEq, EliminatePairs, Valid, Tree, Nodes;
    ghost var v1, v2 := Tree(s1), Tree(s2);
    OpenBin(s2);
    OpenLeaf(op, s1);
    var x, u, l, tl := EliminatePairsInPlace(op, e1, s1, e2.left, s2.left);
    e2.left := l;
    CloseBin(e2, op, tl, s2.right);
    ghost var half, vl, vx := SBin(e2, op, tl, s2.right), Tree(tl), Tree(u);
    r1, t1, r2, t2 := EliminateRightOfSecond(op, x, u, e2, half);
    PairsRightStep(op, v1, v2, vx, vl, Tree(t1), Tree(t2).right);
  }

  /** The second recursive call on a second argument that is a spine node. */
  method EliminateRightOfSecond(op: BinOp, e1: Node, ghost s1: Shape, e2: Node, ghost s2: Shape)
    returns (r1: Node, ghost t1: Shape, r2: Node, ghost t2: Shape)
    requires Valid(s1) && Valid(s2) && s1.n == e1 && s2.n == e2 && Nodes(s1) !! Nodes(s2)
    requires e2.typ == OpType(op)
    modifies Nodes(s1), Nodes(s2)
    ensures Valid(t1) && Valid(t2) && t1.n == r1 && t2.n == r2 && Nodes(t1) !! Nodes(t2)
    ensures forall n :: n in Nodes(t1) && n !in Nodes(s1) ==> fresh(n)
    ensures forall n :: n in Nodes(t2) && n !in Nodes(s2) ==> fresh(n)
    ensures SpineSize(op, t1) == SpineSize(op, s1) && SpineSize(op, t2) == SpineSize(op, s2)
    ensures IsNode(op, old(Tree(s2)))
    ensures var (t, r) := EliminatePairs(op, old(Tree(s1)), old(Tree(s2)).right);
            Tree(t1) == t && Tree(t2) == Bin(op, old(Tree(s2)).left, r)
    decreases SpineSize(op, s1), SpineSize(op, s2), 0
  {
    hide ExprEq, EliminateEq, EliminatePairs, Valid, Tree, Nodes;
    OpenBin(s2);
    NodesAllocated(s1);
    var r;
    ghost var tr;
    r1, t1, r, tr := EliminatePairsInPlace(op, e1, s1, e2.right, s2.right);
    e2.right := r;
    CloseBin(e2, op, s2.left, tr);
    r2, t2 := e2, SBin(e2, op, s2.left, tr);
  }

  /** Two leaves: equal ones are replaced by fresh identity symbols. */
  method EliminateLeafPair(op: BinOp, e1: Node, ghost s1: Shape, e2: Node, ghost s2: Shape)
    returns (r1: Node, ghost t1: Shape, r2: Node, ghost t2: Shape)
    requires Valid(s1) && Valid(s2) && s1.n == e1 && s2.n == e2 && Nodes(s1) !! Nodes(s2)
    requires e1.typ != OpType(op) && e2.typ != OpType(op)
    ensures Valid(t1) && Valid(t2) && t1.n == r1 && t2.n == r2 && Nodes(t1) !! Nodes(t2)
    ensures forall n :: n in Nodes(t1) && n !in Nodes(s1) ==> fresh(n)
    ensures forall n :: n in Nodes(t2) && n !in Nodes(s2) ==> fresh(n)
    ensures SpineSize(op, t1) == SpineSize(op, s1) && SpineSize(op, t2) == SpineSize(op, s2)
    ensures (Tree(t1), Tree(t2)) == EliminatePairs(op, old(Tree(s1)), old(Tree(s2)))
  {
    hide ExprEq, EliminateEq, EliminatePairs;
    OpenLeaf(op, s1);
    OpenLeaf(op, s2);
    r1, t1, r2, t2 := e1, s1, e2, s2;
    var v1 := ReadTree(e1, s1);
    var v2 := ReadTree(e2, s2);
    LeafPairs(op, v1, v2);
    if !(v1 == v2 && IsYn(v1)) && ExprEq(v1, v2) {
      r1 := new Node.Leaf(ESymbol, Identity(op), SymNo);
      r2 := new Node.Leaf(ESymbol, Identity(op), SymNo);
      t1, t2 := SLeaf(r1), SLeaf(r2);
    }
  }

  /** The second pass of expr_eliminate_eq, by the operator of the second tree. */
  method SecondPassInPlace(e1: Node, ghost s1: Shape, e2: Node, ghost s2: Shape)
    returns (r1: Node, ghost t1: Shape, r2: Node, ghost t2: Shape)
    requires Valid(s1) && Valid(s2) && s1.n == e1 && s2.n == e2 && Nodes(s1) !! Nodes(s2)
    modifies Nodes(s1), Nodes(s2)
    ensures Valid(t1) && Valid(t2) && t1.n == r1 && t2.n == r2 && Nodes(t1) !! Nodes(t2)
    ensures forall n :: n in Nodes(t1) && n !in Nodes(s1) ==> fresh(n)
    ensures forall n :: n in Nodes(t2) && n !in Nodes(s2) ==> fresh(n)
    ensures var a, b := old(Tree(s1)), old(Tree(s2));
            (Tree(t1), Tree(t2)) == if !SameType(a, b) && b.Bin? then EliminatePairs(b.op, a, b) else (a, b)
  {
    hide ExprEq, EliminatePairs, Valid, Tree, Nodes;
    Open(s1);
    Open(s2);
    r1, t1, r2, t2 := e1, s1, e2, s2;
    if e1.typ != e2.typ && (e2.typ.EOr? || e2.typ.EAnd?) {
      r1, t1, r2, t2 := EliminatePairsInPlace(if e2.typ.EAnd? then OpAnd else OpOr, e1, s1, e2, s2);
    }
  }

  /** expr_eliminate_eq, up to the final removal of y and n. */
  method EliminatePassesInPlace(e1: Node, ghost s1: Shape, e2: Node, ghost s2: Shape)
    returns (r1: Node, ghost t1: Shape, r2: Node, ghost t2: Shape)
    requires Valid(s1) && Valid(s2) && s1.n == e1 && s2.n == e2 && Nodes(s1) !! Nodes(s2)
    modifies Nodes(s1), Nodes(s2)
    ensures Valid(t1) && Valid(t2) && t1.n == r1 && t2.n == r2 && Nodes(t1) !! Nodes(t2)
    ensures forall n :: n in Nodes(t1) && n !in Nodes(s1) ==> fresh(n)
    ensures forall n :: n in Nodes(t2) && n !in Nodes(s2) ==> fresh(n)
    ensures (EliminateYn(Tree(t1)), EliminateYn(Tree(t2))) == EliminateEq(old(Tree(s1)), old(Tree(s2)))
  {
    hide ExprEq, EliminatePairs, EliminateYn, SameType, Valid, Tree, Nodes;
    Open(s1);
    Open(s2);
    var x, y := e1, e2;
    ghost var u, v := s1, s2;
    if e1.typ.EOr? || e1.typ.EAnd? {
      x, u, y, v := EliminatePairsInPlace(if e1.typ.EAnd? then OpAnd else OpOr, e1, s1, e2, s2);
    }
    r1, t1, r2, t2 := SecondPassInPlace(x, u, y, v);
  }

  /** expr_eliminate_eq */
  method EliminateEqInPlace(e1: Node, ghost s1: Shape, e2: Node, ghost s2: Shape)
    returns (r1: Node, ghost t1: Shape, r2: Node, ghost t2: Shape)
    requires Valid(s1) && Valid(s2) && s1.n == e1 && s2.n == e2 && Nodes(s1) !! Nodes(s2)
    modifies Nodes(s1), Nodes(s2)
    ensures Valid(t1) && Valid(t2) && t1.n == r1 && t2.n == r2 && Nodes(t1) !! Nodes(t2)
    ensures forall n :: n in Nodes(t1) && n !in Nodes(s1) ==> fresh(n)
    ensures forall n :: n in Nodes(t2) && n !in Nodes(s2) ==> fresh(n)
    ensures (Tree(t1), Tree(t2)) == EliminateEq(old(Tree(s1)), old(Tree(s2)))
  {
    hide EliminateEq, EliminateYn, Valid, Tree, Nodes;
    NodesAllocated(s1);
    NodesAllocated(s2);
    ghost var u, v;
    r1, u, r2, v := EliminatePassesInPlace(e1, s1, e2, s2);
    NodesAllocated(u);
    NodesAllocated(v);
    t1 := EliminateYnInPlace(r1, u);
    t2 := EliminateYnInPlace(r2, v);
  }

  // ------------------------------------------------------- expr_trans_bool

  method TransBoolInPlace(e: Node, ghost s: Shape)
    requires Valid(s) && s.n == e
    modifies Nodes(s)
    ensures Valid(s) && Tree(s) == TransBool(old(Tree(s)))
    decreases s
  {
    Open(s);
    if e.typ.EAnd? || e.typ.EOr? {
      TransBoolInPlace(e.left, s.left);
      TransBoolInPlace(e.right, s.right);
    } else if e.typ.ENot? {
      TransBoolInPlace(e.left, s.arg);
    } else if e.typ.EUnequal? && TypeOf(e.leftSym).Tristate? && e.rightSym == SymNo {
      e.typ := ESymbol;
    }
  }

  // -------------------------------------------------------- expr_transform

  method TransformInPlace(e: Node, ghost s: Shape) returns (r: Node, ghost s': Shape)
    requires Valid(s) && s.n == e
    modifies Nodes(s)
    ensures Valid(s') && s'.n == r && Tree(s') == Transform(old(Tree(s)))
    ensures forall n :: n in Nodes(s') && n !in Nodes(s) ==> fresh(n)
    decreases Weight(Tree(s)), 1
  {
    hide Valid, Tree, Nodes, Weight;
    ghost var v := Tree(s);
    Open(s);
    WeightParts(v);
    if e.typ.EAnd? || e.typ.EOr? {
      r, s' := TransformOperands(e, s);
    } else if e.typ.ENot? {
      var x, u := TransformInPlace(e.left, s.arg);
      e.left := x;
      CloseNot(e, u);
      WeightParts(Not(Tree(u)));
      r, s' := TransformNotInPlace(e, SNot(e, u));
    } else {
      r := e;
      s' := TransformLeaf(e, s);
    }
  }

  lemma WeightParts(v: Expr)
    ensures v.Not? ==> Weight(v) == 2 * Weight(v.arg)
    ensures v.Bin? ==> Weight(v) == 1 + Weight(v.left) + Weight(v.right)
  {
  }

  method TransformOperands(e: Node, ghost s: Shape) returns (r: Node, ghost s': Shape)
    requires Valid(s) && s.n == e && s.SBin?
    modifies Nodes(s)
    ensures Valid(s') && s'.n == r && Tree(s') == Transform(old(Tree(s)))
    ensures forall n :: n in Nodes(s') && n !in Nodes(s) ==> fresh(n)
    decreases Weight(Tree(s)), 0
  {
    hide Valid, Tree, Nodes, Weight;
    ghost var v := Tree(s);
    Open(s);
    OpenBin(s);
    WeightParts(v);
    var x, u := TransformInPlace(e.left, s.left);
    ghost var vx := Tree(u);
    NodesAllocated(u);
    e.left := x;
    var y, w := TransformInPlace(e.right, s.right);
    e.right := y;
    CloseBin(e, s.op, u, w);
    r, s' := e, SBin(e, s.op, u, w);
  }

  /** A comparison of a boolean symbol with y, m or n. */
  method TransformLeaf(e: Node, ghost s: Shape) returns (ghost s': Shape)
    requires Valid(s) && s.n == e && s.SLeaf?
    modifies e
    ensures Valid(s') && s'.n == e && Tree(s') == Transform(old(Tree(s)))
    ensures forall n :: n in Nodes(s') && n !in Nodes(s) ==> fresh(n)
  {
    s' := s;
    if (e.typ.EEqual? || e.typ.EUnequal?) && TypeOf(e.leftSym).Boolean? && IsTriConst(e.rightSym) {
      if e.rightSym == SymMod {
        e.leftSym := if e.typ.EEqual? then SymNo else SymYes;
        e.typ := ESymbol;
      } else if e.typ.EEqual? == (e.rightSym == SymYes) {
        e.typ := ESymbol;
      } else {
        var x := new Node.Leaf(ESymbol, e.leftSym, SymNo);
        e.typ, e.left, e.right := ENot, x, null;
        s' := SNot(e, SLeaf(x));
      }
    }
  }

  /** A negation whose operand has been transformed. */
  method TransformNotInPlace(e: Node, ghost s: Shape) returns (r: Node, ghost s': Shape)
    requires Valid(s) && s.n == e && s.SNot?
    modifies Nodes(s)
    ensures Valid(s') && s'.n == r && Tree(s') == TransformNot(old(Tree(s.arg)))
    ensures forall n :: n in Nodes(s') && n !in Nodes(s) ==> fresh(n)
    decreases Weight(Tree(s)), 0
  {
    hide Valid, Tree, Nodes, Weight;
    Open(s);
    Open(s.arg);
    ghost var v := Tree(s.arg);
    WeightParts(Tree(s));
    WeightParts(v);
    var a := e.left;
    if a.typ.ENot? {
      r, s' := TransformInPlace(a.left, s.arg.arg);
    } else if a.typ.EAnd? || a.typ.EOr? {
      var bin, t := PushNegation(e, s);
      DeMorganLighter(v.op, v.left, v.right);
      r, s' := TransformInPlace(bin, t);
    } else {
      r, s' := a, s.arg;
      NegateLeaf(e, s);
      if a.typ.ESymbol? && !IsTriConst(a.leftSym) {
        r, s' := e, s;
      }
    }
  }

  /** De Morgan on the nodes: the outer NOT becomes the dual operator, the operator
      becomes the left NOT, and only the right NOT is allocated. */
  method PushNegation(e: Node, ghost s: Shape) returns (r: Node, ghost s': Shape)
    requires Valid(s) && s.n == e && s.SNot? && s.arg.SBin?
    modifies Nodes(s)
    ensures Valid(s') && s'.n == r
    ensures var v := old(Tree(s.arg)); v.Bin? && Tree(s') == Bin(Dual(v.op), Not(v.left), Not(v.right))
    ensures forall n :: n in Nodes(s') && n !in Nodes(s) ==> fresh(n)
  {
    hide Valid, Tree, Nodes;
    Open(s);
    OpenBin(s.arg);
    var tmp := e.left;
    var inner := tmp.right;
    ghost var l, rr := s.arg.left, s.arg.right;
    e.typ := if tmp.typ.EOr? then EAnd else EOr;
    var right := new Node.Inner(ENot, inner, null);
    e.right := right;
    tmp.typ, tmp.right := ENot, null;
    CloseNot(tmp, l);
    CloseNot(right, rr);
    CloseBin(e, Dual(s.arg.op), SNot(tmp, l), SNot(right, rr));
    r, s' := e, SBin(e, Dual(s.arg.op), SNot(tmp, l), SNot(right, rr));
  }

  /** A negated comparison or symbol. */
  method NegateLeaf(e: Node, ghost s: Shape)
    requires Valid(s) && s.n == e && s.SNot? && s.arg.SLeaf?
    modifies e.left
    ensures Valid(s) && Valid(s.arg)
    ensures e.left == old(e.left)
    ensures var v := old(Tree(s.arg));
            if v.Sym? && !IsTriConst(v.sym)
            then Tree(s) == TransformNot(v) && e.left.typ.ESymbol? && e.left.leftSym == v.sym
            else Tree(s.arg) == TransformNot(v) && (e.left.typ.ESymbol? ==> IsTriConst(e.left.leftSym))
  {
    var a := e.left;
    if a.typ.ESymbol? {
      if a.leftSym == SymYes {
        a.leftSym := SymNo;
      } else if a.leftSym == SymNo {
        a.leftSym := SymYes;
      }
    } else {
      a.typ := CompType(Negated(CompOf(a.typ)));
    }
  }
}
