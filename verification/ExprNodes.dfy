/** Expression trees as linked nodes, and the two rewritings that run down one tree and
    overwrite its nodes: expr_eliminate_yn and expr_transform (expr.c). */
module ExprNodes {
  import opened Expr
  import opened ExprEq
  import opened ExprTransform

  /** The contents of a struct expr. */
  datatype Cell =
    | LeafCell(sym: Symbol)
    | CmpCell(rel: Relation, lhs: Symbol, rhs: Symbol)
    | NotCell(arg: Node)
    | BinCell(op: Junction, left: Node, right: Node)

  class Node {
    var cell: Cell

    constructor (cell: Cell)
      ensures this.cell == cell
    {
      this.cell := cell;
    }
  }

  /** The nodes a tree occupies. */
  datatype Shape = Tip(node: Node) | One(node: Node, arg: Shape) | Two(node: Node, left: Shape, right: Shape)

  ghost function Nodes(s: Shape): set<Node> {
    match s
    case Tip(n) => {n}
    case One(n, a) => {n} + Nodes(a)
    case Two(n, l, r) => {n} + Nodes(l) + Nodes(r)
  }

  lemma {:induction false} NodesAllocated(s: Shape)
    ensures allocated(Nodes(s))
  {
    match s
    case Tip(_) =>
    case One(_, a) => NodesAllocated(a);
    case Two(_, l, r) => NodesAllocated(l); NodesAllocated(r);
  }

  /** The tree e hangs at n, occupies exactly the nodes of s and shares none of them. */
  ghost predicate Stored(n: Node, e: Expr, s: Shape)
    reads Nodes(s)
    decreases e
  {
    && n == s.node
    && match e
       case Leaf(sym) => s.Tip? && n.cell == LeafCell(sym)
       case Cmp(rel, a, b) => s.Tip? && n.cell == CmpCell(rel, a, b)
       case Not(a) => s.One? && n.cell.NotCell? && n !in Nodes(s.arg) && Stored(n.cell.arg, a, s.arg)
       case Bin(op, l, r) =>
         && s.Two? && n.cell.BinCell? && n.cell.op == op
         && n !in Nodes(s.left) && n !in Nodes(s.right) && Nodes(s.left) !! Nodes(s.right)
         && Stored(n.cell.left, l, s.left) && Stored(n.cell.right, r, s.right)
  }

  /** The shape with another node on top. */
  ghost function Rehead(n: Node, s: Shape): Shape {
    match s
    case Tip(_) => Tip(n)
    case One(_, a) => One(n, a)
    case Two(_, l, r) => Two(n, l, r)
  }

  /** A rewritten tree sits in old and in new nodes. */
  twostate predicate Grown(new r: Shape, s: Shape) {
    forall n: Node :: n in Nodes(r) ==> n in Nodes(s) || fresh(n)
  }

  /** expr_copy. */
  method Copy(n: Node, ghost e: Expr, ghost s: Shape) returns (m: Node, ghost r: Shape)
    requires Stored(n, e, s)
    ensures Stored(m, e, r) && fresh(Nodes(r))
    decreases e
  {
    NodesAllocated(s);
    match n.cell
    case LeafCell(_) =>
      m := new Node(n.cell);
      r := Tip(m);
    case CmpCell(_, _, _) =>
      m := new Node(n.cell);
      r := Tip(m);
    case NotCell(arg) =>
      var a, x := Copy(arg, e.arg, s.arg);
      NodesAllocated(x);
      m := new Node(NotCell(a));
      r := One(m, x);
    case BinCell(op, left, right) =>
      var l, x := Copy(left, e.left, s.left);
      NodesAllocated(x);
      var k, y := Copy(right, e.right, s.right);
      NodesAllocated(y);
      m := new Node(BinCell(op, l, k));
      r := Two(m, x, y);
  }

  /** The rules of expr_eliminate_yn for one connective: the node is overwritten. */
  method AbsorbAt(n: Node, ghost l: Expr, ghost k: Expr, ghost s: Shape) returns (ghost r: Shape)
    requires n.cell.BinCell? && Stored(n, Bin(n.cell.op, l, k), s)
    modifies n
    ensures Stored(n, Absorb(old(n.cell).op, l, k), r) && Nodes(r) <= Nodes(s)
  {
    r := s;
    var op, left, right := n.cell.op, n.cell.left, n.cell.right;
    if left.cell.LeafCell? {
      if left.cell.sym == op.Zero() {
        n.cell := LeafCell(op.Zero());
        return Tip(n);
      } else if left.cell.sym == op.Unit() {
        n.cell := right.cell;
        return Rehead(n, s.right);
      }
    }
    if right.cell.LeafCell? {
      if right.cell.sym == op.Zero() {
        n.cell := LeafCell(op.Zero());
        return Tip(n);
      } else if right.cell.sym == op.Unit() {
        n.cell := left.cell;
        return Rehead(n, s.left);
      }
    }
  }

  /** expr_eliminate_yn: the top node stays. */
  method EliminateYnAt(n: Node, ghost e: Expr, ghost s: Shape) returns (ghost r: Shape)
    requires Stored(n, e, s)
    modifies Nodes(s)
    ensures Stored(n, EliminateYn(e), r) && Nodes(r) <= Nodes(s)
    decreases e
  {
    r := s;
    NodesAllocated(s);
    if n.cell.BinCell? {
      ghost var x := EliminateYnAt(n.cell.left, e.left, s.left);
      ghost var y := EliminateYnAt(n.cell.right, e.right, s.right);
      r := AbsorbAt(n, EliminateYn(e.left), EliminateYn(e.right), Two(n, x, y));
    }
  }

  /** The comparison rules of expr_transform. */
  method TransformCmpAt(n: Node, ghost e: Expr, ghost s: Shape) returns (ghost r: Shape)
    requires Stored(n, e, s) && e.Cmp?
    modifies Nodes(s)
    ensures Stored(n, TransformCmp(e), r) && Grown(r, s)
  {
    r := s;
    var lhs, rhs := n.cell.lhs, n.cell.rhs;
    if lhs.Type() == Boolean {
      if n.cell.rel == Eq {
        if rhs == No {
          var leaf := new Node(LeafCell(lhs));
          n.cell := NotCell(leaf);
          r := One(n, Tip(leaf));
        } else if rhs == Mod {
          n.cell := LeafCell(No);
        } else if rhs == Yes {
          n.cell := LeafCell(lhs);
        }
      } else if n.cell.rel == Neq {
        if rhs == No {
          n.cell := LeafCell(lhs);
        } else if rhs == Mod {
          n.cell := LeafCell(Yes);
        } else if rhs == Yes {
          var leaf := new Node(LeafCell(lhs));
          n.cell := NotCell(leaf);
          r := One(n, Tip(leaf));
        }
      }
    }
  }

  /** expr_transform. */
  method TransformAt(n: Node, ghost e: Expr, ghost s: Shape) returns (m: Node, ghost r: Shape)
    requires Stored(n, e, s)
    modifies Nodes(s)
    ensures Stored(m, Transform(e), r) && Grown(r, s)
    decreases Weight(e), 1
  {
    m, r := n, s;
    match n.cell
    case LeafCell(_) =>
    case CmpCell(_, _, _) =>
      r := TransformCmpAt(n, e, s);
    case BinCell(op, left, right) =>
      NodesAllocated(s);
      var l, x := TransformAt(left, e.left, s.left);
      NodesAllocated(x);
      var k, y := TransformAt(right, e.right, s.right);
      NodesAllocated(y);
      n.cell := BinCell(op, l, k);
      r := Two(n, x, y);
    case NotCell(arg) =>
      NodesAllocated(s);
      var a, x := TransformAt(arg, e.arg, s.arg);
      n.cell := NotCell(a);
      NodesAllocated(x);
      m, r := NegateAt(n, a, Transform(e.arg), One(n, x));
  }

  /** The rules of expr_transform for a negation whose operand has been transformed. */
  method NegateAt(n: Node, a: Node, ghost e: Expr, ghost s: Shape) returns (m: Node, ghost r: Shape)
    requires Stored(n, Not(e), s) && n.cell == NotCell(a)
    modifies Nodes(s)
    ensures Stored(m, Negated(e), r) && Grown(r, s)
    decreases 2 * Weight(e), 0
  {
    NodesAllocated(s);
    match a.cell
    case NotCell(b) =>
      m, r := TransformAt(b, e.arg, s.arg.arg);
    case CmpCell(rel, lhs, rhs) =>
      m, r := a, s.arg;
      a.cell := CmpCell(rel.Opposite(), lhs, rhs);
    case BinCell(op, left, right) =>
      var other := new Node(NotCell(right));
      assert Nodes(s) == {n, a} + Nodes(s.arg.left) + Nodes(s.arg.right);
      n.cell := BinCell(op.Dual(), a, other);
      a.cell := NotCell(left);
      ghost var d := Two(n, One(a, s.arg.left), One(other, s.arg.right));
      assert Nodes(One(a, s.arg.left)) == {a} + Nodes(s.arg.left)
        && Nodes(One(other, s.arg.right)) == {other} + Nodes(s.arg.right);
      m, r := TransformAt(n, Distribute(op, e.left, e.right), d);
    case LeafCell(sym) =>
      m, r := n, s;
      if sym.IsStatic() {
        m, r := a, s.arg;
        a.cell := LeafCell(if sym == Yes then No else if sym == Mod then Mod else Yes);
      }
  }

  /** expr_trans_bool: only cells change. */
  method TransBoolAt(n: Node, ghost e: Expr, ghost s: Shape)
    requires Stored(n, e, s)
    modifies Nodes(s)
    ensures Stored(n, TransBool(e), s)
    decreases e
  {
    NodesAllocated(s);
    match n.cell
    case LeafCell(_) =>
    case CmpCell(rel, lhs, rhs) =>
      if rel == Neq && lhs.Type() == Tri && rhs == No {
        n.cell := LeafCell(lhs);
      }
    case NotCell(arg) =>
      TransBoolAt(arg, e.arg, s.arg);
    case BinCell(_, left, right) =>
      TransBoolAt(left, e.left, s.left);
      TransBoolAt(right, e.right, s.right);
  }
}
