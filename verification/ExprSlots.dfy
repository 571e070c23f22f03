/** The slots of a linked tree that expr_eliminate_dups1 points into, and what writing to
    one of them does to the whole tree (expr.c). */
module ExprSlots {
  import opened Expr
  import opened ExprEq
  import opened ExprDups
  import opened ExprNodes

  /** A struct expr **: the variable holding the whole tree, or a field of a node. */
  datatype Slot = Whole(node: Node) | LeftOf(node: Node) | RightOf(node: Node)

  predicate Field(b: Slot)
    reads b.node
  {
    b.Whole? || b.node.cell.BinCell?
  }

  function Get(b: Slot): Node
    requires Field(b)
    reads b.node
  {
    match b
    case Whole(n) => n
    case LeftOf(n) => n.cell.left
    case RightOf(n) => n.cell.right
  }

  ghost predicate HasPath(s: Shape, p: Path) {
    p == [] || (s.Two? && HasPath(Branch(s, p[0]), p[1..]))
  }

  ghost function Branch(s: Shape, d: Side): Shape
    requires s.Two?
  {
    if d.L? then s.left else s.right
  }

  ghost function ShapeAt(s: Shape, p: Path): Shape
    requires HasPath(s, p)
  {
    if p == [] then s else ShapeAt(Branch(s, p[0]), p[1..])
  }

  ghost function ShapePut(s: Shape, p: Path, x: Shape): Shape
    requires HasPath(s, p)
  {
    if p == [] then x
    else if p[0].L? then Two(s.node, ShapePut(s.left, p[1..], x), s.right)
    else Two(s.node, s.left, ShapePut(s.right, p[1..], x))
  }

  ghost function ChildSlot(n: Node, d: Side): Slot {
    if d.L? then LeftOf(n) else RightOf(n)
  }

  /** The slot at the end of a path; b holds the whole tree. */
  ghost function SlotOf(b: Slot, s: Shape, p: Path): Slot
    requires HasPath(s, p)
    decreases |p|
  {
    if p == [] then b else SlotOf(ChildSlot(s.node, p[0]), Branch(s, p[0]), p[1..])
  }

  /** The nodes outside the subtree at the end of a path. */
  ghost function Outside(s: Shape, p: Path): set<Node>
    requires HasPath(s, p)
    decreases |p|
  {
    if p == [] then {}
    else {s.node} + Nodes(Branch(s, Other(p[0]))) + Outside(Branch(s, p[0]), p[1..])
  }

  function Other(d: Side): Side {
    if d.L? then R else L
  }

  /** The node below the other field of the slot's node. */
  ghost function Sibling(s: Shape, p: Path): Node
    requires HasPath(s, p) && p != []
    decreases |p|
  {
    if |p| == 1 then Branch(s, Other(p[0])).node else Sibling(Branch(s, p[0]), p[1..])
  }

  /** The nodes outside the subtree but for the one with the slot. */
  ghost function Around(s: Shape, p: Path): set<Node>
    requires HasPath(s, p)
    decreases |p|
  {
    if p == [] then {}
    else
      Nodes(Branch(s, Other(p[0])))
      + if |p| == 1 then {} else {s.node} + Around(Branch(s, p[0]), p[1..])
  }

  /** The tree is stored but for the subtree at the end of a non-empty path and the node
      holding its slot. */
  ghost predicate Holed(n: Node, e: Expr, s: Shape, p: Path)
    requires HasPath(s, p)
    reads Around(s, p)
    decreases |p|
  {
    p == [] ||
    (var d := p[0];
     && e.Bin? && n == s.node
     && Stored(Branch(s, Other(d)).node, Child(e, Other(d)), Branch(s, Other(d)))
     && n !in Nodes(Branch(s, Other(d)))
     && n !in Outside(Branch(s, d), p[1..]) && Nodes(Branch(s, Other(d))) !! Outside(Branch(s, d), p[1..])
     && (|p| > 1 ==>
           && n.cell.BinCell? && n.cell.op == e.op
           && Get(ChildSlot(n, Other(d))) == Branch(s, Other(d)).node && Get(ChildSlot(n, d)) == Branch(s, d).node
           && Holed(Branch(s, d).node, Child(e, d), Branch(s, d), p[1..])))
  }

  /** The node with the slot is a node of the connective t and keeps its other operand. */
  ghost predicate Holds(t: Junction, b: Slot, s: Shape, p: Path)
    requires HasPath(s, p)
    reads SlotOf(b, s, p).node
  {
    p != [] ==>
      var w := SlotOf(b, s, p).node;
      w.cell.BinCell? && w.cell.op == t && Get(ChildSlot(w, Other(p[|p| - 1]))) == Sibling(s, p)
  }

  /** A stored tree falls apart into a subtree and what is around it. */
  lemma {:induction false} StoredPath(t: Junction, b: Slot, e: Expr, s: Shape, p: Path)
    requires Field(b) && Stored(Get(b), e, s) && InSpine(t, e, p)
    ensures HasPath(s, p)
    ensures Stored(ShapeAt(s, p).node, At(t, e, p), ShapeAt(s, p)) && Holed(s.node, e, s, p)
    ensures Nodes(s) == Outside(s, p) + Nodes(ShapeAt(s, p)) && Outside(s, p) !! Nodes(ShapeAt(s, p))
    ensures Field(SlotOf(b, s, p)) && Get(SlotOf(b, s, p)) == ShapeAt(s, p).node
    ensures Holds(t, b, s, p) && Outside(s, p) == if p == [] then {} else {SlotOf(b, s, p).node} + Around(s, p)
    ensures p != [] ==> SlotOf(b, s, p).node !in Around(s, p)
  {
    PathParts(t, e, s, p);
    PathSlot(t, b, e, s, p);
  }

  /** The subtree and the rest. */
  lemma {:induction false} PathParts(t: Junction, e: Expr, s: Shape, p: Path)
    requires Stored(s.node, e, s) && InSpine(t, e, p)
    ensures HasPath(s, p)
    ensures Stored(ShapeAt(s, p).node, At(t, e, p), ShapeAt(s, p)) && Holed(s.node, e, s, p)
    ensures Nodes(s) == Outside(s, p) + Nodes(ShapeAt(s, p)) && Outside(s, p) !! Nodes(ShapeAt(s, p))
    decreases |p|
  {
    if p != [] {
      PathParts(t, Child(e, p[0]), Branch(s, p[0]), p[1..]);
    }
  }

  /** The slot of the subtree and its node. */
  lemma {:induction false} PathSlot(t: Junction, b: Slot, e: Expr, s: Shape, p: Path)
    requires Field(b) && Stored(Get(b), e, s) && InSpine(t, e, p)
    ensures HasPath(s, p)
    ensures Field(SlotOf(b, s, p)) && Get(SlotOf(b, s, p)) == ShapeAt(s, p).node
    ensures Holds(t, b, s, p) && Outside(s, p) == if p == [] then {} else {SlotOf(b, s, p).node} + Around(s, p)
    ensures p != [] ==> SlotOf(b, s, p).node !in Around(s, p)
    decreases |p|
  {
    if p != [] {
      var d, rest := p[0], p[1..];
      PathSlot(t, ChildSlot(s.node, d), Child(e, d), Branch(s, d), rest);
      PathParts(t, Child(e, d), Branch(s, d), rest);
    }
  }

  lemma {:induction false} SlotInside(b: Slot, s: Shape, p: Path)
    requires HasPath(s, p) && p != []
    ensures SlotOf(b, s, p).node in Outside(s, p)
    ensures SlotOf(b, s, p) == ChildSlot(SlotOf(b, s, p).node, p[|p| - 1])
    decreases |p|
  {
    if |p| > 1 {
      SlotInside(ChildSlot(s.node, p[0]), Branch(s, p[0]), p[1..]);
    }
  }

  /** With another tree in the hole the whole is stored again. */
  lemma {:induction false} FillHole(t: Junction, b: Slot, e: Expr, s: Shape, p: Path, y: Expr, x: Shape)
    requires InSpine(t, e, p) && HasPath(s, p) && Holed(s.node, e, s, p)
    requires Holds(t, b, s, p)
    requires Field(SlotOf(b, s, p)) && Stored(Get(SlotOf(b, s, p)), y, x) && Outside(s, p) !! Nodes(x)
    ensures p != [] ==> ShapePut(s, p, x).node == s.node && Stored(s.node, Put(t, e, p, y), ShapePut(s, p, x))
    ensures Nodes(ShapePut(s, p, x)) == Outside(s, p) + Nodes(x)
    decreases |p|
  {
    if p != [] {
      var d, rest := p[0], p[1..];
      FillHole(t, ChildSlot(s.node, d), Child(e, d), Branch(s, d), rest, y, x);
      FillField(t, e, s, d, Put(t, Child(e, d), rest, y), ShapePut(Branch(s, d), rest, x));
    }
  }

  /** Another tree below one field of the top node. */
  lemma FillField(t: Junction, e: Expr, s: Shape, d: Side, y: Expr, x: Shape)
    requires Is(t, e) && s.Two? && s.node.cell.BinCell? && s.node.cell.op == t
    requires Get(ChildSlot(s.node, d)) == x.node && Stored(x.node, y, x)
    requires var o := Branch(s, Other(d));
             && Get(ChildSlot(s.node, Other(d))) == o.node && Stored(o.node, Child(e, Other(d)), o)
             && s.node !in Nodes(o) && s.node !in Nodes(x) && Nodes(o) !! Nodes(x)
    ensures Stored(s.node, if d.L? then Bin(t, y, e.right) else Bin(t, e.left, y),
                   if d.L? then Two(s.node, x, s.right) else Two(s.node, s.left, x))
  {
  }

  /** The slots below a slot. */
  lemma {:induction false} SlotsBelow(b: Slot, s: Shape, p: Path, d: Side)
    requires HasPath(s, p) && ShapeAt(s, p).Two?
    ensures HasPath(s, p + [d]) && SlotOf(b, s, p + [d]) == ChildSlot(ShapeAt(s, p).node, d)
    ensures ShapeAt(s, p + [d]) == Branch(ShapeAt(s, p), d)
    decreases |p|
  {
    if p == [] {
      assert (p + [d])[1..] == [];
    } else {
      SlotsBelow(ChildSlot(s.node, p[0]), Branch(s, p[0]), p[1..], d);
      assert (p + [d])[1..] == p[1..] + [d];
    }
  }

  /** The same nodes carry the connective t. */
  ghost predicate SameNodes(t: Junction, e: Expr, s: Shape, r: Shape)
    decreases e
  {
    Is(t, e) ==>
      && s.Two? && r.Two? && s.node == r.node
      && SameNodes(t, e.left, s.left, r.left) && SameNodes(t, e.right, s.right, r.right)
  }

  lemma {:induction false} SameSlots(t: Junction, e: Expr, b: Slot, s: Shape, r: Shape, p: Path)
    requires SameNodes(t, e, s, r) && InSpine(t, e, p)
    ensures HasPath(s, p) && HasPath(r, p) && SlotOf(b, s, p) == SlotOf(b, r, p)
    ensures Is(t, At(t, e, p)) ==> ShapeAt(s, p).Two? && ShapeAt(r, p).Two? && ShapeAt(s, p).node == ShapeAt(r, p).node
    decreases |p|
  {
    if p != [] {
      SameSlots(t, Child(e, p[0]), ChildSlot(s.node, p[0]), Branch(s, p[0]), Branch(r, p[0]), p[1..]);
    }
  }

  lemma {:induction false} SameNodesTrans(t: Junction, e: Expr, f: Expr, s: Shape, r: Shape, q: Shape)
    requires SameSpine(t, e, f) && SameNodes(t, e, s, r) && SameNodes(t, f, r, q)
    ensures SameNodes(t, e, s, q)
    decreases e
  {
    if Is(t, e) {
      SameNodesTrans(t, e.left, f.left, s.left, r.left, q.left);
      SameNodesTrans(t, e.right, f.right, s.right, r.right, q.right);
    }
  }

  lemma {:induction false} SameNodesRefl(t: Junction, e: Expr, s: Shape, n: Node)
    requires Stored(n, e, s)
    ensures SameNodes(t, e, s, s)
    decreases e
  {
    if Is(t, e) {
      SameNodesRefl(t, e.left, s.left, n.cell.left);
      SameNodesRefl(t, e.right, s.right, n.cell.right);
    }
  }

  lemma {:induction false} SameNodesPut(t: Junction, e: Expr, s: Shape, p: Path, x: Shape)
    requires SameNodes(t, e, s, s) && InSpine(t, e, p) && !Is(t, At(t, e, p))
    ensures HasPath(s, p) && SameNodes(t, e, s, ShapePut(s, p, x))
    decreases |p|
  {
    if p != [] {
      SameNodesPut(t, Child(e, p[0]), Branch(s, p[0]), p[1..], x);
    }
  }

  /** Two operands in different slots are different nodes. */
  lemma {:induction false} DifferentNodes(t: Junction, e: Expr, s: Shape, n: Node, p: Path, q: Path)
    requires Stored(n, e, s) && InSpine(t, e, p) && InSpine(t, e, q) && p != q
    requires !Is(t, At(t, e, p)) && !Is(t, At(t, e, q))
    ensures HasPath(s, p) && HasPath(s, q) && ShapeAt(s, p).node != ShapeAt(s, q).node
    ensures p != [] && q != []
    decreases |p|
  {
    if p != [] && q != [] {
      var d, x, k := p[0], Branch(s, p[0]), Child(e, p[0]);
      if d == q[0] {
        assert p == [d] + p[1..] && q == [d] + q[1..];
        DifferentNodes(t, k, x, x.node, p[1..], q[1..]);
      } else {
        PathParts(t, k, x, p[1..]);
        PathParts(t, Child(e, q[0]), Branch(s, q[0]), q[1..]);
      }
    }
  }

  /** *b = m, where b is the slot of an operand. */
  method Overwrite(t: Junction, b: Slot, m: Node, ghost n: Node, ghost e: Expr, ghost s: Shape, ghost p: Path,
                   ghost y: Expr, ghost x: Shape)
    returns (ghost r: Shape)
    requires Stored(n, e, s) && InSpine(t, e, p) && p != [] && HasPath(s, p) && b == SlotOf(Whole(n), s, p)
    requires !Is(t, At(t, e, p)) && Stored(m, y, x) && Nodes(x) !! Nodes(s)
    modifies Nodes(s)
    ensures Stored(n, Put(t, e, p, y), r) && SameNodes(t, e, s, r) && Nodes(r) <= Nodes(s) + Nodes(x)
  {
    StoredPath(t, Whole(n), e, s, p);
    SlotInside(Whole(n), s, p);
    SameNodesRefl(t, e, s, n);
    SameNodesPut(t, e, s, p, x);
    NodesAllocated(s);
    NodesAllocated(x);
    if b.LeftOf? {
      b.node.cell := b.node.cell.(left := m);
    } else {
      b.node.cell := b.node.cell.(right := m);
    }
    FillHole(t, Whole(n), e, s, p, y, x);
    r := ShapePut(s, p, x);
  }
}
