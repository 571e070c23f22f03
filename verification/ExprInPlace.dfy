/** Cancelling and merging operands on linked nodes, with the counter trans_count
    (__expr_eliminate_eq, expr_eliminate_eq, expr_eq and the expr_eliminate_dups pair in expr.c). */
module ExprInPlace {
  import opened Expr
  import opened ExprEq
  import opened ExprJoin
  import opened ExprDups
  import opened ExprNodes
  import opened ExprSlots
  import opened Wrappers

  /** e->left.expr = m */
  method SetLeft(n: Node, m: Node, ghost t: Junction, ghost l: Expr, ghost k: Expr, ghost x: Shape, ghost y: Shape)
    requires n.cell.BinCell? && n.cell.op == t && Stored(m, l, x) && Stored(n.cell.right, k, y)
    requires n !in Nodes(x) && n !in Nodes(y) && Nodes(x) !! Nodes(y)
    modifies n
    ensures n.cell == BinCell(t, m, old(n.cell.right)) && Stored(n, Bin(t, l, k), Two(n, x, y))
  {
    n.cell := n.cell.(left := m);
  }

  /** e->right.expr = m */
  method SetRight(n: Node, m: Node, ghost t: Junction, ghost l: Expr, ghost k: Expr, ghost x: Shape, ghost y: Shape)
    requires n.cell.BinCell? && n.cell.op == t && Stored(n.cell.left, l, x) && Stored(m, k, y)
    requires n !in Nodes(x) && n !in Nodes(y) && Nodes(x) !! Nodes(y)
    modifies n
    ensures n.cell == BinCell(t, old(n.cell.left), m) && Stored(n, Bin(t, l, k), Two(n, x, y))
  {
    n.cell := n.cell.(right := m);
  }

  class Simplifier {
    var transCount: nat

    /** expr_eq: it works on copies and puts the counter back. */
    method Equal(n1: Node, n2: Node, ghost e1: Expr, ghost e2: Expr, ghost s1: Shape, ghost s2: Shape)
      returns (res: bool)
      requires Stored(n1, e1, s1) && Stored(n2, e2, s2)
      modifies this
      ensures res == Same(e1, e2) && transCount == old(transCount)
      decreases Size(e1) + Size(e2), 3, 0
    {
      match (n1.cell, n2.cell)
      case (LeafCell(a), LeafCell(b)) => res := a == b;
      case (CmpCell(_, _, _), CmpCell(_, _, _)) => res := n1.cell == n2.cell;
      case (NotCell(a), NotCell(b)) => res := Equal(a, b, e1.arg, e2.arg, s1.arg, s2.arg);
      case (BinCell(o, _, _), BinCell(p, _, _)) =>
        if o != p {
          return false;
        }
        NodesAllocated(s1);
        NodesAllocated(s2);
        var c1, x1 := Copy(n1, e1, s1);
        NodesAllocated(x1);
        var c2, x2 := Copy(n2, e2, s2);
        var oldCount := transCount;
        ghost var y1, y2;
        c1, c2, y1, y2 := EliminateEqAt(c1, c2, e1, e2, x1, x2);
        res := c1.cell.LeafCell? && c1.cell == c2.cell;
        transCount := oldCount;
      case _ => res := false;
    }

    /** expr_eliminate_eq on two trees that share no node. */
    method EliminateEqAt(n1: Node, n2: Node, ghost e1: Expr, ghost e2: Expr, ghost s1: Shape, ghost s2: Shape)
      returns (m1: Node, m2: Node, ghost r1: Shape, ghost r2: Shape)
      requires Stored(n1, e1, s1) && Stored(n2, e2, s2) && Nodes(s1) !! Nodes(s2)
      modifies this, Nodes(s1), Nodes(s2)
      ensures Stored(m1, EliminateEq(e1, e2).0, r1) && Stored(m2, EliminateEq(e1, e2).1, r2)
      ensures Nodes(r1) !! Nodes(r2) && Grown(r1, s1) && Grown(r2, s2)
      ensures transCount == old(transCount) + CancelledBoth(e1, e2)
      decreases Size(e1) + Size(e2), 2
    {
      NodesAllocated(s1);
      NodesAllocated(s2);
      m1, m2, r1, r2 := CancelBothAt(n1, n2, e1, e2, s1, s2);
      NodesAllocated(r1);
      NodesAllocated(r2);
      ghost var f := CancelBoth(e1, e2);
      r1 := EliminateYnAt(m1, f.0, r1);
      NodesAllocated(r1);
      r2 := EliminateYnAt(m2, f.1, r2);
    }

    /** Its two passes. */
    method CancelBothAt(n1: Node, n2: Node, ghost e1: Expr, ghost e2: Expr, ghost s1: Shape, ghost s2: Shape)
      returns (m1: Node, m2: Node, ghost r1: Shape, ghost r2: Shape)
      requires Stored(n1, e1, s1) && Stored(n2, e2, s2) && Nodes(s1) !! Nodes(s2)
      modifies this, Nodes(s1), Nodes(s2)
      ensures Stored(m1, CancelBoth(e1, e2).0, r1) && Stored(m2, CancelBoth(e1, e2).1, r2)
      ensures Nodes(r1) !! Nodes(r2) && Grown(r1, s1) && Grown(r2, s2)
      ensures transCount == old(transCount) + CancelledBoth(e1, e2)
      decreases Size(e1) + Size(e2), 1
    {
      m1, m2, r1, r2 := n1, n2, s1, s2;
      NodesAllocated(s1);
      NodesAllocated(s2);
      ghost var f := (e1, e2);
      if n1.cell.BinCell? {
        f := Cancel(n1.cell.op, e1, e2);
        m1, m2, r1, r2 := CancelAt(n1.cell.op, n1, n2, e1, e2, s1, s2);
      }
      NodesAllocated(r1);
      NodesAllocated(r2);
      if m2.cell.BinCell? && !(m1.cell.BinCell? && m1.cell.op == m2.cell.op) {
        m1, m2, r1, r2 := CancelAt(m2.cell.op, m1, m2, f.0, f.1, r1, r2);
      }
    }

    /** __expr_eliminate_eq: the results are what is left in the two slots. */
    method CancelAt(t: Junction, n1: Node, n2: Node, ghost e1: Expr, ghost e2: Expr, ghost s1: Shape, ghost s2: Shape)
      returns (m1: Node, m2: Node, ghost r1: Shape, ghost r2: Shape)
      requires Stored(n1, e1, s1) && Stored(n2, e2, s2) && Nodes(s1) !! Nodes(s2)
      modifies this, Nodes(s1), Nodes(s2)
      ensures Stored(m1, Cancel(t, e1, e2).0, r1) && Stored(m2, Cancel(t, e1, e2).1, r2)
      ensures Nodes(r1) !! Nodes(r2) && Grown(r1, s1) && Grown(r2, s2)
      ensures transCount == old(transCount) + Cancelled(t, e1, e2)
      decreases Size(e1) + Size(e2), if Is(t, e1) || Is(t, e2) then 0 else 4, 1
    {
      if n1.cell.BinCell? && n1.cell.op == t {
        m1, m2, r1, r2 := CancelFirst(t, n1, n2, e1, e2, s1, s2);
      } else if n2.cell.BinCell? && n2.cell.op == t {
        m1, m2, r1, r2 := CancelSecond(t, n1, n2, e1, e2, s1, s2);
      } else {
        m1, m2, r1, r2 := CancelPair(t, n1, n2, e1, e2, s1, s2);
      }
    }

    method CancelFirst(t: Junction, n1: Node, n2: Node, ghost e1: Expr, ghost e2: Expr, ghost s1: Shape, ghost s2: Shape)
      returns (m1: Node, m2: Node, ghost r1: Shape, ghost r2: Shape)
      requires Stored(n1, e1, s1) && Stored(n2, e2, s2) && Nodes(s1) !! Nodes(s2)
      requires Is(t, e1)
      modifies this, Nodes(s1), Nodes(s2)
      ensures Stored(m1, Cancel(t, e1, e2).0, r1) && Stored(m2, Cancel(t, e1, e2).1, r2)
      ensures Nodes(r1) !! Nodes(r2) && Grown(r1, s1) && Grown(r2, s2)
      ensures transCount == old(transCount) + Cancelled(t, e1, e2)
      decreases Size(e1) + Size(e2), 0, 0
    {
      NodesAllocated(s1);
      NodesAllocated(s2);
      ghost var x, y;
      ghost var (l, f2) := Cancel(t, e1.left, e2);
      m2, x, r2 := FirstLeft(t, n1, n2, e1.left, e1.right, e2, s1.left, s1.right, s2);
      NodesAllocated(x);
      NodesAllocated(r2);
      m2, y, r2 := FirstRight(t, n1, m2, l, e1.right, f2, x, s1.right, r2);
      m1, r1 := n1, Two(n1, x, y);
    }

    method CancelSecond(t: Junction, n1: Node, n2: Node, ghost e1: Expr, ghost e2: Expr, ghost s1: Shape, ghost s2: Shape)
      returns (m1: Node, m2: Node, ghost r1: Shape, ghost r2: Shape)
      requires Stored(n1, e1, s1) && Stored(n2, e2, s2) && Nodes(s1) !! Nodes(s2)
      requires !Is(t, e1) && Is(t, e2)
      modifies this, Nodes(s1), Nodes(s2)
      ensures Stored(m1, Cancel(t, e1, e2).0, r1) && Stored(m2, Cancel(t, e1, e2).1, r2)
      ensures Nodes(r1) !! Nodes(r2) && Grown(r1, s1) && Grown(r2, s2)
      ensures transCount == old(transCount) + Cancelled(t, e1, e2)
      decreases Size(e1) + Size(e2), 0, 0
    {
      NodesAllocated(s1);
      NodesAllocated(s2);
      ghost var x, y;
      ghost var (f1, l) := Cancel(t, e1, e2.left);
      m1, x, r1 := SecondLeft(t, n2, n1, e2.left, e2.right, e1, s2.left, s2.right, s1);
      NodesAllocated(x);
      NodesAllocated(r1);
      m1, y, r1 := SecondRight(t, n2, m1, l, e2.right, f1, x, s2.right, r1);
      m2, r2 := n2, Two(n2, x, y);
    }

    /** One slot of a node of the connective t against the other tree. */
    method FirstLeft(t: Junction, n: Node, other: Node, ghost l: Expr, ghost k: Expr, ghost e: Expr,
                  ghost x: Shape, ghost y: Shape, ghost s: Shape)
      returns (m: Node, ghost z: Shape, ghost r: Shape)
      requires Stored(n, Bin(t, l, k), Two(n, x, y)) && Stored(other, e, s)
      requires n !in Nodes(s) && Nodes(x) !! Nodes(s) && Nodes(y) !! Nodes(s)
      modifies this, n, Nodes(x), Nodes(s)
      ensures Stored(n, Bin(t, Cancel(t, l, e).0, k), Two(n, z, y)) && Stored(m, Cancel(t, l, e).1, r)
      ensures n !in Nodes(r) && Nodes(y) !! Nodes(r) && Nodes(z) !! Nodes(r)
      ensures Grown(z, x) && Grown(r, s)
      ensures transCount == old(transCount) + Cancelled(t, l, e)
      decreases Size(l) + Size(e), 5
    {
      NodesAllocated(x);
      NodesAllocated(y);
      NodesAllocated(s);
      var slot;
      ghost var (f, g) := Cancel(t, l, e);
      slot, m, z, r := CancelAt(t, n.cell.left, other, l, e, x, s);
      NodesAllocated(z);
      NodesAllocated(r);
      assert Stored(n.cell.right, k, y) && Stored(m, g, r);
      SetLeft(n, slot, t, f, k, z, y);
      assert Stored(m, g, r);
    }

    method FirstRight(t: Junction, n: Node, other: Node, ghost l: Expr, ghost k: Expr, ghost e: Expr,
                  ghost x: Shape, ghost y: Shape, ghost s: Shape)
      returns (m: Node, ghost z: Shape, ghost r: Shape)
      requires Stored(n, Bin(t, l, k), Two(n, x, y)) && Stored(other, e, s)
      requires n !in Nodes(s) && Nodes(x) !! Nodes(s) && Nodes(y) !! Nodes(s)
      modifies this, n, Nodes(y), Nodes(s)
      ensures Stored(n, Bin(t, l, Cancel(t, k, e).0), Two(n, x, z)) && Stored(m, Cancel(t, k, e).1, r)
      ensures n !in Nodes(r) && Nodes(x) !! Nodes(r) && Nodes(z) !! Nodes(r)
      ensures Grown(z, y) && Grown(r, s)
      ensures transCount == old(transCount) + Cancelled(t, k, e)
      decreases Size(k) + Size(e), 5
    {
      NodesAllocated(x);
      NodesAllocated(y);
      NodesAllocated(s);
      var slot;
      ghost var (f, g) := Cancel(t, k, e);
      slot, m, z, r := CancelAt(t, n.cell.right, other, k, e, y, s);
      NodesAllocated(z);
      NodesAllocated(r);
      assert Stored(n.cell.left, l, x) && Stored(m, g, r);
      SetRight(n, slot, t, l, f, x, z);
      assert Stored(m, g, r);
    }

    method SecondLeft(t: Junction, n: Node, other: Node, ghost l: Expr, ghost k: Expr, ghost e: Expr,
                  ghost x: Shape, ghost y: Shape, ghost s: Shape)
      returns (m: Node, ghost z: Shape, ghost r: Shape)
      requires Stored(n, Bin(t, l, k), Two(n, x, y)) && Stored(other, e, s)
      requires n !in Nodes(s) && Nodes(x) !! Nodes(s) && Nodes(y) !! Nodes(s)
      modifies this, n, Nodes(x), Nodes(s)
      ensures Stored(n, Bin(t, Cancel(t, e, l).1, k), Two(n, z, y)) && Stored(m, Cancel(t, e, l).0, r)
      ensures n !in Nodes(r) && Nodes(y) !! Nodes(r) && Nodes(z) !! Nodes(r)
      ensures Grown(z, x) && Grown(r, s)
      ensures transCount == old(transCount) + Cancelled(t, e, l)
      decreases Size(l) + Size(e), 5
    {
      NodesAllocated(x);
      NodesAllocated(y);
      NodesAllocated(s);
      var slot;
      ghost var (g, f) := Cancel(t, e, l);
      m, slot, r, z := CancelAt(t, other, n.cell.left, e, l, s, x);
      NodesAllocated(z);
      NodesAllocated(r);
      assert Stored(n.cell.right, k, y) && Stored(m, g, r);
      SetLeft(n, slot, t, f, k, z, y);
      assert Stored(m, g, r);
    }

    method SecondRight(t: Junction, n: Node, other: Node, ghost l: Expr, ghost k: Expr, ghost e: Expr,
                  ghost x: Shape, ghost y: Shape, ghost s: Shape)
      returns (m: Node, ghost z: Shape, ghost r: Shape)
      requires Stored(n, Bin(t, l, k), Two(n, x, y)) && Stored(other, e, s)
      requires n !in Nodes(s) && Nodes(x) !! Nodes(s) && Nodes(y) !! Nodes(s)
      modifies this, n, Nodes(y), Nodes(s)
      ensures Stored(n, Bin(t, l, Cancel(t, e, k).1), Two(n, x, z)) && Stored(m, Cancel(t, e, k).0, r)
      ensures n !in Nodes(r) && Nodes(x) !! Nodes(r) && Nodes(z) !! Nodes(r)
      ensures Grown(z, y) && Grown(r, s)
      ensures transCount == old(transCount) + Cancelled(t, e, k)
      decreases Size(k) + Size(e), 5
    {
      NodesAllocated(x);
      NodesAllocated(y);
      NodesAllocated(s);
      var slot;
      ghost var (g, f) := Cancel(t, e, k);
      m, slot, r, z := CancelAt(t, other, n.cell.right, e, k, s, y);
      NodesAllocated(z);
      NodesAllocated(r);
      assert Stored(n.cell.left, l, x) && Stored(m, g, r);
      SetRight(n, slot, t, l, f, x, z);
      assert Stored(m, g, r);
    }

    /** Two operands: equal ones are replaced by the unit of the connective. */
    method CancelPair(t: Junction, n1: Node, n2: Node, ghost e1: Expr, ghost e2: Expr, ghost s1: Shape, ghost s2: Shape)
      returns (m1: Node, m2: Node, ghost r1: Shape, ghost r2: Shape)
      requires Stored(n1, e1, s1) && Stored(n2, e2, s2) && Nodes(s1) !! Nodes(s2)
      requires !Is(t, e1) && !Is(t, e2)
      modifies this
      ensures Stored(m1, Cancel(t, e1, e2).0, r1) && Stored(m2, Cancel(t, e1, e2).1, r2)
      ensures Nodes(r1) !! Nodes(r2) && Grown(r1, s1) && Grown(r2, s2)
      ensures transCount == old(transCount) + Cancelled(t, e1, e2)
      decreases Size(e1) + Size(e2), 4, 0
    {
      m1, m2, r1, r2 := n1, n2, s1, s2;
      NodesAllocated(s1);
      NodesAllocated(s2);
      CancelOperands(t, e1, e2);
      var cancels := CancelTest(n1, n2, e1, e2, s1, s2);
      if cancels {
        transCount := transCount + 1;
        m1, m2, r1, r2 := TwoUnits(t);
        assert Cancel(t, e1, e2) == (Leaf(t.Unit()), Leaf(t.Unit()));
      }
    }

    /** Equal operands, but not y with y or n with n. */
    method CancelTest(n1: Node, n2: Node, ghost e1: Expr, ghost e2: Expr, ghost s1: Shape, ghost s2: Shape)
      returns (cancels: bool)
      requires Stored(n1, e1, s1) && Stored(n2, e2, s2)
      modifies this
      ensures cancels == (Same(e1, e2) && !(e1 == e2 && (e1 == Leaf(Yes) || e1 == Leaf(No))))
      ensures transCount == old(transCount)
      decreases Size(e1) + Size(e2), 3, 1
    {
      if n1.cell.LeafCell? && n1.cell == n2.cell && (n1.cell.sym == Yes || n1.cell.sym == No) {
        return false;
      }
      cancels := Equal(n1, n2, e1, e2, s1, s2);
    }

    method TwoUnits(t: Junction) returns (m1: Node, m2: Node, ghost r1: Shape, ghost r2: Shape)
      ensures Stored(m1, Leaf(t.Unit()), r1) && Stored(m2, Leaf(t.Unit()), r2)
      ensures fresh(Nodes(r1)) && fresh(Nodes(r2)) && Nodes(r1) !! Nodes(r2)
    {
      m1 := new Node(LeafCell(t.Unit()));
      m2 := new Node(LeafCell(t.Unit()));
      r1, r2 := Tip(m1), Tip(m2);
    }

    /** expr_join_or and expr_join_and: a new tree, or null. */
    method JoinAt(t: Junction, n1: Node, n2: Node, ghost e1: Expr, ghost e2: Expr, ghost s1: Shape, ghost s2: Shape)
      returns (tmp: Node?, ghost r: Shape)
      requires Stored(n1, e1, s1) && Stored(n2, e2, s2)
      modifies this
      ensures tmp == null <==> Join(t, e1, e2).None?
      ensures tmp != null ==> Stored(tmp, Join(t, e1, e2).value, r) && fresh(Nodes(r))
      ensures transCount == old(transCount)
    {
      tmp, r := null, s1;
      NodesAllocated(s1);
      NodesAllocated(s2);
      var same := Equal(n1, n2, e1, e2, s1, s2);
      if same {
        tmp, r := Copy(n1, e1, s1);
      } else {
        LookExact(n1, e1, s1);
        LookExact(n2, e2, s2);
        var a, b := Look(n1), Look(n2);
        if a.None? || b.None? {
          return;
        }
        var rule := if t.Conj? then AndRule(a.value, b.value) else OrRule(a.value, b.value);
        if rule.Some? {
          tmp := new Node(if rule.value.Leaf? then LeafCell(rule.value.sym)
                          else CmpCell(rule.value.rel, rule.value.lhs, rule.value.rhs));
          r := Tip(tmp);
        }
      }
    }

    /** The unit goes into the first slot, the merged form into the second. */
    method WriteBoth(t: Junction, b1: Slot, b2: Slot, tmp: Node, ghost n: Node, ghost e: Expr, ghost s: Shape,
                     ghost p: Path, ghost q: Path, ghost y: Expr, ghost j: Shape)
      returns (ghost r: Shape)
      requires Stored(n, e, s) && InSpine(t, e, p) && InSpine(t, e, q) && p != q
      requires !Is(t, At(t, e, p)) && !Is(t, At(t, e, q))
      requires HasPath(s, p) && HasPath(s, q) && b1 == SlotOf(Whole(n), s, p) && b2 == SlotOf(Whole(n), s, q)
      requires Stored(tmp, y, j) && Nodes(j) !! Nodes(s)
      modifies Nodes(s)
      ensures var f := Put(t, e, p, Leaf(t.Unit()));
              InSpine(t, f, q) && Stored(n, Put(t, f, q, y), r)
      ensures SameNodes(t, e, s, r) && forall k: Node :: k in Nodes(r) ==> k in Nodes(s) || k in Nodes(j) || fresh(k)
    {
      NodesAllocated(s);
      NodesAllocated(j);
      PutElsewhere(t, e, p, q, Leaf(t.Unit()));
      PutFacts(t, e, p, Leaf(t.Unit()));
      ghost var f := Put(t, e, p, Leaf(t.Unit()));
      var unit := new Node(LeafCell(t.Unit()));
      ghost var d := Overwrite(t, b1, unit, n, e, s, p, Leaf(t.Unit()), Tip(unit));
      NodesAllocated(d);
      SameSlots(t, e, Whole(n), s, d, q);
      r := Overwrite(t, b2, tmp, n, f, d, q, y, j);
      SameNodesTrans(t, e, f, s, d, r);
    }

    /** The merged form of the operands in two slots, or null. */
    method JoinSlots(t: Junction, b1: Slot, b2: Slot, ghost n: Node, ghost e: Expr, ghost s: Shape,
            ghost p: Path, ghost q: Path)
      returns (tmp: Node?, ghost j: Shape)
      requires Stored(n, e, s) && InSpine(t, e, p) && InSpine(t, e, q)
      requires HasPath(s, p) && HasPath(s, q) && b1 == SlotOf(Whole(n), s, p) && b2 == SlotOf(Whole(n), s, q)
      modifies this
      ensures tmp == null <==> Join(t, At(t, e, p), At(t, e, q)).None?
      ensures tmp != null ==> Stored(tmp, Join(t, At(t, e, p), At(t, e, q)).value, j) && fresh(Nodes(j))
      ensures transCount == old(transCount)
    {
      StoredPath(t, Whole(n), e, s, p);
      StoredPath(t, Whole(n), e, s, q);
      tmp, j := JoinAt(t, Get(b1), Get(b2), At(t, e, p), At(t, e, q), ShapeAt(s, p), ShapeAt(s, q));
    }

    /** Two different operands: if they have a merged form they are merged. */
    method MergeAt(t: Junction, b1: Slot, b2: Slot, ghost n: Node, ghost e: Expr, ghost s: Shape,
            ghost p: Path, ghost q: Path)
      returns (ghost r: Shape)
      requires Stored(n, e, s) && InSpine(t, e, p) && InSpine(t, e, q) && p != q
      requires !Is(t, At(t, e, p)) && !Is(t, At(t, e, q))
      requires HasPath(s, p) && HasPath(s, q) && b1 == SlotOf(Whole(n), s, p) && b2 == SlotOf(Whole(n), s, q)
      modifies this, Nodes(s)
      ensures Stored(n, Merge(t, e, p, q, old(transCount)).0, r) && transCount == Merge(t, e, p, q, old(transCount)).1
      ensures SameNodes(t, e, s, r) && Grown(r, s)
    {
      r := s;
      SameNodesRefl(t, e, s, n);
      NodesAllocated(s);
      var tmp, j := JoinSlots(t, b1, b2, n, e, s, p, q);
      if tmp != null {
        NodesAllocated(j);
        ghost var y := Join(t, At(t, e, p), At(t, e, q)).value;
        r := WriteBoth(t, b1, b2, tmp, n, e, s, p, q, y, j);
        MergeJoined(t, e, p, q, y, transCount);
        transCount := transCount + 1;
      }
    }

    /** expr_eliminate_dups1 on two slots of one tree, which both cursors overwrite. */
    method Dups1At(t: Junction, b1: Slot, b2: Slot, ghost n: Node, ghost e: Expr, ghost s: Shape,
            ghost p: Path, ghost q: Path)
      returns (ghost r: Shape)
      requires Stored(n, e, s) && InSpine(t, e, p) && InSpine(t, e, q) && Is(t, e)
      requires HasPath(s, p) && HasPath(s, q) && b1 == SlotOf(Whole(n), s, p) && b2 == SlotOf(Whole(n), s, q)
      modifies this, Nodes(s)
      ensures Stored(n, Dups1(t, e, p, q, old(transCount)).0, r) && transCount == Dups1(t, e, p, q, old(transCount)).1
      ensures SameNodes(t, e, s, r) && Grown(r, s)
      decreases Size(e), SpineSize(t, At(t, e, p)) + SpineSize(t, At(t, e, q)), 1
    {
      StoredPath(t, Whole(n), e, s, p);
      StoredPath(t, Whole(n), e, s, q);
      var n1, n2 := Get(b1), Get(b2);
      if n1.cell.BinCell? && n1.cell.op == t {
        r := FirstSlots(t, n1, b2, n, e, s, p, q);
      } else if n2.cell.BinCell? && n2.cell.op == t {
        r := SecondSlots(t, b1, n2, n, e, s, p, q);
      } else if n1 == n2 {
        if p != q {
          DifferentNodes(t, e, s, n, p, q);
        }
        SameNodesRefl(t, e, s, n);
        r := s;
      } else {
        r := OperandPair(t, b1, b2, n, e, s, p, q);
      }
    }

    /** The first cursor goes down both fields of its node. */
    method FirstSlots(t: Junction, n1: Node, b2: Slot, ghost n: Node, ghost e: Expr, ghost s: Shape,
            ghost p: Path, ghost q: Path)
      returns (ghost r: Shape)
      requires Stored(n, e, s) && InSpine(t, e, p) && InSpine(t, e, q) && Is(t, e) && Is(t, At(t, e, p))
      requires HasPath(s, p) && HasPath(s, q) && n1 == ShapeAt(s, p).node && b2 == SlotOf(Whole(n), s, q)
      modifies this, Nodes(s)
      ensures Stored(n, Dups1(t, e, p, q, old(transCount)).0, r) && transCount == Dups1(t, e, p, q, old(transCount)).1
      ensures SameNodes(t, e, s, r) && Grown(r, s)
      decreases Size(e), SpineSize(t, At(t, e, p)) + SpineSize(t, At(t, e, q)), 0
    {
      StoredPath(t, Whole(n), e, s, p);
      AtChild(t, e, p, L);
      AtChild(t, e, p, R);
      SlotsBelow(Whole(n), s, p, L);
      SlotsBelow(Whole(n), s, p, R);
      ghost var f := Dups1(t, e, p + [L], q, transCount).0;
      Moved(t, e, f, p + [R]);
      Moved(t, e, f, q);
      ghost var d := Dups1At(t, LeftOf(n1), b2, n, e, s, p + [L], q);
      NodesAllocated(d);
      SameSlots(t, e, Whole(n), s, d, p + [R]);
      SameSlots(t, e, Whole(n), s, d, q);
      r := Dups1At(t, RightOf(n1), b2, n, f, d, p + [R], q);
      SameNodesTrans(t, e, f, s, d, r);
    }

    /** The second cursor goes down both fields of its node. */
    method SecondSlots(t: Junction, b1: Slot, n2: Node, ghost n: Node, ghost e: Expr, ghost s: Shape,
            ghost p: Path, ghost q: Path)
      returns (ghost r: Shape)
      requires Stored(n, e, s) && InSpine(t, e, p) && InSpine(t, e, q) && Is(t, e)
      requires !Is(t, At(t, e, p)) && Is(t, At(t, e, q))
      requires HasPath(s, p) && HasPath(s, q) && b1 == SlotOf(Whole(n), s, p) && n2 == ShapeAt(s, q).node
      modifies this, Nodes(s)
      ensures Stored(n, Dups1(t, e, p, q, old(transCount)).0, r) && transCount == Dups1(t, e, p, q, old(transCount)).1
      ensures SameNodes(t, e, s, r) && Grown(r, s)
      decreases Size(e), SpineSize(t, At(t, e, p)) + SpineSize(t, At(t, e, q)), 0
    {
      StoredPath(t, Whole(n), e, s, q);
      AtChild(t, e, q, L);
      AtChild(t, e, q, R);
      SlotsBelow(Whole(n), s, q, L);
      SlotsBelow(Whole(n), s, q, R);
      ghost var f := Dups1(t, e, p, q + [L], transCount).0;
      Moved(t, e, f, q + [R]);
      Moved(t, e, f, p);
      ghost var d := Dups1At(t, b1, LeftOf(n2), n, e, s, p, q + [L]);
      NodesAllocated(d);
      SameSlots(t, e, Whole(n), s, d, q + [R]);
      SameSlots(t, e, Whole(n), s, d, p);
      r := Dups1At(t, b1, RightOf(n2), n, f, d, p, q + [R]);
      SameNodesTrans(t, e, f, s, d, r);
    }

    /** Two operands: the first is simplified by itself, then the two are merged. */
    method OperandPair(t: Junction, b1: Slot, b2: Slot, ghost n: Node, ghost e: Expr, ghost s: Shape,
            ghost p: Path, ghost q: Path)
      returns (ghost r: Shape)
      requires Stored(n, e, s) && InSpine(t, e, p) && InSpine(t, e, q) && p != q
      requires !Is(t, At(t, e, p)) && !Is(t, At(t, e, q))
      requires HasPath(s, p) && HasPath(s, q) && b1 == SlotOf(Whole(n), s, p) && b2 == SlotOf(Whole(n), s, q)
      modifies this, Nodes(s)
      ensures Stored(n, Dups1(t, e, p, q, old(transCount)).0, r) && transCount == Dups1(t, e, p, q, old(transCount)).1
      ensures SameNodes(t, e, s, r) && Grown(r, s)
      decreases Size(e), 0, 0, 1
    {
      PutElsewhere(t, e, p, q, Leaf(Yes));
      ghost var f := Inner(t, e, p, transCount).0;
      PutElsewhere(t, e, p, q, At(t, f, p));
      ghost var d := InnerAt(t, b1, n, e, s, p);
      NodesAllocated(d);
      SameSlots(t, e, Whole(n), s, d, p);
      SameSlots(t, e, Whole(n), s, d, q);
      r := MergeAt(t, b1, b2, n, f, d, p, q);
      SameNodesTrans(t, e, f, s, d, r);
    }

    /** The nested call on an operand headed by the other connective: both cursors start at its slot. */
    method InnerAt(t: Junction, b: Slot, ghost n: Node, ghost e: Expr, ghost s: Shape, ghost p: Path)
      returns (ghost r: Shape)
      requires Stored(n, e, s) && InSpine(t, e, p) && !Is(t, At(t, e, p)) && p != []
      requires HasPath(s, p) && b == SlotOf(Whole(n), s, p)
      modifies this, Nodes(s)
      ensures Stored(n, Inner(t, e, p, old(transCount)).0, r) && transCount == Inner(t, e, p, old(transCount)).1
      ensures SameNodes(t, e, s, r) && Grown(r, s)
      decreases Size(e), 0, 0, 0
    {
      r := s;
      StoredPath(t, Whole(n), e, s, p);
      SameNodesRefl(t, e, s, n);
      NodesAllocated(s);
      var m := Get(b);
      if m.cell.BinCell? {
        ghost var x, y := At(t, e, p), Dups1(m.cell.op, At(t, e, p), [], [], transCount).0;
        ghost var z := Dups1At(m.cell.op, Whole(m), Whole(m), m, x, ShapeAt(s, p), [], []);
        NodesAllocated(z);
        FillHole(t, Whole(n), e, s, p, y, z);
        SameNodesPut(t, e, s, p, z);
        r := ShapePut(s, p, z);
      }
    }

    /** One pass of expr_eliminate_dups over the whole tree. */
    method Round(n: Node, ghost e: Expr, ghost s: Shape) returns (ghost f: Expr, ghost r: Shape)
      requires Stored(n, e, s)
      modifies this, Nodes(s)
      ensures Stored(n, f, r) && Grown(r, s)
      ensures (f, transCount) == if e.Bin? then Dups1(e.op, e, [], [], 0) else (e, 0)
    {
      f, r := e, s;
      transCount := 0;
      if n.cell.BinCell? {
        var op := n.cell.op;
        r := Dups1At(op, Whole(n), Whole(n), n, e, s, [], []);
        f := Dups1(op, e, [], [], 0).0;
      }
    }

    /** expr_eliminate_dups: the top node stays, the counter is put back. */
    method EliminateDupsAt(n: Node, ghost tree: Expr, ghost s: Shape) returns (ghost r: Shape)
      requires Stored(n, tree, s)
      modifies this, Nodes(s)
      ensures Stored(n, EliminateDups(tree), r) && transCount == old(transCount) && Grown(r, s)
    {
      var oldCount := transCount;
      ghost var e := tree;
      r := s;
      while true
        invariant Stored(n, e, r) && EliminateDups(e) == EliminateDups(tree) && Grown(r, s)
        decreases Size(e)
      {
        NodesAllocated(s);
        NodesAllocated(r);
        e, r := Round(n, e, r);
        if transCount == 0 {
          break;
        }
        NodesAllocated(r);
        EliminateYnShrinks(e);
        r := EliminateYnAt(n, e, r);
        e := EliminateYn(e);
      }
      assert EliminateDups(tree) == e;
      transCount := oldCount;
    }
  }

  /** What the joining rules look at: a symbol, a comparison, or the negation of one. */
  function Look(n: Node): Option<Expr>
    reads n, if n.cell.NotCell? then {n.cell.arg} else {}
  {
    match n.cell
    case LeafCell(s) => Some(Leaf(s))
    case CmpCell(rel, a, b) => Some(Cmp(rel, a, b))
    case NotCell(a) =>
      (match a.cell
       case LeafCell(s) => Some(Not(Leaf(s)))
       case CmpCell(rel, x, y) => Some(Not(Cmp(rel, x, y)))
       case _ => None)
    case BinCell(_, _, _) => None
  }

  /** No rule applies to anything else. */
  lemma LookExact(n: Node, e: Expr, s: Shape)
    requires Stored(n, e, s)
    ensures Look(n).Some? ==> Look(n) == Some(e)
    ensures Look(n).None? ==> FirstSubject(e).None? && SecondSubject(e).None?
  {
  }
}
