/** Cancelling common operands and the equality test built on it
    (__expr_eliminate_eq, expr_eliminate_eq, expr_eq and expr_eliminate_yn in expr.c). */
module ExprEq {
  import opened Expr

  predicate Is(t: Junction, e: Expr) {
    e.Bin? && e.op == t
  }

  /** A connective without its y or n operand. */
  function Absorb(op: Junction, l: Expr, r: Expr): (e: Expr)
    ensures Size(e) <= 1 + Size(l) + Size(r)
  {
    if l == Leaf(op.Zero()) then Leaf(op.Zero())
    else if l == Leaf(op.Unit()) then r
    else if r == Leaf(op.Zero()) then Leaf(op.Zero())
    else if r == Leaf(op.Unit()) then l
    else Bin(op, l, r)
  }

  predicate Bare(e: Expr) {
    e == Leaf(Yes) || e == Leaf(No)
  }

  /** expr_eliminate_yn. */
  function EliminateYn(e: Expr): (r: Expr)
    ensures Size(r) <= Size(e)
  {
    if e.Bin? then Absorb(e.op, EliminateYn(e.left), EliminateYn(e.right)) else e
  }

  /** One cancellation pass over the operands of the connective t. */
  function Cancel(t: Junction, e1: Expr, e2: Expr): (r: (Expr, Expr))
    ensures Size(r.0) <= Size(e1) && Size(r.1) <= Size(e2)
    ensures Is(t, e1) ==> Is(t, r.0)
    ensures Is(t, e2) ==> Is(t, r.1)
    decreases Size(e1) + Size(e2), if Is(t, e1) || Is(t, e2) then 0 else 4
  {
    if Is(t, e1) then
      var (l, f2) := Cancel(t, e1.left, e2);
      var (r, g2) := Cancel(t, e1.right, f2);
      (Bin(t, l, r), g2)
    else if Is(t, e2) then
      var (f1, l) := Cancel(t, e1, e2.left);
      var (g1, r) := Cancel(t, f1, e2.right);
      (g1, Bin(t, l, r))
    else if e1 == e2 && (e1 == Leaf(Yes) || e1 == Leaf(No)) then (e1, e2)
    else if !Same(e1, e2) then (e1, e2)
    else (Leaf(t.Unit()), Leaf(t.Unit()))
  }

  /** expr_eliminate_eq without its final expr_eliminate_yn. */
  function CancelBoth(e1: Expr, e2: Expr): (r: (Expr, Expr))
    decreases Size(e1) + Size(e2), 1
  {
    var (f1, f2) := if e1.Bin? then Cancel(e1.op, e1, e2) else (e1, e2);
    if f2.Bin? && !Is(f2.op, f1) then Cancel(f2.op, f1, f2) else (f1, f2)
  }

  /** expr_eliminate_eq. */
  function EliminateEq(e1: Expr, e2: Expr): (Expr, Expr)
    decreases Size(e1) + Size(e2), 2
  {
    var (f1, f2) := CancelBoth(e1, e2);
    (EliminateYn(f1), EliminateYn(f2))
  }

  /** expr_eq. */
  predicate Same(e1: Expr, e2: Expr)
    decreases Size(e1) + Size(e2), 3
  {
    match (e1, e2)
    case (Leaf(s), Leaf(t)) => s == t
    case (Cmp(_, _, _), Cmp(_, _, _)) => e1 == e2
    case (Not(a), Not(b)) => Same(a, b)
    case (Bin(o, _, _), Bin(p, _, _)) =>
      o == p &&
      var (f1, f2) := EliminateEq(e1, e2);
      f1.Leaf? && f1 == f2
    case _ => false
  }

  // ---------------------------------------------------------------- counting

  /** How many pairs of operands a pass of type t cancels: what it adds to trans_count. */
  function Cancelled(t: Junction, e1: Expr, e2: Expr): nat
    decreases Size(e1) + Size(e2)
  {
    if Is(t, e1) then
      Cancelled(t, e1.left, e2) + Cancelled(t, e1.right, Cancel(t, e1.left, e2).1)
    else if Is(t, e2) then
      Cancelled(t, e1, e2.left) + Cancelled(t, Cancel(t, e1, e2.left).0, e2.right)
    else if e1 == e2 && (e1 == Leaf(Yes) || e1 == Leaf(No)) then 0
    else if Same(e1, e2) then 1 else 0
  }

  function CancelledBoth(e1: Expr, e2: Expr): nat {
    var (f1, f2) := if e1.Bin? then Cancel(e1.op, e1, e2) else (e1, e2);
    (if e1.Bin? then Cancelled(e1.op, e1, e2) else 0)
    + (if f2.Bin? && !Is(f2.op, f1) then Cancelled(f2.op, f1, f2) else 0)
  }

  /** The operands that are the unit of the connective. */
  function Units(t: Junction, e: Expr): nat {
    if Is(t, e) then Units(t, e.left) + Units(t, e.right) else if e == Leaf(t.Unit()) then 1 else 0
  }

  lemma CancelOperands(t: Junction, e1: Expr, e2: Expr)
    requires !Is(t, e1) && !Is(t, e2)
    ensures (e1 == e2 && (e1 == Leaf(Yes) || e1 == Leaf(No))) || !Same(e1, e2) ==>
        Cancel(t, e1, e2) == (e1, e2) && Cancelled(t, e1, e2) == 0
    ensures !(e1 == e2 && (e1 == Leaf(Yes) || e1 == Leaf(No))) && Same(e1, e2) ==>
        Cancel(t, e1, e2) == (Leaf(t.Unit()), Leaf(t.Unit())) && Cancelled(t, e1, e2) == 1
  {
  }

  /** Every count stands for one operand of each tree that has become the unit. */
  lemma {:induction false} CancelledUnits(t: Junction, e1: Expr, e2: Expr)
    ensures Units(t, Cancel(t, e1, e2).0) == Units(t, e1) + Cancelled(t, e1, e2)
    ensures Units(t, Cancel(t, e1, e2).1) == Units(t, e2) + Cancelled(t, e1, e2)
    decreases Size(e1) + Size(e2)
  {
    if Is(t, e1) {
      var (l, f2) := Cancel(t, e1.left, e2);
      var (r, g2) := Cancel(t, e1.right, f2);
      CancelledUnits(t, e1.left, e2);
      CancelledUnits(t, e1.right, f2);
      assert Cancel(t, e1, e2) == (Bin(t, l, r), g2);
    } else if Is(t, e2) {
      var (f1, l) := Cancel(t, e1, e2.left);
      var (g1, r) := Cancel(t, f1, e2.right);
      CancelledUnits(t, e1, e2.left);
      CancelledUnits(t, f1, e2.right);
      assert Cancel(t, e1, e2) == (g1, Bin(t, l, r));
    } else {
      CancelOperands(t, e1, e2);
    }
  }

  // ---------------------------------------------------------------- meaning

  /** The operands a pass of type t takes out of both trees, joined by t. */
  ghost function Common(t: Junction, e1: Expr, e2: Expr): Expr
    decreases Size(e1) + Size(e2)
  {
    if Is(t, e1) then
      Bin(t, Common(t, e1.left, e2), Common(t, e1.right, Cancel(t, e1.left, e2).1))
    else if Is(t, e2) then
      Bin(t, Common(t, e1, e2.left), Common(t, Cancel(t, e1, e2.left).0, e2.right))
    else if Cancel(t, e1, e2) == (e1, e2) then Leaf(t.Unit())
    else e1
  }

  /** Dropping y and n operands keeps the value. */
  lemma {:induction false} EliminateYnKeepsValue(e: Expr, v: Valuation)
    requires v.Valid()
    ensures Value(EliminateYn(e), v) == Value(e, v)
  {
    if e.Bin? {
      EliminateYnKeepsValue(e.left, v);
      EliminateYnKeepsValue(e.right, v);
    }
  }

  lemma Rearrange(t: Junction, a: Tristate, b: Tristate, c: Tristate, d: Tristate)
    ensures t.Apply(t.Apply(a, c), t.Apply(b, d)) == t.Apply(t.Apply(a, b), t.Apply(c, d))
    ensures t.Apply(t.Apply(a, d), c) == t.Apply(a, t.Apply(c, d))
    ensures t.Apply(a, b) == t.Apply(b, a) && t.Apply(a, a) == a
    ensures a <= b ==> t.Apply(a, c) <= t.Apply(b, c)
  {
    if t.Conj? {} else {}
  }

  /** The values of one connective's two operands and of the other tree, through both halves of a pass. */
  lemma FactorsMeet(t: Junction, a: Tristate, b: Tristate, l: Tristate, r: Tristate, e: Tristate, f: Tristate,
                    g: Tristate, c: Tristate, d: Tristate)
    requires a == t.Apply(l, c) && e == t.Apply(f, c)
    requires b == t.Apply(r, d) && f == t.Apply(g, d)
    ensures t.Apply(a, b) == t.Apply(t.Apply(l, r), t.Apply(c, d))
    ensures e == t.Apply(g, t.Apply(c, d))
  {
    if t.Conj? {} else {}
  }

  /** The common-factor invariant of a pass: the two trees were the two results,
      each joined by t with the same tree. */
  lemma {:induction false} CancelFactors(t: Junction, e1: Expr, e2: Expr, v: Valuation)
    requires v.Valid()
    ensures Value(e1, v) == t.Apply(Value(Cancel(t, e1, e2).0, v), Value(Common(t, e1, e2), v))
    ensures Value(e2, v) == t.Apply(Value(Cancel(t, e1, e2).1, v), Value(Common(t, e1, e2), v))
    decreases Size(e1) + Size(e2), if Is(t, e1) || Is(t, e2) then 0 else 4, 1
  {
    if Is(t, e1) {
      CancelFirstFactors(t, e1, e2, v);
    } else if Is(t, e2) {
      CancelSecondFactors(t, e1, e2, v);
    } else if Same(e1, e2) {
      SameSound(e1, e2, v);
    }
  }

  lemma {:induction false} CancelFirstFactors(t: Junction, e1: Expr, e2: Expr, v: Valuation)
    requires v.Valid() && Is(t, e1)
    ensures Value(e1, v) == t.Apply(Value(Cancel(t, e1, e2).0, v), Value(Common(t, e1, e2), v))
    ensures Value(e2, v) == t.Apply(Value(Cancel(t, e1, e2).1, v), Value(Common(t, e1, e2), v))
    decreases Size(e1) + Size(e2), 0, 0
  {
    var (l, f2) := Cancel(t, e1.left, e2);
    var (r, g2) := Cancel(t, e1.right, f2);
    var c, d := Value(Common(t, e1.left, e2), v), Value(Common(t, e1.right, f2), v);
    CancelFactors(t, e1.left, e2, v);
    CancelFactors(t, e1.right, f2, v);
    assert Cancel(t, e1, e2) == (Bin(t, l, r), g2);
    FactorsMeet(t, Value(e1.left, v), Value(e1.right, v), Value(l, v), Value(r, v),
                Value(e2, v), Value(f2, v), Value(g2, v), c, d);
  }

  lemma {:induction false} CancelSecondFactors(t: Junction, e1: Expr, e2: Expr, v: Valuation)
    requires v.Valid() && !Is(t, e1) && Is(t, e2)
    ensures Value(e1, v) == t.Apply(Value(Cancel(t, e1, e2).0, v), Value(Common(t, e1, e2), v))
    ensures Value(e2, v) == t.Apply(Value(Cancel(t, e1, e2).1, v), Value(Common(t, e1, e2), v))
    decreases Size(e1) + Size(e2), 0, 0
  {
    var (f1, l) := Cancel(t, e1, e2.left);
    var (g1, r) := Cancel(t, f1, e2.right);
    var c, d := Value(Common(t, e1, e2.left), v), Value(Common(t, f1, e2.right), v);
    CancelFactors(t, e1, e2.left, v);
    CancelFactors(t, f1, e2.right, v);
    assert Cancel(t, e1, e2) == (g1, Bin(t, l, r));
    FactorsMeet(t, Value(e2.left, v), Value(e2.right, v), Value(l, v), Value(r, v),
                Value(e1, v), Value(f1, v), Value(g1, v), c, d);
  }

  /** Cancelling reflects the order of the two values, through both passes. */
  lemma {:induction false} CancelReflectsOrder(e1: Expr, e2: Expr, v: Valuation)
    requires v.Valid()
    ensures var (f1, f2) := CancelBoth(e1, e2);
            && (Value(f1, v) <= Value(f2, v) ==> Value(e1, v) <= Value(e2, v))
            && (Value(f2, v) <= Value(f1, v) ==> Value(e2, v) <= Value(e1, v))
    decreases Size(e1) + Size(e2), 1
  {
    var (f1, f2) := if e1.Bin? then Cancel(e1.op, e1, e2) else (e1, e2);
    if f2.Bin? && !Is(f2.op, f1) {
      CancelPassReflectsOrder(f2.op, f1, f2, v);
    }
    if e1.Bin? {
      CancelPassReflectsOrder(e1.op, e1, e2, v);
    }
  }

  lemma {:induction false} CancelPassReflectsOrder(t: Junction, e1: Expr, e2: Expr, v: Valuation)
    requires v.Valid() && (Is(t, e1) || Is(t, e2))
    ensures var (f1, f2) := Cancel(t, e1, e2);
            && (Value(f1, v) <= Value(f2, v) ==> Value(e1, v) <= Value(e2, v))
            && (Value(f2, v) <= Value(f1, v) ==> Value(e2, v) <= Value(e1, v))
    decreases Size(e1) + Size(e2), 0, 2
  {
    var (f1, f2) := Cancel(t, e1, e2);
    CancelFactors(t, e1, e2, v);
    Rearrange(t, Value(f1, v), Value(f2, v), Value(Common(t, e1, e2), v), 0);
    Rearrange(t, Value(f2, v), Value(f1, v), Value(Common(t, e1, e2), v), 0);
  }

  /** expr_eliminate_eq reflects the order of the two values. So trees that come out
      equal were equal, and when the second comes out as y the first implies it. */
  lemma {:induction false} EliminateEqReflectsOrder(e1: Expr, e2: Expr, v: Valuation)
    requires v.Valid()
    ensures var (f1, f2) := EliminateEq(e1, e2);
            && (Value(f1, v) <= Value(f2, v) ==> Value(e1, v) <= Value(e2, v))
            && (Value(f2, v) <= Value(f1, v) ==> Value(e2, v) <= Value(e1, v))
    decreases Size(e1) + Size(e2), 2
  {
    CancelReflectsOrder(e1, e2, v);
    EliminateYnKeepsValue(CancelBoth(e1, e2).0, v);
    EliminateYnKeepsValue(CancelBoth(e1, e2).1, v);
  }

  /** expr_eq is sound: it answers 1 only on trees equal in every configuration. */
  lemma {:induction false} SameSound(e1: Expr, e2: Expr, v: Valuation)
    requires v.Valid() && Same(e1, e2)
    ensures Value(e1, v) == Value(e2, v)
    decreases Size(e1) + Size(e2), 3
  {
    if e1.Not? {
      SameSound(e1.arg, e2.arg, v);
    } else if e1.Bin? {
      EliminateEqReflectsOrder(e1, e2, v);
    }
  }

  /** The implication test: when expr_eliminate_eq leaves y of the second tree, its value
      was nowhere below that of the first. */
  lemma EliminateEqImplies(dep: Expr, dep2: Expr)
    requires EliminateEq(dep, dep2).1 == Leaf(Yes)
    ensures forall v: Valuation :: v.Valid() ==> Value(dep, v) <= Value(dep2, v)
  {
    forall v: Valuation | v.Valid() ensures Value(dep, v) <= Value(dep2, v) {
      EliminateEqReflectsOrder(dep, dep2, v);
    }
  }
}
