/** Pushing negations down to symbols (expr_transform), dropping "!= n" tests
    (expr_trans_bool) and the chain of both that menu_finalize runs. */
module ExprTransform {
  import opened Expr
  import opened ExprEq
  import opened ExprDups
  import opened Wrappers

  /** A measure that, unlike the node count, De Morgan's rule decreases. */
  function Weight(e: Expr): (w: nat)
    ensures w >= 1
  {
    match e
    case Leaf(_) => 1
    case Cmp(_, _, _) => 2
    case Not(a) => 2 * Weight(a)
    case Bin(_, l, r) => 1 + Weight(l) + Weight(r)
  }

  /** The comparison rules: a boolean compared with y, m or n. */
  function TransformCmp(e: Expr): (r: Expr)
    requires e.Cmp?
    ensures Weight(r) <= Weight(e)
  {
    if !e.lhs.Type().Boolean? then e
    else match e.rel
      case Eq =>
        if e.rhs == No then Not(Leaf(e.lhs))
        else if e.rhs == Mod then Leaf(No)
        else if e.rhs == Yes then Leaf(e.lhs)
        else e
      case Neq =>
        if e.rhs == No then Leaf(e.lhs)
        else if e.rhs == Mod then Leaf(Yes)
        else if e.rhs == Yes then Not(Leaf(e.lhs))
        else e
      case _ => e
  }

  function NegateStatic(s: Symbol): Expr {
    if s == Yes then Leaf(No) else if s == Mod then Leaf(Mod) else if s == No then Leaf(Yes) else Not(Leaf(s))
  }

  /** De Morgan's rule for a negated connective. */
  function Distribute(op: Junction, l: Expr, r: Expr): (e: Expr)
    ensures Weight(e) < Weight(Not(Bin(op, l, r)))
  {
    assert Weight(Not(l)) == 2 * Weight(l) && Weight(Not(r)) == 2 * Weight(r);
    Bin(op.Dual(), Not(l), Not(r))
  }

  /** expr_transform. */
  function Transform(e: Expr): (r: Expr)
    ensures Weight(r) <= Weight(e)
    decreases Weight(e), 1
  {
    match e
    case Leaf(_) => e
    case Cmp(_, _, _) => TransformCmp(e)
    case Bin(op, l, r) => Bin(op, Transform(l), Transform(r))
    case Not(a) => Negated(Transform(a))
  }

  /** The rules for the negation of a transformed tree. */
  function Negated(a: Expr): (r: Expr)
    ensures Weight(r) <= 2 * Weight(a)
    decreases 2 * Weight(a), 0
  {
    match a
    case Not(b) => Transform(b)
    case Cmp(rel, x, y) => Cmp(rel.Opposite(), x, y)
    case Bin(op, l, r) => Transform(Distribute(op, l, r))
    case Leaf(s) => NegateStatic(s)
  }

  /** No ordering comparison of the tree ends in the "Cannot compare" branch. */
  predicate Comparable(e: Expr, v: Valuation) {
    match e
    case Leaf(_) => true
    case Cmp(rel, a, b) => rel.Eq? || rel.Neq? || !v.CannotOrder(a, b)
    case Not(a) => Comparable(a, v)
    case Bin(_, l, r) => Comparable(l, v) && Comparable(r, v)
  }

  lemma {:induction false} TransformNormal(e: Expr)
    ensures NegationNormal(Transform(e))
    decreases Weight(e), 1
  {
    match e
    case Leaf(_) =>
    case Cmp(_, _, _) =>
    case Bin(op, l, r) =>
      TransformNormal(l);
      TransformNormal(r);
    case Not(a) =>
      TransformNormal(a);
      NegatedNormal(Transform(a));
  }

  lemma {:induction false} NegatedNormal(a: Expr)
    requires NegationNormal(a)
    ensures NegationNormal(Negated(a))
    decreases 2 * Weight(a), 0
  {
    match a
    case Not(b) => TransformNormal(b);
    case Cmp(_, _, _) =>
    case Bin(op, l, r) => TransformNormal(Distribute(op, l, r));
    case Leaf(_) =>
  }

  /** A comparison and its opposite are each other's negation exactly when the
      comparison does not end in the "Cannot compare" branch. */
  lemma OppositeNegates(rel: Relation, a: Symbol, b: Symbol, v: Valuation)
    ensures v.Compare(rel.Opposite(), a, b) == Negate(v.Compare(rel, a, b)) <==> Comparable(Cmp(rel, a, b), v)
  {
  }

  lemma TransformCmpKeepsValue(e: Expr, v: Valuation)
    requires v.Valid() && e.Cmp?
    ensures Value(TransformCmp(e), v) == Value(e, v)
    ensures Comparable(e, v) ==> Comparable(TransformCmp(e), v)
  {
    if e.lhs.Type().Boolean? && e.rhs.IsStatic() && TransformCmp(e) != e {
      CompareWithStatic(v, e.lhs, e.rhs);
    }
  }

  /** expr_transform keeps the value of every tree whose comparisons can be made. */
  lemma {:induction false} TransformKeepsValue(e: Expr, v: Valuation)
    requires v.Valid() && Comparable(e, v)
    ensures Value(Transform(e), v) == Value(e, v) && Comparable(Transform(e), v)
    decreases Weight(e), 1
  {
    match e
    case Leaf(_) =>
    case Cmp(_, _, _) => TransformCmpKeepsValue(e, v);
    case Bin(op, l, r) =>
      TransformKeepsValue(l, v);
      TransformKeepsValue(r, v);
    case Not(a) =>
      TransformKeepsValue(a, v);
      NegatedNegates(Transform(a), v);
  }

  lemma {:induction false} NegatedNegates(a: Expr, v: Valuation)
    requires v.Valid() && Comparable(a, v)
    ensures Value(Negated(a), v) == Negate(Value(a, v)) && Comparable(Negated(a), v)
    decreases 2 * Weight(a), 0
  {
    match a
    case Not(b) => TransformKeepsValue(b, v);
    case Cmp(rel, x, y) => OppositeNegates(rel, x, y, v);
    case Bin(op, l, r) => TransformKeepsValue(Distribute(op, l, r), v);
    case Leaf(_) =>
  }

  /** The value of a tree in which an ordering that cannot be made counts as n where it
      stands under an even number of negations, and as y under an odd number. */
  function Polar(e: Expr, v: Valuation, even: bool): Tristate {
    match e
    case Leaf(s) => v.tri(s)
    case Cmp(rel, a, b) => if Comparable(e, v) then v.Compare(rel, a, b) else if even then NO else YES
    case Not(a) => Negate(Polar(a, v, !even))
    case Bin(op, l, r) => op.Apply(Polar(l, v, even), Polar(r, v, even))
  }

  lemma {:induction false} TransformPolar(e: Expr, v: Valuation, even: bool)
    requires v.Valid()
    ensures Polar(Transform(e), v, even) == Polar(e, v, even)
    decreases Weight(e), 1
  {
    match e
    case Leaf(_) =>
    case Cmp(_, _, _) => TransformCmpKeepsValue(e, v);
    case Bin(op, l, r) =>
      TransformPolar(l, v, even);
      TransformPolar(r, v, even);
    case Not(a) =>
      TransformPolar(a, v, !even);
      NegatedPolar(Transform(a), v, even);
  }

  lemma {:induction false} NegatedPolar(a: Expr, v: Valuation, even: bool)
    requires v.Valid()
    ensures Polar(Negated(a), v, even) == Negate(Polar(a, v, !even))
    decreases 2 * Weight(a), 0
  {
    match a
    case Not(b) => TransformPolar(b, v, even);
    case Cmp(rel, x, y) => OppositeNegates(rel, x, y, v);
    case Bin(op, l, r) => TransformPolar(Distribute(op, l, r), v, even);
    case Leaf(_) =>
  }

  /** With all negations on symbols that is the value. */
  lemma {:induction false} PolarNormal(e: Expr, v: Valuation)
    requires NegationNormal(e)
    ensures Polar(e, v, true) == Value(e, v)
  {
    if e.Bin? {
      PolarNormal(e.left, v);
      PolarNormal(e.right, v);
    }
  }

  /** What expr_transform makes of the value, for every tree and every configuration. */
  lemma TransformExact(e: Expr, v: Valuation)
    requires v.Valid()
    ensures Value(Transform(e), v) == Polar(e, v, true)
    ensures OddComparable(e, v, true) ==> Value(Transform(e), v) == Value(e, v)
  {
    TransformPolar(e, v, true);
    TransformNormal(e);
    PolarNormal(Transform(e), v);
    if OddComparable(e, v, true) { OddKeepsValue(e, v, true); }
  }

  lemma {:induction false} PolarBounds(e: Expr, v: Valuation)
    ensures Polar(e, v, true) <= Value(e, v) <= Polar(e, v, false)
  {
    match e
    case Leaf(_) =>
    case Cmp(_, _, _) =>
    case Not(a) => PolarBounds(a, v);
    case Bin(op, l, r) =>
      PolarBounds(l, v);
      PolarBounds(r, v);
      ApplyMonotone(op, Polar(l, v, true), Value(l, v), Polar(r, v, true), Value(r, v));
      ApplyMonotone(op, Value(l, v), Polar(l, v, false), Value(r, v), Polar(r, v, false));
  }

  lemma ApplyMonotone(t: Junction, a: Tristate, b: Tristate, c: Tristate, d: Tristate)
    requires a <= b && c <= d
    ensures t.Apply(a, c) <= t.Apply(b, d)
  {
  }

  /** expr_transform never raises a value. */
  lemma TransformLowers(e: Expr, v: Valuation)
    requires v.Valid()
    ensures Value(Transform(e), v) <= Value(e, v)
  {
    TransformExact(e, v);
    PolarBounds(e, v);
  }

  /** No ordering under an odd number of negations ends in the "Cannot compare" branch. */
  predicate OddComparable(e: Expr, v: Valuation, even: bool) {
    match e
    case Leaf(_) => true
    case Cmp(_, _, _) => even || Comparable(e, v)
    case Not(a) => OddComparable(a, v, !even)
    case Bin(_, l, r) => OddComparable(l, v, even) && OddComparable(r, v, even)
  }

  lemma {:induction false} OddKeepsValue(e: Expr, v: Valuation, even: bool)
    requires OddComparable(e, v, even)
    ensures Polar(e, v, even) == Value(e, v)
  {
    match e
    case Leaf(_) =>
    case Cmp(_, _, _) =>
    case Not(a) => OddKeepsValue(a, v, !even);
    case Bin(_, l, r) =>
      OddKeepsValue(l, v, even);
      OddKeepsValue(r, v, even);
  }

  /** Outside the "Cannot compare" branch is exactly where a negated comparison is
      transformed faithfully. */
  lemma TransformNotCmpExact(rel: Relation, a: Symbol, b: Symbol, v: Valuation)
    requires v.Valid() && !rel.Eq? && !rel.Neq?
    ensures Value(Transform(Not(Cmp(rel, a, b))), v) == Value(Not(Cmp(rel, a, b)), v)
        <==> Comparable(Cmp(rel, a, b), v)
  {
    OppositeNegates(rel, a, b, v);
    assert Transform(Cmp(rel, a, b)) == Cmp(rel, a, b);
  }

  /** Symbols of a type that the code does not know cannot be ordered; otherwise all is n or
      empty, and each constant has a text of its own. */
  function OddText(s: Symbol): string {
    match s
    case Yes => "y"
    case Mod => "m"
    case No => "n"
    case Const(n) => seq(n + 2, _ => 'c')
    case Sym(_, ty) => if ty.Boolean? || ty.Tri? then "n" else ""
  }

  function OddValuation(): Valuation {
    Valuation(false, s => if s == Yes then YES else if s == Mod then MOD else NO, OddText, (s, base) => None)
  }

  /** Such an ordering is the failing input of expr_transform: n, and n again when negated. */
  lemma CannotCompare(i: nat, j: nat, rel: Relation)
    requires !rel.Eq? && !rel.Neq?
    ensures OddValuation().Valid() && OddValuation().CannotOrder(Sym(i, Other), Sym(j, Other))
    ensures var e := Not(Cmp(rel, Sym(i, Other), Sym(j, Other)));
            Value(e, OddValuation()) == YES && Value(Transform(e), OddValuation()) == NO
  {
    var v := OddValuation();
    forall s: Symbol, t: Symbol | s.IsConst() && t.IsConst() && s != t ensures v.str(s) != v.str(t) {
      assert |v.str(s)| == if s.Const? then s.text + 2 else 1;
      assert |v.str(t)| == if t.Const? then t.text + 2 else 1;
      assert "y"[0] == 'y' && "m"[0] == 'm' && "n"[0] == 'n';
    }
    var c := Cmp(rel, Sym(i, Other), Sym(j, Other));
    assert Transform(c) == c;
  }

  /** expr_trans_bool. */
  function TransBool(e: Expr): Expr {
    match e
    case Leaf(_) => e
    case Cmp(rel, a, b) => if rel.Neq? && a.Type().Tri? && b == No then Leaf(a) else e
    case Not(a) => Not(TransBool(a))
    case Bin(op, l, r) => Bin(op, TransBool(l), TransBool(r))
  }

  /** On a negation normal form, expr_trans_bool keeps whether the value is n. */
  lemma {:induction false} TransBoolKeepsNo(e: Expr, v: Valuation)
    requires v.Valid() && NegationNormal(e)
    ensures Value(TransBool(e), v) == NO <==> Value(e, v) == NO
    ensures NegationNormal(TransBool(e))
  {
    match e
    case Leaf(_) =>
    case Cmp(rel, a, b) =>
      if TransBool(e) != e { CompareWithStatic(v, a, b); }
    case Not(_) =>
    case Bin(_, l, r) =>
      TransBoolKeepsNo(l, v);
      TransBoolKeepsNo(r, v);
  }

  /** The normal form is needed: under a negation the rewriting is wrong exactly when
      the symbol is m. And even without one it does not keep the value itself. */
  lemma TransBoolOutsideNormalForm(s: Symbol, v: Valuation)
    requires v.Valid() && s.Type().Tri?
    ensures (Value(TransBool(Not(Cmp(Neq, s, No))), v) == NO <==> Value(Not(Cmp(Neq, s, No)), v) == NO)
        <==> v.tri(s) != MOD
    ensures Value(TransBool(Cmp(Neq, s, No)), v) == Value(Cmp(Neq, s, No), v) <==> v.tri(s) != MOD
  {
    CompareWithStatic(v, s, No);
    assert TransBool(Not(Cmp(Neq, s, No))) == Not(Leaf(s));
  }

  // ---------------------------------------------------------------- in one pass

  /** The same in one pass over the tree: `negated` tells whether an odd number of negations is
      on the way. */
  function Push(e: Expr, negated: bool): Expr {
    match e
    case Leaf(s) => if negated then NegateStatic(s) else e
    case Cmp(rel, a, b) => TransformCmp(Cmp(if negated then rel.Opposite() else rel, a, b))
    case Not(a) => Push(a, !negated)
    case Bin(op, l, r) => Bin(if negated then op.Dual() else op, Push(l, negated), Push(r, negated))
  }

  /** No boolean is compared with y, m or n. */
  predicate Settled(e: Expr) {
    match e
    case Leaf(_) => true
    case Cmp(rel, a, b) => a.Type().Boolean? && (rel.Eq? || rel.Neq?) ==> !b.IsStatic()
    case Not(a) => Settled(a)
    case Bin(_, l, r) => Settled(l) && Settled(r)
  }

  lemma {:induction false} PushSettled(e: Expr, negated: bool)
    ensures Settled(Push(e, negated)) && NegationNormal(Push(e, negated))
  {
    match e
    case Leaf(_) =>
    case Cmp(_, _, _) =>
    case Not(a) => PushSettled(a, !negated);
    case Bin(_, l, r) =>
      PushSettled(l, negated);
      PushSettled(r, negated);
  }

  /** A second pass over a pushed tree only adds its own negation. */
  lemma {:induction false} PushTwice(e: Expr, first: bool, second: bool)
    ensures Push(Push(e, first), second) == Push(e, first != second)
  {
    match e
    case Leaf(_) =>
    case Cmp(rel, a, b) => assert rel.Opposite().Opposite() == rel;
    case Not(a) => PushTwice(a, !first, second);
    case Bin(_, l, r) =>
      PushTwice(l, first, second);
      PushTwice(r, first, second);
  }

  /** expr_transform, which works its way up and down again, gives that tree. */
  lemma {:induction false} TransformPush(e: Expr)
    ensures Transform(e) == Push(e, false)
    decreases Weight(e), 1
  {
    match e
    case Leaf(_) =>
    case Cmp(_, _, _) =>
    case Bin(_, l, r) =>
      TransformPush(l);
      TransformPush(r);
    case Not(a) =>
      TransformPush(a);
      PushSettled(a, false);
      NegatedPush(Transform(a));
      PushTwice(a, false, true);
  }

  lemma {:induction false} NegatedPush(a: Expr)
    requires Settled(a)
    ensures Negated(a) == Push(a, true)
    decreases 2 * Weight(a), 0
  {
    match a
    case Not(b) => TransformPush(b);
    case Cmp(_, _, _) =>
    case Bin(op, l, r) => TransformPush(Distribute(op, l, r));
    case Leaf(_) =>
  }

  /** So a second call changes nothing, and no boolean is left compared with y, m or n. */
  lemma TransformFinished(e: Expr)
    ensures Settled(Transform(e)) && NegationNormal(Transform(e)) && Transform(Transform(e)) == Transform(e)
  {
    TransformPush(e);
    TransformPush(Transform(e));
    PushSettled(e, false);
    PushTwice(e, false, false);
  }

  /** No tristate is tested for being n or not. */
  predicate Untested(e: Expr) {
    match e
    case Leaf(_) => true
    case Cmp(rel, a, b) => !(rel.Neq? && a.Type().Tri? && b == No)
    case Not(a) => Untested(a)
    case Bin(_, l, r) => Untested(l) && Untested(r)
  }

  /** expr_trans_bool leaves no "!= n" test of a tristate, and changes nothing else. */
  lemma {:induction false} TransBoolExact(e: Expr)
    ensures Untested(TransBool(e))
    ensures TransBool(e) == e <==> Untested(e)
  {
    match e
    case Leaf(_) =>
    case Cmp(_, _, _) =>
    case Not(a) => TransBoolExact(a);
    case Bin(_, l, r) =>
      TransBoolExact(l);
      TransBoolExact(r);
  }
}
