/** Merging two operands of one connective (expr_join_or and expr_join_and in expr.c). */
module ExprJoin {
  import opened Expr
  import opened ExprEq
  import opened ExprSame
  import opened Wrappers

  predicate Equality(e: Expr) {
    e.Cmp? && (e.rel.Eq? || e.rel.Neq?)
  }

  predicate IsEq(e: Expr) { e.Cmp? && e.rel.Eq? }

  predicate IsNeq(e: Expr) { e.Cmp? && e.rel.Neq? }

  /** The symbol an equality or a symbol node is about. */
  function Subject(e: Expr): Option<Symbol> {
    if Equality(e) then Some(e.lhs) else if e.Leaf? then Some(e.sym) else None
  }

  /** sym1: a negated first operand may hold an equality or a symbol. */
  function FirstSubject(e: Expr): Option<Symbol> {
    if e.Not? then Subject(e.arg) else Subject(e)
  }

  /** sym2: a negated second operand may hold only a symbol. */
  function SecondSubject(e: Expr): Option<Symbol> {
    if e.Not? then (if e.arg.Leaf? then Some(e.arg.sym) else None) else Subject(e)
  }

  /** The symbol both operands are about, when it is a boolean or a tristate. */
  function SharedSubject(e1: Expr, e2: Expr): Option<Symbol> {
    var s1, s2 := FirstSubject(e1), SecondSubject(e2);
    if s1.Some? && s1 == s2 && (s1.value.Type().Boolean? || s1.value.Type().Tri?) then s1 else None
  }

  /** The two constants are a and b in either order. */
  predicate Constants(e1: Expr, e2: Expr, a: Symbol, b: Symbol)
    requires e1.Cmp? && e2.Cmp?
  {
    (e1.rhs == a && e2.rhs == b) || (e1.rhs == b && e2.rhs == a)
  }

  /** One operand is the bare symbol and the other compares it with c. */
  predicate SymbolAnd(e1: Expr, e2: Expr, rel: Relation, c: Symbol) {
    (e1.Leaf? && e2.Cmp? && e2.rel == rel && e2.rhs == c)
    || (e2.Leaf? && e1.Cmp? && e1.rel == rel && e1.rhs == c)
  }

  /** The rules of expr_join_or for two different operands. */
  function OrRule(e1: Expr, e2: Expr): (r: Option<Expr>)
    ensures r.Some? ==> r.value.Leaf? || r.value.Cmp?
  {
    var subject := SharedSubject(e1, e2);
    if subject.None? then None else
    var s := subject.value;
    if s.Type().Tri? && IsEq(e1) && IsEq(e2) && Constants(e1, e2, Yes, Mod) then Some(Cmp(Neq, s, No))
    else if s.Type().Tri? && IsEq(e1) && IsEq(e2) && Constants(e1, e2, Yes, No) then Some(Cmp(Neq, s, Mod))
    else if s.Type().Tri? && IsEq(e1) && IsEq(e2) && Constants(e1, e2, Mod, No) then Some(Cmp(Neq, s, Yes))
    else if s.Type().Boolean? &&
            ((e1.Not? && e1.arg.Leaf? && e2.Leaf?) || (e2.Not? && e2.arg.Leaf? && e1.Leaf?)) then Some(Leaf(Yes))
    else None
  }

  /** The rules of expr_join_and for two different operands. */
  function AndRule(e1: Expr, e2: Expr): (r: Option<Expr>)
    ensures r.Some? ==> r.value.Leaf? || r.value.Cmp?
  {
    var subject := SharedSubject(e1, e2);
    if subject.None? then None else
    var s := subject.value;
    if SymbolAnd(e1, e2, Eq, Yes) then Some(Cmp(Eq, s, Yes))
    else if SymbolAnd(e1, e2, Neq, No) then Some(Leaf(s))
    else if SymbolAnd(e1, e2, Neq, Mod) then Some(Cmp(Eq, s, Yes))
    else if !s.Type().Tri? then None
    else if IsEq(e1) && IsNeq(e2) && e1.rhs.IsConst() && e2.rhs.IsConst() then
      Some(if e1.rhs != e2.rhs then Cmp(Eq, s, e1.rhs) else Leaf(No))
    else if IsNeq(e1) && IsEq(e2) && e1.rhs.IsConst() && e2.rhs.IsConst() then
      Some(if e2.rhs != e1.rhs then Cmp(Eq, s, e2.rhs) else Leaf(No))
    else if IsNeq(e1) && IsNeq(e2) && Constants(e1, e2, Yes, No) then Some(Cmp(Eq, s, Mod))
    else if IsNeq(e1) && IsNeq(e2) && Constants(e1, e2, Yes, Mod) then Some(Cmp(Eq, s, No))
    else if IsNeq(e1) && IsNeq(e2) && Constants(e1, e2, Mod, No) then Some(Cmp(Eq, s, Yes))
    else None
  }

  /** expr_join_or and expr_join_and. */
  function Join(t: Junction, e1: Expr, e2: Expr): (r: Option<Expr>)
    ensures r.Some? ==> 1 + Size(r.value) <= Size(e1) + Size(e2)
  {
    if Same(e1, e2) then Some(e1) else if t.Conj? then AndRule(e1, e2) else OrRule(e1, e2)
  }

  /** For a boolean or tristate symbol, an equality with a constant depends on the text alone. */
  lemma CompareWithConst(v: Valuation, s: Symbol, c: Symbol)
    requires s.Type().Boolean? || s.Type().Tri?
    ensures v.Compare(Eq, s, c) == if v.str(s) == v.str(c) then YES else NO
    ensures v.Compare(Neq, s, c) == if v.str(s) == v.str(c) then NO else YES
  {
    assert v.Kind(s, c).0.Text?;
  }

  /** What the rules use: the value of one operand about the symbol s. */
  lemma OperandValue(v: Valuation, s: Symbol, e: Expr)
    requires v.Valid() && (s.Type().Boolean? || s.Type().Tri?)
    requires FirstSubject(e) == Some(s)
    ensures s.Type().Boolean? ==> v.tri(s) != MOD
    ensures e.Leaf? ==> Value(e, v) == v.tri(s)
    ensures e.Not? && e.arg.Leaf? ==> Value(e, v) == Negate(v.tri(s))
    ensures IsEq(e) && e.rhs.IsStatic() ==> Value(e, v) == if v.tri(s) == v.tri(e.rhs) then YES else NO
    ensures IsNeq(e) && e.rhs.IsStatic() ==> Value(e, v) == if v.tri(s) == v.tri(e.rhs) then NO else YES
  {
    if Equality(e) && e.rhs.IsStatic() {
      CompareWithStatic(v, s, e.rhs);
    }
  }

  lemma OrRuleKeepsValue(e1: Expr, e2: Expr, v: Valuation)
    requires v.Valid() && OrRule(e1, e2).Some?
    ensures Value(OrRule(e1, e2).value, v) == Max(Value(e1, v), Value(e2, v))
  {
    var s := SharedSubject(e1, e2).value;
    if IsEq(e1) {
      TwoEqs(v, s, e1, e2);
    } else {
      OperandValue(v, s, e1);
      OperandValue(v, s, e2);
    }
  }

  /** (a = b) or (a = c) for two different constants, in either order. */
  lemma TwoEqs(v: Valuation, s: Symbol, e1: Expr, e2: Expr)
    requires v.Valid() && s.Type().Tri? && IsEq(e1) && IsEq(e2) && e1.lhs == s && e2.lhs == s
    ensures Constants(e1, e2, Yes, Mod) ==> Max(Value(e1, v), Value(e2, v)) == v.Compare(Neq, s, No)
    ensures Constants(e1, e2, Yes, No) ==> Max(Value(e1, v), Value(e2, v)) == v.Compare(Neq, s, Mod)
    ensures Constants(e1, e2, Mod, No) ==> Max(Value(e1, v), Value(e2, v)) == v.Compare(Neq, s, Yes)
  {
    CompareWithStatic(v, s, Yes);
    CompareWithStatic(v, s, Mod);
    CompareWithStatic(v, s, No);
  }

  /** (a = b) and (a != c) for two constants b and c, in this order. */
  lemma EqAndNeq(v: Valuation, s: Symbol, b: Symbol, c: Symbol)
    requires v.Valid() && s.Type().Tri? && b.IsConst() && c.IsConst()
    ensures Min(v.Compare(Eq, s, b), v.Compare(Neq, s, c)) == if b == c then NO else v.Compare(Eq, s, b)
  {
    CompareWithConst(v, s, b);
    CompareWithConst(v, s, c);
  }

  /** (a != b) and (a != c) for two different constants, in either order. */
  lemma TwoNeqs(v: Valuation, s: Symbol, e1: Expr, e2: Expr)
    requires v.Valid() && s.Type().Tri? && IsNeq(e1) && IsNeq(e2) && e1.lhs == s && e2.lhs == s
    ensures Constants(e1, e2, Yes, No) ==> Min(Value(e1, v), Value(e2, v)) == v.Compare(Eq, s, Mod)
    ensures Constants(e1, e2, Yes, Mod) ==> Min(Value(e1, v), Value(e2, v)) == v.Compare(Eq, s, No)
    ensures Constants(e1, e2, Mod, No) ==> Min(Value(e1, v), Value(e2, v)) == v.Compare(Eq, s, Yes)
  {
    CompareWithStatic(v, s, Yes);
    CompareWithStatic(v, s, Mod);
    CompareWithStatic(v, s, No);
  }

  /** A symbol and its comparison with a constant, in either order. */
  lemma SymbolAndCompared(v: Valuation, s: Symbol, e1: Expr, e2: Expr, rel: Relation, c: Symbol)
    requires v.Valid() && SharedSubject(e1, e2) == Some(s) && SymbolAnd(e1, e2, rel, c)
    ensures Min(Value(e1, v), Value(e2, v)) == Min(v.tri(s), v.Compare(rel, s, c))
  {
  }

  lemma AndRuleKeepsValue(e1: Expr, e2: Expr, v: Valuation)
    requires v.Valid() && AndRule(e1, e2).Some?
    ensures Value(AndRule(e1, e2).value, v) == Min(Value(e1, v), Value(e2, v))
  {
    var s := SharedSubject(e1, e2).value;
    var r := AndRule(e1, e2).value;
    if SymbolAnd(e1, e2, Eq, Yes) {
      SymbolAndCompared(v, s, e1, e2, Eq, Yes);
      OperandValue(v, s, r);
    } else if SymbolAnd(e1, e2, Neq, No) {
      SymbolAndCompared(v, s, e1, e2, Neq, No);
      CompareWithStatic(v, s, No);
    } else if SymbolAnd(e1, e2, Neq, Mod) {
      SymbolAndCompared(v, s, e1, e2, Neq, Mod);
      OperandValue(v, s, r);
      CompareWithStatic(v, s, Mod);
    } else if IsEq(e1) {
      EqAndNeq(v, s, e1.rhs, e2.rhs);
    } else if IsEq(e2) {
      EqAndNeq(v, s, e2.rhs, e1.rhs);
    } else {
      TwoNeqs(v, s, e1, e2);
    }
  }

  /** Every merging rule keeps the value of the joined operands. */
  lemma JoinKeepsValue(t: Junction, e1: Expr, e2: Expr, v: Valuation)
    requires v.Valid() && Join(t, e1, e2).Some?
    ensures Value(Join(t, e1, e2).value, v) == t.Apply(Value(e1, v), Value(e2, v))
  {
    if Same(e1, e2) {
      SameSound(e1, e2, v);
    } else if t.Conj? {
      AndRuleKeepsValue(e1, e2, v);
    } else {
      OrRuleKeepsValue(e1, e2, v);
    }
  }

  // ---------------------------------------------------------------- when operands merge

  predicate TwoOrThree(s: Symbol) {
    s.Type().Boolean? || s.Type().Tri?
  }

  /** y, m and n in some order. */
  predicate Third(a: Symbol, b: Symbol, c: Symbol) {
    a.IsStatic() && b.IsStatic() && c.IsStatic() && a != b && b != c && c != a
  }

  /** A tristate that is one or another of y, m and n is not the third; a boolean or its negation. */
  predicate OrPair(e1: Expr, e2: Expr, r: Expr) {
    match (e1, e2)
    case (Cmp(p, s, a), Cmp(q, u, b)) =>
      s == u && s.Type().Tri? && p.Eq? && q.Eq? && r.Cmp? && r == Cmp(Neq, s, r.rhs) && Third(a, b, r.rhs)
    case (Leaf(s), Not(x)) => x == e1 && s.Type().Boolean? && r == Leaf(Yes)
    case _ => false
  }

  /** A symbol with a comparison of it; a tristate that is one constant and not another; a
      tristate that is neither of two of y, m and n. */
  predicate AndPair(e1: Expr, e2: Expr, r: Expr) {
    match (e1, e2)
    case (Leaf(s), Cmp(q, u, c)) =>
      s == u && TwoOrThree(s)
      && ((q.Eq? && c == Yes && r == Cmp(Eq, s, Yes)) || (q.Neq? && c == No && r == e1)
          || (q.Neq? && c == Mod && r == Cmp(Eq, s, Yes)))
    case (Cmp(p, s, a), Cmp(q, u, b)) =>
      s == u && s.Type().Tri? && q.Neq?
      && ((p.Eq? && a.IsConst() && b.IsConst() && r == if a == b then Leaf(No) else e1)
          || (p.Neq? && r.Cmp? && r == Cmp(Eq, s, r.rhs) && Third(a, b, r.rhs)))
    case _ => false
  }

  /** The rules apply to exactly these pairs, in either order. */
  lemma OrRuleExact(e1: Expr, e2: Expr, r: Expr)
    requires e1 != e2
    ensures OrRule(e1, e2) == Some(r) <==> OrPair(e1, e2, r) || OrPair(e2, e1, r)
  {
  }

  lemma AndRuleExact(e1: Expr, e2: Expr, r: Expr)
    requires e1 != e2
    ensures AndRule(e1, e2) == Some(r) <==> AndPair(e1, e2, r) || AndPair(e2, e1, r)
  {
  }

  /** Two operands merge if and only if they are equal or one of the rules applies. */
  lemma JoinExact(t: Junction, e1: Expr, e2: Expr, r: Expr)
    ensures Join(t, e1, e2) == Some(r)
        <==> if Same(e1, e2) then r == e1
             else if t.Conj? then AndPair(e1, e2, r) || AndPair(e2, e1, r)
             else OrPair(e1, e2, r) || OrPair(e2, e1, r)
    ensures Join(t, e1, e1) == Some(e1)
  {
    SameRefl(e1);
    if !Same(e1, e2) {
      OrRuleExact(e1, e2, r);
      AndRuleExact(e1, e2, r);
    }
  }
}
