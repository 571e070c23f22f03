/** The dependency arithmetic of menu_finalize: how conditions are handed down to an
    entry, and the test that decides whether a following entry is nested (menu.c,
    expr_trans_compare, expr_contains_symbol and expr_depends_symbol in expr.c). */
module MenuDeps {
  import opened Expr
  import opened ExprEq
  import opened ExprDups
  import opened ExprTransform
  import opened Wrappers

  /** expr_alloc_and. */
  function AllocAnd(a: Option<Expr>, b: Option<Expr>): Option<Expr> {
    if a.None? then b else if b.None? then a else Some(Bin(Conj, a.value, b.value))
  }

  function TransformOpt(e: Option<Expr>): Option<Expr> {
    if e.None? then None else Some(Transform(e.value))
  }

  function DupsOpt(e: Option<Expr>): Option<Expr> {
    if e.None? then None else Some(EliminateDups(e.value))
  }

  predicate NormalOpt(e: Option<Expr>) {
    e.Some? ==> NegationNormal(e.value)
  }

  /** The value that expr_transform leaves of a condition. */
  function PolarOpt(e: Option<Expr>, v: Valuation): Tristate {
    if e.None? then YES else Polar(e.value, v, true)
  }

  predicate ComparableOpt(e: Option<Expr>, v: Valuation) {
    e.Some? ==> OddComparable(e.value, v, true)
  }

  /** The condition `e` of an entry or a property under the condition `above`. */
  function HandDown(above: Option<Expr>, e: Option<Expr>): Option<Expr> {
    DupsOpt(AllocAnd(above, TransformOpt(e)))
  }

  /** A property's visibility; an entry that is no tristate drops its "!= n" tests. */
  function PropertyVisible(isTristate: bool, base: Option<Expr>, e: Option<Expr>): Option<Expr> {
    var dep := HandDown(base, e);
    if isTristate || dep.None? then dep else Some(TransBool(dep.value))
  }

  lemma PolarOptValue(e: Option<Expr>, v: Valuation)
    ensures PolarOpt(e, v) <= ValueOpt(e, v)
    ensures ComparableOpt(e, v) ==> PolarOpt(e, v) == ValueOpt(e, v)
  {
    if e.Some? {
      PolarBounds(e.value, v);
      if ComparableOpt(e, v) { OddKeepsValue(e.value, v, true); }
    }
  }

  /** An inherited condition is the minimum of the two, as far as expr_transform keeps the
      value, and keeps the normal form. */
  lemma HandDownValue(above: Option<Expr>, e: Option<Expr>, v: Valuation)
    requires v.Valid()
    ensures ValueOpt(HandDown(above, e), v) == Min(ValueOpt(above, v), PolarOpt(e, v))
    ensures ComparableOpt(e, v) ==> ValueOpt(HandDown(above, e), v) == Min(ValueOpt(above, v), ValueOpt(e, v))
    ensures NormalOpt(above) ==> NormalOpt(HandDown(above, e))
  {
    if e.Some? {
      TransformExact(e.value, v);
      TransformNormal(e.value);
    }
    PolarOptValue(e, v);
    var joined := AllocAnd(above, TransformOpt(e));
    if joined.Some? {
      EliminateDupsKeepsValue(joined.value, v);
    }
  }

  /** What is handed down is one condition wherever there is one at all, and no two operands of it
      merge any more. */
  lemma HandDownFinished(above: Option<Expr>, e: Option<Expr>)
    ensures HandDown(above, e).None? <==> above.None? && e.None?
    ensures HandDown(above, e).Some? ==> Finished(HandDown(above, e).value)
  {
    var joined := AllocAnd(above, TransformOpt(e));
    if joined.Some? {
      EliminateDupsComplete(joined.value);
    }
  }

  /** A property handed down through its entry's dependency is visible exactly when the
      parent's condition, the entry's and its own all are; for a tristate its value is
      the minimum of the three. */
  lemma PropertyVisibleValue(isTristate: bool, above: Option<Expr>, dep: Option<Expr>, e: Option<Expr>, v: Valuation)
    requires v.Valid() && NormalOpt(above)
    ensures var r := PropertyVisible(isTristate, HandDown(above, dep), e);
            var m := Min(ValueOpt(above, v), Min(PolarOpt(dep, v), PolarOpt(e, v)));
            && NormalOpt(r)
            && (ValueOpt(r, v) == NO <==> m == NO)
            && (isTristate ==> ValueOpt(r, v) == m)
    ensures ComparableOpt(dep, v) && ComparableOpt(e, v) ==>
            PolarOpt(dep, v) == ValueOpt(dep, v) && PolarOpt(e, v) == ValueOpt(e, v)
  {
    PolarOptValue(dep, v);
    PolarOptValue(e, v);
    HandDownValue(above, dep, v);
    var base := HandDown(above, dep);
    HandDownValue(base, e, v);
    var full := HandDown(base, e);
    if full.Some? && !isTristate {
      TransBoolKeepsNo(full.value, v);
    }
  }

  // ---------------------------------------------------------------- the nesting test

  /** expr_contains_symbol. */
  predicate Contains(e: Expr, s: Symbol) {
    match e
    case Leaf(t) => t == s
    case Cmp(_, a, b) => a == s || b == s
    case Not(a) => Contains(a, s)
    case Bin(_, l, r) => Contains(l, s) || Contains(r, s)
  }

  /** expr_depends_symbol. */
  predicate Depends(e: Expr, s: Symbol) {
    match e
    case Leaf(t) => t == s
    case Cmp(rel, a, b) =>
      a == s && ((rel.Eq? && (b == Yes || b == Mod)) || (rel.Neq? && b == No))
    case Not(_) => false
    case Bin(op, l, r) => op.Conj? && (Depends(l, s) || Depends(r, s))
  }

  /** expr_trans_compare against symbol_no: rel is E_EQUAL or E_UNEQUAL. */
  function CompareNo(e: Expr, equal: bool): Expr {
    match e
    case Leaf(s) => Cmp(if equal then Eq else Neq, s, No)
    case Cmp(_, _, _) => if equal then Not(e) else e
    case Not(a) => CompareNo(a, !equal)
    case Bin(op, l, r) =>
      var b := Bin(op.Dual(), CompareNo(l, true), CompareNo(r, true));
      if equal then b else Not(b)
  }

  function CompareNoOpt(e: Option<Expr>): Expr {
    if e.None? then Not(Leaf(No)) else CompareNo(e.value, false)
  }

  function TestForm(e: Option<Expr>): Expr {
    EliminateDups(Transform(CompareNoOpt(e)))
  }

  /** The decision of menu_finalize whether an entry with condition `dep` is nested
      under the preceding entry of symbol `s`, whose prompt has condition `prompt`. */
  predicate Nests(s: Symbol, prompt: Option<Expr>, dep: Option<Expr>) {
    dep.Some? && Contains(dep.value, s) &&
    (Depends(dep.value, s) || EliminateEq(TestForm(dep), TestForm(prompt)).1 == Leaf(Yes))
  }

  /** What the nesting test takes a condition for: shown or not. A symbol counts by its text,
      a negation as if what it negates were y or n. */
  predicate Shown(e: Expr, v: Valuation, even: bool) {
    match e
    case Leaf(s) => v.str(s) != "n"
    case Cmp(_, _, _) => Polar(e, v, even) == YES
    case Not(a) => !Shown(a, v, !even)
    case Bin(op, l, r) =>
      if op.Conj? then Shown(l, v, even) && Shown(r, v, even) else Shown(l, v, even) || Shown(r, v, even)
  }

  predicate ShownOpt(e: Option<Expr>, v: Valuation) {
    e.None? || Shown(e.value, v, true)
  }

  /** Every symbol, whatever its type, is compared with n by its text. */
  lemma AgainstNo(s: Symbol, v: Valuation)
    requires v.Valid()
    ensures v.Compare(Eq, s, No) == if v.str(s) == "n" then YES else NO
    ensures v.Compare(Neq, s, No) == if v.str(s) == "n" then NO else YES
  {
    assert v.Kind(s, No).1.Text?;
  }

  /** expr_trans_compare followed by expr_transform, for every condition and configuration. */
  lemma {:induction false} CompareNoPolar(e: Expr, equal: bool, v: Valuation, even: bool)
    requires v.Valid()
    ensures Polar(CompareNo(e, equal), v, even)
         == if Shown(e, v, if equal then !even else even) != equal then YES else NO
  {
    match e
    case Leaf(s) => AgainstNo(s, v);
    case Cmp(_, _, _) =>
    case Not(a) => CompareNoPolar(a, !equal, v, even);
    case Bin(op, l, r) =>
      var inner := if equal then even else !even;
      CompareNoPolar(l, true, v, inner);
      CompareNoPolar(r, true, v, inner);
  }

  /** Where the nesting test takes a condition for what it is: symbols have the text n exactly
      when they are n, no negated part is m, and no ordering that expr_transform turns around
      ends in the "Cannot compare" branch. */
  predicate TwoValued(e: Expr, v: Valuation, even: bool) {
    match e
    case Leaf(s) => v.str(s) == "n" <==> v.tri(s) == NO
    case Cmp(_, _, _) => even || Comparable(e, v)
    case Not(a) => TwoValued(a, v, !even) && Value(a, v) != MOD
    case Bin(_, l, r) => TwoValued(l, v, even) && TwoValued(r, v, even)
  }

  predicate Regular(e: Option<Expr>, v: Valuation) {
    e.Some? ==> TwoValued(e.value, v, true)
  }

  lemma {:induction false} ShownRegular(e: Expr, v: Valuation, even: bool)
    requires TwoValued(e, v, even)
    ensures Shown(e, v, even) <==> Value(e, v) != NO
  {
    match e
    case Leaf(_) =>
    case Cmp(_, _, _) =>
    case Not(a) => ShownRegular(a, v, !even);
    case Bin(_, l, r) =>
      ShownRegular(l, v, even);
      ShownRegular(r, v, even);
  }

  /** Booleans, tristates and y, m, n have that text exactly when they are n. */
  lemma TextOfNo(s: Symbol, v: Valuation)
    requires v.Valid() && (s.Type().Boolean? || s.Type().Tri? || s.IsStatic())
    ensures TwoValued(Leaf(s), v, true)
  {
    assert "y"[0] == 'y' && "m"[0] == 'm' && "n"[0] == 'n';
  }

  lemma {:induction false} CompareNoComparable(e: Expr, equal: bool, v: Valuation)
    requires Comparable(e, v)
    ensures Comparable(CompareNo(e, equal), v)
  {
    match e
    case Leaf(_) =>
    case Cmp(_, _, _) =>
    case Not(a) => CompareNoComparable(a, !equal, v);
    case Bin(_, l, r) =>
      CompareNoComparable(l, true, v);
      CompareNoComparable(r, true, v);
  }

  /** expr_trans_compare yields y or n: whether the tree is, or is not, n. */
  lemma {:induction false} CompareNoExact(e: Expr, equal: bool, v: Valuation)
    requires v.Valid() && TwoValued(e, v, !equal)
    ensures Polar(CompareNo(e, equal), v, true) == if (Value(e, v) == NO) == equal then YES else NO
    ensures Comparable(e, v) ==>
        Comparable(CompareNo(e, equal), v)
        && Value(CompareNo(e, equal), v) == if (Value(e, v) == NO) == equal then YES else NO
  {
    CompareNoPolar(e, equal, v, true);
    ShownRegular(e, v, !equal);
    if Comparable(e, v) {
      CompareNoComparable(e, equal, v);
      ComparableOdd(CompareNo(e, equal), v, true);
      OddKeepsValue(CompareNo(e, equal), v, true);
    }
  }

  lemma {:induction false} ComparableOdd(e: Expr, v: Valuation, even: bool)
    requires Comparable(e, v)
    ensures OddComparable(e, v, even)
  {
    match e
    case Leaf(_) =>
    case Cmp(_, _, _) =>
    case Not(a) => ComparableOdd(a, v, !even);
    case Bin(_, l, r) =>
      ComparableOdd(l, v, even);
      ComparableOdd(r, v, even);
  }

  /** The side condition is needed: on a negated tristate the translation is right
      exactly when the symbol is not m. */
  lemma CompareNoUnderNot(s: Symbol, v: Valuation)
    requires v.Valid() && s.Type().Tri?
    ensures Value(CompareNo(Not(Leaf(s)), false), v) == (if Value(Not(Leaf(s)), v) != NO then YES else NO)
        <==> v.tri(s) != MOD
  {
    CompareWithStatic(v, s, No);
  }

  /** Both sides of the nesting test, for every condition and configuration. */
  lemma TestFormValue(e: Option<Expr>, v: Valuation)
    requires v.Valid()
    ensures Value(TestForm(e), v) == if ShownOpt(e, v) then YES else NO
    ensures Regular(e, v) ==> (ShownOpt(e, v) <==> ValueOpt(e, v) != NO)
  {
    var c := CompareNoOpt(e);
    if e.Some? {
      CompareNoPolar(e.value, false, v, true);
      if Regular(e, v) { ShownRegular(e.value, v, true); }
    }
    TransformExact(c, v);
    EliminateDupsKeepsValue(Transform(c), v);
  }

  /** No two operands of either side merge any more. */
  lemma TestFormFinished(e: Option<Expr>)
    ensures Finished(TestForm(e))
  {
    EliminateDupsComplete(Transform(CompareNoOpt(e)));
  }

  /** A condition that depends on a symbol is n while the symbol is n. */
  lemma {:induction false} DependsSound(e: Expr, s: Symbol, v: Valuation)
    requires v.Valid() && (s.Type().Boolean? || s.Type().Tri?) && Depends(e, s) && v.tri(s) == NO
    ensures Value(e, v) == NO
  {
    match e
    case Leaf(_) =>
    case Cmp(_, a, b) => CompareWithStatic(v, s, b);
    case Bin(_, l, r) =>
      if Depends(l, s) { DependsSound(l, s, v); } else { DependsSound(r, s, v); }
  }

  /** What the nesting test means, for every pair of conditions: the nested one depends on the
      symbol, or the prompt is shown wherever the nested one is. */
  lemma NestsExact(s: Symbol, prompt: Option<Expr>, dep: Option<Expr>, v: Valuation)
    requires v.Valid() && Nests(s, prompt, dep)
    ensures Depends(dep.value, s) || (ShownOpt(dep, v) ==> ShownOpt(prompt, v))
  {
    if !Depends(dep.value, s) {
      EliminateEqReflectsOrder(TestForm(dep), TestForm(prompt), v);
      TestFormValue(dep, v);
      TestFormValue(prompt, v);
    }
  }

  /** The nesting test is sound: a nested entry can only be visible where the symbol it
      is nested under is set, or where that symbol's prompt is visible. */
  lemma NestsSound(s: Symbol, prompt: Option<Expr>, dep: Option<Expr>, v: Valuation)
    requires v.Valid() && (s.Type().Boolean? || s.Type().Tri?) && Nests(s, prompt, dep)
    requires Regular(prompt, v) && Regular(dep, v)
    ensures ValueOpt(dep, v) != NO ==> v.tri(s) != NO || ValueOpt(prompt, v) != NO
  {
    NestsExact(s, prompt, dep, v);
    TestFormValue(dep, v);
    TestFormValue(prompt, v);
    if Depends(dep.value, s) && v.tri(s) == NO {
      DependsSound(dep.value, s, v);
    }
  }
}
