/** What comparisons of symbols mean (expr_parse_string and the comparisons of expr_calc_value in
    expr.c): numbers are compared as numbers, everything else as text. */
module ExprCompare {
  import opened Expr
  import opened Wrappers

  /** A comes before b in the order of characters: at their first difference, or by its end. */
  ghost predicate Before(s: string, t: string) {
    exists k: nat :: k <= |s| && BeforeAt(s, t, k)
  }

  predicate BeforeAt(s: string, t: string, k: nat)
    requires k <= |s|
  {
    k < |t| && s[..k] == t[..k] && (k == |s| || s[k] < t[k])
  }

  lemma BeforeStep(s: string, t: string)
    requires s != [] && t != []
    ensures Before(s, t) <==> s[0] < t[0] || (s[0] == t[0] && Before(s[1..], t[1..]))
  {
    if Before(s, t) {
      var k: nat :| k <= |s| && BeforeAt(s, t, k);
      if k > 0 {
        assert s[0] == s[..k][0] == t[..k][0] == t[0];
        assert s[1..][..k - 1] == s[..k][1..] == t[..k][1..] == t[1..][..k - 1];
        assert BeforeAt(s[1..], t[1..], k - 1);
      }
    }
    if s[0] < t[0] {
      assert BeforeAt(s, t, 0);
    }
    if s[0] == t[0] && Before(s[1..], t[1..]) {
      var k: nat :| k <= |s[1..]| && BeforeAt(s[1..], t[1..], k);
      assert s[..k + 1] == [s[0]] + s[1..][..k] == [t[0]] + t[1..][..k] == t[..k + 1];
      assert BeforeAt(s, t, k + 1);
    }
  }

  /** strcmp is that order. */
  lemma {:induction false} StrcmpExact(s: string, t: string)
    ensures Strcmp(s, t) < 0 <==> Before(s, t)
    ensures Strcmp(s, t) > 0 <==> Before(t, s)
  {
    if s == [] || t == [] {
      assert s == [] && t != [] ==> BeforeAt(s, t, 0);
      assert t == [] && s != [] ==> BeforeAt(t, s, 0);
      assert forall k: nat :: k <= |s| ==> (BeforeAt(s, t, k) ==> s == []);
      assert forall k: nat :: k <= |t| ==> (BeforeAt(t, s, k) ==> t == []);
    } else {
      BeforeStep(s, t);
      BeforeStep(t, s);
      if s[0] == t[0] {
        StrcmpExact(s[1..], t[1..]);
      }
    }
  }

  /** What a relation says about two numbers. */
  predicate Related(rel: Relation, x: int, y: int) {
    match rel
    case Eq => x == y
    case Neq => x != y
    case Lt => x < y
    case Leq => x <= y
    case Gt => x > y
    case Geq => x >= y
  }

  /** The base in which the text of a symbol is read: 0 lets the text decide. */
  function Base(a: Symbol): nat {
    if a.Type().Int? then 10 else if a.Type().Hex? then 16 else 0
  }

  /** What is compared as text: a boolean, a tristate, what does not read as a number, and of two
      strings both. */
  predicate AsText(v: Valuation, a: Symbol, b: Symbol) {
    || a.Type().Boolean? || a.Type().Tri? || (a.Type().String? && b.Type().String?)
    || (!a.Type().Other? && v.number(v.str(a), Base(a)).None?)
  }

  /** Two numbers are compared with their signs, unless one of them is hexadecimal. */
  lemma NumbersCompared(v: Valuation, rel: Relation, a: Symbol, b: Symbol)
    requires !AsText(v, a, b) && !AsText(v, b, a) && !a.Type().Other? && !b.Type().Other?
    ensures var x, y := v.number(v.str(a), Base(a)).value, v.number(v.str(b), Base(b)).value;
            v.Compare(rel, a, b) == YES
            <==> if a.Type().Hex? || b.Type().Hex? then Related(rel, x, y) else Related(rel, AsSigned(x), AsSigned(y))
    ensures v.Compare(rel, a, b) != MOD
  {
  }

  /** If one side is compared as text, so is the other. */
  lemma TextsCompared(v: Valuation, a: Symbol, b: Symbol)
    requires AsText(v, a, b) || AsText(v, b, a)
    ensures v.Compare(Eq, a, b) == YES <==> v.str(a) == v.str(b)
    ensures v.Compare(Neq, a, b) == YES <==> v.str(a) != v.str(b)
    ensures v.Compare(Lt, a, b) == YES <==> Before(v.str(a), v.str(b))
    ensures v.Compare(Gt, a, b) == YES <==> Before(v.str(b), v.str(a))
    ensures v.Compare(Leq, a, b) == YES <==> !Before(v.str(b), v.str(a))
    ensures v.Compare(Geq, a, b) == YES <==> !Before(v.str(a), v.str(b))
  {
    StrcmpExact(v.str(a), v.str(b));
  }

  /** A symbol without a type for values can be compared with a number for equality alone. */
  lemma OthersCompared(v: Valuation, rel: Relation, a: Symbol, b: Symbol)
    requires !AsText(v, a, b) && !AsText(v, b, a) && (a.Type().Other? || b.Type().Other?)
    ensures v.Compare(rel, a, b) == YES <==> (rel == Eq && v.str(a) == v.str(b)) || (rel == Neq && v.str(a) != v.str(b))
  {
  }
}
