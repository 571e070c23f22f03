/** Which entries menu_finalize nests under the entry of a symbol, said of their conditions
    themselves (menu.c, expr_contains_symbol, expr_depends_symbol and expr_eliminate_eq in expr.c). */
module MenuNesting {
  import opened Expr
  import opened ExprDups
  import opened ExprEq
  import opened ExprSame
  import opened ExprTransform
  import opened MenuDeps
  import opened SymbolGraph
  import opened Wrappers

  // ---------------------------------------------------------------- the symbol in the condition

  /** A condition contains the symbols it mentions. */
  lemma {:induction false} ContainsExact(e: Expr, s: Symbol)
    ensures Contains(e, s) <==> s in Refs(e)
  {
    match e
    case Leaf(_) =>
    case Cmp(_, _, _) =>
    case Not(a) => ContainsExact(a, s);
    case Bin(_, l, r) =>
      ContainsExact(l, s);
      ContainsExact(r, s);
  }

  /** The symbol itself, or that it is y, is m or is not n. */
  predicate Needs(e: Expr, s: Symbol) {
    e == Leaf(s) || e == Cmp(Eq, s, Yes) || e == Cmp(Eq, s, Mod) || e == Cmp(Neq, s, No)
  }

  ghost predicate SomeNeeds(c: seq<Expr>, s: Symbol) {
    exists k :: 0 <= k < |c| && Needs(c[k], s)
  }

  lemma NeedsAppend(a: seq<Expr>, b: seq<Expr>, s: Symbol)
    ensures SomeNeeds(a + b, s) <==> SomeNeeds(a, s) || SomeNeeds(b, s)
  {
    if SomeNeeds(a, s) {
      var k :| 0 <= k < |a| && Needs(a[k], s);
      assert (a + b)[k] == a[k];
    }
    if SomeNeeds(b, s) {
      var k :| 0 <= k < |b| && Needs(b[k], s);
      assert (a + b)[|a| + k] == b[k];
    }
  }

  /** A condition depends on a symbol if and only if one of its conjuncts needs the symbol. */
  lemma {:induction false} DependsExact(e: Expr, s: Symbol)
    ensures Depends(e, s) <==> SomeNeeds(Operands(Conj, e), s)
  {
    if Is(Conj, e) {
      DependsExact(e.left, s);
      DependsExact(e.right, s);
      NeedsAppend(Operands(Conj, e.left), Operands(Conj, e.right), s);
    } else {
      assert Operands(Conj, e)[0] == e;
    }
  }

  lemma {:induction false} OperandRefs(t: Junction, e: Expr, k: nat)
    requires k < |Operands(t, e)|
    ensures Refs(Operands(t, e)[k]) <= Refs(e)
  {
    if Is(t, e) {
      var l := Operands(t, e.left);
      if k < |l| { OperandRefs(t, e.left, k); } else { OperandRefs(t, e.right, k - |l|); }
    }
  }

  /** An entry with a conjunct that needs the symbol is nested, whatever the prompt's condition. */
  lemma NeedingNests(s: Symbol, prompt: Option<Expr>, d: Expr, k: nat)
    requires k < |Operands(Conj, d)| && Needs(Operands(Conj, d)[k], s)
    ensures Nests(s, prompt, Some(d))
  {
    DependsExact(d, s);
    ContainsExact(d, s);
    OperandRefs(Conj, d, k);
  }

  // ---------------------------------------------------------------- what the other test leaves

  /** Nothing is cancelled against y or n. */
  lemma {:induction false} BareMeets(t: Junction, x: Expr, y: Expr)
    requires Bare(x) || Bare(y)
    ensures Cancel(t, x, y) == (x, y)
    decreases Size(x) + Size(y)
  {
    if Is(t, x) {
      BareMeets(t, x.left, y);
      BareMeets(t, x.right, y);
    } else if Is(t, y) {
      BareMeets(t, x, y.left);
      BareMeets(t, x, y.right);
    } else {
      CancelOperands(t, x, y);
    }
  }

  /** A tree that is a single operand is cancelled by an operand of its form, or nothing changes. */
  lemma {:induction false} SingleExact(t: Junction, x: Expr, y: Expr)
    requires Clean(x) && Clean(y) && !Bare(x) && !Bare(y) && !Is(t, y)
    ensures FormOf(y) in Parts(t, x) ==> Cancel(t, x, y).1 == Leaf(t.Unit())
    ensures FormOf(y) !in Parts(t, x) ==> Cancel(t, x, y) == (x, y)
  {
    if Is(t, x) {
      SingleExact(t, x.left, y);
      if FormOf(y) in Parts(t, x.left) {
        BareMeets(t, x.right, Leaf(t.Unit()));
      } else {
        SingleExact(t, x.right, y);
      }
    } else {
      CancelOperands(t, x, y);
      SameExact(x, y);
    }
  }

  /** A pass of type AND makes y of the second tree exactly when all its operands are operands of
      the first; a pass of type OR never does. */
  lemma PassYes(t: Junction, x: Expr, y: Expr)
    requires Clean(x) && Clean(y) && !Bare(x) && !Bare(y)
    ensures EliminateYn(Cancel(t, x, y).1) == Leaf(Yes) <==> t.Conj? && Parts(t, y) <= Parts(t, x)
  {
    var a, b := Operands(t, x), Operands(t, y);
    CleanOperands(t, x);
    CleanOperands(t, y);
    OperandForms(t, x);
    OperandForms(t, y);
    forall k | 0 <= k < |a| ensures AllJudged(a[k], b) {
      forall i | 0 <= i < |b| ensures Judged(a[k], b[i]) {
        SameExact(a[k], b[i]);
      }
    }
    ListsExact(t, a, b);
    CancelLists(t, x, y);
    var g := Cancel(t, x, y).1;
    TidyYn(t, g);
    NothingLive(t, Operands(t, g), Parts(t, x), Parts(t, y));
  }

  lemma NothingLive(t: Junction, s: seq<Expr>, p: multiset<Form>, q: multiset<Form>)
    requires Live(t, s) == q - p
    ensures Rest(t, s) == [] <==> q <= p
  {
    if Rest(t, s) != [] {
      FormsIn(Rest(t, s), 0);
      var f := FormOf(Rest(t, s)[0]);
      assert (q - p)[f] > 0;
    } else {
      assert Forms([]) == multiset{};
      forall f: Form ensures q[f] <= p[f] {
        assert (q - p)[f] == 0;
      }
    }
  }

  /** A connective has two operands at least. */
  lemma TwoParts(t: Junction, e: Expr, f: Form)
    requires Is(t, e)
    ensures !(Parts(t, e) <= multiset{f})
  {
    PartsCount(t, e.left);
    PartsCount(t, e.right);
    MoreThanOne(Parts(t, e.left), Parts(t, e.right), f);
  }

  lemma MoreThanOne(p: multiset<Form>, q: multiset<Form>, f: Form)
    requires |p| >= 1 && |q| >= 1
    ensures !(p + q <= multiset{f})
  {
    var x :| x in p;
    var y :| y in q;
    assert (p + q)[x] >= 1 && (p + q)[y] >= 1 && (x == y ==> (p + q)[x] >= 2);
  }

  lemma {:induction false} PartsCount(t: Junction, e: Expr)
    ensures |Parts(t, e)| >= 1
  {
    if Is(t, e) {
      PartsCount(t, e.left);
    }
  }

  /** expr_eliminate_eq makes y of its second tree if and only if that is y already, or the first
      is a conjunction with all its conjuncts, in any order and nesting. */
  lemma SecondYes(x: Expr, y: Expr)
    requires Clean(x) && Clean(y)
    ensures EliminateEq(x, y).1 == Leaf(Yes) <==> y == Leaf(Yes) || (Is(Conj, x) && Parts(Conj, y) <= Parts(Conj, x))
  {
    if Bare(y) {
      BareSecond(x, y);
    } else if Bare(x) {
      if y.Bin? {
        BareMeets(y.op, x, y);
        CleanYn(y);
      }
    } else if x.Bin? {
      FirstPassYes(x, y);
    } else if y.Bin? {
      PassYes(y.op, x, y);
      TwoParts(y.op, y, FormOf(x));
    }
  }

  lemma BareSecond(x: Expr, y: Expr)
    requires Clean(x) && Bare(y)
    ensures EliminateEq(x, y).1 == y
    ensures Is(Conj, x) ==> !(Parts(Conj, y) <= Parts(Conj, x))
  {
    if x.Bin? {
      BareMeets(x.op, x, y);
    }
    if Is(Conj, x) {
      NoBarePart(Conj, x, y);
    }
  }

  lemma {:induction false} NoBarePart(t: Junction, x: Expr, y: Expr)
    requires Clean(x) && !Bare(x) && Bare(y)
    ensures FormOf(y) !in Parts(t, x)
  {
    if Is(t, x) {
      NoBarePart(t, x.left, y);
      NoBarePart(t, x.right, y);
    }
  }

  lemma FirstPassYes(x: Expr, y: Expr)
    requires x.Bin? && Clean(x) && Clean(y) && !Bare(y)
    ensures EliminateEq(x, y).1 == Leaf(Yes) <==> Is(Conj, x) && Parts(Conj, y) <= Parts(Conj, x)
  {
    var t := x.op;
    PassYes(t, x, y);
    if !Is(t, y) {
      SingleExact(t, x, y);
      if y.Bin? && FormOf(y) !in Parts(t, x) {
        PassYes(y.op, x, y);
        TwoParts(y.op, y, FormOf(x));
        assert CancelBoth(x, y) == Cancel(y.op, x, y);
      } else {
        assert CancelBoth(x, y) == Cancel(t, x, y);
      }
    } else {
      assert CancelBoth(x, y) == Cancel(t, x, y);
    }
  }

  // ---------------------------------------------------------------- the translated conditions

  /** No boolean is compared with m. */
  predicate Plain(e: Expr) {
    match e
    case Leaf(_) => true
    case Cmp(rel, a, b) => !(a.Type().Boolean? && (rel.Eq? || rel.Neq?) && b == Mod)
    case Not(a) => Plain(a)
    case Bin(_, l, r) => Plain(l) && Plain(r)
  }

  /** The comparison of a condition with n before the operands are merged. */
  function Tested(e: Expr): Expr {
    Transform(CompareNo(e, false))
  }

  /** Comparing for equality with n instead is the same under one negation more. */
  lemma {:induction false} CompareFlip(e: Expr, equal: bool, negated: bool)
    ensures Push(CompareNo(e, equal), negated) == Push(CompareNo(e, !equal), !negated)
  {
    if e.Not? {
      CompareFlip(e.arg, !equal, negated);
    }
  }

  /** The connectives of a condition stay as they are. */
  lemma TestedBin(op: Junction, l: Expr, r: Expr)
    ensures Tested(Bin(op, l, r)) == Bin(op, Tested(l), Tested(r))
  {
    TransformPush(CompareNo(Bin(op, l, r), false));
    TransformPush(CompareNo(l, false));
    TransformPush(CompareNo(r, false));
    CompareFlip(l, true, true);
    CompareFlip(r, true, true);
    assert op.Dual().Dual() == op;
  }

  lemma {:induction false} PushClean(e: Expr, equal: bool, negated: bool)
    requires Plain(e)
    ensures Clean(Push(CompareNo(e, equal), negated)) && !Bare(Push(CompareNo(e, equal), negated))
  {
    match e
    case Leaf(_) =>
    case Cmp(_, _, _) =>
    case Not(a) => PushClean(a, !equal, negated);
    case Bin(_, l, r) =>
      var inner := if equal then negated else !negated;
      PushClean(l, true, inner);
      PushClean(r, true, inner);
  }

  /** expr_eliminate_dups leaves no y or n operand where there was none. */
  lemma {:induction false} EliminateDupsClean(e: Expr)
    requires Clean(e) && NegationNormal(e)
    ensures Clean(EliminateDups(e))
    decreases Size(e)
  {
    if e.Bin? {
      var (f, n) := Dups1(e.op, e, [], [], 0);
      if n != 0 {
        EliminateYnShrinks(f);
        Dups1Normal(e.op, e, [], [], 0);
        EliminateYnClean(f);
        EliminateYnNormal(f);
        EliminateDupsClean(EliminateYn(f));
      }
    }
  }

  lemma TestFormClean(e: Option<Expr>)
    requires e.Some? ==> Plain(e.value)
    ensures Clean(TestForm(e)) && (e.None? ==> TestForm(e) == Leaf(Yes))
  {
    if e.Some? {
      PushClean(e.value, false, false);
      TransformPush(CompareNo(e.value, false));
      TransformNormal(CompareNo(e.value, false));
      EliminateDupsClean(Tested(e.value));
    }
  }

  // ---------------------------------------------------------------- which entries are nested

  /** An entry is nested if and only if its condition mentions the symbol, and either one of its
      conjuncts needs the symbol, or the prompt's condition comes to y, or the simplified test of
      its condition is a conjunction with all conjuncts of the simplified test of the prompt's. */
  lemma NestsIff(s: Symbol, prompt: Option<Expr>, dep: Option<Expr>)
    requires (prompt.Some? ==> Plain(prompt.value)) && (dep.Some? ==> Plain(dep.value))
    ensures Nests(s, prompt, dep)
        <==> dep.Some? && s in Refs(dep.value)
             && (SomeNeeds(Operands(Conj, dep.value), s)
                 || TestForm(prompt) == Leaf(Yes)
                 || (Is(Conj, TestForm(dep)) && Parts(Conj, TestForm(prompt)) <= Parts(Conj, TestForm(dep))))
  {
    if dep.Some? {
      ContainsExact(dep.value, s);
      DependsExact(dep.value, s);
      TestFormClean(dep);
      TestFormClean(prompt);
      SecondYes(TestForm(dep), TestForm(prompt));
    }
  }

  /** Under a prompt without a condition every entry is nested that mentions the symbol. */
  lemma NestsUnconditional(s: Symbol, d: Expr)
    requires s in Refs(d)
    ensures Nests(s, None, Some(d))
  {
    ContainsExact(d, s);
    var x := TestForm(Some(d));
    assert TestForm(None) == Leaf(Yes);
    if x.Bin? {
      BareMeets(x.op, x, Leaf(Yes));
    }
  }

  lemma {:induction false} ConjunctParts(d: Expr, k: nat)
    requires k < |Operands(Conj, d)|
    ensures Parts(Conj, Tested(Operands(Conj, d)[k])) <= Parts(Conj, Tested(d))
  {
    if Is(Conj, d) {
      TestedBin(Conj, d.left, d.right);
      assert Parts(Conj, Tested(d)) == Parts(Conj, Tested(d.left)) + Parts(Conj, Tested(d.right));
      var l := Operands(Conj, d.left);
      if k < |l| {
        assert Operands(Conj, d)[k] == l[k];
        ConjunctParts(d.left, k);
      } else {
        assert Operands(Conj, d)[k] == Operands(Conj, d.right)[k - |l|];
        ConjunctParts(d.right, k - |l|);
      }
    }
  }

  /** An entry that mentions the symbol and has the prompt's condition among its conjuncts is
      nested, where nothing in the two tests merges. */
  lemma ConjunctNests(s: Symbol, d: Expr, k: nat)
    requires Is(Conj, d) && k < |Operands(Conj, d)| && s in Refs(d) && Plain(d)
    requires Plain(Operands(Conj, d)[k]) && Finished(Tested(d)) && Finished(Tested(Operands(Conj, d)[k]))
    ensures Nests(s, Some(Operands(Conj, d)[k]), Some(d))
  {
    var c := Operands(Conj, d)[k];
    EliminateDupsComplete(Tested(d));
    EliminateDupsComplete(Tested(c));
    TestedBin(Conj, d.left, d.right);
    ConjunctParts(d, k);
    NestsIff(s, Some(c), Some(d));
  }

  /** That it is a conjunct among others is needed: an entry with the very condition of the prompt
      is not nested where that is only that the symbol is n. */
  lemma SameConditionRefused(s: Symbol)
    requires s.Type().Tri?
    ensures !Nests(s, Some(Not(Leaf(s))), Some(Not(Leaf(s))))
  {
    var c := Not(Leaf(s));
    assert CompareNo(c, false) == CompareNo(Leaf(s), true) == Cmp(Eq, s, No);
    assert Transform(Cmp(Eq, s, No)) == Cmp(Eq, s, No) == EliminateDups(Cmp(Eq, s, No));
    assert TestForm(Some(c)) == Cmp(Eq, s, No);
    NestsIff(s, Some(c), Some(c));
    assert Operands(Conj, c) == [c];
  }
}
