/** What the equality test answers 1 on (expr_eq with __expr_eliminate_eq and expr_eliminate_yn
    in expr.c): every tree equals itself, and where no operand is y or n two trees are equal
    exactly when they differ only in the order and the nesting of operands. */
module ExprSame {
  import opened Expr
  import opened ExprEq

  // ---------------------------------------------------------------- lists of operands

  /** The operands that a tree of the connective t joins. */
  function Operands(t: Junction, e: Expr): seq<Expr> {
    if Is(t, e) then Operands(t, e.left) + Operands(t, e.right) else [e]
  }

  predicate Single(t: Junction, s: seq<Expr>) {
    forall k :: 0 <= k < |s| ==> !Is(t, s[k])
  }

  lemma {:induction false} OperandsSingle(t: Junction, e: Expr)
    ensures Single(t, Operands(t, e)) && Operands(t, e) != []
  {
    if Is(t, e) {
      OperandsSingle(t, e.left);
      OperandsSingle(t, e.right);
    }
  }

  /** One operand meets all operands of the other tree, in order. */
  function Against(t: Junction, a: Expr, s: seq<Expr>): (Expr, seq<Expr>)
    decreases |s|
  {
    if s == [] then (a, [])
    else
      var (b, x) := Cancel(t, a, s[0]);
      var (c, u) := Against(t, b, s[1..]);
      (c, [x] + u)
  }

  /** Every operand of the first list meets every operand of the second. */
  function Lists(t: Junction, a: seq<Expr>, b: seq<Expr>): (seq<Expr>, seq<Expr>)
    decreases |a|
  {
    if a == [] then ([], b)
    else
      var (x, c) := Against(t, a[0], b);
      var (u, d) := Lists(t, a[1..], c);
      ([x] + u, d)
  }

  lemma {:induction false} AgainstAppend(t: Junction, a: Expr, s: seq<Expr>, u: seq<Expr>)
    ensures var (b, x) := Against(t, a, s);
            var (c, y) := Against(t, b, u);
            Against(t, a, s + u) == (c, x + y)
    decreases |s|
  {
    if s == [] {
      assert s + u == u;
      assert [] + Against(t, a, u).1 == Against(t, a, u).1;
    } else {
      var (b, x) := Cancel(t, a, s[0]);
      AgainstAppend(t, b, s[1..], u);
      assert (s + u)[0] == s[0] && (s + u)[1..] == s[1..] + u;
      var (c, y) := Against(t, b, s[1..]);
      var z := Against(t, c, u).1;
      Regroup([x], y, z);
    }
  }

  lemma {:induction false} ListsAppend(t: Junction, a: seq<Expr>, u: seq<Expr>, b: seq<Expr>)
    ensures var (x, c) := Lists(t, a, b);
            var (y, d) := Lists(t, u, c);
            Lists(t, a + u, b) == (x + y, d)
    decreases |a|
  {
    if a == [] {
      assert a + u == u;
      assert [] + Lists(t, u, b).0 == Lists(t, u, b).0;
    } else {
      var (x, c) := Against(t, a[0], b);
      ListsAppend(t, a[1..], u, c);
      assert (a + u)[0] == a[0] && (a + u)[1..] == a[1..] + u;
      var (y, d) := Lists(t, a[1..], c);
      var z := Lists(t, u, d).0;
      Regroup([x], y, z);
    }
  }

  lemma AgainstOne(t: Junction, a: Expr, e: Expr)
    ensures Against(t, a, [e]) == (Cancel(t, a, e).0, [Cancel(t, a, e).1])
  {
    assert [e][1..] == [] && Against(t, Cancel(t, a, e).0, []) == (Cancel(t, a, e).0, []);
    assert [Cancel(t, a, e).1] + [] == [Cancel(t, a, e).1];
  }

  lemma {:induction false} CancelAgainst(t: Junction, a: Expr, e: Expr)
    requires !Is(t, a)
    ensures !Is(t, Cancel(t, a, e).0)
    ensures Against(t, a, Operands(t, e)) == (Cancel(t, a, e).0, Operands(t, Cancel(t, a, e).1))
    decreases e
  {
    if Is(t, e) {
      var (b, l) := Cancel(t, a, e.left);
      var (c, r) := Cancel(t, b, e.right);
      CancelAgainst(t, a, e.left);
      CancelAgainst(t, b, e.right);
      AgainstAppend(t, a, Operands(t, e.left), Operands(t, e.right));
      assert Cancel(t, a, e) == (c, Bin(t, l, r));
    } else {
      CancelOperands(t, a, e);
      AgainstOne(t, a, e);
    }
  }

  /** A pass over two trees is a pass over their operands. */
  lemma {:induction false} CancelLists(t: Junction, e1: Expr, e2: Expr)
    ensures var (f1, f2) := Cancel(t, e1, e2);
            (Operands(t, f1), Operands(t, f2)) == Lists(t, Operands(t, e1), Operands(t, e2))
    decreases e1
  {
    if Is(t, e1) {
      var (l, f2) := Cancel(t, e1.left, e2);
      var (r, g2) := Cancel(t, e1.right, f2);
      CancelLists(t, e1.left, e2);
      CancelLists(t, e1.right, f2);
      ListsAppend(t, Operands(t, e1.left), Operands(t, e1.right), Operands(t, e2));
      assert Cancel(t, e1, e2) == (Bin(t, l, r), g2);
    } else {
      CancelAgainst(t, e1, e2);
      var (f, s) := Against(t, e1, Operands(t, e2));
      assert [e1][1..] == [] && Lists(t, [], s) == ([], s) && [f] + [] == [f];
    }
  }

  // ---------------------------------------------------------------- every tree equals itself

  predicate AllBare(s: seq<Expr>) {
    forall k :: 0 <= k < |s| ==> Bare(s[k])
  }

  /** What a pass leaves of an operand that has met itself. */
  function Settled(t: Junction, a: Expr): Expr {
    if a == Leaf(t.Zero()) then a else Leaf(t.Unit())
  }

  function AllSettled(t: Junction, s: seq<Expr>): (r: seq<Expr>)
    ensures |r| == |s| && AllBare(r) && forall k :: 0 <= k < |s| ==> r[k] == Settled(t, s[k])
  {
    seq(|s|, k requires 0 <= k < |s| => Settled(t, s[k]))
  }

  lemma BareApart(t: Junction, a: Expr, b: Expr)
    requires !Is(t, a) && !Is(t, b) && (Bare(a) || Bare(b))
    ensures Cancel(t, a, b) == (a, b)
  {
    CancelOperands(t, a, b);
  }

  /** An operand that is y or n meets nobody, and nobody meets one. */
  lemma {:induction false} AgainstBare(t: Junction, a: Expr, s: seq<Expr>)
    requires !Is(t, a) && Single(t, s) && (Bare(a) || AllBare(s))
    ensures Against(t, a, s) == (a, s)
  {
    if s != [] {
      BareApart(t, a, s[0]);
      AgainstBare(t, a, s[1..]);
      assert [s[0]] + s[1..] == s;
    }
  }

  lemma AgainstHead(t: Junction, a: Expr, behind: seq<Expr>)
    requires !Is(t, a) && Same(a, a) && Single(t, behind)
    ensures Against(t, a, [a] + behind) == (Settled(t, a), [Settled(t, a)] + behind)
  {
    CancelOperands(t, a, a);
    assert Cancel(t, a, a) == (Settled(t, a), Settled(t, a));
    AgainstBare(t, Settled(t, a), behind);
    assert ([a] + behind)[1..] == behind;
  }

  lemma AgainstSelf(t: Junction, a: Expr, before: seq<Expr>, behind: seq<Expr>)
    requires !Is(t, a) && Same(a, a) && AllBare(before) && Single(t, behind)
    ensures Against(t, a, before + [a] + behind) == (Settled(t, a), before + [Settled(t, a)] + behind)
  {
    var z := Settled(t, a);
    AgainstBare(t, a, before);
    AgainstHead(t, a, behind);
    AgainstAppend(t, a, before, [a] + behind);
    Regroup(before, [a], behind);
    Regroup(before, [z], behind);
  }

  lemma Regroup(a: seq<Expr>, b: seq<Expr>, c: seq<Expr>)
    ensures a + b + c == a + (b + c)
  {
  }

  lemma SettledParts(t: Junction, s: seq<Expr>, i: nat)
    requires i < |s|
    ensures s[i..] == [s[i]] + s[i + 1..]
    ensures AllSettled(t, s[..i]) + [Settled(t, s[i])] == AllSettled(t, s[..i + 1])
    ensures [Settled(t, s[i])] + AllSettled(t, s[i + 1..]) == AllSettled(t, s[i..])
  {
  }

  /** The operands of a tree meet themselves: those before the i-th have done so. */
  lemma {:induction false} ListsSelf(t: Junction, s: seq<Expr>, i: nat)
    requires i <= |s| && Single(t, s) && forall k :: 0 <= k < |s| ==> Same(s[k], s[k])
    ensures Lists(t, s[i..], AllSettled(t, s[..i]) + s[i..]) == (AllSettled(t, s[i..]), AllSettled(t, s))
    decreases |s| - i
  {
    if i == |s| {
      assert s[i..] == [] && s[..i] == s && AllSettled(t, s) + [] == AllSettled(t, s);
    } else {
      var done, rest := AllSettled(t, s[..i]), s[i + 1..];
      SettledParts(t, s, i);
      assert done + s[i..] == done + [s[i]] + rest;
      AgainstSelf(t, s[i], done, rest);
      ListsSelf(t, s, i + 1);
      assert s[i..][0] == s[i] && s[i..][1..] == rest;
    }
  }

  /** expr_eliminate_yn on a tree all of whose operands are y or n. */
  lemma {:induction false} BareYn(t: Junction, e: Expr)
    requires AllBare(Operands(t, e))
    ensures EliminateYn(e) == if Leaf(t.Zero()) in Operands(t, e) then Leaf(t.Zero()) else Leaf(t.Unit())
  {
    if Is(t, e) {
      var l, r := Operands(t, e.left), Operands(t, e.right);
      assert forall k :: 0 <= k < |l| ==> l[k] == (l + r)[k];
      assert forall k :: 0 <= k < |r| ==> r[k] == (l + r)[|l| + k];
      BareYn(t, e.left);
      BareYn(t, e.right);
    } else {
      assert Operands(t, e)[0] == e;
    }
  }

  /** A pass over a connective and itself leaves y or n of every operand. */
  lemma CancelSelf(e: Expr)
    requires e.Bin? && forall k :: 0 <= k < |Operands(e.op, e)| ==> Same(Operands(e.op, e)[k], Operands(e.op, e)[k])
    ensures var (f, g) := Cancel(e.op, e, e);
            EliminateYn(f) == EliminateYn(g) && Bare(EliminateYn(f))
  {
    var t, s := e.op, Operands(e.op, e);
    OperandsSingle(t, e);
    ListsSelf(t, s, 0);
    assert s[0..] == s && AllSettled(t, s[..0]) + s == s;
    CancelLists(t, e, e);
    var (f, g) := Cancel(t, e, e);
    BareYn(t, f);
    BareYn(t, g);
  }

  /** expr_eliminate_eq on a tree and itself: a connective leaves y or n of both. */
  lemma {:induction false} EliminateEqSelf(e: Expr)
    ensures var (f, g) := EliminateEq(e, e); f == g && (if e.Bin? then Bare(f) else f == e)
    decreases e, 0
  {
    if e.Bin? {
      forall k | 0 <= k < |Operands(e.op, e)| ensures Same(Operands(e.op, e)[k], Operands(e.op, e)[k]) {
        OperandInside(e.op, e, k);
        SameRefl(Operands(e.op, e)[k]);
      }
      CancelSelf(e);
      assert CancelBoth(e, e) == Cancel(e.op, e, e);
    }
  }

  lemma {:induction false} OperandInside(t: Junction, e: Expr, k: nat)
    requires k < |Operands(t, e)|
    ensures Is(t, e) ==> Operands(t, e)[k] < e
    ensures Size(Operands(t, e)[k]) <= Size(e) && (Is(t, e) ==> Size(Operands(t, e)[k]) < Size(e))
  {
    if Is(t, e) {
      var l := Operands(t, e.left);
      if k < |l| {
        OperandInside(t, e.left, k);
      } else {
        OperandInside(t, e.right, k - |l|);
      }
    }
  }

  /** expr_eq answers 1 on every tree and itself. */
  lemma {:induction false} SameRefl(e: Expr)
    ensures Same(e, e)
    decreases e, 1
  {
    if e.Not? {
      SameRefl(e.arg);
    } else if e.Bin? {
      EliminateEqSelf(e);
    }
  }

  // ---------------------------------------------------------------- exactly the same trees

  /** A tree up to the order and the nesting of operands. */
  datatype Form =
    | Symbolic(sym: Symbol)
    | Compared(rel: Relation, lhs: Symbol, rhs: Symbol)
    | Negated(arg: Form)
    | Joined(op: Junction, parts: multiset<Form>)

  function FormOf(e: Expr): Form
    decreases e, 0
  {
    match e
    case Leaf(s) => Symbolic(s)
    case Cmp(rel, a, b) => Compared(rel, a, b)
    case Not(a) => Negated(FormOf(a))
    case Bin(t, l, r) => Joined(t, Parts(t, l) + Parts(t, r))
  }

  function Parts(t: Junction, e: Expr): multiset<Form>
    decreases e, 1
  {
    if Is(t, e) then Parts(t, e.left) + Parts(t, e.right) else multiset{FormOf(e)}
  }

  /** No operand is y or n. */
  predicate Clean(e: Expr) {
    match e
    case Leaf(_) => true
    case Cmp(_, _, _) => true
    case Not(a) => Clean(a)
    case Bin(_, l, r) => !Bare(l) && !Bare(r) && Clean(l) && Clean(r)
  }

  /** An operand during a pass: cancelled, or as it was. */
  predicate Tidy(t: Junction, e: Expr) {
    e == Leaf(t.Unit()) || (Clean(e) && !Bare(e) && !Is(t, e))
  }

  predicate AllTidy(t: Junction, s: seq<Expr>) {
    forall k :: 0 <= k < |s| ==> Tidy(t, s[k])
  }

  /** The operands that are not cancelled. */
  function Rest(t: Junction, s: seq<Expr>): seq<Expr> {
    if s == [] then [] else (if s[0] == Leaf(t.Unit()) then [] else [s[0]]) + Rest(t, s[1..])
  }

  function Forms(s: seq<Expr>): multiset<Form> {
    if s == [] then multiset{} else multiset{FormOf(s[0])} + Forms(s[1..])
  }

  function Live(t: Junction, s: seq<Expr>): multiset<Form> {
    Forms(Rest(t, s))
  }

  /** The test is right about these two operands. */
  predicate Judged(a: Expr, b: Expr) {
    Same(a, b) <==> FormOf(a) == FormOf(b)
  }

  predicate AllJudged(a: Expr, s: seq<Expr>) {
    forall k :: 0 <= k < |s| ==> Judged(a, s[k])
  }

  lemma LiveCons(t: Junction, a: Expr, s: seq<Expr>)
    ensures Live(t, [a] + s) == Live(t, s) + Own(t, a)
  {
    assert ([a] + s)[0] == a && ([a] + s)[1..] == s;
    if a != Leaf(t.Unit()) {
      var r := [a] + Rest(t, s);
      assert Rest(t, [a] + s) == r && r[0] == a && r[1..] == Rest(t, s);
    } else {
      assert [] + Rest(t, s) == Rest(t, s);
    }
  }

  lemma MetAt(t: Junction, a: Expr, s: seq<Expr>)
    requires Tidy(t, a) && !Bare(a) && AllTidy(t, s) && s != [] && Same(a, s[0])
    ensures s[0] != Leaf(t.Unit())
    ensures Against(t, a, s) == (Leaf(t.Unit()), [Leaf(t.Unit())] + s[1..])
  {
    CancelOperands(t, a, s[0]);
    AgainstBare(t, Leaf(t.Unit()), s[1..]);
  }

  /** A list in which some operands may have been cancelled. */
  predicate Thinned(t: Junction, s: seq<Expr>, u: seq<Expr>) {
    |u| == |s| && forall k :: 0 <= k < |s| ==> u[k] == s[k] || u[k] == Leaf(t.Unit())
  }

  lemma ThinnedTidy(t: Junction, s: seq<Expr>, u: seq<Expr>)
    requires AllTidy(t, s) && Thinned(t, s, u)
    ensures AllTidy(t, u)
  {
    forall k | 0 <= k < |u| ensures Tidy(t, u[k]) {
      assert Tidy(t, s[k]);
    }
  }

  /** Which forms are left: an operand of form f has met operands of the forms p. */
  predicate Left(f: Form, gone: bool, p: multiset<Form>, q: multiset<Form>) {
    if f in p then gone && q == p - multiset{f} else !gone && q == p
  }

  lemma LeftMore(f: Form, gone: bool, p: multiset<Form>, q: multiset<Form>, m: multiset<Form>)
    requires Left(f, gone, p, q) && f !in m
    ensures Left(f, gone, p + m, q + m)
  {
  }

  function Own(t: Junction, a: Expr): multiset<Form> {
    if a == Leaf(t.Unit()) then multiset{} else multiset{FormOf(a)}
  }

  /** An operand cancels one of its form, if there is one. */
  predicate Outcome(t: Junction, a: Expr, s: seq<Expr>, b: Expr, u: seq<Expr>) {
    && Thinned(t, s, u)
    && b == (if a != Leaf(t.Unit()) && FormOf(a) in Live(t, s) then Leaf(t.Unit()) else a)
    && if a == Leaf(t.Unit()) then u == s else Left(FormOf(a), b == Leaf(t.Unit()), Live(t, s), Live(t, u))
  }

  lemma OutcomeCons(t: Junction, a: Expr, x: Expr, s: seq<Expr>, b: Expr, u: seq<Expr>)
    requires Outcome(t, a, s, b, u) && a != Leaf(t.Unit()) && FormOf(a) !in Own(t, x)
    ensures Outcome(t, a, [x] + s, b, [x] + u)
  {
    LiveCons(t, x, s);
    LiveCons(t, x, u);
    LeftMore(FormOf(a), b == Leaf(t.Unit()), Live(t, s), Live(t, u), Own(t, x));
  }

  /** It meets it at once. */
  lemma MetExact(t: Junction, a: Expr, s: seq<Expr>)
    requires Tidy(t, a) && !Bare(a) && AllTidy(t, s) && s != [] && Same(a, s[0]) && Judged(a, s[0])
    ensures Outcome(t, a, s, Against(t, a, s).0, Against(t, a, s).1)
  {
    MetAt(t, a, s);
    assert s == [s[0]] + s[1..];
    LiveCons(t, s[0], s[1..]);
    LiveCons(t, Leaf(t.Unit()), s[1..]);
  }

  /** It meets nothing. */
  lemma OutcomeNone(t: Junction, a: Expr, s: seq<Expr>)
    requires a == Leaf(t.Unit()) || s == []
    ensures Outcome(t, a, s, a, s)
  {
  }

  lemma {:induction false} AgainstExact(t: Junction, a: Expr, s: seq<Expr>)
    requires Tidy(t, a) && AllTidy(t, s) && AllJudged(a, s)
    ensures Outcome(t, a, s, Against(t, a, s).0, Against(t, a, s).1)
  {
    if Bare(a) {
      AgainstBare(t, a, s);
      OutcomeNone(t, a, s);
    } else if s == [] {
      OutcomeNone(t, a, s);
    } else if Same(a, s[0]) {
      assert Judged(a, s[0]);
      MetExact(t, a, s);
    } else {
      assert Judged(a, s[0]);
      CancelOperands(t, a, s[0]);
      AgainstExact(t, a, s[1..]);
      OutcomeCons(t, a, s[0], s[1..], Against(t, a, s[1..]).0, Against(t, a, s[1..]).1);
      assert s == [s[0]] + s[1..];
    }
  }

  /** One operand more of the form f, which took its like out of q and left r. */
  lemma Differences(f: Form, gone: bool, p: multiset<Form>, q: multiset<Form>, r: multiset<Form>)
    requires Left(f, gone, q, r)
    ensures p + multiset{f} - q == p - r + if gone then multiset{} else multiset{f}
    ensures r - p == q - (p + multiset{f})
  {
  }

  /** What is left of two lists are the two differences of their forms. */
  predicate Difference(t: Junction, a: seq<Expr>, b: seq<Expr>, x: seq<Expr>, y: seq<Expr>) {
    Live(t, x) == Live(t, a) - Live(t, b) && Live(t, y) == Live(t, b) - Live(t, a)
  }

  lemma {:induction false} ListsExact(t: Junction, a: seq<Expr>, b: seq<Expr>)
    requires AllTidy(t, a) && AllTidy(t, b) && forall k :: 0 <= k < |a| ==> AllJudged(a[k], b)
    ensures var (x, y) := Lists(t, a, b); AllTidy(t, x) && AllTidy(t, y) && Difference(t, a, b, x, y)
    decreases |a|
  {
    if a == [] {
      assert Live(t, []) == multiset{};
    } else {
      var rest := a[1..];
      assert a == [a[0]] + rest && AllTidy(t, rest);
      AgainstExact(t, a[0], b);
      var (x, c) := Against(t, a[0], b);
      ThinnedTidy(t, b, c);
      forall k | 0 <= k < |rest| ensures AllJudged(rest[k], c) {
        assert AllJudged(a[k + 1], b);
        StillJudged(t, rest[k], b, c);
      }
      ListsExact(t, rest, c);
      var (u, d) := Lists(t, rest, c);
      TidyCons(t, x, u);
      FirstDifference(t, a[0], rest, b, x, c, u, d);
    }
  }

  lemma TidyCons(t: Junction, x: Expr, u: seq<Expr>)
    requires Tidy(t, x) && AllTidy(t, u)
    ensures AllTidy(t, [x] + u)
  {
    forall k | 0 <= k < |[x] + u| ensures Tidy(t, ([x] + u)[k]) {
      if k > 0 { assert Tidy(t, u[k - 1]); }
    }
  }

  lemma FirstDifference(t: Junction, a: Expr, rest: seq<Expr>, b: seq<Expr>, x: Expr, c: seq<Expr>,
                        u: seq<Expr>, d: seq<Expr>)
    requires Outcome(t, a, b, x, c) && Difference(t, rest, c, u, d)
    ensures Difference(t, [a] + rest, b, [x] + u, d)
  {
    LiveCons(t, a, rest);
    LiveCons(t, x, u);
    if a != Leaf(t.Unit()) {
      Differences(FormOf(a), x == Leaf(t.Unit()), Live(t, rest), Live(t, b), Live(t, c));
    }
  }

  lemma StillJudged(t: Junction, a: Expr, b: seq<Expr>, c: seq<Expr>)
    requires AllJudged(a, b) && Thinned(t, b, c)
    ensures AllJudged(a, c)
  {
    forall k | 0 <= k < |c| ensures Judged(a, c[k]) {
      assert Judged(a, b[k]);
    }
  }

  lemma {:induction false} CleanYn(e: Expr)
    requires Clean(e)
    ensures EliminateYn(e) == e
  {
    if e.Bin? {
      CleanYn(e.left);
      CleanYn(e.right);
    }
  }

  lemma {:induction false} RestAppend(t: Junction, a: seq<Expr>, b: seq<Expr>)
    ensures Rest(t, a + b) == Rest(t, a) + Rest(t, b)
  {
    if a == [] {
      assert a + b == b;
    } else {
      assert (a + b)[0] == a[0] && (a + b)[1..] == a[1..] + b;
      RestAppend(t, a[1..], b);
      var x := if a[0] == Leaf(t.Unit()) then [] else [a[0]];
      assert x + (Rest(t, a[1..]) + Rest(t, b)) == x + Rest(t, a[1..]) + Rest(t, b);
    }
  }

  /** What expr_eliminate_yn leaves of the operands `rest`. */
  predicate Dropped(t: Junction, r: Expr, rest: seq<Expr>) {
    if rest == [] then r == Leaf(t.Unit()) else Operands(t, r) == rest && !Bare(r)
  }

  lemma DroppedBoth(t: Junction, l: Expr, r: Expr, a: seq<Expr>, b: seq<Expr>)
    requires Dropped(t, l, a) && Dropped(t, r, b)
    ensures Dropped(t, Absorb(t, l, r), a + b)
  {
    if a == [] {
      assert a + b == b;
    } else if b == [] {
      assert a + b == a;
    }
  }

  /** expr_eliminate_yn drops the cancelled operands and nothing else. */
  lemma {:induction false} TidyYn(t: Junction, e: Expr)
    requires AllTidy(t, Operands(t, e))
    ensures Dropped(t, EliminateYn(e), Rest(t, Operands(t, e)))
  {
    if Is(t, e) {
      var l, r := Operands(t, e.left), Operands(t, e.right);
      assert forall k :: 0 <= k < |l| ==> l[k] == (l + r)[k];
      assert forall k :: 0 <= k < |r| ==> r[k] == (l + r)[|l| + k];
      TidyYn(t, e.left);
      TidyYn(t, e.right);
      RestAppend(t, l, r);
      DroppedBoth(t, EliminateYn(e.left), EliminateYn(e.right), Rest(t, l), Rest(t, r));
    } else {
      assert Operands(t, e)[0] == e && [e][1..] == [] && Rest(t, []) == [];
      if e != Leaf(t.Unit()) { CleanYn(e); }
    }
  }

  lemma {:induction false} FormsAppend(a: seq<Expr>, b: seq<Expr>)
    ensures Forms(a + b) == Forms(a) + Forms(b)
  {
    if a == [] {
      assert a + b == b;
    } else {
      assert (a + b)[1..] == a[1..] + b;
      FormsAppend(a[1..], b);
    }
  }

  /** The operands of a tree without y and n operands. */
  lemma {:induction false} CleanOperands(t: Junction, e: Expr)
    requires Clean(e) && !Bare(e)
    ensures AllTidy(t, Operands(t, e)) && forall k :: 0 <= k < |Operands(t, e)| ==> Clean(Operands(t, e)[k])
    ensures Rest(t, Operands(t, e)) == Operands(t, e)
  {
    if Is(t, e) {
      CleanOperands(t, e.left);
      CleanOperands(t, e.right);
      RestAppend(t, Operands(t, e.left), Operands(t, e.right));
    } else {
      assert [e][1..] == [] && Rest(t, []) == [];
    }
  }

  lemma {:induction false} OperandForms(t: Junction, e: Expr)
    ensures Forms(Operands(t, e)) == Parts(t, e)
  {
    if Is(t, e) {
      OperandForms(t, e.left);
      OperandForms(t, e.right);
      FormsAppend(Operands(t, e.left), Operands(t, e.right));
    } else {
      assert [e][1..] == [] && Forms([]) == multiset{};
    }
  }

  lemma {:induction false} FormsIn(s: seq<Expr>, k: nat)
    requires k < |s|
    ensures FormOf(s[k]) in Forms(s)
  {
    if k > 0 {
      FormsIn(s[1..], k - 1);
    }
  }

  /** Two connectives of the same kind. */
  lemma {:induction false} JoinedExact(e1: Expr, e2: Expr)
    requires e1.Bin? && e2.Bin? && e1.op == e2.op && Clean(e1) && Clean(e2)
    ensures Judged(e1, e2)
    decreases Size(e1) + Size(e2), 0
  {
    var t := e1.op;
    var a, b := Operands(t, e1), Operands(t, e2);
    CleanOperands(t, e1);
    CleanOperands(t, e2);
    OperandForms(t, e1);
    OperandForms(t, e2);
    forall k | 0 <= k < |a| ensures AllJudged(a[k], b) {
      forall i | 0 <= i < |b| ensures Judged(a[k], b[i]) {
        OperandInside(t, e1, k);
        OperandInside(t, e2, i);
        SameExact(a[k], b[i]);
      }
    }
    ListsExact(t, a, b);
    CancelLists(t, e1, e2);
    var (f, g) := Cancel(t, e1, e2);
    LeftOver(t, f, g, Parts(t, e1), Parts(t, e2));
    assert CancelBoth(e1, e2) == (f, g);
    assert EliminateEq(e1, e2) == (EliminateYn(f), EliminateYn(g));
    assert FormOf(e1) == Joined(t, Parts(t, e1)) && FormOf(e2) == Joined(t, Parts(t, e2));
  }

  /** Of two cancelled trees one and the same symbol is left exactly when nothing is left. */
  lemma LeftOver(t: Junction, f: Expr, g: Expr, p: multiset<Form>, q: multiset<Form>)
    requires AllTidy(t, Operands(t, f)) && AllTidy(t, Operands(t, g))
    requires Live(t, Operands(t, f)) == p - q && Live(t, Operands(t, g)) == q - p
    ensures EliminateYn(f).Leaf? && EliminateYn(f) == EliminateYn(g) <==> p == q
  {
    TidyYn(t, f);
    TidyYn(t, g);
    var x, y := Rest(t, Operands(t, f)), Rest(t, Operands(t, g));
    if EliminateYn(f).Leaf? && EliminateYn(f) == EliminateYn(g) {
      NoneLeft(p, q);
    }
  }

  lemma NoneLeft(p: multiset<Form>, q: multiset<Form>)
    requires p - q == multiset{} && q - p == multiset{}
    ensures p == q
  {
    forall f: Form ensures p[f] == q[f] {
      assert (p - q)[f] == 0 && (q - p)[f] == 0;
    }
  }

  /** On trees without y and n operands expr_eq answers 1 exactly where the two trees differ in
      nothing but the order and the nesting of operands. */
  lemma {:induction false} SameExact(e1: Expr, e2: Expr)
    requires Clean(e1) && Clean(e2)
    ensures Same(e1, e2) <==> FormOf(e1) == FormOf(e2)
    decreases Size(e1) + Size(e2), 1
  {
    if e1.Not? && e2.Not? {
      SameExact(e1.arg, e2.arg);
    } else if e1.Bin? && e2.Bin? && e1.op == e2.op {
      JoinedExact(e1, e2);
    }
  }

  /** expr_eliminate_yn leaves no operand that is y or n, except below a negation. */
  lemma {:induction false} EliminateYnClean(e: Expr)
    requires NegationNormal(e)
    ensures Clean(EliminateYn(e))
  {
    if e.Bin? {
      EliminateYnClean(e.left);
      EliminateYnClean(e.right);
    }
  }
}
