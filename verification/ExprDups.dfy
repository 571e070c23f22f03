/** Pairwise merging of the operands of a tree (expr_eliminate_dups1 and
    expr_eliminate_dups in expr.c). Both cursors of the source point into one tree
    that is overwritten on the way; here a cursor is the path to its slot. */
module ExprDups {
  import opened Expr
  import opened ExprEq
  import opened ExprJoin
  import opened Wrappers

  datatype Side = L | R

  type Path = seq<Side>

  function Child(e: Expr, d: Side): Expr
    requires e.Bin?
  {
    if d.L? then e.left else e.right
  }

  /** The path runs through nodes of the connective t. */
  predicate InSpine(t: Junction, e: Expr, p: Path) {
    p == [] || (Is(t, e) && InSpine(t, Child(e, p[0]), p[1..]))
  }

  /** The subtree in a slot. */
  function At(t: Junction, e: Expr, p: Path): (r: Expr)
    requires InSpine(t, e, p)
    ensures Size(r) <= Size(e) && (p != [] ==> Size(r) < Size(e))
  {
    if p == [] then e else At(t, Child(e, p[0]), p[1..])
  }

  /** The tree with the subtree in a slot overwritten. */
  function Put(t: Junction, e: Expr, p: Path, x: Expr): (r: Expr)
    requires InSpine(t, e, p)
    ensures Size(r) == Size(e) - Size(At(t, e, p)) + Size(x)
  {
    if p == [] then x
    else if p[0].L? then Bin(t, Put(t, e.left, p[1..], x), e.right)
    else Bin(t, e.left, Put(t, e.right, p[1..], x))
  }

  /** Same nodes of the connective t from the root down. */
  predicate SameSpine(t: Junction, e: Expr, f: Expr) {
    if Is(t, e) then Is(t, f) && SameSpine(t, e.left, f.left) && SameSpine(t, e.right, f.right)
    else !Is(t, f)
  }

  function SpineSize(t: Junction, e: Expr): nat {
    if Is(t, e) then 1 + SpineSize(t, e.left) + SpineSize(t, e.right) else 0
  }

  /** Some operand of a connective is y or n, so expr_eliminate_yn has work to do. */
  predicate HasYn(e: Expr) {
    e.Bin? && (Bare(e.left) || Bare(e.right) || HasYn(e.left) || HasYn(e.right))
  }

  lemma {:induction false} SpineFacts(t: Junction, e: Expr, f: Expr, p: Path)
    requires SameSpine(t, e, f) && InSpine(t, e, p)
    ensures InSpine(t, f, p) && SameSpine(t, At(t, e, p), At(t, f, p))
  {
    if p != [] {
      SpineFacts(t, Child(e, p[0]), Child(f, p[0]), p[1..]);
    }
  }

  lemma {:induction false} SpineSame(t: Junction, e: Expr, f: Expr)
    requires SameSpine(t, e, f)
    ensures SpineSize(t, e) == SpineSize(t, f)
  {
    if Is(t, e) {
      SpineSame(t, e.left, f.left);
      SpineSame(t, e.right, f.right);
    }
  }

  lemma {:induction false} SpineTrans(t: Junction, e: Expr, f: Expr, g: Expr)
    requires SameSpine(t, e, f) && SameSpine(t, f, g)
    ensures SameSpine(t, e, g)
  {
    if Is(t, e) {
      SpineTrans(t, e.left, f.left, g.left);
      SpineTrans(t, e.right, f.right, g.right);
    }
  }

  lemma {:induction false} SpineRefl(t: Junction, e: Expr)
    ensures SameSpine(t, e, e)
  {
    if Is(t, e) {
      SpineRefl(t, e.left);
      SpineRefl(t, e.right);
    }
  }

  /** Moving a cursor to a child slot. */
  lemma {:induction false} AtChild(t: Junction, e: Expr, p: Path, d: Side)
    requires InSpine(t, e, p) && Is(t, At(t, e, p))
    ensures InSpine(t, e, p + [d]) && At(t, e, p + [d]) == Child(At(t, e, p), d)
  {
    if p == [] {
      assert (p + [d])[1..] == [];
    } else {
      AtChild(t, Child(e, p[0]), p[1..], d);
      assert (p + [d])[1..] == p[1..] + [d];
    }
  }

  /** Overwriting one operand of the spine by a tree that adds no spine node. */
  lemma {:induction false} PutFacts(t: Junction, e: Expr, p: Path, x: Expr)
    requires InSpine(t, e, p) && !Is(t, At(t, e, p)) && !Is(t, x)
    ensures SameSpine(t, e, Put(t, e, p, x))
    ensures InSpine(t, Put(t, e, p, x), p) && At(t, Put(t, e, p, x), p) == x
    ensures forall y :: Put(t, Put(t, e, p, x), p, y) == Put(t, e, p, y)
    ensures HasYn(x) || (p != [] && Bare(x)) ==> HasYn(Put(t, e, p, x))
  {
    if p != [] {
      PutFacts(t, Child(e, p[0]), p[1..], x);
      SpineRefl(t, e.left);
      SpineRefl(t, e.right);
    }
  }

  /** Two different operand slots do not overlap. */
  lemma {:induction false} PutElsewhere(t: Junction, e: Expr, p: Path, q: Path, x: Expr)
    requires InSpine(t, e, p) && !Is(t, At(t, e, p)) && !Is(t, x)
    requires InSpine(t, e, q) && !Is(t, At(t, e, q)) && p != q
    ensures InSpine(t, Put(t, e, p, x), q) && At(t, Put(t, e, p, x), q) == At(t, e, q)
    ensures p != [] && q != []
  {
    if p != [] && q != [] && p[0] == q[0] {
      assert p == [p[0]] + p[1..] && q == [q[0]] + q[1..];
      PutElsewhere(t, Child(e, p[0]), p[1..], q[1..], x);
    }
  }

  /** expr_eliminate_dups1 on the slots p and q of the tree e; n is trans_count. */
  function Dups1(t: Junction, e: Expr, p: Path, q: Path, n: nat): (r: (Expr, nat))
    requires InSpine(t, e, p) && InSpine(t, e, q)
    ensures SameSpine(t, e, r.0) && Size(r.0) <= Size(e)
    ensures r.1 >= n && (r.1 == n ==> r.0 == e) && (r.1 > n ==> HasYn(r.0))
    decreases Size(e), SpineSize(t, At(t, e, p)) + SpineSize(t, At(t, e, q)), 1
  {
    SpineRefl(t, e);
    if Is(t, At(t, e, p)) then
      AtChild(t, e, p, L);
      var (f, m) := Dups1(t, e, p + [L], q, n);
      AtChild(t, e, p, R); Moved(t, e, f, p + [R]); Moved(t, e, f, q);
      var (g, k) := Dups1(t, f, p + [R], q, m);
      SpineTrans(t, e, f, g);
      (g, k)
    else if Is(t, At(t, e, q)) then
      AtChild(t, e, q, L);
      var (f, m) := Dups1(t, e, p, q + [L], n);
      AtChild(t, e, q, R); Moved(t, e, f, q + [R]); Moved(t, e, f, p);
      var (g, k) := Dups1(t, f, p, q + [R], m);
      SpineTrans(t, e, f, g);
      (g, k)
    else if p == q then (e, n)
    else
      PutElsewhere(t, e, p, q, Leaf(Yes));
      var (f, m) := Inner(t, e, p, n);
      PutElsewhere(t, e, p, q, At(t, f, p));
      var (g, k) := Merge(t, f, p, q, m);
      SpineTrans(t, e, f, g);
      (g, k)
  }

  /** Two operands with a merged form: the unit goes into the first slot and the
      merged form into the second. */
  function Merge(t: Junction, e: Expr, p: Path, q: Path, n: nat): (r: (Expr, nat))
    requires InSpine(t, e, p) && InSpine(t, e, q) && p != q
    requires !Is(t, At(t, e, p)) && !Is(t, At(t, e, q))
    ensures SameSpine(t, e, r.0) && Size(r.0) <= Size(e)
    ensures r == (e, n) || (r.1 == n + 1 && HasYn(r.0))
  {
    SpineRefl(t, e);
    var joined := Join(t, At(t, e, p), At(t, e, q));
    if joined.None? then (e, n)
    else
      JoinIsOperand(t, At(t, e, p), At(t, e, q));
      var unit := Leaf(t.Unit());
      PutFacts(t, e, p, unit); PutElsewhere(t, e, p, q, unit);
      var f := Put(t, e, p, unit);
      PutFacts(t, f, q, joined.value); PutElsewhere(t, f, q, p, joined.value);
      var g := Put(t, f, q, joined.value);
      SpineTrans(t, e, f, g); HasYnAt(t, g, p);
      (g, n + 1)
  }

  lemma MergeJoined(t: Junction, e: Expr, p: Path, q: Path, y: Expr, n: nat)
    requires InSpine(t, e, p) && InSpine(t, e, q) && p != q
    requires !Is(t, At(t, e, p)) && !Is(t, At(t, e, q)) && Join(t, At(t, e, p), At(t, e, q)) == Some(y)
    ensures var f := Put(t, e, p, Leaf(t.Unit()));
            InSpine(t, f, q) && Merge(t, e, p, q, n) == (Put(t, f, q, y), n + 1)
  {
    PutElsewhere(t, e, p, q, Leaf(t.Unit()));
  }

  /** Of two merging operands the first becomes the unit and the second the merged form; every
      other operand stays. */
  lemma MergeExact(t: Junction, e: Expr, p: Path, q: Path, x: Path, y: Expr, n: nat)
    requires InSpine(t, e, p) && InSpine(t, e, q) && p != q
    requires !Is(t, At(t, e, p)) && !Is(t, At(t, e, q)) && Join(t, At(t, e, p), At(t, e, q)) == Some(y)
    requires InSpine(t, e, x) && !Is(t, At(t, e, x))
    ensures var r := Merge(t, e, p, q, n).0;
            InSpine(t, r, x) && At(t, r, x) == if x == p then Leaf(t.Unit()) else if x == q then y else At(t, e, x)
  {
    JoinIsOperand(t, At(t, e, p), At(t, e, q));
    var unit := Leaf(t.Unit());
    var f := Put(t, e, p, unit);
    MergeJoined(t, e, p, q, y, n);
    PutFacts(t, e, p, unit);
    PutElsewhere(t, e, p, q, unit);
    if x != p { PutElsewhere(t, e, p, x, unit); }
    PutFacts(t, f, q, y);
    if x != q { PutElsewhere(t, f, q, x, y); }
  }

  /** The nested call on an operand that is itself headed by the other connective. */
  function Inner(t: Junction, e: Expr, p: Path, n: nat): (r: (Expr, nat))
    requires InSpine(t, e, p) && !Is(t, At(t, e, p)) && p != []
    ensures SameSpine(t, e, r.0) && Size(r.0) <= Size(e)
    ensures InSpine(t, r.0, p) && !Is(t, At(t, r.0, p)) && r.0 == Put(t, e, p, At(t, r.0, p))
    ensures r.1 >= n && (r.1 == n ==> r.0 == e) && (r.1 > n ==> HasYn(r.0))
    decreases Size(e), 0, 0
  {
    var x := At(t, e, p);
    PutFacts(t, e, p, x); PutSame(t, e, p);
    if x.Bin? then
      var (y, m) := Dups1(x.op, x, [], [], n);
      PutFacts(t, e, p, y);
      (Put(t, e, p, y), m)
    else (e, n)
  }

  lemma Moved(t: Junction, e: Expr, f: Expr, p: Path)
    requires SameSpine(t, e, f) && InSpine(t, e, p)
    ensures InSpine(t, f, p) && SpineSize(t, At(t, f, p)) == SpineSize(t, At(t, e, p))
    ensures Is(t, At(t, f, p)) == Is(t, At(t, e, p))
  {
    SpineFacts(t, e, f, p);
    SpineSame(t, At(t, e, p), At(t, f, p));
  }

  lemma {:induction false} PutSame(t: Junction, e: Expr, p: Path)
    requires InSpine(t, e, p)
    ensures Put(t, e, p, At(t, e, p)) == e
  {
    if p != [] {
      PutSame(t, Child(e, p[0]), p[1..]);
    }
  }

  lemma {:induction false} HasYnAt(t: Junction, e: Expr, p: Path)
    requires InSpine(t, e, p) && p != [] && Bare(At(t, e, p))
    ensures HasYn(e)
  {
    assert At(t, e, p) == At(t, Child(e, p[0]), p[1..]);
    if |p| > 1 {
      HasYnAt(t, Child(e, p[0]), p[1..]);
    }
  }

  /** A merged operand never is a new node of the connective it was merged for. */
  lemma JoinIsOperand(t: Junction, e1: Expr, e2: Expr)
    requires !Is(t, e1) && Join(t, e1, e2).Some?
    ensures !Is(t, Join(t, e1, e2).value)
  {
  }

  // ---------------------------------------------------------------- meaning

  lemma SetApart(t: Junction, f: Tristate, a: Tristate, r: Tristate)
    ensures t.Apply(t.Apply(f, a), r) == t.Apply(t.Apply(f, r), a)
    ensures t.Apply(r, t.Apply(f, a)) == t.Apply(t.Apply(r, f), a)
  {
  }

  lemma UnitValue(t: Junction, a: Tristate, v: Valuation)
    requires v.Valid()
    ensures t.Apply(Value(Leaf(t.Unit()), v), a) == a
  {
  }

  /** One operand can be set apart from the others. */
  lemma {:induction false} Extract(t: Junction, e: Expr, p: Path, v: Valuation)
    requires v.Valid() && InSpine(t, e, p)
    ensures Value(e, v) == t.Apply(Value(Put(t, e, p, Leaf(t.Unit())), v), Value(At(t, e, p), v))
  {
    if p == [] {
      UnitValue(t, Value(e, v), v);
    } else {
      var c, o := Child(e, p[0]), Child(e, if p[0].L? then R else L);
      Extract(t, c, p[1..], v);
      SetApart(t, Value(Put(t, c, p[1..], Leaf(t.Unit())), v), Value(At(t, e, p), v), Value(o, v));
    }
  }

  lemma {:induction false} PutNormal(t: Junction, e: Expr, p: Path, x: Expr)
    requires InSpine(t, e, p) && NegationNormal(e)
    ensures NegationNormal(At(t, e, p))
    ensures NegationNormal(x) ==> NegationNormal(Put(t, e, p, x))
  {
    if p != [] {
      PutNormal(t, Child(e, p[0]), p[1..], x);
    }
  }

  lemma {:induction false} EliminateYnNormal(e: Expr)
    requires NegationNormal(e)
    ensures NegationNormal(EliminateYn(e))
  {
    if e.Bin? {
      EliminateYnNormal(e.left);
      EliminateYnNormal(e.right);
    }
  }

  /** Overwriting an operand changes the tree only through the operand's value. */
  lemma PutValue(t: Junction, e: Expr, p: Path, x: Expr, v: Valuation)
    requires v.Valid() && InSpine(t, e, p) && !Is(t, At(t, e, p)) && !Is(t, x)
    ensures Value(Put(t, e, p, x), v) == t.Apply(Value(Put(t, e, p, Leaf(t.Unit())), v), Value(x, v))
  {
    PutFacts(t, e, p, x);
    Extract(t, Put(t, e, p, x), p, v);
  }

  /** Merging two operands keeps the value. */
  lemma MergeKeepsValue(t: Junction, e: Expr, p: Path, q: Path, n: nat, v: Valuation)
    requires v.Valid() && InSpine(t, e, p) && InSpine(t, e, q) && p != q
    requires !Is(t, At(t, e, p)) && !Is(t, At(t, e, q))
    ensures Value(Merge(t, e, p, q, n).0, v) == Value(e, v)
  {
    var joined := Join(t, At(t, e, p), At(t, e, q));
    if joined.Some? {
      JoinIsOperand(t, At(t, e, p), At(t, e, q));
      JoinKeepsValue(t, At(t, e, p), At(t, e, q), v);
      var unit := Leaf(t.Unit());
      var f := Put(t, e, p, unit);
      Extract(t, e, p, v);
      PutElsewhere(t, e, p, q, unit);
      Extract(t, f, q, v);
      PutValue(t, f, q, joined.value, v);
      Rearrange(t, Value(Put(t, f, q, unit), v), 0, Value(At(t, e, q), v), Value(At(t, e, p), v));
      Rearrange(t, Value(At(t, e, p), v), Value(At(t, e, q), v), 0, 0);
    }
  }

  lemma MergeNormal(t: Junction, e: Expr, p: Path, q: Path, n: nat)
    requires InSpine(t, e, p) && InSpine(t, e, q) && p != q
    requires !Is(t, At(t, e, p)) && !Is(t, At(t, e, q)) && NegationNormal(e)
    ensures NegationNormal(Merge(t, e, p, q, n).0)
  {
    var joined := Join(t, At(t, e, p), At(t, e, q));
    if joined.Some? {
      var unit := Leaf(t.Unit());
      PutNormal(t, e, p, unit);
      PutElsewhere(t, e, p, q, unit);
      PutNormal(t, Put(t, e, p, unit), q, joined.value);
    }
  }

  /** A pass keeps the value of the tree both of its cursors write to. */
  lemma {:induction false} Dups1KeepsValue(t: Junction, e: Expr, p: Path, q: Path, n: nat, v: Valuation)
    requires v.Valid() && InSpine(t, e, p) && InSpine(t, e, q)
    ensures Value(Dups1(t, e, p, q, n).0, v) == Value(e, v)
    decreases Size(e), SpineSize(t, At(t, e, p)) + SpineSize(t, At(t, e, q)), 1
  {
    if Is(t, At(t, e, p)) {
      FirstKeepsValue(t, e, p, q, n, v);
    } else if Is(t, At(t, e, q)) {
      AtChild(t, e, q, L);
      var (f, m) := Dups1(t, e, p, q + [L], n);
      AtChild(t, e, q, R); Moved(t, e, f, q + [R]); Moved(t, e, f, p);
      Dups1KeepsValue(t, e, p, q + [L], n, v);
      Dups1KeepsValue(t, f, p, q + [R], m, v);
    } else if p != q {
      PutElsewhere(t, e, p, q, Leaf(Yes));
      var (f, m) := Inner(t, e, p, n);
      InnerKeepsValue(t, e, p, n, v);
      PutElsewhere(t, e, p, q, At(t, f, p));
      MergeKeepsValue(t, f, p, q, m, v);
    }
  }

  /** The first cursor goes down both operands. */
  lemma {:induction false} FirstKeepsValue(t: Junction, e: Expr, p: Path, q: Path, n: nat, v: Valuation)
    requires v.Valid() && InSpine(t, e, p) && InSpine(t, e, q) && Is(t, At(t, e, p))
    ensures Value(Dups1(t, e, p, q, n).0, v) == Value(e, v)
    decreases Size(e), SpineSize(t, At(t, e, p)) + SpineSize(t, At(t, e, q)), 0
  {
    AtChild(t, e, p, L);
    var (f, m) := Dups1(t, e, p + [L], q, n);
    AtChild(t, e, p, R); Moved(t, e, f, p + [R]); Moved(t, e, f, q);
    Dups1KeepsValue(t, e, p + [L], q, n, v);
    Dups1KeepsValue(t, f, p + [R], q, m, v);
  }

  lemma {:induction false} InnerKeepsValue(t: Junction, e: Expr, p: Path, n: nat, v: Valuation)
    requires v.Valid() && InSpine(t, e, p) && !Is(t, At(t, e, p)) && p != []
    ensures Value(Inner(t, e, p, n).0, v) == Value(e, v)
    decreases Size(e), 0, 0
  {
    var x := At(t, e, p);
    if x.Bin? {
      Dups1KeepsValue(x.op, x, [], [], n, v);
      PutValue(t, e, p, Dups1(x.op, x, [], [], n).0, v);
      Extract(t, e, p, v);
    }
  }

  /** A pass over a negation normal form leaves one. */
  lemma {:induction false} Dups1Normal(t: Junction, e: Expr, p: Path, q: Path, n: nat)
    requires NegationNormal(e) && InSpine(t, e, p) && InSpine(t, e, q)
    ensures NegationNormal(Dups1(t, e, p, q, n).0)
    decreases Size(e), SpineSize(t, At(t, e, p)) + SpineSize(t, At(t, e, q)), 1
  {
    if Is(t, At(t, e, p)) {
      AtChild(t, e, p, L);
      var (f, m) := Dups1(t, e, p + [L], q, n);
      AtChild(t, e, p, R); Moved(t, e, f, p + [R]); Moved(t, e, f, q);
      Dups1Normal(t, e, p + [L], q, n);
      Dups1Normal(t, f, p + [R], q, m);
    } else if Is(t, At(t, e, q)) {
      AtChild(t, e, q, L);
      var (f, m) := Dups1(t, e, p, q + [L], n);
      AtChild(t, e, q, R); Moved(t, e, f, q + [R]); Moved(t, e, f, p);
      Dups1Normal(t, e, p, q + [L], n);
      Dups1Normal(t, f, p, q + [R], m);
    } else if p != q {
      PutElsewhere(t, e, p, q, Leaf(Yes));
      var (f, m) := Inner(t, e, p, n);
      var x := At(t, e, p);
      PutNormal(t, e, p, x);
      if x.Bin? {
        Dups1Normal(x.op, x, [], [], n);
        PutNormal(t, e, p, Dups1(x.op, x, [], [], n).0);
      }
      PutElsewhere(t, e, p, q, At(t, f, p));
      MergeNormal(t, f, p, q, m);
    }
  }

  /** A tree with a y or n operand gets strictly smaller. */
  lemma {:induction false} EliminateYnShrinks(e: Expr)
    requires HasYn(e)
    ensures Size(EliminateYn(e)) < Size(e)
  {
    if HasYn(e.left) { EliminateYnShrinks(e.left); }
    if HasYn(e.right) { EliminateYnShrinks(e.right); }
  }

  /** expr_eliminate_dups as a recursion: it ends because a round that merged
      something leaves a y or n operand behind for expr_eliminate_yn. */
  function EliminateDups(e: Expr): Expr
    decreases Size(e)
  {
    if !e.Bin? then e
    else
      var (f, n) := Dups1(e.op, e, [], [], 0);
      if n == 0 then e
      else
        EliminateYnShrinks(f);
        EliminateDups(EliminateYn(f))
  }

  /** expr_eliminate_dups keeps the value of every tree in every configuration, and
      a negation normal form stays one. */
  lemma {:induction false} EliminateDupsKeepsValue(e: Expr, v: Valuation)
    requires v.Valid()
    ensures Value(EliminateDups(e), v) == Value(e, v)
    ensures NegationNormal(e) ==> NegationNormal(EliminateDups(e))
    decreases Size(e)
  {
    if e.Bin? {
      var (f, n) := Dups1(e.op, e, [], [], 0);
      Dups1KeepsValue(e.op, e, [], [], 0, v);
      if n != 0 {
        EliminateYnShrinks(f);
        EliminateYnKeepsValue(f, v);
        if NegationNormal(e) {
          Dups1Normal(e.op, e, [], [], 0);
          EliminateYnNormal(f);
        }
        EliminateDupsKeepsValue(EliminateYn(f), v);
      }
    }
  }

  /** The result is finished: no pair of its operands merges any more, at any nesting
      level the pass reaches, so simplifying it again changes nothing. */
  lemma {:induction false} EliminateDupsFinished(e: Expr)
    ensures EliminateDups(EliminateDups(e)) == EliminateDups(e)
    ensures var r := EliminateDups(e); r.Bin? ==> Dups1(r.op, r, [], [], 0).1 == 0
    decreases Size(e)
  {
    if e.Bin? {
      var (f, n) := Dups1(e.op, e, [], [], 0);
      if n != 0 {
        EliminateYnShrinks(f);
        EliminateDupsFinished(EliminateYn(f));
      }
    }
  }

  // ---------------------------------------------------------------- every pair is looked at

  /** The slot of an operand. */
  predicate OperandSlot(t: Junction, e: Expr, x: Path) {
    InSpine(t, e, x) && !Is(t, At(t, e, x))
  }

  /** A path through a slot. */
  lemma {:induction false} AtThrough(t: Junction, e: Expr, p: Path, x: Path)
    requires InSpine(t, e, p) && InSpine(t, At(t, e, p), x)
    ensures InSpine(t, e, p + x) && At(t, e, p + x) == At(t, At(t, e, p), x)
    decreases |p|
  {
    if p == [] {
      assert p + x == x;
    } else {
      AtThrough(t, Child(e, p[0]), p[1..], x);
      assert (p + x)[0] == p[0] && (p + x)[1..] == p[1..] + x;
    }
  }

  /** The two operands do not merge, and the first is finished by itself. */
  predicate Quiet(t: Junction, e: Expr, x: Path, y: Path)
    requires OperandSlot(t, e, x) && OperandSlot(t, e, y)
  {
    x == y || (Join(t, At(t, e, x), At(t, e, y)).None? && Idle(At(t, e, x)))
  }

  /** A pass over the tree merges nothing. */
  predicate Idle(e: Expr) {
    e.Bin? ==> Dups1(e.op, e, [], [], 0).1 == 0
  }

  /** The count of a pass does not depend on where counting starts. */
  lemma {:induction false} CountShifts(t: Junction, e: Expr, p: Path, q: Path, n: nat, m: nat)
    requires InSpine(t, e, p) && InSpine(t, e, q)
    ensures Dups1(t, e, p, q, n).0 == Dups1(t, e, p, q, m).0
    ensures Dups1(t, e, p, q, n).1 - n == Dups1(t, e, p, q, m).1 - m
    decreases Size(e), SpineSize(t, At(t, e, p)) + SpineSize(t, At(t, e, q)), 1
  {
    if Is(t, At(t, e, p)) {
      FirstShifts(t, e, p, q, n, m);
    } else if Is(t, At(t, e, q)) {
      AtChild(t, e, q, L);
      var (f, k) := Dups1(t, e, p, q + [L], n);
      AtChild(t, e, q, R); Moved(t, e, f, q + [R]); Moved(t, e, f, p);
      CountShifts(t, e, p, q + [L], n, m);
      CountShifts(t, f, p, q + [R], k, Dups1(t, e, p, q + [L], m).1);
    } else if p != q {
      PutElsewhere(t, e, p, q, Leaf(Yes));
      InnerShifts(t, e, p, n, m);
    }
  }

  lemma {:induction false} FirstShifts(t: Junction, e: Expr, p: Path, q: Path, n: nat, m: nat)
    requires InSpine(t, e, p) && InSpine(t, e, q) && Is(t, At(t, e, p))
    ensures Dups1(t, e, p, q, n).0 == Dups1(t, e, p, q, m).0
    ensures Dups1(t, e, p, q, n).1 - n == Dups1(t, e, p, q, m).1 - m
    decreases Size(e), SpineSize(t, At(t, e, p)) + SpineSize(t, At(t, e, q)), 0
  {
    AtChild(t, e, p, L);
    var (f, k) := Dups1(t, e, p + [L], q, n);
    AtChild(t, e, p, R); Moved(t, e, f, p + [R]); Moved(t, e, f, q);
    CountShifts(t, e, p + [L], q, n, m);
    CountShifts(t, f, p + [R], q, k, Dups1(t, e, p + [L], q, m).1);
  }

  lemma {:induction false} InnerShifts(t: Junction, e: Expr, p: Path, n: nat, m: nat)
    requires InSpine(t, e, p) && !Is(t, At(t, e, p)) && p != []
    ensures Inner(t, e, p, n).0 == Inner(t, e, p, m).0 && Inner(t, e, p, n).1 - n == Inner(t, e, p, m).1 - m
    decreases Size(e), 0, 0
  {
    var x := At(t, e, p);
    if x.Bin? {
      CountShifts(x.op, x, [], [], n, m);
    }
  }

  /** A pass that merges nothing has looked at every pair of operands below its two cursors,
      and one that meets no pair to merge merges nothing. */
  lemma {:induction false} PassQuiet(t: Junction, e: Expr, p: Path, q: Path, n: nat)
    requires InSpine(t, e, p) && InSpine(t, e, q)
    ensures Dups1(t, e, p, q, n).1 == n <==> AllQuiet(t, e, p, q)
    decreases SpineSize(t, At(t, e, p)) + SpineSize(t, At(t, e, q))
  {
    if Is(t, At(t, e, p)) {
      AtChild(t, e, p, L);
      AtChild(t, e, p, R);
      var (f, m) := Dups1(t, e, p + [L], q, n);
      PassQuiet(t, e, p + [L], q, n);
      PassQuiet(t, e, p + [R], q, n);
      QuietFirst(t, e, p, q);
      if m == n {
        assert Dups1(t, e, p, q, n) == Dups1(t, e, p + [R], q, n);
      } else {
        Moved(t, e, f, p + [R]);
        Moved(t, e, f, q);
        assert Dups1(t, e, p, q, n).1 >= m;
      }
    } else if Is(t, At(t, e, q)) {
      AtChild(t, e, q, L);
      AtChild(t, e, q, R);
      var (f, m) := Dups1(t, e, p, q + [L], n);
      PassQuiet(t, e, p, q + [L], n);
      PassQuiet(t, e, p, q + [R], n);
      QuietSecond(t, e, p, q);
      if m == n {
        assert Dups1(t, e, p, q, n) == Dups1(t, e, p, q + [R], n);
      } else {
        Moved(t, e, f, q + [R]);
        Moved(t, e, f, p);
        assert Dups1(t, e, p, q, n).1 >= m;
      }
    } else {
      QuietPair(t, e, p, q, n);
    }
  }

  ghost predicate AllQuiet(t: Junction, e: Expr, p: Path, q: Path)
    requires InSpine(t, e, p) && InSpine(t, e, q)
  {
    forall x, y {:trigger QuietBelow(t, e, p, q, x, y)} ::
      OperandSlot(t, At(t, e, p), x) && OperandSlot(t, At(t, e, q), y) ==> QuietBelow(t, e, p, q, x, y)
  }

  predicate QuietBelow(t: Junction, e: Expr, p: Path, q: Path, x: Path, y: Path)
    requires InSpine(t, e, p) && InSpine(t, e, q)
    requires OperandSlot(t, At(t, e, p), x) && OperandSlot(t, At(t, e, q), y)
  {
    AtThrough(t, e, p, x);
    AtThrough(t, e, q, y);
    Quiet(t, e, p + x, q + y)
  }

  /** A slot below a field of a node. */
  lemma FieldSlot(t: Junction, e: Expr, p: Path, d: Side, x: Path)
    requires InSpine(t, e, p) && Is(t, At(t, e, p))
    ensures InSpine(t, e, p + [d]) && At(t, e, p + [d]) == Child(At(t, e, p), d)
    ensures OperandSlot(t, At(t, e, p + [d]), x) <==> OperandSlot(t, At(t, e, p), [d] + x)
    ensures p + [d] + x == p + ([d] + x)
  {
    AtChild(t, e, p, d);
    assert ([d] + x)[0] == d && ([d] + x)[1..] == x;
  }

  /** A slot below a node is below one of its fields. */
  lemma NodeSlot(t: Junction, e: Expr, p: Path, x: Path)
    requires InSpine(t, e, p) && Is(t, At(t, e, p)) && OperandSlot(t, At(t, e, p), x)
    ensures x != [] && x == [x[0]] + x[1..]
    ensures InSpine(t, e, p + [x[0]]) && OperandSlot(t, At(t, e, p + [x[0]]), x[1..])
    ensures p + [x[0]] + x[1..] == p + x
  {
    assert x == [x[0]] + x[1..];
    FieldSlot(t, e, p, x[0], x[1..]);
  }

  /** The operands below a node are those below its two fields. */
  lemma QuietFirst(t: Junction, e: Expr, p: Path, q: Path)
    requires InSpine(t, e, p) && InSpine(t, e, q) && Is(t, At(t, e, p))
    requires InSpine(t, e, p + [L]) && InSpine(t, e, p + [R])
    ensures AllQuiet(t, e, p, q) <==> AllQuiet(t, e, p + [L], q) && AllQuiet(t, e, p + [R], q)
  {
    if AllQuiet(t, e, p, q) {
      QuietFirstDown(t, e, p, q, L);
      QuietFirstDown(t, e, p, q, R);
    }
    if AllQuiet(t, e, p + [L], q) && AllQuiet(t, e, p + [R], q) {
      QuietFirstUp(t, e, p, q);
    }
  }

  lemma QuietFirstUp(t: Junction, e: Expr, p: Path, q: Path)
    requires InSpine(t, e, p) && InSpine(t, e, q) && Is(t, At(t, e, p)) && InSpine(t, e, p + [L]) && InSpine(t, e, p + [R])
    requires AllQuiet(t, e, p + [L], q) && AllQuiet(t, e, p + [R], q)
    ensures AllQuiet(t, e, p, q)
  {
    forall x, y | OperandSlot(t, At(t, e, p), x) && OperandSlot(t, At(t, e, q), y) ensures QuietBelow(t, e, p, q, x, y) {
      NodeSlot(t, e, p, x);
      assert QuietBelow(t, e, p + [x[0]], q, x[1..], y);
    }
  }

  lemma QuietFirstDown(t: Junction, e: Expr, p: Path, q: Path, d: Side)
    requires InSpine(t, e, p) && InSpine(t, e, q) && Is(t, At(t, e, p)) && InSpine(t, e, p + [d]) && AllQuiet(t, e, p, q)
    ensures AllQuiet(t, e, p + [d], q)
  {
    forall x, y | OperandSlot(t, At(t, e, p + [d]), x) && OperandSlot(t, At(t, e, q), y)
      ensures QuietBelow(t, e, p + [d], q, x, y)
    {
      FieldSlot(t, e, p, d, x);
      assert QuietBelow(t, e, p, q, [d] + x, y);
    }
  }

  lemma QuietSecond(t: Junction, e: Expr, p: Path, q: Path)
    requires InSpine(t, e, p) && InSpine(t, e, q) && Is(t, At(t, e, q))
    requires InSpine(t, e, q + [L]) && InSpine(t, e, q + [R])
    ensures AllQuiet(t, e, p, q) <==> AllQuiet(t, e, p, q + [L]) && AllQuiet(t, e, p, q + [R])
  {
    if AllQuiet(t, e, p, q) {
      QuietSecondDown(t, e, p, q, L);
      QuietSecondDown(t, e, p, q, R);
    }
    if AllQuiet(t, e, p, q + [L]) && AllQuiet(t, e, p, q + [R]) {
      QuietSecondUp(t, e, p, q);
    }
  }

  lemma QuietSecondUp(t: Junction, e: Expr, p: Path, q: Path)
    requires InSpine(t, e, p) && InSpine(t, e, q) && Is(t, At(t, e, q)) && InSpine(t, e, q + [L]) && InSpine(t, e, q + [R])
    requires AllQuiet(t, e, p, q + [L]) && AllQuiet(t, e, p, q + [R])
    ensures AllQuiet(t, e, p, q)
  {
    forall x, y | OperandSlot(t, At(t, e, p), x) && OperandSlot(t, At(t, e, q), y) ensures QuietBelow(t, e, p, q, x, y) {
      QuietSecondAt(t, e, p, q, x, y);
    }
  }

  lemma QuietSecondAt(t: Junction, e: Expr, p: Path, q: Path, x: Path, y: Path)
    requires InSpine(t, e, p) && InSpine(t, e, q) && Is(t, At(t, e, q)) && InSpine(t, e, q + [L]) && InSpine(t, e, q + [R])
    requires AllQuiet(t, e, p, q + [L]) && AllQuiet(t, e, p, q + [R])
    requires OperandSlot(t, At(t, e, p), x) && OperandSlot(t, At(t, e, q), y)
    ensures QuietBelow(t, e, p, q, x, y)
  {
    NodeSlot(t, e, q, y);
    assert y[0] == L || y[0] == R;
    assert QuietBelow(t, e, p, q + [y[0]], x, y[1..]);
  }

  lemma QuietSecondDown(t: Junction, e: Expr, p: Path, q: Path, d: Side)
    requires InSpine(t, e, p) && InSpine(t, e, q) && Is(t, At(t, e, q)) && InSpine(t, e, q + [d]) && AllQuiet(t, e, p, q)
    ensures AllQuiet(t, e, p, q + [d])
  {
    forall x, y | OperandSlot(t, At(t, e, p), x) && OperandSlot(t, At(t, e, q + [d]), y)
      ensures QuietBelow(t, e, p, q + [d], x, y)
    {
      FieldSlot(t, e, q, d, y);
      assert QuietBelow(t, e, p, q, x, [d] + y);
    }
  }

  lemma QuietPair(t: Junction, e: Expr, p: Path, q: Path, n: nat)
    requires OperandSlot(t, e, p) && OperandSlot(t, e, q)
    ensures Dups1(t, e, p, q, n).1 == n <==> AllQuiet(t, e, p, q)
  {
    assert p + [] == p && q + [] == q;
    assert OperandSlot(t, At(t, e, p), []) && OperandSlot(t, At(t, e, q), []);
    assert QuietBelow(t, e, p, q, [], []) == Quiet(t, e, p, q);
    assert AllQuiet(t, e, p, q) <==> Quiet(t, e, p, q);
    if p != q {
      PutElsewhere(t, e, p, q, Leaf(Yes));
      var (f, m) := Inner(t, e, p, n);
      PutElsewhere(t, e, p, q, At(t, f, p));
      InnerIdle(t, e, p, n);
      assert Dups1(t, e, p, q, n) == Merge(t, f, p, q, m);
    }
  }

  lemma InnerIdle(t: Junction, e: Expr, p: Path, n: nat)
    requires OperandSlot(t, e, p) && p != []
    ensures Inner(t, e, p, n).1 == n <==> Idle(At(t, e, p))
  {
    var x := At(t, e, p);
    if x.Bin? {
      CountShifts(x.op, x, [], [], n, 0);
    }
  }

  /** No two operands of a tree merge, nor any two operands inside one of them. */
  ghost predicate Finished(e: Expr)
    decreases Size(e)
  {
    e.Bin? ==>
      && (forall x, y {:trigger Apart(e, x, y)} ::
            OperandSlot(e.op, e, x) && OperandSlot(e.op, e, y) && x != y ==> Apart(e, x, y))
      && (forall x :: OperandSlot(e.op, e, x) && x != [] ==> Finished(At(e.op, e, x)))
  }

  predicate Apart(e: Expr, x: Path, y: Path)
    requires e.Bin? && OperandSlot(e.op, e, x) && OperandSlot(e.op, e, y)
  {
    Join(e.op, At(e.op, e, x), At(e.op, e, y)).None?
  }

  /** A pass over a tree merges nothing if and only if it is finished. */
  lemma {:induction false} IdleExact(e: Expr)
    ensures Idle(e) <==> Finished(e)
    decreases Size(e)
  {
    if e.Bin? {
      var t := e.op;
      forall x | OperandSlot(t, e, x) ensures x != [] && (Idle(At(t, e, x)) <==> Finished(At(t, e, x))) {
        IdleExact(At(t, e, x));
      }
      PassQuiet(t, e, [], [], 0);
      QuietExact(e);
    }
  }

  lemma QuietExact(e: Expr)
    requires e.Bin?
    requires forall x :: OperandSlot(e.op, e, x) ==> x != [] && (Idle(At(e.op, e, x)) <==> Finished(At(e.op, e, x)))
    ensures AllQuiet(e.op, e, [], []) <==> Finished(e)
  {
    if AllQuiet(e.op, e, [], []) {
      QuietFinished(e);
    }
    if Finished(e) {
      FinishedQuiet(e);
    }
  }

  lemma QuietFinished(e: Expr)
    requires e.Bin? && AllQuiet(e.op, e, [], [])
    requires forall x :: OperandSlot(e.op, e, x) ==> x != [] && (Idle(At(e.op, e, x)) <==> Finished(At(e.op, e, x)))
    ensures Finished(e)
  {
    forall x, y | OperandSlot(e.op, e, x) && OperandSlot(e.op, e, y) && x != y ensures Apart(e, x, y) {
      QuietSlots(e, x, y);
    }
    forall x | OperandSlot(e.op, e, x) ensures Finished(At(e.op, e, x)) {
      QuietSlots(e, x, OtherOperand(e.op, e, x));
    }
  }

  lemma QuietSlots(e: Expr, x: Path, y: Path)
    requires e.Bin? && AllQuiet(e.op, e, [], []) && OperandSlot(e.op, e, x) && OperandSlot(e.op, e, y) && x != y
    ensures Apart(e, x, y) && Idle(At(e.op, e, x))
  {
    assert [] + x == x && [] + y == y;
    assert QuietBelow(e.op, e, [], [], x, y);
  }

  lemma FinishedQuiet(e: Expr)
    requires e.Bin? && Finished(e)
    requires forall x :: OperandSlot(e.op, e, x) ==> x != [] && (Idle(At(e.op, e, x)) <==> Finished(At(e.op, e, x)))
    ensures AllQuiet(e.op, e, [], [])
  {
    var t := e.op;
    forall x, y | OperandSlot(t, e, x) && OperandSlot(t, e, y) ensures QuietBelow(t, e, [], [], x, y) {
      assert [] + x == x && [] + y == y;
      assert x != y ==> Apart(e, x, y);
    }
  }

  /** A connective has an operand besides any given one. */
  function OtherOperand(t: Junction, e: Expr, x: Path): (y: Path)
    requires Is(t, e) && OperandSlot(t, e, x)
    ensures OperandSlot(t, e, y) && y != x
  {
    var d := if x[0].L? then R else L;
    FirstOperandSlot(t, Child(e, d));
    [d] + FirstOperand(t, Child(e, d))
  }

  function FirstOperand(t: Junction, e: Expr): Path {
    if Is(t, e) then [L] + FirstOperand(t, e.left) else []
  }

  lemma {:induction false} FirstOperandSlot(t: Junction, e: Expr)
    ensures OperandSlot(t, e, FirstOperand(t, e))
  {
    if Is(t, e) {
      FirstOperandSlot(t, e.left);
    }
  }

  /** expr_eliminate_dups leaves no two operands that merge, at any depth of connectives, and it
      leaves a tree alone if and only if there are none. */
  lemma EliminateDupsComplete(e: Expr)
    ensures Finished(EliminateDups(e))
    ensures Finished(e) <==> EliminateDups(e) == e
  {
    EliminateDupsFinished(e);
    IdleExact(EliminateDups(e));
    IdleExact(e);
  }
}
