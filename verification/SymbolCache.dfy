/** The memoised evaluation of symbols: expr_calc_value (expr.c), sym_calc_visibility,
    sym_calc_value and sym_clear_all_valid (symbol.c). It ends for every configuration, since
    a symbol is marked before its calculation; where no value depends on itself it gives the
    uncached values. */
module SymbolCache {
  import opened Expr
  import opened SymbolGraph
  import opened SymbolValue
  import opened Wrappers

  /** What is remembered: curr.tri, the visible and tri fields, and the SYMBOL_VALID flags. */
  datatype Memo = Memo(curr: map<Symbol, Tristate>, status: map<Symbol, Status>, valid: set<Symbol>)
  {
    function Curr(s: Symbol): Tristate { if s in curr then curr[s] else NO }
  }

  /** Valid symbols keep what is remembered of them. */
  ghost predicate Kept(a: Memo, b: Memo, s: Symbol) {
    && s in b.valid && a.Curr(s) == b.Curr(s)
    && (s in a.status ==> s in b.status && b.status[s] == a.status[s])
  }

  /** A call makes symbols valid and leaves the valid ones alone. */
  ghost predicate Grew(a: Memo, b: Memo) {
    forall s {:trigger Kept(a, b, s)} :: s in a.valid ==> Kept(a, b, s)
  }

  /** The same during the calculation of s itself. */
  ghost predicate GrewBut(a: Memo, b: Memo, s: Symbol) {
    && s in a.valid && s in b.valid
    && forall x {:trigger Kept(a, b, x)} :: x in a.valid && x != s ==> Kept(a, b, x)
  }

  lemma GrewTrans(a: Memo, b: Memo, c: Memo)
    requires Grew(a, b) && Grew(b, c)
    ensures Grew(a, c)
  {
    forall s | s in a.valid ensures Kept(a, c, s) {
      assert Kept(a, b, s) && Kept(b, c, s);
    }
  }

  lemma GrewButTrans(a: Memo, b: Memo, c: Memo, s: Symbol)
    requires GrewBut(a, b, s) && GrewBut(b, c, s)
    ensures GrewBut(a, c, s)
  {
    forall x | x in a.valid && x != s ensures Kept(a, c, x) {
      assert Kept(a, b, x) && Kept(b, c, x);
    }
  }

  class SymbolTable {
    const cfg: Config
    const env: Env
    ghost const all: set<Symbol>        // the symbols of the hash table
    ghost const rank: Symbol -> nat
    ghost const want: Values            // the uncached recursive values
    var curr: map<Symbol, Tristate>     // curr.tri, n where missing
    var status: map<Symbol, Status>     // visible and the tri fields of the three dependencies
    var valid: set<Symbol>              // symbols with SYMBOL_VALID

    constructor (cfg: Config, env: Env, ghost all: set<Symbol>, ghost rank: Symbol -> nat, curr: map<Symbol, Tristate>)
      requires Universe(Extended(cfg)) <= all
      ensures this.cfg == cfg && this.env == env && this.all == all && this.rank == rank && this.curr == curr
      ensures want == RecursiveValues(cfg, env, rank) && Within() && (Sound() <==> Ranked(cfg, rank))
    {
      this.cfg, this.env, this.all, this.rank := cfg, env, all, rank;
      want := RecursiveValues(cfg, env, rank);
      RankedSolves(cfg, env, rank);
      this.curr, status, valid := curr, map[], {};
      forall s ensures ValueDeps(cfg, s) <= all {
        ValuesClosed(cfg, s);
      }
    }

    ghost function State(): Memo
      reads this
    {
      Memo(curr, status, valid)
    }

    function Curr(s: Symbol): Tristate
      reads this
    {
      if s in curr then curr[s] else NO
    }

    /** The symbols met are symbols of the table. */
    ghost predicate Within()
      reads this
    {
      valid <= all && forall s {:trigger ValueDeps(cfg, s)} :: ValueDeps(cfg, s) <= all
    }

    /** No circle, and the wanted values solve every equation. */
    ghost predicate Sound() {
      Ranked(cfg, rank) && Solution(cfg, env, want)
    }

    /** Without a circle a valid symbol of rank below k has its value; one of higher rank may be
        in progress. */
    ghost predicate Correct(m: Memo, k: nat) {
      Sound() && forall s {:trigger Right(m, s)} :: s in m.valid && rank(s) < k ==> Right(m, s)
    }

    ghost predicate Right(m: Memo, s: Symbol) {
      m.Curr(s) == want(s)
    }

    /** The new values are right and of rank below k. */
    ghost predicate Calculated(a: Memo, b: Memo, k: nat) {
      Correct(b, k) && forall s {:trigger Recent(a, b, s)} :: Recent(a, b, s) ==> rank(s) < k
    }

    ghost predicate Recent(a: Memo, b: Memo, s: Symbol) {
      s in b.valid && s !in a.valid
    }

    ghost predicate Below(s: set<Symbol>, k: nat) {
      forall d :: d in s ==> rank(d) < k
    }

    /** What a calculation that uses the symbols s can rely on without a circle. */
    ghost predicate Usable(m: Memo, s: set<Symbol>, k: nat) {
      Correct(m, k) && Below(s, k)
    }

    twostate predicate Grows()
      reads this
    {
      Within() && Grew(old(State()), State())
    }

    twostate predicate GrowsBut(s: Symbol)
      reads this
    {
      Within() && GrewBut(old(State()), State(), s)
    }

    twostate predicate Calculates(k: nat)
      reads this
    {
      Calculated(old(State()), State(), k)
    }

    /** What was said of the states a and b, and of b and c, holds of a and c. */
    lemma Steps(a: Memo, b: Memo, c: Memo, k: nat)
      requires Grew(a, b) && Grew(b, c)
      ensures Grew(a, c)
      ensures Calculated(a, b, k) && Calculated(b, c, k) ==> Calculated(a, c, k)
    {
      GrewTrans(a, b, c);
      if Calculated(a, b, k) && Calculated(b, c, k) {
        forall s | Recent(a, c, s) ensures rank(s) < k {
          assert Recent(a, b, s) || Recent(b, c, s);
        }
      }
    }

    lemma Nothing(a: Memo, k: nat)
      ensures Grew(a, a) && (Correct(a, k) ==> Calculated(a, a, k))
    {
    }

    /** A calculation of lower rank is one of higher rank. */
    lemma Widen(a: Memo, c: Memo, j: nat, k: nat)
      requires j <= k && Grew(a, c) && Correct(a, k)
      ensures Correct(a, j)
      ensures Calculated(a, c, j) ==> Calculated(a, c, k)
    {
      if Calculated(a, c, j) {
        forall s | s in c.valid && rank(s) < k ensures Right(c, s) {
          if s in a.valid {
            assert Kept(a, c, s) && Right(a, s);
          } else {
            assert Recent(a, c, s);
            assert Right(c, s);
          }
        }
        forall s | Recent(a, c, s) ensures rank(s) < k {
        }
      }
    }

    /** The same during the calculation of s. */
    lemma StepsBut(a: Memo, b: Memo, c: Memo, s: Symbol)
      requires GrewBut(a, b, s) && (GrewBut(b, c, s) || (Grew(b, c) && s in b.valid))
      ensures GrewBut(a, c, s)
      ensures Calculated(a, b, rank(s)) && Calculated(b, c, rank(s)) ==> Calculated(a, c, rank(s))
    {
      if Grew(b, c) && s in b.valid {
        assert Kept(b, c, s);
        forall x | x in b.valid && x != s ensures Kept(b, c, x) {
        }
      }
      GrewButTrans(a, b, c, s);
      if Calculated(a, b, rank(s)) && Calculated(b, c, rank(s)) {
        forall x | Recent(a, c, x) ensures rank(x) < rank(s) {
          assert Recent(a, b, x) || Recent(b, c, x);
        }
      }
    }

    /** The value of the symbol in progress does not count. */
    lemma Overwritten(m: Memo, s: Symbol, t: Tristate)
      requires s in m.valid
      ensures var x := m.(curr := m.curr[s := t]);
              GrewBut(m, x, s) && (Correct(m, rank(s)) ==> Calculated(m, x, rank(s)))
    {
      var x := m.(curr := m.curr[s := t]);
      forall y | y in m.valid && y != s ensures Kept(m, x, y) {
      }
      if Correct(m, rank(s)) {
        forall y | y in x.valid && rank(y) < rank(s) ensures Right(x, y) {
          assert Right(m, y);
        }
      }
    }

    lemma Noted(a: Memo, b: Memo, s: Symbol, st: Status)
      requires s in a.valid && Grew(a, b)
      ensures var x := b.(status := b.status[s := st]);
              GrewBut(a, x, s) && (Calculated(a, b, rank(s)) ==> Calculated(a, x, rank(s)))
    {
      var x := b.(status := b.status[s := st]);
      assert Kept(a, b, s);
      forall y | y in a.valid && y != s ensures Kept(a, x, y) {
        assert Kept(a, b, y);
      }
      if Calculated(a, b, rank(s)) {
        forall y | y in x.valid && rank(y) < rank(s) ensures Right(x, y) {
          assert Right(b, y);
        }
        forall y | Recent(a, x, y) ensures rank(y) < rank(s) {
          assert Recent(a, b, y);
        }
      }
    }

    ghost predicate AllRight(m: Memo) {
      forall s {:trigger Right(m, s)} :: s in m.valid ==> Right(m, s)
    }

    lemma StillRight(a: Memo, c: Memo, k: nat)
      requires Grew(a, c) && (Correct(a, k) ==> Calculated(a, c, k))
      ensures Sound() && AllRight(a) ==> AllRight(c)
    {
      if Sound() && AllRight(a) {
        assert Correct(a, k);
        forall s | s in c.valid ensures Right(c, s) {
          if s in a.valid {
            assert Kept(a, c, s) && Right(a, s);
          } else {
            assert Recent(a, c, s);
            assert Right(c, s);
          }
        }
      }
    }

    /** Marking s leaves the values of lower rank right. */
    lemma Marked(a: Memo, s: Symbol)
      ensures Correct(a, rank(s) + 1) ==> Correct(a.(valid := a.valid + {s}), rank(s))
    {
      var b := a.(valid := a.valid + {s});
      if Correct(a, rank(s) + 1) {
        forall x | x in b.valid && rank(x) < rank(s) ensures Right(b, x) {
          assert Right(a, x);
        }
      }
    }

    /** s was marked and then calculated. */
    lemma MarkedOne(a: Memo, c: Memo, s: Symbol)
      requires s !in a.valid && GrewBut(a.(valid := a.valid + {s}), c, s)
      ensures Grew(a, c)
      ensures Correct(a, rank(s) + 1) && Calculated(a.(valid := a.valid + {s}), c, rank(s)) && c.Curr(s) == want(s) ==>
          Calculated(a, c, rank(s) + 1)
    {
      var b := a.(valid := a.valid + {s});
      forall x | x in a.valid ensures Kept(a, c, x) {
        assert x in b.valid && Kept(b, c, x);
      }
      if Correct(a, rank(s) + 1) && Calculated(b, c, rank(s)) && c.Curr(s) == want(s) {
        forall x | x in c.valid && rank(x) < rank(s) + 1 ensures Right(c, x) {
          if x in a.valid {
            assert Kept(a, c, x) && Right(a, x);
          } else if x != s {
            assert Recent(b, c, x);
            assert Right(c, x);
          }
        }
        forall x | Recent(a, c, x) ensures rank(x) < rank(s) + 1 {
          if x != s { assert Recent(b, c, x); }
        }
      }
    }

    lemma FewerBut(a: Memo, b: Memo, s: Symbol)
      requires GrewBut(a, b, s) && b.valid <= all
      ensures |all - b.valid| <= |all - a.valid|
    {
      assert forall x :: x in a.valid && x != s ==> Kept(a, b, x);
      FewerLeft(all, a.valid, b.valid);
    }

    lemma Fewer(a: Memo, b: Memo)
      requires Grew(a, b) && b.valid <= all
      ensures |all - b.valid| <= |all - a.valid|
    {
      assert forall s :: s in a.valid ==> Kept(a, b, s);
      FewerLeft(all, a.valid, b.valid);
    }

    /** expr_calc_value. */
    method ExprCalcValue(e: Expr, ghost k: nat) returns (t: Tristate)
      requires Within() && Refs(e) <= all
      modifies this
      ensures Grows()
      ensures Usable(old(State()), Refs(e), k) ==> Calculates(k) && t == Value(e, AsValuation(env, want))
      decreases |all - valid|, 2, e
    {
      match e
      case Leaf(s) =>
        CalcOne(s, k);
        t := Curr(s);
      case Bin(_, _, _) =>
        t := CalcOperands(e, k);
      case Not(a) =>
        var t1 := ExprCalcValue(a, k);
        t := Negate(t1);
      case Cmp(rel, a, b) =>
        t := CompareValue(rel, a, b, k);
    }

    method CalcOperands(e: Expr, ghost k: nat) returns (t: Tristate)
      requires e.Bin? && Within() && Refs(e) <= all
      modifies this
      ensures Grows()
      ensures Usable(old(State()), Refs(e), k) ==> Calculates(k) && t == Value(e, AsValuation(env, want))
      decreases |all - valid|, 2, e, 0
    {
      ghost var a := State();
      var t1 := ExprCalcValue(e.left, k);
      ghost var b := State();
      Fewer(a, b);
      var t2 := ExprCalcValue(e.right, k);
      Steps(a, b, State(), k);
      t := e.op.Apply(t1, t2);
    }

    /** The comparison of two symbols by their current texts. */
    method CompareValue(rel: Relation, a: Symbol, b: Symbol, ghost k: nat) returns (t: Tristate)
      requires Within() && a in all && b in all
      modifies this
      ensures Grows()
      ensures Correct(old(State()), k) && rank(a) < k && rank(b) < k ==>
          Calculates(k) && t == AsValuation(env, want).Compare(rel, a, b)
      decreases |all - valid|, 1, 1
    {
      CalcBoth(a, b, k);
      var ca, cb := Curr(a), Curr(b);
      t := AsValuation(env, s => if s == a then ca else cb).Compare(rel, a, b);
      if Correct(old(State()), k) && rank(a) < k && rank(b) < k {
        ValueAgree(env, Cmp(rel, a, b), s => if s == a then ca else cb, want);
      }
    }

    /** One symbol of rank below k. */
    method CalcOne(s: Symbol, ghost k: nat)
      requires Within() && s in all
      modifies this
      ensures Grows() && s in valid
      ensures Correct(old(State()), k) && rank(s) < k ==> Calculates(k) && Curr(s) == want(s)
      decreases |all - valid|, 0, 2
    {
      ghost var a := State();
      if Correct(a, k) && rank(s) < k {
        Widen(a, a, rank(s) + 1, k);
      }
      CalcValue(s);
      if Correct(a, k) && rank(s) < k {
        Widen(a, State(), rank(s) + 1, k);
      }
    }

    method CalcBoth(a: Symbol, b: Symbol, ghost k: nat)
      requires Within() && a in all && b in all
      modifies this
      ensures Grows()
      ensures Correct(old(State()), k) && rank(a) < k && rank(b) < k ==>
          Calculates(k) && Curr(a) == want(a) && Curr(b) == want(b)
      decreases |all - valid|, 1, 0
    {
      ghost var x := State();
      CalcOne(a, k);
      ghost var y := State();
      Fewer(x, y);
      CalcOne(b, k);
      Steps(x, y, State(), k);
      assert Kept(y, State(), a);
    }

    method ExprCalcValueOpt(e: Option<Expr>, ghost k: nat) returns (t: Tristate)
      requires Within() && RefsOpt(e) <= all
      modifies this
      ensures Grows()
      ensures Usable(old(State()), RefsOpt(e), k) ==> Calculates(k) && t == ValueOpt(e, AsValuation(env, want))
      decreases |all - valid|, 3, 0
    {
      if e.None? {
        return YES;
      }
      t := ExprCalcValue(e.value, k);
    }

    /** A calculation of rank k from a to b, which without a circle gives what it should. */
    ghost predicate Progress(a: Memo, b: Memo, k: nat, right: bool) {
      Grew(a, b) && (Correct(a, k) ==> Calculated(a, b, k) && right)
    }

    /** What one property of a symbol uses. */
    lemma PropertyBelow(s: Symbol, i: nat)
      requires Within() && i < |InfoOf(cfg, s).props|
      ensures var p := InfoOf(cfg, s).props[i];
              PropertyRefs(p) <= all && (Sound() ==> Below(PropertyRefs(p), rank(s)))
    {
      var props := InfoOf(cfg, s).props;
      PropertyAmong(props, i, |props|);
      assert ValueDeps(cfg, s) <= all;
    }

    /** The loop of sym_calc_visibility over the prompts. */
    method CalcPrompts(s: Symbol) returns (t: Tristate)
      requires Within()
      modifies this
      ensures Within()
      ensures var props := InfoOf(cfg, s).props;
              Progress(old(State()), State(), rank(s), t == PromptVisible(props, |props|, AsValuation(env, want)))
      decreases |all - valid|, 4, 1
    {
      ghost var a := State();
      Nothing(a, rank(s));
      var props := InfoOf(cfg, s).props;
      t := NO;
      var i := 0;
      while i < |props|
        invariant 0 <= i <= |props| && Within()
        invariant Progress(a, State(), rank(s), t == PromptVisible(props, i, AsValuation(env, want)))
      {
        t := CalcPrompt(s, i, t, a);
        i := i + 1;
      }
    }

    method CalcPrompt(s: Symbol, i: nat, t: Tristate, ghost a: Memo) returns (r: Tristate)
      requires Within() && i < |InfoOf(cfg, s).props|
      requires Progress(a, State(), rank(s), t == PromptVisible(InfoOf(cfg, s).props, i, AsValuation(env, want)))
      modifies this
      ensures Within()
      ensures Progress(a, State(), rank(s), r == PromptVisible(InfoOf(cfg, s).props, i + 1, AsValuation(env, want)))
      decreases |all - a.valid|, 4, 0
    {
      r := t;
      var p := InfoOf(cfg, s).props[i];
      if p.kind.Prompt? {
        PropertyBelow(s, i);
        ghost var b := State();
        Fewer(a, b);
        var tri := ExprCalcValueOpt(p.visible, rank(s));
        Steps(a, b, State(), rank(s));
        r := Max(t, tri);
      }
    }

    /** The default that is found from the i-th property on is the one that counts. */
    ghost predicate DefaultFrom(s: Symbol, i: nat)
      requires i <= |InfoOf(cfg, s).props|
    {
      var props, v := InfoOf(cfg, s).props, AsValuation(env, want);
      DefaultValue(props, i, v) == DefaultValue(props, 0, v)
    }

    ghost predicate IsDefault(s: Symbol, t: Tristate) {
      t == DefaultValue(InfoOf(cfg, s).props, 0, AsValuation(env, want))
    }

    /** sym_get_default_prop, and the value of the property it finds. */
    method CalcDefault(s: Symbol) returns (t: Tristate)
      requires Within()
      modifies this
      ensures Within() && Progress(old(State()), State(), rank(s), IsDefault(s, t))
      decreases |all - valid|, 4, 1
    {
      ghost var a := State();
      Nothing(a, rank(s));
      var i := 0;
      while i < |InfoOf(cfg, s).props|
        invariant 0 <= i <= |InfoOf(cfg, s).props| && Within()
        invariant Progress(a, State(), rank(s), DefaultFrom(s, i))
      {
        var found;
        found, t := TryDefault(s, i, a);
        if found {
          return;
        }
        i := i + 1;
      }
      t := NO;
    }

    /** One property of that search. */
    method TryDefault(s: Symbol, i: nat, ghost a: Memo) returns (found: bool, t: Tristate)
      requires Within() && i < |InfoOf(cfg, s).props| && Progress(a, State(), rank(s), DefaultFrom(s, i))
      modifies this
      ensures Within()
      ensures Progress(a, State(), rank(s), if found then IsDefault(s, t) else DefaultFrom(s, i + 1))
      decreases |all - a.valid|, 4, 0
    {
      found, t := false, NO;
      var p := InfoOf(cfg, s).props[i];
      if p.kind.Default? {
        PropertyBelow(s, i);
        found, t := EvaluateDefault(p, rank(s), a);
      }
    }

    /** Its condition, and its value where the condition holds. */
    method EvaluateDefault(p: Property, ghost k: nat, ghost a: Memo) returns (found: bool, t: Tristate)
      requires Within() && RefsOpt(p.visible) <= all && RefsOpt(p.value) <= all && Grew(a, State())
      modifies this
      ensures Within() && Grew(a, State())
      ensures Calculated(a, old(State()), k) && Below(RefsOpt(p.visible) + RefsOpt(p.value), k) ==>
          && Calculated(a, State(), k)
          && (found <==> ValueOpt(p.visible, AsValuation(env, want)) != NO)
          && (found ==> t == Min(ValueOpt(p.value, AsValuation(env, want)), ValueOpt(p.visible, AsValuation(env, want))))
      decreases |all - a.valid|, 3, 1
    {
      ghost var b := State();
      Fewer(a, b);
      var visible := ExprCalcValueOpt(p.visible, k);
      ghost var c := State();
      Steps(a, b, c, k);
      found, t := visible != NO, NO;
      if found {
        Fewer(a, c);
        var value := ExprCalcValueOpt(p.value, k);
        Steps(a, c, State(), k);
        t := Min(value, visible);
      }
    }

    /** Its treatment of a reverse or weak reverse dependency. */
    method CalcSelected(s: Symbol, e: Option<Expr>, asked: bool) returns (t: Tristate)
      requires Within() && RefsOpt(e) <= all
      modifies this
      ensures Grows()
      ensures Usable(old(State()), RefsOpt(e), rank(s)) ==>
          && Calculates(rank(s))
          && t == Rounded(env, s, if asked && e.Some? then Value(e.value, AsValuation(env, want)) else NO)
      decreases |all - valid|, 4, 0
    {
      t := NO;
      if e.Some? && asked {
        t := ExprCalcValue(e.value, rank(s));
      }
      t := Rounded(env, s, t);
    }

    /** sym_calc_visibility. */
    method CalcVisibility(s: Symbol)
      requires Within() && s in valid
      modifies this
      ensures GrowsBut(s) && s in status
      ensures Correct(old(State()), rank(s)) ==>
          Calculates(rank(s)) && status[s] == StatusOf(cfg, env, s, AsValuation(env, want))
      decreases |all - valid|, 5
    {
      ghost var a, k := State(), rank(s);
      var shown := CalcPrompts(s);
      var visible := Rounded(env, s, shown);
      ghost var b := State();
      Fewer(a, b);
      var direct, reverse, implied := CalcDependencies(s);
      ghost var c, st := State(), Status(visible, direct, reverse, implied);
      Steps(a, b, c, k);
      Noted(a, c, s, st);
      status := status[s := Status(visible, direct, reverse, implied)];
    }

    /** What its dependencies use. */
    lemma UsesBelow(s: Symbol)
      requires Within()
      ensures var info := InfoOf(cfg, s);
              RefsOpt(info.dirDep) <= all && RefsOpt(info.revDep) <= all && RefsOpt(info.implied) <= all
      ensures Sound() ==>
              var info := InfoOf(cfg, s);
              && Below(RefsOpt(info.dirDep), rank(s)) && Below(RefsOpt(info.revDep), rank(s))
              && Below(RefsOpt(info.implied), rank(s))
    {
      assert ValueDeps(cfg, s) <= all;
    }

    /** The direct, reverse and weak reverse dependencies. */
    method CalcDependencies(s: Symbol) returns (direct: Tristate, reverse: Tristate, implied: Tristate)
      requires Within() && s in all
      modifies this
      ensures Grows()
      ensures Correct(old(State()), rank(s)) ==>
          && Calculates(rank(s))
          && var st := StatusOf(cfg, env, s, AsValuation(env, want));
             direct == st.direct && reverse == st.reverse && implied == st.implied
      decreases |all - valid|, 4, 1
    {
      var info := InfoOf(cfg, s);
      ghost var a := State();
      UsesBelow(s);
      direct := ExprCalcValueOpt(info.dirDep, rank(s));
      if direct == MOD {
        direct := YES;
      }
      ghost var b := State();
      Fewer(a, b);
      reverse := CalcSelected(s, info.revDep, true);
      ghost var c := State();
      Steps(a, b, c, rank(s));
      Fewer(a, c);
      implied := CalcSelected(s, info.implied, direct != NO);
      Steps(a, c, State(), rank(s));
    }

    /** sym_calc_value. */
    method CalcValue(s: Symbol)
      requires Within() && s in all
      modifies this
      ensures Grows() && s in valid
      ensures Correct(old(State()), rank(s) + 1) ==> Calculates(rank(s) + 1) && Curr(s) == want(s)
      decreases |all - valid|, 0, 1
    {
      if s in valid {
        assert Right(State(), s) == (Curr(s) == want(s));
        return;
      }
      Mark(s);
    }

    /** A symbol is marked before its calculation, so that the calculation ends. */
    method Mark(s: Symbol)
      requires Within() && s in all && s !in valid
      modifies this
      ensures Grows() && s in valid
      ensures Correct(old(State()), rank(s) + 1) ==> Calculates(rank(s) + 1) && Curr(s) == want(s)
      decreases |all - valid|, 0, 0
    {
      ghost var a := State();
      FewerLeft(all, valid, valid + {s});
      Marked(a, s);
      valid := valid + {s};
      CalcNew(s);
      MarkedOne(a, State(), s);
    }

    /** The flag is set; the value is not known yet. */
    method CalcNew(s: Symbol)
      requires Within() && s in valid
      modifies this
      ensures GrowsBut(s)
      ensures Correct(old(State()), rank(s)) ==> Calculates(rank(s)) && Curr(s) == want(s)
      decreases |all - valid|, 7
    {
      if !HasTristate(s) {
        CalcOther(s);
      } else {
        CalcTristate(s);
      }
    }

    /** The default case of its first switch: a symbol without a tristate value. */
    method CalcOther(s: Symbol)
      requires s in valid && !HasTristate(s)
      modifies this`curr
      ensures GrewBut(old(State()), State(), s) && valid == old(valid)
      ensures Sound() ==> Curr(s) == want(s)
      ensures Correct(old(State()), rank(s)) ==> Calculates(rank(s))
    {
      assert Sound() ==> Equation(cfg, env, want, s);
      Overwritten(State(), s, if s == Yes then YES else if s == Mod then MOD else NO);
      curr := curr[s := if s == Yes then YES else if s == Mod then MOD else NO];
    }

    /** The boolean and tristate case of sym_calc_value. */
    method CalcTristate(s: Symbol)
      requires Within() && s in valid && HasTristate(s)
      modifies this
      ensures GrowsBut(s)
      ensures Correct(old(State()), rank(s)) ==> Calculates(rank(s)) && Curr(s) == want(s)
      decreases |all - valid|, 6
    {
      ghost var a := State();
      CalcVisibility(s);
      ghost var b := State();
      Overwritten(b, s, NO);
      curr := curr[s := NO];  // what a recursive call would see
      StepsBut(a, b, State(), s);
      ghost var c := State();
      FewerBut(a, c, s);
      var newval := CalcNewValue(s);
      ghost var d := State();
      StepsBut(a, c, d, s);
      Overwritten(d, s, newval);
      assert Sound() ==> Equation(cfg, env, want, s);
      curr := curr[s := newval];
      StepsBut(a, d, State(), s);
    }

    method CalcNewValue(s: Symbol) returns (newval: Tristate)
      requires Within() && s in valid && s in status && HasTristate(s)
      modifies this
      ensures Grows()
      ensures old(Correct(State(), rank(s)) && status[s] == StatusOf(cfg, env, s, AsValuation(env, want))) ==>
          Calculates(rank(s)) && newval == Formula(cfg, env, s, AsValuation(env, want))
      decreases |all - valid|, 5
    {
      newval := CalcOwnValue(s);
      newval := Max(newval, status[s].reverse);
      if newval == MOD && (ActsBoolean(env, s) || status[s].implied == YES) {
        newval := YES;
      }
    }

    /** The value of the user, or the default and the implications. */
    method CalcOwnValue(s: Symbol) returns (own: Tristate)
      requires Within() && s in valid && s in status
      modifies this
      ensures Grows() && s in status && status[s] == old(status[s])
      ensures Correct(old(State()), rank(s)) ==>
          var st := old(status[s]);
          && Calculates(rank(s))
          && own == if st.visible != NO && env.user(s).Some? then Min(env.user(s).value, st.visible)
                    else Max(DefaultValue(InfoOf(cfg, s).props, 0, AsValuation(env, want)), st.implied)
      decreases |all - valid|, 4, 2
    {
      if status[s].visible != NO && env.user(s).Some? {
        own := Min(env.user(s).value, status[s].visible);
      } else {
        ghost var a := State();
        own := CalcDefault(s);
        assert Kept(a, State(), s);
        if status[s].implied != NO {
          own := Max(own, status[s].implied);
        }
      }
    }

    /** sym_clear_all_valid followed by any queries: without a circle each gets the uncached value. */
    method Recalculate(queries: seq<Symbol>) returns (answers: seq<Tristate>)
      requires Within() && forall q :: q in queries ==> q in all
      modifies this
      ensures Within() && |answers| == |queries|
      ensures Sound() ==> forall i :: 0 <= i < |queries| ==> answers[i] == want(queries[i])
    {
      valid := {};
      answers := [];
      var i := 0;
      while i < |queries|
        invariant 0 <= i <= |queries| && |answers| == i && Within()
        invariant Sound() ==> AllRight(State())
        invariant Sound() ==> forall k :: 0 <= k < i ==> answers[k] == want(queries[k])
      {
        ghost var a := State();
        CalcValue(queries[i]);
        StillRight(a, State(), rank(queries[i]) + 1);
        answers := answers + [Curr(queries[i])];
        i := i + 1;
      }
    }
  }
}
