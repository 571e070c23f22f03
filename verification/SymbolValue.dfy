/** What the value of a symbol is (sym_calc_visibility and sym_calc_value in symbol.c),
    read as one equation per symbol. */
module SymbolValue {
  import opened Expr
  import opened SymbolGraph
  import opened Wrappers

  /** What does not change while values are calculated: modules_val, the user's values,
      the text of symbols without a tristate value, and number parsing. */
  datatype Env = Env(
    modules: bool,
    user: Symbol -> Option<Tristate>,
    text: Symbol -> string,
    number: (string, nat) -> Option<Word>)

  type Values = Symbol -> Tristate

  function HasTristate(s: Symbol): bool {
    s.Type().Boolean? || s.Type().Tri?
  }

  function AsValuation(env: Env, w: Values): Valuation {
    Valuation(env.modules, w,
              s => if HasTristate(s) then TriText(w(s), env.modules) else env.text(s), env.number)
  }

  /** sym_get_type(sym) is S_BOOLEAN. */
  function ActsBoolean(env: Env, s: Symbol): bool {
    s.Type().Boolean? || (s.Type().Tri? && !env.modules)
  }

  /** A boolean takes m for y. */
  function Rounded(env: Env, s: Symbol, t: Tristate): Tristate {
    if t == MOD && ActsBoolean(env, s) then YES else t
  }

  /** The visible, dir_dep.tri, rev_dep.tri and implied.tri fields. */
  datatype Status = Status(visible: Tristate, direct: Tristate, reverse: Tristate, implied: Tristate)

  /** Any of the first n properties that is a visible prompt. */
  function PromptVisible(props: seq<Property>, n: nat, v: Valuation): Tristate
    requires n <= |props|
  {
    if n == 0 then NO
    else
      var t := PromptVisible(props, n - 1, v);
      if props[n - 1].kind.Prompt? then Max(t, ValueOpt(props[n - 1].visible, v)) else t
  }

  /** sym_calc_visibility. */
  function StatusOf(cfg: Config, env: Env, s: Symbol, v: Valuation): Status {
    var info := InfoOf(cfg, s);
    var shown := PromptVisible(info.props, |info.props|, v);
    var visible := Rounded(env, s, shown);
    var dir := ValueOpt(info.dirDep, v);
    var direct := if dir == MOD then YES else dir;
    var rev := if info.revDep.None? then NO else Value(info.revDep.value, v);
    var reverse := Rounded(env, s, rev);
    var imp := if info.implied.None? || direct == NO then NO else Value(info.implied.value, v);
    var implied := Rounded(env, s, imp);
    Status(visible, direct, reverse, implied)
  }

  /** The first default from i on whose condition holds, limited by that condition. */
  function DefaultValue(props: seq<Property>, i: nat, v: Valuation): Tristate
    requires i <= |props|
    decreases |props| - i
  {
    if i == |props| then NO
    else if props[i].kind.Default? && ValueOpt(props[i].visible, v) != NO then
      Min(ValueOpt(props[i].value, v), ValueOpt(props[i].visible, v))
    else DefaultValue(props, i + 1, v)
  }

  /** The value of a tristate symbol from its status and its default. */
  function Combine(env: Env, s: Symbol, st: Status, byDefault: Tristate): Tristate {
    var own :=
      if st.visible != NO && env.user(s).Some? then Min(env.user(s).value, st.visible)
      else Max(byDefault, st.implied);
    var t := Max(own, st.reverse);
    if t == MOD && (ActsBoolean(env, s) || st.implied == YES) then YES else t
  }

  /** The right-hand side of the equation of s: sym_calc_value on a valuation. */
  function Formula(cfg: Config, env: Env, s: Symbol, v: Valuation): Tristate {
    if s == Yes then YES else if s == Mod then MOD
    else if !HasTristate(s) then NO
    else Combine(env, s, StatusOf(cfg, env, s, v), DefaultValue(InfoOf(cfg, s).props, 0, v))
  }

  /** The symbols whose values that right-hand side can use. */
  function ValueDeps(cfg: Config, s: Symbol): set<Symbol> {
    var info := InfoOf(cfg, s);
    RefsOpt(info.revDep) + RefsOpt(info.dirDep) + RefsOpt(info.implied)
    + PropertiesRefs(info.props, |info.props|)
  }

  ghost predicate Equation(cfg: Config, env: Env, w: Values, s: Symbol) {
    w(s) == Formula(cfg, env, s, AsValuation(env, w))
  }

  /** The values of all symbols at once: every equation holds. */
  ghost predicate Solution(cfg: Config, env: Env, w: Values) {
    forall s: Symbol :: Equation(cfg, env, w, s)
  }

  /** No circle of values: each uses only symbols of lower rank. */
  ghost predicate Ranked(cfg: Config, rank: Symbol -> nat) {
    forall s, d {:trigger d in ValueDeps(cfg, s)} :: d in ValueDeps(cfg, s) ==> rank(d) < rank(s)
  }

  lemma RankDrops(cfg: Config, rank: Symbol -> nat, s: Symbol, d: Symbol)
    requires Ranked(cfg, rank) && d in ValueDeps(cfg, s)
    ensures rank(d) < rank(s)
  {
  }

  // ---------------------------------------------------------------- one solution

  ghost predicate Agree(w: Values, x: Values, s: set<Symbol>) {
    forall d :: d in s ==> w(d) == x(d)
  }

  lemma CompareAgree(env: Env, rel: Relation, a: Symbol, b: Symbol, w: Values, x: Values)
    requires w(a) == x(a) && w(b) == x(b)
    ensures AsValuation(env, w).Compare(rel, a, b) == AsValuation(env, x).Compare(rel, a, b)
  {
    var v, u := AsValuation(env, w), AsValuation(env, x);
    assert v.str(a) == u.str(a) && v.str(b) == u.str(b);
    assert v.Kind(a, b) == u.Kind(a, b);
    assert v.Order(a, b) == u.Order(a, b);
  }

  lemma {:induction false} ValueAgree(env: Env, e: Expr, w: Values, x: Values)
    requires Agree(w, x, Refs(e))
    ensures Value(e, AsValuation(env, w)) == Value(e, AsValuation(env, x))
  {
    match e
    case Leaf(_) =>
    case Cmp(rel, a, b) =>
      assert a in Refs(e) && b in Refs(e);
      CompareAgree(env, rel, a, b, w, x);
    case Not(a) => ValueAgree(env, a, w, x);
    case Bin(_, l, r) =>
      ValueAgree(env, l, w, x);
      ValueAgree(env, r, w, x);
  }

  lemma OptAgree(env: Env, e: Option<Expr>, w: Values, x: Values)
    requires Agree(w, x, RefsOpt(e))
    ensures ValueOpt(e, AsValuation(env, w)) == ValueOpt(e, AsValuation(env, x))
  {
    if e.Some? { ValueAgree(env, e.value, w, x); }
  }

  lemma {:induction false} PromptAgree(env: Env, props: seq<Property>, n: nat, w: Values, x: Values)
    requires n <= |props| && Agree(w, x, PropertiesRefs(props, n))
    ensures PromptVisible(props, n, AsValuation(env, w)) == PromptVisible(props, n, AsValuation(env, x))
  {
    if n > 0 {
      PromptAgree(env, props, n - 1, w, x);
      if props[n - 1].kind.Prompt? { OptAgree(env, props[n - 1].visible, w, x); }
    }
  }

  lemma {:induction false} DefaultAgree(env: Env, props: seq<Property>, i: nat, w: Values, x: Values)
    requires i <= |props| && Agree(w, x, PropertiesRefs(props, |props|))
    ensures DefaultValue(props, i, AsValuation(env, w)) == DefaultValue(props, i, AsValuation(env, x))
    decreases |props| - i
  {
    if i < |props| {
      PropertyAmong(props, i, |props|);
      if props[i].kind.Default? {
        OptAgree(env, props[i].visible, w, x);
        OptAgree(env, props[i].value, w, x);
      }
      DefaultAgree(env, props, i + 1, w, x);
    }
  }

  lemma StatusAgree(cfg: Config, env: Env, s: Symbol, w: Values, x: Values)
    requires Agree(w, x, ValueDeps(cfg, s))
    ensures StatusOf(cfg, env, s, AsValuation(env, w)) == StatusOf(cfg, env, s, AsValuation(env, x))
  {
    var info := InfoOf(cfg, s);
    PromptAgree(env, info.props, |info.props|, w, x);
    OptAgree(env, info.dirDep, w, x);
    OptAgree(env, info.revDep, w, x);
    OptAgree(env, info.implied, w, x);
  }

  lemma FormulaAgree(cfg: Config, env: Env, s: Symbol, w: Values, x: Values)
    requires Agree(w, x, ValueDeps(cfg, s))
    ensures Formula(cfg, env, s, AsValuation(env, w)) == Formula(cfg, env, s, AsValuation(env, x))
  {
    StatusAgree(cfg, env, s, w, x);
    DefaultAgree(env, InfoOf(cfg, s).props, 0, w, x);
  }

  /** Without a circle the equations have at most one solution. */
  lemma {:induction false} SolutionUnique(cfg: Config, env: Env, rank: Symbol -> nat, w: Values, x: Values, s: Symbol)
    requires Ranked(cfg, rank) && Solution(cfg, env, w) && Solution(cfg, env, x)
    ensures w(s) == x(s)
    decreases rank(s)
  {
    forall d | d in ValueDeps(cfg, s) ensures w(d) == x(d) {
      SolutionUnique(cfg, env, rank, w, x, d);
    }
    FormulaAgree(cfg, env, s, w, x);
    assert Equation(cfg, env, w, s) && Equation(cfg, env, x, s);
  }

  /** The value of one symbol after n rounds of evaluating every equation. */
  ghost function Round(cfg: Config, env: Env, n: nat, s: Symbol): Tristate {
    if n == 0 then NO else Formula(cfg, env, s, AsValuation(env, Rounds(cfg, env, n - 1)))
  }

  ghost function Rounds(cfg: Config, env: Env, n: nat): Values {
    s => Round(cfg, env, n, s)
  }

  lemma RoundsStep(cfg: Config, env: Env, n: nat, s: Symbol)
    requires n > 0
    ensures Rounds(cfg, env, n)(s) == Formula(cfg, env, s, AsValuation(env, Rounds(cfg, env, n - 1)))
  {
  }

  lemma {:induction false} RoundsSettle(cfg: Config, env: Env, rank: Symbol -> nat, s: Symbol, m: nat, n: nat)
    requires Ranked(cfg, rank) && m > rank(s) && n > rank(s)
    ensures Rounds(cfg, env, m)(s) == Rounds(cfg, env, n)(s)
    decreases rank(s), 1
  {
    RoundsAgree(cfg, env, rank, s, m - 1, n - 1, ValueDeps(cfg, s));
    StepAgree(cfg, env, s, m, n);
  }

  lemma StepAgree(cfg: Config, env: Env, s: Symbol, m: nat, n: nat)
    requires m > 0 && n > 0 && Agree(Rounds(cfg, env, m - 1), Rounds(cfg, env, n - 1), ValueDeps(cfg, s))
    ensures Rounds(cfg, env, m)(s) == Rounds(cfg, env, n)(s)
  {
    FormulaAgree(cfg, env, s, Rounds(cfg, env, m - 1), Rounds(cfg, env, n - 1));
    RoundsStep(cfg, env, m, s);
    RoundsStep(cfg, env, n, s);
  }

  lemma {:induction false} RoundsAgree(cfg: Config, env: Env, rank: Symbol -> nat, s: Symbol, m: nat, n: nat,
          deps: set<Symbol>)
    requires Ranked(cfg, rank) && m >= rank(s) && n >= rank(s) && deps == ValueDeps(cfg, s)
    ensures Agree(Rounds(cfg, env, m), Rounds(cfg, env, n), deps)
    decreases rank(s), 0
  {
    forall d | d in deps ensures Rounds(cfg, env, m)(d) == Rounds(cfg, env, n)(d) {
      RoundsSettle(cfg, env, rank, d, m, n);
    }
  }

  /** The uncached recursive values: every symbol after as many rounds as its rank asks for. */
  ghost function RecursiveValues(cfg: Config, env: Env, rank: Symbol -> nat): Values {
    s => Rounds(cfg, env, rank(s) + 1)(s)
  }

  lemma RecursiveAt(cfg: Config, env: Env, rank: Symbol -> nat, d: Symbol, n: nat)
    requires Ranked(cfg, rank) && n > rank(d)
    ensures RecursiveValues(cfg, env, rank)(d) == Rounds(cfg, env, n)(d)
  {
    RoundsSettle(cfg, env, rank, d, rank(d) + 1, n);
  }

  lemma RecursiveAgree(cfg: Config, env: Env, rank: Symbol -> nat, s: Symbol, deps: set<Symbol>)
    requires Ranked(cfg, rank) && deps == ValueDeps(cfg, s)
    ensures Agree(RecursiveValues(cfg, env, rank), Rounds(cfg, env, rank(s)), deps)
  {
    forall d | d in deps ensures RecursiveValues(cfg, env, rank)(d) == Rounds(cfg, env, rank(s))(d) {
      RecursiveAt(cfg, env, rank, d, rank(s));
    }
  }

  /** Without a circle there is a solution. */
  lemma RecursiveSolves(cfg: Config, env: Env, rank: Symbol -> nat)
    requires Ranked(cfg, rank)
    ensures Solution(cfg, env, RecursiveValues(cfg, env, rank))
  {
    forall s: Symbol ensures Equation(cfg, env, RecursiveValues(cfg, env, rank), s) {
      RecursiveEquation(cfg, env, rank, s);
    }
  }

  lemma RecursiveEquation(cfg: Config, env: Env, rank: Symbol -> nat, s: Symbol)
    requires Ranked(cfg, rank)
    ensures Equation(cfg, env, RecursiveValues(cfg, env, rank), s)
  {
    var w, x := RecursiveValues(cfg, env, rank), Rounds(cfg, env, rank(s));
    RecursiveStep(cfg, env, rank, s);
    RecursiveAgree(cfg, env, rank, s, ValueDeps(cfg, s));
    EquationFrom(cfg, env, w, x, s);
  }

  lemma RecursiveStep(cfg: Config, env: Env, rank: Symbol -> nat, s: Symbol)
    ensures RecursiveValues(cfg, env, rank)(s) == Formula(cfg, env, s, AsValuation(env, Rounds(cfg, env, rank(s))))
  {
    RoundsStep(cfg, env, rank(s) + 1, s);
  }

  lemma EquationFrom(cfg: Config, env: Env, w: Values, x: Values, s: Symbol)
    requires w(s) == Formula(cfg, env, s, AsValuation(env, x)) && Agree(w, x, ValueDeps(cfg, s))
    ensures Equation(cfg, env, w, s)
  {
    FormulaAgree(cfg, env, s, w, x);
  }

  lemma RankedSolves(cfg: Config, env: Env, rank: Symbol -> nat)
    ensures Ranked(cfg, rank) ==> Solution(cfg, env, RecursiveValues(cfg, env, rank))
  {
    if Ranked(cfg, rank) {
      RecursiveSolves(cfg, env, rank);
    }
  }

  /** The texts are what the symbol table guarantees: y, m and n have their letters, and two
      constants never share a text. */
  ghost predicate ValidEnv(env: Env) {
    && env.text(Yes) == "y" && env.text(Mod) == "m" && env.text(No) == "n"
    && env.number("y", 0).None? && env.number("m", 0).None? && env.number("n", 0).None?
    && (forall s: Symbol, t: Symbol :: s.IsConst() && t.IsConst() && s != t ==> env.text(s) != env.text(t))
  }

  /** Calculated values form a valid valuation: a boolean is never m, and a tristate is m
      only with modules. So everything proved about expressions holds for them. */
  lemma SolutionValid(cfg: Config, env: Env, w: Values)
    requires Solution(cfg, env, w) && ValidEnv(env)
    ensures AsValuation(env, w).Valid()
  {
    var v := AsValuation(env, w);
    assert Equation(cfg, env, w, Yes) && Equation(cfg, env, w, Mod) && Equation(cfg, env, w, No);
    forall s: Symbol | s.Type().Boolean? ensures v.tri(s) != MOD {
      assert Equation(cfg, env, w, s);
    }
    forall s: Symbol | s.Type().Tri? && v.tri(s) == MOD ensures v.modules {
      assert Equation(cfg, env, w, s);
    }
  }

  /** A selecting symbol sets a lower limit. The visibility is an upper limit for the user's
      value, except that an implied y turns m into y. */
  lemma ValueLimits(cfg: Config, env: Env, w: Values, s: Symbol)
    requires Solution(cfg, env, w) && HasTristate(s)
    ensures var st := StatusOf(cfg, env, s, AsValuation(env, w));
            && w(s) >= st.reverse
            && (st.visible != NO && env.user(s).Some? && st.reverse <= st.visible ==>
                  (w(s) > st.visible <==> st.visible == MOD && st.implied == YES
                                          && (env.user(s) != Some(NO) || st.reverse == MOD)))
  {
    assert Equation(cfg, env, w, s);
  }

  // ---------------------------------------------------------------- the check and the values

  /** No symbol's value depends on itself. */
  ghost predicate CircleFree(cfg: Config) {
    exists rank: Symbol -> nat :: Ranked(cfg, rank)
  }

  /** The configuration with two more properties for every symbol, whose conditions are its
      direct dependency and its implications: what sym_check_deps would have to follow. */
  function Extended(cfg: Config): Config {
    map s | s in cfg :: cfg[s].(props :=
      cfg[s].props + [Property(OtherKind, cfg[s].dirDep, None), Property(OtherKind, cfg[s].implied, None)])
  }

  lemma {:induction false} PropertiesAppend(p: seq<Property>, q: seq<Property>, n: nat)
    requires n <= |q|
    ensures PropertiesRefs(p + q, |p| + n) == PropertiesRefs(p, |p|) + PropertiesRefs(q, n)
  {
    if n == 0 {
      PropertiesPrefix(p, q, |p|);
    } else {
      PropertiesAppend(p, q, n - 1);
    }
  }

  lemma {:induction false} PropertiesPrefix(p: seq<Property>, q: seq<Property>, n: nat)
    requires n <= |p|
    ensures PropertiesRefs(p + q, n) == PropertiesRefs(p, n)
  {
    if n > 0 {
      PropertiesPrefix(p, q, n - 1);
    }
  }

  lemma ExtendedDeps(cfg: Config, s: Symbol)
    ensures Deps(Extended(cfg), s) == ValueDeps(cfg, s)
  {
    if s in cfg {
      var info := cfg[s];
      var more := [Property(OtherKind, info.dirDep, None), Property(OtherKind, info.implied, None)];
      PropertiesAppend(info.props, more, 2);
      assert PropertiesRefs(more, 1) == RefsOpt(info.dirDep);
      assert PropertiesRefs(more, 2) == RefsOpt(info.dirDep) + RefsOpt(info.implied);
    }
  }

  /** Values use only symbols that are configured or mentioned. */
  lemma ValuesClosed(cfg: Config, s: Symbol)
    ensures ValueDeps(cfg, s) <= Universe(Extended(cfg))
  {
    ExtendedDeps(cfg, s);
  }

  /** The place in an order of the extended configuration is a rank. */
  ghost function RankIn(order: seq<Symbol>): Symbol -> nat {
    s => if s in order then Rank(order, s) else 0
  }

  lemma OrderRanks(cfg: Config, order: seq<Symbol>)
    requires Ordered(Extended(cfg), order) && forall s :: s in cfg ==> s in order
    ensures Ranked(cfg, RankIn(order))
  {
    forall s, d | d in ValueDeps(cfg, s) ensures RankIn(order)(d) < RankIn(order)(s) {
      ExtendedDeps(cfg, s);
      assert s in cfg;
      RankDecreases(Extended(cfg), order, s, d);
    }
  }

  lemma {:induction false} RankFalls(cfg: Config, rank: Symbol -> nat, c: seq<Symbol>, n: nat)
    requires Ranked(cfg, rank) && IsChain(Extended(cfg), c) && n < |c|
    ensures rank(c[n]) <= rank(c[0])
  {
    if n > 0 {
      RankFalls(cfg, rank, c, n - 1);
      assert Follows(Extended(cfg), c, n - 1);
      ExtendedDeps(cfg, c[n - 1]);
      RankDrops(cfg, rank, c[n - 1], c[n]);
    }
  }

  /** No value depends on itself if and only if the extended configuration has no cycle. */
  lemma CircleFreeExact(cfg: Config)
    ensures CircleFree(cfg) <==> Acyclic(Extended(cfg))
  {
    if Acyclic(Extended(cfg)) {
      AcyclicExact(Extended(cfg));
      var order :| Ordered(Extended(cfg), order) && forall s :: s in Extended(cfg) ==> s in order;
      OrderRanks(cfg, order);
    }
    if rank :| Ranked(cfg, rank) {
      forall c: seq<Symbol> ensures !IsCycle(Extended(cfg), c) {
        if IsCycle(Extended(cfg), c) {
          RankFalls(cfg, rank, c, |c| - 1);
          ExtendedDeps(cfg, c[|c| - 1]);
          RankDrops(cfg, rank, c[|c| - 1], c[0]);
        }
      }
    }
  }

  /** The symbols that a value uses and sym_check_deps does not follow. */
  function Unchecked(cfg: Config, s: Symbol): set<Symbol> {
    RefsOpt(InfoOf(cfg, s).dirDep) + RefsOpt(InfoOf(cfg, s).implied) - Deps(cfg, s)
  }

  function Next(c: seq<Symbol>, i: nat): Symbol
    requires i < |c|
  {
    c[if i + 1 < |c| then i + 1 else 0]
  }

  /** A direct dependency or an implication that the check does not follow closes c. */
  ghost predicate ClosedUnchecked(cfg: Config, c: seq<Symbol>) {
    && IsCycle(Extended(cfg), c)
    && exists i: nat :: i < |c| && Next(c, i) in Unchecked(cfg, c[i])
  }

  /** A passed check leaves a circle of values exactly where unchecked dependencies close one. */
  lemma PassedCheckExact(cfg: Config)
    requires Acyclic(cfg)
    ensures CircleFree(cfg) <==> forall c: seq<Symbol> :: !ClosedUnchecked(cfg, c)
  {
    CircleFreeExact(cfg);
    forall c: seq<Symbol> | IsCycle(Extended(cfg), c) ensures ClosedUnchecked(cfg, c) {
      if !ClosedUnchecked(cfg, c) {
        forall i: nat | i < |c| && Next(c, i) in Deps(Extended(cfg), c[i]) ensures Next(c, i) in Deps(cfg, c[i]) {
          ExtendedDeps(cfg, c[i]);
          assert Next(c, i) !in Unchecked(cfg, c[i]);
        }
        CycleMoves(cfg, Extended(cfg), c);
      }
    }
  }

  /** A cycle whose steps another configuration follows, too, is one there. */
  lemma CycleMoves(cfg: Config, x: Config, c: seq<Symbol>)
    requires IsCycle(x, c)
    requires forall i: nat {:trigger Next(c, i)} :: i < |c| && Next(c, i) in Deps(x, c[i]) ==> Next(c, i) in Deps(cfg, c[i])
    ensures IsCycle(cfg, c)
  {
    forall i: nat | i + 1 < |c| ensures Follows(cfg, c, i) {
      assert Follows(x, c, i);
      assert Next(c, i) == c[i + 1];
    }
    assert Next(c, |c| - 1) == c[0];
  }

  /** An implication that the check does not follow closes c. */
  ghost predicate ClosedByImplication(cfg: Config, c: seq<Symbol>) {
    && IsCycle(Extended(cfg), c)
    && exists i: nat :: i < |c| && Next(c, i) in RefsOpt(InfoOf(cfg, c[i]).implied) - Deps(cfg, c[i])
  }

  /** Direct dependencies mention nothing but n that the check does not follow. */
  ghost predicate DirectCovered(cfg: Config) {
    forall s :: RefsOpt(InfoOf(cfg, s).dirDep) <= Deps(cfg, s) + {No}
  }

  /** Where that is so only implications can close a circle that the check misses. */
  lemma PassedCheckImplications(cfg: Config)
    requires Acyclic(cfg) && DirectCovered(cfg) && No !in cfg
    ensures CircleFree(cfg) <==> forall c: seq<Symbol> :: !ClosedByImplication(cfg, c)
  {
    PassedCheckExact(cfg);
    forall c: seq<Symbol> ensures ClosedUnchecked(cfg, c) <==> ClosedByImplication(cfg, c) {
      if ClosedUnchecked(cfg, c) {
        var i: nat :| i < |c| && Next(c, i) in Unchecked(cfg, c[i]);
        if Next(c, i) !in RefsOpt(InfoOf(cfg, c[i]).implied) {
          assert Next(c, i) == No;
          NotOnCycle(cfg, c, if i + 1 < |c| then i + 1 else 0);
        }
      }
    }
  }

  /** A symbol without conditions is on no cycle. */
  lemma NotOnCycle(cfg: Config, c: seq<Symbol>, i: nat)
    requires IsCycle(Extended(cfg), c) && i < |c|
    ensures c[i] in cfg
  {
    if i + 1 < |c| {
      assert Follows(Extended(cfg), c, i);
    }
    assert Next(c, i) in Deps(Extended(cfg), c[i]);
  }

  /** Where no value depends on itself the check passes. */
  lemma CircleFreePasses(cfg: Config)
    requires CircleFree(cfg)
    ensures Acyclic(cfg)
  {
    CircleFreeExact(cfg);
    forall c: seq<Symbol> ensures !IsCycle(cfg, c) {
      if IsCycle(cfg, c) {
        forall i: nat | i < |c| && Next(c, i) in Deps(cfg, c[i]) ensures Next(c, i) in Deps(Extended(cfg), c[i]) {
          ExtendedDeps(cfg, c[i]);
        }
        CycleMoves(Extended(cfg), cfg, c);
      }
    }
  }

  /** A symbol as menu_finalize leaves it when it implies one symbol and is implied by it,
      without any condition: its own property, and the implication. */
  function Implies(a: Symbol, b: Symbol): Info {
    Info(None, None, Some(Leaf(b)), [Property(OtherKind, None, Some(Leaf(a))), Property(Imply, None, Some(Leaf(b)))])
  }

  /** Such circles exist: two symbols that imply each other pass the check. */
  lemma ImplyCircleUnchecked(a: Symbol, b: Symbol)
    requires a != b
    ensures var cfg := map[a := Implies(a, b), b := Implies(b, a)];
            Acyclic(cfg) && !CircleFree(cfg)
  {
    var cfg := map[a := Implies(a, b), b := Implies(b, a)];
    forall s: Symbol ensures Deps(cfg, s) == {} {
      NoRefs(InfoOf(cfg, s).props, |InfoOf(cfg, s).props|);
    }
    assert b in ValueDeps(cfg, a) && a in ValueDeps(cfg, b);
    forall rank: Symbol -> nat ensures !Ranked(cfg, rank) {
      if Ranked(cfg, rank) {
        RankDrops(cfg, rank, a, b);
        RankDrops(cfg, rank, b, a);
      }
    }
  }

  /** The two symbols are t and nothing else is set. */
  function CircleValues(a: Symbol, b: Symbol, t: Tristate): Values {
    s => if s == Yes then YES else if s == Mod then MOD else if s == a || s == b then t else NO
  }

  /** In such a circle both symbols may be n and both may be y. */
  lemma ImplyCircleTwoSolutions(a: Symbol, b: Symbol, env: Env)
    requires a != b && a.Type().Boolean? && b.Type().Boolean?
    ensures var cfg := map[a := Implies(a, b), b := Implies(b, a)];
            Solution(cfg, env, CircleValues(a, b, NO)) && Solution(cfg, env, CircleValues(a, b, YES))
  {
    CircleSolution(a, b, env, NO);
    CircleSolution(a, b, env, YES);
  }

  lemma CircleSolution(a: Symbol, b: Symbol, env: Env, t: Tristate)
    requires a != b && a.Type().Boolean? && b.Type().Boolean? && t != MOD
    ensures Solution(map[a := Implies(a, b), b := Implies(b, a)], env, CircleValues(a, b, t))
  {
    var cfg, w := map[a := Implies(a, b), b := Implies(b, a)], CircleValues(a, b, t);
    var v := AsValuation(env, w);
    forall s: Symbol ensures Equation(cfg, env, w, s) {
      NothingSet(cfg, env, s, v);
      if s == a || s == b {
        assert InfoOf(cfg, s).implied == Some(Leaf(if s == a then b else a));
      }
    }
  }

  /** Without prompts and defaults a symbol is what selects or implies it. */
  lemma NothingSet(cfg: Config, env: Env, s: Symbol, v: Valuation)
    requires forall i :: 0 <= i < |InfoOf(cfg, s).props| ==>
        !InfoOf(cfg, s).props[i].kind.Prompt? && !InfoOf(cfg, s).props[i].kind.Default?
    ensures StatusOf(cfg, env, s, v).visible == NO && DefaultValue(InfoOf(cfg, s).props, 0, v) == NO
  {
    var props := InfoOf(cfg, s).props;
    NeitherPrompt(props, |props|, v);
    NeitherDefault(props, 0, v);
  }

  lemma {:induction false} NeitherPrompt(props: seq<Property>, n: nat, v: Valuation)
    requires n <= |props| && forall i :: 0 <= i < n ==> !props[i].kind.Prompt?
    ensures PromptVisible(props, n, v) == NO
  {
    if n > 0 {
      NeitherPrompt(props, n - 1, v);
    }
  }

  lemma {:induction false} NeitherDefault(props: seq<Property>, i: nat, v: Valuation)
    requires i <= |props| && forall k :: i <= k < |props| ==> !props[k].kind.Default?
    ensures DefaultValue(props, i, v) == NO
    decreases |props| - i
  {
    if i < |props| {
      NeitherDefault(props, i + 1, v);
    }
  }

  lemma {:induction false} NoRefs(props: seq<Property>, n: nat)
    requires n <= |props| && forall i :: 0 <= i < n ==> PropertyRefs(props[i]) == {}
    ensures PropertiesRefs(props, n) == {}
  {
    if n > 0 {
      NoRefs(props, n - 1);
    }
  }
}
