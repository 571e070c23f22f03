/** The symbols of a configuration with their conditions, and the dependencies that
    sym_check_deps follows (struct symbol and struct property in expr.h). */
module SymbolGraph {
  import opened Expr
  import opened Wrappers

  datatype PropertyKind = Prompt | Default | Select | Imply | Choice | OtherKind

  datatype Property = Property(kind: PropertyKind, visible: Option<Expr>, value: Option<Expr>)

  datatype Info = Info(revDep: Option<Expr>, dirDep: Option<Expr>, implied: Option<Expr>, props: seq<Property>)

  /** The symbols of a configuration; constants need no entry. */
  type Config = map<Symbol, Info>

  function InfoOf(cfg: Config, s: Symbol): Info {
    if s in cfg then cfg[s] else Info(None, None, None, [])
  }

  /** The symbols an expression mentions. */
  function Refs(e: Expr): set<Symbol> {
    match e
    case Leaf(s) => {s}
    case Cmp(_, a, b) => {a, b}
    case Not(a) => Refs(a)
    case Bin(_, l, r) => Refs(l) + Refs(r)
  }

  function RefsOpt(e: Option<Expr>): set<Symbol> {
    if e.None? then {} else Refs(e.value)
  }

  /** What sym_check_sym_deps follows of one property. */
  function PropertyRefs(p: Property): set<Symbol> {
    if p.kind.Choice? || p.kind.Select? then {}
    else RefsOpt(p.visible) + (if p.kind.Default? then RefsOpt(p.value) else {})
  }

  function PropertiesRefs(props: seq<Property>, n: nat): set<Symbol>
    requires n <= |props|
  {
    if n == 0 then {} else PropertiesRefs(props, n - 1) + PropertyRefs(props[n - 1])
  }

  lemma {:induction false} PropertyAmong(props: seq<Property>, i: nat, n: nat)
    requires i < n <= |props|
    ensures PropertyRefs(props[i]) <= PropertiesRefs(props, n)
  {
    if i < n - 1 {
      PropertyAmong(props, i, n - 1);
    }
  }

  /** The symbols sym_check_deps goes on to from s. */
  function Deps(cfg: Config, s: Symbol): set<Symbol> {
    RefsOpt(InfoOf(cfg, s).revDep) + PropertiesRefs(InfoOf(cfg, s).props, |InfoOf(cfg, s).props|)
  }

  predicate Mentioned(e: Option<Expr>, d: Symbol) {
    e.Some? && d in Refs(e.value)
  }

  /** The condition of a prompt, a default, an imply or the property of an entry mentions d, or
      the value of a default does. Choices and selections are not followed. */
  predicate PropertyMentions(p: Property, d: Symbol) {
    && p.kind != Choice && p.kind != Select
    && (Mentioned(p.visible, d) || (p.kind == Default && Mentioned(p.value, d)))
  }

  lemma {:induction false} PropertiesMention(props: seq<Property>, n: nat, d: Symbol)
    requires n <= |props|
    ensures d in PropertiesRefs(props, n) <==> exists i :: 0 <= i < n && PropertyMentions(props[i], d)
  {
    if n > 0 {
      PropertiesMention(props, n - 1, d);
    }
  }

  predicate SymbolMentions(info: Info, d: Symbol) {
    Mentioned(info.revDep, d) || exists i :: 0 <= i < |info.props| && PropertyMentions(info.props[i], d)
  }

  /** The search goes on from s to the symbols that its reverse dependency and its properties
      mention. */
  lemma DepsExact(cfg: Config, s: Symbol, d: Symbol)
    ensures d in Deps(cfg, s) <==> s in cfg && SymbolMentions(cfg[s], d)
  {
    PropertiesMention(InfoOf(cfg, s).props, |InfoOf(cfg, s).props|, d);
  }

  ghost predicate Follows(cfg: Config, c: seq<Symbol>, i: nat)
    requires i + 1 < |c|
  {
    c[i + 1] in Deps(cfg, c[i])
  }

  /** Each element depends on the next. */
  ghost predicate IsChain(cfg: Config, c: seq<Symbol>) {
    forall i: nat {:trigger Follows(cfg, c, i)} :: i + 1 < |c| ==> Follows(cfg, c, i)
  }

  /** A closed chain of dependencies. */
  ghost predicate IsCycle(cfg: Config, c: seq<Symbol>) {
    c != [] && IsChain(cfg, c) && c[0] in Deps(cfg, c[|c| - 1])
  }

  ghost predicate Acyclic(cfg: Config) {
    forall c: seq<Symbol> :: !IsCycle(cfg, c)
  }

  /** Every dependency of the i-th element comes before it. */
  ghost predicate Settled(cfg: Config, order: seq<Symbol>, i: nat)
    requires i < |order|
  {
    forall d :: d in Deps(cfg, order[i]) ==> d in order[..i]
  }

  ghost predicate Ordered(cfg: Config, order: seq<Symbol>) {
    forall i: nat {:trigger Settled(cfg, order, i)} :: i < |order| ==> Settled(cfg, order, i)
  }

  /** The place of a symbol in an order. */
  ghost function Rank(order: seq<Symbol>, s: Symbol): (r: nat)
    requires s in order
    ensures r < |order| && order[r] == s && s !in order[..r]
  {
    if order[0] == s then 0
    else
      assert order == [order[0]] + order[1..];
      1 + Rank(order[1..], s)
  }

  /** A dependency comes strictly before in such an order. */
  lemma RankDecreases(cfg: Config, order: seq<Symbol>, s: Symbol, d: Symbol)
    requires Ordered(cfg, order) && s in order && d in Deps(cfg, s)
    ensures d in order && Rank(order, d) < Rank(order, s)
  {
    assert Settled(cfg, order, Rank(order, s));
    assert d in order[..Rank(order, s)];
  }

  /** Along a chain the rank falls at every step. */
  lemma {:induction false} ChainRank(cfg: Config, order: seq<Symbol>, c: seq<Symbol>, n: nat)
    requires Ordered(cfg, order) && IsChain(cfg, c) && n < |c| && c[0] in order
    ensures c[n] in order && Rank(order, c[n]) + n <= Rank(order, c[0])
  {
    if n > 0 {
      ChainRank(cfg, order, c, n - 1);
      assert Follows(cfg, c, n - 1);
      RankDecreases(cfg, order, c[n - 1], c[n]);
    }
  }

  /** An order of all symbols leaves no room for a cycle. */
  lemma OrderedAcyclic(cfg: Config, order: seq<Symbol>)
    requires Ordered(cfg, order) && forall s :: s in cfg ==> s in order
    ensures Acyclic(cfg)
  {
    forall c: seq<Symbol> ensures !IsCycle(cfg, c) {
      if IsCycle(cfg, c) {
        if |c| > 1 { assert Follows(cfg, c, 0); }
        assert c[0] in cfg;
        ChainRank(cfg, order, c, |c| - 1);
        RankDecreases(cfg, order, c[|c| - 1], c[0]);
      }
    }
  }

  // ---------------------------------------------------------------- an order for every acyclic graph

  lemma FewerLeft<T>(all: set<T>, before: set<T>, after: set<T>)
    requires before <= after
    ensures |all - after| <= |all - before|
    ensures after != before && after <= all ==> |all - after| < |all - before|
  {
    assert all - before == (all - after) + (all * after - before);
    if after != before && after <= all {
      var x :| x in after && x !in before;
      assert x in all * after - before;
    }
  }

  lemma ChainSnoc(cfg: Config, c: seq<Symbol>, s: Symbol)
    requires IsChain(cfg, c) && (c != [] ==> s in Deps(cfg, c[|c| - 1]))
    ensures IsChain(cfg, c + [s])
  {
    forall i: nat | i + 1 < |c + [s]| ensures Follows(cfg, c + [s], i) {
      if i + 1 < |c| { assert Follows(cfg, c, i); }
    }
  }

  lemma ChainCut(cfg: Config, c: seq<Symbol>, i: nat, j: nat)
    requires IsChain(cfg, c) && i <= j <= |c|
    ensures IsChain(cfg, c[i..j])
  {
    forall k: nat | k + 1 < j - i ensures Follows(cfg, c[i..j], k) {
      assert Follows(cfg, c, i + k);
    }
  }

  /** A chain that comes back to one of its elements closes a cycle. */
  lemma Closes(cfg: Config, c: seq<Symbol>, i: nat)
    requires IsChain(cfg, c) && i < |c| && c[i] in Deps(cfg, c[|c| - 1])
    ensures IsCycle(cfg, c[i..])
  {
    ChainCut(cfg, c, i, |c|);
    assert c[i..|c|] == c[i..];
    assert c[i..][|c[i..]| - 1] == c[|c| - 1];
  }

  ghost predicate GoesOn(cfg: Config, left: set<Symbol>, s: Symbol) {
    exists d :: d in Deps(cfg, s) && d in left
  }

  /** Without a cycle a chain cannot go on for ever among finitely many symbols. */
  lemma {:induction false} SomeEnd(cfg: Config, left: set<Symbol>, c: seq<Symbol>, met: set<Symbol>) returns (s: Symbol)
    requires Acyclic(cfg) && IsChain(cfg, c) && c != [] && c[|c| - 1] in left
    requires met <= left && forall x :: x in met <==> x in c
    ensures s in left && !GoesOn(cfg, left, s)
    decreases |left - met|
  {
    s := c[|c| - 1];
    if GoesOn(cfg, left, s) {
      var d :| d in Deps(cfg, s) && d in left;
      if d in met {
        var i :| 0 <= i < |c| && c[i] == d;
        Closes(cfg, c, i);
      } else {
        ChainSnoc(cfg, c, d);
        FewerLeft(left, met, met + {d});
        s := SomeEnd(cfg, left, c + [d], met + {d});
      }
    }
  }

  lemma OrderedSnoc(cfg: Config, order: seq<Symbol>, sym: Symbol)
    requires Ordered(cfg, order) && forall d :: d in Deps(cfg, sym) ==> d in order
    ensures Ordered(cfg, order + [sym])
  {
    forall i: nat | i < |order + [sym]| ensures Settled(cfg, order + [sym], i) {
      assert (order + [sym])[..i] == order[..i];
      if i < |order| { assert Settled(cfg, order, i); } else { assert order[..i] == order; }
    }
  }

  /** An order is completed by the symbols that are left. */
  lemma {:induction false} Complete(cfg: Config, order: seq<Symbol>, left: set<Symbol>) returns (full: seq<Symbol>)
    requires Acyclic(cfg) && Ordered(cfg, order)
    requires forall s, d :: s in left && d in Deps(cfg, s) ==> d in left || d in order
    ensures Ordered(cfg, full) && forall s :: s in left || s in order ==> s in full
    decreases |left|
  {
    full := order;
    if left != {} {
      var x :| x in left;
      var s := SomeEnd(cfg, left, [x], {x});
      forall d | d in Deps(cfg, s) ensures d in order {
        assert s in left && !(d in left);
      }
      OrderedSnoc(cfg, order, s);
      full := Complete(cfg, order + [s], left - {s});
    }
  }

  /** Every symbol that is configured or mentioned. */
  function Universe(cfg: Config): set<Symbol> {
    cfg.Keys + set s, d | s in cfg && d in Deps(cfg, s) :: d
  }

  /** A graph has no cycle if and only if its symbols have an order with every dependency earlier. */
  lemma AcyclicExact(cfg: Config)
    ensures Acyclic(cfg) <==> exists order :: Ordered(cfg, order) && forall s :: s in cfg ==> s in order
  {
    if Acyclic(cfg) {
      var order := Complete(cfg, [], Universe(cfg));
    }
    if order :| Ordered(cfg, order) && forall s :: s in cfg ==> s in order {
      OrderedAcyclic(cfg, order);
    }
  }
}
