/** The search for recursive dependencies (sym_check_deps and its helpers in symbol.c). */
module SymbolCheck {
  import opened Expr
  import opened SymbolGraph
  import opened Wrappers

  predicate Configured(cfg: Config, s: Symbol) {
    s in cfg
  }

  /** The search may go on from the top of the stack to d. */
  ghost predicate CanGo(cfg: Config, all: set<Symbol>, stack: seq<Symbol>, d: Symbol) {
    d in all && (stack != [] ==> d in Deps(cfg, stack[|stack| - 1]))
  }

  ghost predicate CanGoTo(cfg: Config, all: set<Symbol>, stack: seq<Symbol>, s: set<Symbol>) {
    forall d {:trigger CanGo(cfg, all, stack, d)} :: d in s ==> CanGo(cfg, all, stack, d)
  }

  ghost predicate BeginsOn(report: seq<Symbol>, stack: seq<Symbol>) {
    report != [] && report[0] in stack
  }

  /** What a call returns is told by the reports it adds: a symbol exactly when the last of
      them begins on the stack, and then that symbol. No earlier one begins on the stack,
      since the call is over as soon as one does. */
  ghost predicate Answers(before: seq<seq<Symbol>>, after: seq<seq<Symbol>>, stack: seq<Symbol>, r: Option<Symbol>) {
    && before <= after
    && (forall i {:trigger after[i]} ::
          |before| <= i < |after| - (if r.Some? then 1 else 0) ==> !BeginsOn(after[i], stack))
    && (r.Some? ==>
          |before| < |after| && BeginsOn(after[|after| - 1], stack) && after[|after| - 1][0] == r.value)
  }

  /** A report that begins with the topmost symbol of the stack is dealt with when that leaves. */
  lemma AnswersBelow(before: seq<seq<Symbol>>, after: seq<seq<Symbol>>, base: seq<Symbol>, sym: Symbol, r: Option<Symbol>)
    requires Answers(before, after, base + [sym], r) && sym !in base
    ensures Answers(before, after, base, if r == Some(sym) then None else r)
  {
    forall i | |before| <= i < |after| - (if r.Some? then 1 else 0) ensures !BeginsOn(after[i], base) {
      assert !BeginsOn(after[i], base + [sym]);
    }
  }

  ghost predicate Closed(cfg: Config, all: set<Symbol>) {
    forall s {:trigger Configured(cfg, s)} :: Configured(cfg, s) ==> Deps(cfg, s) <= all
  }

  lemma {:induction false} PropertiesCovered(props: seq<Property>, n: nat, s: set<Symbol>)
    requires n <= |props| && forall k :: 0 <= k < n ==> PropertyRefs(props[k]) <= s
    ensures PropertiesRefs(props, n) <= s
  {
    if n > 0 {
      PropertiesCovered(props, n - 1, s);
    }
  }

  class Search {
    const cfg: Config
    ghost const all: set<Symbol>     // every symbol the search can meet
    var check: set<Symbol>           // symbols with SYMBOL_CHECK
    var checked: set<Symbol>         // symbols with SYMBOL_CHECKED
    var stack: seq<Symbol>           // the dep_stack, check_top last
    var reports: seq<seq<Symbol>>    // the chains printed by sym_check_print_recursive
    ghost var order: seq<Symbol>     // the symbols whose check is over
    ghost var done: set<Symbol>      // the same as a set

    constructor (cfg: Config)
      ensures Valid() && this.cfg == cfg && all == Universe(cfg) && stack == [] && reports == [] && order == []
    {
      this.cfg := cfg;
      all := Universe(cfg);
      check, checked, stack, reports, order, done := {}, {}, [], [], [], {};
    }

    /** Between two calls: the flagged symbols are the ones on the stack, the stack is a
        chain, every report is a cycle, and without a report the finished symbols are in
        dependency order. */
    ghost predicate Valid()
      reads this
    {
      && (forall s :: s in check <==> s in stack)
      && check <= checked <= all
      && Closed(cfg, all) && cfg.Keys <= all
      && IsChain(cfg, stack)
      && (forall r :: r in reports ==> IsCycle(cfg, r))
      && (forall s :: s in checked ==> s in check || s in done)
      && (forall s :: s in done <==> s in order)
      && (reports == [] ==> Ordered(cfg, order))
    }

    /** What a call leaves in place. */
    twostate predicate Extends()
      reads this
    {
      && stack == old(stack)
      && old(checked) <= checked && old(done) <= done
    }

    /** sym_check_print_recursive, without choices: the stack from the topmost frame of
        the repeated symbol on. */
    method PrintRecursive(last: Symbol)
      requires Valid() && last in check && stack != [] && last in Deps(cfg, stack[|stack| - 1])
      modifies this`reports
      ensures Valid() && |reports| == |old(reports)| + 1 && reports[..|old(reports)|] == old(reports)
      ensures exists i :: 0 <= i < |stack| && stack[i] == last && reports[|old(reports)|] == stack[i..]
    {
      var i := |stack|;
      while i > 0 && stack[i - 1] != last
        invariant 0 <= i <= |stack| && last in stack[..i]
      {
        i := i - 1;
      }
      if i == 0 {
        assert false;  // "unexpected recursive dependency error"
      }
      ChainCut(cfg, stack, i - 1, |stack|);
      assert stack[i - 1..|stack|] == stack[i - 1..];
      reports := reports + [stack[i - 1..]];
    }

    /** sym_check_expr_deps. */
    method CheckExprDeps(e: Expr) returns (r: Option<Symbol>)
      requires Valid() && stack != [] && CanGoTo(cfg, all, stack, Refs(e))
      modifies this
      ensures Valid() && Extends() && Answers(old(reports), reports, stack, r)
      ensures reports == [] ==> Refs(e) <= done
      decreases |all - checked|, 1, e, 1
    {
      match e
      case Bin(_, left, right) => r := CheckOperands(e);
      case Not(a) => r := CheckExprDeps(a);
      case Cmp(_, a, b) => r := CheckCompared(e);
      case Leaf(s) => r := CheckDeps(s);
    }

    method CheckOperands(e: Expr) returns (r: Option<Symbol>)
      requires e.Bin?
      requires Valid() && stack != [] && CanGoTo(cfg, all, stack, Refs(e))
      modifies this
      ensures Valid() && Extends() && Answers(old(reports), reports, stack, r)
      ensures reports == [] ==> Refs(e) <= done
      decreases |all - checked|, 1, e, 0
    {
      ghost var before := checked;
      r := CheckExprDeps(e.left);
      if r.None? {
        FewerLeft(all, before, checked);
        r := CheckExprDeps(e.right);
      }
    }

    method CheckCompared(e: Expr) returns (r: Option<Symbol>)
      requires e.Cmp?
      requires Valid() && stack != [] && CanGoTo(cfg, all, stack, Refs(e))
      modifies this
      ensures Valid() && Extends() && Answers(old(reports), reports, stack, r)
      ensures reports == [] ==> Refs(e) <= done
      decreases |all - checked|, 0, 2
    {
      ghost var before := checked;
      r := CheckDeps(e.lhs);
      if r.None? {
        FewerLeft(all, before, checked);
        r := CheckDeps(e.rhs);
      }
    }

    method CheckExprDepsOpt(e: Option<Expr>) returns (r: Option<Symbol>)
      requires Valid() && stack != [] && CanGoTo(cfg, all, stack, RefsOpt(e))
      modifies this
      ensures Valid() && Extends() && Answers(old(reports), reports, stack, r)
      ensures reports == [] ==> RefsOpt(e) <= done
      decreases |all - checked|, 2
    {
      if e.None? {
        return None;
      }
      r := CheckExprDeps(e.value);
    }

    /** sym_check_sym_deps between its push and its pop. */
    method CheckSymDeps(sym: Symbol) returns (r: Option<Symbol>)
      requires Valid() && stack != [] && sym == stack[|stack| - 1]
      modifies this
      ensures Valid() && Extends() && Answers(old(reports), reports, stack, r)
      ensures reports == [] ==> Deps(cfg, sym) <= done
      decreases |all - checked|, 5
    {
      var info := InfoOf(cfg, sym);
      assert Configured(cfg, sym) || Deps(cfg, sym) == {};
      assert CanGoTo(cfg, all, stack, Deps(cfg, sym));
      ghost var before := checked;
      r := CheckExprDepsOpt(info.revDep);
      if r.None? {
        FewerLeft(all, before, checked);
        forall k | 0 <= k < |info.props| ensures CanGoTo(cfg, all, stack, PropertyRefs(info.props[k])) {
          PropertyAmong(info.props, k, |info.props|);
        }
        r := CheckProperties(info.props);
        if reports == [] {
          PropertiesCovered(info.props, |info.props|, done);
        }
      }
    }

    /** Its loop over the properties. */
    method CheckProperties(props: seq<Property>) returns (r: Option<Symbol>)
      requires Valid() && stack != []
      requires forall k :: 0 <= k < |props| ==> CanGoTo(cfg, all, stack, PropertyRefs(props[k]))
      modifies this
      ensures Valid() && Extends() && Answers(old(reports), reports, stack, r)
      ensures reports == [] ==> forall k :: 0 <= k < |props| ==> PropertyRefs(props[k]) <= done
      decreases |all - checked|, 4
    {
      ghost var before := checked;
      r := None;
      var i := 0;
      while i < |props|
        invariant 0 <= i <= |props|
        invariant Valid() && Extends() && Answers(old(reports), reports, stack, r) && r.None?
        invariant reports == [] ==> forall k :: 0 <= k < i ==> PropertyRefs(props[k]) <= done
      {
        FewerLeft(all, before, checked);
        r := CheckProperty(props[i]);
        if r.Some? {
          return;
        }
        i := i + 1;
      }
    }

    /** One round of the loop over the properties. */
    method CheckProperty(prop: Property) returns (r: Option<Symbol>)
      requires Valid() && stack != [] && CanGoTo(cfg, all, stack, PropertyRefs(prop))
      modifies this
      ensures Valid() && Extends() && Answers(old(reports), reports, stack, r)
      ensures reports == [] ==> PropertyRefs(prop) <= done
      decreases |all - checked|, 3
    {
      if prop.kind.Choice? || prop.kind.Select? {
        return None;
      }
      ghost var before := checked;
      r := CheckExprDepsOpt(prop.visible);
      if r.Some? || !prop.kind.Default? {
        return;
      }
      FewerLeft(all, before, checked);
      r := CheckExprDepsOpt(prop.value);
    }

    /** The flags are set and the symbol goes on the stack. */
    method Enter(sym: Symbol)
      requires Valid() && sym in all && sym !in checked
      requires stack != [] ==> sym in Deps(cfg, stack[|stack| - 1])
      modifies this`check, this`checked, this`stack
      ensures Valid() && stack == old(stack) + [sym]
      ensures checked == old(checked) + {sym}
    {
      check, checked := check + {sym}, checked + {sym};
      stack := stack + [sym];
      ChainSnoc(cfg, old(stack), sym);
    }

    /** The symbol is finished. */
    method Leave(sym: Symbol)
      requires Valid() && stack != [] && sym == stack[|stack| - 1] && sym !in stack[..|stack| - 1]
      requires reports == [] ==> Deps(cfg, sym) <= done
      modifies this`check, this`stack, this`order, this`done
      ensures Valid() && stack == old(stack[..|stack| - 1])
      ensures order == old(order) + [sym] && done == old(done) + {sym}
    {
      if reports == [] {
        OrderedSnoc(cfg, order, sym);
      }
      ChainCut(cfg, stack, 0, |stack| - 1);
      stack := stack[..|stack| - 1];
      check := check - {sym};
      order, done := order + [sym], done + {sym};
    }

    /** sym_check_deps. */
    method CheckDeps(sym: Symbol) returns (r: Option<Symbol>)
      requires Valid() && CanGo(cfg, all, stack, sym)
      modifies this
      ensures Valid() && Extends() && Answers(old(reports), reports, stack, r)
      ensures reports == [] ==> sym in done
      decreases |all - checked|, 0, 1
    {
      if sym in check {
        PrintRecursive(sym);
        return Some(sym);
      }
      if sym in checked {
        return None;
      }
      r := Visit(sym);
    }

    /** A symbol met for the first time. */
    method Visit(sym: Symbol) returns (r: Option<Symbol>)
      requires Valid() && CanGo(cfg, all, stack, sym) && sym !in checked
      modifies this
      ensures Valid() && Extends() && Answers(old(reports), reports, stack, r)
      ensures reports == [] ==> sym in done
      decreases |all - checked|, 0, 0
    {
      FewerLeft(all, checked, checked + {sym});
      ghost var base := stack;
      Enter(sym);
      r := CheckSymDeps(sym);
      assert stack[..|stack| - 1] == base && sym !in base;
      Leave(sym);
      AnswersBelow(old(reports), reports, base, sym, r);
      if r.Some? && r.value == sym {
        r := None;
      }
    }

    /** The loop of conf_parse over all symbols; errors counts the calls that return a symbol. */
    method CheckAll(symbols: seq<Symbol>) returns (errors: int)
      requires Valid() && stack == [] && reports == []
      requires forall s :: s in cfg <==> s in symbols
      modifies this
      ensures Valid() && stack == []
      ensures reports == [] <==> Acyclic(cfg)
      ensures reports == [] ==> Ordered(cfg, order) && forall s :: s in cfg ==> s in order
      ensures forall r :: r in reports ==> IsCycle(cfg, r)
      ensures errors == 0
    {
      errors := 0;
      var i := 0;
      while i < |symbols|
        invariant 0 <= i <= |symbols| && Valid() && stack == [] && errors == 0
        invariant reports == [] ==> forall k :: 0 <= k < i ==> symbols[k] in done
      {
        var r := CheckDeps(symbols[i]);
        if r.Some? {
          errors := errors + 1;
        }
        i := i + 1;
      }
      if reports == [] {
        OrderedAcyclic(cfg, order);
      } else {
        assert reports[0] in reports;
      }
    }
  }
}
