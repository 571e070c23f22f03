/** What the value of a symbol says about prompts, defaults, select and imply (sym_calc_visibility,
    sym_get_default_prop and sym_calc_value in symbol.c). */
module SymbolLaws {
  import opened Expr
  import opened SymbolGraph
  import opened SymbolValue
  import opened Wrappers

  /** A prompt among the first n properties whose condition reaches x. */
  ghost predicate Prompted(props: seq<Property>, n: nat, v: Valuation, x: Tristate)
    requires n <= |props|
  {
    exists i :: 0 <= i < n && props[i].kind.Prompt? && ValueOpt(props[i].visible, v) >= x
  }

  /** The visibility is the maximum of the conditions of the prompts. */
  lemma {:induction false} PromptExact(props: seq<Property>, n: nat, v: Valuation, x: Tristate)
    requires n <= |props| && x > NO
    ensures PromptVisible(props, n, v) >= x <==> Prompted(props, n, v, x)
  {
    if n > 0 {
      PromptExact(props, n - 1, v, x);
      if Prompted(props, n, v, x) {
        var i :| 0 <= i < n && props[i].kind.Prompt? && ValueOpt(props[i].visible, v) >= x;
        assert i < n - 1 ==> Prompted(props, n - 1, v, x);
      }
    }
  }

  /** A default whose condition holds. */
  predicate OpenDefault(p: Property, v: Valuation) {
    p.kind.Default? && ValueOpt(p.visible, v) != NO
  }

  /** The k-th property is the first default whose condition holds. */
  predicate FirstDefault(props: seq<Property>, k: nat, v: Valuation) {
    k < |props| && OpenDefault(props[k], v) && forall i :: 0 <= i < k ==> !OpenDefault(props[i], v)
  }

  /** The first default whose condition holds counts, limited by that condition; without one it is n. */
  lemma {:induction false} DefaultExact(props: seq<Property>, i: nat, v: Valuation)
    requires i <= |props| && forall j :: 0 <= j < i ==> !OpenDefault(props[j], v)
    ensures forall k: nat :: FirstDefault(props, k, v) ==>
        DefaultValue(props, i, v) == Min(ValueOpt(props[k].value, v), ValueOpt(props[k].visible, v))
    ensures (forall k :: 0 <= k < |props| ==> !OpenDefault(props[k], v)) ==> DefaultValue(props, i, v) == NO
    decreases |props| - i
  {
    if i < |props| {
      if OpenDefault(props[i], v) {
        assert FirstDefault(props, i, v);
        forall k: nat | FirstDefault(props, k, v) ensures k == i {
        }
      } else {
        DefaultExact(props, i + 1, v);
      }
    }
  }

  /** The value of an optional dependency: without one there is none. */
  function Claim(e: Option<Expr>, v: Valuation): Tristate {
    if e.None? then NO else Value(e.value, v)
  }

  /** A symbol that takes no m is visible, selected or implied as y where it is so at all. */
  function Least(env: Env, s: Symbol, x: Tristate): Tristate {
    if ActsBoolean(env, s) && x == YES then MOD else x
  }

  /** Each field of the status reaches x (m for y where the symbol takes no m) exactly when what it
      stands for does; nothing is implied while the direct dependency is n. */
  lemma StatusExact(cfg: Config, env: Env, s: Symbol, v: Valuation, x: Tristate)
    requires x > NO && HasTristate(s)
    ensures var info, st, y := InfoOf(cfg, s), StatusOf(cfg, env, s, v), Least(env, s, x);
            && (st.visible >= x <==> Prompted(info.props, |info.props|, v, y))
            && (st.direct == NO <==> ValueOpt(info.dirDep, v) == NO) && st.direct != MOD
            && (st.reverse >= x <==> Claim(info.revDep, v) >= y)
            && (st.implied >= x <==> ValueOpt(info.dirDep, v) != NO && Claim(info.implied, v) >= y)
  {
    var info := InfoOf(cfg, s);
    PromptExact(info.props, |info.props|, v, x);
    PromptExact(info.props, |info.props|, v, Least(env, s, x));
    PromptExact(info.props, |info.props|, v, MOD);
    PromptExact(info.props, |info.props|, v, YES);
  }

  /** The user decides: some prompt is visible and the user has given a value. */
  ghost predicate Decided(cfg: Config, env: Env, s: Symbol, v: Valuation) {
    env.user(s).Some? && Prompted(InfoOf(cfg, s).props, |InfoOf(cfg, s).props|, v, MOD)
  }

  /** What the user, or else the defaults and implications, make of a symbol reaches x. */
  ghost predicate OwnReaches(cfg: Config, env: Env, s: Symbol, v: Valuation, x: Tristate)
    requires HasTristate(s)
  {
    var info, y := InfoOf(cfg, s), Least(env, s, x);
    if Decided(cfg, env, s, v) then env.user(s).value >= x && Prompted(info.props, |info.props|, v, y)
    else
      || DefaultValue(info.props, 0, v) >= x
      || (ValueOpt(info.dirDep, v) != NO && Claim(info.implied, v) >= y)
  }

  /** A symbol is set exactly when it is selected, or the user has set it and a prompt is visible,
      or, where the user does not decide, a default or an implication sets it. */
  lemma SetExact(cfg: Config, env: Env, w: Values, s: Symbol)
    requires Solution(cfg, env, w) && HasTristate(s)
    ensures var v := AsValuation(env, w);
            w(s) != NO <==> Claim(InfoOf(cfg, s).revDep, v) != NO || OwnReaches(cfg, env, s, v, MOD)
  {
    var v := AsValuation(env, w);
    assert Equation(cfg, env, w, s);
    StatusExact(cfg, env, s, v, MOD);
  }

  /** It is y exactly when that reaches y, or reaches m and m is not for it: because it takes no m,
      or because it is implied as y. */
  lemma YesExact(cfg: Config, env: Env, w: Values, s: Symbol)
    requires Solution(cfg, env, w) && HasTristate(s)
    ensures var v, info := AsValuation(env, w), InfoOf(cfg, s);
            var impliedYes := ValueOpt(info.dirDep, v) != NO && Claim(info.implied, v) == YES;
            w(s) == YES <==>
              if ActsBoolean(env, s) || impliedYes then w(s) != NO
              else Claim(info.revDep, v) == YES || OwnReaches(cfg, env, s, v, YES)
  {
    var v := AsValuation(env, w);
    assert Equation(cfg, env, w, s);
    StatusExact(cfg, env, s, v, MOD);
    StatusExact(cfg, env, s, v, YES);
  }

  /** A symbol whose prompts, defaults, selections and implications are all n is n, whatever the
      user has set. */
  lemma NothingSets(cfg: Config, env: Env, w: Values, s: Symbol)
    requires Solution(cfg, env, w) && HasTristate(s)
    requires var v, info := AsValuation(env, w), InfoOf(cfg, s);
             && Claim(info.revDep, v) == NO && Claim(info.implied, v) == NO
             && forall i :: 0 <= i < |info.props| && (info.props[i].kind.Prompt? || info.props[i].kind.Default?) ==>
                  ValueOpt(info.props[i].visible, v) == NO
    ensures w(s) == NO
  {
    SetExact(cfg, env, w, s);
    DefaultExact(InfoOf(cfg, s).props, 0, AsValuation(env, w));
  }

  /** While the direct dependency of a symbol is n, it makes no difference what implies it. */
  lemma ImpliedWithoutDirect(cfg: Config, env: Env, s: Symbol, v: Valuation, e: Option<Expr>)
    requires s in cfg && ValueOpt(cfg[s].dirDep, v) == NO
    ensures Formula(cfg[s := cfg[s].(implied := e)], env, s, v) == Formula(cfg, env, s, v)
  {
  }
}
