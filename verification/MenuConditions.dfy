/** How menu_finalize hands conditions down through the whole tree (menu.c): what each entry
    and each property ends up with, and when it is visible. */
module MenuConditions {
  import opened Expr
  import opened ExprDups
  import opened ExprTransform
  import opened MenuDeps
  import opened MenuForest
  import opened SymbolGraph
  import opened Wrappers

  /** The fields of an entry that menu_finalize overwrites, besides its links. */
  datatype Conditions = Conditions(dep: Option<Expr>, props: seq<Property>)

  type Settings = Menu -> Conditions

  predicate HasPrompt(m: Menu, c: Conditions) {
    m.prompt.Some? && m.prompt.value < |c.props|
  }

  /** The condition of an entry's prompt; none without a prompt. */
  function PromptCondition(m: Menu, c: Conditions): Option<Expr> {
    if HasPrompt(m, c) then c.props[m.prompt.value].visible else None
  }

  /** What an entry hands down: the condition of its prompt, or its own. */
  function Condition(m: Menu, c: Conditions): Option<Expr> {
    if HasPrompt(m, c) then c.props[m.prompt.value].visible else c.dep
  }

  predicate IsTristate(m: Menu) {
    m.symbol.None? || m.symbol.value.Type().Tri?
  }

  function HandedProperty(m: Menu, base: Option<Expr>, p: Property): Property {
    p.(visible := PropertyVisible(IsTristate(m), base, p.visible))
  }

  function HandedProperties(m: Menu, base: Option<Expr>, props: seq<Property>): (r: seq<Property>)
    ensures |r| == |props| && forall i :: 0 <= i < |props| ==> r[i] == HandedProperty(m, base, props[i])
  {
    seq(|props|, i requires 0 <= i < |props| => HandedProperty(m, base, props[i]))
  }

  /** What becomes of the conditions c of an entry under the condition above. */
  function Handed(m: Menu, above: Option<Expr>, c: Conditions): Conditions {
    var base := HandDown(above, c.dep);
    Conditions(base, HandedProperties(m, base, c.props))
  }

  /** The row f has got its conditions from above, and so on down the source tree. */
  predicate HandedDown(f: Forest, above: Option<Expr>, src: Settings, fin: Settings) {
    f.Node? ==>
      && fin(f.menu) == Handed(f.menu, above, src(f.menu))
      && HandedDown(f.kids, Condition(f.menu, fin(f.menu)), src, fin)
      && HandedDown(f.rest, above, src, fin)
  }

  /** The same below the row f. */
  predicate HandedBelow(f: Forest, src: Settings, fin: Settings) {
    f.Node? ==> HandedDown(f.kids, Condition(f.menu, fin(f.menu)), src, fin) && HandedBelow(f.rest, src, fin)
  }

  lemma {:induction false} HandedRow(f: Forest, above: Option<Expr>, src: Settings, fin: Settings)
    requires HandedDown(f, above, src, fin)
    ensures HandedBelow(f, src, fin)
  {
    if f.Node? {
      HandedRow(f.rest, above, src, fin);
    }
  }

  // ---------------------------------------------------------------- the final conditions

  /** The conditions that the entry m of the tree f ends up with. */
  function Final(f: Forest, above: Option<Expr>, src: Settings, m: Menu): Conditions {
    if f.Nil? then src(m)
    else
      var c := Handed(f.menu, above, src(f.menu));
      if m == f.menu then c
      else if m in Preorder(f.kids) then Final(f.kids, Condition(f.menu, c), src, m)
      else Final(f.rest, above, src, m)
  }

  predicate Apart(s: seq<Menu>, t: seq<Menu>) {
    forall m :: m in s ==> m !in t
  }

  /** No entry occurs twice. */
  predicate Single(f: Forest) {
    f.Node? ==>
      && f.menu !in Preorder(f.kids) && f.menu !in Preorder(f.rest) && Apart(Preorder(f.kids), Preorder(f.rest))
      && Single(f.kids) && Single(f.rest)
  }

  /** They are well defined: every tree has conditions handed down through it. */
  lemma {:induction false} FinalHanded(f: Forest, above: Option<Expr>, src: Settings, fin: Settings)
    requires Single(f) && forall m :: m in Preorder(f) ==> fin(m) == Final(f, above, src, m)
    ensures HandedDown(f, above, src, fin)
  {
    if f.Node? {
      assert f.menu in Preorder(f);
      FinalHanded(f.kids, Condition(f.menu, fin(f.menu)), src, fin);
      FinalHanded(f.rest, above, src, fin);
    }
  }

  /** The root keeps its own conditions. */
  function FinalSettings(f: Forest, src: Settings): Settings
    requires f.Node?
  {
    (m: Menu) => if m == f.menu then src(m) else Final(f.kids, Condition(f.menu, src(f.menu)), src, m)
  }

  lemma FinalSettingsHanded(f: Forest, src: Settings)
    requires f.Node? && Single(f)
    ensures HandedDown(f.kids, Condition(f.menu, src(f.menu)), src, FinalSettings(f, src))
  {
    FinalHanded(f.kids, Condition(f.menu, src(f.menu)), src, FinalSettings(f, src));
  }

  // ---------------------------------------------------------------- what they mean

  /** The entries above m in the source tree f, outermost first. */
  function Ancestors(f: Forest, m: Menu): seq<Menu> {
    if f.Nil? || m == f.menu then []
    else if m in Preorder(f.kids) then [f.menu] + Ancestors(f.kids, m)
    else Ancestors(f.rest, m)
  }

  /** The conditions of an entry itself, as expr_transform reads them, leave open what is below it. */
  predicate Open(m: Menu, c: Conditions, v: Valuation) {
    PolarOpt(c.dep, v) != NO && PolarOpt(PromptCondition(m, c), v) != NO
  }

  predicate AllOpen(s: seq<Menu>, src: Settings, v: Valuation) {
    forall m :: m in s ==> Open(m, src(m), v)
  }

  /** One entry: its condition and those of its properties. */
  lemma HandedValue(m: Menu, above: Option<Expr>, c: Conditions, v: Valuation)
    requires v.Valid() && NormalOpt(above)
    ensures var h := Handed(m, above, c);
            && ValueOpt(h.dep, v) == Min(ValueOpt(above, v), PolarOpt(c.dep, v))
            && NormalOpt(Condition(m, h))
            && (ValueOpt(Condition(m, h), v) != NO <==> ValueOpt(above, v) != NO && Open(m, c, v))
    ensures var h := Handed(m, above, c);
            forall i :: 0 <= i < |c.props| ==>
              (ValueOpt(h.props[i].visible, v) != NO
               <==> ValueOpt(above, v) != NO && PolarOpt(c.dep, v) != NO && PolarOpt(c.props[i].visible, v) != NO)
  {
    HandDownValue(above, c.dep, v);
    forall i | 0 <= i < |c.props|
      ensures var x := Handed(m, above, c).props[i].visible;
              && NormalOpt(x)
              && (ValueOpt(x, v) != NO
                  <==> ValueOpt(above, v) != NO && PolarOpt(c.dep, v) != NO && PolarOpt(c.props[i].visible, v) != NO)
    {
      PropertyVisibleValue(IsTristate(m), above, c.dep, c.props[i].visible, v);
    }
  }

  /** After menu_finalize a property is visible exactly where its own condition, that of its
      entry and those of all entries above it in the source tree are. */
  lemma {:induction false} VisibleExact(f: Forest, above: Option<Expr>, src: Settings, fin: Settings, m: Menu, v: Valuation)
    requires v.Valid() && NormalOpt(above) && HandedDown(f, above, src, fin) && m in Preorder(f)
    ensures |fin(m).props| == |src(m).props|
    ensures var reached := ValueOpt(above, v) != NO && AllOpen(Ancestors(f, m), src, v) && PolarOpt(src(m).dep, v) != NO;
            && (ValueOpt(fin(m).dep, v) != NO <==> reached)
            && forall i :: 0 <= i < |src(m).props| ==>
                 (ValueOpt(fin(m).props[i].visible, v) != NO <==> reached && PolarOpt(src(m).props[i].visible, v) != NO)
  {
    HandedValue(f.menu, above, src(f.menu), v);
    if m == f.menu {
    } else if m in Preorder(f.kids) {
      VisibleExact(f.kids, Condition(f.menu, fin(f.menu)), src, fin, m, v);
      AllOpenMore(f.menu, Ancestors(f.kids, m), src, v);
    } else {
      VisibleExact(f.rest, above, src, fin, m, v);
    }
  }

  lemma AllOpenMore(m: Menu, s: seq<Menu>, src: Settings, v: Valuation)
    ensures AllOpen([m] + s, src, v) <==> Open(m, src(m), v) && AllOpen(s, src, v)
  {
    if AllOpen([m] + s, src, v) {
      assert m in [m] + s;
      forall x | x in s ensures Open(x, src(x), v) {
        assert x in [m] + s;
      }
    }
  }

  lemma {:induction false} TransBoolRefs(e: Expr)
    ensures Refs(e) <= Refs(TransBool(e)) + {No}
  {
    match e
    case Leaf(_) =>
    case Cmp(_, _, _) =>
    case Not(a) => TransBoolRefs(a);
    case Bin(_, l, r) =>
      TransBoolRefs(l);
      TransBoolRefs(r);
  }

  /** A property without a condition of its own, as every symbol's entry has one, mentions all
      that the condition of its entry mentions, except that n may be missing. */
  lemma OwnPropertyCovers(m: Menu, above: Option<Expr>, c: Conditions, i: nat)
    requires i < |c.props| && c.props[i].visible.None?
    ensures RefsOpt(Handed(m, above, c).dep) <= RefsOpt(Handed(m, above, c).props[i].visible) + {No}
  {
    var joined := AllocAnd(above, TransformOpt(c.dep));
    if joined.Some? {
      EliminateDupsFinished(joined.value);
      TransBoolRefs(EliminateDups(joined.value));
    }
  }

  /** The minimum of what entries demand, as expr_transform reads it. */
  function Lowest(s: seq<Menu>, src: Settings, v: Valuation): Tristate {
    if s == [] then YES
    else
      var c := src(s[0]);
      Min(Min(PolarOpt(c.dep, v), PolarOpt(PromptCondition(s[0], c), v)), Lowest(s[1..], src, v))
  }

  /** A menu, a comment or a tristate hands down values as they are, and so does an entry without
      a prompt. */
  predicate Transparent(m: Menu, c: Conditions) {
    m.symbol.None? || m.symbol.value.Type().Tri? || !HasPrompt(m, c)
  }

  /** The condition of m has the value low, and each property of a tristate, a menu or a comment the
      minimum of that and its own condition. */
  predicate Lowered(m: Menu, c: Conditions, h: Conditions, low: Tristate, v: Valuation) {
    && ValueOpt(h.dep, v) == low && |h.props| == |c.props|
    && (m.symbol.None? || m.symbol.value.Type().Tri? ==>
          forall i :: 0 <= i < |c.props| ==>
            ValueOpt(h.props[i].visible, v) == Min(low, PolarOpt(c.props[i].visible, v)))
  }

  /** Below such entries alone the value of each property of a tristate, a menu or a comment is the
      minimum of all conditions on the way. */
  lemma {:induction false} MinimumExact(f: Forest, above: Option<Expr>, src: Settings, fin: Settings, m: Menu, v: Valuation)
    requires v.Valid() && NormalOpt(above) && HandedDown(f, above, src, fin) && m in Preorder(f)
    requires forall a :: a in Ancestors(f, m) ==> Transparent(a, src(a))
    ensures Lowered(m, src(m), fin(m),
                    Min(ValueOpt(above, v), Min(Lowest(Ancestors(f, m), src, v), PolarOpt(src(m).dep, v))), v)
  {
    HandedMinimum(f.menu, above, src(f.menu), v);
    if m == f.menu {
    } else if m in Preorder(f.kids) {
      var rest := Ancestors(f.kids, m);
      assert Ancestors(f, m) == [f.menu] + rest;
      assert f.menu in Ancestors(f, m) && forall a :: a in rest ==> a in Ancestors(f, m);
      MinimumExact(f.kids, Condition(f.menu, fin(f.menu)), src, fin, m, v);
      LowestMore(f.menu, rest, src, ValueOpt(above, v), PolarOpt(src(m).dep, v), v);
    } else {
      MinimumExact(f.rest, above, src, fin, m, v);
    }
  }

  lemma LowestMore(m: Menu, s: seq<Menu>, src: Settings, above: Tristate, own: Tristate, v: Valuation)
    ensures Min(above, Min(Lowest([m] + s, src, v), own))
         == Min(Min(above, Min(PolarOpt(src(m).dep, v), PolarOpt(PromptCondition(m, src(m)), v))),
                Min(Lowest(s, src, v), own))
  {
    assert ([m] + s)[1..] == s;
  }

  lemma HandedMinimum(m: Menu, above: Option<Expr>, c: Conditions, v: Valuation)
    requires v.Valid() && NormalOpt(above)
    ensures var h := Handed(m, above, c);
            && Lowered(m, c, h, Min(ValueOpt(above, v), PolarOpt(c.dep, v)), v) && NormalOpt(Condition(m, h))
            && (Transparent(m, c) ==>
                  ValueOpt(Condition(m, h), v)
                  == Min(ValueOpt(above, v), Min(PolarOpt(c.dep, v), PolarOpt(PromptCondition(m, c), v))))
  {
    HandedValue(m, above, c, v);
    forall i | 0 <= i < |c.props| && (m.symbol.None? || m.symbol.value.Type().Tri?)
      ensures ValueOpt(Handed(m, above, c).props[i].visible, v)
           == Min(ValueOpt(above, v), Min(PolarOpt(c.dep, v), PolarOpt(c.props[i].visible, v)))
    {
      PropertyVisibleValue(true, above, c.dep, c.props[i].visible, v);
    }
  }

  /** The conditions of the properties of any other symbol test no tristate for not being n. */
  lemma OthersUntested(m: Menu, above: Option<Expr>, c: Conditions, i: nat)
    requires m.symbol.Some? && !m.symbol.value.Type().Tri? && i < |c.props|
    ensures var x := Handed(m, above, c).props[i].visible; x.Some? ==> Untested(x.value)
  {
    var dep := HandDown(Handed(m, above, c).dep, c.props[i].visible);
    if dep.Some? {
      TransBoolExact(dep.value);
    }
  }

  // ---------------------------------------------------------------- the nesting test

  /** The test of menu_finalize on the final conditions. */
  function NestsOf(fin: Settings): NestTest {
    (p: Menu, m: Menu) =>
      p.symbol.Some? && Nests(p.symbol.value, PromptCondition(p, fin(p)), Condition(m, fin(m)))
  }

  /** Every sibling that is absorbed depends on the symbol of its new parent or is, as the test
      reads conditions, shown only where the parent's prompt is; where the test reads them
      rightly it is visible only where that symbol is set or its prompt visible. */
  lemma AbsorbedShown(p: Menu, f: Forest, fin: Settings, m: Menu, v: Valuation)
    requires v.Valid() && p.symbol.Some? && m in Row(Absorb(p, f, NestsOf(fin)).0)
    ensures var s, prompt, dep := p.symbol.value, PromptCondition(p, fin(p)), Condition(m, fin(m));
            && dep.Some? && (Depends(dep.value, s) || (ShownOpt(dep, v) ==> ShownOpt(prompt, v)))
            && ((s.Type().Boolean? || s.Type().Tri?) && Regular(prompt, v) && Regular(dep, v) && ValueOpt(dep, v) != NO
                ==> v.tri(s) != NO || ValueOpt(prompt, v) != NO)
  {
    AbsorbRun(p, f, NestsOf(fin));
    var s, prompt, dep := p.symbol.value, PromptCondition(p, fin(p)), Condition(m, fin(m));
    assert NestsOf(fin)(p, m) && Nests(s, prompt, dep);
    NestsExact(s, prompt, dep, v);
    if (s.Type().Boolean? || s.Type().Tri?) && Regular(prompt, v) && Regular(dep, v) {
      NestsSound(s, prompt, dep, v);
    }
  }
}
