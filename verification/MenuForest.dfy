/** The menu tree: what menu_finalize turns a forest into, as a function. An entry is
    followed by its children (list) and then by its siblings (next), as in struct menu. */
module MenuForest {
  import opened Expr
  import opened SymbolGraph
  import opened Wrappers

  class Menu {
    const symbol: Option<Symbol>  // none for a menu or a comment
    const plain: bool             // no prompt text
    const prompt: Option<nat>     // the property that is the prompt
    var dep: Option<Expr>
    var props: seq<Property>      // the properties that this entry gives
    var next: Menu?
    var list: Menu?
    var parent: Menu?

    constructor (symbol: Option<Symbol>, plain: bool, prompt: Option<nat>, dep: Option<Expr>, props: seq<Property>)
      ensures this.symbol == symbol && this.plain == plain && this.prompt == prompt
      ensures this.dep == dep && this.props == props && next == null && list == null && parent == null
    {
      this.symbol, this.plain, this.prompt, this.dep, this.props := symbol, plain, prompt, dep, props;
      next, list, parent := null, null, null;
    }
  }

  /** Whether an entry is nested under a preceding one; menu_finalize's expression test. */
  type NestTest = (Menu, Menu) -> bool

  datatype Forest = Nil | Node(menu: Menu, kids: Forest, rest: Forest)

  /** The entries in source order. */
  function Preorder(f: Forest): seq<Menu> {
    if f.Nil? then [] else [f.menu] + Preorder(f.kids) + Preorder(f.rest)
  }

  function Append(f: Forest, g: Forest): (r: Forest)
    ensures Preorder(r) == Preorder(f) + Preorder(g)
  {
    if f.Nil? then g else Node(f.menu, f.kids, Append(f.rest, g))
  }

  /** Entries without a prompt text hand their children to their own list. */
  function Hoist(f: Forest): (g: Forest)
    ensures Preorder(g) == Preorder(f)
    decreases |Preorder(f)|
  {
    if f.Nil? then Nil
    else if f.kids.Node? && f.menu.plain then
      Node(f.menu, Nil, Hoist(Append(f.kids, f.rest)))
    else Node(f.menu, f.kids, Hoist(f.rest))
  }

  /** menu_finalize on the first entry: its children are finalized, or, when it has none,
      the following siblings nested under it become its children; then they are hoisted. */
  function FinalizeFirst(f: Forest, nests: NestTest): (g: Forest)
    requires f.Node?
    ensures g.Node? && g.menu == f.menu && Preorder(g) == Preorder(f)
    decreases |Preorder(f)|, 1
  {
    if f.kids.Node? then Node(f.menu, Hoist(FinalizeAll(f.kids, nests)), f.rest)
    else if f.menu.symbol.Some? then
      var (kids, rest) := Absorb(f.menu, f.rest, nests);
      Node(f.menu, Hoist(kids), rest)
    else f
  }

  function FinalizeAll(f: Forest, nests: NestTest): (g: Forest)
    ensures Preorder(g) == Preorder(f)
    decreases |Preorder(f)|, 2
  {
    if f.Nil? then Nil
    else
      var g := FinalizeFirst(f, nests);
      Node(g.menu, g.kids, FinalizeAll(g.rest, nests))
  }

  /** The siblings that become children of p, and those that stay. */
  function Absorb(p: Menu, f: Forest, nests: NestTest): (r: (Forest, Forest))
    ensures Preorder(r.0) + Preorder(r.1) == Preorder(f)
    decreases |Preorder(f)|, 2
  {
    if f.Nil? || !nests(p, f.menu) then (Nil, f)
    else
      var g := FinalizeFirst(f, nests);
      var (kids, rest) := Absorb(p, g.rest, nests);
      (Node(g.menu, g.kids, kids), rest)
  }

  /** No entry without a prompt text has children. */
  predicate Flat(f: Forest) {
    f.Node? ==> (f.menu.plain ==> f.kids.Nil?) && Flat(f.kids) && Flat(f.rest)
  }

  /** Flat below the top row. */
  predicate FlatBelow(f: Forest) {
    f.Node? ==> Flat(f.kids) && FlatBelow(f.rest)
  }

  lemma {:induction false} AppendFlat(f: Forest, g: Forest)
    ensures FlatBelow(Append(f, g)) <==> FlatBelow(f) && FlatBelow(g)
    ensures Flat(f) ==> FlatBelow(f)
  {
    if f.Node? {
      AppendFlat(f.rest, g);
    }
  }

  lemma {:induction false} HoistFlat(f: Forest)
    requires FlatBelow(f)
    ensures Flat(Hoist(f))
    decreases |Preorder(f)|
  {
    if f.Node? {
      if f.kids.Node? && f.menu.plain {
        AppendFlat(f.kids, f.rest);
        HoistFlat(Append(f.kids, f.rest));
      } else {
        HoistFlat(f.rest);
      }
    }
  }

  /** After menu_finalize no entry without a prompt text below the first one has children. */
  lemma {:induction false} FinalizeFlat(f: Forest, nests: NestTest)
    requires f.Node?
    ensures Flat(FinalizeFirst(f, nests).kids)
    decreases |Preorder(f)|, 1
  {
    if f.kids.Node? {
      FinalizeAllFlat(f.kids, nests);
      HoistFlat(FinalizeAll(f.kids, nests));
    } else if f.menu.symbol.Some? {
      AbsorbFlat(f.menu, f.rest, nests);
      HoistFlat(Absorb(f.menu, f.rest, nests).0);
    }
  }

  lemma {:induction false} FinalizeAllFlat(f: Forest, nests: NestTest)
    ensures FlatBelow(FinalizeAll(f, nests))
    decreases |Preorder(f)|, 2
  {
    if f.Node? {
      FinalizeFlat(f, nests);
      FinalizeAllFlat(FinalizeFirst(f, nests).rest, nests);
    }
  }

  lemma {:induction false} AbsorbFlat(p: Menu, f: Forest, nests: NestTest)
    ensures FlatBelow(Absorb(p, f, nests).0)
    decreases |Preorder(f)|, 2
  {
    if f.Node? && nests(p, f.menu) {
      FinalizeFlat(f, nests);
      AbsorbFlat(p, FinalizeFirst(f, nests).rest, nests);
    }
  }

  // ---------------------------------------------------------------- who is under whom

  type Relation = (Menu, Menu) -> bool

  /** v relates p to the row f, and every entry in f to its children. */
  predicate Above(v: Relation, p: Menu, f: Forest) {
    f.Node? ==> v(p, f.menu) && Above(v, f.menu, f.kids) && Above(v, p, f.rest)
  }

  /** v relates every entry in f to its children. */
  predicate Within(v: Relation, f: Forest) {
    f.Node? ==> Above(v, f.menu, f.kids) && Within(v, f.rest)
  }

  lemma {:induction false} AppendAbove(v: Relation, p: Menu, f: Forest, g: Forest)
    ensures Above(v, p, Append(f, g)) <==> Above(v, p, f) && Above(v, p, g)
  {
    if f.Node? {
      AppendAbove(v, p, f.rest, g);
    }
  }

  /** What is above q is above the children of q. */
  lemma {:induction false} LiftAbove(v: Relation, p: Menu, q: Menu, f: Forest)
    requires forall a: Menu, b: Menu, c: Menu :: v(a, b) && v(b, c) ==> v(a, c)
    requires v(p, q) && Above(v, q, f)
    ensures Above(v, p, f)
  {
    if f.Node? {
      LiftAbove(v, p, q, f.rest);
    }
  }

  lemma {:induction false} HoistAbove(v: Relation, p: Menu, f: Forest)
    requires forall a: Menu, b: Menu, c: Menu :: v(a, b) && v(b, c) ==> v(a, c)
    requires Above(v, p, f)
    ensures Above(v, p, Hoist(f))
    decreases |Preorder(f)|
  {
    if f.Node? {
      if f.kids.Node? && f.menu.plain {
        LiftAbove(v, p, f.menu, f.kids);
        AppendAbove(v, p, f.kids, f.rest);
        HoistAbove(v, p, Append(f.kids, f.rest));
      } else {
        HoistAbove(v, p, f.rest);
      }
    }
  }

  /** An entry gets new children only along the old tree and the nesting test: a transitive
      relation that holds of both holds of the new tree. */
  lemma {:induction false} FinalizeAbove(v: Relation, f: Forest, nests: NestTest)
    requires forall a: Menu, b: Menu, c: Menu :: v(a, b) && v(b, c) ==> v(a, c)
    requires forall a: Menu, b: Menu :: nests(a, b) ==> v(a, b)
    requires f.Node? && Within(v, f)
    ensures Within(v, FinalizeFirst(f, nests))
    ensures forall p: Menu :: Above(v, p, f) ==> Above(v, p, FinalizeFirst(f, nests))
    decreases |Preorder(f)|, 1
  {
    if f.kids.Node? {
      AboveWithin(v, f.menu, f.kids);
      FinalizeAllAbove(v, f.menu, f.kids, nests);
      HoistAbove(v, f.menu, FinalizeAll(f.kids, nests));
    } else if f.menu.symbol.Some? {
      AbsorbAbove(v, f.menu, f.rest, nests);
      HoistAbove(v, f.menu, Absorb(f.menu, f.rest, nests).0);
    }
  }

  lemma {:induction false} AboveWithin(v: Relation, p: Menu, f: Forest)
    requires Above(v, p, f)
    ensures Within(v, f)
  {
    if f.Node? {
      AboveWithin(v, p, f.rest);
    }
  }

  lemma {:induction false} FinalizeAllAbove(v: Relation, p: Menu, f: Forest, nests: NestTest)
    requires forall a: Menu, b: Menu, c: Menu :: v(a, b) && v(b, c) ==> v(a, c)
    requires forall a: Menu, b: Menu :: nests(a, b) ==> v(a, b)
    requires Above(v, p, f)
    ensures Above(v, p, FinalizeAll(f, nests))
    decreases |Preorder(f)|, 2
  {
    if f.Node? {
      AboveWithin(v, p, f);
      FinalizeAbove(v, f, nests);
      FinalizeAllAbove(v, p, FinalizeFirst(f, nests).rest, nests);
    }
  }

  lemma {:induction false} AbsorbAbove(v: Relation, p: Menu, f: Forest, nests: NestTest)
    requires forall a: Menu, b: Menu, c: Menu :: v(a, b) && v(b, c) ==> v(a, c)
    requires forall a: Menu, b: Menu :: nests(a, b) ==> v(a, b)
    requires Within(v, f)
    ensures Above(v, p, Absorb(p, f, nests).0) && Within(v, Absorb(p, f, nests).1)
    ensures forall q: Menu :: Above(v, q, f) ==> Above(v, q, Absorb(p, f, nests).1)
    decreases |Preorder(f)|, 2
  {
    if f.Node? && nests(p, f.menu) {
      FinalizeAbove(v, f, nests);
      AbsorbAbove(v, p, FinalizeFirst(f, nests).rest, nests);
    }
  }

  /** The entries of a row. */
  function Row(f: Forest): seq<Menu> {
    if f.Nil? then [] else [f.menu] + Row(f.rest)
  }

  /** The absorbed entries are the longest run that the nesting test accepts. */
  lemma {:induction false} AbsorbRun(p: Menu, f: Forest, nests: NestTest)
    ensures var (kids, rest) := Absorb(p, f, nests);
            && (forall m :: m in Row(kids) ==> nests(p, m))
            && (rest.Node? ==> !nests(p, rest.menu))
    decreases |Preorder(f)|
  {
    if f.Node? && nests(p, f.menu) {
      AbsorbRun(p, FinalizeFirst(f, nests).rest, nests);
    }
  }

  /** A row in which the children of entries without a prompt text follow these. */
  function HoistedRow(f: Forest): seq<Menu> {
    if f.Nil? then [] else [f.menu] + (if f.menu.plain then Row(f.kids) else []) + HoistedRow(f.rest)
  }

  lemma {:induction false} FlatRow(f: Forest, g: Forest)
    requires Flat(f)
    ensures HoistedRow(Append(f, g)) == Row(f) + HoistedRow(g)
  {
    if f.Node? {
      FlatRow(f.rest, g);
    }
  }

  /** Hoisting moves children up by one row and no further, each behind its old parent. */
  lemma {:induction false} HoistRow(f: Forest)
    requires FlatBelow(f)
    ensures Row(Hoist(f)) == HoistedRow(f)
    decreases |Preorder(f)|
  {
    if f.Node? {
      if f.kids.Node? && f.menu.plain {
        AppendFlat(f.kids, f.rest);
        FlatRow(f.kids, f.rest);
        HoistRow(Append(f.kids, f.rest));
      } else {
        HoistRow(f.rest);
      }
    }
  }

  lemma HoistFirst(f: Forest)
    ensures f.Nil? <==> Hoist(f).Nil?
    ensures f.Node? ==> Hoist(f).menu == f.menu
  {
  }

  /** Only an entry of a symbol that has no children takes siblings. It takes the next one if that
      is nested, as its first child, and does not stop before one that is not. */
  lemma TakesSiblings(f: Forest, nests: NestTest)
    requires f.Node?
    ensures var g := FinalizeFirst(f, nests);
            if f.kids.Node? then g.rest == f.rest && g.kids.Node? && g.kids.menu == f.kids.menu
            else if f.menu.symbol.None? then g == f
            else
              && (g.rest.Node? ==> !nests(f.menu, g.rest.menu))
              && (f.rest.Node? && nests(f.menu, f.rest.menu) <==> g.kids.Node?)
              && (g.kids.Node? ==> g.kids.menu == f.rest.menu)
  {
    if f.kids.Node? {
      HoistFirst(FinalizeAll(f.kids, nests));
    } else if f.menu.symbol.Some? {
      AbsorbRun(f.menu, f.rest, nests);
      HoistFirst(Absorb(f.menu, f.rest, nests).0);
    }
  }
}
