/** The linked menu entries: menu_finalize (menu.c) rewires next, list and parent in
    place, and conf_write (confdata.c) walks the result. */
module MenuTree {
  import opened Expr
  import opened MenuConditions
  import opened MenuDeps
  import opened MenuForest
  import opened MenuSymbols
  import opened SymbolGraph
  import opened Wrappers

  ghost function Entries(f: Forest): set<Menu> {
    if f.Nil? then {} else {f.menu} + Entries(f.kids) + Entries(f.rest)
  }

  lemma {:induction false} EntriesPreorder(f: Forest, m: Menu)
    ensures m in Entries(f) <==> m in Preorder(f)
  {
    if f.Node? {
      EntriesPreorder(f.kids, m);
      EntriesPreorder(f.rest, m);
    }
  }

  /** The entries of a forest at hand are allocated, so a call that modifies others leaves them be. */
  lemma {:induction false} EntriesAllocated(f: Forest)
    ensures allocated(Entries(f))
  {
    if f.Node? {
      EntriesAllocated(f.kids);
      EntriesAllocated(f.rest);
    }
  }

  ghost predicate NoRepeat(s: seq<Menu>) {
    s != [] ==> s[0] !in s[1..] && NoRepeat(s[1..])
  }

  /** No entry occurs twice. */
  ghost predicate Distinct(f: Forest) {
    NoRepeat(Preorder(f))
  }

  ghost predicate Disjoint(s: seq<Menu>, t: seq<Menu>) {
    forall m: Menu :: m in s ==> m !in t
  }

  lemma {:induction false} NoRepeatAppend(s: seq<Menu>, t: seq<Menu>)
    ensures NoRepeat(s + t) <==> NoRepeat(s) && NoRepeat(t) && Disjoint(s, t)
  {
    if s == [] {
      assert s + t == t;
    } else {
      assert (s + t)[1..] == s[1..] + t;
      NoRepeatAppend(s[1..], t);
    }
  }

  /** The entries linked from m are the forest f: its top row has parent q and ends in tail. */
  ghost predicate Linked(f: Forest, m: Menu?, q: Menu?, tail: Menu?)
    reads Entries(f)`next, Entries(f)`list, Entries(f)`parent
  {
    if f.Nil? then m == tail
    else
      && m == f.menu && f.menu.parent == q
      && Linked(f.kids, f.menu.list, f.menu, null)
      && Linked(f.rest, f.menu.next, q, tail)
  }

  lemma EntriesDisjoint(f: Forest, g: Forest)
    ensures Disjoint(Preorder(f), Preorder(g)) <==> Entries(f) !! Entries(g)
  {
    forall m: Menu
      ensures m in Entries(f) <==> m in Preorder(f)
      ensures m in Entries(g) <==> m in Preorder(g)
    {
      EntriesPreorder(f, m);
      EntriesPreorder(g, m);
    }
  }

  lemma DistinctNode(f: Forest)
    requires f.Node? && Distinct(f)
    ensures f.menu !in Entries(f.kids) && f.menu !in Entries(f.rest)
    ensures Entries(f.kids) !! Entries(f.rest) && Distinct(f.kids) && Distinct(f.rest)
  {
    assert Preorder(f) == [f.menu] + (Preorder(f.kids) + Preorder(f.rest));
    assert Preorder(f)[1..] == Preorder(f.kids) + Preorder(f.rest);
    NoRepeatAppend(Preorder(f.kids), Preorder(f.rest));
    EntriesPreorder(f.kids, f.menu);
    EntriesPreorder(f.rest, f.menu);
    EntriesDisjoint(f.kids, f.rest);
  }

  lemma EntriesAppend(f: Forest, g: Forest)
    ensures Entries(Append(f, g)) == Entries(f) + Entries(g)
    ensures Distinct(Append(f, g)) <==> Distinct(f) && Distinct(g) && Entries(f) !! Entries(g)
  {
    NoRepeatAppend(Preorder(f), Preorder(g));
    EntriesDisjoint(f, g);
    EntriesOfAppend(f, g);
  }

  lemma {:induction false} EntriesOfAppend(f: Forest, g: Forest)
    ensures Entries(Append(f, g)) == Entries(f) + Entries(g)
  {
    if f.Node? {
      EntriesOfAppend(f.rest, g);
    }
  }

  lemma {:induction false} LinkedAppend(f: Forest, g: Forest, m: Menu?, mid: Menu?, q: Menu?, tail: Menu?)
    requires Linked(f, m, q, mid) && Linked(g, mid, q, tail)
    ensures Linked(Append(f, g), m, q, tail)
  {
    EntriesAppend(f, g);
    if f.Node? {
      LinkedAppend(f.rest, g, f.menu.next, mid, q, tail);
    }
  }

  /** A row cut in two: `done` comes before `todo`. */
  ghost predicate Cut(f: Forest, done: Forest, todo: Forest) {
    && f == Append(done, todo) && Distinct(todo)
    && Entries(done) !! Entries(todo) && Entries(todo) <= Entries(f)
  }

  ghost function First(f: Forest): Forest
    requires f.Node?
  {
    Node(f.menu, f.kids, Nil)
  }

  lemma {:induction false} AppendFirst(f: Forest, g: Forest)
    requires g.Node?
    ensures Append(f, g) == Append(Append(f, First(g)), g.rest)
  {
    if f.Node? {
      AppendFirst(f.rest, g);
    }
  }

  lemma CutStep(f: Forest, done: Forest, todo: Forest)
    requires Cut(f, done, todo) && todo.Node?
    ensures Cut(f, Append(done, First(todo)), todo.rest)
    ensures todo.menu !in Entries(done) + Entries(todo.kids) + Entries(todo.rest)
    ensures Entries(todo.kids) !! Entries(todo.rest)
  {
    DistinctNode(todo);
    AppendFirst(done, todo);
    EntriesAppend(done, First(todo));
  }

  /** The first entry of `todo` joins the row before it. */
  lemma LinkedStep(done: Forest, todo: Forest, first: Menu?, p: Menu?)
    requires todo.Node? && Linked(done, first, p, todo.menu)
    requires todo.menu.parent == p && Linked(todo.kids, todo.menu.list, todo.menu, null)
    ensures Linked(Append(done, First(todo)), first, p, todo.menu.next)
  {
    assert Linked(First(todo), todo.menu, p, todo.menu.next);
    LinkedAppend(done, First(todo), first, todo.menu, p, todo.menu.next);
  }

  /** The first entry of the row `todo` moves under p, behind the row `done`. */
  method SetParent(menu: Menu, p: Menu?, first: Menu?, ghost q: Menu?, ghost done: Forest, ghost todo: Forest)
    requires todo.Node? && menu == todo.menu && Distinct(todo) && Entries(done) !! Entries(todo)
    requires Linked(done, first, p, menu) && Linked(todo, menu, q, null)
    modifies menu`parent
    ensures menu.parent == p
    ensures Linked(done, first, p, menu) && Linked(todo.kids, menu.list, menu, null)
    ensures Linked(Append(done, First(todo)), first, p, menu.next) && Linked(todo.rest, menu.next, q, null)
  {
    DistinctNode(todo);
    menu.parent := p;
    LinkedStep(done, todo, first, p);
  }

  /** The last entry of a row under p is linked to tail. */
  method SetNext(last: Menu, tail: Menu?, first: Menu?, ghost p: Menu?, ghost done: Forest, ghost kids: Forest)
    requires Distinct(Append(done, Node(last, kids, Nil))) && last.parent == p
    requires Linked(done, first, p, last) && Linked(kids, last.list, last, null)
    modifies last`next
    ensures Linked(Append(done, Node(last, kids, Nil)), first, p, tail)
  {
    EntriesAppend(done, Node(last, kids, Nil));
    DistinctNode(Node(last, kids, Nil));
    last.next := tail;
    LinkedStep(done, Node(last, kids, Nil), first, p);
  }

  /** The top row is handed to a new parent: every entry of it gets the parent p, and
      the last one is linked to tail. */
  method Adopt(first: Menu, p: Menu?, tail: Menu?, ghost f: Forest, ghost q: Menu?)
    requires f.Node? && Distinct(f) && Linked(f, first, q, null)
    modifies Entries(f)`next, Entries(f)`list, Entries(f)`parent
    ensures Linked(f, first, p, tail)
  {
    var last := first;
    ghost var done, todo := Nil, f;
    while true
      invariant Cut(f, done, todo) && todo.Node? && last == todo.menu
      invariant Linked(done, first, p, last) && Linked(todo, last, q, null)
      decreases todo
    {
      CutStep(f, done, todo);
      SetParent(last, p, first, q, done, todo);
      if last.next == null {
        break;
      }
      done, todo := Append(done, First(todo)), todo.rest;
      last := last.next;
    }
    SetNext(last, tail, first, p, done, todo.kids);
  }

  lemma {:induction false} EntriesSet(f: Forest)
    ensures Entries(f) == set m | m in Preorder(f)
  {
    if f.Node? {
      EntriesSet(f.kids);
      EntriesSet(f.rest);
    }
  }

  lemma SamePreorder(f: Forest, g: Forest)
    requires Preorder(f) == Preorder(g)
    ensures Entries(f) == Entries(g) && (Distinct(f) <==> Distinct(g))
  {
    EntriesSet(f);
    EntriesSet(g);
  }

  /** Rows done and still to do while their entries are rewritten; `todo` is a part of f. */
  ghost predicate Working(f: Forest, done: Forest, todo: Forest) {
    && Distinct(todo) && Entries(done) !! Entries(todo) && Entries(todo) <= Entries(f)
  }

  /** One entry g, rewritten from the head of `todo`, is done. */
  lemma WorkingStep(f: Forest, done: Forest, todo: Forest, g: Forest, rest: Forest)
    requires Working(f, done, todo) && todo.Node? && g.Node? && Preorder(g) == Preorder(todo)
    ensures Working(f, Append(done, First(g)), g.rest)
    ensures Append(done, Node(g.menu, g.kids, rest)) == Append(Append(done, First(g)), rest)
    ensures Distinct(g) && Entries(g) == Entries(todo)
    ensures Entries(Append(done, First(g))) == Entries(done) + {g.menu} + Entries(g.kids)
    ensures Distinct(done) ==> Distinct(Append(done, First(g)))
    ensures |Preorder(g.rest)| < |Preorder(todo)|
  {
    SamePreorder(g, todo);
    FirstSplits(g);
    AppendFirst(done, Node(g.menu, g.kids, rest));
    EntriesAppend(done, First(g));
  }

  lemma FirstSplits(g: Forest)
    requires g.Node? && Distinct(g)
    ensures Entries(First(g)) == {g.menu} + Entries(g.kids) && Entries(g) == Entries(First(g)) + Entries(g.rest)
    ensures Distinct(First(g)) && Distinct(g.rest) && Entries(First(g)) !! Entries(g.rest)
  {
    FirstPreorder(g);
    EntriesSplit(g, First(g), g.rest);
    assert Entries(First(g)) == {g.menu} + Entries(g.kids) + Entries(Nil);
  }

  lemma FirstPreorder(g: Forest)
    requires g.Node?
    ensures Preorder(g) == Preorder(First(g)) + Preorder(g.rest)
  {
    assert Preorder(First(g)) == [g.menu] + Preorder(g.kids);
  }

  /** A row divided into a front and a back shares no entries between them. */
  lemma EntriesSplit(f: Forest, g: Forest, h: Forest)
    requires Distinct(f) && Preorder(f) == Preorder(g) + Preorder(h)
    ensures Entries(f) == Entries(g) + Entries(h) && Entries(g) !! Entries(h)
    ensures Distinct(g) && Distinct(h)
  {
    SamePreorder(f, Append(g, h));
    EntriesAppend(g, h);
  }

  // ---------------------------------------------------------------- conditions

  function Now(m: Menu): Conditions
    reads m`dep, m`props
  {
    Conditions(m.dep, m.props)
  }

  /** The entries have these conditions. */
  ghost predicate AllAre(s: set<Menu>, c: Settings)
    reads s`dep, s`props
  {
    forall m {:trigger Now(m)} :: m in s ==> Now(m) == c(m)
  }

  lemma BothAre(s: set<Menu>, t: set<Menu>, c: Settings)
    ensures AllAre(s, c) && AllAre(t, c) <==> AllAre(s + t, c)
  {
    if AllAre(s + t, c) {
      forall m | m in s ensures Now(m) == c(m) { assert m in s + t; }
      forall m | m in t ensures Now(m) == c(m) { assert m in s + t; }
    }
  }

  /** The row has its final conditions, and what is below it still those of the source. */
  ghost predicate Ready(f: Forest, src: Settings, fin: Settings)
    reads Entries(f)`dep, Entries(f)`props
  {
    RowWithin(f);
    AllAre(RowSet(f), fin) && AllAre(Below(f), src)
  }

  /** The entries of the row. */
  ghost function RowSet(f: Forest): set<Menu> {
    if f.Nil? then {} else {f.menu} + RowSet(f.rest)
  }

  /** The entries below the row. */
  ghost function Below(f: Forest): set<Menu> {
    if f.Nil? then {} else Entries(f.kids) + Below(f.rest)
  }

  lemma {:induction false} RowWithin(f: Forest)
    ensures RowSet(f) + Below(f) == Entries(f)
  {
    if f.Node? {
      RowWithin(f.rest);
    }
  }

  /** The entries of symbols without entries below them. */
  ghost function Leaves(f: Forest): set<Menu> {
    if f.Nil? then {}
    else (if f.kids.Nil? && f.menu.symbol.Some? then {f.menu} else {}) + Leaves(f.kids) + Leaves(f.rest)
  }

  /** What is still to be done with the row f: the conditions below it, and the direct
      dependencies of all its entries. */
  ghost predicate Pending(f: Forest, src: Settings, syms: Symbols)
    reads syms, Entries(f)`dep, Entries(f)`props
  {
    syms.Valid() && Ready(f, src, syms.fin) && HandedBelow(f, src, syms.fin)
  }

  /** The row `todo` is what is left of the row f, whose work began with these sets. */
  ghost predicate Progress(f: Forest, todo: Forest, handed: set<Menu>, direct: set<Menu>, syms: Symbols)
    reads syms
  {
    syms.handed + Below(todo) == handed + Below(f) && syms.direct + Leaves(todo) == direct + Leaves(f)
  }

  /** One property of an entry gets its final condition. */
  method HandToProperty(menu: Menu, i: nat, basedep: Option<Expr>, syms: Symbols)
    requires i < |menu.props| == |syms.fin(menu).props|
    requires HandedProperty(menu, basedep, menu.props[i]) == syms.fin(menu).props[i] && syms.Claiming(menu, i)
    modifies menu`props, syms`revDep, syms`implied
    ensures menu.props == old(menu.props)[i := syms.fin(menu).props[i]] && syms.Claiming(menu, i + 1)
  {
    var dep := PropertyVisible(IsTristate(menu), basedep, menu.props[i].visible);
    menu.props := menu.props[i := menu.props[i].(visible := dep)];
    syms.Add(menu, menu.props[i], i);
  }

  /** The loop over the properties of an entry. */
  method HandToProperties(menu: Menu, basedep: Option<Expr>, syms: Symbols)
    requires syms.Claiming(menu, 0) && |menu.props| == |syms.fin(menu).props|
    requires forall k :: 0 <= k < |menu.props| ==> HandedProperty(menu, basedep, menu.props[k]) == syms.fin(menu).props[k]
    modifies menu`props, syms`revDep, syms`implied
    ensures menu.props == syms.fin(menu).props && syms.Claiming(menu, |menu.props|)
  {
    ghost var was := menu.props;
    var i := 0;
    while i < |menu.props|
      invariant 0 <= i <= |menu.props| == |was| && syms.Claiming(menu, i)
      invariant forall k :: 0 <= k < |was| ==> menu.props[k] == if k < i then syms.fin(menu).props[k] else was[k]
    {
      HandToProperty(menu, i, basedep, syms);
      i := i + 1;
    }
  }

  /** One entry gets its final conditions from above. */
  method HandToEntry(menu: Menu, above: Option<Expr>, syms: Symbols)
    requires syms.Valid() && syms.fin(menu) == Handed(menu, above, Now(menu))
    modifies menu`dep, menu`props, syms
    ensures Now(menu) == syms.fin(menu) && syms.Valid()
    ensures syms.handed == old(syms.handed) + {menu} && syms.direct == old(syms.direct)
  {
    var basedep := HandDown(above, menu.dep);
    menu.dep := basedep;
    syms.Begin(menu);
    HandToProperties(menu, basedep, syms);
    syms.Finish(menu);
  }

  /** Of the entries s those in r have got their conditions. */
  ghost predicate Handing(s: set<Menu>, r: set<Menu>, src: Settings, fin: Settings)
    reads r`dep, r`props, s`dep, s`props
  {
    AllAre(r, fin) && AllAre(s - r, src)
  }

  method HandToNext(menu: Menu, above: Option<Expr>, syms: Symbols, ghost s: set<Menu>, ghost r: set<Menu>,
          ghost src: Settings)
    requires syms.Valid() && Handing(s, r, src, syms.fin) && menu in s - r && allocated(s) && allocated(r)
    requires syms.fin(menu) == Handed(menu, above, src(menu))
    modifies menu`dep, menu`props, syms
    ensures syms.Valid() && Handing(s, r + {menu}, src, syms.fin)
    ensures syms.handed == old(syms.handed) + {menu} && syms.direct == old(syms.direct)
  {
    assert Now(menu) == src(menu);
    HandToEntry(menu, above, syms);
  }

  /** The loop of menu_finalize over the children that hands the conditions of p down. */
  method HandToChildren(p: Menu, syms: Symbols, ghost f: Forest, ghost src: Settings)
    requires Distinct(f) && p !in Entries(f) && Linked(f, p.list, p, null)
    requires syms.Valid() && AllAre(Entries(f), src) && HandedDown(f, Condition(p, Now(p)), src, syms.fin)
    modifies Entries(f)`dep, Entries(f)`props, syms
    ensures Pending(f, src, syms)
    ensures syms.handed == old(syms.handed) + RowSet(f) && syms.direct == old(syms.direct)
  {
    var above := Condition(p, Now(p));
    var menu := p.list;
    ghost var done, todo := Nil, f;
    while menu != null
      invariant Cut(f, done, todo) && Linked(todo, menu, p, null) && HandedDown(todo, above, src, syms.fin)
      invariant Handing(Entries(f), RowSet(done), src, syms.fin)
      invariant syms.Valid() && syms.direct == old(syms.direct) && syms.handed == old(syms.handed) + RowSet(done)
      decreases todo
    {
      RowStep(f, done, todo);
      EntriesAllocated(f);
      EntriesAllocated(todo);
      HandToNext(menu, above, syms, Entries(f), RowSet(done), src);
      done, todo := Append(done, First(todo)), todo.rest;
      menu := menu.next;
    }
    AppendNil(done);
    RowDone(f, above, src, syms);
  }

  lemma RowStep(f: Forest, done: Forest, todo: Forest)
    requires Cut(f, done, todo) && todo.Node?
    ensures Cut(f, Append(done, First(todo)), todo.rest) && todo.menu !in Entries(todo.rest)
    ensures RowSet(Append(done, First(todo))) == RowSet(done) + {todo.menu}
    ensures todo.menu in Entries(f) - RowSet(done) && RowSet(done) <= Entries(f)
  {
    CutStep(f, done, todo);
    RowWithin(done);
    AppendRow(done, First(todo));
    EntriesOfAppend(done, todo);
  }

  lemma RowDone(f: Forest, above: Option<Expr>, src: Settings, syms: Symbols)
    requires Distinct(f) && syms.Valid() && Handing(Entries(f), RowSet(f), src, syms.fin)
    requires HandedDown(f, above, src, syms.fin)
    ensures Pending(f, src, syms)
  {
    RowWithin(f);
    RowApart(f);
    HandedRow(f, above, src, syms.fin);
  }

  lemma {:induction false} AppendRow(f: Forest, g: Forest)
    ensures RowSet(Append(f, g)) == RowSet(f) + RowSet(g)
  {
    if f.Node? {
      AppendRow(f.rest, g);
    }
  }

  lemma {:induction false} RowApart(f: Forest)
    requires Distinct(f)
    ensures RowSet(f) !! Below(f)
  {
    if f.Node? {
      DistinctNode(f);
      RowApart(f.rest);
      RowWithin(f.rest);
    }
  }

  // ---------------------------------------------------------------- menu_finalize

  /** The children of the first entry before they are hoisted, and the siblings that stay. */
  function KidsOf(f: Forest, nests: NestTest): Forest
    requires f.Node?
  {
    if f.kids.Node? then FinalizeAll(f.kids, nests)
    else if f.menu.symbol.Some? then Absorb(f.menu, f.rest, nests).0
    else Nil
  }

  function RestOf(f: Forest, nests: NestTest): Forest
    requires f.Node?
  {
    if f.kids.Nil? && f.menu.symbol.Some? then Absorb(f.menu, f.rest, nests).1 else f.rest
  }

  lemma PartsOf(f: Forest, nests: NestTest)
    requires f.Node? && Distinct(f)
    ensures FinalizeFirst(f, nests) == Node(f.menu, Hoist(KidsOf(f, nests)), RestOf(f, nests))
    ensures var kids, rest := KidsOf(f, nests), RestOf(f, nests);
            && Distinct(kids) && f.menu !in Entries(kids) && f.menu !in Entries(rest) && Entries(kids) !! Entries(rest)
            && Entries(Hoist(kids)) == Entries(kids) && {f.menu} + Entries(kids) + Entries(rest) == Entries(f)
  {
    var kids, rest := KidsOf(f, nests), RestOf(f, nests);
    DistinctNode(f);
    SamePreorder(Hoist(kids), kids);
    if f.kids.Node? {
      SamePreorder(kids, f.kids);
    } else if f.menu.symbol.Some? {
      EntriesSplit(f.rest, kids, rest);
    }
  }

  /** The entry p with its children before they are hoisted, among the siblings that stay. */
  ghost predicate Assembled(f: Forest, q: Menu?, nests: NestTest, src: Settings, syms: Symbols)
    requires f.Node?
    reads syms, f.menu, Entries(KidsOf(f, nests)), Entries(RestOf(f, nests))
  {
    var p, kids, rest := f.menu, KidsOf(f, nests), RestOf(f, nests);
    && p.parent == q && Linked(kids, p.list, p, null) && Linked(rest, p.next, q, null)
    && Now(p) == syms.fin(p) && AllAre(Entries(kids), syms.fin) && Pending(rest, src, syms)
  }

  /** menu_finalize on the entry p and the siblings behind it. */
  method MenuFinalize(p: Menu, syms: Symbols, ghost f: Forest, ghost q: Menu?, ghost src: Settings)
    requires f.Node? && Distinct(f) && Linked(f, p, q, null) && Pending(f, src, syms)
    modifies Entries(f), syms
    ensures var g := FinalizeFirst(f, NestsOf(syms.fin));
            && Linked(g, p, q, null) && AllAre({p} + Entries(g.kids), syms.fin)
            && Pending(g.rest, src, syms) && Progress(f, g.rest, old(syms.handed), old(syms.direct), syms)
    decreases |Preorder(f)|, 3
  {
    ghost var nests := NestsOf(syms.fin);
    PartsOf(f, nests);
    FinalizeBelow(p, syms, f, q, src);
    EntriesAllocated(KidsOf(f, nests));
    EntriesAllocated(RestOf(f, nests));
    HoistChildren(p, KidsOf(f, nests));
  }

  /** Its part before the children are hoisted. */
  method FinalizeBelow(p: Menu, syms: Symbols, ghost f: Forest, ghost q: Menu?, ghost src: Settings)
    requires f.Node? && Distinct(f) && Linked(f, p, q, null) && Pending(f, src, syms)
    modifies Entries(f), syms
    ensures Assembled(f, q, NestsOf(syms.fin), src, syms)
    ensures Progress(f, RestOf(f, NestsOf(syms.fin)), old(syms.handed), old(syms.direct), syms)
    decreases |Preorder(f)|, 2
  {
    if p.list != null {
      WithChildren(p, syms, f, q, src);
    } else if p.symbol.Some? {
      WithoutChildren(p, syms, f, q, src);
    } else {
      DistinctNode(f);
      PendingParts(f, src, syms);
    }
  }

  method WithChildren(p: Menu, syms: Symbols, ghost f: Forest, ghost q: Menu?, ghost src: Settings)
    requires f.Node? && Distinct(f) && Linked(f, p, q, null) && Pending(f, src, syms) && p.list != null
    modifies Entries(f), syms
    ensures Assembled(f, q, NestsOf(syms.fin), src, syms)
    ensures Progress(f, RestOf(f, NestsOf(syms.fin)), old(syms.handed), old(syms.direct), syms)
    decreases |Preorder(f)|, 1
  {
    DistinctNode(f);
    PendingParts(f, src, syms);
    EntriesAllocated(f.rest);
    FinalizeInner(p, syms, f.kids, src);
    SamePreorder(KidsOf(f, NestsOf(syms.fin)), f.kids);
  }

  method WithoutChildren(p: Menu, syms: Symbols, ghost f: Forest, ghost q: Menu?, ghost src: Settings)
    requires f.Node? && Distinct(f) && Linked(f, p, q, null) && Pending(f, src, syms)
    requires p.list == null && p.symbol.Some?
    modifies Entries(f), syms
    ensures Assembled(f, q, NestsOf(syms.fin), src, syms)
    ensures Progress(f, RestOf(f, NestsOf(syms.fin)), old(syms.handed), old(syms.direct), syms)
    decreases |Preorder(f)|, 1
  {
    DistinctNode(f);
    PendingParts(f, src, syms);
    FinalizeLeaf(p, syms, f.rest, q, src);
  }

  lemma PendingParts(f: Forest, src: Settings, syms: Symbols)
    requires f.Node? && Pending(f, src, syms)
    ensures Now(f.menu) == syms.fin(f.menu) && AllAre(Entries(f.kids), src) && Pending(f.rest, src, syms)
    ensures HandedDown(f.kids, Condition(f.menu, Now(f.menu)), src, syms.fin)
  {
    assert f.menu in RowSet(f);
    BothAre({f.menu}, RowSet(f.rest), syms.fin);
    BothAre(Entries(f.kids), Below(f.rest), src);
  }

  /** The children of p: the conditions go down, and every child is finalized. */
  method FinalizeInner(p: Menu, syms: Symbols, ghost f: Forest, ghost src: Settings)
    requires Distinct(f) && p !in Entries(f) && Linked(f, p.list, p, null)
    requires syms.Valid() && AllAre(Entries(f), src) && HandedDown(f, Condition(p, Now(p)), src, syms.fin)
    modifies Entries(f), syms
    ensures Linked(FinalizeAll(f, NestsOf(syms.fin)), p.list, p, null) && AllAre(Entries(f), syms.fin) && syms.Valid()
    ensures syms.handed == old(syms.handed) + Entries(f) && syms.direct == old(syms.direct) + Leaves(f)
    decreases |Preorder(f)|, 7
  {
    EntriesAllocated(f);
    RowWithin(f);
    HandToChildren(p, syms, f, src);
    FinalizeChildren(p, syms, f, src);
  }

  /** A symbol's entry p without children, before the row f: siblings are absorbed, then the
      direct dependency is noted. */
  method FinalizeLeaf(p: Menu, syms: Symbols, ghost f: Forest, ghost q: Menu?, ghost src: Settings)
    requires Distinct(f) && p !in Entries(f) && Linked(f, p.next, q, null) && p.list == null && p.symbol.Some?
    requires Pending(f, src, syms) && Now(p) == syms.fin(p)
    modifies p`list, p`next, Entries(f), syms
    ensures var r := Absorb(p, f, NestsOf(syms.fin));
            && Linked(r.0, p.list, p, null) && Linked(r.1, p.next, q, null) && AllAre(Entries(r.0), syms.fin)
            && Pending(r.1, src, syms) && syms.handed + Below(r.1) == old(syms.handed) + Below(f)
            && syms.direct + Leaves(r.1) == old(syms.direct) + {p} + Leaves(f)
    decreases |Preorder(f)|, 8
  {
    AbsorbSiblings(p, syms, f, q, src);
    var r := Absorb(p, f, NestsOf(syms.fin));
    NoteDirect(p, syms, r.0, r.1, q, src);
  }

  /** The direct dependency of p is noted. */
  method NoteDirect(p: Menu, syms: Symbols, ghost kids: Forest, ghost rest: Forest, ghost q: Menu?, ghost src: Settings)
    requires p.symbol.Some? && Now(p) == syms.fin(p) && Pending(rest, src, syms)
    requires Linked(kids, p.list, p, null) && Linked(rest, p.next, q, null) && AllAre(Entries(kids), syms.fin)
    modifies syms`dirDep, syms`direct
    ensures syms.direct == old(syms.direct) + {p} && Pending(rest, src, syms)
    ensures Linked(kids, p.list, p, null) && Linked(rest, p.next, q, null) && AllAre(Entries(kids), syms.fin)
  {
    EntriesAllocated(kids);
    EntriesAllocated(rest);
    syms.AddDirect(p, p.dep);
  }

  /** The row `done` is finalized, and what follows depends on `todo` alone. */
  ghost predicate Finalizing(nests: NestTest, f: Forest, done: Forest, todo: Forest) {
    && Distinct(todo) && Entries(done) !! Entries(todo) && Entries(done) + Entries(todo) == Entries(f)
    && |Preorder(todo)| <= |Preorder(f)| && FinalizeAll(f, nests) == Append(done, FinalizeAll(todo, nests))
  }

  lemma FinalizingStep(nests: NestTest, f: Forest, done: Forest, todo: Forest)
    requires Finalizing(nests, f, done, todo) && todo.Node?
    ensures var g := FinalizeFirst(todo, nests);
            && Finalizing(nests, f, Append(done, First(g)), g.rest)
            && |Preorder(g.rest)| < |Preorder(todo)|
  {
    var g := FinalizeFirst(todo, nests);
    WorkingStep(f, done, todo, g, FinalizeAll(g.rest, nests));
    FirstSplits(g);
  }

  /** menu_finalize on the whole tree, whose entries have the conditions src. Afterwards they
      have their final conditions, which also decided the nesting, and the dependencies of the
      symbols are what the final conditions demand. */
  method FinalizeTree(root: Menu, ghost f: Forest, ghost src: Settings) returns (syms: Symbols)
    requires f.Node? && f.rest.Nil? && Distinct(f) && Linked(f, root, null, null) && AllAre(Entries(f), src)
    modifies Entries(f)
    ensures fresh(syms) && syms.Valid()
    ensures Linked(FinalizeFirst(f, NestsOf(syms.fin)), root, null, null)
    ensures AllAre(Entries(f), syms.fin) && syms.fin(root) == src(root)
    ensures HandedDown(f.kids, Condition(root, src(root)), src, syms.fin)
    ensures syms.handed == Entries(f.kids) && syms.direct == Leaves(f)
  {
    ghost var fin := FinalSettings(f, src);
    DistinctSingle(f);
    FinalSettingsHanded(f, src);
    StartReady(f, src, fin);
    EntriesAllocated(f);
    syms := new Symbols(fin);
    MenuFinalize(root, syms, f, null, src);
    PartsOf(f, NestsOf(fin));
  }

  lemma StartReady(f: Forest, src: Settings, fin: Settings)
    requires f.Node? && f.rest.Nil? && AllAre(Entries(f), src) && fin(f.menu) == src(f.menu)
    ensures Ready(f, src, fin)
  {
    assert RowSet(f) == {f.menu} + RowSet(Nil) && Below(f) == Entries(f.kids) + Below(Nil);
    assert RowSet(Nil) == {} && Below(Nil) == {} && Entries(Nil) == {};
    assert RowSet(f) == {f.menu};
    assert Below(f) == Entries(f.kids);
    assert Entries(f) == {f.menu} + Entries(f.kids);
    BothAre({f.menu}, Entries(f.kids), src);
  }

  lemma {:induction false} DistinctSingle(f: Forest)
    requires Distinct(f)
    ensures Single(f)
  {
    if f.Node? {
      DistinctNode(f);
      EntriesDisjoint(f.kids, f.rest);
      EntriesPreorder(f.kids, f.menu);
      EntriesPreorder(f.rest, f.menu);
      DistinctSingle(f.kids);
      DistinctSingle(f.rest);
    }
  }

  /** Every child is finalized, in order. */
  method FinalizeChildren(p: Menu, syms: Symbols, ghost f: Forest, ghost src: Settings)
    requires Distinct(f) && p !in Entries(f) && Linked(f, p.list, p, null) && Pending(f, src, syms)
    modifies Entries(f), syms
    ensures Linked(FinalizeAll(f, NestsOf(syms.fin)), p.list, p, null)
    ensures AllAre(Entries(f), syms.fin) && syms.Valid() && Progress(f, Nil, old(syms.handed), old(syms.direct), syms)
    decreases |Preorder(f)|, 6
  {
    var menu := p.list;
    ghost var nests := NestsOf(syms.fin);
    ghost var done, todo := Nil, f;
    while menu != null
      invariant Finalizing(nests, f, done, todo)
      invariant Linked(done, p.list, p, menu) && Linked(todo, menu, p, null)
      invariant AllAre(Entries(done), syms.fin) && Pending(todo, src, syms)
      invariant Progress(f, todo, old(syms.handed), old(syms.direct), syms)
      decreases |Preorder(todo)|
    {
      FinalizeNext(menu, syms, p.list, p, p, done, todo, src);
      ghost var g := FinalizeFirst(todo, nests);
      FinalizingStep(nests, f, done, todo);
      LinkedStep(done, g, p.list, p);
      done, todo := Append(done, First(g)), g.rest;
      menu := menu.next;
    }
    LinkedAppend(done, Nil, p.list, null, p, null);
  }

  lemma {:induction false} AppendNil(f: Forest)
    ensures Append(f, Nil) == f
  {
    if f.Node? {
      AppendNil(f.rest);
    }
  }

  /** The row `done` under p ends in the entry `last`, which is linked on to tail. */
  ghost predicate EndsIn(done: Forest, first: Menu?, p: Menu, front: Forest, last: Menu, kids: Forest, tail: Menu?)
    reads last, Entries(front), Entries(kids)
  {
    && done == Append(front, Node(last, kids, Nil))
    && Linked(front, first, p, last) && Linked(kids, last.list, last, null)
    && last.parent == p && last.next == tail
  }

  /** `done` is absorbed, and what follows depends on `todo` alone. */
  ghost predicate Absorbing(p: Menu, nests: NestTest, f: Forest, done: Forest, todo: Forest) {
    && Distinct(todo) && Distinct(done) && Entries(done) !! Entries(todo)
    && Entries(done) + Entries(todo) == Entries(f) && |Preorder(todo)| <= |Preorder(f)|
    && Absorb(p, f, nests) == (Append(done, Absorb(p, todo, nests).0), Absorb(p, todo, nests).1)
  }

  lemma AbsorbingStep(p: Menu, nests: NestTest, f: Forest, done: Forest, todo: Forest)
    requires Absorbing(p, nests, f, done, todo) && todo.Node? && nests(p, todo.menu)
    ensures var g := FinalizeFirst(todo, nests);
            && Absorbing(p, nests, f, Append(done, First(g)), g.rest)
            && |Preorder(g.rest)| < |Preorder(todo)|
  {
    var g := FinalizeFirst(todo, nests);
    WorkingStep(f, done, todo, g, Absorb(p, g.rest, nests).0);
    FirstSplits(g);
  }

  /** The test of menu_finalize, on the conditions that the entries have. */
  function TestNests(p: Menu, menu: Menu): bool
    reads p`dep, p`props, menu`dep, menu`props
  {
    p.symbol.Some? && Nests(p.symbol.value, PromptCondition(p, Now(p)), Condition(menu, Now(menu)))
  }

  /** The following siblings that are nested under p become its children. */
  method AbsorbSiblings(p: Menu, syms: Symbols, ghost f: Forest, ghost q: Menu?, ghost src: Settings)
    requires Distinct(f) && p !in Entries(f) && Linked(f, p.next, q, null) && p.list == null && p.symbol.Some?
    requires Pending(f, src, syms) && Now(p) == syms.fin(p)
    modifies p`list, p`next, Entries(f), syms
    ensures var r := Absorb(p, f, NestsOf(syms.fin));
            && Linked(r.0, p.list, p, null) && Linked(r.1, p.next, q, null) && AllAre(Entries(r.0), syms.fin)
            && Pending(r.1, src, syms) && Progress(f, r.1, old(syms.handed), old(syms.direct), syms)
    decreases |Preorder(f)|, 7
  {
    var menu, lastMenu, done, todo, front, kids := AbsorbRow(p, syms, f, q, src);
    CloseAbsorbed(p, lastMenu, menu, syms, q, done, todo, front, kids, src);
  }

  /** Its end: the absorbed siblings, if any, are relinked. */
  method CloseAbsorbed(p: Menu, lastMenu: Menu?, menu: Menu?, syms: Symbols, ghost q: Menu?, ghost done: Forest,
          ghost todo: Forest, ghost front: Forest, ghost kids: Forest, ghost src: Settings)
    requires Distinct(done) && Entries(done) !! Entries(todo) && p !in Entries(done) + Entries(todo) && p.list == null
    requires lastMenu == null ==> done == Nil && menu == p.next
    requires lastMenu != null ==> EndsIn(done, p.next, p, front, lastMenu, kids, menu)
    requires Linked(todo, menu, q, null) && AllAre(Entries(done), syms.fin) && Pending(todo, src, syms)
    modifies p`list, p`next, Entries(done)`next
    ensures Linked(done, p.list, p, null) && Linked(todo, p.next, q, null)
    ensures AllAre(Entries(done), syms.fin) && Pending(todo, src, syms)
  {
    if lastMenu != null {
      EntriesAllocated(done);
      EntriesAllocated(todo);
      CloseRow(p, lastMenu, menu, q, done, todo, front, kids);
    }
  }

  /** Its loop: the row `done` is under p already, and `todo` stays. */
  method AbsorbRow(p: Menu, syms: Symbols, ghost f: Forest, ghost q: Menu?, ghost src: Settings)
    returns (menu: Menu?, lastMenu: Menu?, ghost done: Forest, ghost todo: Forest, ghost front: Forest, ghost kids: Forest)
    requires Distinct(f) && p !in Entries(f) && Linked(f, p.next, q, null) && p.list == null && p.symbol.Some?
    requires Pending(f, src, syms) && Now(p) == syms.fin(p)
    modifies Entries(f), syms
    ensures (done, todo) == Absorb(p, f, NestsOf(syms.fin)) && Absorbing(p, NestsOf(syms.fin), f, done, todo)
    ensures lastMenu == null ==> done == Nil && menu == p.next
    ensures lastMenu != null ==> EndsIn(done, p.next, p, front, lastMenu, kids, menu)
    ensures Linked(todo, menu, q, null) && AllAre(Entries(done), syms.fin)
    ensures Pending(todo, src, syms) && Progress(f, todo, old(syms.handed), old(syms.direct), syms)
    decreases |Preorder(f)|, 6
  {
    ghost var nests := NestsOf(syms.fin);
    menu, lastMenu := p.next, null;
    done, todo, front, kids := Nil, f, Nil, Nil;
    while menu != null && TestNests(p, menu)
      invariant Absorbing(p, nests, f, done, todo)
      invariant Linked(todo, menu, q, null)
      invariant lastMenu == null ==> done == Nil && menu == p.next
      invariant lastMenu != null ==> EndsIn(done, p.next, p, front, lastMenu, kids, menu)
      invariant Linked(done, p.next, p, menu)
      invariant AllAre(Entries(done), syms.fin) && Pending(todo, src, syms)
      invariant Progress(f, todo, old(syms.handed), old(syms.direct), syms)
      decreases |Preorder(todo)|
    {
      ghost var g := FinalizeFirst(todo, nests);
      AbsorbingStep(p, nests, f, done, todo);
      AbsorbOne(menu, p, syms, p.next, q, done, todo, src);
      front, kids, done, todo := done, g.kids, Append(done, First(g)), g.rest;
      lastMenu := menu;
      menu := menu.next;
    }
    AppendNil(done);
  }

  /** The first entry of `todo` is finalized, among the siblings behind it. */
  method FinalizeNext(menu: Menu, syms: Symbols, first: Menu?, ghost p: Menu?, ghost q: Menu?, ghost done: Forest,
          ghost todo: Forest, ghost src: Settings)
    requires todo.Node? && Distinct(todo) && Entries(done) !! Entries(todo)
    requires Linked(done, first, p, menu) && Linked(todo, menu, q, null)
    requires Pending(todo, src, syms) && AllAre(Entries(done), syms.fin)
    modifies Entries(todo), syms
    ensures Linked(done, first, p, menu) && Linked(FinalizeFirst(todo, NestsOf(syms.fin)), menu, q, null)
    ensures AllAre(Entries(Append(done, First(FinalizeFirst(todo, NestsOf(syms.fin))))), syms.fin)
    ensures Pending(FinalizeFirst(todo, NestsOf(syms.fin)).rest, src, syms)
    ensures Progress(todo, FinalizeFirst(todo, NestsOf(syms.fin)).rest, old(syms.handed), old(syms.direct), syms)
    decreases |Preorder(todo)|, 4
  {
    EntriesAllocated(done);
    ghost var g := FinalizeFirst(todo, NestsOf(syms.fin));
    MenuFinalize(menu, syms, todo, q, src);
    assert AllAre(Entries(done), syms.fin);
    DoneAre(done, g, syms.fin);
  }

  lemma DoneAre(done: Forest, g: Forest, fin: Settings)
    requires g.Node? && AllAre(Entries(done), fin) && AllAre({g.menu} + Entries(g.kids), fin)
    ensures AllAre(Entries(Append(done, First(g))), fin)
  {
    EntriesOfAppend(done, First(g));
    assert Entries(First(g)) == {g.menu} + Entries(g.kids) + Entries(Nil);
    BothAre(Entries(done), {g.menu} + Entries(g.kids), fin);
  }

  /** One sibling is finalized and gets the parent p. */
  method AbsorbOne(menu: Menu, p: Menu, syms: Symbols, first: Menu?, ghost q: Menu?, ghost done: Forest,
          ghost todo: Forest, ghost src: Settings)
    requires todo.Node? && Distinct(todo) && Entries(done) !! Entries(todo)
    requires Linked(done, first, p, menu) && Linked(todo, menu, q, null)
    requires Pending(todo, src, syms) && AllAre(Entries(done), syms.fin)
    modifies Entries(todo), syms
    ensures var g := FinalizeFirst(todo, NestsOf(syms.fin));
            && EndsIn(Append(done, First(g)), first, p, done, menu, g.kids, menu.next)
            && Linked(Append(done, First(g)), first, p, menu.next) && Linked(g.rest, menu.next, q, null)
            && AllAre(Entries(Append(done, First(g))), syms.fin)
            && Pending(g.rest, src, syms) && Progress(todo, g.rest, old(syms.handed), old(syms.direct), syms)
    decreases |Preorder(todo)|, 5
  {
    FinalizeNext(menu, syms, first, p, q, done, todo, src);
    ghost var g := FinalizeFirst(todo, NestsOf(syms.fin));
    SamePreorder(g, todo);
    Reparent(menu, p, syms, first, q, done, g, src);
  }

  /** The first entry of g moves under p and ends the row before it. */
  method Reparent(menu: Menu, p: Menu, syms: Symbols, first: Menu?, ghost q: Menu?, ghost done: Forest, ghost g: Forest,
          ghost src: Settings)
    requires g.Node? && menu == g.menu && Distinct(g) && Entries(done) !! Entries(g)
    requires Linked(done, first, p, menu) && Linked(g, menu, q, null)
    requires AllAre(Entries(Append(done, First(g))), syms.fin) && Pending(g.rest, src, syms)
    modifies menu`parent
    ensures AllAre(Entries(Append(done, First(g))), syms.fin) && Pending(g.rest, src, syms)
    ensures EndsIn(Append(done, First(g)), first, p, done, menu, g.kids, menu.next)
    ensures Linked(Append(done, First(g)), first, p, menu.next) && Linked(g.rest, menu.next, q, null)
  {
    EntriesAllocated(Append(done, First(g)));
    EntriesAllocated(g.rest);
    SetParent(menu, p, first, q, done, g);
  }

  /** The siblings up to lastMenu, already under p, become its list; its next is the one behind. */
  method CloseRow(p: Menu, lastMenu: Menu, menu: Menu?, ghost q: Menu?,
                  ghost done: Forest, ghost todo: Forest, ghost front: Forest, ghost kids: Forest)
    requires EndsIn(done, p.next, p, front, lastMenu, kids, menu) && Linked(todo, menu, q, null)
    requires Distinct(done) && Entries(done) !! Entries(todo) && p !in Entries(done) + Entries(todo)
    modifies p`list, p`next, Entries(done)`next
    ensures Linked(done, p.list, p, null) && Linked(todo, p.next, q, null)
  {
    EntriesAppend(front, Node(lastMenu, kids, Nil));
    EntriesAllocated(done);
    EntriesAllocated(todo);
    p.list := p.next;
    p.next := lastMenu.next;
    SetNext(lastMenu, null, p.list, p, front, kids);
  }

  /** A child without a prompt text lets its own children follow it in the row. */
  method HoistOne(menu: Menu, p: Menu, ghost f: Forest)
    requires f.Node? && f.kids.Node? && menu == f.menu && Distinct(f) && Linked(f, menu, p, null)
    modifies Entries(f)`next, Entries(f)`list, Entries(f)`parent
    ensures Linked(Node(menu, Nil, Append(f.kids, f.rest)), menu, p, null)
  {
    DistinctNode(f);
    EntriesAllocated(f.rest);
    Adopt(menu.list, p, menu.next, f.kids, menu);
    LinkedAppend(f.kids, f.rest, menu.list, menu.next, p, null);
    EntriesAppend(f.kids, f.rest);
    menu.next := menu.list;
    menu.list := null;
  }

  /** Children of children without a prompt text move up behind their parent. */
  method HoistChildren(p: Menu, ghost f: Forest)
    requires Distinct(f) && p !in Entries(f) && Linked(f, p.list, p, null)
    modifies Entries(f)`next, Entries(f)`list, Entries(f)`parent
    ensures Linked(Hoist(f), p.list, p, null)
  {
    var menu := p.list;
    ghost var done, todo := Nil, f;
    while menu != null
      invariant Working(f, done, todo)
      invariant Hoist(f) == Append(done, Hoist(todo))
      invariant Linked(done, p.list, p, menu) && Linked(todo, menu, p, null)
      decreases |Preorder(todo)|
    {
      ghost var g := todo;
      EntriesAllocated(done);
      if menu.list != null && menu.plain {
        HoistOne(menu, p, todo);
        g := Node(menu, Nil, Append(todo.kids, todo.rest));
      }
      WorkingStep(f, done, todo, g, Hoist(g.rest));
      LinkedStep(done, g, p.list, p);
      done, todo := Append(done, First(g)), g.rest;
      menu := menu.next;
    }
    AppendNil(done);
  }
}
