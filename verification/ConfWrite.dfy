/** The walk of conf_write (confdata.c) over the linked menu entries. */
module ConfWrite {
  import opened MenuConditions
  import opened MenuForest
  import opened MenuSymbols
  import opened MenuTree

  /** The way from the cursor up: `here` is the part of a row that starts at an entry,
      which is among the children of the first entry of `above`. */
  datatype Trail = Top | Row(here: Forest, above: Trail)

  ghost function TrailEntries(t: Trail): set<Menu> {
    if t.Top? then {} else Entries(t.here) + TrailEntries(t.above)
  }

  ghost predicate OnTrail(t: Trail)
    reads TrailEntries(t)
  {
    t.Row? ==>
      && t.here.Node?
      && Linked(t.here, t.here.menu, Parent(t.above), null)
      && OnTrail(t.above)
  }

  ghost function Parent(t: Trail): Menu? {
    if t.Row? && t.here.Node? then t.here.menu else null
  }

  /** What is still to come once the subtree at the cursor is done. */
  ghost function Later(t: Trail): seq<Menu> {
    if t.Row? && t.here.Node? then Preorder(t.here.rest) + Later(t.above) else []
  }

  /** What is still to come when the cursor arrives. */
  ghost function From(t: Trail): seq<Menu> {
    if t.Row? && t.here.Node? then [t.here.menu] + Preorder(t.here.kids) + Later(t) else []
  }

  /** What the links of an entry say about the way ahead. */
  lemma RowFacts(t: Trail)
    requires OnTrail(t) && t.Row?
    ensures t.here.menu.parent == Parent(t.above) && OnTrail(t.above)
    ensures t.above.Row? ==> t.above.here.Node? && Parent(t.above) == t.above.here.menu
    ensures t.here.menu.next == null <==> t.here.rest.Nil?
    ensures t.here.menu.list == null <==> t.here.kids.Nil?
    ensures t.here.rest.Node? ==> t.here.rest.menu == t.here.menu.next && OnTrail(Row(t.here.rest, t.above))
    ensures t.here.kids.Node? ==> t.here.kids.menu == t.here.menu.list && OnTrail(Row(t.here.kids, t))
  {
    var h := t.here;
    assert Linked(h.rest, h.menu.next, Parent(t.above), null);
    assert Linked(h.kids, h.menu.list, h.menu, null);
  }

  lemma Regroup(m: Menu, a: seq<Menu>, b: seq<Menu>, c: seq<Menu>)
    ensures [m] + a + b + c == [m] + a + (b + c)
    ensures ([m] + a + b)[1..] == a + b
  {
  }

  /** The three ways on: into the list, along next, or up. */
  lemma FromSteps(t: Trail)
    requires t.Row? && t.here.Node?
    ensures From(t) != [] && From(t)[0] == t.here.menu
    ensures t.here.kids.Node? ==> From(t)[1..] == From(Row(t.here.kids, t))
    ensures t.here.kids.Nil? && t.here.rest.Node? ==> From(t)[1..] == From(Row(t.here.rest, t.above))
    ensures t.here.kids.Nil? && t.here.rest.Nil? ==> From(t)[1..] == Later(t.above)
  {
    var k, r := t.here.kids, t.here.rest;
    Regroup(t.here.menu, Preorder(k), Later(t), []);
    if k.Node? {
      Regroup(k.menu, Preorder(k.kids), Preorder(k.rest), Later(t));
    } else if r.Node? {
      Regroup(r.menu, Preorder(r.kids), Preorder(r.rest), Later(t.above));
    }
  }

  lemma FromRoot(f: Forest)
    requires f.Node? && f.rest.Nil? && f.kids.Node?
    ensures From(Row(f.kids, Row(f, Top))) == Preorder(f.kids)
  {
    var k := f.kids;
    assert Later(Row(f, Top)) == [];
    assert Later(Row(k, Row(f, Top))) == Preorder(k.rest);
  }

  /** From the last entry of a row: the entry behind the nearest ancestor that has one. */
  method Climb(from: Menu, ghost trail: Trail) returns (menu: Menu?, ghost up: Trail)
    requires OnTrail(trail) && trail.Row? && from == trail.here.menu && from.next == null
    ensures OnTrail(up) && Parent(up) == menu
    ensures From(up) == Later(trail)
  {
    menu, up := from, trail;
    while true
      invariant OnTrail(up) && up.Row? && menu == up.here.menu && menu.next == null
      invariant Later(up) == Later(trail)
      decreases up
    {
      RowFacts(up);
      menu, up := menu.parent, up.above;
      if menu == null {
        return;
      }
      RowFacts(up);
      if menu.next != null {
        menu, up := menu.next, Row(up.here.rest, up.above);
        return;
      }
    }
  }

  lemma Handover(visited: seq<Menu>, ahead: seq<Menu>)
    requires ahead != []
    ensures visited + [ahead[0]] + ahead[1..] == visited + ahead
  {
  }

  /** One move of the cursor. */
  method Advance(from: Menu, ghost trail: Trail) returns (menu: Menu?, ghost on: Trail)
    requires OnTrail(trail) && trail.Row? && from == trail.here.menu
    ensures OnTrail(on) && Parent(on) == menu
    ensures From(trail) != [] && From(trail)[0] == from && From(on) == From(trail)[1..]
  {
    RowFacts(trail);
    FromSteps(trail);
    if from.list != null {
      menu, on := from.list, Row(trail.here.kids, trail);
    } else if from.next != null {
      menu, on := from.next, Row(trail.here.rest, trail.above);
    } else {
      menu, on := Climb(from, trail);
    }
  }

  /** conf_write visits every entry below the root once, in tree order: down into the
      list, along next, and at the end of a row up through the parents. */
  method Walk(root: Menu, ghost f: Forest) returns (visited: seq<Menu>)
    requires f.Node? && f.rest.Nil? && Linked(f, root, null, null)
    ensures visited == Preorder(f.kids)
  {
    visited := [];
    var menu := root.list;
    if menu != null {
      RowFacts(Row(f, Top));
      FromRoot(f);
    }
    ghost var trail := if menu == null then Top else Row(f.kids, Row(f, Top));
    ghost var ahead := From(trail);
    while menu != null
      invariant OnTrail(trail) && Parent(trail) == menu && ahead == From(trail)
      invariant visited + ahead == Preorder(f.kids)
      decreases |ahead|
    {
      var here := menu;
      menu, trail := Advance(menu, trail);
      Handover(visited, ahead);
      visited := visited + [here];
      ahead := ahead[1..];
    }
  }

  /** Finalizing the whole tree and writing it out keeps the order of the source files:
      every entry below the root appears exactly once, in its original position. */
  method FinalizeAndWrite(root: Menu, ghost f: Forest, ghost src: Settings) returns (visited: seq<Menu>, syms: Symbols)
    requires f.Node? && f.rest.Nil? && root.symbol.None? && Distinct(f) && Linked(f, root, null, null)
    requires AllAre(Entries(f), src)
    modifies Entries(f)
    ensures visited == Preorder(f.kids)
    ensures Linked(FinalizeFirst(f, NestsOf(syms.fin)), root, null, null)
  {
    syms := FinalizeTree(root, f, src);
    EntriesAllocated(FinalizeFirst(f, NestsOf(syms.fin)));
    visited := Walk(root, FinalizeFirst(f, NestsOf(syms.fin)));
  }
}
