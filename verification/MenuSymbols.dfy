/** What menu_finalize adds to the symbols: the reverse dependencies that select and imply
    properties give their targets, and the direct dependencies (menu.c). */
module MenuSymbols {
  import opened Expr
  import opened MenuConditions
  import opened MenuDeps
  import opened MenuForest
  import opened SymbolGraph
  import opened Wrappers

  /** A symbol and an expression that is joined to its dependency. */
  type Claim = (Symbol, Expr)

  /** prop_get_symbol: the symbol that a property selects or implies. */
  function Target(p: Property): Option<Symbol> {
    if p.value.Some? && p.value.value.Leaf? then Some(p.value.value.sym) else None
  }

  predicate IsClaim(m: Menu, p: Property, kind: PropertyKind) {
    m.symbol.Some? && p.kind == kind && Target(p).Some?
  }

  /** The selecting symbol, as far as the property is visible. */
  function ClaimOf(m: Menu, p: Property): Claim
    requires m.symbol.Some? && Target(p).Some?
  {
    (Target(p).value, AllocAnd(Some(Leaf(m.symbol.value)), p.visible).value)
  }

  ghost function PropertyClaims(m: Menu, props: seq<Property>, n: nat, kind: PropertyKind): set<Claim>
    requires n <= |props|
  {
    set i | 0 <= i < n && IsClaim(m, props[i], kind) :: ClaimOf(m, props[i])
  }

  ghost function Claims(s: set<Menu>, fin: Settings, kind: PropertyKind): set<Claim> {
    set m, c | m in s && c in PropertyClaims(m, fin(m).props, |fin(m).props|, kind) :: c
  }

  /** The conditions of the entries for each symbol. */
  ghost function DirectClaims(s: set<Menu>, fin: Settings): set<Claim> {
    set m | m in s && m.symbol.Some? && fin(m).dep.Some? :: (m.symbol.value, fin(m).dep.value)
  }

  /** expr_alloc_or with what a symbol has already. */
  function OrInto(r: map<Symbol, Expr>, c: Claim): map<Symbol, Expr> {
    r[c.0 := if c.0 in r then Bin(Disj, r[c.0], c.1) else c.1]
  }

  ghost predicate Claimed(claims: set<Claim>, t: Symbol) {
    exists c :: c in claims && c.0 == t
  }

  ghost predicate Reaches(claims: set<Claim>, t: Symbol, v: Valuation, x: Tristate) {
    exists c :: c in claims && c.0 == t && Value(c.1, v) >= x
  }

  /** In every configuration the value of a symbol's dependency is the maximum of all that was
      claimed for the symbol, and there is one exactly when something was. */
  ghost predicate Exact(r: map<Symbol, Expr>, claims: set<Claim>) {
    && (forall t {:trigger Claimed(claims, t)} :: Claimed(claims, t) <==> t in r)
    && (forall t, v, x {:trigger Reaches(claims, t, v, x)} :: t in r ==>
          (Reaches(claims, t, v, x) <==> Value(r[t], v) >= x))
  }

  lemma OrExact(r: map<Symbol, Expr>, claims: set<Claim>, c: Claim)
    requires Exact(r, claims)
    ensures Exact(OrInto(r, c), claims + {c})
  {
    var q, more := OrInto(r, c), claims + {c};
    forall t ensures Claimed(more, t) <==> t in q {
      assert Claimed(claims, t) <==> t in r;
      if t == c.0 { assert c in more; }
      if Claimed(claims, t) {
        var d :| d in claims && d.0 == t;
        assert d in more;
      }
    }
    forall t, v: Valuation, x: Tristate | t in q ensures Reaches(more, t, v, x) <==> Value(q[t], v) >= x {
      ReachesMore(claims, c, t, v, x);
      assert Claimed(claims, t) <==> t in r;
      if t in r {
        assert Reaches(claims, t, v, x) <==> Value(r[t], v) >= x;
      } else {
        NotClaimed(claims, t, v, x);
      }
    }
  }

  lemma ReachesMore(claims: set<Claim>, c: Claim, t: Symbol, v: Valuation, x: Tristate)
    ensures Reaches(claims + {c}, t, v, x) <==> Reaches(claims, t, v, x) || (c.0 == t && Value(c.1, v) >= x)
  {
    var more := claims + {c};
    if Reaches(claims, t, v, x) {
      var d :| d in claims && d.0 == t && Value(d.1, v) >= x;
      assert d in more;
    }
    if c.0 == t && Value(c.1, v) >= x {
      assert c in more;
    }
  }

  lemma NotClaimed(claims: set<Claim>, t: Symbol, v: Valuation, x: Tristate)
    ensures !Claimed(claims, t) ==> !Reaches(claims, t, v, x)
  {
  }

  /** One more property makes its claim, if it is of the kind. */
  lemma PropertyExact(r: map<Symbol, Expr>, base: set<Claim>, m: Menu, props: seq<Property>, i: nat, kind: PropertyKind)
    requires i < |props| && Exact(r, base + PropertyClaims(m, props, i, kind))
    ensures var q := if IsClaim(m, props[i], kind) then OrInto(r, ClaimOf(m, props[i])) else r;
            Exact(q, base + PropertyClaims(m, props, i + 1, kind))
  {
    var before, after := PropertyClaims(m, props, i, kind), PropertyClaims(m, props, i + 1, kind);
    if IsClaim(m, props[i], kind) {
      var c := ClaimOf(m, props[i]);
      assert after == before + {c};
      OrExact(r, base + before, c);
      assert base + before + {c} == base + after;
    } else {
      assert after == before;
    }
  }

  lemma DirectExact(r: map<Symbol, Expr>, s: set<Menu>, m: Menu, fin: Settings)
    requires Exact(r, DirectClaims(s, fin)) && m.symbol.Some?
    ensures var q := if fin(m).dep.Some? then OrInto(r, (m.symbol.value, fin(m).dep.value)) else r;
            Exact(q, DirectClaims(s + {m}, fin))
  {
    if fin(m).dep.Some? {
      var c := (m.symbol.value, fin(m).dep.value);
      OrExact(r, DirectClaims(s, fin), c);
      assert DirectClaims(s + {m}, fin) == DirectClaims(s, fin) + {c};
    } else {
      assert DirectClaims(s + {m}, fin) == DirectClaims(s, fin);
    }
  }

  /** One more entry has made its claims. */
  lemma ClaimsMore(s: set<Menu>, m: Menu, fin: Settings, kind: PropertyKind)
    ensures Claims(s + {m}, fin, kind) == Claims(s, fin, kind) + PropertyClaims(m, fin(m).props, |fin(m).props|, kind)
  {
  }

  datatype Dependency = Reverse | WeakReverse | Direct

  class Symbols {
    ghost const fin: Settings
    var revDep: map<Symbol, Expr>    // rev_dep.expr, where there is one
    var implied: map<Symbol, Expr>   // implied.expr
    var dirDep: map<Symbol, Expr>    // dir_dep.expr
    ghost var handed: set<Menu>      // the entries that have got their conditions
    ghost var direct: set<Menu>      // the entries whose conditions are in dir_dep

    constructor (ghost fin: Settings)
      ensures Valid() && this.fin == fin && handed == {} && direct == {}
    {
      this.fin := fin;
      revDep, implied, dirDep, handed, direct := map[], map[], map[], {}, {};
      new;
      assert Books(Reverse) && Books(WeakReverse) && Books(Direct);
    }

    /** One kind of dependency is what its claims demand. */
    ghost predicate Books(d: Dependency)
      reads this
    {
      match d
      case Reverse => Exact(revDep, Claims(handed, fin, Select))
      case WeakReverse => Exact(implied, Claims(handed, fin, Imply))
      case Direct => Exact(dirDep, DirectClaims(direct, fin))
    }

    ghost predicate Valid()
      reads this
    {
      forall d {:trigger Books(d)} :: Books(d)
    }

    /** The claims of the first n properties of the entry m are in, too. */
    ghost predicate Claiming(m: Menu, n: nat)
      requires n <= |fin(m).props|
      reads this
    {
      forall d {:trigger BooksWith(d, m, n)} :: BooksWith(d, m, n)
    }

    ghost predicate BooksWith(d: Dependency, m: Menu, n: nat)
      requires n <= |fin(m).props|
      reads this
    {
      match d
      case Reverse => Exact(revDep, Claims(handed, fin, Select) + PropertyClaims(m, fin(m).props, n, Select))
      case WeakReverse => Exact(implied, Claims(handed, fin, Imply) + PropertyClaims(m, fin(m).props, n, Imply))
      case Direct => Exact(dirDep, DirectClaims(direct, fin))
    }

    /** The claim of one property, in its final form. */
    method Add(m: Menu, p: Property, ghost i: nat)
      requires i < |fin(m).props| && p == fin(m).props[i] && Claiming(m, i)
      modifies this`revDep, this`implied
      ensures Claiming(m, i + 1)
    {
      assert BooksWith(Reverse, m, i) && BooksWith(WeakReverse, m, i) && BooksWith(Direct, m, i);
      PropertyExact(revDep, Claims(handed, fin, Select), m, fin(m).props, i, Select);
      PropertyExact(implied, Claims(handed, fin, Imply), m, fin(m).props, i, Imply);
      if m.symbol.Some? && Target(p).Some? {
        if p.kind.Select? {
          revDep := OrInto(revDep, ClaimOf(m, p));
        } else if p.kind.Imply? {
          implied := OrInto(implied, ClaimOf(m, p));
        }
      }
      assert BooksWith(Reverse, m, i + 1) && BooksWith(WeakReverse, m, i + 1) && BooksWith(Direct, m, i + 1);
    }

    ghost method Begin(m: Menu)
      requires Valid()
      ensures Claiming(m, 0)
    {
      assert Books(Reverse) && Books(WeakReverse) && Books(Direct);
      assert PropertyClaims(m, fin(m).props, 0, Select) == {} == PropertyClaims(m, fin(m).props, 0, Imply);
      assert Claims(handed, fin, Select) + {} == Claims(handed, fin, Select);
      assert Claims(handed, fin, Imply) + {} == Claims(handed, fin, Imply);
      assert BooksWith(Reverse, m, 0) && BooksWith(WeakReverse, m, 0) && BooksWith(Direct, m, 0);
    }

    ghost method Finish(m: Menu)
      requires Claiming(m, |fin(m).props|)
      modifies this`handed
      ensures Valid() && handed == old(handed) + {m}
    {
      var n := |fin(m).props|;
      assert BooksWith(Reverse, m, n) && BooksWith(WeakReverse, m, n) && BooksWith(Direct, m, n);
      ClaimsMore(handed, m, fin, Select);
      ClaimsMore(handed, m, fin, Imply);
      handed := handed + {m};
      assert Books(Reverse) && Books(WeakReverse) && Books(Direct);
    }

    /** dir_dep of an entry's symbol is joined with the entry's condition, if there is one. */
    method AddDirect(m: Menu, dep: Option<Expr>)
      requires Valid() && m.symbol.Some? && dep == fin(m).dep
      modifies this`dirDep, this`direct
      ensures Valid() && direct == old(direct) + {m}
    {
      assert Books(Reverse) && Books(WeakReverse) && Books(Direct);
      DirectExact(dirDep, direct, m, fin);
      if dep.Some? {
        dirDep := OrInto(dirDep, (m.symbol.value, dep.value));
      }
      direct := direct + {m};
      assert Books(Reverse) && Books(WeakReverse) && Books(Direct);
    }
  }

  // ---------------------------------------------------------------- what the books say

  /** The selecting (implying) symbol and the condition of its property both reach x. */
  ghost predicate Demands(m: Menu, c: Conditions, i: nat, kind: PropertyKind, t: Symbol, v: Valuation, x: Tristate) {
    && m.symbol.Some? && i < |c.props| && c.props[i].kind == kind && c.props[i].value == Some(Leaf(t))
    && v.tri(m.symbol.value) >= x && ValueOpt(c.props[i].visible, v) >= x
  }

  ghost predicate Demanded(s: set<Menu>, fin: Settings, kind: PropertyKind, t: Symbol, v: Valuation, x: Tristate) {
    exists m, i: nat :: m in s && Demands(m, fin(m), i, kind, t, v, x)
  }

  lemma ClaimReaches(m: Menu, p: Property, v: Valuation, x: Tristate)
    requires m.symbol.Some? && Target(p).Some?
    ensures Value(ClaimOf(m, p).1, v) >= x <==> v.tri(m.symbol.value) >= x && ValueOpt(p.visible, v) >= x
  {
  }

  lemma ReachesDemanded(s: set<Menu>, fin: Settings, kind: PropertyKind, t: Symbol, v: Valuation, x: Tristate)
    ensures Reaches(Claims(s, fin, kind), t, v, x) <==> Demanded(s, fin, kind, t, v, x)
  {
    if Reaches(Claims(s, fin, kind), t, v, x) {
      var c :| c in Claims(s, fin, kind) && c.0 == t && Value(c.1, v) >= x;
      var m :| m in s && c in PropertyClaims(m, fin(m).props, |fin(m).props|, kind);
      var i: nat :| i < |fin(m).props| && IsClaim(m, fin(m).props[i], kind) && ClaimOf(m, fin(m).props[i]) == c;
      ClaimReaches(m, fin(m).props[i], v, x);
      assert Demands(m, fin(m), i, kind, t, v, x);
    }
    if m, i: nat :| m in s && Demands(m, fin(m), i, kind, t, v, x) {
      var c := ClaimOf(m, fin(m).props[i]);
      ClaimReaches(m, fin(m).props[i], v, x);
      assert c in PropertyClaims(m, fin(m).props, |fin(m).props|, kind);
      assert c in Claims(s, fin, kind) && c.0 == t && Value(c.1, v) >= x;
    }
  }

  /** In every configuration the reverse dependency of a symbol is the maximum, over all
      properties that select the symbol, of the selecting symbol limited by the property's final
      condition; and likewise for implications. */
  lemma SelectedExact(syms: Symbols, t: Symbol, v: Valuation, x: Tristate)
    requires syms.Valid() && x > NO
    ensures (t in syms.revDep && Value(syms.revDep[t], v) >= x) <==> Demanded(syms.handed, syms.fin, Select, t, v, x)
    ensures (t in syms.implied && Value(syms.implied[t], v) >= x) <==> Demanded(syms.handed, syms.fin, Imply, t, v, x)
  {
    assert syms.Books(Reverse) && syms.Books(WeakReverse);
    BooksSay(syms.revDep, syms.handed, syms.fin, Select, t, v, x);
    BooksSay(syms.implied, syms.handed, syms.fin, Imply, t, v, x);
  }

  lemma BooksSay(r: map<Symbol, Expr>, s: set<Menu>, fin: Settings, kind: PropertyKind, t: Symbol, v: Valuation,
                 x: Tristate)
    requires Exact(r, Claims(s, fin, kind))
    ensures (t in r && Value(r[t], v) >= x) <==> Demanded(s, fin, kind, t, v, x)
  {
    var claims := Claims(s, fin, kind);
    ReachesDemanded(s, fin, kind, t, v, x);
    assert Claimed(claims, t) <==> t in r;
    if t in r {
      assert Reaches(claims, t, v, x) <==> Value(r[t], v) >= x;
    } else {
      NotClaimed(claims, t, v, x);
    }
  }

  ghost predicate EntryOf(m: Menu, t: Symbol) {
    m.symbol == Some(t)
  }

  /** The value of dir_dep: without one the symbol depends on nothing. */
  function DirectValue(r: map<Symbol, Expr>, t: Symbol, v: Valuation): Tristate {
    if t in r then Value(r[t], v) else YES
  }

  /** dir_dep covers the conditions of all entries of a symbol if and only if there is no entry
      without a condition beside one with a condition, or the value is y anyway. */
  lemma DirectCoversExact(r: map<Symbol, Expr>, s: set<Menu>, fin: Settings, t: Symbol, v: Valuation)
    requires Exact(r, DirectClaims(s, fin))
    ensures (forall m :: m in s && EntryOf(m, t) ==> ValueOpt(fin(m).dep, v) <= DirectValue(r, t, v))
        <==> t !in r || DirectValue(r, t, v) == YES || forall m :: m in s && EntryOf(m, t) ==> fin(m).dep.Some?
  {
    var claims := DirectClaims(s, fin);
    assert Claimed(claims, t) <==> t in r;
    forall m | m in s && EntryOf(m, t) && fin(m).dep.Some?
      ensures t in r && Value(fin(m).dep.value, v) <= DirectValue(r, t, v)
    {
      var x := Value(fin(m).dep.value, v);
      assert (t, fin(m).dep.value) in claims;
      assert Claimed(claims, t) && Reaches(claims, t, v, x);
    }
  }

  /** dir_dep never exceeds the conditions of the entries. */
  lemma DirectWithin(r: map<Symbol, Expr>, s: set<Menu>, fin: Settings, t: Symbol, v: Valuation)
    requires Exact(r, DirectClaims(s, fin)) && t in r
    ensures exists m :: m in s && EntryOf(m, t) && ValueOpt(fin(m).dep, v) >= DirectValue(r, t, v)
  {
    var claims, x := DirectClaims(s, fin), Value(r[t], v);
    assert Reaches(claims, t, v, x);
    var c :| c in claims && c.0 == t && Value(c.1, v) >= x;
    var m :| m in s && m.symbol.Some? && fin(m).dep.Some? && c == (m.symbol.value, fin(m).dep.value);
    assert EntryOf(m, t);
  }

  /** The failing input: a symbol with one entry without a condition and one with the condition
      n has the direct dependency n. */
  lemma UnconditionalIgnored(a: Menu, b: Menu, t: Symbol, fin: Settings, v: Valuation)
    requires v.Valid() && EntryOf(a, t) && EntryOf(b, t) && fin(a).dep == None && fin(b).dep == Some(Leaf(No))
    ensures Exact(map[t := Leaf(No)], DirectClaims({a} + {b}, fin))
    ensures ValueOpt(fin(a).dep, v) == YES && DirectValue(map[t := Leaf(No)], t, v) == NO
  {
    assert DirectClaims({}, fin) == {} && Exact(map[], {});
    DirectExact(map[], {}, a, fin);
    assert {} + {a} == {a};
    DirectExact(map[], {a}, b, fin);
    assert OrInto(map[], (t, Leaf(No))) == map[t := Leaf(No)];
  }
}
