/** Kconfig expressions: symbols, trees, valuations and the three-valued meaning
    of a tree (expr.h, and expr_calc_value in expr.c). */
module Expr {
  import opened Wrappers

  /** A tristate: no = 0, mod = 1, yes = 2, ordered as in expr.h. */
  type Tristate = t: int | 0 <= t <= 2

  const NO: Tristate := 0
  const MOD: Tristate := 1
  const YES: Tristate := 2

  function Min(a: Tristate, b: Tristate): Tristate { if a < b then a else b }
  function Max(a: Tristate, b: Tristate): Tristate { if a > b then a else b }
  function Negate(a: Tristate): Tristate { 2 - a }

  datatype SymbolType = Unknown | Boolean | Tri | Int | Hex | String | Other

  /** A symbol is compared by identity. `Yes`, `Mod` and `No` are the three static
      symbols symbol_yes, symbol_mod and symbol_no, `Const` any other SYMBOL_CONST
      (a quoted text, never given a type) and `Sym` a configuration symbol. */
  datatype Symbol = Yes | Mod | No | Const(text: nat) | Sym(id: nat, ty: SymbolType) {
    function Type(): SymbolType {
      if Sym? then ty else Unknown
    }

    predicate IsConst() {
      !Sym?
    }

    /** One of y, m and n. */
    predicate IsStatic() {
      Yes? || Mod? || No?
    }
  }

  /** The two binary connectives. */
  datatype Junction = Conj | Disj {
    /** The symbol that leaves the other operand as it is. */
    function Unit(): Symbol { if Conj? then Yes else No }

    /** The symbol that decides the value alone. */
    function Zero(): Symbol { if Conj? then No else Yes }

    function Dual(): Junction { if Conj? then Disj else Conj }

    function Apply(a: Tristate, b: Tristate): Tristate {
      if Conj? then Min(a, b) else Max(a, b)
    }
  }

  datatype Relation = Eq | Neq | Lt | Leq | Gt | Geq {
    /** The relation that holds exactly when this one does not. */
    function Opposite(): Relation {
      match this
      case Eq => Neq
      case Neq => Eq
      case Lt => Geq
      case Leq => Gt
      case Gt => Leq
      case Geq => Lt
    }

    predicate Holds(res: int) {
      match this
      case Eq => res == 0
      case Neq => res != 0
      case Lt => res < 0
      case Leq => res <= 0
      case Gt => res > 0
      case Geq => res >= 0
    }
  }

  datatype Expr =
    | Leaf(sym: Symbol)
    | Cmp(rel: Relation, lhs: Symbol, rhs: Symbol)
    | Not(arg: Expr)
    | Bin(op: Junction, left: Expr, right: Expr)

  // ---------------------------------------------------------------- valuations

  /** The unsigned 64-bit image of a number; both union members of string_value. */
  type Word = w: nat | w < 0x1_0000_0000_0000_0000

  /** What expr_parse_string makes of a string. */
  datatype Parsed = Text | Signed(bits: Word) | Unsigned(bits: Word) | Invalid

  function AsSigned(w: Word): int {
    if w < 0x8000_0000_0000_0000 then w else w - 0x1_0000_0000_0000_0000
  }

  /** Symbol values and strings, plus the C library's number parsing: `number(s, base)`
      is the 64-bit image of s when all of s reads as one number in that base. */
  datatype Valuation = Valuation(
    modules: bool,
    tri: Symbol -> Tristate,
    str: Symbol -> string,
    number: (string, nat) -> Option<Word>)
  {
    function ParseString(s: string, ty: SymbolType): Parsed {
      match ty
      case Boolean => Text
      case Tri => Text
      case Int => if number(s, 10).Some? then Signed(number(s, 10).value) else Text
      case Hex => if number(s, 16).Some? then Unsigned(number(s, 16).value) else Text
      case String => if number(s, 0).Some? then Signed(number(s, 0).value) else Text
      case Unknown => if number(s, 0).Some? then Signed(number(s, 0).value) else Text
      case Other => Invalid
    }

    /** The kinds k1 and k2: two strings are compared as text without parsing. */
    function Kind(a: Symbol, b: Symbol): (Parsed, Parsed) {
      if a.Type().String? && b.Type().String? then (Text, Text)
      else (ParseString(str(a), a.Type()), ParseString(str(b), b.Type()))
    }

    /** The guard of the "Cannot compare" branch. */
    predicate CannotOrder(a: Symbol, b: Symbol) {
      var (k1, k2) := Kind(a, b);
      !k1.Text? && !k2.Text? && (k1.Invalid? || k2.Invalid?)
    }

    /** The three-way result `res`. */
    function Order(a: Symbol, b: Symbol): int {
      var (k1, k2) := Kind(a, b);
      if k1.Text? || k2.Text? || k1.Invalid? || k2.Invalid? then Strcmp(str(a), str(b))
      else if k1.Unsigned? || k2.Unsigned? then Three(k1.bits, k2.bits)
      else Three(AsSigned(k1.bits), AsSigned(k2.bits))
    }

    function Compare(rel: Relation, a: Symbol, b: Symbol): Tristate {
      if CannotOrder(a, b) && !rel.Eq? && !rel.Neq? then NO
      else if rel.Holds(Order(a, b)) then YES else NO
    }

    /** A valuation the configuration can be in: the three static symbols have their
        own values, a boolean is n or y, a tristate is m only with modules, both show
        their value as text, and two different constants are different texts. The
        letters y, m and n are no numbers. */
    ghost predicate Valid() {
      && tri(Yes) == YES && tri(Mod) == MOD && tri(No) == NO
      && str(Yes) == "y" && str(Mod) == "m" && str(No) == "n"
      && (forall s: Symbol :: s.Type().Boolean? ==> tri(s) != MOD)
      && (forall s: Symbol :: s.Type().Tri? && tri(s) == MOD ==> modules)
      && (forall s: Symbol :: s.Type().Boolean? || s.Type().Tri? ==> str(s) == TriText(tri(s), modules))
      && number("y", 0).None? && number("m", 0).None? && number("n", 0).None?
      && (forall s: Symbol, t: Symbol :: s.IsConst() && t.IsConst() && s != t ==> str(s) != str(t))
    }
  }

  function Three(a: int, b: int): int {
    if a > b then 1 else if a < b then -1 else 0
  }

  /** strcmp on byte strings. */
  function Strcmp(s: string, t: string): (res: int)
    ensures res == 0 <==> s == t
  {
    if s == [] && t == [] then 0
    else if s == [] then -1
    else if t == [] then 1
    else if s[0] != t[0] then Three(s[0] as int, t[0] as int)
    else
      assert s == [s[0]] + s[1..] && t == [t[0]] + t[1..];
      Strcmp(s[1..], t[1..])
  }

  /** sym_get_string_value on a boolean or tristate symbol. */
  function TriText(t: Tristate, modules: bool): string {
    if t == NO then "n" else if t == YES then "y" else if modules then "m" else "n"
  }

  /** expr_calc_value. */
  function Value(e: Expr, v: Valuation): Tristate {
    match e
    case Leaf(s) => v.tri(s)
    case Cmp(rel, a, b) => v.Compare(rel, a, b)
    case Not(a) => Negate(Value(a, v))
    case Bin(op, l, r) => op.Apply(Value(l, v), Value(r, v))
  }

  /** expr_calc_value on an optional tree: no condition means yes. */
  function ValueOpt(e: Option<Expr>, v: Valuation): Tristate {
    if e.None? then YES else Value(e.value, v)
  }

  /** Number of nodes. */
  function Size(e: Expr): nat {
    match e
    case Leaf(_) => 1
    case Cmp(_, _, _) => 1
    case Not(a) => 1 + Size(a)
    case Bin(_, l, r) => 1 + Size(l) + Size(r)
  }

  /** Every negation sits on a symbol other than y, m and n. */
  predicate NegationNormal(e: Expr) {
    match e
    case Leaf(_) => true
    case Cmp(_, _, _) => true
    case Not(a) => a.Leaf? && !a.sym.IsStatic()
    case Bin(_, l, r) => NegationNormal(l) && NegationNormal(r)
  }

  /** A comparison of a boolean or tristate symbol with y, m or n is decided by
      its tristate value alone. */
  lemma CompareWithStatic(v: Valuation, s: Symbol, c: Symbol)
    requires v.Valid() && (s.Type().Boolean? || s.Type().Tri?) && c.IsStatic()
    ensures v.Compare(Eq, s, c) == if v.tri(s) == v.tri(c) then YES else NO
    ensures v.Compare(Neq, s, c) == if v.tri(s) == v.tri(c) then NO else YES
  {
    assert v.Kind(s, c).0.Text?;
    assert "y"[0] == 'y' && "m"[0] == 'm' && "n"[0] == 'n';
  }
}
