/** FIXED(S) values: multiply in both width regimes, and pow (Fixed.h). */
module FixedPower {
  import opened Fixed63Arithmetic
  import opened Products

  datatype Result = Value(value: int) | FixedRange | FixedDivideByZero | ArithmeticOverflow

  function Pow(x: int, n: nat): int {
    if n == 0 then 1 else x * Pow(x, n - 1)
  }

  /** maxValue + 1 for S value bits. */
  function Limit(s: nat): (r: int)
    ensures r >= 1
  {
    if s == 0 then 1 else 2 * Limit(s - 1)
  }

  predicate InRange(s: nat, v: int) {
    -Limit(s) <= v < Limit(s)
  }

  /** What a product can be: with all 63 bits the smallest value cannot be computed. */
  predicate Computable(s: nat, v: int) {
    InRange(s, v) && (s == 63 ==> v != -Limit(63))
  }

  lemma {:induction false} LimitMono(s: nat, t: nat)
    requires s <= t
    ensures Limit(s) <= Limit(t)
    ensures s < t ==> 2 * Limit(s) <= Limit(t)
    decreases t - s
  {
    if s < t { LimitMono(s, t - 1); }
  }

  lemma Limit63()
    ensures Limit(7) == 128 && Limit(15) == 0x8000 && Limit(31) == 0x8000_0000 && Limit(63) == TWO_63
  {
    assert Limit(7) == 128;
    assert Limit(15) == 0x8000;
    assert Limit(23) == 0x80_0000;
    assert Limit(31) == 0x8000_0000;
    assert Limit(39) == 0x80_0000_0000;
    assert Limit(47) == 0x8000_0000_0000;
    assert Limit(55) == 0x80_0000_0000_0000;
  }

  /** The value bits of LongerNativeFixedType, for a value of at most 31 bits. */
  function LongerBits(s: nat): nat {
    if s < 8 then 15 else if s < 16 then 31 else 63
  }

  /** A product of two values that need at most 31 bits fits the next longer native type. */
  lemma LongerFits(s: nat, a: int, b: int)
    requires s < 32 && InRange(s, a) && InRange(s, b)
    ensures InRange(LongerBits(s), a * b)
  {
    var t := LongerBits(s) / 2;
    LimitMono(s, t);
    LongerSquare(s);
    ProductSize(a, b);
    SquareBound(Size(a), Size(b), Limit(t));
  }

  lemma LongerSquare(s: nat)
    requires s < 32
    ensures s <= LongerBits(s) / 2
    ensures var t := LongerBits(s) / 2; Limit(t) * Limit(t) < Limit(LongerBits(s))
  {
    Limit63();
    assert s < 8 ==> LongerBits(s) / 2 == 7;
    assert 8 <= s < 16 ==> LongerBits(s) / 2 == 15;
    assert 16 <= s ==> LongerBits(s) / 2 == 31;
  }

  lemma SquareBound(a: nat, b: nat, m: nat)
    requires a <= m && b <= m
    ensures a * b <= m * m
  {
    MulMono(a, m, b);
    MulMono(b, m, m);
  }

  /** multiply: below 32 bits in the next longer native type, otherwise through Fixed63. */
  method Multiply(s: nat, a: int, b: int) returns (r: Result)
    requires 1 <= s <= 63 && InRange(s, a) && InRange(s, b)
    ensures r.Value? <==> Computable(s, a * b) && (s == 63 ==> a != MIN_INT && b != MIN_INT)
    ensures r.Value? ==> r.value == a * b
    ensures r.FixedDivideByZero? == false && (r.ArithmeticOverflow? ==> s >= 32)
  {
    Limit63();
    LimitMono(s, 63);
    if s < 32 {
      LongerFits(s, a, b);
      var p := a * b;
      if p < -Limit(s) || p > Limit(s) - 1 {
        return FixedRange;
      }
      return Value(p);
    }
    var h := new Fixed63(a);
    var outcome := h.MulAssign(b);
    if s < 63 { LimitMono(s, 62); LimitMono(62, 63); }
    if outcome.Raised? {
      return ArithmeticOverflow;
    }
    if h.x < -Limit(s) || h.x > Limit(s) - 1 {
      return FixedRange;
    }
    r := Value(h.x);
  }

  // ---------------------------------------------------------------- powers

  lemma {:induction false} PowAdd(x: int, m: nat, n: nat)
    ensures Pow(x, m + n) == Pow(x, m) * Pow(x, n)
  {
    if m > 0 {
      PowAdd(x, m - 1, n);
      assert x * (Pow(x, m - 1) * Pow(x, n)) == x * Pow(x, m - 1) * Pow(x, n);
    }
  }

  /** The size of a power never falls, and doubles for a base of two or more. */
  lemma {:induction false} PowSize(x: int, n: nat)
    ensures x == 0 && n > 0 ==> Pow(x, n) == 0
    ensures Size(x) == 1 ==> Size(Pow(x, n)) == 1
    ensures Size(x) >= 2 ==> Size(Pow(x, n)) >= 1 && (n > 0 ==> Size(Pow(x, n)) >= 2)
  {
    if n > 0 {
      PowSize(x, n - 1);
      ProductSize(x, Pow(x, n - 1));
      if Size(x) >= 2 { MulMono(1, Size(Pow(x, n - 1)), Size(x)); }
    }
  }

  lemma ProductSize(a: int, b: int)
    ensures Size(a * b) == Size(a) * Size(b)
  {
    SignedProduct(a, b);
    if a >= 0 && b >= 0 { MulMono(0, a, b); }
    else if a >= 0 { MulMono(0, a, -b); }
    else if b >= 0 { MulMono(0, -a, b); }
    else { MulMono(0, -a, -b); }
  }

  /** Once a power has left the range, so have all higher ones: it cannot come back. */
  lemma OutOfRangeStays(s: nat, x: int, n: nat, e: nat)
    requires 1 <= s <= 63 && n <= e && !Computable(s, Pow(x, n))
    ensures !Computable(s, Pow(x, e))
  {
    LimitMono(1, s);
    PowSize(x, n);
    assert Size(Pow(x, n)) >= Limit(s);
    if n < e {
      assert Size(x) >= 2;
      PowSize(x, e - n);
      PowAdd(x, n, e - n);
      ProductSize(Pow(x, n), Pow(x, e - n));
      MulMono(2, Size(Pow(x, e - n)), Size(Pow(x, n)));
    }
  }

  /** A failed multiplication on the way means that the power itself cannot be computed. */
  lemma OutOfRange(s: nat, x: int, a: int, b: int, n: nat, e: nat)
    requires 1 <= s <= 63 && n <= e && Pow(x, n) == a * b
    requires !Computable(s, a * b) || ((!Computable(s, a) || !Computable(s, b)) && !Computable(s, Pow(x, e)))
    ensures !Computable(s, Pow(x, e))
  {
    if !Computable(s, a * b) { OutOfRangeStays(s, x, n, e); }
  }

  lemma Halve(k: nat, exp: nat)
    ensures k * exp == 2 * k * (exp / 2) + (if exp % 2 == 1 then k else 0)
    ensures exp >= 2 ==> 2 * k <= 2 * k * (exp / 2)
  {
    var m := exp / 2;
    if exp % 2 == 1 { assert k * (2 * m + 1) == 2 * k * m + k; } else { assert k * (2 * m) == 2 * k * m; }
    if m >= 1 { MulMono(1, m, 2 * k); }
  }

  /** pow: square and multiply. With an exponent of at least 0 it gives the exact power
      when that can be computed and signals FixedRange otherwise. */
  method Power(s: nat, x: int, exponent: int) returns (r: Result)
    requires 1 <= s <= 63 && InRange(s, x)
    ensures exponent >= 0 ==>
        r == if exponent == 0 || Computable(s, Pow(x, exponent)) then Value(Pow(x, exponent)) else FixedRange
    ensures exponent < 0 ==> r == if x != 0 then Value(0) else FixedDivideByZero
  {
    if exponent == 0 {
      return Value(1);
    }
    if exponent < 0 {
      if x != 0 {
        return Value(0);
      }
      return FixedDivideByZero;
    }
    var result, base, exp := 1, x, exponent;
    ghost var j: nat, k: nat := 0, 1;
    LimitMono(1, s);
    Limit63();
    if !Computable(s, x) {
      assert Pow(x, 1) == x;
      OutOfRangeStays(s, x, 1, exponent);
    }
    while exp != 0
      invariant 0 <= exp && j + k * exp == exponent
      invariant result == Pow(x, j) && base == Pow(x, k)
      invariant Computable(s, result) && InRange(s, base)
      invariant !Computable(s, base) ==> !Computable(s, Pow(x, exponent))
      decreases exp
    {
      Halve(k, exp);
      if exp % 2 == 1 {
        PowAdd(x, j, k);
        var p := Multiply(s, result, base);
        if !p.Value? {
          OutOfRange(s, x, result, base, j + k, exponent);
          return FixedRange;
        }
        result, j := p.value, j + k;
      }
      exp := exp / 2;
      if exp != 0 {
        PowAdd(x, k, k);
        var p := Multiply(s, base, base);
        if !p.Value? {
          OutOfRange(s, x, base, base, 2 * k, exponent);
          return FixedRange;
        }
        base, k := p.value, 2 * k;
      }
    }
    if result > Limit(s) - 1 || result < -Limit(s) {
      return FixedRange;
    }
    r := Value(result);
  }
}
