/** Checked 64-bit arithmetic (Fixed63.cc). */
module Fixed63Arithmetic {
  import opened Products

  const TWO_32 := 0x1_0000_0000
  const TWO_63 := 0x8000_0000_0000_0000
  const TWO_64 := 0x1_0000_0000_0000_0000

  type Int64 = x: int | -0x8000_0000_0000_0000 <= x < 0x8000_0000_0000_0000
  type Word64 = x: nat | x < 0x1_0000_0000_0000_0000

  const MIN_INT: Int64 := -0x8000_0000_0000_0000
  const MAX_INT: Int64 := 0x7fff_ffff_ffff_ffff

  datatype Signal = Overflow | Underflow | DivideByZero

  datatype Outcome = Done | Raised(signal: Signal)

  /** The bits of a signed value, and back. */
  function ToWord(x: Int64): Word64 { if x < 0 then x + TWO_64 else x }

  function ToInt(w: Word64): Int64 { if w < TWO_63 then w else w - TWO_64 }

  /** Two's complement negation: the smallest value is its own negative. */
  function Negative(x: Int64): Int64 { if x == MIN_INT then MIN_INT else -x }

  function WrapAdd(a: Word64, b: Word64): Word64 { if a + b < TWO_64 then a + b else a + b - TWO_64 }

  function WrapSub(a: Word64, b: Word64): Word64 { if a >= b then a - b else a - b + TWO_64 }

  function High(a: Word64): nat { a / TWO_32 }

  function Low(a: Word64): nat { a % TWO_32 }

  /** Quotient and remainder as C computes them: the quotient is rounded towards zero. */
  function CQuotient(a: int, b: int): int
    requires b != 0
  {
    if a >= 0 then a / b else -((-a) / b)
  }

  function CRemainder(a: int, b: int): int
    requires b != 0
  {
    a - CQuotient(a, b) * b
  }

  /** Two 32-bit factors make a 64-bit product. */
  lemma HalvesFit(a: nat, b: nat)
    requires a < TWO_32 && b < TWO_32
    ensures 0 <= a * b < TWO_64
  {
    ProductBelow(a, b, 0xffff_ffff);
    assert 0xffff_ffff * 0xffff_ffff < 0x1_0000_0000_0000_0000;
  }

  lemma ProductBelow(a: nat, b: nat, m: nat)
    requires a <= m && b <= m
    ensures 0 <= a * b <= m * m
  {
    MulMono(a, m, b);
    MulMono(b, m, m);
    MulMono(0, a, b);
  }

  /** The product in halves, when at most one high half is not zero. */
  lemma ProductInHalves(a: Word64, b: Word64)
    requires High(a) == 0 || High(b) == 0
    ensures a * b == (Low(a) * High(b) + High(a) * Low(b)) * TWO_32 + Low(a) * Low(b)
  {
    var h, l, k, m := High(a), Low(a), High(b), Low(b);
    assert a == h * TWO_32 + l && b == k * TWO_32 + m;
    assert (h * TWO_32 + l) * (k * TWO_32 + m) == h * k * TWO_32 * TWO_32 + (l * k + h * m) * TWO_32 + l * m;
  }

  /** Two factors of 2^32 or more leave the word. */
  lemma BothHigh(a: Word64, b: Word64)
    requires High(a) != 0 && High(b) != 0
    ensures a * b >= TWO_64
  {
    MulMono(TWO_32, a, b);
    MulMono(TWO_32, b, TWO_32);
  }

  /** regMultiply: the exact unsigned product, or an overflow. */
  method RegMultiply(a: Word64, b: Word64) returns (outcome: Outcome, ret: Word64)
    ensures outcome == (if a * b < TWO_64 then Done else Raised(Overflow))
    ensures outcome.Done? ==> ret == a * b
  {
    var aHigh, aLow, bHigh, bLow := High(a), Low(a), High(b), Low(b);
    ret := 0;
    if aHigh == 0 {
      if bHigh != 0 {
        HalvesFit(aLow, bHigh);
        ret := aLow * bHigh;
      }
    } else if bHigh == 0 {
      HalvesFit(aHigh, bLow);
      ret := aHigh * bLow;
    } else {
      BothHigh(a, b);
      return Raised(Overflow), 0;
    }
    ProductInHalves(a, b);
    HalvesFit(aLow, bLow);
    if ret != 0 {
      if High(ret) != 0 {
        return Raised(Overflow), 0;
      }
      ret := ret * TWO_32;
      var tmp: Word64 := aLow * bLow;
      ret := WrapAdd(ret, tmp);
      if ret < tmp {
        return Raised(Overflow), 0;
      }
      return Done, ret;
    }
    ret := aLow * bLow;
    outcome := Done;
  }

  /** The product of the sizes is the size of the product. */
  lemma SignedProduct(a: int, b: int)
    ensures (-a) * b == -(a * b) && a * (-b) == -(a * b) && (-a) * (-b) == a * b
  {
  }

  class Fixed63 {
    var x: Int64

    constructor (y: Int64)
      ensures x == y
    {
      x := y;
    }

    /** operator+=: exact, or a signal for the side on which the sum leaves the range. */
    method AddAssign(rhs: Int64) returns (outcome: Outcome)
      modifies this
      ensures outcome ==
        if old(x) + rhs > MAX_INT then Raised(Overflow)
        else if old(x) + rhs < MIN_INT then Raised(Underflow) else Done
      ensures x == if outcome.Done? then old(x) + rhs else old(x)
    {
      if (x < 0) == (rhs < 0) {
        if rhs < 0 {
          if x < MIN_INT - rhs {
            return Raised(Underflow);
          }
        } else {
          if MAX_INT - x < rhs {
            return Raised(Overflow);
          }
        }
      }
      x := x + rhs;
      outcome := Done;
    }

    /** operator-=: the difference is formed with wrap-around and then judged by its order. */
    method SubAssign(rhs: Int64) returns (outcome: Outcome)
      modifies this
      ensures outcome ==
        if old(x) - rhs > MAX_INT then Raised(Overflow)
        else if old(x) - rhs < MIN_INT then Raised(Underflow) else Done
      ensures x == if outcome.Done? then old(x) - rhs else old(x)
    {
      var tmp := ToInt(WrapSub(ToWord(x), ToWord(rhs)));
      if x >= 0 && rhs < 0 && tmp < x {
        return Raised(Overflow);
      }
      if rhs >= 0 && tmp > x {
        return Raised(Underflow);
      }
      x := tmp;
      outcome := Done;
    }

    /** operator%=: the remainder takes the sign of the dividend, and with the quotient it
        gives the dividend back. */
    method ModAssign(rhs: Int64) returns (outcome: Outcome)
      modifies this
      ensures outcome == if rhs == 0 then Raised(DivideByZero) else Done
      ensures x == if rhs != 0 then CRemainder(old(x), rhs) else old(x)
    {
      if rhs == 0 {
        return Raised(DivideByZero);
      }
      RemainderRange(x, rhs);
      x := if rhs == -1 then 0 else CRemainder(x, rhs);
      outcome := Done;
    }

    /** operator*=: exact when neither operand is the smallest value and the product is no
        larger than the largest one in size; in every other case it signals. */
    method MulAssign(rhs: Int64) returns (outcome: Outcome)
      modifies this
      ensures outcome ==
        if old(x) != MIN_INT && rhs != MIN_INT && -TWO_63 < old(x) * rhs < TWO_63 then Done else Raised(Overflow)
      ensures outcome.Done? ==> x == old(x) * rhs
    {
      ghost var a := x;
      var y := rhs;
      var lhsNegative, rhsNegative := false, false;
      if x < 0 {
        lhsNegative := true;
        if x == MIN_INT && y != 1 {
          return Raised(Overflow);
        }
        x := Negative(x);
      }
      if y < 0 {
        rhsNegative := true;
        if y == MIN_INT && x != 1 {
          return Raised(Overflow);
        }
        y := Negative(y);
      }
      SignedProduct(a, rhs);
      var tmp;
      outcome, tmp := RegMultiply(ToWord(x), ToWord(y));
      if outcome.Raised? {
        return;
      }
      x := ToInt(tmp);
      if x < 0 {
        return Raised(Overflow);
      }
      if lhsNegative != rhsNegative {
        x := Negative(x);
      }
    }
  }

  function Size(b: int): nat { if b < 0 then -b else b }

  /** Dafny's own remainder, which is never negative, in terms of C's. */
  lemma CRemainderSigned(a: int, b: int)
    requires b != 0
    ensures a >= 0 ==> CRemainder(a, b) == a % b
    ensures a < 0 ==> CRemainder(a, b) == -((-a) % b)
  {
    if a < 0 {
      SignedProduct((-a) / b, b);
      assert -a == (-a) / b * b + (-a) % b;
    }
  }

  /** The remainder is smaller than the divisor and never of the other sign. */
  lemma RemainderRange(a: int, b: int)
    requires b != 0
    ensures Size(CRemainder(a, b)) < Size(b)
    ensures (a >= 0 ==> CRemainder(a, b) >= 0) && (a <= 0 ==> CRemainder(a, b) <= 0)
  {
    CRemainderSigned(a, b);
  }
}
