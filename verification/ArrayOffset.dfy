/** The place of an array element in its storage, for any number of dimensions
    (ArrayDescriptor<0>::_offset in Array.cc, getTotalNbrOfElements in Array.h). */
module ArrayOffset {
  import opened Products

  /** The limits of one dimension; size counts the elements of all later dimensions. */
  datatype Limits = Limits(low: int, high: int, size: int)

  datatype Result = Offset(value: nat) | IndexOutOfBounds(dimension: nat)

  function Extent(l: Limits): int {
    l.high - l.low + 1
  }

  /** The number of elements the dimensions span. */
  function Total(lim: seq<Limits>): int {
    if lim == [] then 1 else Extent(lim[0]) * Total(lim[1..])
  }

  /** Non-empty dimensions, each size the product of the later extents. */
  predicate WellFormed(lim: seq<Limits>) {
    lim != [] ==> Extent(lim[0]) >= 1 && lim[0].size == Total(lim[1..]) && WellFormed(lim[1..])
  }

  predicate InBounds(lim: seq<Limits>, index: seq<int>)
    requires |lim| == |index|
  {
    forall i :: 0 <= i < |lim| ==> lim[i].low <= index[i] <= lim[i].high
  }

  /** The sum the loop accumulates. */
  function Linear(lim: seq<Limits>, index: seq<int>): int
    requires |lim| == |index|
  {
    if lim == [] then 0 else (index[0] - lim[0].low) * lim[0].size + Linear(lim[1..], index[1..])
  }

  /** The index vector of a place: the digits of a number in a mixed radix. */
  function Digits(lim: seq<Limits>, place: int): (index: seq<int>)
    requires WellFormed(lim)
    ensures |index| == |lim|
  {
    if lim == [] then []
    else
      TotalPositive(lim[1..]);
      [lim[0].low + place / lim[0].size] + Digits(lim[1..], place % lim[0].size)
  }

  lemma {:induction false} TotalPositive(lim: seq<Limits>)
    requires WellFormed(lim)
    ensures Total(lim) >= 1
  {
    if lim != [] {
      TotalPositive(lim[1..]);
      Below(0, Extent(lim[0]), Total(lim[1..]), 0);
    }
  }

  /** A leading digit below n and a remainder below m make a number below n * m. */
  lemma Below(d: int, n: int, m: int, r: int)
    requires 0 <= d < n && 0 <= r < m
    ensures 0 <= d * m + r < n * m
  {
    MulMono(d + 1, n, m);
    MulMono(0, d, m);
  }

  lemma BoundsRest(lim: seq<Limits>, index: seq<int>)
    requires |lim| == |index| && lim != []
    ensures InBounds(lim, index) <==> lim[0].low <= index[0] <= lim[0].high && InBounds(lim[1..], index[1..])
  {
    assert lim == [lim[0]] + lim[1..] && index == [index[0]] + index[1..];
    if lim[0].low <= index[0] <= lim[0].high && InBounds(lim[1..], index[1..]) {
      forall i | 0 <= i < |lim| ensures lim[i].low <= index[i] <= lim[i].high {
        if i > 0 { assert lim[i] == lim[1..][i - 1] && index[i] == index[1..][i - 1]; }
      }
    }
  }

  /** Every index vector in bounds has its place in the storage, and the place determines
      the vector. */
  lemma {:induction false} LinearInverse(lim: seq<Limits>, index: seq<int>)
    requires WellFormed(lim) && |lim| == |index| && InBounds(lim, index)
    ensures 0 <= Linear(lim, index) < Total(lim)
    ensures Digits(lim, Linear(lim, index)) == index
  {
    if lim != [] {
      BoundsRest(lim, index);
      LinearInverse(lim[1..], index[1..]);
      var d, m, r := index[0] - lim[0].low, lim[0].size, Linear(lim[1..], index[1..]);
      Below(d, Extent(lim[0]), m, r);
      DivMod(d, m, r);
      assert [index[0]] + index[1..] == index;
    }
  }

  /** Division with remainder has one answer. */
  lemma DivUnique(m: int, d: int, r: int, q: int, s: int)
    requires 0 <= r < m && 0 <= s < m && d * m + r == q * m + s
    ensures d == q && r == s
  {
    if q > d { MulMono(d, d, m); MulMono(d + 1, q, m); }
    if q < d { MulMono(q, q, m); MulMono(q + 1, d, m); }
  }

  lemma DivMod(d: int, m: int, r: int)
    requires 0 <= r < m
    ensures (d * m + r) / m == d && (d * m + r) % m == r
  {
    DivUnique(m, d, r, (d * m + r) / m, (d * m + r) % m);
  }

  lemma LeadingDigit(place: int, m: int, n: int)
    requires m > 0 && 0 <= place < n * m
    ensures 0 <= place / m < n && place / m * m + place % m == place
  {
    if place / m >= n { MulMono(n, place / m, m); }
  }

  /** Every place in the storage belongs to an index vector in bounds. */
  lemma {:induction false} DigitsInverse(lim: seq<Limits>, place: int)
    requires WellFormed(lim) && 0 <= place < Total(lim)
    ensures InBounds(lim, Digits(lim, place))
    ensures Linear(lim, Digits(lim, place)) == place
  {
    if lim != [] {
      TotalPositive(lim[1..]);
      var m := lim[0].size;
      var d, r := place / m, place % m;
      LeadingDigit(place, m, Extent(lim[0]));
      DigitsInverse(lim[1..], r);
      var index := Digits(lim, place);
      assert index[1..] == Digits(lim[1..], r);
      BoundsRest(lim, index);
    }
  }

  /** Different vectors in bounds have different places. */
  lemma LinearInjective(lim: seq<Limits>, a: seq<int>, b: seq<int>)
    requires WellFormed(lim) && |a| == |lim| == |b| && InBounds(lim, a) && InBounds(lim, b)
    ensures Linear(lim, a) == Linear(lim, b) ==> a == b
  {
    LinearInverse(lim, a);
    LinearInverse(lim, b);
  }

  /** The leading digit decides. */
  lemma LeadingLess(d: int, e: int, m: int, r: int, s: int)
    requires d < e && 0 <= r < m && 0 <= s
    ensures d * m + r < e * m + s
  {
    MulMono(d + 1, e, m);
  }

  /** The elements lie row by row: at the first index in which two vectors differ, the smaller
      index has the smaller place. */
  lemma {:induction false} LinearOrder(lim: seq<Limits>, a: seq<int>, b: seq<int>, k: nat)
    requires WellFormed(lim) && |a| == |lim| == |b| && InBounds(lim, a) && InBounds(lim, b)
    requires k < |lim| && a[..k] == b[..k] && a[k] < b[k]
    ensures Linear(lim, a) < Linear(lim, b)
  {
    BoundsRest(lim, a);
    BoundsRest(lim, b);
    if k > 0 {
      assert a[0] == a[..k][0] == b[..k][0] == b[0];
      assert a[1..][..k - 1] == a[..k][1..] == b[..k][1..] == b[1..][..k - 1];
      LinearOrder(lim[1..], a[1..], b[1..], k - 1);
    } else {
      LinearInverse(lim[1..], a[1..]);
      LinearInverse(lim[1..], b[1..]);
      LeadingLess(a[0] - lim[0].low, b[0] - lim[0].low, lim[0].size,
        Linear(lim[1..], a[1..]), Linear(lim[1..], b[1..]));
    }
  }

  /** With a total that fits the C type, no summand and no partial sum leaves it. */
  lemma {:induction false} SummandsFit(lim: seq<Limits>, index: seq<int>, i: nat)
    requires WellFormed(lim) && |lim| == |index| && InBounds(lim, index) && i < |lim|
    ensures 0 <= (index[i] - lim[i].low) * lim[i].size <= Linear(lim, index)
  {
    BoundsRest(lim, index);
    LinearInverse(lim[1..], index[1..]);
    TotalPositive(lim[1..]);
    var d := index[0] - lim[0].low;
    assert d * lim[0].size >= 0;
    if i > 0 {
      SummandsFit(lim[1..], index[1..], i - 1);
      assert lim[1..][i - 1] == lim[i] && index[1..][i - 1] == index[i];
    }
  }

  /** _offset: the bounds are tested dimension by dimension while the offset adds up. */
  method ElementOffset(lim: seq<Limits>, index: seq<int>) returns (r: Result)
    requires WellFormed(lim) && |lim| == |index|
    ensures r.Offset? <==> InBounds(lim, index)
    ensures r.Offset? ==> r.value == Linear(lim, index) < Total(lim) && Digits(lim, r.value) == index
    ensures r.IndexOutOfBounds? ==>
        && r.dimension < |lim| && InBounds(lim[..r.dimension], index[..r.dimension])
        && !(lim[r.dimension].low <= index[r.dimension] <= lim[r.dimension].high)
  {
    var offset := 0;
    var i := 0;
    while i < |lim|
      invariant 0 <= i <= |lim| && InBounds(lim[..i], index[..i])
      invariant offset + Linear(lim[i..], index[i..]) == Linear(lim, index)
    {
      if index[i] < lim[i].low {
        return IndexOutOfBounds(i);
      } else if index[i] > lim[i].high {
        return IndexOutOfBounds(i);
      } else {
        offset := offset + (index[i] - lim[i].low) * lim[i].size;
      }
      assert lim[i..][1..] == lim[i + 1..] && index[i..][1..] == index[i + 1..];
      i := i + 1;
    }
    assert lim[..i] == lim && index[..i] == index;
    LinearInverse(lim, index);
    r := Offset(offset);
  }
}
