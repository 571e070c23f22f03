/** Products of integers, for the fixed point and the array arithmetic. */
module Products {

  lemma MulMono(a: int, b: int, m: int)
    requires a <= b && m >= 0
    ensures a * m <= b * m && m * a <= m * b
    ensures (a + 1) * m == a * m + m
  {
  }
}
