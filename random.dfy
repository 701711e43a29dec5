/** randn: a value drawn between two bounds, given in either order. */
module Random {

  /** v lies between a and b, whichever of the two is larger. */
  predicate Between(a: int, b: int, v: int)
  {
    if a <= b then a <= v <= b else b <= v <= a
  }

  /** C's conversion of a quotient to int, which truncates toward zero. */
  function TruncDiv(a: int, b: int): int
    requires b > 0
  {
    if a >= 0 then a / b else -((-a) / b)
  }

  lemma MulIsMonotonic(a: nat, b: nat, c: nat)
    requires a <= b
    ensures a * c <= b * c
  {
    assert b * c == a * c + (b - a) * c;
  }

  /** The quotient is the q with q * d <= n < (q + 1) * d. */
  lemma DivIsUnique(n: nat, d: nat, q: nat)
    requires d > 0 && q * d <= n < q * d + d
    ensures n / d == q
  {
    var r := n / d;
    assert n == r * d + n % d;
    if r < q {
      MulIsMonotonic(r + 1, q, d);
    } else if r > q {
      MulIsMonotonic(q + 1, r, d);
    }
  }

  lemma ScaledDrawBounded(k: nat, span: nat, randMax: nat)
    requires 0 < randMax && k <= randMax
    ensures 0 <= (k * span) / randMax <= span
    ensures k == randMax ==> (k * span) / randMax == span
  {
    var q := (k * span) / randMax;
    assert k * span == q * randMax + (k * span) % randMax;
    MulIsMonotonic(k, randMax, span);
    assert randMax * span == span * randMax;
    if q > span {
      MulIsMonotonic(span + 1, q, randMax);
    }
    if k == randMax {
      DivIsUnique(k * span, randMax, span);
    }
  }

  /** randn(min, max) when rand() returned k of [0, randMax]: for min != max the
      draw k / randMax scales the signed span max - min and is truncated.
      The draw can reach 1, so max itself is attainable. */
  function RandN(min: int, max: int, k: nat, randMax: nat): (r: int)
    requires 0 < randMax && k <= randMax
    ensures Between(min, max, r)
    ensures min == max ==> r == min
    ensures k == 0 ==> r == min
    ensures k == randMax ==> r == max
  {
    if min == max then min
    else
      var span := if min <= max then max - min else min - max;
      ScaledDrawBounded(k, span, randMax);
      assert min > max ==> k * (max - min) == -(k * span);
      min + TruncDiv(k * (max - min), randMax)
  }
}
