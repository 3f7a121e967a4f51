/** Facts about division and remainder that the solver does not find by itself. */
module Arithmetic {

  lemma MulMonotone(p: nat, q: nat, d: nat)
    requires p <= q
    ensures p * d <= q * d
  {
  }

  /** A quotient and a remainder are determined by the number they make up. */
  lemma DivUnique(a: nat, d: nat, q: nat, r: nat)
    requires d > 0 && a == q * d + r && r < d
    ensures a / d == q && a % d == r
  {
    var p := a / d;
    assert a == p * d + a % d;
    if p < q {
      MulMonotone(p + 1, q, d);
    } else if q < p {
      MulMonotone(q + 1, p, d);
    }
  }

  lemma DivMod(a: nat, d: nat)
    requires d > 0
    ensures a == (a / d) * d + a % d && 0 <= a % d < d
  {
  }

  lemma MultipleOf(a: nat, d: nat) returns (q: nat)
    requires d > 0 && a % d == 0
    ensures a == q * d
  {
    q := a / d;
    DivMod(a, d);
  }

  lemma IsMultiple(q: nat, d: nat)
    requires d > 0
    ensures (q * d) % d == 0
  {
    DivUnique(q * d, d, q, 0);
  }

  lemma MultipleSum(a: nat, b: nat, d: nat)
    requires d > 0 && a % d == 0 && b % d == 0
    ensures (a + b) % d == 0
    ensures a < b ==> a + d <= b
  {
    var p := MultipleOf(a, d);
    var q := MultipleOf(b, d);
    assert (p + q) * d == a + b;
    IsMultiple(p + q, d);
    if p + 1 <= q {
      MulMonotone(p + 1, q, d);
      assert (p + 1) * d == p * d + d;
    } else {
      MulMonotone(q, p, d);
    }
  }

  /** A multiple of a multiple. */
  lemma MultipleDown(a: nat, b: nat, d: nat)
    requires b > 0 && d > 0 && b % d == 0 && a % b == 0
    ensures a % d == 0
  {
    var p := MultipleOf(b, d);
    var q := MultipleOf(a, b);
    assert a == (q * p) * d;
    IsMultiple(q * p, d);
  }

  lemma QuotientInterval(v: nat, w: nat, d: nat)
    requires d > 0 && w % d == 0
    ensures v / d == w / d <==> w <= v < w + d
    ensures v / d == w / d ==> v % d == v - w
  {
    DivMod(v, d);
    DivMod(w, d);
    if w <= v < w + d {
      DivUnique(v, d, w / d, v - w);
    }
  }

  lemma ModuloSum(a: nat, b: nat, d: nat)
    requires d > 0 && a % d + b < d
    ensures (a + b) % d == a % d + b
  {
    DivMod(a, d);
    DivUnique(a + b, d, a / d, a % d + b);
  }

  lemma RoundDown(v: nat, d: nat)
    requires d > 0
    ensures v % d <= v && (v - v % d) % d == 0 && v - v % d <= v < v - v % d + d
  {
    DivMod(v, d);
    assert v - v % d == (v / d) * d;
    MulMonotone(0, v / d, d);
    IsMultiple(v / d, d);
  }

  /** A remainder modulo a multiple of d keeps its alignment to d. */
  lemma AlignedRemainder(v: nat, b: nat, d: nat)
    requires b > 0 && d > 0 && b % d == 0 && v % d == 0
    ensures v % b % d == 0 && v % b + d <= b
  {
    var p := MultipleOf(b, d);
    var q := MultipleOf(v, d);
    DivMod(v, b);
    var k := v / b;
    assert v % b == q * d - k * (p * d) == (q - k * p) * d;
    assert q - k * p >= 0;
    IsMultiple(q - k * p, d);
    MultipleSum(v % b, b, d);
  }

  /** The largest multiple of the alignment that is not above a. */
  function AlignDown(a: nat, alignment: nat): (r: nat)
    requires alignment > 0
    ensures r <= a < r + alignment && r % alignment == 0
  {
    RoundDown(a, alignment);
    a - a % alignment
  }
}
