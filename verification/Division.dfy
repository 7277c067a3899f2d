/** Facts about division by a variable. */
module Division {

  lemma MulAtLeast(x: int, b: int)
    requires x >= 1 && b >= 0
    ensures x * b >= b
  {
  }

  lemma MulDifference(x: int, y: int, b: int)
    ensures (x - y) * b == x * b - y * b
  {
  }

  lemma DivMod(a: nat, b: nat)
    requires b > 0
    ensures a == a / b * b + a % b && 0 <= a % b < b && a / b >= 0
  {
  }

  /** Quotient and remainder are the only ones. */
  lemma DivUnique(a: nat, q: nat, b: nat, r: nat)
    requires r < b && a == q * b + r
    ensures a / b == q && a % b == r
  {
    DivMod(a, b);
    QuotientsEqual(q, a / b, b, r, a % b);
  }

  lemma QuotientsEqual(q: int, q': int, b: nat, r: nat, r': nat)
    requires r < b && r' < b && q * b + r == q' * b + r'
    ensures q == q' && r == r'
  {
    MulDifference(q, q', b);
    if q > q' { MulAtLeast(q - q', b); }
    if q' > q { MulDifference(q', q, b); MulAtLeast(q' - q, b); }
  }

  lemma DivBounds(a: nat, b: nat, c: nat)
    requires a < c * b
    ensures b > 0 && a / b < c && a % b < b
  {
    assert b != 0;
    DivMod(a, b);
  }

  /** Dividing twice by p. */
  lemma DivTwice(a: nat, p: nat)
    requires p > 0
    ensures p * p > 0 && a == a / (p * p) * (p * p) + (a / p % p * p + a % p)
  {
    var q, r := a / p, a % p;
    DivMod(a, p);
    DivMod(q, p);
    var q2, r2 := q / p, q % p;
    TwoDigits(a, p, q2, r2, r);
    DivUnique(a, q2, p * p, r2 * p + r);
  }

  lemma TwoDigits(a: nat, p: nat, q2: nat, r2: nat, r: nat)
    requires r < p && r2 < p && a == (q2 * p + r2) * p + r
    ensures p * p > 0 && r2 * p + r < p * p && a == q2 * (p * p) + (r2 * p + r)
  {
    MulDifference(p, 1, p);
    assert (q2 * p + r2) * p == q2 * p * p + r2 * p;
    assert q2 * p * p == q2 * (p * p);
  }

  /** The three digits of a number below p * p * p. */
  lemma ThreeDigits(a: nat, p: nat)
    requires a < p * (p * p)
    ensures p > 0 && p * p > 0 && 0 <= a / (p * p) < p && 0 <= a / p % p < p && 0 <= a % p < p
    ensures a == a / (p * p) * (p * p) + (a / p % p * p + a % p)
  {
    DivBounds(a, p * p, p);
    DivMod(a / p, p);
    DivMod(a, p);
    DivTwice(a, p);
  }
}
