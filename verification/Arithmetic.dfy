/** Facts about products, quotients and remainders. */
module Arithmetic {

  lemma MulAtLeast(a: nat, b: nat)
    requires a > 0
    ensures a * b >= b
  {
  }

  lemma MulMono(a: nat, b: nat, c: nat)
    requires a <= b
    ensures a * c <= b * c
  {
  }

  lemma DivMod(v: nat, b: nat)
    requires b > 0
    ensures v == v / b * b + v % b && 0 <= v % b < b && v / b >= 0
  {
  }

  lemma DivUnique(q1: nat, q2: nat, r1: nat, r2: nat, b: nat)
    requires r1 < b && r2 < b && q1 * b + r1 == q2 * b + r2
    ensures q1 == q2 && r1 == r2
  {
    if q1 < q2 {
      MulMono(q1 + 1, q2, b);
    } else if q2 < q1 {
      MulMono(q2 + 1, q1, b);
    }
  }

  lemma DivOfSum(q: nat, b: nat, r: nat)
    requires r < b
    ensures (q * b + r) / b == q && (q * b + r) % b == r
  {
    var w := q * b + r;
    DivMod(w, b);
    DivUnique(w / b, q, w % b, r, b);
  }

  lemma DivShrinks(v: nat, b: nat)
    requires 2 <= b <= v
    ensures 0 < v / b < v
  {
    DivMod(v, b);
    MulMono(2, b, v / b);
  }

  lemma NonNegative(a: nat, b: nat)
    ensures a * b >= 0
  {
  }
}
