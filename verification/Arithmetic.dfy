/** Powers and products. */
module Arithmetic {
  function Pow2(n: nat): (r: nat)
    ensures r > 0
  {
    if n == 0 then 1 else 2 * Pow2(n - 1)
  }

  function Pow256(n: nat): (r: nat)
    ensures r > 0
  {
    if n == 0 then 1 else 256 * Pow256(n - 1)
  }

  lemma {:induction false} PowMono(a: nat, b: nat)
    requires a <= b
    ensures Pow2(a) <= Pow2(b)
    decreases b
  {
    if a < b {
      PowMono(a, b - 1);
    }
  }

  lemma Doubled(x: nat, y: nat)
    ensures 2 * (x * y) == (2 * x) * y
  {
  }

  lemma {:induction false} PowAdd(a: nat, b: nat)
    ensures Pow2(a + b) == Pow2(a) * Pow2(b)
  {
    if a > 0 {
      PowAdd(a - 1, b);
      Doubled(Pow2(a - 1), Pow2(b));
      assert Pow2(a + b) == 2 * Pow2(a - 1 + b);
    }
  }

  lemma AtLeast(x: nat, y: nat)
    ensures x * y >= 0 && (x > 0 ==> x * y >= y)
  {
    if x > 0 {
      assert x * y == y + (x - 1) * y;
    }
  }

  lemma Regrouped(a: nat, e: nat, c: nat, f: nat)
    ensures (a + e) * (c + f) == a * c + e * c + (a + e) * f
  {
  }

  /** Products grow with their factors. */
  lemma Times(a: nat, b: nat, c: nat, d: nat)
    requires a <= b && c <= d
    ensures a * c <= b * d
    ensures a < b && c > 0 ==> a * c < b * d
  {
    Regrouped(a, b - a, c, d - c);
    AtLeast(b - a, c);
    AtLeast(b, d - c);
  }
}
