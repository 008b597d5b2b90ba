// Facts about products, quotients and remainders.

module Arithmetic {
  lemma DivModOfSum(x: nat, p: nat, z: nat)
    requires p > 0
    ensures (x + p * z) % p == x % p && (x + p * z) / p == x / p + z
  {
    var q, r := x / p, x % p;
    assert x + p * z == p * (q + z) + r;
    DivModIs(x + p * z, p, q + z, r);
  }

  lemma DivModIs(n: nat, p: nat, q: nat, r: nat)
    requires n == p * q + r && r < p
    ensures n / p == q && n % p == r
  {
    var d := n / p;
    assert n == p * d + n % p;
    if d < q {
      MulMono(p, d + 1, q);
    } else if d > q {
      MulMono(p, q + 1, d);
    }
  }

  lemma MulMono(p: nat, a: nat, b: nat)
    requires a <= b
    ensures p * a <= p * b
  {}

  // Adding up first makes no difference to the remainder.
  lemma ModOfSum(a: nat, b: nat, p: nat)
    requires p > 0
    ensures (a + b % p) % p == (a + b) % p
  {
    assert a + b == (a + b % p) + p * (b / p);
    DivModOfSum(a + b % p, p, b / p);
  }

  // Two to a power: how many numbers fit in this many bits.
  function Pow2(bits: nat): (p: nat)
    ensures p > 0
  {
    if bits == 0 then 1 else 2 * Pow2(bits - 1)
  }

  lemma {:induction false} Pow2Adds(a: nat, b: nat)
    ensures Pow2(a + b) == Pow2(a) * Pow2(b)
  {
    if a > 0 {
      Pow2Adds(a - 1, b);
    }
  }

  lemma Pow2Values()
    ensures Pow2(0) == 1 && Pow2(1) == 2 && Pow2(2) == 4 && Pow2(3) == 8 && Pow2(4) == 16
    ensures Pow2(5) == 32 && Pow2(8) == 256
  {
    assert Pow2(2) == 4;
    assert Pow2(4) == 16;
    assert Pow2(6) == 64;
  }
}
