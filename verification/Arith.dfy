/** Division facts and powers of two, for the modules that shift and divide. */
module Arith {
  function Quot(x: nat, d: nat): nat
    requires d > 0
  {
    x / d
  }

  function Rem(x: nat, d: nat): (r: nat)
    requires d > 0
    ensures r < d
  {
    x % d
  }

  lemma Division(x: nat, d: nat)
    requires d > 0
    ensures x == Quot(x, d) * d + Rem(x, d)
  {
  }

  lemma QuotientIs(x: nat, d: nat, q: nat, r: nat)
    requires d > 0 && x == q * d + r && r < d
    ensures Quot(x, d) == q
  {
    hide Quot, Rem;
    var k := Quot(x, d) - q;
    Division(x, d);
    assert k * d == Quot(x, d) * d - q * d == r - Rem(x, d);
    Stretch(k, d);
  }

  lemma Stretch(k: int, d: nat)
    ensures k >= 1 ==> k * d >= d
    ensures k <= -1 ==> k * d <= 0 - d
  {
  }

  lemma MulMono(a: nat, b: nat, c: nat)
    requires a <= b
    ensures a * c <= b * c
  {
    var d := b - a;
    assert b * c == a * c + d * c;
  }

  lemma QuotientBound(p: nat, z: nat)
    requires z > 0
    ensures Quot(p, z) <= p
  {
    hide Quot, Rem;
    Division(p, z);
    MulMono(1, z, Quot(p, z));
  }

  function Pow2(n: nat): (p: nat)
    ensures p > 0
  {
    if n == 0 then 1 else 2 * Pow2(n - 1)
  }

  lemma Half(k: nat, r: nat)
    ensures Quot(2 * k + r, 2) == k + Quot(r, 2)
  {
  }

  /** Halving first does not change a quotient. */
  lemma HalfFirst(v: nat, p: nat, d: nat)
    requires p > 0 && d == 2 * p
    ensures Quot(Quot(v, 2), p) == Quot(v, d)
  {
    hide Quot, Rem;
    var q, r := Quot(v, d), Rem(v, d);
    Division(v, d);
    var k := q * p;
    assert q * d == 2 * k;
    Half(k, r);
    Division(r, 2);
    QuotientIs(Quot(v, 2), p, q, Quot(r, 2));
  }
}
