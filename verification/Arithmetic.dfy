/**
  Facts of whole numbers: quotients and rests, and powers of two.
 */
module Arithmetic {
  import opened BitStream

  lemma Parts(m: int, n: nat)
    requires n > 0
    ensures m == n * (m / n) + m % n && 0 <= m % n < n && (m >= 0 ==> m / n >= 0)
  {
  }

  lemma ProductOfNats(a: nat, b: nat)
    ensures a * b >= 0
  {
  }

  lemma MultipleIsFar(p: nat, d: int)
    ensures d > 0 ==> p * d >= p
    ensures d < 0 ==> p * d + p <= 0
  {
    if d > 0 {
      ProductOfNats(p, d - 1);
      assert p * (d - 1) == p * d - p;
    } else if d < 0 {
      ProductOfNats(p, -d - 1);
      assert p * (-d - 1) == -(p * d) - p;
    }
  }

  /** A number has just one quotient and rest. */
  lemma RestIs(a: int, p: nat, q: int, r: nat)
    requires p > 0 && a == p * q + r && r < p
    ensures a % p == r && a / p == q
  {
    var d := a / p - q;
    Parts(a, p);
    assert p * d == p * (a / p) - p * q;
    MultipleIsFar(p, d);
  }

  /** A factor and a rest are not larger than the number. */
  lemma SmallFactor(m: nat, n: nat, q: nat, r: nat)
    requires n > 0 && m == n * q + r
    ensures q <= m && (n > 1 ==> 2 * q <= m)
  {
    ProductOfNats(n - 1, q);
    assert (n - 1) * q == n * q - q;
    if n > 1 {
      ProductOfNats(n - 2, q);
      assert (n - 2) * q == n * q - 2 * q;
    }
  }

  lemma {:induction false} PowersMultiply(a: nat, b: nat)
    ensures Pow2(a + b) == Pow2(a) * Pow2(b)
  {
    if a > 0 {
      PowersMultiply(a - 1, b);
      assert 2 * Pow2(a - 1) * Pow2(b) == 2 * (Pow2(a - 1) * Pow2(b));
    }
  }

  lemma SmallPowers()
    ensures Pow2(0) == 1 && Pow2(1) == 2 && Pow2(2) == 4 && Pow2(3) == 8 && Pow2(4) == 16 && Pow2(5) == 32
    ensures Pow2(6) == 64 && Pow2(7) == 128 && Pow2(8) == 256 && Pow2(9) == 512 && Pow2(10) == 1024
    ensures Pow2(11) == 2048 && Pow2(12) == 4096 && Pow2(13) == 8192 && Pow2(14) == 0x4000 && Pow2(15) == 0x8000
    ensures Pow2(16) == 0x1_0000 && Pow2(32) == 0x1_0000_0000
  {
    assert Pow2(2) == 2 * Pow2(1);
    assert Pow2(4) == 4 * Pow2(2);
    assert Pow2(6) == 4 * Pow2(4);
    assert Pow2(8) == 4 * Pow2(6);
    assert Pow2(10) == 4 * Pow2(8);
    assert Pow2(12) == 4 * Pow2(10);
    assert Pow2(14) == 4 * Pow2(12);
    assert Pow2(16) == 4 * Pow2(14);
    assert Pow2(18) == 4 * Pow2(16);
    assert Pow2(20) == 4 * Pow2(18);
    assert Pow2(22) == 4 * Pow2(20);
    assert Pow2(24) == 4 * Pow2(22);
    assert Pow2(26) == 4 * Pow2(24);
    assert Pow2(28) == 4 * Pow2(26);
    assert Pow2(30) == 4 * Pow2(28);
  }
}
