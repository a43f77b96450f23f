/** Facts about products, quotients and remainders that the solver does not find by itself. */
module Arith {

  lemma MulGrows(d: int, k: nat)
    ensures d >= 1 ==> d * k >= k
    ensures d <= -1 ==> d * k + k <= 0
  {
  }

  lemma TimesMonotone(a: int, b: int, d: nat)
    ensures a <= b ==> a * d <= b * d
    ensures (a + 1) * d == a * d + d
  {
    if a <= b {
      assert (b - a) * d >= 0;
      assert b * d == a * d + (b - a) * d;
    }
  }

  lemma MulAssoc(a: int, b: int, c: int)
    ensures a * (b * c) == a * b * c
  {
  }

  /** Division has one answer. */
  lemma RemainderIs(x: nat, d: nat, q: int, r: nat)
    requires r < d && x == q * d + r
    ensures x % d == r && x / d == q
  {
    var e := q - x / d;
    assert e * d == q * d - x / d * d == x % d - r;
    MulGrows(e, d);
  }

  lemma ModOfMultiple(q: nat, k: nat)
    requires k > 0
    ensures q * k % k == 0
  {
    assert q * k >= 0;
    RemainderIs(q * k, k, q, 0);
  }

  /** The multiple of k at or below r. */
  lemma MultipleBelow(r: nat, k: nat)
    requires k > 0
    ensures 0 <= r - r % k <= r && (r - r % k) % k == 0 && r % k < k
  {
    var q := r / k;
    assert r - r % k == q * k;
    ModOfMultiple(q, k);
  }

  lemma HalfMod(x: nat, p: nat)
    requires p >= 1
    ensures x % (2 * p) == 2 * (x / 2 % p) + x % 2
  {
    var q, r := x / 2 / p, x / 2 % p;
    assert x / 2 == q * p + r;
    assert q * (2 * p) == 2 * (q * p);
    RemainderIs(x, 2 * p, q, 2 * r + x % 2);
  }

  function Pow2(k: nat): (p: nat)
    ensures p >= 1
  {
    if k == 0 then 1 else 2 * Pow2(k - 1)
  }

  lemma Pow2Double(k: nat)
    ensures Pow2(0) == 1
    ensures k > 0 ==> Pow2(k) == 2 * Pow2(k - 1)
  {
  }

  lemma Pow2Of32()
    ensures Pow2(32) == 0x1_0000_0000
  {
    assert Pow2(4) == 16;
    assert Pow2(8) == 16 * Pow2(4) == 256;
    assert Pow2(12) == 16 * Pow2(8);
    assert Pow2(16) == 16 * Pow2(12) == 65536;
    assert Pow2(20) == 16 * Pow2(16);
    assert Pow2(24) == 16 * Pow2(20);
    assert Pow2(28) == 16 * Pow2(24);
    assert Pow2(32) == 16 * Pow2(28);
  }

  lemma {:induction false} Pow2Grows(j: nat, k: nat)
    requires j <= k
    ensures Pow2(j) <= Pow2(k)
    decreases k
  {
    if j < k {
      Pow2Grows(j, k - 1);
    }
  }

  /** A smaller power of two divides a larger one. */
  lemma {:induction false} PowersDivide(j: nat, k: nat) returns (c: nat)
    requires j <= k
    ensures c >= 1 && Pow2(k) == c * Pow2(j)
    decreases k
  {
    if j < k {
      c := PowersDivide(j, k - 1);
      c := 2 * c;
    } else {
      c := 1;
    }
  }
}
