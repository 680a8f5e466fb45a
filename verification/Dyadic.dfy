/**
 Aligned runs of 2^k consecutive numbers. For a fixed k they partition the naturals, and the
 partition for k refines the one for k + 1; both facts are all that the buddy proofs need.
 */
module Dyadic {

  function Pow2(k: nat): (p: nat)
    ensures p > 0
  {
    if k == 0 then 1 else 2 * Pow2(k - 1)
  }

  predicate Aligned(k: nat, x: nat) {
    x % Pow2(k) == 0
  }

  // x and y lie in the same aligned run of 2^k numbers
  predicate Same(k: nat, x: nat, y: nat) {
    x / Pow2(k) == y / Pow2(k)
  }

  // The first number of the aligned run of 2^k numbers that holds x
  function Base(k: nat, x: nat): nat {
    ModAtMost(x, Pow2(k));
    x - x % Pow2(k)
  }

  lemma ModAtMost(x: nat, p: nat)
    requires p > 0
    ensures x % p <= x
  {
    if x < p {
      DivMod(x, p, 0, x);
    }
  }

  // The other half of the aligned run of 2^(k+1) numbers one of whose halves starts at x
  function BuddyOf(k: nat, x: nat): (b: int) {
    if Aligned(k + 1, x) then x + Pow2(k) else x - Pow2(k)
  }

  // Division, kept apart from the products around it
  function Quot(x: nat, p: nat): nat
    requires p > 0
  {
    x / p
  }

  function Rem(x: nat, p: nat): (r: nat)
    requires p > 0
    ensures r < p
  {
    x % p
  }

  lemma QuotBounds(x: nat, p: nat)
    requires p > 0
    ensures Quot(x, p) * p <= x < Quot(x, p) * p + p && x == Quot(x, p) * p + Rem(x, p)
  {
  }

  lemma DivMod(x: nat, p: nat, q: nat, r: nat)
    requires p > 0 && r < p && x == q * p + r
    ensures x / p == q && x % p == r
  {
    var d := x / p - q;
    assert d * p == r - x % p by {
      assert x == x / p * p + x % p;
    }
    assert d > 0 ==> d * p >= p;
    assert d < 0 ==> d * p <= 0 - p;
  }

  lemma HalveDiv(x: nat, p: nat)
    requires p > 0
    ensures x / (2 * p) == x / p / 2
  {
    var q, r := x / p, x % p;
    assert x == q * p + r;
    assert q == 2 * (q / 2) + q % 2;
    assert (2 * (q / 2) + q % 2) * p == q / 2 * (2 * p) + q % 2 * p;
    assert q % 2 * p <= p;
    DivMod(x, 2 * p, q / 2, q % 2 * p + r);
  }

  lemma SameNested(j: nat, k: nat, x: nat, y: nat)
    requires j <= k && Same(j, x, y)
    ensures Same(k, x, y)
    decreases k - j
  {
    if j < k {
      HalveDiv(x, Pow2(j));
      HalveDiv(y, Pow2(j));
      SameNested(j + 1, k, x, y);
    }
  }

  lemma RunOf(k: nat, a: nat, y: nat)
    requires Aligned(k, a)
    ensures Same(k, a, y) <==> a <= y < a + Pow2(k)
  {
    var p := Pow2(k);
    var q := a / p;
    assert a == q * p;
    if a <= y < a + p {
      DivMod(y, p, q, y - a);
    }
    if Same(k, a, y) {
      assert y == y / p * p + y % p;
    }
  }

  lemma BaseRun(k: nat, x: nat)
    ensures Aligned(k, Base(k, x)) && Same(k, Base(k, x), x)
  {
    var p := Pow2(k);
    assert x == x / p * p + x % p;
    DivMod(Base(k, x), p, x / p, 0);
  }

  // Two starts of the same run are equal
  lemma AlignedUnique(k: nat, a: nat, b: nat)
    requires Aligned(k, a) && Aligned(k, b) && Same(k, a, b)
    ensures a == b
  {
    RunOf(k, a, b);
    RunOf(k, b, a);
  }

  lemma {:induction false} AlignedDown(j: nat, k: nat, a: nat)
    requires j <= k && Aligned(k, a)
    ensures Aligned(j, a)
    decreases k - j
  {
    if j < k {
      var p := Pow2(k - 1);
      var q := a / (2 * p);
      assert a == q * (2 * p) == (2 * q) * p;
      DivMod(a, p, 2 * q, 0);
      AlignedDown(j, k - 1, a);
    }
  }

  // The two halves of an aligned run of 2p numbers
  lemma LowerHalf(a: nat, p: nat)
    requires p > 0 && a % (2 * p) == 0
    ensures a % p == 0 && (a + p) % p == 0 && (a + p) % (2 * p) == p && (a + p) / (2 * p) == a / (2 * p)
  {
    var q := a / (2 * p);
    assert a == q * (2 * p) == (2 * q) * p;
    DivMod(a, p, 2 * q, 0);
    assert a + p == (2 * q + 1) * p;
    DivMod(a + p, p, 2 * q + 1, 0);
    DivMod(a + p, 2 * p, q, p);
  }

  lemma UpperHalf(a: nat, p: nat)
    requires p > 0 && a % p == 0 && a % (2 * p) != 0
    ensures a >= p && (a - p) % (2 * p) == 0
  {
    var q := a / p;
    assert a == q * p;
    if q % 2 == 0 {
      assert q * p == q / 2 * (2 * p);
      DivMod(a, 2 * p, q / 2, 0);
      assert false;
    }
    assert q == 2 * (q / 2) + 1;
    assert q * p == q / 2 * (2 * p) + p;
    DivMod(a - p, 2 * p, q / 2, 0);
  }

  // The run of 2^(k+1) numbers around an aligned a is a's run and its buddy's
  lemma BuddyHalves(k: nat, a: nat)
    requires Aligned(k, a)
    ensures var b := BuddyOf(k, a);
            && 0 <= b && Aligned(k, b) && Same(k + 1, a, b) && BuddyOf(k, b) == a
            && (Aligned(k + 1, b) <==> !Aligned(k + 1, a))
  {
    if Aligned(k + 1, a) {
      LowerHalf(a, Pow2(k));
    } else {
      UpperHalf(a, Pow2(k));
      LowerHalf(a - Pow2(k), Pow2(k));
    }
  }

  lemma RunSplit(k: nat, a: nat, y: nat)
    requires Aligned(k, a)
    ensures BuddyOf(k, a) >= 0
    ensures Same(k + 1, a, y) <==> Same(k, a, y) || Same(k, BuddyOf(k, a), y)
  {
    BuddyHalves(k, a);
    var b: nat := BuddyOf(k, a);
    RunOf(k, a, y);
    RunOf(k, b, y);
    var lo := if a < b then a else b;
    RunOf(k + 1, lo, y);
  }

  lemma MulDistributes(a: nat, b: nat, c: nat)
    ensures (a + b) * c == a * c + b * c
  {
  }

  lemma AtMost(i: nat, j: nat, size: nat)
    requires i <= j
    ensures i * size <= j * size
  {
    MulDistributes(i, j - i, size);
  }

  // Fewer than k things of a size fit where k of them do not
  lemma CountAtMost(n: nat, k: nat, size: nat, bytes: nat)
    requires n * size <= bytes < k * size
    ensures n < k
  {
    if k <= n {
      AtMost(k, n, size);
    }
  }

  lemma MulAssociates(a: nat, b: nat, c: nat)
    ensures a * (b * c) == (a * b) * c
  {
  }

  lemma ModOfMod(x: nat, k: nat, n: nat)
    requires k > 0 && n > 0 && k * n > 0
    ensures x % (k * n) % n == x % n
  {
    var m := k * n;
    var q, r := x / m, x % m;
    MulAssociates(q, k, n);
    MulDistributes(q * k, r / n, n);
    DivMod(x, n, q * k + r / n, r % n);
  }
}
