/** Bitwise AND on naturals, as the ring uses it to turn a log index into a slot number. */
module Bits {

  function And(x: nat, y: nat): nat {
    if x == 0 || y == 0 then 0 else 2 * And(x / 2, y / 2) + (x % 2) * (y % 2)
  }

  function Pow2(k: nat): (r: nat)
    ensures r >= 1
  {
    if k == 0 then 1 else 2 * Pow2(k - 1)
  }

  // The test made by the producer and by the endpoint configuration.
  predicate IsPowerOfTwo(x: nat) {
    x != 0 && And(x, x - 1) == 0
  }

  lemma MulAtLeast(a: nat, m: nat)
    requires a >= 1
    ensures a * m >= m
  {
    assert a * m == (a - 1) * m + m;
  }

  lemma ModUnique(x: nat, m: nat, q: nat, r: nat)
    requires r < m && x == q * m + r
    ensures x % m == r && x / m == q
  {
    var q' := x / m;
    var r' := x % m;
    assert x == q' * m + r';
    assert (q - q') * m == q * m - q' * m;
    assert (q' - q) * m == q' * m - q * m;
    if q > q' {
      MulAtLeast(q - q', m);
    } else if q < q' {
      MulAtLeast(q' - q, m);
    }
  }

  lemma {:induction false} AndSelf(x: nat)
    ensures And(x, x) == x
  {
    if x == 0 {
    } else {
      AndSelf(x / 2);
    }
  }

  lemma {:induction false} TestImpliesPower(x: nat) returns (k: nat)
    requires IsPowerOfTwo(x)
    ensures x == Pow2(k)
  {
    if x == 1 {
      k := 0;
    } else if x % 2 == 0 {
      assert (x - 1) / 2 == x / 2 - 1;
      var k' := TestImpliesPower(x / 2);
      k := k' + 1;
    } else {
      assert (x - 1) / 2 == x / 2;
      AndSelf(x / 2);
      assert false;
    }
  }

  lemma {:induction false} PowerPassesTest(k: nat)
    ensures IsPowerOfTwo(Pow2(k))
  {
    if k == 0 {
    } else {
      PowerPassesTest(k - 1);
      var x := Pow2(k);
      assert x / 2 == Pow2(k - 1) && (x - 1) / 2 == Pow2(k - 1) - 1;
    }
  }

  // x & (x - 1) == 0 with x != 0 holds of the powers of two and of nothing else.
  lemma PowerOfTwoTest(x: nat)
    ensures IsPowerOfTwo(x) <==> exists k: nat :: x == Pow2(k)
  {
    if IsPowerOfTwo(x) {
      var k := TestImpliesPower(x);
    }
    forall k: nat | x == Pow2(k) ensures IsPowerOfTwo(x) {
      PowerPassesTest(k);
    }
  }

  lemma ModDouble(x: nat, m: nat)
    requires m > 0
    ensures x % (2 * m) == 2 * ((x / 2) % m) + x % 2
  {
    var h := x / 2;
    var q, r := h / m, h % m;
    assert h == q * m + r;
    assert q * (2 * m) == 2 * (q * m);
    ModUnique(x, 2 * m, q, 2 * r + x % 2);
  }

  lemma {:induction false} AndMask(x: nat, k: nat)
    ensures And(x, Pow2(k) - 1) == x % Pow2(k)
  {
    if k != 0 && x != 0 {
      var m := Pow2(k - 1);
      AndMask(x / 2, k - 1);
      ModDouble(x, m);
      assert (2 * m - 1) / 2 == m - 1 && (2 * m - 1) % 2 == 1;
    } else if x == 0 {
      ModUnique(0, Pow2(k), 0, 0);
    }
  }

  // Masking with slots - 1 is the remainder modulo the slot count.
  lemma MaskIsModulo(x: nat, n: nat)
    requires IsPowerOfTwo(n)
    ensures And(x, n - 1) == x % n
  {
    var k := TestImpliesPower(n);
    AndMask(x, k);
  }

  // Two indices less than n apart share a slot only when equal; n apart they always do.
  lemma SameSlot(i: nat, a: nat, n: nat)
    requires n > 0 && i < a <= i + n
    ensures i % n == a % n <==> a == i + n
  {
    var q, r := i / n, i % n;
    if a == i + n {
      ModUnique(a, n, q + 1, r);
    } else if r + (a - i) < n {
      ModUnique(a, n, q, r + (a - i));
    } else {
      ModUnique(a, n, q + 1, r + (a - i) - n);
    }
  }

  // Of the indices that share i's slot, e is the newest below limit: how it compares with i
  // tells whether i is not there yet, is the one in the slot, or has been replaced.
  lemma NewestInSlot(e: nat, i: nat, limit: nat, n: nat)
    requires n > 0 && e < limit <= e + n && e % n == i % n
    ensures e < i <==> i >= limit
    ensures e == i <==> i < limit <= i + n
  {
    if e < i <= e + n {
      SameSlot(e, i, n);
    } else if i < e <= i + n {
      SameSlot(i, e, n);
    }
  }

  lemma FirstRound(i: nat, n: nat)
    requires n > 0
    ensures i % n <= i
    ensures i < n ==> i % n == i
  {
    assert i == (i / n) * n + i % n;
    if i < n {
      ModUnique(i, n, 0, i);
    }
  }
}
