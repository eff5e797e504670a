/** One's complement sums of 16-bit words (RFC 1071), as the host computes them over words
    loaded in its own byte order and as the network defines them. */
module Checksum {
  import opened Bytes

  const ONES := 0xFFFF

  function HostWord(b: seq<Byte>, i: nat): nat
    requires 2 * i + 1 < |b|
  {
    var lo: nat, hi: nat := b[2 * i], b[2 * i + 1];
    lo + 256 * hi
  }

  function NetWord(b: seq<Byte>, i: nat): nat
    requires 2 * i + 1 < |b|
  {
    var hi: nat, lo: nat := b[2 * i], b[2 * i + 1];
    256 * hi + lo
  }

  function HostSum(b: seq<Byte>, n: nat): nat
    requires 2 * n <= |b|
  {
    if n == 0 then 0 else HostSum(b, n - 1) + HostWord(b, n - 1)
  }

  function NetSum(b: seq<Byte>, n: nat): nat
    requires 2 * n <= |b|
  {
    if n == 0 then 0 else NetSum(b, n - 1) + NetWord(b, n - 1)
  }

  function Fold(sum: nat): nat {
    sum % 0x1_0000 + sum / 0x1_0000
  }

  // The reduction of rte_raw_cksum: two folds and a truncation.
  function Reduce(sum: nat): nat {
    Fold(Fold(sum)) % 0x1_0000
  }

  function Swap(w: nat): nat {
    256 * (w % 256) + w / 256
  }

  lemma FoldKeeps(sum: nat)
    ensures Fold(sum) % ONES == sum % ONES
    ensures sum > 0 ==> Fold(sum) > 0
  {
    var q, r := sum / 0x1_0000, sum % 0x1_0000;
    assert sum == q * 0x1_0000 + r;
    assert sum == ONES * q + (q + r);
  }

  // A sum of fewer than 2^16 words reduces to its class modulo 2^16 - 1, and to zero only if
  // it is zero.
  lemma ReduceKeeps(sum: nat)
    requires sum < 0x1_0000_0000
    ensures Reduce(sum) <= ONES && Reduce(sum) % ONES == sum % ONES
    ensures sum > 0 ==> Reduce(sum) > 0
  {
    FoldKeeps(sum);
    FoldKeeps(Fold(sum));
    assert sum / 0x1_0000 < 0x1_0000;
    assert Fold(sum) < 0x2_0000 - 1;
    assert Fold(Fold(sum)) < 0x1_0000;
  }

  lemma SameClass(x: nat, y: nat)
    requires 0 < x <= ONES && 0 < y <= ONES && x % ONES == y % ONES
    ensures x == y
  {
  }

  lemma SwapIsShift(w: nat)
    requires w <= ONES
    ensures Swap(w) % ONES == (256 * w) % ONES
    ensures Swap(w) <= ONES && (w > 0 ==> Swap(w) > 0)
    ensures Swap(ONES - w) == ONES - Swap(w)
  {
    assert w == 256 * (w / 256) + w % 256;
    assert 256 * w == Swap(w) + ONES * (w / 256);
    var v := ONES - w;
    assert v == 256 * (255 - w / 256) + (255 - w % 256);
    assert v / 256 == 255 - w / 256 && v % 256 == 255 - w % 256;
  }

  lemma WordOrder(b: seq<Byte>, i: nat)
    requires 2 * i + 1 < |b|
    ensures NetWord(b, i) % ONES == (256 * HostWord(b, i)) % ONES
    ensures HostWord(b, i) > 0 ==> NetWord(b, i) > 0
  {
    var hi: nat := b[2 * i + 1];
    assert 256 * HostWord(b, i) == NetWord(b, i) + ONES * hi;
    AddMultiple(NetWord(b, i), hi);
  }

  // RFC 1071, section 2(B): summing byte-swapped words gives the byte-swapped sum.
  lemma {:induction false} ByteOrder(b: seq<Byte>, n: nat)
    requires 2 * n <= |b|
    ensures NetSum(b, n) % ONES == (256 * HostSum(b, n)) % ONES
    ensures HostSum(b, n) > 0 ==> NetSum(b, n) > 0
  {
    if n == 0 {
    } else {
      ByteOrder(b, n - 1);
      WordOrder(b, n - 1);
      AddClasses(NetSum(b, n - 1), 256 * HostSum(b, n - 1), NetWord(b, n - 1), 256 * HostWord(b, n - 1));
    }
  }

  lemma AddMultiple(u: int, k: int)
    ensures (u + ONES * k) % ONES == u % ONES
  {
  }

  lemma ScaleClass(x: nat, y: nat)
    requires x % ONES == y % ONES
    ensures (256 * x) % ONES == (256 * y) % ONES
  {
    var k := x / ONES - y / ONES;
    assert x == y + ONES * k;
    assert 256 * x == 256 * y + ONES * (256 * k);
    AddMultiple(256 * y, 256 * k);
  }

  lemma AddClasses(a: nat, c: nat, x: nat, y: nat)
    requires a % ONES == c % ONES && x % ONES == y % ONES
    ensures (a + x) % ONES == (c + y) % ONES
  {
  }

  lemma {:induction false} SumBound(b: seq<Byte>, n: nat)
    requires 2 * n <= |b|
    ensures HostSum(b, n) <= ONES * n && NetSum(b, n) <= ONES * n
  {
    if n == 0 {
    } else {
      SumBound(b, n - 1);
    }
  }

  // Replacing one word changes the sum by the difference of the words.
  lemma {:induction false} ReplaceWord(b: seq<Byte>, c: seq<Byte>, n: nat, i: nat)
    requires |b| == |c| && 2 * n <= |b|
    requires forall k :: 0 <= k < 2 * n && k != 2 * i && k != 2 * i + 1 ==> b[k] == c[k]
    ensures HostSum(c, n) == if i < n then HostSum(b, n) - HostWord(b, i) + HostWord(c, i) else HostSum(b, n)
  {
    if n == 0 {
    } else {
      ReplaceWord(b, c, n - 1, i);
    }
  }

  // What the sender puts into a header: a reduced base sum, one word more, a single fold,
  // and the complement.
  function Patched(base: nat, word: nat): nat {
    ONES - Fold(base + word) % 0x1_0000
  }

  // One fold of a sum of two 16-bit words is the representative of its class.
  lemma FoldEquals(t: nat, target: nat)
    requires 0 < t <= 2 * ONES && 0 < target <= ONES && target % ONES == t % ONES
    ensures Fold(t) == target
  {
    FoldKeeps(t);
    assert Fold(t) <= ONES by {
      assert t / 0x1_0000 <= 1;
    }
    SameClass(Fold(t), target);
  }

  lemma PatchClass(r: nat, s: nat, word: nat, target: nat)
    requires 0 < r <= ONES && r % ONES == s % ONES && word <= ONES
    requires 0 < target <= ONES && target % ONES == (s + word) % ONES
    ensures Patched(r, word) == ONES - target
  {
    AddClasses(r, s, word, word);
    FoldEquals(r + word, target);
  }

  // That single fold is enough: the patched checksum of a sum s + word, given s reduced, is
  // the checksum recomputed from s + word.
  lemma PatchedIsRecomputed(s: nat, word: nat)
    requires 0 < s < 0x1000_0000 && word <= ONES
    ensures Patched(Reduce(s), word) == ONES - Reduce(s + word)
  {
    ReduceKeeps(s);
    ReduceKeeps(s + word);
    PatchClass(Reduce(s), s, word, Reduce(s + word));
  }

  lemma MultipleOfOnes(q: nat)
    ensures (ONES * q) % ONES == 0
  {
  }

  lemma ComplementClass(rest: nat, r: nat)
    requires r <= ONES && r % ONES == rest % ONES
    ensures (rest + (ONES - r)) % ONES == 0 && (256 * (rest + (ONES - r))) % ONES == 0
  {
    var a, c, x := rest / ONES, r / ONES, rest % ONES;
    assert rest == ONES * a + x && r == ONES * c + x;
    var q := a - c + 1;
    assert rest + (ONES - r) == ONES * q;
    MultipleOfOnes(q);
    MultipleOfOnes(256 * q);
  }

  // A header whose checksum word complements the sum of its other words passes the check of
  // RFC 791 section 3.1, in either byte order.
  lemma Verifies(b: seq<Byte>, n: nat, rest: nat)
    requires 2 * n <= |b| && n <= 0x1000 && 0 < rest < 0x1_0000_0000
    requires HostSum(b, n) == rest + (ONES - Reduce(rest))
    ensures Reduce(HostSum(b, n)) == ONES && Reduce(NetSum(b, n)) == ONES
  {
    ReduceKeeps(rest);
    var sum := HostSum(b, n);
    ComplementClass(rest, Reduce(rest));
    SumBound(b, n);
    ByteOrder(b, n);
    ReduceKeeps(sum);
    ReduceKeeps(NetSum(b, n));
    SameClass(Reduce(sum), ONES);
    SameClass(Reduce(NetSum(b, n)), ONES);
  }
}
