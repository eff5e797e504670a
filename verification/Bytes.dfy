/** Bytes and the two integer encodings the transport uses. */
module Bytes {
  import opened Bits

  type Byte = x: int | 0 <= x < 256

  datatype Option<+T> = None | Some(value: T)

  // Little endian: the host order of the machines the transport is built for.
  function FromLE(b: seq<Byte>): nat {
    if b == [] then 0 else b[0] + 256 * FromLE(b[1..])
  }

  function ToLE(v: nat, size: nat): (b: seq<Byte>)
    ensures |b| == size
  {
    if size == 0 then [] else [v % 256] + ToLE(v / 256, size - 1)
  }

  // Big endian: network order.
  function FromBE(b: seq<Byte>): nat {
    if b == [] then 0 else 256 * FromBE(b[..|b| - 1]) + b[|b| - 1]
  }

  function ToBE(v: nat, size: nat): (b: seq<Byte>)
    ensures |b| == size
  {
    if size == 0 then [] else ToBE(v / 256, size - 1) + [v % 256]
  }

  function Range(size: nat): (r: nat)
    ensures r >= 1
  {
    if size == 0 then 1 else 256 * Range(size - 1)
  }

  lemma RangeValues()
    ensures Range(2) == 0x1_0000 && Range(4) == 0x1_0000_0000 && Range(8) == 0x1_0000_0000_0000_0000
  {
    assert Range(1) == 256 && Range(2) == 65536 && Range(3) == 65536 * 256;
    assert Range(4) == 65536 * 65536;
    assert Range(5) == 256 * Range(4) && Range(6) == 256 * Range(5) && Range(7) == 256 * Range(6);
  }

  lemma QuotientUnique(v: nat, d: nat, q: nat)
    requires q * d <= v < q * d + d
    ensures v / d == q
  {
    ModUnique(v, d, q, v - q * d);
  }

  // Dividing twice is dividing by the product.
  lemma QuotientTwice(v: nat, d: nat)
    requires d > 0
    ensures v / 256 / d == v / (256 * d)
  {
    var w := v / 256;
    var q := w / d;
    assert q * (256 * d) == 256 * (q * d) <= 256 * w <= v;
    assert v < 256 * w + 256 && w + 1 <= q * d + d;
    assert 256 * (w + 1) <= 256 * (q * d + d);
    assert 256 * (q * d + d) == q * (256 * d) + 256 * d;
    QuotientUnique(v, 256 * d, q);
  }

  // Byte k of the little-endian encoding counts multiples of 256^k, ...
  lemma {:induction false} ToLEAt(v: nat, size: nat, k: nat)
    requires k < size
    ensures ToLE(v, size)[k] == v / Range(k) % 256
  {
    if k == 0 {
      assert v / 1 == v;
    } else {
      ToLEAt(v / 256, size - 1, k - 1);
      QuotientTwice(v, Range(k - 1));
    }
  }

  // ... and of the big-endian one multiples of 256^(size - 1 - k).
  lemma {:induction false} ToBEAt(v: nat, size: nat, k: nat)
    requires k < size
    ensures ToBE(v, size)[k] == v / Range(size - 1 - k) % 256
  {
    if k == size - 1 {
      assert v / 1 == v;
    } else {
      ToBEAt(v / 256, size - 1, k);
      QuotientTwice(v, Range(size - 2 - k));
    }
  }

  lemma {:induction false} LERoundTrip(v: nat, size: nat)
    requires v < Range(size)
    ensures FromLE(ToLE(v, size)) == v
  {
    if size == 0 {
    } else {
      LERoundTrip(v / 256, size - 1);
      assert ToLE(v, size)[1..] == ToLE(v / 256, size - 1);
    }
  }

  lemma {:induction false} BERoundTrip(v: nat, size: nat)
    requires v < Range(size)
    ensures FromBE(ToBE(v, size)) == v
  {
    if size == 0 {
    } else {
      BERoundTrip(v / 256, size - 1);
      assert ToBE(v, size)[..size - 1] == ToBE(v / 256, size - 1);
    }
  }

  // v >> 8 * n, one byte at a time.
  function ShiftBytes(v: nat, n: nat): nat {
    if n == 0 then v else ShiftBytes(v, n - 1) / 256
  }

  // Stores a size-byte integer at output[pos..], most significant byte first.
  method WriteBE(output: array<Byte>, pos: nat, value: nat, size: nat) returns (written: nat)
    requires pos + size <= output.Length
    modifies output
    ensures written == size
    ensures output[..pos] == old(output[..pos]) && output[pos + size..] == old(output[pos + size..])
    ensures output[pos..pos + size] == ToBE(value, size)
  {
    var i := 0;
    while i < size
      invariant 0 <= i <= size
      invariant output[..pos] == old(output[..pos]) && output[pos + size..] == old(output[pos + size..])
      invariant output[pos..pos + i] == ToBE(ShiftBytes(value, size - i), i)
    {
      output[pos + i] := ShiftBytes(value, size - i - 1) % 256;
      assert output[pos..pos + i + 1] == output[pos..pos + i] + [output[pos + i]];
      i := i + 1;
    }
    return size;
  }
}
