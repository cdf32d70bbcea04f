/** Unsigned integers as big-endian bytes. */
module BigEndian {

  type Byte = b: int | 0 <= b < 256

  function Pow256(n: nat): nat {
    if n == 0 then 1 else 256 * Pow256(n - 1)
  }

  /** The integer denoted by big-endian bytes. */
  function Value(bytes: seq<Byte>): nat {
    if bytes == [] then 0
    else bytes[0] * Pow256(|bytes| - 1) + Value(bytes[1..])
  }

  lemma {:induction false} ValueBound(bytes: seq<Byte>)
    ensures Value(bytes) < Pow256(|bytes|)
  {
    if bytes != [] {
      ValueBound(bytes[1..]);
      HighByteDominates(bytes[0], 256, Value(bytes[1..]), 0, Pow256(|bytes| - 1));
    }
  }

  lemma HighByteDominates(x: nat, y: nat, low: nat, low': nat, p: nat)
    requires x < y && low < p
    ensures x * p + low < y * p + low'
  {
    assert (x + 1) * p <= y * p;
    assert (x + 1) * p == x * p + p;
  }

  lemma {:induction false} ZeroIsZero(n: nat)
    ensures Value(seq(n, _ => 0)) == 0
  {
    if n != 0 {
      var zeros: seq<Byte> := seq(n, _ => 0);
      ZeroIsZero(n - 1);
      assert zeros[1..] == seq(n - 1, _ => 0);
    }
  }

  /** The `k` big-endian bytes of an integer. */
  function ToBytes(n: nat, k: nat): (bytes: seq<Byte>)
    ensures |bytes| == k
  {
    if k == 0 then [] else ToBytes(n / 256, k - 1) + [n % 256]
  }

  lemma {:induction false} ValueOfSnoc(bytes: seq<Byte>, b: Byte)
    ensures Value(bytes + [b]) == 256 * Value(bytes) + b
  {
    var all := bytes + [b];
    if bytes == [] {
      assert all[1..] == [];
    } else {
      ValueOfSnoc(bytes[1..], b);
      assert all[1..] == bytes[1..] + [b] && all[0] == bytes[0];
      Scale(bytes[0], Pow256(|bytes| - 1));
    }
  }

  lemma Scale(x: nat, p: nat)
    ensures x * (256 * p) == 256 * (x * p)
  {
  }

  /** Every integer below 256^k has a `k`-byte representation. */
  lemma {:induction false} ToBytesRoundTrip(n: nat, k: nat)
    requires n < Pow256(k)
    ensures Value(ToBytes(n, k)) == n
  {
    if k != 0 {
      ToBytesRoundTrip(n / 256, k - 1);
      ValueOfSnoc(ToBytes(n / 256, k - 1), n % 256);
    }
  }

  lemma AppendHighByte(bytes: seq<Byte>, low: seq<Byte>)
    requires bytes != [] && bytes[1..] == low
    ensures Value(bytes) == bytes[0] * Pow256(|low|) + Value(low)
  {
  }

  /** The order Rust derives for byte arrays. */
  predicate LexLess(a: seq<Byte>, b: seq<Byte>)
    requires |a| == |b|
  {
    a != [] && (a[0] < b[0] || (a[0] == b[0] && LexLess(a[1..], b[1..])))
  }

  /** Comparing byte arrays of one length lexicographically compares the integers they denote. */
  lemma {:induction false} LexOrderIsIntegerOrder(a: seq<Byte>, b: seq<Byte>)
    requires |a| == |b|
    ensures LexLess(a, b) <==> Value(a) < Value(b)
    ensures a == b <==> Value(a) == Value(b)
  {
    if a != [] {
      LexOrderIsIntegerOrder(a[1..], b[1..]);
      ValueBound(a[1..]);
      ValueBound(b[1..]);
      var p := Pow256(|a| - 1);
      if a[0] < b[0] {
        HighByteDominates(a[0], b[0], Value(a[1..]), Value(b[1..]), p);
      } else if b[0] < a[0] {
        HighByteDominates(b[0], a[0], Value(b[1..]), Value(a[1..]), p);
      } else {
        assert a == [a[0]] + a[1..] && b == [b[0]] + b[1..];
      }
    }
  }
}
