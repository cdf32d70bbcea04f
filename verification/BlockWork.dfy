/** 256-bit accumulated proof of work as 32 big-endian bytes.

    Work values are only ever added and compared.  The byte-wise carry loop is
    shown to be integer addition with an exact overflow test, and the derived
    lexicographic order on the byte arrays is shown to be the integer order. */
module BlockWork {
  import opened Prelude
  import opened BigEndian

  const WORK_BYTES: nat := 32

  type Work = w: seq<Byte> | |w| == WORK_BYTES witness Zero()

  function Zero(): (w: seq<Byte>)
    ensures |w| == WORK_BYTES
  {
    seq(WORK_BYTES, _ => 0)
  }

  /** The sum of two work values, when it fits. */
  function Sum(a: Work, b: Work): Option<Work> {
    if Value(a) + Value(b) < Pow256(|a|) then Some(ToBytes(Value(a) + Value(b), |a|)) else None
  }

  /** Integer addition with the 256-bit bound, the specification of `CheckedAdd`. */
  ghost predicate IsSum(a: Work, b: Work, r: Option<Work>) {
    && (r.Some? <==> Value(a) + Value(b) < Pow256(|a|))
    && (r.Some? ==> Value(r.value) == Value(a) + Value(b))
  }

  /** A sum is determined by its operands. */
  lemma SumIsUnique(a: Work, b: Work, r: Option<Work>, r': Option<Work>)
    requires IsSum(a, b, r) && IsSum(a, b, r')
    ensures r == r'
  {
    if r.Some? {
      LexOrderIsIntegerOrder(r.value, r'.value);
    }
  }

  lemma SumIsSum(a: Work, b: Work)
    ensures IsSum(a, b, Sum(a, b))
  {
    if Value(a) + Value(b) < Pow256(|a|) {
      ToBytesRoundTrip(Value(a) + Value(b), |a|);
    }
  }

  lemma CarryStep(x: Byte, y: Byte, carry: nat, digit: nat, carry': nat, p: nat, va: nat, vb: nat, vs: nat)
    requires x + y + carry == digit + 256 * carry'
    requires va + vb == vs + carry * p
    ensures (x * p + va) + (y * p + vb) == (digit * p + vs) + carry' * (256 * p)
  {
    assert (x + y + carry) * p == x * p + y * p + carry * p;
    assert (digit + 256 * carry') * p == digit * p + carry' * (256 * p);
  }

  /** Adds from the last byte to the first with a carry; fails when a carry is left over. */
  method CheckedAdd(a: Work, b: Work) returns (r: Option<Work>)
    ensures r == Sum(a, b) && IsSum(a, b, r)
  {
    var sum, carry := AddWithCarry(a, b);
    r := if carry == 0 then Some(sum) else None;
    SumIsSum(a, b);
    SumOfDigits(Value(a) + Value(b), sum, carry);
  }

  lemma SumOfDigits(total: nat, digits: seq<Byte>, carry: nat)
    requires total == Value(digits) + (if carry == 0 then 0 else Pow256(|digits|))
    ensures carry == 0 <==> total < Pow256(|digits|)
    ensures carry == 0 ==> digits == ToBytes(total, |digits|)
  {
    ValueBound(digits);
    if carry == 0 {
      ToBytesRoundTrip(total, |digits|);
      LexOrderIsIntegerOrder(digits, ToBytes(total, |digits|));
    }
  }

  method AddWithCarry(a: seq<Byte>, b: seq<Byte>) returns (digits: seq<Byte>, carry: nat)
    requires |a| == |b|
    ensures |digits| == |a| && carry <= 1
    ensures Value(a) + Value(b) == Value(digits) + carry * Pow256(|a|)
  {
    var sum := new Byte[|a|](_ => 0);
    carry := 0;
    var index := |a|;
    while index > 0
      invariant 0 <= index <= |a|
      invariant carry <= 1
      invariant Value(a[index..]) + Value(b[index..])
             == Value(sum[index..]) + carry * Pow256(|a| - index)
    {
      index := index - 1;
      var value := a[index] + b[index] + carry;
      ghost var low := sum[index + 1..];
      sum[index] := value % 256;
      CarryStep(a[index], b[index], carry, value % 256, value / 256, Pow256(|a| - index - 1),
                Value(a[index + 1..]), Value(b[index + 1..]), Value(low));
      AppendHighByte(sum[index..], low);
      AppendHighByte(a[index..], a[index + 1..]);
      AppendHighByte(b[index..], b[index + 1..]);
      carry := value / 256;
    }
    assert a[0..] == a && b[0..] == b && sum[0..] == sum[..];
    digits := sum[..];
  }
}
