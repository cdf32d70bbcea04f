/** The pagination cursor: three fields joined by NUL, written in hexadecimal with a checksum.  Text is its
    UTF-8 bytes. */
module Cursor {
  import opened Prelude
  import opened BigEndian

  type Bytes = seq<Byte>

  datatype Invalid = InvalidCursor

  // ---------------------------------------------------------------- UTF-8

  predicate Tail(b: Byte) {
    0x80 <= b <= 0xBF
  }

  /** The length of the well-formed UTF-8 sequence at the start of the bytes, or 0 (table 3-7 of the Unicode
      Standard). */
  function Lead(s: Bytes): (n: nat)
    ensures n <= |s|
  {
    if s == [] then 0
    else if s[0] <= 0x7F then 1
    else if |s| >= 2 && 0xC2 <= s[0] <= 0xDF && Tail(s[1]) then 2
    else if |s| >= 3 && Tail(s[2]) && Second3(s[0], s[1]) then 3
    else if |s| >= 4 && Tail(s[2]) && Tail(s[3]) && Second4(s[0], s[1]) then 4
    else 0
  }

  predicate Second3(a: Byte, b: Byte) {
    || (a == 0xE0 && 0xA0 <= b <= 0xBF) || (0xE1 <= a <= 0xEC && Tail(b))
    || (a == 0xED && 0x80 <= b <= 0x9F) || (0xEE <= a <= 0xEF && Tail(b))
  }

  predicate Second4(a: Byte, b: Byte) {
    || (a == 0xF0 && 0x90 <= b <= 0xBF) || (0xF1 <= a <= 0xF3 && Tail(b)) || (a == 0xF4 && 0x80 <= b <= 0x8F)
  }

  predicate Utf8(s: Bytes) {
    s == [] || (Lead(s) > 0 && Utf8(s[Lead(s)..]))
  }

  lemma LeadConcat(a: Bytes, b: Bytes)
    requires Lead(a) > 0
    ensures Lead(a + b) == Lead(a)
  {
    assert (a + b)[0] == a[0];
    assert |a| >= 2 ==> (a + b)[1] == a[1];
    assert |a| >= 3 ==> (a + b)[2] == a[2];
    assert |a| >= 4 ==> (a + b)[3] == a[3];
  }

  lemma {:induction false} Utf8Concat(a: Bytes, b: Bytes)
    requires Utf8(a) && Utf8(b)
    ensures Utf8(a + b)
    decreases |a|
  {
    if a == [] {
      assert a + b == b;
    } else {
      var n := Lead(a);
      LeadConcat(a, b);
      assert (a + b)[n..] == a[n..] + b;
      Utf8Concat(a[n..], b);
    }
  }

  /** A NUL byte is never part of a longer sequence, so it cuts valid text into valid text. */
  lemma {:induction false} Utf8Cut(a: Bytes, b: Bytes)
    requires Utf8(a + [0] + b) && 0 !in a
    ensures Utf8(a) && Utf8(b)
    decreases |a|
  {
    var s := a + [0] + b;
    var n := Lead(s);
    if a == [] {
      assert s[0] == 0 && s[1..] == b;
    } else {
      assert s[|a|] == 0;
      assert n <= |a| && Lead(a) == n;
      assert s[n..] == a[n..] + [0] + b;
      Utf8Cut(a[n..], b);
    }
  }

  type Text = s: Bytes | Utf8(s)

  // ---------------------------------------------------------------- hexadecimal

  predicate IsHex(c: Byte) {
    48 <= c <= 57 || 97 <= c <= 102
  }

  function Digit(n: int): (c: Byte)
    requires 0 <= n < 16
    ensures IsHex(c)
  {
    if n < 10 then 48 + n else 87 + n
  }

  function DigitValue(c: Byte): (n: int)
    requires IsHex(c)
    ensures 0 <= n < 16 && Digit(n) == c
  {
    if c <= 57 then c - 48 else c - 87
  }

  function EncodeHex(bytes: Bytes): (v: Bytes)
    ensures |v| == 2 * |bytes| && forall i | 0 <= i < |v| :: IsHex(v[i])
  {
    if bytes == [] then []
    else EncodeHex(bytes[..|bytes| - 1]) + [Digit(bytes[|bytes| - 1] / 16), Digit(bytes[|bytes| - 1] % 16)]
  }

  function Pairs(v: Bytes): Bytes
    requires |v| % 2 == 0 && forall i | 0 <= i < |v| :: IsHex(v[i])
  {
    if v == [] then []
    else Pairs(v[..|v| - 2]) + [16 * DigitValue(v[|v| - 2]) + DigitValue(v[|v| - 1])]
  }

  function DecodeHex(v: Bytes): Result<Bytes, Invalid> {
    if |v| % 2 != 0 || exists i | 0 <= i < |v| :: !IsHex(v[i]) then Err(InvalidCursor) else Ok(Pairs(v))
  }

  lemma {:induction false} PairsOfHex(bytes: Bytes)
    ensures Pairs(EncodeHex(bytes)) == bytes
    decreases |bytes|
  {
    if bytes != [] {
      var front, b := bytes[..|bytes| - 1], bytes[|bytes| - 1];
      PairsOfHex(front);
      var v := EncodeHex(bytes);
      assert v[..|v| - 2] == EncodeHex(front);
      assert DigitValue(Digit(b / 16)) == b / 16 && DigitValue(Digit(b % 16)) == b % 16;
    }
  }

  lemma Nibbles(hi: int, lo: int)
    requires 0 <= hi < 16 && 0 <= lo < 16
    ensures (16 * hi + lo) / 16 == hi && (16 * hi + lo) % 16 == lo
  {
  }

  lemma {:induction false} HexOfPairs(v: Bytes)
    requires |v| % 2 == 0 && forall i | 0 <= i < |v| :: IsHex(v[i])
    ensures EncodeHex(Pairs(v)) == v
    decreases |v|
  {
    if v != [] {
      var front := v[..|v| - 2];
      HexOfPairs(front);
      var b := 16 * DigitValue(v[|v| - 2]) + DigitValue(v[|v| - 1]);
      HexOfByte(v[|v| - 2], v[|v| - 1]);
      HexSnoc(Pairs(front), b);
      assert v == front + [v[|v| - 2], v[|v| - 1]];
    }
  }

  lemma HexOfByte(hi: Byte, lo: Byte)
    requires IsHex(hi) && IsHex(lo)
    ensures var b := 16 * DigitValue(hi) + DigitValue(lo); 0 <= b < 256 && [Digit(b / 16), Digit(b % 16)] == [hi, lo]
  {
    Nibbles(DigitValue(hi), DigitValue(lo));
  }

  lemma HexSnoc(bytes: Bytes, b: Byte)
    ensures EncodeHex(bytes + [b]) == EncodeHex(bytes) + [Digit(b / 16), Digit(b % 16)]
  {
    assert (bytes + [b])[..|bytes|] == bytes;
  }

  /** Hexadecimal text and bytes determine each other. */
  lemma HexRoundTrip(bytes: Bytes, v: Bytes)
    ensures DecodeHex(EncodeHex(bytes)) == Ok(bytes)
    ensures DecodeHex(v) == Ok(bytes) ==> EncodeHex(bytes) == v
  {
    PairsOfHex(bytes);
    if DecodeHex(v).Ok? {
      HexOfPairs(v);
    }
  }

  // ---------------------------------------------------------------- decimal

  function Decimal(n: nat): Bytes {
    if n < 10 then [48 + n] else Decimal(n / 10) + [48 + n % 10]
  }

  predicate Digits(t: Bytes) {
    forall i | 0 <= i < |t| :: 48 <= t[i] <= 57
  }

  function Number(t: Bytes): nat
    requires Digits(t)
  {
    if t == [] then 0 else 10 * Number(t[..|t| - 1]) + (t[|t| - 1] - 48)
  }

  /** Unsigned 64-bit parsing: one leading plus sign and leading zeros are accepted. */
  function ParseU64(t: Bytes): Result<nat, Invalid> {
    var u := if |t| > 1 && t[0] == 43 then t[1..] else t;
    if u == [] || !Digits(u) || Number(u) > U64_MAX then Err(InvalidCursor) else Ok(Number(u))
  }

  /** What is parsed: some digits, with or without one plus sign, of a value that fits in 64 bits. */
  lemma ParsesIff(t: Bytes, n: nat)
    ensures ParseU64(t) == Ok(n) <==>
              n <= U64_MAX && exists z :: z != [] && Digits(z) && (t == z || t == [43] + z) && Number(z) == n
  {
    if ParseU64(t) == Ok(n) {
      var z := if |t| > 1 && t[0] == 43 then t[1..] else t;
      assert t == z || t == [43] + z;
    }
    if exists z :: z != [] && Digits(z) && (t == z || t == [43] + z) && Number(z) == n {
      var z :| z != [] && Digits(z) && (t == z || t == [43] + z) && Number(z) == n;
      assert t != z ==> t[1..] == z;
    }
  }

  lemma {:induction false} NumberOfDecimal(n: nat)
    ensures Decimal(n) != [] && Digits(Decimal(n)) && Number(Decimal(n)) == n
    ensures Decimal(n)[0] == 48 ==> n == 0
    decreases n
  {
    if n >= 10 {
      NumberOfDecimal(n / 10);
      var t := Decimal(n);
      assert t[..|t| - 1] == Decimal(n / 10);
    } else {
      assert Number([48 + n]) == 10 * Number([]) + n by {
        assert [48 + n][..0] == [];
      }
    }
  }

  /** Plain decimal: no sign and no leading zero. */
  predicate Plain(t: Bytes) {
    t != [] && t[0] != 43 && (t[0] == 48 ==> |t| == 1)
  }

  lemma {:induction false} DecimalOfNumber(t: Bytes)
    requires t != [] && Digits(t) && (t[0] == 48 ==> |t| == 1)
    ensures Decimal(Number(t)) == t
    ensures |t| > 1 ==> Number(t) >= 10
    decreases |t|
  {
    var front, d := t[..|t| - 1], t[|t| - 1] - 48;
    assert t == front + [48 + d];
    if front == [] {
      assert Number(front) == 0;
    } else {
      assert front[0] == t[0];
      DecimalOfNumber(front);
      assert Number(front) >= 1 by {
        if |front| == 1 {
          assert front[..0] == [];
        }
      }
      assert (10 * Number(front) + d) / 10 == Number(front) && (10 * Number(front) + d) % 10 == d;
    }
  }

  /** Parsing undoes printing, and printing gives back exactly the plain texts. */
  lemma DecimalRoundTrip(n: nat, t: Bytes)
    ensures n <= U64_MAX ==> ParseU64(Decimal(n)) == Ok(n)
    ensures ParseU64(t) == Ok(n) ==> (Decimal(n) == t <==> Plain(t))
  {
    NumberOfDecimal(n);
    if ParseU64(t) == Ok(n) && Plain(t) {
      DecimalOfNumber(t);
    }
  }

  // ---------------------------------------------------------------- splitting at a byte

  /** The position of the first occurrence. */
  function IndexOf(s: Bytes, c: Byte): (i: nat)
    ensures i <= |s| && c !in s[..i] && (i < |s| ==> s[i] == c) && (i == |s| <==> c !in s)
  {
    if s == [] || s[0] == c then 0
    else
      var i := 1 + IndexOf(s[1..], c);
      assert s[..i] == [s[0]] + s[1..][..i - 1] && s == [s[0]] + s[1..];
      i
  }

  function Split(s: Bytes, c: Byte): (parts: seq<Bytes>)
    ensures parts != []
    decreases |s|
  {
    var i := IndexOf(s, c);
    if i == |s| then [s] else [s[..i]] + Split(s[i + 1..], c)
  }

  lemma {:induction false} IndexIsFirst(s: Bytes, c: Byte, k: nat)
    requires k < |s| && s[k] == c && c !in s[..k]
    ensures IndexOf(s, c) == k
    decreases k
  {
    if k > 0 {
      assert s[..k] == [s[0]] + s[1..][..k - 1];
      IndexIsFirst(s[1..], c, k - 1);
    }
  }

  lemma IndexAfter(a: Bytes, c: Byte, b: Bytes)
    requires c !in a
    ensures IndexOf(a + [c] + b, c) == |a|
  {
    var s := a + [c] + b;
    assert s[..|a|] == a;
    IndexIsFirst(s, c, |a|);
  }

  lemma SplitAfter(a: Bytes, c: Byte, b: Bytes)
    requires c !in a
    ensures Split(a + [c] + b, c) == [a] + Split(b, c)
  {
    var s := a + [c] + b;
    IndexAfter(a, c, b);
    assert s[..|a|] == a && s[|a| + 1..] == b;
  }

  lemma SplitNone(a: Bytes, c: Byte)
    requires c !in a
    ensures Split(a, c) == [a]
  {
  }

  /** Text cut in two parts is the two parts with the separator between them. */
  lemma SplitMeans(s: Bytes, c: Byte)
    requires |Split(s, c)| > 1
    ensures var a := Split(s, c)[0];
            var b := s[|a| + 1..];
            |a| < |s| && c !in a && s == a + [c] + b && Split(b, c) == Split(s, c)[1..]
  {
    var i := IndexOf(s, c);
    assert s == s[..i] + [c] + s[i + 1..];
  }

  lemma SplitOne(s: Bytes, c: Byte)
    requires |Split(s, c)| == 1
    ensures Split(s, c)[0] == s && c !in s
  {
  }

  // ---------------------------------------------------------------- the cursor

  const MAX_DATASET_BYTES := 64
  const MAX_KEY_BYTES := 512
  const NUL: Byte := 0
  const DOT: Byte := 46

  datatype PageCursor = PageCursor(dataset: Text, lastKey: Text, revision: nat)

  /** What construction accepts. */
  predicate Bounded(c: PageCursor) {
    && 0 < |c.dataset| <= MAX_DATASET_BYTES && 0 < |c.lastKey| <= MAX_KEY_BYTES
    && NUL !in c.dataset && NUL !in c.lastKey && 0 < c.revision <= U64_MAX
  }

  function New(dataset: Text, lastKey: Text, revision: nat): Result<PageCursor, Invalid> {
    var c := PageCursor(dataset, lastKey, revision);
    if Bounded(c) then Ok(c) else Err(InvalidCursor)
  }

  function Joined(a: Bytes, b: Bytes, t: Bytes): Bytes {
    a + [NUL] + (b + [NUL] + t)
  }

  function Payload(c: PageCursor): Bytes {
    Joined(c.dataset, c.lastKey, Decimal(c.revision))
  }

  /** A payload and its checksum in hexadecimal; `sum` is the first 16 bytes of the digest. */
  function Seal(sum: Bytes -> Bytes, payload: Bytes): Bytes {
    EncodeHex(payload) + [DOT] + EncodeHex(sum(payload))
  }

  function Encode(sum: Bytes -> Bytes, c: PageCursor): Bytes {
    Seal(sum, Payload(c))
  }

  /** The payload of a well-formed, unmodified cursor text. */
  function Open(sum: Bytes -> Bytes, e: Bytes): Result<Text, Invalid> {
    var parts := Split(e, DOT);
    if |parts| != 2 || |parts[1]| != 32 then Err(InvalidCursor)
    else
      match (DecodeHex(parts[0]), DecodeHex(parts[1]))
      case (Ok(payload), Ok(checksum)) =>
        if checksum == sum(payload) && Utf8(payload) then Ok(payload) else Err(InvalidCursor)
      case _ => Err(InvalidCursor)
  }

  /** The parts of a text are texts. */
  lemma PartsAreText(p: Text, parts: seq<Bytes>)
    requires Split(p, NUL) == parts && |parts| == 3
    ensures Utf8(parts[0]) && Utf8(parts[1]) && Utf8(parts[2])
  {
    var rest := CutOff(p, parts);
    var last := CutOff(rest, parts[1..]);
    SplitOne(last, NUL);
  }

  /** The first part of a text, and what is behind it, are texts. */
  lemma CutOff(p: Text, parts: seq<Bytes>) returns (rest: Text)
    requires Split(p, NUL) == parts && |parts| > 1
    ensures Utf8(parts[0]) && Split(rest, NUL) == parts[1..]
  {
    SplitMeans(p, NUL);
    var a := parts[0];
    Utf8Cut(a, p[|a| + 1..]);
    rest := p[|a| + 1..];
  }

  function Decode(sum: Bytes -> Bytes, e: Bytes): Result<PageCursor, Invalid> {
    match Open(sum, e)
    case Err(_) => Err(InvalidCursor)
    case Ok(payload) =>
      var fields := Split(payload, NUL);
      if |fields| != 3 then Err(InvalidCursor)
      else
        PartsAreText(payload, fields);
        match ParseU64(fields[2])
        case Err(_) => Err(InvalidCursor)
        case Ok(revision) => New(fields[0], fields[1], revision)
  }

  // ---------------------------------------------------------------- round trips

  lemma {:induction false} DigitsAreText(t: Bytes)
    requires Digits(t)
    ensures Utf8(t) && NUL !in t
    decreases |t|
  {
    if t != [] {
      DigitsAreText(t[1..]);
    }
  }

  lemma ParsedIsText(t: Bytes)
    requires ParseU64(t).Ok?
    ensures Utf8(t) && NUL !in t
  {
    if |t| > 1 && t[0] == 43 {
      DigitsAreText(t[1..]);
      assert t == [43] + t[1..];
    } else {
      DigitsAreText(t);
    }
  }

  lemma JoinedIsText(a: Text, b: Text, t: Text)
    ensures Utf8(Joined(a, b, t))
  {
    Utf8Concat(b, [NUL]);
    Utf8Concat(b + [NUL], t);
    Utf8Concat(a, [NUL]);
    Utf8Concat(a + [NUL], b + [NUL] + t);
  }

  lemma JoinedFields(a: Bytes, b: Bytes, t: Bytes)
    requires NUL !in a && NUL !in b && NUL !in t
    ensures Split(Joined(a, b, t), NUL) == [a, b, t]
  {
    SplitAfter(a, NUL, b + [NUL] + t);
    SplitAfter(b, NUL, t);
    SplitNone(t, NUL);
  }

  lemma HexHasNoDot(bytes: Bytes)
    ensures DOT !in EncodeHex(bytes)
  {
  }

  lemma OpenSealed(sum: Bytes -> Bytes, p: Text)
    requires |sum(p)| == 16
    ensures Open(sum, Seal(sum, p)) == Ok(p)
  {
    HexHasNoDot(p);
    HexHasNoDot(sum(p));
    SplitAfter(EncodeHex(p), DOT, EncodeHex(sum(p)));
    SplitNone(EncodeHex(sum(p)), DOT);
    HexRoundTrip(p, []);
    HexRoundTrip(sum(p), []);
  }

  /** What decodes to a cursor: its fields joined, with any revision text that parses to its revision. */
  lemma DecodeSealed(sum: Bytes -> Bytes, c: PageCursor, t: Bytes)
    requires Bounded(c) && ParseU64(t) == Ok(c.revision)
    requires |sum(Joined(c.dataset, c.lastKey, t))| == 16
    ensures Decode(sum, Seal(sum, Joined(c.dataset, c.lastKey, t))) == Ok(c)
  {
    ParsedIsText(t);
    JoinedIsText(c.dataset, c.lastKey, t);
    OpenSealed(sum, Joined(c.dataset, c.lastKey, t));
    JoinedFields(c.dataset, c.lastKey, t);
  }

  /** Decoding an encoded cursor returns the same cursor. */
  lemma DecodeEncode(sum: Bytes -> Bytes, c: PageCursor)
    requires Bounded(c) && |sum(Payload(c))| == 16
    ensures Decode(sum, Encode(sum, c)) == Ok(c)
  {
    NumberOfDecimal(c.revision);
    DecimalRoundTrip(c.revision, []);
    DecodeSealed(sum, c, Decimal(c.revision));
  }

  /** A text that opens is the hexadecimal form of its payload and checksum. */
  lemma OpenMeans(sum: Bytes -> Bytes, e: Bytes)
    requires Open(sum, e).Ok?
    ensures e == Seal(sum, Open(sum, e).value)
  {
    var parts := Split(e, DOT);
    SplitMeans(e, DOT);
    SplitOne(e[|parts[0]| + 1..], DOT);
    HexRoundTrip(DecodeHex(parts[0]).value, parts[0]);
    HexRoundTrip(DecodeHex(parts[1]).value, parts[1]);
  }

  lemma ThreeFields(p: Bytes)
    requires |Split(p, NUL)| == 3
    ensures var fs := Split(p, NUL); p == Joined(fs[0], fs[1], fs[2])
  {
    SplitMeans(p, NUL);
    var rest := p[|Split(p, NUL)[0]| + 1..];
    SplitMeans(rest, NUL);
    SplitOne(rest[|Split(rest, NUL)[0]| + 1..], NUL);
  }

  /** A text that decodes is the encoding of its cursor if and only if its revision field is plain decimal. */
  lemma EncodeDecodeIff(sum: Bytes -> Bytes, e: Bytes)
    requires Decode(sum, e).Ok?
    ensures Open(sum, e).Ok? && |Split(Open(sum, e).value, NUL)| == 3
    ensures Encode(sum, Decode(sum, e).value) == e <==> Plain(Split(Open(sum, e).value, NUL)[2])
  {
    var p, c := Open(sum, e).value, Decode(sum, e).value;
    var fs := Split(p, NUL);
    OpenMeans(sum, e);
    ThreeFields(p);
    DecimalRoundTrip(c.revision, fs[2]);
    if Encode(sum, c) == e {
      SamePayload(sum, c, e);
      NumberOfDecimal(c.revision);
      DigitsAreText(Decimal(c.revision));
      JoinedFields(c.dataset, c.lastKey, Decimal(c.revision));
    }
  }

  lemma SamePayload(sum: Bytes -> Bytes, c: PageCursor, e: Bytes)
    requires Open(sum, e).Ok? && Encode(sum, c) == e
    ensures Payload(c) == Open(sum, e).value
  {
    HexHasNoDot(Payload(c));
    IndexAfter(EncodeHex(Payload(c)), DOT, EncodeHex(sum(Payload(c))));
    assert Split(e, DOT)[0] == EncodeHex(Payload(c));
    HexRoundTrip(Payload(c), []);
  }

  lemma {:induction false} ZeroInFront(t: Bytes)
    requires Digits(t)
    ensures Digits([48] + t) && Number([48] + t) == Number(t)
    decreases |t|
  {
    if t == [] {
      assert [48] + t == [48] && [48][..0] == [];
    } else {
      assert ([48] + t)[..|t|] == [48] + t[..|t| - 1];
      ZeroInFront(t[..|t| - 1]);
    }
  }

  /** The condition matters: for every cursor, its revision written with a leading zero decodes to it too, but
      is not what encoding writes. */
  lemma LeadingZeroDecodes(sum: Bytes -> Bytes, c: PageCursor, e: Bytes)
    requires Bounded(c) && |sum(Joined(c.dataset, c.lastKey, [48] + Decimal(c.revision)))| == 16
    requires e == Seal(sum, Joined(c.dataset, c.lastKey, [48] + Decimal(c.revision)))
    ensures Decode(sum, e) == Ok(c) && Encode(sum, c) != e
  {
    var t := [48] + Decimal(c.revision);
    NumberOfDecimal(c.revision);
    ZeroInFront(Decimal(c.revision));
    DecodeSealed(sum, c, t);
    DigitsAreText(t);
    JoinedIsText(c.dataset, c.lastKey, t);
    OpenSealed(sum, Joined(c.dataset, c.lastKey, t));
    JoinedFields(c.dataset, c.lastKey, t);
    EncodeDecodeIff(sum, e);
  }

  /** The text is this cursor with the revision written as `t`: dataset, key and `t`, separated by zero bytes, in
      hexadecimal, a dot, and the 16 checksum bytes of that in hexadecimal. */
  ghost predicate Writes(sum: Bytes -> Bytes, c: PageCursor, t: Bytes, e: Bytes) {
    var p := c.dataset + [0] + (c.lastKey + [0] + t);
    |sum(p)| == 16 && e == EncodeHex(p) + [46] + EncodeHex(sum(p))
  }

  /** A text decodes to a cursor if and only if the cursor is in bounds and the text writes it with some text of its
      revision; every other text is refused. */
  lemma DecodesIff(sum: Bytes -> Bytes, e: Bytes, c: PageCursor)
    ensures Decode(sum, e) == Ok(c) <==>
              && 1 <= |c.dataset| <= 64 && 1 <= |c.lastKey| <= 512 && 0 !in c.dataset && 0 !in c.lastKey
              && 1 <= c.revision <= U64_MAX
              && exists t :: ParseU64(t) == Ok(c.revision) && Writes(sum, c, t, e)
  {
    if Decode(sum, e) == Ok(c) {
      var p := Open(sum, e).value;
      OpenMeans(sum, e);
      ThreeFields(p);
      ChecksumSize(sum, e);
      assert Writes(sum, c, Split(p, NUL)[2], e);
    }
    if Bounded(c) && exists t :: ParseU64(t) == Ok(c.revision) && Writes(sum, c, t, e) {
      var t :| ParseU64(t) == Ok(c.revision) && Writes(sum, c, t, e);
      DecodeSealed(sum, c, t);
    }
  }

  lemma ChecksumSize(sum: Bytes -> Bytes, e: Bytes)
    requires Open(sum, e).Ok?
    ensures |sum(Open(sum, e).value)| == 16
  {
    var parts := Split(e, DOT);
    HexRoundTrip(DecodeHex(parts[1]).value, parts[1]);
  }
}
