/** A concrete codec with fixed-width fields: what the log theorems ask of a codec can be met. */
module WalWitness {
  import opened Prelude
  import opened BigEndian
  import opened WalFormat
  import opened WalLog
  import opened WalSpec

  // ---------------------------------------------------------------- 64-bit fields

  lemma EightBytes(n: nat)
    requires n <= U64_MAX
    ensures |ToBytes(n, 8)| == 8 && Value(ToBytes(n, 8)) == n
  {
    assert Pow256(8) == U64_MAX + 1 by {
      assert Pow256(1) == 256 && Pow256(2) == 256 * Pow256(1) && Pow256(3) == 256 * Pow256(2);
      assert Pow256(4) == 256 * Pow256(3) && Pow256(5) == 256 * Pow256(4) && Pow256(6) == 256 * Pow256(5);
      assert Pow256(7) == 256 * Pow256(6);
    }
    ToBytesRoundTrip(n, 8);
  }

  /** The signed number that two's complement bits stand for. */
  function Signed(n: nat): int {
    if n <= I64_MAX then n else n - (U64_MAX + 1)
  }

  lemma SignedBytes(n: int)
    requires I64_MIN <= n <= I64_MAX
    ensures |I64(n)| == 8 && Signed(Value(I64(n))) == n
  {
    var bits := n % (U64_MAX + 1);
    assert bits == if n >= 0 then n else n + (U64_MAX + 1);
    EightBytes(bits);
  }

  // ---------------------------------------------------------------- commits

  function EncodeCommit(w: WalCommit): Bytes {
    if !InRange(w) then []
    else w.session + (U64(w.firstSequence) + (U64(w.lastSequence) + (U64(w.firstOffset) + (U64(w.lastOffset)
         + (I64(w.durableAt) + w.hash)))))
  }

  function DecodeCommit(b: Bytes): Option<WalCommit> {
    if |b| != 88 then None
    else Some(WalCommit(b[..16], Value(b[16..24]), Value(b[24..32]), Value(b[32..40]), Value(b[40..48]),
                        Signed(Value(b[48..56])), b[56..]))
  }

  lemma Cut(a: Bytes, b: Bytes)
    ensures (a + b)[..|a|] == a && (a + b)[|a|..] == b
  {
  }

  lemma CommitRoundTrip(w: WalCommit)
    requires InRange(w)
    ensures |EncodeCommit(w)| == 88 && DecodeCommit(EncodeCommit(w)) == Some(w)
  {
    EightBytes(w.firstSequence);
    EightBytes(w.lastSequence);
    EightBytes(w.firstOffset);
    EightBytes(w.lastOffset);
    SignedBytes(w.durableAt);
    Fields(w.session, U64(w.firstSequence), U64(w.lastSequence), U64(w.firstOffset), U64(w.lastOffset),
           I64(w.durableAt), w.hash, EncodeCommit(w));
  }

  lemma Fields(a: Bytes, p: Bytes, q: Bytes, r: Bytes, s: Bytes, t: Bytes, h: Bytes, b: Bytes)
    requires |a| == 16 && |p| == |q| == |r| == |s| == |t| == 8 && |h| == 32
    requires b == a + (p + (q + (r + (s + (t + h)))))
    ensures |b| == 88 && b[..16] == a && b[16..24] == p && b[24..32] == q && b[32..40] == r && b[40..48] == s
    ensures b[48..56] == t && b[56..] == h
  {
  }

  // ---------------------------------------------------------------- observations

  /** Bytes marked one by one, with an end mark. */
  function Quote(s: Bytes): Bytes {
    if s == [] then [0] else [1, s[0]] + Quote(s[1..])
  }

  /** A quoted text and what follows it. */
  function Unquote(b: Bytes): Option<(Bytes, Bytes)> {
    if b == [] then None
    else if b[0] == 0 then Some(([], b[1..]))
    else if |b| < 2 then None
    else
      match Unquote(b[2..])
      case None => None
      case Some((s, rest)) => Some(([b[1]] + s, rest))
  }

  lemma {:induction false} QuoteRoundTrip(s: Bytes, rest: Bytes)
    ensures Unquote(Quote(s) + rest) == Some((s, rest))
    decreases |s|
  {
    var b := Quote(s) + rest;
    if s == [] {
      assert b[1..] == rest;
    } else {
      assert b[2..] == Quote(s[1..]) + rest;
      QuoteRoundTrip(s[1..], rest);
      assert [s[0]] + s[1..] == s;
    }
  }

  function EncodeObservation(o: Observation): Bytes {
    U64(o.sequence) + (Quote(o.session) + o.body)
  }

  function DecodeObservation(b: Bytes): Option<Observation> {
    if |b| < 8 then None
    else
      match Unquote(b[8..])
      case None => None
      case Some((session, body)) => Some(Observation(session, Value(b[..8]), body))
  }

  lemma ObservationRoundTrip(o: Observation)
    requires o.sequence <= U64_MAX
    ensures DecodeObservation(EncodeObservation(o)) == Some(o)
  {
    EightBytes(o.sequence);
    Cut(U64(o.sequence), Quote(o.session) + o.body);
    QuoteRoundTrip(o.session, o.body);
  }

  // ---------------------------------------------------------------- the codec

  const ZERO_DIGEST: Digest := seq(32, _ => 0)

  const FIXED_WIDTH := Codec((_: Bytes) => 0, (_: Bytes) => ZERO_DIGEST,
                             EncodeObservation, DecodeObservation, EncodeCommit, DecodeCommit)

  /** The codec is lawful. */
  lemma FixedWidthIsLawful()
    ensures Lawful(FIXED_WIDTH)
  {
    forall o: Observation | o.sequence <= U64_MAX
      ensures Decodes(FIXED_WIDTH, o)
    {
      ObservationRoundTrip(o);
    }
    forall w | InRange(w)
      ensures CommitDecodes(FIXED_WIDTH, w)
    {
      CommitRoundTrip(w);
    }
  }

  /** Usable configurations exist, and in them logs with observations, commits and a seal. */
  lemma UsableWithLog(session: Session, body: Bytes, at: Nanos) returns (cfg: Config, log: seq<Record>)
    requires |body| <= 1024
    ensures Usable(cfg) && Fits(cfg, log)
    ensures log == [Observe(Observation(session, 0, body)), Commit(at), Seal]
  {
    FixedWidthIsLawful();
    cfg := Config(Env(FIXED_WIDTH, session), 1_000_000);
    var o := Observation(session, 0, body);
    EightBytes(0);
    QuoteLength(session);
    OneObservation(cfg, o);
    CommitAndSeal(cfg, [Observe(o)], at);
    log := [Observe(o)] + [Commit(at)] + [Seal];
  }

  lemma OneObservation(cfg: Config, o: Observation)
    requires Usable(cfg) && cfg.maxBytes == 1_000_000 && o.session == cfg.env.session && o.sequence == 0
    requires |cfg.env.codec.encodeObservation(o)| <= 2000
    ensures var log := [Observe(o)];
            && Fits(cfg, log) && Pending(cfg.env, log) != [] && !IsSealed(log) && |Render(cfg.env, log)| <= 2009
  {
    assert Fits(cfg, []);
    AppendFits(cfg, [], o);
    AfterRecord(cfg.env, [], Observe(o));
    assert [] + [Observe(o)] == [Observe(o)];
  }

  lemma CommitAndSeal(cfg: Config, log: seq<Record>, at: Nanos)
    requires Usable(cfg) && cfg.maxBytes == 1_000_000 && Fits(cfg, log)
    requires Pending(cfg.env, log) != [] && !IsSealed(log) && |Render(cfg.env, log)| <= 2009
    ensures Fits(cfg, log + [Commit(at)] + [Seal])
  {
    CommitFits(cfg, log, at);
    CommitInRange(cfg.env, log, at);
    assert CommitDecodes(cfg.env.codec, CommitOf(cfg.env, Pending(cfg.env, log), at));
    AfterRecord(cfg.env, log, Commit(at));
    SealFits(cfg, log + [Commit(at)]);
  }

  lemma {:induction false} QuoteLength(s: Bytes)
    ensures |Quote(s)| == 2 * |s| + 1
    decreases |s|
  {
    if s != [] {
      QuoteLength(s[1..]);
    }
  }
}
