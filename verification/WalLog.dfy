/** The log as the writer means it: a list of records, the bytes they are rendered to, and what is
    committed and what is pending after them. */
module WalLog {
  import opened Prelude
  import opened BigEndian
  import opened WalFormat

  /** What one segment is configured with. */
  datatype Env = Env(codec: Codec, session: Session)

  /** One thing the writer did. */
  datatype Record = Observe(o: Observation) | Commit(durableAt: Nanos) | Seal

  /** An observation frame in the file that no commit covers yet. */
  datatype PendingFrame = PendingFrame(observation: Observation, offset: nat, end: nat, bytes: Bytes)

  datatype CommittedObservation = CommittedObservation(observation: Observation, durableAt: int, commitHash: Bytes)

  const COMMIT_DOMAIN: Bytes := [119, 97, 108, 45, 99, 111, 109, 109, 105, 116, 47, 118, 49]

  function U64(n: nat): Bytes {
    ToBytes(n, 8)
  }

  /** Two's complement. */
  function I64(n: int): Bytes {
    ToBytes(n % (U64_MAX + 1), 8)
  }

  function Concat(parts: seq<Bytes>): Bytes {
    if parts == [] then [] else Concat(parts[..|parts| - 1]) + parts[|parts| - 1]
  }

  function FrameList(pending: seq<PendingFrame>): (parts: seq<Bytes>)
    ensures |parts| == |pending|
  {
    if pending == [] then [] else FrameList(pending[..|pending| - 1]) + [pending[|pending| - 1].bytes]
  }

  /** What is fed to the digest of a commit, piece by piece. */
  function CommitPieces(v: Env, first: nat, last: nat, firstOffset: nat, lastOffset: nat, durableAt: int, frames: seq<Bytes>): seq<Bytes> {
    [COMMIT_DOMAIN, v.session, U64(first), U64(last), U64(firstOffset), U64(lastOffset), I64(durableAt)] + frames
  }

  function CommitHash(v: Env, first: nat, last: nat, firstOffset: nat, lastOffset: nat, durableAt: int, frames: seq<Bytes>): Digest {
    v.codec.digest(Concat(CommitPieces(v, first, last, firstOffset, lastOffset, durableAt, frames)))
  }

  /** The digest loop of the writer and of recovery. */
  method CalculateCommitHash(v: Env, first: nat, last: nat, firstOffset: nat, lastOffset: nat, durableAt: int, frames: seq<Bytes>)
    returns (digest: Digest)
    ensures digest == CommitHash(v, first, last, firstOffset, lastOffset, durableAt, frames)
  {
    var pieces := CommitPieces(v, first, last, firstOffset, lastOffset, durableAt, frames);
    var fed := [];
    for i := 0 to |pieces|
      invariant fed == Concat(pieces[..i])
    {
      assert pieces[..i + 1][..i] == pieces[..i];
      fed := fed + pieces[i];
    }
    assert pieces[..|pieces|] == pieces;
    digest := v.codec.digest(fed);
  }

  // ---------------------------------------------------------------- rendering

  function CommitOf(v: Env, pending: seq<PendingFrame>, durableAt: Nanos): WalCommit
    requires pending != [] && 0 < pending[|pending| - 1].end
  {
    var first, last := pending[0], pending[|pending| - 1];
    WalCommit(v.session, first.observation.sequence, last.observation.sequence, first.offset, last.end - 1, durableAt,
              CommitHash(v, first.observation.sequence, last.observation.sequence, first.offset, last.end - 1,
                         durableAt, FrameList(pending)))
  }

  function TypeOf(r: Record): Byte {
    match r
    case Observe(_) => OBSERVATION_FRAME
    case Commit(_) => GROUP_COMMIT_FRAME
    case Seal => SEGMENT_SEAL_FRAME
  }

  /** The payload of a record written after `before`. */
  function Payload(v: Env, before: seq<Record>, r: Record): Bytes
    decreases |before|, 2
  {
    match r
    case Observe(o) => v.codec.encodeObservation(o)
    case Commit(at) =>
      var pending := Pending(v, before);
      if pending == [] then [] else v.codec.encodeCommit(CommitOf(v, pending, at))
    case Seal => v.codec.digest(Render(v, before))
  }

  function RecordBytes(v: Env, before: seq<Record>, r: Record): (bytes: Bytes)
    ensures |bytes| == HEADER_BYTES + |Payload(v, before, r)| + CRC_BYTES
    decreases |before|, 3
  {
    FrameBytes(v.codec, TypeOf(r), Payload(v, before, r))
  }

  function Render(v: Env, records: seq<Record>): Bytes
    decreases |records|, 0
  {
    if records == [] then []
    else
      var before := records[..|records| - 1];
      Render(v, before) + RecordBytes(v, before, records[|records| - 1])
  }

  /** The observations written since the last commit, and where their frames are. */
  function Pending(v: Env, records: seq<Record>): (pending: seq<PendingFrame>)
    ensures forall i | 0 <= i < |pending| :: 0 < pending[i].end
    decreases |records|, 1
  {
    if records == [] then []
    else
      var before := records[..|records| - 1];
      match records[|records| - 1]
      case Observe(o) =>
        var bytes := FrameBytes(v.codec, OBSERVATION_FRAME, v.codec.encodeObservation(o));
        var at := |Render(v, before)|;
        Pending(v, before) + [PendingFrame(o, at, at + |bytes|, bytes)]
      case Commit(_) => []
      case Seal => Pending(v, before)
  }

  /** Everything covered by a commit, in order. */
  function Committed(v: Env, records: seq<Record>): seq<CommittedObservation> {
    if records == [] then []
    else
      var before := records[..|records| - 1];
      match records[|records| - 1]
      case Commit(at) =>
        var pending := Pending(v, before);
        if pending == [] then Committed(v, before)
        else Committed(v, before) + Stamped(pending, at, CommitOf(v, pending, at).hash)
      case _ => Committed(v, before)
  }

  function Stamped(pending: seq<PendingFrame>, durableAt: int, hash: Bytes): (r: seq<CommittedObservation>)
    ensures |r| == |pending|
    ensures forall i | 0 <= i < |r| :: r[i] == CommittedObservation(pending[i].observation, durableAt, hash)
  {
    if pending == [] then []
    else Stamped(pending[..|pending| - 1], durableAt, hash)
         + [CommittedObservation(pending[|pending| - 1].observation, durableAt, hash)]
  }

  /** How many observations have been written. */
  function Count(records: seq<Record>): nat {
    if records == [] then 0
    else Count(records[..|records| - 1]) + (if records[|records| - 1].Observe? then 1 else 0)
  }

  function LastCommitEnd(v: Env, records: seq<Record>): nat {
    if records == [] then 0
    else if records[|records| - 1].Commit? then |Render(v, records)|
    else LastCommitEnd(v, records[..|records| - 1])
  }

  predicate IsSealed(records: seq<Record>) {
    records != [] && records[|records| - 1].Seal?
  }

  /** When the writer would write this record next. */
  predicate Admissible(v: Env, before: seq<Record>, r: Record) {
    && !IsSealed(before)
    && |Payload(v, before, r)| <= MAX_PAYLOAD_BYTES
    && match r
       case Observe(o) => o.session == v.session && o.sequence == Count(before)
       case Commit(_) => Pending(v, before) != []
       case Seal => Pending(v, before) == []
  }

  /** A log the writer can have produced. */
  predicate Legal(v: Env, records: seq<Record>) {
    records == [] || (Legal(v, records[..|records| - 1])
                      && Admissible(v, records[..|records| - 1], records[|records| - 1]))
  }

  // ---------------------------------------------------------------- facts about logs

  lemma Snoc(records: seq<Record>, r: Record)
    ensures (records + [r])[..|records + [r]| - 1] == records
  {
  }

  lemma FrontAndLast(records: seq<Record>)
    requires records != []
    ensures records == records[..|records| - 1] + [records[|records| - 1]]
  {
  }

  /** What one more record changes. */
  lemma AfterRecord(v: Env, log: seq<Record>, r: Record)
    ensures Render(v, log + [r]) == Render(v, log) + RecordBytes(v, log, r)
    ensures IsSealed(log + [r]) == r.Seal?
    ensures r.Observe? ==>
              var at, bytes := |Render(v, log)|, RecordBytes(v, log, r);
              && Pending(v, log + [r]) == Pending(v, log) + [PendingFrame(r.o, at, at + |bytes|, bytes)]
              && Count(log + [r]) == Count(log) + 1
    ensures r.Commit? ==> Pending(v, log + [r]) == [] && LastCommitEnd(v, log + [r]) == |Render(v, log + [r])|
    ensures r.Seal? ==> Pending(v, log + [r]) == Pending(v, log)
    ensures !r.Observe? ==> Count(log + [r]) == Count(log)
    ensures !r.Commit? ==> LastCommitEnd(v, log + [r]) == LastCommitEnd(v, log)
  {
    Snoc(log, r);
  }

  lemma {:induction false} LegalPrefix(v: Env, records: seq<Record>, k: nat)
    requires Legal(v, records) && k <= |records|
    ensures Legal(v, records[..k])
    decreases |records|
  {
    if k < |records| {
      LegalPrefix(v, records[..|records| - 1], k);
      assert records[..|records| - 1][..k] == records[..k];
    } else {
      assert records[..k] == records;
    }
  }

  /** The rendering of a prefix is a prefix of the rendering. */
  lemma {:induction false} RenderPrefix(v: Env, records: seq<Record>, k: nat)
    requires k <= |records|
    ensures |Render(v, records[..k])| <= |Render(v, records)|
    ensures Render(v, records)[..|Render(v, records[..k])|] == Render(v, records[..k])
    decreases |records|
  {
    if k < |records| {
      RenderPrefix(v, records[..|records| - 1], k);
      assert records[..|records| - 1][..k] == records[..k];
    } else {
      assert records[..k] == records;
    }
  }

  /** Every record takes at least nine bytes, so a segment below 2^64 bytes can never exhaust the
      64-bit sequence numbers. */
  lemma {:induction false} CountBound(v: Env, records: seq<Record>)
    ensures 9 * Count(records) <= |Render(v, records)|
    decreases |records|
  {
    if records != [] {
      CountBound(v, records[..|records| - 1]);
    }
  }

  /** Committed and pending observations are numbered 0, 1, 2, ... without gaps. */
  lemma {:induction false} Numbering(v: Env, records: seq<Record>)
    requires Legal(v, records)
    ensures |Committed(v, records)| + |Pending(v, records)| == Count(records)
    ensures forall i | 0 <= i < |Committed(v, records)| :: Committed(v, records)[i].observation.sequence == i
    ensures forall i | 0 <= i < |Pending(v, records)| ::
              Pending(v, records)[i].observation.sequence == |Committed(v, records)| + i
    decreases |records|
  {
    if records != [] {
      Numbering(v, records[..|records| - 1]);
    }
  }

  /** Pending frames lie within the bytes written so far. */
  lemma {:induction false} PendingWithin(v: Env, records: seq<Record>, i: nat)
    requires i < |Pending(v, records)|
    ensures Pending(v, records)[i].offset < Pending(v, records)[i].end <= |Render(v, records)|
    decreases |records|
  {
    var before := records[..|records| - 1];
    if i < |Pending(v, before)| {
      PendingWithin(v, before, i);
    }
  }

  /** The commit the writer builds has 64-bit fields as long as the segment has a 64-bit size. */
  lemma CommitInRange(v: Env, records: seq<Record>, at: Nanos)
    requires Legal(v, records) && Pending(v, records) != [] && |Render(v, records)| <= U64_MAX
    ensures InRange(CommitOf(v, Pending(v, records), at))
  {
    var pending := Pending(v, records);
    Numbering(v, records);
    CountBound(v, records);
    PendingWithin(v, records, 0);
    PendingWithin(v, records, |pending| - 1);
  }

  /** What is committed stays committed as the log grows. */
  lemma {:induction false} CommittedPrefix(v: Env, records: seq<Record>, k: nat)
    requires k <= |records|
    ensures Committed(v, records[..k]) <= Committed(v, records)
    decreases |records|
  {
    if k < |records| {
      CommittedPrefix(v, records[..|records| - 1], k);
      assert records[..|records| - 1][..k] == records[..k];
    } else {
      assert records[..k] == records;
    }
  }

  lemma {:induction false} LastCommitBound(v: Env, records: seq<Record>)
    ensures LastCommitEnd(v, records) <= |Render(v, records)|
    decreases |records|
  {
    if records != [] {
      LastCommitBound(v, records[..|records| - 1]);
    }
  }
}
