/** Recovering a log from the bytes of a segment.

    The main theorem: for every log the writer can have produced and every byte position at which the
    file is cut, recovery succeeds with exactly the observations whose commits lie wholly before the
    cut. */
module WalRecovery {
  import opened Prelude
  import opened WalFormat
  import opened WalLog

  datatype Incident =
    | TruncatedTail(atOffset: nat)
    | UncommittedTail(fromOffset: nat, observations: nat)

  datatype Report = Report(incidents: seq<Incident>, logicalEnd: nat)

  datatype Recovered = Recovered(report: Report, committed: seq<CommittedObservation>, nextSequence: nat, isSealed: bool)

  datatype Accumulator = Accumulator(
    committed: seq<CommittedObservation>,
    candidates: seq<PendingFrame>,
    invalid: Option<nat>,
    lastCommitEnd: nat,
    nextSequence: nat,
    isSealed: bool)

  const START := Accumulator([], [], None, 0, 0, false)

  // ---------------------------------------------------------------- one frame

  predicate Contiguous(candidates: seq<PendingFrame>) {
    forall i | 0 < i < |candidates| :: candidates[i].observation.sequence == candidates[i - 1].observation.sequence + 1
  }

  /** Whether a commit record describes exactly the frames before it. */
  predicate CommitMatches(v: Env, w: WalCommit, candidates: seq<PendingFrame>) {
    && candidates != []
    && var first, last := candidates[0], candidates[|candidates| - 1];
    && w.session == v.session
    && w.firstSequence == first.observation.sequence && w.lastSequence == last.observation.sequence
    && w.firstOffset == first.offset && w.lastOffset == last.end - 1
    && Contiguous(candidates)
    && w.hash == CommitHash(v, w.firstSequence, w.lastSequence, w.firstOffset, w.lastOffset, w.durableAt, FrameList(candidates))
  }

  function ProcessObservation(v: Env, acc: Accumulator, f: RawFrame): Result<Accumulator, WalError> {
    if !f.crcValid then Ok(acc.(invalid := if acc.invalid.Some? then acc.invalid else Some(f.offset)))
    else match v.codec.decodeObservation(f.payload)
      case None => Err(Decode(f.offset))
      case Some(o) => Ok(acc.(candidates := acc.candidates + [PendingFrame(o, f.offset, f.end, f.bytes)]))
  }

  /** The error a commit is refused with: at the first gap in the sequence, else at the commit. */
  function CommitErrorOffset(v: Env, w: WalCommit, candidates: seq<PendingFrame>, offset: nat): nat {
    if candidates == [] || w.session != v.session
       || w.firstSequence != candidates[0].observation.sequence
       || w.lastSequence != candidates[|candidates| - 1].observation.sequence
       || w.firstOffset != candidates[0].offset || w.lastOffset != candidates[|candidates| - 1].end - 1
       || Contiguous(candidates) then offset
    else FirstGap(candidates, 1)
  }

  function FirstGap(candidates: seq<PendingFrame>, i: nat): nat
    requires 0 < i
    decreases |candidates| - i
  {
    if i >= |candidates| then 0
    else if candidates[i].observation.sequence != candidates[i - 1].observation.sequence + 1 then candidates[i].offset
    else FirstGap(candidates, i + 1)
  }

  function ProcessCommit(v: Env, acc: Accumulator, f: RawFrame): Result<Accumulator, WalError> {
    if !f.crcValid then Err(CorruptFrame(f.offset))
    else if acc.invalid.Some? then Err(CommittedCorruption(acc.invalid.value))
    else match v.codec.decodeCommit(f.payload)
      case None => Err(Decode(f.offset))
      case Some(w) =>
        if !CommitMatches(v, w, acc.candidates) then Err(CorruptFrame(CommitErrorOffset(v, w, acc.candidates, f.offset)))
        else if w.lastSequence >= U64_MAX then Err(CorruptFrame(f.offset))
        else Ok(Accumulator(acc.committed + Stamped(acc.candidates, w.durableAt, w.hash), [], None,
                            f.end, w.lastSequence + 1, acc.isSealed))
  }

  /** The first bytes of a file. */
  function Upto(file: Bytes, n: nat): Bytes {
    if n <= |file| then file[..n] else file
  }

  function ProcessSeal(v: Env, file: Bytes, acc: Accumulator, f: RawFrame): Result<Accumulator, WalError> {
    if !f.crcValid || acc.candidates != [] || acc.invalid.Some? || f.payload != v.codec.digest(Upto(file, f.offset))
    then Err(CorruptFrame(f.offset))
    else Ok(acc.(isSealed := true))
  }

  function ProcessFrame(v: Env, file: Bytes, acc: Accumulator, f: RawFrame): Result<Accumulator, WalError> {
    if acc.isSealed then Err(CorruptFrame(f.offset))
    else if f.frameType == OBSERVATION_FRAME then ProcessObservation(v, acc, f)
    else if f.frameType == GROUP_COMMIT_FRAME then ProcessCommit(v, acc, f)
    else if f.frameType == SEGMENT_SEAL_FRAME then ProcessSeal(v, file, acc, f)
    else Err(CorruptFrame(f.offset))
  }

  function ProcessAll(v: Env, file: Bytes, acc: Result<Accumulator, WalError>, frames: seq<RawFrame>): Result<Accumulator, WalError>
    decreases |frames|
  {
    if frames == [] || acc.Err? then acc
    else
      match ProcessAll(v, file, acc, frames[..|frames| - 1])
      case Err(e) => Err(e)
      case Ok(a) => ProcessFrame(v, file, a, frames[|frames| - 1])
  }

  function FinishReport(end: nat, truncated: Option<nat>, acc: Accumulator): Report {
    if truncated.Some? then Report([TruncatedTail(truncated.value)], acc.lastCommitEnd)
    else if acc.candidates != [] then
      Report([UncommittedTail(acc.candidates[0].offset, |acc.candidates|)], acc.lastCommitEnd)
    else if acc.invalid.Some? then Report([UncommittedTail(acc.invalid.value, 0)], acc.lastCommitEnd)
    else Report([], end)
  }

  function Finish(scan: Scan, acc: Accumulator): Recovered {
    Recovered(FinishReport(scan.end, scan.truncated, acc), acc.committed, acc.nextSequence, acc.isSealed)
  }

  /** What recovery returns for the bytes of a segment. */
  function Recover(v: Env, file: Bytes): Result<Recovered, WalError> {
    match ScanFrom(v.codec, file, 0)
    case Err(e) => Err(e)
    case Ok(scan) =>
      match ProcessAll(v, file, Ok(START), scan.frames)
      case Err(e) => Err(e)
      case Ok(acc) => Ok(Finish(scan, acc))
  }

  // ---------------------------------------------------------------- recovery of what was written

  /** The accumulator recovery should be in after these records. */
  function AccOf(v: Env, records: seq<Record>): Accumulator {
    Accumulator(Committed(v, records), Pending(v, records), None, LastCommitEnd(v, records),
                |Committed(v, records)|, IsSealed(records))
  }

  function RawOf(v: Env, before: seq<Record>, r: Record): RawFrame {
    var at := |Render(v, before)|;
    var bytes := RecordBytes(v, before, r);
    RawFrame(TypeOf(r), at, at + |bytes|, Payload(v, before, r), bytes, true)
  }

  function Frames(v: Env, records: seq<Record>): (fs: seq<RawFrame>)
    ensures |fs| == |records|
  {
    if records == [] then []
    else Frames(v, records[..|records| - 1]) + [RawOf(v, records[..|records| - 1], records[|records| - 1])]
  }

  lemma ObserveProcessed(v: Env, before: seq<Record>, o: Observation)
    requires Lawful(v.codec) && Legal(v, before) && Admissible(v, before, Observe(o)) && |Render(v, before)| <= U64_MAX
    ensures ProcessObservation(v, AccOf(v, before), RawOf(v, before, Observe(o)))
         == Ok(AccOf(v, before + [Observe(o)]))
  {
    Snoc(before, Observe(o));
    CountBound(v, before);
    assert Decodes(v.codec, o);
  }

  /** The commit the writer builds is one that recovery accepts. */
  lemma CommitIsAccepted(v: Env, before: seq<Record>, at: Nanos)
    requires Legal(v, before) && Pending(v, before) != [] && Count(before) <= U64_MAX
    ensures var w := CommitOf(v, Pending(v, before), at);
            && CommitMatches(v, w, Pending(v, before))
            && w.lastSequence < U64_MAX
            && w.lastSequence + 1 == |Committed(v, before)| + |Pending(v, before)|
  {
    Numbering(v, before);
  }

  lemma CommitProcessed(v: Env, before: seq<Record>, at: Nanos)
    requires Lawful(v.codec) && Legal(v, before) && Admissible(v, before, Commit(at)) && |Render(v, before)| <= U64_MAX
    ensures ProcessCommit(v, AccOf(v, before), RawOf(v, before, Commit(at)))
         == Ok(AccOf(v, before + [Commit(at)]))
  {
    CountBound(v, before);
    CommitIsAccepted(v, before, at);
    AccAfterCommit(v, before, at);
    CommitReadBack(v, before, at);
    var acc, f, w := AccOf(v, before), RawOf(v, before, Commit(at)), CommitOf(v, Pending(v, before), at);
    AcceptCommit(v, acc, f, w);
    assert w.durableAt == at && !acc.isSealed && acc.committed == Committed(v, before);
    assert AccOf(v, before + [Commit(at)])
        == Accumulator(acc.committed + Stamped(acc.candidates, w.durableAt, w.hash), [], None,
                       f.end, w.lastSequence + 1, acc.isSealed);
  }

  lemma CommitReadBack(v: Env, before: seq<Record>, at: Nanos)
    requires Lawful(v.codec) && Legal(v, before) && Pending(v, before) != [] && |Render(v, before)| <= U64_MAX
    ensures v.codec.decodeCommit(RawOf(v, before, Commit(at)).payload) == Some(CommitOf(v, Pending(v, before), at))
  {
    CommitInRange(v, before, at);
    assert CommitDecodes(v.codec, CommitOf(v, Pending(v, before), at));
  }

  lemma AcceptCommit(v: Env, acc: Accumulator, f: RawFrame, w: WalCommit)
    requires f.crcValid && acc.invalid.None? && v.codec.decodeCommit(f.payload) == Some(w)
    requires CommitMatches(v, w, acc.candidates) && w.lastSequence < U64_MAX
    ensures ProcessCommit(v, acc, f)
         == Ok(Accumulator(acc.committed + Stamped(acc.candidates, w.durableAt, w.hash), [], None,
                           f.end, w.lastSequence + 1, acc.isSealed))
  {
  }

  lemma AccAfterCommit(v: Env, before: seq<Record>, at: Nanos)
    requires Pending(v, before) != []
    ensures var pending := Pending(v, before);
            AccOf(v, before + [Commit(at)])
            == Accumulator(Committed(v, before) + Stamped(pending, at, CommitOf(v, pending, at).hash), [], None,
                           RawOf(v, before, Commit(at)).end, |Committed(v, before)| + |pending|, false)
  {
    Snoc(before, Commit(at));
  }

  lemma SealProcessed(v: Env, file: Bytes, before: seq<Record>)
    requires Legal(v, before) && Admissible(v, before, Seal) && StartsWith(file, Render(v, before))
    ensures ProcessSeal(v, file, AccOf(v, before), RawOf(v, before, Seal)) == Ok(AccOf(v, before + [Seal]))
  {
    Snoc(before, Seal);
  }

  lemma RecordProcessed(v: Env, file: Bytes, before: seq<Record>, r: Record)
    requires Lawful(v.codec) && Legal(v, before) && Admissible(v, before, r) && |Render(v, before)| <= U64_MAX
    requires StartsWith(file, Render(v, before))
    ensures ProcessFrame(v, file, AccOf(v, before), RawOf(v, before, r)) == Ok(AccOf(v, before + [r]))
  {
    match r {
      case Observe(o) => ObserveProcessed(v, before, o);
      case Commit(at) => CommitProcessed(v, before, at);
      case Seal => SealProcessed(v, file, before);
    }
  }

  predicate StartsWith(file: Bytes, part: Bytes) {
    |part| <= |file| && file[..|part|] == part
  }

  lemma HoldsPrefix(v: Env, file: Bytes, records: seq<Record>, k: nat)
    requires k <= |records| && StartsWith(file, Render(v, records))
    ensures StartsWith(file, Render(v, records[..k]))
  {
    RenderPrefix(v, records, k);
    assert file[..|Render(v, records[..k])|] == file[..|Render(v, records)|][..|Render(v, records[..k])|];
  }

  /** Processing the frames of a log rebuilds exactly the writer's view of it. */
  lemma {:induction false} FramesProcessed(v: Env, file: Bytes, records: seq<Record>)
    requires Lawful(v.codec) && Legal(v, records) && |Render(v, records)| <= U64_MAX
    requires StartsWith(file, Render(v, records))
    ensures ProcessAll(v, file, Ok(START), Frames(v, records)) == Ok(AccOf(v, records))
    decreases |records|
  {
    if records != [] {
      var before := records[..|records| - 1];
      var r := records[|records| - 1];
      FrontAndLast(records);
      HoldsPrefix(v, file, records, |records| - 1);
      FramesProcessed(v, file, before);
      OneMoreProcessed(v, file, before, r, Frames(v, records));
    }
  }

  lemma OneMoreProcessed(v: Env, file: Bytes, before: seq<Record>, r: Record, fs: seq<RawFrame>)
    requires Lawful(v.codec) && Legal(v, before) && Admissible(v, before, r) && |Render(v, before)| <= U64_MAX
    requires StartsWith(file, Render(v, before)) && fs == Frames(v, before) + [RawOf(v, before, r)]
    requires ProcessAll(v, file, Ok(START), Frames(v, before)) == Ok(AccOf(v, before))
    ensures ProcessAll(v, file, Ok(START), fs) == Ok(AccOf(v, before + [r]))
  {
    assert fs[..|fs| - 1] == Frames(v, before);
    RecordProcessed(v, file, before, r);
  }

  /** Scanning a file that starts with a rendered log finds its frames, then whatever follows. */
  lemma {:induction false} FramesScanned(v: Env, file: Bytes, records: seq<Record>, i: nat, tail: Scan)
    requires Legal(v, records) && i <= |records| && StartsWith(file, Render(v, records))
    requires ScanFrom(v.codec, file, |Render(v, records)|) == Ok(tail)
    ensures |Render(v, records[..i])| <= |file|
    ensures ScanFrom(v.codec, file, |Render(v, records[..i])|) == Ok(tail.(frames := Frames(v, records)[i..] + tail.frames))
    decreases |records| - i
  {
    var fs := Frames(v, records);
    if i == |records| {
      assert records[..i] == records;
      assert fs[i..] + tail.frames == tail.frames;
    } else {
      FramesScanned(v, file, records, i + 1, tail);
      FrameRead(v, file, records, i);
      ScanStep(v.codec, file, |Render(v, records[..i])|, fs, i, tail);
    }
  }

  lemma ScanStep(c: Codec, file: Bytes, offset: nat, fs: seq<RawFrame>, i: nat, tail: Scan)
    requires offset <= |file| && i < |fs| && fs[i].end <= |file|
    requires ReadFrame(c, file, offset) == Complete(fs[i])
    requires ScanFrom(c, file, fs[i].end) == Ok(tail.(frames := fs[i + 1..] + tail.frames))
    ensures ScanFrom(c, file, offset) == Ok(tail.(frames := fs[i..] + tail.frames))
  {
    assert [fs[i]] + (fs[i + 1..] + tail.frames) == fs[i..] + tail.frames;
  }

  lemma FrameRead(v: Env, file: Bytes, records: seq<Record>, i: nat)
    requires Legal(v, records) && i < |records| && StartsWith(file, Render(v, records))
    ensures |Render(v, records[..i])| <= |file|
    ensures ReadFrame(v.codec, file, |Render(v, records[..i])|) == Complete(Frames(v, records)[i])
    ensures Frames(v, records)[i].end == |Render(v, records[..i + 1])|
  {
    HoldsPrefix(v, file, records, i + 1);
    LegalPrefix(v, records, i + 1);
    FrameAt(v, file, records[..i + 1]);
    FramesIndex(v, records, i);
    assert records[..i + 1][..i] == records[..i];
  }

  /** The last frame of a log is what is read at the place where the records before it end. */
  lemma FrameAt(v: Env, file: Bytes, records: seq<Record>)
    requires records != [] && Legal(v, records) && StartsWith(file, Render(v, records))
    ensures var before := records[..|records| - 1];
            && |Render(v, before)| <= |file|
            && ReadFrame(v.codec, file, |Render(v, before)|) == Complete(RawOf(v, before, records[|records| - 1]))
            && RawOf(v, before, records[|records| - 1]).end == |Render(v, records)|
  {
    var before, r := records[..|records| - 1], records[|records| - 1];
    var at, bytes := |Render(v, before)|, RecordBytes(v, before, r);
    Suffix(file, Render(v, before), bytes);
    ReadWritten(v.codec, file, at, TypeOf(r), Payload(v, before, r));
  }

  lemma Suffix(file: Bytes, a: Bytes, b: Bytes)
    requires StartsWith(file, a + b)
    ensures |a| + |b| <= |file| && file[|a|..|a| + |b|] == b
  {
    assert file[|a|..|a| + |b|] == file[..|a + b|][|a|..];
  }

  lemma {:induction false} FramesIndex(v: Env, records: seq<Record>, i: nat)
    requires i < |records|
    ensures Frames(v, records)[i] == RawOf(v, records[..i], records[i])
    decreases |records|
  {
    if i < |records| - 1 {
      FramesIndex(v, records[..|records| - 1], i);
      assert records[..|records| - 1][..i] == records[..i];
    }
  }

  /** Recovery of a file that holds a whole log followed by something at which scanning stops. */
  lemma RecoverWhole(v: Env, file: Bytes, records: seq<Record>, truncated: Option<nat>)
    requires Lawful(v.codec) && Legal(v, records) && |Render(v, records)| <= U64_MAX
    requires StartsWith(file, Render(v, records))
    requires ScanFrom(v.codec, file, |Render(v, records)|) == Ok(Scan([], truncated, |Render(v, records)|))
    ensures Recover(v, file) == Ok(Finish(Scan(Frames(v, records), truncated, |Render(v, records)|), AccOf(v, records)))
  {
    assert records[..0] == [];
    FramesScanned(v, file, records, 0, Scan([], truncated, |Render(v, records)|));
    assert Frames(v, records)[0..] + [] == Frames(v, records);
    FramesProcessed(v, file, records);
  }

  // ---------------------------------------------------------------- cuts

  /** How many records lie wholly within the first `k` bytes. */
  function Whole(v: Env, records: seq<Record>, k: nat): (j: nat)
    ensures j <= |records| && |Render(v, records[..j])| <= k
    ensures j < |records| ==> k < |Render(v, records[..j + 1])|
  {
    if |Render(v, records)| <= k then
      assert records[..|records|] == records;
      |records|
    else
      var before := records[..|records| - 1];
      var j := Whole(v, before, k);
      assert before[..j] == records[..j];
      if j < |before| then assert before[..j + 1] == records[..j + 1]; j else assert records[..j + 1] == records; j
  }

  /** What recovery must return when the first `j` records survive and `cut` tells whether a part of
      the next one does. */
  function Expected(v: Env, records: seq<Record>, cut: bool): Recovered {
    var end := |Render(v, records)|;
    var pending := Pending(v, records);
    var report :=
      if cut then Report([TruncatedTail(end)], LastCommitEnd(v, records))
      else if pending != [] then Report([UncommittedTail(pending[0].offset, |pending|)], LastCommitEnd(v, records))
      else Report([], end);
    Recovered(report, Committed(v, records), |Committed(v, records)|, IsSealed(records))
  }

  /** For every log the writer can have produced and every byte position `k` at which its file is
      cut, recovery succeeds and returns exactly what the records wholly before the cut commit; it
      reports a truncated frame, or observations without a commit, when there are any. */
  lemma RecoverCut(v: Env, records: seq<Record>, k: nat)
    requires Lawful(v.codec) && Legal(v, records) && |Render(v, records)| <= U64_MAX
    requires k <= |Render(v, records)|
    ensures var j := Whole(v, records, k);
            Recover(v, Render(v, records)[..k]) == Ok(Expected(v, records[..j], |Render(v, records[..j])| < k))
  {
    var j := Whole(v, records, k);
    CutAt(v, records, k, j, Render(v, records)[..k]);
  }

  lemma CutAt(v: Env, records: seq<Record>, k: nat, j: nat, file: Bytes)
    requires Lawful(v.codec) && Legal(v, records) && |Render(v, records)| <= U64_MAX
    requires j <= |records| && |Render(v, records[..j])| <= k <= |Render(v, records)|
    requires j < |records| ==> k < |Render(v, records[..j + 1])|
    requires file == Render(v, records)[..k]
    ensures Recover(v, file) == Ok(Expected(v, records[..j], |Render(v, records[..j])| < k))
  {
    if |Render(v, records[..j])| < k {
      assert records[..|records|] == records;
      CutInside(v, records, k, j, file);
    } else {
      CutBetween(v, records, j);
    }
  }

  lemma CutBetween(v: Env, records: seq<Record>, j: nat)
    requires Lawful(v.codec) && Legal(v, records) && |Render(v, records)| <= U64_MAX && j <= |records|
    ensures |Render(v, records[..j])| <= |Render(v, records)|
    ensures Recover(v, Render(v, records)[..|Render(v, records[..j])|]) == Ok(Expected(v, records[..j], false))
  {
    LegalPrefix(v, records, j);
    RenderPrefix(v, records, j);
    RecoverPreallocated(v, records[..j], Render(v, records)[..|Render(v, records[..j])|], 0);
  }

  lemma CutInside(v: Env, records: seq<Record>, k: nat, j: nat, file: Bytes)
    requires Lawful(v.codec) && Legal(v, records) && |Render(v, records)| <= U64_MAX && j < |records|
    requires |Render(v, records[..j])| < k < |Render(v, records[..j + 1])| && k <= |Render(v, records)|
    requires file == Render(v, records)[..k]
    ensures Recover(v, file) == Ok(Expected(v, records[..j], true))
  {
    RenderPrefix(v, records, j);
    LegalPrefix(v, records, j + 1);
    SameCut(v, records, k, j);
    RecoverTorn(v, records[..j], records[j], file);
  }

  lemma SameCut(v: Env, records: seq<Record>, k: nat, j: nat)
    requires j < |records| && k < |Render(v, records[..j + 1])| && k <= |Render(v, records)|
    ensures records[..j + 1] == records[..j] + [records[j]]
    ensures Render(v, records)[..k] == Render(v, records[..j] + [records[j]])[..k]
  {
    RenderPrefix(v, records, j + 1);
    TakeOneMore(records, j);
    CutTwice(Render(v, records), Render(v, records[..j + 1]), k);
  }

  lemma CutTwice(whole: Bytes, part: Bytes, k: nat)
    requires k <= |part| <= |whole| && whole[..|part|] == part
    ensures whole[..k] == part[..k]
  {
    assert whole[..k] == whole[..|part|][..k];
  }

  /** A log followed by a proper, nonempty part of the next record. */
  lemma RecoverTorn(v: Env, before: seq<Record>, r: Record, file: Bytes)
    requires Lawful(v.codec) && Legal(v, before + [r]) && |Render(v, before)| <= U64_MAX
    requires |Render(v, before)| < |file| < |Render(v, before + [r])| && file == Render(v, before + [r])[..|file|]
    ensures Recover(v, file) == Ok(Expected(v, before, true))
  {
    Snoc(before, r);
    var at, bytes := |Render(v, before)|, RecordBytes(v, before, r);
    assert Render(v, before + [r]) == Render(v, before) + bytes;
    assert file[..at] == Render(v, before);
    assert file[at..] == bytes[..|file| - at];
    ReadCut(v.codec, file, at, TypeOf(r), Payload(v, before, r));
    RecoverWhole(v, file, before, Some(at));
  }

  /** A preallocated segment: the log followed by zero bytes.  Recovery finds the whole log. */
  lemma RecoverPreallocated(v: Env, records: seq<Record>, file: Bytes, spare: nat)
    requires Lawful(v.codec) && Legal(v, records) && |Render(v, records)| <= U64_MAX
    requires file == Render(v, records) + Zeros(spare)
    ensures Recover(v, file) == Ok(Expected(v, records, false))
  {
    var at := |Render(v, records)|;
    assert file[..at] == Render(v, records);
    assert at < |file| ==> file[at] == 0;
    RecoverWhole(v, file, records, None);
  }

  function Zeros(n: nat): (z: Bytes)
    ensures |z| == n && forall i | 0 <= i < n :: z[i] == 0
  {
    seq(n, _ => 0)
  }
}
