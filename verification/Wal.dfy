/** The file-backed log: a preallocated segment that is written in place. */
module Wal {
  import opened Prelude
  import opened WalFormat
  import opened WalLog
  import opened WalRecovery
  import opened WalSpec

  datatype CommittedRange = CommittedRange(first: nat, last: nat, durableAt: Nanos, hash: Bytes)

  /** Frame by frame recovery of a file. */
  method RecoverFile(v: Env, file: Bytes) returns (r: Result<Recovered, WalError>)
    ensures r == Recover(v, file)
  {
    var scanned := ScanFile(v.codec, file);
    match scanned {
      case Err(e) => return Err(e);
      case Ok(scan) =>
        var processed := ProcessFrames(v, file, scan.frames);
        match processed {
          case Err(e) => return Err(e);
          case Ok(acc) => return Ok(Finish(scan, acc));
        }
    }
  }

  method ProcessFrames(v: Env, file: Bytes, frames: seq<RawFrame>) returns (r: Result<Accumulator, WalError>)
    ensures r == ProcessAll(v, file, Ok(START), frames)
  {
    var acc := START;
    for i := 0 to |frames|
      invariant ProcessAll(v, file, Ok(START), frames[..i]) == Ok(acc)
    {
      assert frames[..i + 1][..i] == frames[..i];
      var next := ProcessFrame(v, file, acc, frames[i]);
      match next {
        case Err(e) =>
          ErrorStops(v, file, frames, i + 1);
          return Err(e);
        case Ok(a) => acc := a;
      }
    }
    assert frames[..|frames|] == frames;
    r := Ok(acc);
  }

  lemma {:induction false} ErrorStops(v: Env, file: Bytes, frames: seq<RawFrame>, k: nat)
    requires k <= |frames| && ProcessAll(v, file, Ok(START), frames[..k]).Err?
    ensures ProcessAll(v, file, Ok(START), frames) == ProcessAll(v, file, Ok(START), frames[..k])
    decreases |frames|
  {
    if k < |frames| {
      var front := frames[..|frames| - 1];
      assert front[..k] == frames[..k];
      ErrorStops(v, file, front, k);
    } else {
      assert frames[..k] == frames;
    }
  }

  /** Cutting a file or extending it with zeros. */
  function SetLen(file: Bytes, n: nat): Bytes {
    if n <= |file| then file[..n] else file + Zeros(n - |file|)
  }

  /** Dropping everything from `end` on and preallocating the segment again. */
  function Reset(file: Bytes, end: nat, maxBytes: nat): Bytes {
    SetLen(if end < |file| then SetLen(file, end) else file, maxBytes)
  }

  /** The segment holds exactly the records `log`, and the writer's fields agree with them. */
  ghost predicate Holds(cfg: Config, file: Bytes, logicalEnd: nat, nextSequence: nat, pending: seq<PendingFrame>,
                        isSealed: bool, log: seq<Record>, synced: nat) {
    && logicalEnd == |Render(cfg.env, log)| <= cfg.maxBytes
    && file == Render(cfg.env, log) + Zeros(cfg.maxBytes - logicalEnd)
    && nextSequence == Count(log)
    && pending == Pending(cfg.env, log)
    && isSealed == IsSealed(log)
    && LastCommitEnd(cfg.env, log) <= synced <= logicalEnd
  }

  /** The writer's fields after reopening a file with this recovery result. */
  ghost predicate Reopened(cfg: Config, file: Bytes, got: Recovered, log: seq<Record>) {
    Fits(cfg, log) &&
    Holds(cfg, Reset(file, got.report.logicalEnd, cfg.maxBytes), got.report.logicalEnd, got.nextSequence, [],
          got.isSealed, log, got.report.logicalEnd)
  }

  lemma ResetKeeps(file: Bytes, part: Bytes, maxBytes: nat)
    requires StartsWith(file, part) && |file| <= maxBytes
    ensures Reset(file, |part|, maxBytes) == part + Zeros(maxBytes - |part|)
  {
  }

  /** A new segment holds the empty log. */
  lemma FreshSegment(cfg: Config)
    requires Usable(cfg)
    ensures Recover(cfg.env, Zeros(cfg.maxBytes)) == Ok(Expected(cfg.env, [], false))
    ensures Reopened(cfg, Zeros(cfg.maxBytes), Expected(cfg.env, [], false), [])
  {
    RecoverPreallocated(cfg.env, [], Zeros(cfg.maxBytes), cfg.maxBytes);
    ResetKeeps(Zeros(cfg.maxBytes), [], cfg.maxBytes);
  }

  lemma SurvivorStartsWith(v: Env, file: Bytes, log: seq<Record>, survived: seq<Record>, cut: bool)
    requires Survives(v, file, log, survived, cut)
    ensures StartsWith(file, Render(v, survived))
  {
    if cut {
      var upto := log[..|survived| + 1];
      assert upto[..|survived|] == survived;
      RenderPrefix(v, upto, |survived|);
      assert file[..|Render(v, survived)|] == Render(v, upto)[..|Render(v, survived)|];
    }
  }

  lemma ShorterStart(file: Bytes, whole: Bytes, n: nat)
    requires StartsWith(file, whole) && n <= |whole|
    ensures file[..n] == whole[..n]
  {
    assert file[..n] == file[..|whole|][..n];
  }

  /** Reopening what a crash left of a log continues with exactly what reopening keeps of it. */
  lemma ReopenedSurvivor(cfg: Config, file: Bytes, log: seq<Record>, survived: seq<Record>, cut: bool)
    requires Usable(cfg) && Fits(cfg, log) && |file| <= cfg.maxBytes && Survives(cfg.env, file, log, survived, cut)
    ensures Recover(cfg.env, file) == Ok(Expected(cfg.env, survived, cut))
    ensures Reopened(cfg, file, Expected(cfg.env, survived, cut), Kept(cfg.env, survived, cut))
  {
    RecoverSurvivor(cfg.env, file, log, survived, cut);
    SurvivorStartsWith(cfg.env, file, log, survived, cut);
    ReopenedKept(cfg, file, survived, cut);
  }

  lemma ReopenedKept(cfg: Config, file: Bytes, survived: seq<Record>, cut: bool)
    requires |file| <= cfg.maxBytes && StartsWith(file, Render(cfg.env, survived))
    requires Legal(cfg.env, survived) && (cut ==> !IsSealed(survived))
    ensures Reopened(cfg, file, Expected(cfg.env, survived, cut), Kept(cfg.env, survived, cut))
  {
    var v := cfg.env;
    KeptFacts(v, survived, cut);
    var kept := Kept(v, survived, cut);
    ShorterStart(file, Render(v, survived), |Render(v, kept)|);
    ResetKeeps(file, Render(v, kept), cfg.maxBytes);
    LastCommitBound(v, kept);
    var got := Expected(v, survived, cut);
    assert Fits(cfg, kept);
    assert Holds(cfg, Reset(file, got.report.logicalEnd, cfg.maxBytes), got.report.logicalEnd, got.nextSequence, [],
                 got.isSealed, kept, got.report.logicalEnd);
  }

  /** Overwriting part of a file in place. */
  function Written(file: Bytes, at: nat, frame: Bytes): Bytes
    requires at + |frame| <= |file|
  {
    file[..at] + frame + file[at + |frame|..]
  }

  lemma WriteRecord(v: Env, log: seq<Record>, r: Record, spare: nat)
    requires |RecordBytes(v, log, r)| <= spare
    ensures var frame := RecordBytes(v, log, r);
            && Render(v, log + [r]) == Render(v, log) + frame
            && Written(Render(v, log) + Zeros(spare), |Render(v, log)|, frame)
               == Render(v, log + [r]) + Zeros(spare - |frame|)
  {
    Snoc(log, r);
  }

  lemma PendingAfter(v: Env, log: seq<Record>, o: Observation, end: nat, frame: Bytes)
    requires end == |Render(v, log)| && frame == FrameBytes(v.codec, OBSERVATION_FRAME, v.codec.encodeObservation(o))
    ensures Pending(v, log + [Observe(o)]) == Pending(v, log) + [PendingFrame(o, end, end + |frame|, frame)]
  {
    Snoc(log, Observe(o));
  }

  lemma AppendHolds(cfg: Config, file: Bytes, end: nat, next: nat, pending: seq<PendingFrame>, isSealed: bool,
                    log: seq<Record>, synced: nat, o: Observation, frame: Bytes)
    requires Usable(cfg) && Fits(cfg, log) && Holds(cfg, file, end, next, pending, isSealed, log, synced)
    requires AppendError(cfg, log, o).None? && frame == RecordBytes(cfg.env, log, Observe(o))
    ensures end + |frame| <= |file| && next < U64_MAX && Fits(cfg, log + [Observe(o)])
    ensures Holds(cfg, Written(file, end, frame), end + |frame|, next + 1,
                  pending + [PendingFrame(o, end, end + |frame|, frame)], isSealed, log + [Observe(o)], synced)
  {
    AppendFits(cfg, log, o);
    AfterRecord(cfg.env, log, Observe(o));
    WriteRecord(cfg.env, log, Observe(o), cfg.maxBytes - end);
    PendingAfter(cfg.env, log, o, end, frame);
  }

  lemma CommitHolds(cfg: Config, file: Bytes, end: nat, log: seq<Record>, synced: nat, at: Nanos, frame: Bytes)
    requires Usable(cfg) && Fits(cfg, log) && Holds(cfg, file, end, Count(log), Pending(cfg.env, log), false, log, synced)
    requires CommitError(cfg, log).None? && frame == RecordBytes(cfg.env, log, Commit(at))
    ensures end + |frame| <= |file| && Fits(cfg, log + [Commit(at)])
    ensures Holds(cfg, Written(file, end, frame), end + |frame|, Count(log), [], false, log + [Commit(at)], end + |frame|)
  {
    CommitFits(cfg, log, at);
    AfterRecord(cfg.env, log, Commit(at));
    WriteRecord(cfg.env, log, Commit(at), cfg.maxBytes - end);
  }

  lemma SealHolds(cfg: Config, file: Bytes, end: nat, log: seq<Record>, synced: nat, frame: Bytes)
    requires Usable(cfg) && Fits(cfg, log) && Holds(cfg, file, end, Count(log), [], false, log, synced)
    requires SealError(cfg, log).None? && frame == RecordBytes(cfg.env, log, Seal)
    ensures end + |frame| <= |file| && Fits(cfg, log + [Seal])
    ensures Holds(cfg, Written(file, end, frame), end + |frame|, Count(log), [], true, log + [Seal], end + |frame|)
  {
    SealFits(cfg, log);
    AfterRecord(cfg.env, log, Seal);
    LastCommitBound(cfg.env, log);
    WriteRecord(cfg.env, log, Seal, cfg.maxBytes - end);
  }

  /** The payload of the next commit is small enough to be framed. */
  lemma CommitIsSmall(cfg: Config, log: seq<Record>, at: Nanos)
    requires Usable(cfg) && Fits(cfg, log) && Pending(cfg.env, log) != []
    ensures var payload := cfg.env.codec.encodeCommit(CommitOf(cfg.env, Pending(cfg.env, log), at));
            && |payload| <= MAX_PAYLOAD_BYTES
            && FrameBytes(cfg.env.codec, GROUP_COMMIT_FRAME, payload) == RecordBytes(cfg.env, log, Commit(at))
  {
    CommitInRange(cfg.env, log, at);
    assert CommitDecodes(cfg.env.codec, CommitOf(cfg.env, Pending(cfg.env, log), at));
  }

  lemma WholeSegment(cfg: Config, file: Bytes, end: nat, log: seq<Record>)
    requires Usable(cfg) && Fits(cfg, log) && end == |Render(cfg.env, log)|
    requires file == Render(cfg.env, log) + Zeros(cfg.maxBytes - end)
    ensures Recover(cfg.env, file).Ok? && Recover(cfg.env, file).value.committed == Committed(cfg.env, log)
  {
    RecoverPreallocated(cfg.env, log, file, cfg.maxBytes - end);
  }

  class FileWal {
    const cfg: Config
    var file: Bytes
    var logicalEnd: nat
    var nextSequence: nat
    var pending: seq<PendingFrame>
    var isSealed: bool
    /** The records this segment holds. */
    ghost var log: seq<Record>
    /** How many bytes are known to be on disk. */
    ghost var synced: nat

    ghost predicate Valid()
      reads this
    {
      Usable(cfg) && Fits(cfg, log) && Holds(cfg, file, logicalEnd, nextSequence, pending, isSealed, log, synced)
    }

    constructor Resume(cfg: Config, file: Bytes, got: Recovered, ghost log: seq<Record>)
      ensures this.cfg == cfg && this.file == file && logicalEnd == got.report.logicalEnd
      ensures nextSequence == got.nextSequence && pending == [] && isSealed == got.isSealed
      ensures this.log == log && synced == logicalEnd
    {
      this.cfg, this.file, logicalEnd := cfg, file, got.report.logicalEnd;
      nextSequence, pending, isSealed := got.nextSequence, [], got.isSealed;
      this.log, synced := log, got.report.logicalEnd;
    }

    /** Opens or creates a segment, validates it, and removes any uncommitted or truncated tail.
        When the file is what a crash left of `log`, the writer continues with exactly the committed
        part of it. */
    static method Open(cfg: Config, existing: Option<Bytes>, ghost log: seq<Record>, ghost survived: seq<Record>, ghost cut: bool)
      returns (r: Result<(FileWal, Report), WalError>)
      ensures cfg.maxBytes <= COMMIT_RESERVE_BYTES ==> r == Err(InvalidCapacity(cfg.maxBytes))
      ensures cfg.maxBytes > COMMIT_RESERVE_BYTES && existing.Some? && |existing.value| > cfg.maxBytes ==>
                r == Err(CapacityExhausted(|existing.value|, cfg.maxBytes))
      ensures cfg.maxBytes > COMMIT_RESERVE_BYTES && (existing.Some? ==> |existing.value| <= cfg.maxBytes) ==>
                var file := if existing.None? then Zeros(cfg.maxBytes) else existing.value;
                match Recover(cfg.env, file)
                case Err(e) => r == Err(e)
                case Ok(got) =>
                  && r.Ok? && r.value.1 == got.report
                  && r.value.0.file == Reset(file, got.report.logicalEnd, cfg.maxBytes)
                  && r.value.0.logicalEnd == got.report.logicalEnd && r.value.0.nextSequence == got.nextSequence
                  && r.value.0.pending == [] && r.value.0.isSealed == got.isSealed
      ensures r.Ok? ==> fresh(r.value.0) && r.value.0.cfg == cfg
      ensures Usable(cfg) && existing.None? ==> r.Ok? && r.value.0.Valid() && r.value.0.log == []
      ensures Usable(cfg) && Fits(cfg, log) && existing.Some? && |existing.value| <= cfg.maxBytes
              && Survives(cfg.env, existing.value, log, survived, cut) ==>
                r.Ok? && r.value.0.Valid() && r.value.0.log == Kept(cfg.env, survived, cut)
                && r.value.1 == Expected(cfg.env, survived, cut).report
    {
      if cfg.maxBytes <= COMMIT_RESERVE_BYTES {
        return Err(InvalidCapacity(cfg.maxBytes));
      }
      if existing.Some? && |existing.value| > cfg.maxBytes {
        return Err(CapacityExhausted(|existing.value|, cfg.maxBytes));
      }
      var file := if existing.None? then Zeros(cfg.maxBytes) else existing.value;
      var recovered := RecoverFile(cfg.env, file);
      ghost var kept := if existing.None? then [] else Kept(cfg.env, survived, cut);
      if Usable(cfg) && existing.None? {
        FreshSegment(cfg);
      }
      if Usable(cfg) && existing.Some? && Fits(cfg, log) && Survives(cfg.env, file, log, survived, cut) {
        ReopenedSurvivor(cfg, file, log, survived, cut);
      }
      if recovered.Err? {
        return Err(recovered.error);
      }
      var got := recovered.value;
      var wal := new FileWal.Resume(cfg, Reset(file, got.report.logicalEnd, cfg.maxBytes), got, kept);
      return Ok((wal, got.report));
    }

    /** Writes an observation frame without making it publishable. */
    method Append(o: Observation) returns (r: Result<nat, WalError>)
      requires Valid()
      modifies this
      ensures Valid() && synced == old(synced)
      ensures match AppendError(cfg, old(log), o)
              case Some(e) => r == Err(e) && log == old(log)
              case None => r == Ok(old(logicalEnd)) && log == old(log) + [Observe(o)]
    {
      if isSealed {
        return Err(Sealed);
      }
      if o.session != cfg.env.session {
        return Err(SourceSessionMismatch);
      }
      if o.sequence != nextSequence {
        return Err(SequenceMismatch(nextSequence, o.sequence));
      }
      var payload := cfg.env.codec.encodeObservation(o);
      var encoded := EncodeFrame(cfg.env.codec, OBSERVATION_FRAME, payload);
      if encoded.Err? {
        return Err(encoded.error);
      }
      var frame := encoded.value;
      var required := |frame| + COMMIT_RESERVE_BYTES;
      if required > RemainingCapacity() {
        return Err(CapacityExhausted(required, RemainingCapacity()));
      }
      r := WriteObservation(o, frame);
    }

    method WriteObservation(o: Observation, frame: Bytes) returns (r: Result<nat, WalError>)
      requires Valid() && AppendError(cfg, log, o).None? && frame == RecordBytes(cfg.env, log, Observe(o))
      modifies this
      ensures Valid() && synced == old(synced)
      ensures r == Ok(old(logicalEnd)) && log == old(log) + [Observe(o)]
    {
      ghost var before, end := file, logicalEnd;
      AppendHolds(cfg, before, end, nextSequence, pending, isSealed, log, synced, o, frame);
      var written := WriteFrame(frame);
      match written {
        case Err(e) => return Err(e);
        case Ok(offset) =>
          assert file == Written(before, end, frame) && logicalEnd == end + |frame| && offset == end;
          r := Note(o, offset, frame);
      }
    }

    /** Puts a written frame on the pending list and counts it. */
    method Note(o: Observation, offset: nat, frame: Bytes) returns (r: Result<nat, WalError>)
      requires Usable(cfg) && Fits(cfg, log + [Observe(o)]) && nextSequence < U64_MAX
      requires Holds(cfg, file, logicalEnd, nextSequence + 1, pending + [PendingFrame(o, offset, logicalEnd, frame)],
                     isSealed, log + [Observe(o)], synced)
      modifies this`pending, this`nextSequence, this`log
      ensures Valid() && r == Ok(offset) && log == old(log) + [Observe(o)]
    {
      pending := pending + [PendingFrame(o, offset, logicalEnd, frame)];
      if nextSequence == U64_MAX {
        return Err(SequenceMismatch(U64_MAX, U64_MAX));
      }
      nextSequence := nextSequence + 1;
      log := log + [Observe(o)];
      r := Ok(offset);
    }

    function RemainingCapacity(): nat
      reads this
    {
      if logicalEnd <= cfg.maxBytes then cfg.maxBytes - logicalEnd else 0
    }

    /** Writes a frame at the logical end. */
    method WriteFrame(frame: Bytes) returns (r: Result<nat, WalError>)
      requires logicalEnd <= |file| == cfg.maxBytes
      modifies this`file, this`logicalEnd
      ensures |frame| > old(RemainingCapacity()) ==>
                r == Err(CapacityExhausted(|frame|, old(RemainingCapacity())))
                && file == old(file) && logicalEnd == old(logicalEnd)
      ensures |frame| <= old(RemainingCapacity()) ==>
                r == Ok(old(logicalEnd)) && logicalEnd == old(logicalEnd) + |frame|
                && file == Written(old(file), old(logicalEnd), frame)
    {
      if |frame| > RemainingCapacity() {
        return Err(CapacityExhausted(|frame|, RemainingCapacity()));
      }
      var offset := logicalEnd;
      file := Written(file, offset, frame);
      logicalEnd := logicalEnd + |frame|;
      return Ok(offset);
    }

    /** Makes all pending frames durable as one range. */
    method GroupCommit(durableAt: Nanos) returns (r: Result<CommittedRange, WalError>)
      requires Valid()
      modifies this
      ensures Valid()
      ensures match CommitError(cfg, old(log))
              case Some(e) => r == Err(e) && log == old(log) && synced == old(synced)
              case None =>
                var w := CommitOf(cfg.env, Pending(cfg.env, old(log)), durableAt);
                && r == Ok(CommittedRange(w.firstSequence, w.lastSequence, durableAt, w.hash))
                && log == old(log) + [Commit(durableAt)] && synced == logicalEnd
    {
      if isSealed {
        return Err(Sealed);
      }
      if pending == [] {
        return Err(NoPendingObservations);
      }
      synced := logicalEnd;
      var commit, encoded := NextCommit(durableAt);
      match encoded {
        case Err(e) => return Err(e);
        case Ok(frame) =>
          var written := WriteCommit(durableAt, frame);
          match written {
            case Err(e) => return Err(e);
            case Ok(_) => return Ok(CommittedRange(commit.firstSequence, commit.lastSequence, durableAt, commit.hash));
          }
      }
    }

    /** The commit record for everything pending, and its frame. */
    method NextCommit(durableAt: Nanos) returns (commit: WalCommit, r: Result<Bytes, WalError>)
      requires Valid() && pending != []
      ensures commit == CommitOf(cfg.env, Pending(cfg.env, log), durableAt)
      ensures r == Ok(RecordBytes(cfg.env, log, Commit(durableAt)))
    {
      var first, last := pending[0], pending[|pending| - 1];
      var hash := CalculateCommitHash(cfg.env, first.observation.sequence, last.observation.sequence, first.offset,
                                      last.end - 1, durableAt, FrameList(pending));
      commit := WalCommit(cfg.env.session, first.observation.sequence, last.observation.sequence, first.offset,
                          last.end - 1, durableAt, hash);
      CommitIsSmall(cfg, log, durableAt);
      r := EncodeFrame(cfg.env.codec, GROUP_COMMIT_FRAME, cfg.env.codec.encodeCommit(commit));
    }

    method WriteCommit(ghost durableAt: Nanos, frame: Bytes) returns (r: Result<nat, WalError>)
      requires Valid() && CommitError(cfg, log).None? && frame == RecordBytes(cfg.env, log, Commit(durableAt))
      modifies this
      ensures Valid() && synced == logicalEnd
      ensures r == Ok(old(logicalEnd)) && log == old(log) + [Commit(durableAt)]
    {
      CommitHolds(cfg, file, logicalEnd, log, synced, durableAt, frame);
      var written := WriteFrame(frame);
      match written {
        case Err(e) => return Err(e);
        case Ok(offset) =>
          synced := logicalEnd;
          pending := [];
          log := log + [Commit(durableAt)];
          return Ok(offset);
      }
    }

    /** Writes a terminal digest over everything before it. */
    method SealSegment() returns (r: Result<Bytes, WalError>)
      requires Valid()
      modifies this
      ensures Valid()
      ensures match SealError(cfg, old(log))
              case Some(e) => r == Err(e) && log == old(log) && synced == old(synced)
              case None => r == Ok(cfg.env.codec.digest(Render(cfg.env, old(log))))
                           && log == old(log) + [Seal] && synced == logicalEnd
    {
      if isSealed {
        return Err(Sealed);
      }
      if pending != [] {
        return Err(PendingObservations);
      }
      assert file[..logicalEnd] == Render(cfg.env, log);
      var hash := HashPrefix(cfg.env.codec, file, logicalEnd);
      var encoded := EncodeFrame(cfg.env.codec, SEGMENT_SEAL_FRAME, hash);
      match encoded {
        case Err(e) => return Err(e);
        case Ok(frame) => r := WriteSeal(hash, frame);
      }
    }

    method WriteSeal(hash: Bytes, frame: Bytes) returns (r: Result<Bytes, WalError>)
      requires Valid() && !isSealed && pending == []
      requires frame == RecordBytes(cfg.env, log, Seal) && hash == cfg.env.codec.digest(Render(cfg.env, log))
      requires SealError(cfg, log).None? || SealError(cfg, log) == Some(CapacityExhausted(|frame|, RemainingCapacity()))
      requires SealError(cfg, log).None? <==> |frame| <= RemainingCapacity()
      modifies this
      ensures Valid()
      ensures match SealError(cfg, old(log))
              case Some(e) => r == Err(e) && log == old(log) && synced == old(synced)
              case None => r == Ok(hash) && log == old(log) + [Seal] && synced == logicalEnd
    {
      if SealError(cfg, log).None? {
        SealHolds(cfg, file, logicalEnd, log, synced, frame);
      }
      var written := WriteFrame(frame);
      match written {
        case Err(e) => return Err(e);
        case Ok(_) =>
          synced := logicalEnd;
          isSealed := true;
          log := log + [Seal];
          return Ok(hash);
      }
    }

    /** The observations covered by valid commits, read back from the file. */
    method ReadCommitted() returns (r: Result<seq<CommittedObservation>, WalError>)
      requires Valid()
      ensures r == Ok(Committed(cfg.env, log))
    {
      WholeSegment(cfg, file, logicalEnd, log);
      var recovered := RecoverFile(cfg.env, file);
      match recovered {
        case Err(e) => return Err(e);
        case Ok(got) => return Ok(got.committed);
      }
    }
  }
}
