/** The writer's operations on logs, and what a crash followed by reopening leaves of a log. */
module WalSpec {
  import opened Prelude
  import opened WalFormat
  import opened WalLog
  import opened WalRecovery

  datatype Config = Config(env: Env, maxBytes: nat)

  ghost predicate Usable(cfg: Config) {
    Lawful(cfg.env.codec) && COMMIT_RESERVE_BYTES < cfg.maxBytes <= U64_MAX
  }

  /** A log that fits its segment and leaves room for the commit of anything pending. */
  ghost predicate Fits(cfg: Config, log: seq<Record>) {
    && Legal(cfg.env, log)
    && |Render(cfg.env, log)| <= cfg.maxBytes
    && (Pending(cfg.env, log) != [] ==> |Render(cfg.env, log)| + COMMIT_RESERVE_BYTES <= cfg.maxBytes)
  }

  function Remaining(cfg: Config, log: seq<Record>): nat {
    var used := |Render(cfg.env, log)|;
    if used <= cfg.maxBytes then cfg.maxBytes - used else 0
  }

  // ---------------------------------------------------------------- writing

  /** `append`: why an observation is refused. */
  function AppendError(cfg: Config, log: seq<Record>, o: Observation): Option<WalError> {
    var size := |cfg.env.codec.encodeObservation(o)|;
    var required := HEADER_BYTES + size + CRC_BYTES + COMMIT_RESERVE_BYTES;
    if IsSealed(log) then Some(Sealed)
    else if o.session != cfg.env.session then Some(SourceSessionMismatch)
    else if o.sequence != Count(log) then Some(SequenceMismatch(Count(log), o.sequence))
    else if size > MAX_PAYLOAD_BYTES then Some(CapacityExhausted(size, MAX_PAYLOAD_BYTES))
    else if required > Remaining(cfg, log) then Some(CapacityExhausted(required, Remaining(cfg, log)))
    else None
  }

  lemma AppendFits(cfg: Config, log: seq<Record>, o: Observation)
    requires Usable(cfg) && Fits(cfg, log) && AppendError(cfg, log, o).None?
    ensures Fits(cfg, log + [Observe(o)]) && Count(log) < U64_MAX
  {
    Snoc(log, Observe(o));
    CountBound(cfg.env, log);
  }

  /** `group_commit`: it fails only when sealed or when there is nothing to commit. */
  function CommitError(cfg: Config, log: seq<Record>): Option<WalError> {
    if IsSealed(log) then Some(Sealed)
    else if Pending(cfg.env, log) == [] then Some(NoPendingObservations)
    else None
  }

  /** The space reserved by every append is always enough for the commit record. */
  lemma CommitFits(cfg: Config, log: seq<Record>, at: Nanos)
    requires Usable(cfg) && Fits(cfg, log) && CommitError(cfg, log).None?
    ensures Fits(cfg, log + [Commit(at)])
    ensures |RecordBytes(cfg.env, log, Commit(at))| <= Remaining(cfg, log)
  {
    Snoc(log, Commit(at));
    CommitInRange(cfg.env, log, at);
    assert CommitDecodes(cfg.env.codec, CommitOf(cfg.env, Pending(cfg.env, log), at));
  }

  /** `seal`. */
  function SealError(cfg: Config, log: seq<Record>): Option<WalError> {
    var required := HEADER_BYTES + 32 + CRC_BYTES;
    if IsSealed(log) then Some(Sealed)
    else if Pending(cfg.env, log) != [] then Some(PendingObservations)
    else if required > Remaining(cfg, log) then Some(CapacityExhausted(required, Remaining(cfg, log)))
    else None
  }

  lemma SealFits(cfg: Config, log: seq<Record>)
    requires Usable(cfg) && Fits(cfg, log) && SealError(cfg, log).None?
    ensures Fits(cfg, log + [Seal])
  {
    Snoc(log, Seal);
  }

  /** Each operation is accepted if and only if the longer log is one the writer can produce and fits the segment, an
      append with room left for its commit. */
  lemma AcceptedIff(cfg: Config, log: seq<Record>, o: Observation, at: Nanos)
    requires Usable(cfg) && Fits(cfg, log)
    ensures AppendError(cfg, log, o).None? <==>
              Legal(cfg.env, log + [Observe(o)]) && |Render(cfg.env, log + [Observe(o)])| + 512 <= cfg.maxBytes
    ensures CommitError(cfg, log).None? <==>
              Legal(cfg.env, log + [Commit(at)]) && |Render(cfg.env, log + [Commit(at)])| <= cfg.maxBytes
    ensures SealError(cfg, log).None? <==>
              Legal(cfg.env, log + [Seal]) && |Render(cfg.env, log + [Seal])| <= cfg.maxBytes
  {
    Snoc(log, Observe(o));
    Snoc(log, Commit(at));
    Snoc(log, Seal);
    if CommitError(cfg, log).None? {
      CommitFits(cfg, log, at);
    }
  }

  // ---------------------------------------------------------------- reopening

  /** A log without what follows its last commit. */
  function UpToLastCommit(records: seq<Record>): (kept: seq<Record>)
    ensures kept <= records
  {
    if records == [] || records[|records| - 1].Commit? then records
    else UpToLastCommit(records[..|records| - 1])
  }

  lemma {:induction false} UpToLastCommitFacts(v: Env, records: seq<Record>)
    requires Legal(v, records) && !IsSealed(records)
    ensures var kept := UpToLastCommit(records);
            && Legal(v, kept) && !IsSealed(kept)
            && Pending(v, kept) == [] && Committed(v, kept) == Committed(v, records)
            && |Render(v, kept)| == LastCommitEnd(v, records)
    decreases |records|
  {
    if records != [] && !records[|records| - 1].Commit? {
      UpToLastCommitFacts(v, records[..|records| - 1]);
    }
  }

  /** What reopening keeps of the surviving records: all of them, or, when the file was cut inside a
      record or observations were left uncommitted, the part up to the last commit. */
  function Kept(v: Env, survived: seq<Record>, cut: bool): (kept: seq<Record>)
    ensures kept <= survived
  {
    if cut || Pending(v, survived) != [] then UpToLastCommit(survived) else survived
  }

  lemma {:induction false} SealedHasNoPending(v: Env, records: seq<Record>)
    requires Legal(v, records) && IsSealed(records)
    ensures Pending(v, records) == []
  {
  }

  /** The log that reopening continues with is exactly the one whose bytes it keeps. */
  lemma KeptFacts(v: Env, survived: seq<Record>, cut: bool)
    requires Legal(v, survived) && (cut ==> !IsSealed(survived))
    ensures var kept := Kept(v, survived, cut);
            var got := Expected(v, survived, cut);
            && Legal(v, kept) && Pending(v, kept) == []
            && Committed(v, kept) == Committed(v, survived) == got.committed
            && |Render(v, kept)| == got.report.logicalEnd <= |Render(v, survived)|
            && Render(v, kept) == Render(v, survived)[..got.report.logicalEnd]
            && got.nextSequence == Count(kept) && got.isSealed == IsSealed(kept)
  {
    var kept := Kept(v, survived, cut);
    if cut || Pending(v, survived) != [] {
      if IsSealed(survived) {
        SealedHasNoPending(v, survived);
      }
      UpToLastCommitFacts(v, survived);
    }
    assert survived[..|kept|] == kept;
    RenderPrefix(v, survived, |kept|);
    Numbering(v, kept);
  }

  /** Whether `file` is what a crash can have left of a log: the log's bytes up to a cut, or the whole
      log in its preallocated segment. */
  ghost predicate Survives(v: Env, file: Bytes, log: seq<Record>, survived: seq<Record>, cut: bool) {
    && survived <= log
    && ((file == Render(v, survived) && !cut)
        || (cut && |survived| < |log| && |Render(v, survived)| < |file| < |Render(v, log[..|survived| + 1])|
            && file == Render(v, log[..|survived| + 1])[..|file|])
        || (!cut && survived == log && |Render(v, log)| <= |file|
            && file == Render(v, log) + Zeros(|file| - |Render(v, log)|)))
  }

  /** Recovery after any such crash. */
  lemma RecoverSurvivor(v: Env, file: Bytes, log: seq<Record>, survived: seq<Record>, cut: bool)
    requires Lawful(v.codec) && Legal(v, log) && |Render(v, log)| <= U64_MAX && Survives(v, file, log, survived, cut)
    ensures Legal(v, survived) && (cut ==> !IsSealed(survived))
    ensures Recover(v, file) == Ok(Expected(v, survived, cut))
  {
    var j := |survived|;
    assert log[..j] == survived;
    LegalPrefix(v, log, j);
    RenderPrefix(v, log, j);
    if cut {
      RecoverCutSurvivor(v, file, log, survived);
    } else {
      RecoverPreallocated(v, survived, file, |file| - |Render(v, survived)|);
    }
  }

  lemma RecoverCutSurvivor(v: Env, file: Bytes, log: seq<Record>, survived: seq<Record>)
    requires Lawful(v.codec) && Legal(v, log) && |Render(v, survived)| <= U64_MAX && Survives(v, file, log, survived, true)
    ensures !IsSealed(survived) && Recover(v, file) == Ok(Expected(v, survived, true))
  {
    var r := log[|survived|];
    LegalPrefix(v, log, |survived| + 1);
    assert log[..|survived|] == survived;
    TakeOneMore(log, |survived|);
    Snoc(survived, r);
    RecoverTorn(v, survived, r, file);
  }
}
