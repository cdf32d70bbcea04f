/** What holds across every run of appends, commits, seals, crashes and reopenings. */
module WalRuns {
  import opened WalFormat
  import opened WalLog
  import opened WalRecovery
  import opened WalSpec

  /** The records in the segment, and how many of its bytes have been synced. */
  datatype WalState = WalState(log: seq<Record>, synced: nat)

  datatype Event =
    | Append(o: Observation)
    | GroupCommit(durableAt: Nanos)
    | SealSegment
    /** Only the first `k` bytes of the file survive; the segment is then reopened. */
    | CrashAndReopen(k: nat)
    /** The same inside a group commit, after its first sync: of the commit record, `k` decides how much survives. */
    | CrashInCommit(durableAt: Nanos, k: nat)
    /** The same while a seal is being written. */
    | CrashInSeal(k: nat)

  const EMPTY := WalState([], 0)

  /** The last records that a cut at `k` leaves whole, and whether it leaves part of the next one. */
  function CutLog(v: Env, log: seq<Record>, k: nat): (seq<Record>, bool) {
    var whole := log[..Whole(v, log, k)];
    (whole, |Render(v, whole)| < k < |Render(v, log)|)
  }

  /** The surviving file of a crash that keeps `k` bytes is one that reopening is proved for. */
  lemma CutSurvives(v: Env, log: seq<Record>, spare: nat, k: nat, file: Bytes)
    requires k <= |Render(v, log)| + spare && file == (Render(v, log) + Zeros(spare))[..k]
    ensures var (whole, cut) := CutLog(v, log, k);
            Survives(v, file, log, whole, cut)
  {
    var j := Whole(v, log, k);
    if j == |log| {
      assert log[..j] == log;
      assert file == Render(v, log) + Zeros(k - |Render(v, log)|);
    } else {
      RenderPrefix(v, log, j);
      RenderPrefix(v, log, j + 1);
      CutInRecords(Render(v, log), Render(v, log[..j + 1]), spare, k);
      CutAtEnd(Render(v, log), Render(v, log[..j]), spare);
    }
  }

  lemma CutAtEnd(whole: Bytes, part: Bytes, spare: nat)
    requires |part| <= |whole| && whole[..|part|] == part
    ensures (whole + Zeros(spare))[..|part|] == part
  {
  }

  /** What a run takes reopening to be is what recovery finds in the surviving bytes. */
  lemma ReopeningIsRecovery(cfg: Config, written: seq<Record>, k: nat, file: Bytes)
    requires Usable(cfg) && Fits(cfg, written) && k <= cfg.maxBytes
    requires file == (Render(cfg.env, written) + Zeros(cfg.maxBytes - |Render(cfg.env, written)|))[..k]
    ensures var s := Reopened(cfg, written, k);
            && Recover(cfg.env, file).Ok?
            && var got := Recover(cfg.env, file).value;
            && got.committed == Committed(cfg.env, s.log) && got.report.logicalEnd == |Render(cfg.env, s.log)|
            && got.nextSequence == Count(s.log) && got.isSealed == IsSealed(s.log) && Pending(cfg.env, s.log) == []
  {
    var v := cfg.env;
    var (whole, cut) := CutLog(v, written, k);
    CutSurvives(v, written, cfg.maxBytes - |Render(v, written)|, k, file);
    RecoverSurvivor(v, file, written, whole, cut);
    KeptFacts(v, whole, cut);
  }

  lemma CutInRecords(whole: Bytes, part: Bytes, spare: nat, k: nat)
    requires k <= |part| <= |whole| && whole[..|part|] == part
    ensures (whole + Zeros(spare))[..k] == whole[..k] == part[..k]
  {
    CutTwice(whole, part, k);
  }

  function Step(cfg: Config, s: WalState, e: Event): WalState {
    match e
    case Append(o) => if AppendError(cfg, s.log, o).Some? then s else s.(log := s.log + [Observe(o)])
    case GroupCommit(at) => if CommitError(cfg, s.log).Some? then s else Synced(cfg, s.log + [Commit(at)])
    case SealSegment => if SealError(cfg, s.log).Some? then s else Synced(cfg, s.log + [Seal])
    case CrashAndReopen(k) =>
      if k < s.synced then s // Synced bytes survive, so this is not a crash that can happen.
      else Reopened(cfg, s.log, k)
    case CrashInCommit(at, k) =>
      if CommitError(cfg, s.log).Some? || k < |Render(cfg.env, s.log)| then s
      else Reopened(cfg, s.log + [Commit(at)], k)
    case CrashInSeal(k) =>
      if SealError(cfg, s.log).Some? || k < s.synced then s else Reopened(cfg, s.log + [Seal], k)
  }

  /** Reopening the first `k` bytes of a written log. */
  function Reopened(cfg: Config, written: seq<Record>, k: nat): WalState {
    var (whole, cut) := CutLog(cfg.env, written, k);
    Synced(cfg, Kept(cfg.env, whole, cut))
  }

  predicate IsCrash(e: Event) {
    e.CrashAndReopen? || e.CrashInCommit? || e.CrashInSeal?
  }

  function Synced(cfg: Config, log: seq<Record>): WalState {
    WalState(log, |Render(cfg.env, log)|)
  }

  ghost predicate Inv(cfg: Config, s: WalState) {
    && Fits(cfg, s.log)
    && LastCommitEnd(cfg.env, s.log) <= s.synced <= |Render(cfg.env, s.log)|
    && (IsSealed(s.log) ==> s.synced == |Render(cfg.env, s.log)|)
  }

  // ---------------------------------------------------------------- crashes keep what is committed

  /** A cut behind the last commit loses no commit. */
  lemma {:induction false} CutKeepsCommits(v: Env, log: seq<Record>, j: nat)
    requires j <= |log| && (j < |log| ==> LastCommitEnd(v, log) < |Render(v, log[..j + 1])|)
    ensures Committed(v, log[..j]) == Committed(v, log)
    decreases |log|
  {
    if j < |log| {
      var front := log[..|log| - 1];
      assert front[..j] == log[..j];
      RenderPrefix(v, log, j + 1);
      assert !log[|log| - 1].Commit?;
      assert j < |front| ==> front[..j + 1] == log[..j + 1];
      CutKeepsCommits(v, front, j);
    } else {
      assert log[..j] == log;
    }
  }

  /** A crash that keeps the synced bytes leaves the committed list exactly as it was. */
  lemma CrashKeepsCommitted(cfg: Config, s: WalState, k: nat)
    requires Usable(cfg) && Inv(cfg, s) && s.synced <= k
    ensures var (whole, cut) := CutLog(cfg.env, s.log, k);
            var kept := Kept(cfg.env, whole, cut);
            && Legal(cfg.env, kept) && Pending(cfg.env, kept) == []
            && |Render(cfg.env, kept)| <= |Render(cfg.env, s.log)|
            && Committed(cfg.env, kept) == Committed(cfg.env, s.log)
            && (cut ==> !IsSealed(whole))
  {
    var v := cfg.env;
    var j := Whole(v, s.log, k);
    var (whole, cut) := CutLog(v, s.log, k);
    CutKeepsCommits(v, s.log, j);
    LegalPrefix(v, s.log, j);
    RenderPrefix(v, s.log, j);
    if j < |s.log| {
      NothingAfterSeal(v, s.log, j);
    }
    KeptFacts(v, whole, cut);
  }

  lemma {:induction false} NothingAfterSeal(v: Env, log: seq<Record>, j: nat)
    requires Legal(v, log) && j < |log|
    ensures !IsSealed(log[..j])
    decreases |log|
  {
    var front := log[..|log| - 1];
    assert front[..j] == log[..j];
    if j < |front| {
      NothingAfterSeal(v, front, j);
    } else {
      assert front == log[..j];
    }
  }

  lemma WriteKeepsInv(cfg: Config, s: WalState, r: Record, synced: nat)
    requires Usable(cfg) && Inv(cfg, s) && Fits(cfg, s.log + [r])
    requires synced == if r.Observe? then s.synced else |Render(cfg.env, s.log + [r])|
    ensures Inv(cfg, WalState(s.log + [r], synced))
    ensures Committed(cfg.env, s.log) <= Committed(cfg.env, s.log + [r])
  {
    AfterRecord(cfg.env, s.log, r);
    LastCommitBound(cfg.env, s.log + [r]);
    Snoc(s.log, r);
  }

  /** The next state is sound and has committed at least as much. */
  ghost predicate Advances(cfg: Config, s: WalState, s': WalState) {
    Inv(cfg, s') && Committed(cfg.env, s.log) <= Committed(cfg.env, s'.log)
  }

  lemma AppendStep(cfg: Config, s: WalState, o: Observation)
    requires Usable(cfg) && Inv(cfg, s) && AppendError(cfg, s.log, o).None?
    ensures Advances(cfg, s, WalState(s.log + [Observe(o)], s.synced))
  {
    AppendFits(cfg, s.log, o);
    WriteKeepsInv(cfg, s, Observe(o), s.synced);
  }

  lemma CommitStep(cfg: Config, s: WalState, at: Nanos)
    requires Usable(cfg) && Inv(cfg, s) && CommitError(cfg, s.log).None?
    ensures Advances(cfg, s, Synced(cfg, s.log + [Commit(at)]))
  {
    CommitFits(cfg, s.log, at);
    WriteKeepsInv(cfg, s, Commit(at), |Render(cfg.env, s.log + [Commit(at)])|);
  }

  lemma SealStep(cfg: Config, s: WalState)
    requires Usable(cfg) && Inv(cfg, s) && SealError(cfg, s.log).None?
    ensures Advances(cfg, s, Synced(cfg, s.log + [Seal]))
  {
    SealFits(cfg, s.log);
    WriteKeepsInv(cfg, s, Seal, |Render(cfg.env, s.log + [Seal])|);
  }

  lemma CrashStep(cfg: Config, s: WalState, e: Event)
    requires Usable(cfg) && Inv(cfg, s) && IsCrash(e)
    ensures Advances(cfg, s, Step(cfg, s, e))
  {
    if Step(cfg, s, e) != s {
      match e {
        case CrashAndReopen(k) =>
          CrashKeepsInv(cfg, s, k);
          assert Advances(cfg, s, Reopened(cfg, s.log, k));
        case CrashInCommit(at, k) =>
          CommitCrash(cfg, s, at, k);
          assert Advances(cfg, s, Reopened(cfg, s.log + [Commit(at)], k));
        case CrashInSeal(k) =>
          SealCrash(cfg, s, k);
          assert Advances(cfg, s, Reopened(cfg, s.log + [Seal], k));
      }
    }
  }

  /** Every event keeps the invariant and never shortens or changes what is committed. */
  lemma StepKeepsInv(cfg: Config, s: WalState, e: Event)
    requires Usable(cfg) && Inv(cfg, s)
    ensures Inv(cfg, Step(cfg, s, e))
    ensures Committed(cfg.env, s.log) <= Committed(cfg.env, Step(cfg, s, e).log)
  {
    if IsCrash(e) {
      CrashStep(cfg, s, e);
    } else if Step(cfg, s, e) != s {
      match e {
        case Append(o) => AppendStep(cfg, s, o);
        case GroupCommit(at) => CommitStep(cfg, s, at);
        case SealSegment => SealStep(cfg, s);
      }
    }
    assert Advances(cfg, s, Step(cfg, s, e));
  }

  /** A record that is being written when the crash comes survives whole or not at all. */
  lemma CutLastRecord(v: Env, log: seq<Record>, r: Record, k: nat)
    requires |Render(v, log)| <= k
    ensures var (whole, cut) := CutLog(v, log + [r], k);
            if |Render(v, log + [r])| <= k then whole == log + [r] && !cut
            else whole == log && (cut <==> |Render(v, log)| < k)
  {
    var all := log + [r];
    var j := Whole(v, all, k);
    assert all[..|log|] == log && all[..|all|] == all;
    if j < |log| {
      assert all[..j + 1] == log[..j + 1];
      RenderPrefix(v, log, j + 1);
    }
  }

  /** A crash inside a commit, after the first sync: reopening gives the old committed list, or, when the
      commit record survived whole, that list and every observation that was pending. */
  lemma CommitCrash(cfg: Config, s: WalState, at: Nanos, k: nat)
    requires Usable(cfg) && Inv(cfg, s) && CommitError(cfg, s.log).None? && |Render(cfg.env, s.log)| <= k
    ensures var s' := Reopened(cfg, s.log + [Commit(at)], k);
            var v, pending := cfg.env, Pending(cfg.env, s.log);
            && Inv(cfg, s') && pending != []
            && if |Render(v, s.log + [Commit(at)])| <= k then
                 s'.log == s.log + [Commit(at)]
                 && Committed(v, s'.log) == Committed(v, s.log) + Stamped(pending, at, CommitOf(v, pending, at).hash)
               else s'.log == UpToLastCommit(s.log) && Committed(v, s'.log) == Committed(v, s.log)
  {
    var v := cfg.env;
    CommitFits(cfg, s.log, at);
    CutLastRecord(v, s.log, Commit(at), k);
    Snoc(s.log, Commit(at));
    AfterRecord(v, s.log, Commit(at));
    if |Render(v, s.log + [Commit(at)])| > k {
      UpToLastCommitFacts(v, s.log);
      ReopenedFits(cfg, s.log, UpToLastCommit(s.log));
    }
  }

  lemma ReopenedFits(cfg: Config, log: seq<Record>, kept: seq<Record>)
    requires Fits(cfg, log) && kept <= log && Legal(cfg.env, kept) && Pending(cfg.env, kept) == []
    ensures Inv(cfg, Synced(cfg, kept))
  {
    assert log[..|kept|] == kept;
    RenderPrefix(cfg.env, log, |kept|);
    LastCommitBound(cfg.env, kept);
  }

  /** A log without pending observations and without a seal ends with its last commit. */
  lemma NothingPending(v: Env, log: seq<Record>)
    requires Legal(v, log) && Pending(v, log) == [] && !IsSealed(log)
    ensures UpToLastCommit(log) == log && LastCommitEnd(v, log) == |Render(v, log)|
  {
  }

  /** A crash while sealing leaves the log sealed or as it was. */
  lemma SealCrash(cfg: Config, s: WalState, k: nat)
    requires Usable(cfg) && Inv(cfg, s) && SealError(cfg, s.log).None? && s.synced <= k
    ensures var s' := Reopened(cfg, s.log + [Seal], k);
            && Inv(cfg, s') && Committed(cfg.env, s'.log) == Committed(cfg.env, s.log)
            && s'.log == if |Render(cfg.env, s.log + [Seal])| <= k then s.log + [Seal] else s.log
  {
    var v := cfg.env;
    NothingPending(v, s.log);
    CutLastRecord(v, s.log, Seal, k);
    if |Render(v, s.log + [Seal])| <= k {
      SealedWhole(cfg, s.log);
    } else {
      ReopenedFits(cfg, s.log, s.log);
    }
  }

  lemma SealedWhole(cfg: Config, log: seq<Record>)
    requires Usable(cfg) && Fits(cfg, log) && SealError(cfg, log).None?
    ensures Pending(cfg.env, log + [Seal]) == [] && Inv(cfg, Synced(cfg, log + [Seal]))
    ensures Committed(cfg.env, log + [Seal]) == Committed(cfg.env, log)
  {
    SealFits(cfg, log);
    AfterRecord(cfg.env, log, Seal);
    Snoc(log, Seal);
    LastCommitBound(cfg.env, log + [Seal]);
  }

  lemma CrashKeepsInv(cfg: Config, s: WalState, k: nat)
    requires Usable(cfg) && Inv(cfg, s) && s.synced <= k
    ensures var s' := Reopened(cfg, s.log, k);
            Inv(cfg, s') && Committed(cfg.env, s'.log) == Committed(cfg.env, s.log)
  {
    CrashKeepsCommitted(cfg, s, k);
    LastCommitBound(cfg.env, Reopened(cfg, s.log, k).log);
  }

  // ---------------------------------------------------------------- runs

  ghost function Run(cfg: Config, events: seq<Event>): (s: WalState)
    requires Usable(cfg)
    ensures Inv(cfg, s)
    decreases |events|
  {
    if events == [] then EMPTY
    else
      var before := Run(cfg, events[..|events| - 1]);
      StepKeepsInv(cfg, before, events[|events| - 1]);
      Step(cfg, before, events[|events| - 1])
  }

  /** Over any run the committed list only grows, so every acknowledged commit is kept for good, and
      it is always numbered 0, 1, 2, ... without gaps. */
  lemma {:induction false} CommittedOnlyGrows(cfg: Config, events: seq<Event>, i: nat)
    requires Usable(cfg) && i <= |events|
    ensures Committed(cfg.env, Run(cfg, events[..i]).log) <= Committed(cfg.env, Run(cfg, events).log)
    ensures forall n | 0 <= n < |Committed(cfg.env, Run(cfg, events).log)| ::
              Committed(cfg.env, Run(cfg, events).log)[n].observation.sequence == n
    decreases |events|
  {
    Numbering(cfg.env, Run(cfg, events).log);
    if i < |events| {
      var front := events[..|events| - 1];
      assert front[..i] == events[..i];
      CommittedOnlyGrows(cfg, front, i);
      StepKeepsInv(cfg, Run(cfg, front), events[|events| - 1]);
    } else {
      assert events[..i] == events;
    }
  }

  lemma CommittedAfterCommit(v: Env, log: seq<Record>, at: Nanos)
    requires Pending(v, log) != []
    ensures Committed(v, log + [Commit(at)])
            == Committed(v, log) + Stamped(Pending(v, log), at, CommitOf(v, Pending(v, log), at).hash)
  {
    Snoc(log, Commit(at));
  }

  /** An acknowledged commit is kept for good: whatever follows, everything that was pending when it was
      acknowledged stays committed, at its place and with its stamp. */
  lemma AcknowledgedForever(cfg: Config, events: seq<Event>, i: nat)
    requires Usable(cfg) && i < |events| && events[i].GroupCommit?
    requires CommitError(cfg, Run(cfg, events[..i]).log).None?
    ensures var v, log, at := cfg.env, Run(cfg, events[..i]).log, events[i].durableAt;
            && Pending(v, log) != []
            && Committed(v, log) + Stamped(Pending(v, log), at, CommitOf(v, Pending(v, log), at).hash)
               <= Committed(v, Run(cfg, events).log)
  {
    assert events[..i + 1][..i] == events[..i];
    CommittedAfterCommit(cfg.env, Run(cfg, events[..i]).log, events[i].durableAt);
    CommittedOnlyGrows(cfg, events, i + 1);
  }

  // ---------------------------------------------------------------- discarded tails stay discarded

  /** A log that every later crash keeps: it is synced and ends where reopening may stop. */
  ghost predicate Anchored(cfg: Config, s: WalState, anchor: seq<Record>) {
    && anchor <= s.log && |Render(cfg.env, anchor)| <= s.synced
    && (anchor == [] || !anchor[|anchor| - 1].Observe?)
  }

  lemma {:induction false} UpToLastCommitKeeps(records: seq<Record>, anchor: seq<Record>)
    requires anchor <= records && (anchor == [] || anchor[|anchor| - 1].Commit?)
    ensures anchor <= UpToLastCommit(records)
    decreases |records|
  {
    if records != [] && !records[|records| - 1].Commit? {
      assert anchor != records;
      UpToLastCommitKeeps(records[..|records| - 1], anchor);
    }
  }

  lemma {:induction false} RenderGrows(v: Env, log: seq<Record>, i: nat, j: nat)
    requires i < j <= |log|
    ensures |Render(v, log[..i])| < |Render(v, log[..j])|
    decreases j
  {
    assert log[..j][..j - 1] == log[..j - 1];
    if i < j - 1 {
      RenderGrows(v, log, i, j - 1);
    }
  }

  lemma CutKeepsAnchor(cfg: Config, s: WalState, k: nat, anchor: seq<Record>)
    requires s.synced <= k && Anchored(cfg, s, anchor)
    ensures anchor <= CutLog(cfg.env, s.log, k).0
  {
    var v := cfg.env;
    var j := Whole(v, s.log, k);
    assert s.log[..|anchor|] == anchor;
    if j + 1 < |anchor| {
      RenderGrows(v, s.log, j + 1, |anchor|);
    }
    assert |anchor| <= j;
  }

  lemma CrashKeepsAnchor(cfg: Config, s: WalState, k: nat, anchor: seq<Record>)
    requires Usable(cfg) && Inv(cfg, s) && s.synced <= k && Anchored(cfg, s, anchor)
    ensures Anchored(cfg, Reopened(cfg, s.log, k), anchor)
  {
    var v := cfg.env;
    var (whole, cut) := CutLog(v, s.log, k);
    CutKeepsAnchor(cfg, s, k, anchor);
    var kept := Kept(v, whole, cut);
    if IsSealed(anchor) {
      SealedLogIsWhole(v, s.log, anchor);
      SealedHasNoPending(v, anchor);
      assert whole == anchor && kept == anchor;
    } else {
      UpToLastCommitKeeps(whole, anchor);
    }
    assert kept[..|anchor|] == anchor;
    RenderPrefix(v, kept, |anchor|);
  }

  lemma SealedLogIsWhole(v: Env, log: seq<Record>, anchor: seq<Record>)
    requires Legal(v, log) && anchor <= log && IsSealed(anchor)
    ensures anchor == log
  {
    assert log[..|anchor|] == anchor;
    if |anchor| < |log| {
      NothingAfterSeal(v, log, |anchor|);
    }
  }

  lemma AnchoredInSynced(cfg: Config, log: seq<Record>, anchor: seq<Record>)
    requires anchor <= log && (anchor == [] || !anchor[|anchor| - 1].Observe?)
    ensures Anchored(cfg, Synced(cfg, log), anchor)
  {
    assert log[..|anchor|] == anchor;
    RenderPrefix(cfg.env, log, |anchor|);
  }

  lemma StepKeepsAnchor(cfg: Config, s: WalState, e: Event, anchor: seq<Record>)
    requires Usable(cfg) && Inv(cfg, s) && Anchored(cfg, s, anchor)
    ensures Anchored(cfg, Step(cfg, s, e), anchor)
  {
    if IsCrash(e) {
      CrashesKeepAnchor(cfg, s, e, anchor);
    } else if !e.Append? && Step(cfg, s, e) != s {
      AnchoredInSynced(cfg, Step(cfg, s, e).log, anchor);
    }
  }

  lemma CrashesKeepAnchor(cfg: Config, s: WalState, e: Event, anchor: seq<Record>)
    requires Usable(cfg) && Inv(cfg, s) && Anchored(cfg, s, anchor) && IsCrash(e)
    ensures Anchored(cfg, Step(cfg, s, e), anchor)
  {
    match e {
      case CrashAndReopen(k) => if s.synced <= k { CrashKeepsAnchor(cfg, s, k, anchor); }
      case CrashInCommit(at, k) =>
        if CommitError(cfg, s.log).None? && |Render(cfg.env, s.log)| <= k {
          CommitCrashKeepsAnchor(cfg, s, at, k, anchor);
        }
      case CrashInSeal(k) =>
        if SealError(cfg, s.log).None? && s.synced <= k {
          SealCrash(cfg, s, k);
          AnchoredInSynced(cfg, Reopened(cfg, s.log + [Seal], k).log, anchor);
        }
    }
  }

  lemma CommitCrashKeepsAnchor(cfg: Config, s: WalState, at: Nanos, k: nat, anchor: seq<Record>)
    requires Usable(cfg) && Inv(cfg, s) && Anchored(cfg, s, anchor)
    requires CommitError(cfg, s.log).None? && |Render(cfg.env, s.log)| <= k
    ensures Anchored(cfg, Reopened(cfg, s.log + [Commit(at)], k), anchor)
  {
    CommitCrash(cfg, s, at, k);
    UnsealedAnchor(cfg.env, s.log, anchor);
    if |Render(cfg.env, s.log + [Commit(at)])| <= k {
      AnchoredInSynced(cfg, s.log + [Commit(at)], anchor);
    } else {
      UpToLastCommitKeeps(s.log, anchor);
      AnchoredInSynced(cfg, UpToLastCommit(s.log), anchor);
    }
  }

  lemma UnsealedAnchor(v: Env, log: seq<Record>, anchor: seq<Record>)
    requires Legal(v, log) && !IsSealed(log) && anchor <= log && (anchor == [] || !anchor[|anchor| - 1].Observe?)
    ensures anchor == [] || anchor[|anchor| - 1].Commit?
  {
    assert log[..|anchor|] == anchor;
    if |anchor| < |log| {
      NothingAfterSeal(v, log, |anchor|);
    }
  }

  /** Only an append adds an observation. */
  lemma StepAddsOnlyAppends(cfg: Config, s: WalState, e: Event, i: nat)
    requires i < |Step(cfg, s, e).log| && Step(cfg, s, e).log[i].Observe?
    ensures (i < |s.log| && Step(cfg, s, e).log[i] == s.log[i]) || e == Append(Step(cfg, s, e).log[i].o)
  {
  }

  /** The run from a given state on. */
  ghost function Continue(cfg: Config, s: WalState, events: seq<Event>): (s': WalState)
    requires Usable(cfg) && Inv(cfg, s)
    ensures Inv(cfg, s')
    decreases |events|
  {
    if events == [] then s
    else
      var before := Continue(cfg, s, events[..|events| - 1]);
      StepKeepsInv(cfg, before, events[|events| - 1]);
      Step(cfg, before, events[|events| - 1])
  }

  /** What a crash discarded never comes back: after a reopening, the reopened log stays in front of
      everything, and every observation behind it was appended after that reopening. */
  lemma {:induction false} DiscardedStaysDiscarded(cfg: Config, s: WalState, crash: Event, events: seq<Event>)
    requires Usable(cfg) && Inv(cfg, s) && IsCrash(crash) && Step(cfg, s, crash) != s
    ensures Inv(cfg, Step(cfg, s, crash))
    ensures var reopened := Step(cfg, s, crash);
            var final := Continue(cfg, reopened, events);
            && Anchored(cfg, final, reopened.log)
            && forall i | |reopened.log| <= i < |final.log| && final.log[i].Observe? :: Append(final.log[i].o) in events
    decreases |events|
  {
    StepKeepsInv(cfg, s, crash);
    var reopened := Step(cfg, s, crash);
    if events == [] {
      ReopenedIsAnchored(cfg, s, crash);
    } else {
      var front := events[..|events| - 1];
      DiscardedStaysDiscarded(cfg, s, crash, front);
      var before, e := Continue(cfg, reopened, front), events[|events| - 1];
      StepKeepsAnchor(cfg, before, e, reopened.log);
      forall i | |reopened.log| <= i < |Step(cfg, before, e).log| && Step(cfg, before, e).log[i].Observe?
        ensures Append(Step(cfg, before, e).log[i].o) in events
      {
        StepAddsOnlyAppends(cfg, before, e, i);
      }
    }
  }

  lemma ReopenedIsAnchored(cfg: Config, s: WalState, crash: Event)
    requires Usable(cfg) && Inv(cfg, s) && IsCrash(crash) && Step(cfg, s, crash) != s
    ensures var reopened := Step(cfg, s, crash);
            Anchored(cfg, reopened, reopened.log)
  {
    var reopened := Step(cfg, s, crash);
    match crash {
      case CrashAndReopen(k) => CrashKeepsCommitted(cfg, s, k);
      case CrashInCommit(at, k) =>
        CommitCrash(cfg, s, at, k);
        UpToLastCommitFacts(cfg.env, s.log);
      case CrashInSeal(k) =>
        SealCrash(cfg, s, k);
        NothingPending(cfg.env, s.log);
    }
  }
}
