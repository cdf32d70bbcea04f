/** Durable capture: one observation per message, committed before it is handed out. */
module SourceCapture {
  import opened Prelude
  import opened WalFormat
  import opened WalLog
  import opened WalRecovery
  import opened WalSpec
  import opened WalRuns
  import Wal

  const MAX_CURSOR_BYTES: nat := 1024

  /** A source message: the parts that are checked, and the labels and times it carries. */
  datatype Message = Message(payload: Bytes, cursor: Option<Bytes>, labels: Bytes)

  /** How an observation's body is built from a message; building may fail. */
  datatype Settings = Settings(session: Bytes, maxPayload: nat, build: Message -> Option<Bytes>)

  datatype CaptureError =
    | CaptureUnavailable
    | PayloadTooLarge(actual: nat, max: nat)
    | SourceCursorTooLarge
    | SequenceExhausted
    | InvalidObservation
    | WalFailed(error: WalError)
    | CommitRangeMismatch(expected: nat, first: nat, last: nat)

  /** What a capture writer consists of. */
  datatype Capture = Capture(log: seq<Record>, next: nat, poisoned: bool)

  /** The checks made before anything is written. */
  function Refusal(t: Settings, c: Capture, m: Message): Option<CaptureError> {
    if c.poisoned then Some(CaptureUnavailable)
    else if |m.payload| > t.maxPayload then Some(PayloadTooLarge(|m.payload|, t.maxPayload))
    else if m.cursor.Some? && |m.cursor.value| > MAX_CURSOR_BYTES then Some(SourceCursorTooLarge)
    else if c.next == U64_MAX then Some(SequenceExhausted)
    else if t.build(m).None? then Some(InvalidObservation)
    else None
  }

  function ObservationFor(t: Settings, c: Capture, m: Message): Observation
    requires t.build(m).Some?
  {
    Observation(t.session, c.next, t.build(m).value)
  }

  /** `capture`: the new state and the committed record or the error.  Refusals change nothing; any
      failure of the log poisons the writer. */
  function Captured(cfg: Config, t: Settings, c: Capture, m: Message, at: Nanos): (Capture, Result<CommittedObservation, CaptureError>) {
    if Refusal(t, c, m).Some? then (c, Err(Refusal(t, c, m).value))
    else
      var o := ObservationFor(t, c, m);
      var failed := AppendError(cfg, c.log, o);
      if failed.Some? then (c.(poisoned := true), Err(WalFailed(failed.value)))
      else CommitAppended(cfg, c.log + [Observe(o)], c.next, o, at)
  }

  /** Committing after a successful append: the commit must cover exactly the new observation. */
  function CommitAppended(cfg: Config, appended: seq<Record>, next: nat, o: Observation, at: Nanos): (Capture, Result<CommittedObservation, CaptureError>) {
    var unfit := CommitError(cfg, appended);
    if unfit.Some? then (Capture(appended, next, true), Err(WalFailed(unfit.value)))
    else
      var w := CommitOf(cfg.env, Pending(cfg.env, appended), at);
      var log := appended + [Commit(at)];
      if w.firstSequence != next || w.lastSequence != next then
        (Capture(log, next, true), Err(CommitRangeMismatch(next, w.firstSequence, w.lastSequence)))
      else (Capture(log, SaturatingSucc(next), false), Ok(CommittedObservation(o, at, w.hash)))
  }

  // ---------------------------------------------------------------- what is captured

  /** A message the writer may try: it is not poisoned, the payload and the cursor are within bounds, a number is left,
      and an observation can be built. */
  predicate Sendable(t: Settings, c: Capture, m: Message) {
    && !c.poisoned && |m.payload| <= t.maxPayload && (m.cursor.Some? ==> |m.cursor.value| <= 1024)
    && c.next != U64_MAX && t.build(m).Some?
  }

  /** A message is captured if and only if it is sendable, the log can take its observation next and has nothing else
      pending.  A message that is not sendable changes nothing; any other failure poisons the writer. */
  lemma CapturedIff(cfg: Config, t: Settings, c: Capture, m: Message, at: Nanos)
    requires Usable(cfg) && Fits(cfg, c.log)
    ensures var (c', r) := Captured(cfg, t, c, m, at);
            && (r.Ok? <==> Sendable(t, c, m) && Takes(cfg, c.log, ObservationFor(t, c, m)) && Pending(cfg.env, c.log) == [])
            && (r.Ok? ==> c' == Capture(c.log + [Observe(ObservationFor(t, c, m))] + [Commit(at)], c.next + 1, false)
                          && r.value.observation == ObservationFor(t, c, m) && r.value.durableAt == at)
            && (!Sendable(t, c, m) ==> c' == c)
            && (r.Err? && Sendable(t, c, m) ==> c'.poisoned && c'.next == c.next)
  {
    if Sendable(t, c, m) {
      var o := ObservationFor(t, c, m);
      assert AppendError(cfg, c.log, o).None? <==> Takes(cfg, c.log, o) by {
        AcceptedIff(cfg, c.log, o, at);
      }
      if Takes(cfg, c.log, o) {
        assert c.next < U64_MAX by {
          AppendFits(cfg, c.log, o);
        }
        CommitsAlone(cfg, c.log, c.next, o, at);
      }
    }
  }

  /** The commit behind an observation covers it alone exactly when nothing was pending before. */
  lemma CommitsAlone(cfg: Config, log: seq<Record>, next: nat, o: Observation, at: Nanos)
    requires Legal(cfg.env, log) && AppendError(cfg, log, o).None? && o.sequence == next < U64_MAX
    ensures var appended := log + [Observe(o)];
            var (c', r) := CommitAppended(cfg, appended, next, o, at);
            && (r.Ok? <==> Pending(cfg.env, log) == [])
            && (r.Ok? ==> c' == Capture(appended + [Commit(at)], next + 1, false)
                          && r.value.observation == o && r.value.durableAt == at)
            && (r.Err? ==> c'.poisoned && c'.next == next)
  {
    CommitFollows(cfg, log, o);
    RangeOfPending(cfg.env, log, o, at);
  }

  lemma CommitFollows(cfg: Config, log: seq<Record>, o: Observation)
    requires AppendError(cfg, log, o).None?
    ensures CommitError(cfg, log + [Observe(o)]).None?
  {
    AfterRecord(cfg.env, log, Observe(o));
  }

  lemma RangeOfPending(v: Env, log: seq<Record>, o: Observation, at: Nanos)
    requires Legal(v, log) && o.sequence == Count(log)
    ensures var pending := Pending(v, log + [Observe(o)]);
            && pending != []
            && var w := CommitOf(v, pending, at);
            w.lastSequence == o.sequence && (w.firstSequence == o.sequence <==> Pending(v, log) == [])
  {
    AfterRecord(v, log, Observe(o));
    Numbering(v, log);
  }

  /** The log with the observation behind it is one the writer can produce, with room left for its commit. */
  ghost predicate Takes(cfg: Config, log: seq<Record>, o: Observation) {
    Legal(cfg.env, log + [Observe(o)]) && |Render(cfg.env, log + [Observe(o)])| + COMMIT_RESERVE_BYTES <= cfg.maxBytes
  }

  /** Why a message that cannot be sent is refused. */
  lemma RefusedFor(cfg: Config, t: Settings, c: Capture, m: Message, at: Nanos)
    ensures var r := Captured(cfg, t, c, m, at).1;
            var small := |m.payload| <= t.maxPayload;
            var placed := m.cursor.Some? ==> |m.cursor.value| <= 1024;
            && (r == Err(CaptureUnavailable) <==> c.poisoned)
            && (r == Err(PayloadTooLarge(|m.payload|, t.maxPayload)) <==> !c.poisoned && !small)
            && (r == Err(SourceCursorTooLarge) <==> !c.poisoned && small && !placed)
            && (r == Err(SequenceExhausted) <==> !c.poisoned && small && placed && c.next == U64_MAX)
            && (r == Err(InvalidObservation) <==> !c.poisoned && small && placed && c.next != U64_MAX && t.build(m).None?)
  {
  }

  // ---------------------------------------------------------------- one capture

  /** After an accepted append the commit goes through; it covers only the new observation exactly
      when nothing else was pending, and then that observation is the next committed one. */
  lemma WriteThrough(cfg: Config, log: seq<Record>, o: Observation, at: Nanos)
    requires Usable(cfg) && Fits(cfg, log) && AppendError(cfg, log, o).None?
    ensures var appended := log + [Observe(o)];
            var pending := Pending(cfg.env, appended);
            && Fits(cfg, appended) && CommitError(cfg, appended).None? && Fits(cfg, appended + [Commit(at)])
            && var w := CommitOf(cfg.env, pending, at);
            w.firstSequence == o.sequence ==>
              && o.sequence == |Committed(cfg.env, log)|
              && Committed(cfg.env, appended + [Commit(at)])
                 == Committed(cfg.env, log) + [CommittedObservation(o, at, w.hash)]
  {
    var v := cfg.env;
    var appended := log + [Observe(o)];
    AppendFits(cfg, log, o);
    AfterRecord(v, log, Observe(o));
    CommitFits(cfg, appended, at);
    Numbering(v, log);
    CommittedAfter(v, log, o, at);
    var pending := Pending(v, appended);
    if pending[0].observation.sequence == o.sequence {
      assert |pending| == 1;
      assert Stamped(pending, at, CommitOf(v, pending, at).hash)
          == [CommittedObservation(o, at, CommitOf(v, pending, at).hash)];
    }
  }

  /** A record is handed out exactly when the log has just committed it, alone, as its next entry, and
      its number is the length of the committed list before. */
  lemma HandedOutIsCommitted(cfg: Config, t: Settings, c: Capture, m: Message, at: Nanos)
    requires Usable(cfg) && Fits(cfg, c.log)
    ensures var (c', r) := Captured(cfg, t, c, m, at);
            && (r.Ok? ==> Committed(cfg.env, c'.log) == Committed(cfg.env, c.log) + [r.value]
                          && r.value.observation.sequence == |Committed(cfg.env, c.log)| == c.next)
            && (r.Err? && !c'.poisoned ==> c' == c)
  {
    if Refusal(t, c, m).None? {
      var o := ObservationFor(t, c, m);
      if AppendError(cfg, c.log, o).None? {
        WriteThrough(cfg, c.log, o, at);
      }
    }
  }

  lemma CommittedAfter(v: Env, log: seq<Record>, o: Observation, at: Nanos)
    ensures var appended := log + [Observe(o)];
            var pending := Pending(v, appended);
            && pending != [] && Committed(v, appended) == Committed(v, log)
            && Committed(v, appended + [Commit(at)]) == Committed(v, log) + Stamped(pending, at, CommitOf(v, pending, at).hash)
  {
    Snoc(log, Observe(o));
    AfterRecord(v, log, Observe(o));
    Snoc(log + [Observe(o)], Commit(at));
  }

  // ---------------------------------------------------------------- runs

  datatype CaptureEvent =
    | Take(m: Message, at: Nanos)
    /** A crash that keeps `k` bytes, reopening, and resuming at some sequence number. */
    | CrashAndResume(k: nat, next: nat)
    /** The same while a message is being captured: `k` decides how much of the observation and of its commit
        survives.  Nothing was returned. */
    | CrashInTake(m: Message, at: Nanos, k: nat, next: nat)

  /** A capture writer over its whole life: the synced bytes and everything it has handed out. */
  datatype Life = Life(capture: Capture, synced: nat, handedOut: seq<CommittedObservation>)

  const BORN := Life(Capture([], 0, false), 0, [])

  function Live(cfg: Config, t: Settings, l: Life, e: CaptureEvent): Life {
    match e
    case Take(m, at) =>
      var (c, r) := Captured(cfg, t, l.capture, m, at);
      Life(c, if IsCommitEnd(c.log) && c.log != l.capture.log then |Render(cfg.env, c.log)| else l.synced,
           if r.Ok? then l.handedOut + [r.value] else l.handedOut)
    case CrashAndResume(k, next) =>
      var s := Reopened(cfg, l.capture.log, k);
      if k < l.synced then l else Life(Capture(s.log, next, false), s.synced, l.handedOut)
    case CrashInTake(m, at, k, next) =>
      if !Writes(cfg, t, l.capture, m) || k < l.synced then l
      else
        var s := Reopened(cfg, l.capture.log + [Observe(ObservationFor(t, l.capture, m))] + [Commit(at)], k);
        Life(Capture(s.log, next, false), s.synced, l.handedOut)
  }

  /** Whether capturing a message writes anything. */
  predicate Writes(cfg: Config, t: Settings, c: Capture, m: Message) {
    Refusal(t, c, m).None? && AppendError(cfg, c.log, ObservationFor(t, c, m)).None?
  }

  predicate IsCommitEnd(log: seq<Record>) {
    log != [] && log[|log| - 1].Commit?
  }

  ghost predicate InPlace(committed: seq<CommittedObservation>, handedOut: seq<CommittedObservation>, i: nat)
    requires i < |handedOut|
  {
    var n := handedOut[i].observation.sequence;
    n < |committed| && committed[n] == handedOut[i]
  }

  ghost predicate Before(handedOut: seq<CommittedObservation>, i: nat, j: nat)
    requires i < j < |handedOut|
  {
    handedOut[i].observation.sequence < handedOut[j].observation.sequence
  }

  /** Everything handed out sits in the committed list at its own number, in increasing order. */
  ghost predicate HandsInPlace(committed: seq<CommittedObservation>, handedOut: seq<CommittedObservation>) {
    && (forall i {:trigger InPlace(committed, handedOut, i)} | 0 <= i < |handedOut| :: InPlace(committed, handedOut, i))
    && (forall i, j {:trigger Before(handedOut, i, j)} | 0 <= i < j < |handedOut| :: Before(handedOut, i, j))
  }

  ghost predicate LifeInv(cfg: Config, l: Life) {
    && WalRuns.Inv(cfg, WalState(l.capture.log, l.synced))
    && HandsInPlace(Committed(cfg.env, l.capture.log), l.handedOut)
  }

  lemma HandsStay(committed: seq<CommittedObservation>, more: seq<CommittedObservation>, handedOut: seq<CommittedObservation>)
    requires HandsInPlace(committed, handedOut) && committed <= more
    ensures HandsInPlace(more, handedOut)
  {
    forall i | 0 <= i < |handedOut|
      ensures InPlace(more, handedOut, i)
    {
      assert InPlace(committed, handedOut, i);
    }
  }

  lemma HandOver(committed: seq<CommittedObservation>, handedOut: seq<CommittedObservation>, r: CommittedObservation)
    requires HandsInPlace(committed, handedOut) && r.observation.sequence == |committed|
    ensures HandsInPlace(committed + [r], handedOut + [r])
  {
    var more := handedOut + [r];
    forall i | 0 <= i < |more|
      ensures InPlace(committed + [r], more, i)
    {
      assert i < |handedOut| ==> InPlace(committed, handedOut, i);
    }
    forall i, j | 0 <= i < j < |more|
      ensures Before(more, i, j)
    {
      assert InPlace(committed, handedOut, i);
      assert j < |handedOut| ==> Before(handedOut, i, j);
    }
  }

  /** An append and a commit, as two steps of the log. */
  lemma TwoSteps(cfg: Config, s: WalState, o: Observation, at: Nanos)
    requires Usable(cfg) && WalRuns.Inv(cfg, s) && AppendError(cfg, s.log, o).None?
    ensures var log := s.log + [Observe(o)] + [Commit(at)];
            && CommitError(cfg, s.log + [Observe(o)]).None?
            && WalRuns.Inv(cfg, WalState(log, |Render(cfg.env, log)|))
            && Committed(cfg.env, s.log) <= Committed(cfg.env, log)
  {
    WriteThrough(cfg, s.log, o, at);
    StepKeepsInv(cfg, s, Append(o));
    StepKeepsInv(cfg, Step(cfg, s, Append(o)), GroupCommit(at));
  }

  lemma TakeKeepsWalInv(cfg: Config, t: Settings, l: Life, m: Message, at: Nanos)
    requires Usable(cfg) && LifeInv(cfg, l)
    ensures var l' := Live(cfg, t, l, Take(m, at));
            && WalRuns.Inv(cfg, WalState(l'.capture.log, l'.synced))
            && Committed(cfg.env, l.capture.log) <= Committed(cfg.env, l'.capture.log)
  {
    var c := l.capture;
    if Refusal(t, c, m).None? {
      var o := ObservationFor(t, c, m);
      if AppendError(cfg, c.log, o).None? {
        TwoSteps(cfg, WalState(c.log, l.synced), o, at);
        var l' := Live(cfg, t, l, Take(m, at));
        assert l'.capture.log == c.log + [Observe(o)] + [Commit(at)];
      }
    }
  }

  /** What one more record adds does not matter to a cut before it. */
  lemma CutShorter(cfg: Config, log: seq<Record>, r: Record, k: nat)
    requires k < |Render(cfg.env, log)|
    ensures Reopened(cfg, log + [r], k) == Reopened(cfg, log, k)
  {
    var all := log + [r];
    Snoc(log, r);
    assert all[..Whole(cfg.env, log, k)] == log[..Whole(cfg.env, log, k)];
    assert CutLog(cfg.env, all, k) == CutLog(cfg.env, log, k);
  }

  /** A crash inside a capture loses the observation, or leaves it committed although it was never returned. */
  ghost predicate LostOrCommitted(cfg: Config, log: seq<Record>, o: Observation, at: Nanos, s': WalState) {
    var v := cfg.env;
    var pending := Pending(v, log + [Observe(o)]);
    && WalRuns.Inv(cfg, s') && pending != []
    && (Committed(v, s'.log) == Committed(v, log)
        || Committed(v, s'.log) == Committed(v, log) + Stamped(pending, at, CommitOf(v, pending, at).hash))
  }

  lemma CrashInTakeKeeps(cfg: Config, s: WalState, o: Observation, at: Nanos, k: nat)
    requires Usable(cfg) && WalRuns.Inv(cfg, s) && AppendError(cfg, s.log, o).None? && s.synced <= k
    ensures LostOrCommitted(cfg, s.log, o, at, Reopened(cfg, s.log + [Observe(o)] + [Commit(at)], k))
  {
    AppendStep(cfg, s, o);
    CommittedAfter(cfg.env, s.log, o, at);
    AfterRecord(cfg.env, s.log, Observe(o));
    var s1 := WalState(s.log + [Observe(o)], s.synced);
    if k < |Render(cfg.env, s1.log)| {
      CrashBeforeSync(cfg, s1, at, k);
    } else {
      CrashAfterSync(cfg, s1, at, k);
    }
  }

  /** Before the first sync of the commit, nothing of the commit record is in the file. */
  lemma CrashBeforeSync(cfg: Config, s: WalState, at: Nanos, k: nat)
    requires Usable(cfg) && WalRuns.Inv(cfg, s) && s.synced <= k < |Render(cfg.env, s.log)|
    ensures var s' := Reopened(cfg, s.log + [Commit(at)], k);
            WalRuns.Inv(cfg, s') && Committed(cfg.env, s'.log) == Committed(cfg.env, s.log)
  {
    CutShorter(cfg, s.log, Commit(at), k);
    CrashKeepsInv(cfg, s, k);
  }

  lemma CrashAfterSync(cfg: Config, s: WalState, at: Nanos, k: nat)
    requires Usable(cfg) && WalRuns.Inv(cfg, s) && |Render(cfg.env, s.log)| <= k
    requires !IsSealed(s.log) && Pending(cfg.env, s.log) != []
    ensures var s' := Reopened(cfg, s.log + [Commit(at)], k);
            var v, pending := cfg.env, Pending(cfg.env, s.log);
            && WalRuns.Inv(cfg, s')
            && (Committed(v, s'.log) == Committed(v, s.log)
                || Committed(v, s'.log) == Committed(v, s.log) + Stamped(pending, at, CommitOf(v, pending, at).hash))
  {
    CommitCrash(cfg, s, at, k);
  }

  lemma LiveKeepsInv(cfg: Config, t: Settings, l: Life, e: CaptureEvent)
    requires Usable(cfg) && LifeInv(cfg, l)
    ensures LifeInv(cfg, Live(cfg, t, l, e))
  {
    if e.Take? {
      TakeKeepsInv(cfg, t, l, e.m, e.at);
    } else {
      CrashKeepsLife(cfg, t, l, e);
    }
  }

  lemma CrashKeepsLife(cfg: Config, t: Settings, l: Life, e: CaptureEvent)
    requires Usable(cfg) && LifeInv(cfg, l) && !e.Take?
    ensures var l' := Live(cfg, t, l, e);
            && LifeInv(cfg, l') && l'.handedOut == l.handedOut
            && Committed(cfg.env, l.capture.log) <= Committed(cfg.env, l'.capture.log)
  {
    var l' := Live(cfg, t, l, e);
    match e {
      case CrashAndResume(k, next) =>
        if l.synced <= k {
          CrashKeepsInv(cfg, WalState(l.capture.log, l.synced), k);
        }
      case CrashInTake(m, at, k, next) =>
        if Writes(cfg, t, l.capture, m) && l.synced <= k {
          CrashInTakeKeeps(cfg, WalState(l.capture.log, l.synced), ObservationFor(t, l.capture, m), at, k);
        }
    }
    HandsStay(Committed(cfg.env, l.capture.log), Committed(cfg.env, l'.capture.log), l.handedOut);
  }

  lemma TakeKeepsInv(cfg: Config, t: Settings, l: Life, m: Message, at: Nanos)
    requires Usable(cfg) && LifeInv(cfg, l)
    ensures LifeInv(cfg, Live(cfg, t, l, Take(m, at)))
  {
    var committed := Committed(cfg.env, l.capture.log);
    var (c, r) := Captured(cfg, t, l.capture, m, at);
    TakeKeepsWalInv(cfg, t, l, m, at);
    HandedOutIsCommitted(cfg, t, l.capture, m, at);
    if r.Ok? {
      HandOver(committed, l.handedOut, r.value);
    } else {
      HandsStay(committed, Committed(cfg.env, c.log), l.handedOut);
    }
  }

  /** What a step adds to the committed list and to the records handed out. */
  lemma LiveAdds(cfg: Config, t: Settings, l: Life, e: CaptureEvent)
    requires Usable(cfg) && LifeInv(cfg, l)
    ensures var l' := Live(cfg, t, l, e);
            && Committed(cfg.env, l.capture.log) <= Committed(cfg.env, l'.capture.log)
            && l.handedOut <= l'.handedOut
            && forall i | |l.handedOut| <= i < |l'.handedOut| ::
                 l'.handedOut[i].observation.sequence == |Committed(cfg.env, l.capture.log)|
  {
    if e.Take? {
      TakeKeepsWalInv(cfg, t, l, e.m, e.at);
      HandedOutIsCommitted(cfg, t, l.capture, e.m, e.at);
    } else {
      CrashKeepsLife(cfg, t, l, e);
    }
  }

  ghost function Lived(cfg: Config, t: Settings, events: seq<CaptureEvent>): (l: Life)
    requires Usable(cfg)
    ensures LifeInv(cfg, l)
    decreases |events|
  {
    if events == [] then BORN
    else
      var l := Lived(cfg, t, events[..|events| - 1]);
      LiveKeepsInv(cfg, t, l, events[|events| - 1]);
      Live(cfg, t, l, events[|events| - 1])
  }

  /** Over any run of captures, crashes and resumptions, whatever number the caller resumes at, no two
      records are handed out under one sequence number, and each of them is in the committed list. */
  lemma NeverTwoRecordsOneNumber(cfg: Config, t: Settings, events: seq<CaptureEvent>)
    requires Usable(cfg)
    ensures var l := Lived(cfg, t, events);
            && (forall i, j | 0 <= i < j < |l.handedOut| ::
                  l.handedOut[i].observation.sequence != l.handedOut[j].observation.sequence)
            && (forall r | r in l.handedOut :: r in Committed(cfg.env, l.capture.log))
  {
    var l := Lived(cfg, t, events);
    forall i, j | 0 <= i < j < |l.handedOut|
      ensures l.handedOut[i].observation.sequence != l.handedOut[j].observation.sequence
    {
      assert Before(l.handedOut, i, j);
    }
    forall r | r in l.handedOut
      ensures r in Committed(cfg.env, l.capture.log)
    {
      var i :| 0 <= i < |l.handedOut| && l.handedOut[i] == r;
      assert InPlace(Committed(cfg.env, l.capture.log), l.handedOut, i);
    }
  }

  /** Every record handed out after some moment has a number that was not committed at that moment, whatever
      number the caller resumes at. */
  lemma {:induction false} NumbersNeverReused(cfg: Config, t: Settings, events: seq<CaptureEvent>, i: nat)
    requires Usable(cfg) && i <= |events|
    ensures var l, l' := Lived(cfg, t, events[..i]), Lived(cfg, t, events);
            && Committed(cfg.env, l.capture.log) <= Committed(cfg.env, l'.capture.log)
            && l.handedOut <= l'.handedOut
            && forall j | |l.handedOut| <= j < |l'.handedOut| ::
                 |Committed(cfg.env, l.capture.log)| <= l'.handedOut[j].observation.sequence
    decreases |events|
  {
    if i < |events| {
      var front := events[..|events| - 1];
      assert front[..i] == events[..i];
      NumbersNeverReused(cfg, t, front, i);
      LiveAdds(cfg, t, Lived(cfg, t, front), events[|events| - 1]);
    } else {
      assert events[..i] == events;
    }
  }

  /** A record that a crash left committed but unreturned is never handed out, and neither is its number. */
  lemma UnreturnedStaysUnreturned(cfg: Config, t: Settings, events: seq<CaptureEvent>, i: nat)
    requires Usable(cfg) && i < |events| && events[i].CrashInTake?
    requires var l := Lived(cfg, t, events[..i]);
             |Committed(cfg.env, l.capture.log)| < |Committed(cfg.env, Lived(cfg, t, events[..i + 1]).capture.log)|
    ensures var n := |Committed(cfg.env, Lived(cfg, t, events[..i]).capture.log)|;
            var final := Lived(cfg, t, events);
            && n < |Committed(cfg.env, final.capture.log)|
            && forall j | 0 <= j < |final.handedOut| :: final.handedOut[j].observation.sequence != n
  {
    CrashHandsOutNothing(cfg, t, events, i);
    NumbersNeverReused(cfg, t, events, i + 1);
    NeverAt(cfg, Lived(cfg, t, events[..i]), Lived(cfg, t, events[..i + 1]), Lived(cfg, t, events));
  }

  lemma CrashHandsOutNothing(cfg: Config, t: Settings, events: seq<CaptureEvent>, i: nat)
    requires Usable(cfg) && i < |events| && events[i].CrashInTake?
    ensures Lived(cfg, t, events[..i + 1]).handedOut == Lived(cfg, t, events[..i]).handedOut
  {
    assert events[..i + 1][..i] == events[..i];
  }

  lemma NeverAt(cfg: Config, l: Life, l1: Life, final: Life)
    requires LifeInv(cfg, l) && l1.handedOut == l.handedOut && l.handedOut <= final.handedOut
    requires |Committed(cfg.env, l.capture.log)| < |Committed(cfg.env, l1.capture.log)|
    requires forall j | |l.handedOut| <= j < |final.handedOut| ::
               |Committed(cfg.env, l1.capture.log)| <= final.handedOut[j].observation.sequence
    ensures forall j | 0 <= j < |final.handedOut| ::
              final.handedOut[j].observation.sequence != |Committed(cfg.env, l.capture.log)|
  {
    forall j | 0 <= j < |l.handedOut|
      ensures final.handedOut[j].observation.sequence < |Committed(cfg.env, l.capture.log)|
    {
      assert InPlace(Committed(cfg.env, l.capture.log), l.handedOut, j);
    }
  }

  // ---------------------------------------------------------------- the writer

  class DurableSourceCapture {
    const settings: Settings
    const wal: Wal.FileWal
    var next: nat
    var poisoned: bool

    ghost predicate Valid()
      reads this, wal
    {
      wal.Valid() && next <= U64_MAX
    }

    ghost function State(): Capture
      reads this, wal
    {
      Capture(wal.log, next, poisoned)
    }

    /** Binds a session, at the given next number, to an opened log. */
    constructor (settings: Settings, wal: Wal.FileWal, next: nat)
      requires wal.Valid() && next <= U64_MAX
      ensures Valid() && this.settings == settings && this.wal == wal
      ensures State() == Capture(wal.log, next, false)
    {
      this.settings, this.wal, this.next, poisoned := settings, wal, next, false;
    }

    /** Makes one message durable and returns only its committed record. */
    method TakeMessage(m: Message, at: Nanos) returns (r: Result<CommittedObservation, CaptureError>)
      requires Valid()
      modifies this, wal
      ensures Valid()
      ensures (State(), r) == Captured(wal.cfg, settings, old(State()), m, at)
    {
      if poisoned {
        return Err(CaptureUnavailable);
      }
      if |m.payload| > settings.maxPayload {
        return Err(PayloadTooLarge(|m.payload|, settings.maxPayload));
      }
      if m.cursor.Some? && |m.cursor.value| > MAX_CURSOR_BYTES {
        return Err(SourceCursorTooLarge);
      }
      if next == U64_MAX {
        return Err(SequenceExhausted);
      }
      var body := settings.build(m);
      if body.None? {
        return Err(InvalidObservation);
      }
      var observation := Observation(settings.session, next, body.value);
      var appended := wal.Append(observation);
      if appended.Err? {
        poisoned := true;
        return Err(WalFailed(appended.error));
      }
      var committed := wal.GroupCommit(at);
      poisoned := committed.Err?;
      match committed {
        case Err(e) => return Err(WalFailed(e));
        case Ok(range) => r := Returned(observation, range);
      }
    }

    /** Checks that a commit covers just the new observation, and returns its record. */
    method Returned(observation: Observation, range: Wal.CommittedRange) returns (r: Result<CommittedObservation, CaptureError>)
      modifies this`poisoned, this`next
      ensures if range.first != old(next) || range.last != old(next) then
                poisoned && next == old(next) && r == Err(CommitRangeMismatch(next, range.first, range.last))
              else poisoned == old(poisoned) && next == SaturatingSucc(old(next))
                   && r == Ok(CommittedObservation(observation, range.durableAt, range.hash))
    {
      if range.first != next || range.last != next {
        poisoned := true;
        return Err(CommitRangeMismatch(next, range.first, range.last));
      }
      next := SaturatingSucc(next);
      return Ok(CommittedObservation(observation, range.durableAt, range.hash));
    }
  }
}
