/** The mempool alert evaluator as a function of the snapshot stream. */
module AlertSpec {
  import opened Prelude

  const I64_MAX: nat := 0x7FFF_FFFF_FFFF_FFFF

  datatype DegradedPolicy = Suppress | EvaluateHealthyQuorum
  datatype Cause = Observed | Recovered | Correction
  datatype Completeness = Complete | KnownIncomplete | Unknown

  type Persistence = n: nat | 1 <= n <= U16_MAX witness 1
  type Seconds = n: nat | n <= I64_MAX

  datatype Definition = Definition(alertId: string, minFeeRate: nat, threshold: nat, quorum: nat, forEvaluations: Persistence,
                                   cooldown: Seconds, policy: DegradedPolicy)

  datatype Snapshot = Snapshot(network: string, revision: nat, at: Seconds, minFeeRate: nat, vbytes: nat, quorum: nat,
                               eligible: seq<string>, unavailable: seq<string>, completeness: Completeness, cause: Cause)

  datatype Transition =
    | Pending | Triggered | Confirmed | Corrected | Retracted
    | DegradedSource | BelowThreshold | CooldownSuppressed | DuplicateRevision

  datatype AlertError =
    | FeeBandMismatch
    | QuorumMismatch
    | RevisionRegression(current: nat, attempted: nat)
    | ConflictingRevision(revision: nat)
    | EvaluationTimeRegression

  datatype Evaluator = Evaluator(consecutive: nat, active: bool, last: Option<Snapshot>, lastTrigger: Option<Seconds>)

  /** `active` and `consecutive` are the values after the evaluation. */
  datatype Evaluation = Evaluation(transition: Transition, delivery: bool, active: bool, consecutive: nat)

  const START := Evaluator(0, false, None, None)

  // ---------------------------------------------------------------- one evaluation

  predicate Delivers(t: Transition) {
    t == Triggered || t == Corrected || t == Retracted
  }

  function OrderError(d: Definition, v: Evaluator, s: Snapshot): Option<AlertError> {
    if s.minFeeRate != d.minFeeRate then Some(FeeBandMismatch)
    else if s.quorum != d.quorum then Some(QuorumMismatch)
    else if v.last.Some? && s.revision < v.last.value.revision then
      Some(RevisionRegression(v.last.value.revision, s.revision))
    else if v.last.Some? && s.revision == v.last.value.revision && v.last != Some(s) then
      Some(ConflictingRevision(s.revision))
    else if v.last.Some? && s.at < v.last.value.at then Some(EvaluationTimeRegression)
    else None
  }

  predicate Degraded(d: Definition, s: Snapshot) {
    || |s.eligible| < d.quorum
    || ((s.completeness == KnownIncomplete || s.unavailable != []) && d.policy == Suppress)
  }

  /** The evidence holds and the threshold is exceeded. */
  predicate Above(d: Definition, s: Snapshot) {
    !Degraded(d, s) && s.vbytes > d.threshold
  }

  function Capped(n: nat, limit: nat): nat {
    if n < limit then n else limit
  }

  predicate InsideCooldown(d: Definition, v: Evaluator, at: Seconds) {
    v.lastTrigger.Some? && at < Capped(v.lastTrigger.value + d.cooldown, I64_MAX)
  }

  /** A snapshot that is neither refused nor a repeat. */
  function Advance(d: Definition, v: Evaluator, s: Snapshot): (Evaluator, Transition) {
    var seen := v.(last := Some(s));
    if Degraded(d, s) then (seen.(consecutive := 0), DegradedSource)
    else if s.vbytes <= d.threshold then
      (seen.(consecutive := 0, active := false),
       if !v.active then BelowThreshold else if s.cause == Correction then Corrected else Retracted)
    else
      var more := seen.(consecutive := Capped(v.consecutive + 1, U16_MAX));
      if v.active then (more, Confirmed)
      else if more.consecutive < d.forEvaluations then (more, Pending)
      else if InsideCooldown(d, v, s.at) then (more, CooldownSuppressed)
      else (more.(active := true, lastTrigger := Some(s.at)), Triggered)
  }

  function Evaluate(d: Definition, v: Evaluator, s: Snapshot): (Evaluator, Result<Evaluation, AlertError>) {
    var e := OrderError(d, v, s);
    if e.Some? then (v, Err(e.value))
    else if v.last == Some(s) then (v, Ok(Evaluation(DuplicateRevision, false, v.active, v.consecutive)))
    else
      var (v', t) := Advance(d, v, s);
      (v', Ok(Evaluation(t, Delivers(t), v'.active, v'.consecutive)))
  }

  // ---------------------------------------------------------------- streams

  function Run(d: Definition, snapshots: seq<Snapshot>): Evaluator {
    if snapshots == [] then START
    else Evaluate(d, Run(d, snapshots[..|snapshots| - 1]), snapshots[|snapshots| - 1]).0
  }

  datatype Entry = Entry(s: Snapshot, t: Transition)

  /** The snapshots of a stream that were neither refused nor repeats, with what came of them. */
  function Log(d: Definition, snapshots: seq<Snapshot>): seq<Entry> {
    if snapshots == [] then []
    else
      var front, s := snapshots[..|snapshots| - 1], snapshots[|snapshots| - 1];
      Logged(Log(d, front), s, Evaluate(d, Run(d, front), s).1)
  }

  function Logged(log: seq<Entry>, s: Snapshot, r: Result<Evaluation, AlertError>): seq<Entry> {
    if r.Ok? && r.value.transition != DuplicateRevision then log + [Entry(s, r.value.transition)] else log
  }

  /** How many snapshots at the end of the log were above the threshold on good evidence. */
  function Streak(d: Definition, log: seq<Entry>): nat {
    if log == [] || !Above(d, log[|log| - 1].s) then 0 else Streak(d, log[..|log| - 1]) + 1
  }

  lemma {:induction false} StreakMeans(d: Definition, log: seq<Entry>, n: nat)
    ensures Streak(d, log) <= |log|
    ensures n <= Streak(d, log) ==> forall i | |log| - n <= i < |log| :: Above(d, log[i].s)
    decreases |log|
  {
    if log != [] {
      StreakMeans(d, log[..|log| - 1], if n == 0 then 0 else n - 1);
    }
  }

  function Deliveries(log: seq<Entry>): seq<Entry> {
    if log == [] then []
    else
      var front := Deliveries(log[..|log| - 1]);
      if Delivers(log[|log| - 1].t) then front + [log[|log| - 1]] else front
  }

  /** Deliveries are Triggered, then Corrected or Retracted, then Triggered again. */
  ghost predicate Alternate(ds: seq<Entry>) {
    forall i | 0 <= i < |ds| :: ds[i].t == Triggered <==> i % 2 == 0
  }

  /** The alert is on when the last delivery was a trigger. */
  predicate On(log: seq<Entry>) {
    |Deliveries(log)| % 2 == 1
  }

  ghost predicate Rested(d: Definition, log: seq<Entry>, k: nat, at: Seconds)
    requires k < |log|
  {
    log[k].t == Triggered ==> Capped(log[k].s.at + d.cooldown, I64_MAX) <= at
  }

  /** A cooldown has passed since every earlier trigger, or the clock is at its largest value. */
  ghost predicate AllRested(d: Definition, log: seq<Entry>, at: Seconds) {
    forall k {:trigger Rested(d, log, k, at)} | 0 <= k < |log| :: Rested(d, log, k, at)
  }

  /** What a snapshot should bring, said in terms of the earlier log alone. */
  ghost predicate Expected(d: Definition, log: seq<Entry>, e: Entry) {
    && (e.t == Triggered <==>
         Above(d, e.s) && !On(log) && d.forEvaluations <= Streak(d, log) + 1 && AllRested(d, log, e.s.at))
    && (e.t == Corrected || e.t == Retracted <==> On(log) && !Degraded(d, e.s) && e.s.vbytes <= d.threshold)
    && (e.t == Corrected ==> e.s.cause == Correction) && (e.t == Retracted ==> e.s.cause != Correction)
    && (e.t == DegradedSource <==> Degraded(d, e.s))
    && (e.t == BelowThreshold <==> !On(log) && !Degraded(d, e.s) && e.s.vbytes <= d.threshold)
    && (e.t == Confirmed <==> Above(d, e.s) && On(log))
    && (e.t == Pending <==> Above(d, e.s) && !On(log) && Streak(d, log) + 1 < d.forEvaluations)
    && (e.t == CooldownSuppressed <==>
          Above(d, e.s) && !On(log) && d.forEvaluations <= Streak(d, log) + 1 && !AllRested(d, log, e.s.at))
  }

  ghost predicate Explained(d: Definition, log: seq<Entry>, i: nat)
    requires i < |log|
  {
    Expected(d, log[..i], log[i])
  }

  ghost predicate AllExplained(d: Definition, log: seq<Entry>) {
    forall i {:trigger Explained(d, log, i)} | 0 <= i < |log| :: Explained(d, log, i)
  }

  /** The recorded trigger time is the latest one in the log. */
  ghost predicate LatestTrigger(log: seq<Entry>, last: Option<Seconds>) {
    && (forall i | 0 <= i < |log| && log[i].t == Triggered :: last.Some? && log[i].s.at <= last.value)
    && (last.Some? ==> exists i | 0 <= i < |log| :: log[i].t == Triggered && log[i].s.at == last.value)
  }

  ghost predicate Later(log: seq<Entry>, i: nat, j: nat)
    requires i < j < |log|
  {
    log[i].s.revision < log[j].s.revision && log[i].s.at <= log[j].s.at
  }

  ghost predicate InOrder(log: seq<Entry>) {
    forall i, j {:trigger Later(log, i, j)} | 0 <= i < j < |log| :: Later(log, i, j)
  }

  ghost predicate Inv(d: Definition, v: Evaluator, log: seq<Entry>) {
    && v.consecutive == Capped(Streak(d, log), U16_MAX)
    && Alternate(Deliveries(log)) && (v.active <==> On(log))
    && v.last == (if log == [] then None else Some(log[|log| - 1].s)) && InOrder(log)
    && LatestTrigger(log, v.lastTrigger) && AllExplained(d, log)
  }

  // ---------------------------------------------------------------- one more entry

  lemma StreakSnoc(d: Definition, log: seq<Entry>, e: Entry)
    ensures Streak(d, log + [e]) == if Above(d, e.s) then Streak(d, log) + 1 else 0
  {
    assert (log + [e])[..|log|] == log;
  }

  lemma DeliveriesSnoc(log: seq<Entry>, e: Entry)
    requires Alternate(Deliveries(log)) && (Delivers(e.t) ==> (e.t == Triggered <==> !On(log)))
    ensures Alternate(Deliveries(log + [e])) && (On(log + [e]) <==> On(log) != Delivers(e.t))
  {
    assert (log + [e])[..|log|] == log;
    assert (|Deliveries(log)| + 1) % 2 == 1 - |Deliveries(log)| % 2;
  }

  lemma OrderSnoc(log: seq<Entry>, e: Entry)
    requires InOrder(log)
    requires log != [] ==> log[|log| - 1].s.revision < e.s.revision && log[|log| - 1].s.at <= e.s.at
    ensures InOrder(log + [e])
  {
    var more := log + [e];
    forall i, j | 0 <= i < j < |more|
      ensures Later(more, i, j)
    {
      assert j < |log| ==> Later(log, i, j);
      assert j == |log| && i < |log| - 1 ==> Later(log, i, |log| - 1);
    }
  }

  lemma LatestSnoc(log: seq<Entry>, last: Option<Seconds>, e: Entry)
    requires LatestTrigger(log, last) && InOrder(log) && (log != [] ==> log[|log| - 1].s.at <= e.s.at)
    ensures LatestTrigger(log + [e], if e.t == Triggered then Some(e.s.at) else last)
  {
    var more := log + [e];
    forall i | 0 <= i < |log|
      ensures log[i].s.at <= e.s.at
    {
      assert i < |log| - 1 ==> Later(log, i, |log| - 1);
    }
    if e.t == Triggered {
      assert more[|log|].t == Triggered;
    } else if last.Some? {
      var i :| 0 <= i < |log| && log[i].t == Triggered && log[i].s.at == last.value;
      assert more[i].t == Triggered;
    }
  }

  /** The one recorded trigger time decides for all triggers. */
  lemma CooldownIsRest(d: Definition, v: Evaluator, log: seq<Entry>, at: Seconds)
    requires LatestTrigger(log, v.lastTrigger)
    ensures InsideCooldown(d, v, at) <==> !AllRested(d, log, at)
  {
    if v.lastTrigger.Some? {
      var k :| 0 <= k < |log| && log[k].t == Triggered && log[k].s.at == v.lastTrigger.value;
      assert InsideCooldown(d, v, at) ==> !Rested(d, log, k, at);
      forall i | 0 <= i < |log|
        ensures !InsideCooldown(d, v, at) ==> Rested(d, log, i, at)
      {
      }
    }
  }

  lemma ExplainedSnoc(d: Definition, log: seq<Entry>, e: Entry)
    requires AllExplained(d, log) && Expected(d, log, e)
    ensures AllExplained(d, log + [e])
  {
    var more := log + [e];
    forall i | 0 <= i < |more|
      ensures Explained(d, more, i)
    {
      if i < |log| {
        assert Explained(d, log, i) && more[..i] == log[..i];
      } else {
        assert more[..i] == log;
      }
    }
  }

  lemma AdvanceIsExpected(d: Definition, v: Evaluator, log: seq<Entry>, s: Snapshot)
    requires Inv(d, v, log)
    ensures Expected(d, log, Entry(s, Advance(d, v, s).1))
  {
    CooldownIsRest(d, v, log, s.at);
  }

  lemma AdvanceKeepsInv(d: Definition, v: Evaluator, log: seq<Entry>, s: Snapshot)
    requires Inv(d, v, log) && OrderError(d, v, s).None? && v.last != Some(s)
    ensures Inv(d, Advance(d, v, s).0, log + [Entry(s, Advance(d, v, s).1)])
  {
    var (v', t) := Advance(d, v, s);
    var e := Entry(s, t);
    StreakSnoc(d, log, e);
    DeliveriesSnoc(log, e);
    OrderSnoc(log, e);
    LatestSnoc(log, v.lastTrigger, e);
    AdvanceIsExpected(d, v, log, s);
    ExplainedSnoc(d, log, e);
  }

  // ---------------------------------------------------------------- all streams

  lemma {:induction false} RunKeepsInv(d: Definition, snapshots: seq<Snapshot>)
    ensures Inv(d, Run(d, snapshots), Log(d, snapshots))
    decreases |snapshots|
  {
    if snapshots != [] {
      var front, s := snapshots[..|snapshots| - 1], snapshots[|snapshots| - 1];
      RunKeepsInv(d, front);
      var v := Run(d, front);
      if OrderError(d, v, s).None? && v.last != Some(s) {
        AdvanceKeepsInv(d, v, Log(d, front), s);
      }
    }
  }

  /** Over any stream the deliveries alternate between Triggered and Corrected or Retracted. */
  lemma DeliveriesAlternate(d: Definition, snapshots: seq<Snapshot>)
    ensures Alternate(Deliveries(Log(d, snapshots))) && (Run(d, snapshots).active <==> On(Log(d, snapshots)))
  {
    RunKeepsInv(d, snapshots);
  }

  /** The evidence does not count: too few sources, or gaps under a definition that suppresses then. */
  predicate Weak(d: Definition, s: Snapshot) {
    |s.eligible| < d.quorum || (d.policy == Suppress && (s.completeness == KnownIncomplete || |s.unavailable| > 0))
  }

  /** What comes of every evaluated snapshot of a stream, from the snapshot and the log before it. */
  lemma TransitionIs(d: Definition, snapshots: seq<Snapshot>, i: nat)
    requires i < |Log(d, snapshots)|
    ensures var before, s, t := Log(d, snapshots)[..i], Log(d, snapshots)[i].s, Log(d, snapshots)[i].t;
            t == if Weak(d, s) then DegradedSource
                 else if s.vbytes <= d.threshold then
                   if !On(before) then BelowThreshold else if s.cause == Correction then Corrected else Retracted
                 else if On(before) then Confirmed
                 else if Streak(d, before) + 1 < d.forEvaluations then Pending
                 else if AllRested(d, before, s.at) then Triggered
                 else CooldownSuppressed
  {
    RunKeepsInv(d, snapshots);
    assert Explained(d, Log(d, snapshots), i);
  }

  /** A snapshot is evaluated if and only if it has the band and quorum of the definition and is the last evaluated one
      again, or comes after it by revision and not before it by time. */
  lemma EvaluatedIff(d: Definition, snapshots: seq<Snapshot>, s: Snapshot)
    ensures var log, r := Log(d, snapshots), Evaluate(d, Run(d, snapshots), s).1;
            var fits := s.minFeeRate == d.minFeeRate && s.quorum == d.quorum;
            && (r.Ok? <==> fits && (log == [] || Repeats(log, s) || Comes(log, s)))
            && (r.Ok? ==> (r.value.transition == DuplicateRevision <==> log != [] && Repeats(log, s)))
            && (r == Err(FeeBandMismatch) <==> s.minFeeRate != d.minFeeRate)
            && (r == Err(QuorumMismatch) <==> s.minFeeRate == d.minFeeRate && s.quorum != d.quorum)
            && (log != [] ==>
                  var last := log[|log| - 1].s;
                  && (r == Err(RevisionRegression(last.revision, s.revision)) <==> fits && s.revision < last.revision)
                  && (r == Err(ConflictingRevision(s.revision)) <==> fits && s.revision == last.revision && s != last)
                  && (r == Err(EvaluationTimeRegression) <==> fits && s.revision > last.revision && s.at < last.at))
  {
    RunKeepsInv(d, snapshots);
    NeverDuplicate(d, Run(d, snapshots), s);
  }

  predicate Repeats(log: seq<Entry>, s: Snapshot)
    requires log != []
  {
    log[|log| - 1].s == s
  }

  predicate Comes(log: seq<Entry>, s: Snapshot)
    requires log != []
  {
    log[|log| - 1].s.revision < s.revision && log[|log| - 1].s.at <= s.at
  }

  /** What an evaluation reports: whether it is delivered, whether the alert is on afterwards, and the streak up to 65535. */
  lemma EvaluationReports(d: Definition, snapshots: seq<Snapshot>, s: Snapshot)
    requires Evaluate(d, Run(d, snapshots), s).1.Ok?
    ensures var e := Evaluate(d, Run(d, snapshots), s).1.value;
            var log := Log(d, snapshots + [s]);
            && (e.delivery <==> e.transition == Triggered || e.transition == Corrected || e.transition == Retracted)
            && (e.active <==> On(log))
            && e.consecutive == if Streak(d, log) < 0xFFFF then Streak(d, log) else 0xFFFF
  {
    RunSnoc(d, snapshots, s);
    RunKeepsInv(d, snapshots + [s]);
  }

  /** A snapshot triggers exactly when the alert is off, it ends a long enough streak, and every earlier
      trigger is a cooldown ago. */
  lemma TriggersExactlyWhen(d: Definition, snapshots: seq<Snapshot>, i: nat)
    requires i < |Log(d, snapshots)|
    ensures var log := Log(d, snapshots);
            log[i].t == Triggered <==>
              && Above(d, log[i].s) && !On(log[..i]) && d.forEvaluations <= Streak(d, log[..i]) + 1
              && AllRested(d, log[..i], log[i].s.at)
  {
    RunKeepsInv(d, snapshots);
    assert Explained(d, Log(d, snapshots), i);
  }

  /** The snapshots before a trigger, and the one that triggers, are all above the threshold on good evidence. */
  lemma TriggerNeedsPersistence(d: Definition, snapshots: seq<Snapshot>, i: nat, k: nat)
    requires i < |Log(d, snapshots)| && Log(d, snapshots)[i].t == Triggered && i - d.forEvaluations < k <= i
    ensures d.forEvaluations <= i + 1 && Above(d, Log(d, snapshots)[k].s)
  {
    TriggersExactlyWhen(d, snapshots, i);
    StreakMeans(d, Log(d, snapshots)[..i], d.forEvaluations - 1);
  }

  /** Two triggers are at least the cooldown apart, unless that would pass the largest clock value. */
  lemma TriggersAreApart(d: Definition, snapshots: seq<Snapshot>, i: nat, j: nat)
    requires i < j < |Log(d, snapshots)|
    requires Log(d, snapshots)[i].t == Triggered && Log(d, snapshots)[j].t == Triggered
    ensures var log := Log(d, snapshots);
            Capped(log[i].s.at + d.cooldown, I64_MAX) <= log[j].s.at
  {
    var log := Log(d, snapshots);
    TriggersExactlyWhen(d, snapshots, j);
    assert Rested(d, log[..j], i, log[j].s.at);
  }

  /** Refused and immediately repeated snapshots can be dropped from a stream without any effect, then or later. */
  lemma {:induction false} InertSnapshotsDrop(d: Definition, a: seq<Snapshot>, s: Snapshot, b: seq<Snapshot>)
    requires OrderError(d, Run(d, a), s).Some? || Run(d, a).last == Some(s)
    ensures Run(d, a + [s] + b) == Run(d, a + b) && Log(d, a + [s] + b) == Log(d, a + b)
    decreases |b|
  {
    if b == [] {
      assert a + [s] + b == a + [s] && (a + [s])[..|a|] == a && a + b == a;
    } else {
      var front, last := b[..|b| - 1], b[|b| - 1];
      InertSnapshotsDrop(d, a, s, front);
      assert a + [s] + b == (a + [s] + front) + [last] && a + b == (a + front) + [last];
      RunSnoc(d, a + [s] + front, last);
      RunSnoc(d, a + front, last);
    }
  }

  lemma RunSnoc(d: Definition, front: seq<Snapshot>, s: Snapshot)
    ensures Run(d, front + [s]) == Evaluate(d, Run(d, front), s).0
    ensures Log(d, front + [s]) == Logged(Log(d, front), s, Evaluate(d, Run(d, front), s).1)
  {
    assert (front + [s])[..|front|] == front;
  }

  // ---------------------------------------------------------------- identities

  /** The two digests: of a definition, a snapshot and a transition, and of an evaluation's identity. */
  datatype Digests = Digests(evaluation: (Definition, Snapshot, Transition) -> string, outbox: string -> string)

  /** An evaluation with its identity and, when it has to be delivered, the key its sinks deduplicate by. */
  datatype Identified = Identified(evaluation: Evaluation, id: string, outboxKey: Option<string>)

  function IdOf(n: Digests, d: Definition, e: Entry): string {
    n.evaluation(d, e.s, e.t)
  }

  function LastId(n: Digests, d: Definition, log: seq<Entry>): Option<string> {
    if log == [] then None else Some(IdOf(n, d, log[|log| - 1]))
  }

  /** A repeat carries the identity of the evaluation it repeats. */
  function Identify(n: Digests, d: Definition, lastId: Option<string>, s: Snapshot, e: Evaluation): Identified
    requires e.transition == DuplicateRevision ==> lastId.Some?
  {
    var id := if e.transition == DuplicateRevision then lastId.value else n.evaluation(d, s, e.transition);
    Identified(e, id, if e.delivery then Some(n.outbox(id)) else None)
  }

  /** In any stream, a snapshot that is repeated at once is answered with the identity it was first given, and
      nothing is delivered for it. */
  lemma RepeatKeepsIdentity(n: Digests, d: Definition, snapshots: seq<Snapshot>, s: Snapshot)
    requires var r := Evaluate(d, Run(d, snapshots), s).1; r.Ok? && r.value.transition == DuplicateRevision
    ensures var log, e := Log(d, snapshots), Evaluate(d, Run(d, snapshots), s).1.value;
            && log != [] && log[|log| - 1].s == s
            && Identify(n, d, LastId(n, d, log), s, e) == Identified(e, IdOf(n, d, log[|log| - 1]), None)
  {
    RunKeepsInv(d, snapshots);
    if Run(d, snapshots).last != Some(s) {
      NeverDuplicate(d, Run(d, snapshots), s);
    }
  }

  lemma NeverDuplicate(d: Definition, v: Evaluator, s: Snapshot)
    ensures Advance(d, v, s).1 != DuplicateRevision
  {
  }

  ghost predicate NoCollision(n: Digests, d: Definition) {
    && (forall s, s', t, t' | n.evaluation(d, s, t) == n.evaluation(d, s', t') :: s == s' && t == t')
    && (forall x, y | n.outbox(x) == n.outbox(y) :: x == y)
  }

  /** While the digests do not collide, no two deliveries of a stream share a key. */
  lemma KeysAreDistinct(n: Digests, d: Definition, snapshots: seq<Snapshot>, i: nat, j: nat)
    requires NoCollision(n, d) && i < j < |Log(d, snapshots)|
    ensures var log := Log(d, snapshots); n.outbox(IdOf(n, d, log[i])) != n.outbox(IdOf(n, d, log[j]))
  {
    RunKeepsInv(d, snapshots);
    assert Later(Log(d, snapshots), i, j);
  }
}
