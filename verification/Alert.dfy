/** The alert evaluator as the service holds it. */
module AlertEngine {
  import opened Prelude
  import opened AlertSpec

  class MempoolAlertEvaluator {
    const definition: Definition
    const digests: Digests
    var consecutiveTrue: nat
    var active: bool
    var lastRevision: Option<nat>
    var lastObservedAt: Option<Seconds>
    var lastSnapshot: Option<Snapshot>
    var lastEvaluationId: Option<string>
    var lastTriggerAt: Option<Seconds>
    ghost var log: seq<Entry>

    function State(): Evaluator
      reads this
    {
      Evaluator(consecutiveTrue, active, lastSnapshot, lastTriggerAt)
    }

    /** The `last` fields speak of the same snapshot and its evaluation. */
    ghost predicate Valid()
      reads this
    {
      && Inv(definition, State(), log) && lastEvaluationId == LastId(digests, definition, log)
      && (match lastSnapshot
          case None => lastRevision == None && lastObservedAt == None
          case Some(s) => lastRevision == Some(s.revision) && lastObservedAt == Some(s.at))
    }

    constructor (definition: Definition, digests: Digests)
      ensures Valid() && State() == START && log == []
      ensures this.definition == definition && this.digests == digests
    {
      this.definition, this.digests := definition, digests;
      consecutiveTrue, active := 0, false;
      lastRevision, lastObservedAt, lastSnapshot, lastEvaluationId, lastTriggerAt := None, None, None, None, None;
      log := [];
    }

    method Validate(s: Snapshot) returns (e: Option<AlertError>)
      requires Valid()
      ensures e == OrderError(definition, State(), s)
    {
      if s.minFeeRate != definition.minFeeRate {
        return Some(FeeBandMismatch);
      }
      if s.quorum != definition.quorum {
        return Some(QuorumMismatch);
      }
      if lastRevision.Some? {
        if s.revision < lastRevision.value {
          return Some(RevisionRegression(lastRevision.value, s.revision));
        }
        if s.revision == lastRevision.value && lastSnapshot != Some(s) {
          return Some(ConflictingRevision(s.revision));
        }
      }
      if lastObservedAt.Some? && s.at < lastObservedAt.value {
        return Some(EvaluationTimeRegression);
      }
      e := None;
    }

    method Evaluate(s: Snapshot) returns (r: Result<Identified, AlertError>)
      requires Valid()
      modifies this
      ensures Valid()
      ensures var (v, e) := AlertSpec.Evaluate(definition, old(State()), s);
              && State() == v
              && log == Logged(old(log), s, e)
              && match e
                 case Err(error) => r == Err(error)
                 case Ok(evaluation) =>
                   && (evaluation.transition == DuplicateRevision ==> old(lastEvaluationId).Some?)
                   && r == Ok(Identify(digests, definition, old(lastEvaluationId), s, evaluation))
    {
      ghost var v := State();
      var e := Validate(s);
      if e.Some? {
        return Err(e.value);
      }
      if lastSnapshot == Some(s) {
        var repeat := Evaluation(DuplicateRevision, false, active, consecutiveTrue);
        return Ok(Identified(repeat, lastEvaluationId.value, None));
      }
      NeverDuplicate(definition, v, s);
      var evaluation := EvaluateNew(s);
      r := Ok(evaluation);
    }

    /** A snapshot that is neither refused nor a repeat. */
    method EvaluateNew(s: Snapshot) returns (r: Identified)
      requires Valid() && OrderError(definition, State(), s).None? && lastSnapshot != Some(s)
      modifies this
      ensures Valid()
      ensures var (v, t) := Advance(definition, old(State()), s);
              && State() == v && log == old(log) + [Entry(s, t)]
              && r.evaluation == Evaluation(t, Delivers(t), v.active, v.consecutive)
              && r.id == digests.evaluation(definition, s, t)
              && r.outboxKey == if Delivers(t) then Some(digests.outbox(r.id)) else None
    {
      ghost var v := State();
      AdvanceKeepsInv(definition, v, log, s);
      var transition := Move(s);
      var delivery := Delivers(transition);
      var id := digests.evaluation(definition, s, transition);
      var outboxKey := if delivery then Some(digests.outbox(id)) else None;
      lastRevision, lastObservedAt, lastSnapshot, lastEvaluationId := Some(s.revision), Some(s.at), Some(s), Some(id);
      log := log + [Entry(s, transition)];
      assert (State(), transition) == Advance(definition, v, s);
      r := Identified(Evaluation(transition, delivery, active, consecutiveTrue), id, outboxKey);
    }

    /** The state change of an evaluation, without the record of the snapshot itself. */
    method Move(s: Snapshot) returns (t: Transition)
      modifies this`consecutiveTrue, this`active, this`lastTriggerAt
      ensures (State().(last := Some(s)), t) == Advance(definition, old(State()), s)
    {
      var insufficient := |s.eligible| < definition.quorum;
      var incomplete := s.completeness == KnownIncomplete || s.unavailable != [];
      if insufficient || (incomplete && definition.policy == Suppress) {
        consecutiveTrue := 0;
        return DegradedSource;
      }
      if s.vbytes <= definition.threshold {
        consecutiveTrue := 0;
        if active {
          active := false;
          return if s.cause == Correction then Corrected else Retracted;
        }
        return BelowThreshold;
      }
      consecutiveTrue := Capped(consecutiveTrue + 1, U16_MAX);
      if active {
        return Confirmed;
      }
      if consecutiveTrue < definition.forEvaluations {
        return Pending;
      }
      if lastTriggerAt.Some? && s.at < Capped(lastTriggerAt.value + definition.cooldown, I64_MAX) {
        return CooldownSuppressed;
      }
      active := true;
      lastTriggerAt := Some(s.at);
      t := Triggered;
    }
  }
}
