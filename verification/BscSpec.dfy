/** The BSC tracker: commits, reorganisations and fast-finality observations. */
module BscSpec {
  import opened Prelude
  import opened ExecutionChain
  import opened ExecutionAncestry

  /** Times are in milliseconds; the source only compares and stores them. */
  datatype Tracker = Tracker(l: Ledger, finalized: Option<Hash>, lastObserved: Option<nat>, lastChange: Option<nat>)

  datatype Observation = Observation(finalized: Hash, head: Hash, at: nat)

  const START := Tracker(EMPTY, None, None, None)

  // ---------------------------------------------------------------- operations

  function Commit(t: Tracker, s: seq<Block>): (Tracker, Result<seq<Revision>, ChainError>) {
    var (l', r) := ExecutionChain.Commit(t.l, s);
    (t.(l := l'), r)
  }

  function Reorg(t: Tracker, removed: seq<Block>, added: seq<Block>): (Tracker, Result<seq<Revision>, ChainError>) {
    var (l', r) := ExecutionChain.Reorg(Bsc, t.l, t.finalized, removed, added);
    (t.(l := l'), r)
  }

  /** An observation is refused by its time and by the numbers of its blocks, once they are canonical. */
  function ObservationError(t: Tracker, o: Observation): Option<ChainError>
    requires t.finalized.Some? ==> t.finalized.value in t.l.blocks
  {
    if t.lastObserved.Some? && o.at <= t.lastObserved.value then Some(ObservationTimeRegression)
    else if LookupError(t.l, o.head).Some? then LookupError(t.l, o.head)
    else if LookupError(t.l, o.finalized).Some? then LookupError(t.l, o.finalized)
    else if t.l.head != Some(o.head) || Number(t.l, o.head) < Number(t.l, o.finalized) then Some(InvalidAncestry)
    else if t.finalized.Some? && !Advances(t.l, t.finalized.value, o.finalized) then
      Some(FinalizedRegression(t.finalized.value, o.finalized))
    else None
  }

  function ObserveFinalized(t: Tracker, o: Observation): (Tracker, Result<seq<Revision>, ChainError>)
    requires t.finalized.Some? ==> t.finalized.value in t.l.blocks
  {
    var e := ObservationError(t, o);
    if e.Some? then (t, Err(e.value))
    else
      (Tracker(t.l.(revision := t.l.revision + 1), Some(o.finalized), Some(o.at),
               if t.finalized != Some(o.finalized) then Some(o.at) else t.lastChange),
       Ok([Revision(t.l.blocks[o.finalized], Finalized, t.l.revision + 1)]))
  }

  // ---------------------------------------------------------------- invariant

  /** The index is a run of numbers that ends at the head; by parent links the head leads to the finalized block;
      the last change of finality is not after the last observation. */
  ghost predicate Inv(w: World, t: Tracker) {
    && Good(w, t.l)
    && (t.finalized.Some? ==> UnderHead(w, t.l, t.finalized.value))
    && (t.finalized.Some? <==> t.lastChange.Some?) && (t.lastChange.Some? <==> t.lastObserved.Some?)
    && (t.lastChange.Some? ==> t.lastChange.value <= t.lastObserved.value)
  }

  lemma CommitKeepsInv(w: World, t: Tracker, s: seq<Block>)
    requires Inv(w, t) && Identified(w, s)
    ensures Inv(w, Commit(t, s).0)
  {
    CommitKeeps(w, t.l, s);
    if t.finalized.Some? {
      CommitKeepsAncestor(w, t.l, s, t.finalized.value);
    }
  }

  lemma ReorgKeepsInv(w: World, t: Tracker, removed: seq<Block>, added: seq<Block>)
    requires Inv(w, t) && Identified(w, removed) && Identified(w, added)
    ensures Inv(w, Reorg(t, removed, added).0)
  {
    ReorgKeeps(w, Bsc, t.l, t.finalized, removed, added);
    if t.finalized.Some? && ReorgError(Bsc, t.l, t.finalized, removed, added).None? {
      ReorgKeepsAncestor(w, Bsc, t.l, t.finalized, removed, added, t.finalized.value);
    }
  }

  lemma ObservationKeepsInv(w: World, t: Tracker, o: Observation)
    requires Inv(w, t)
    ensures Inv(w, ObserveFinalized(t, o).0)
  {
    if ObservationError(t, o).None? {
      FoundIsCanonical(w, t.l, o.finalized);
      HeadReaches(w, t.l, o.finalized);
      RenumberKeeps(w, t.l, t.l.revision + 1);
    }
  }

  // ---------------------------------------------------------------- runs

  datatype Event =
    | Committed(s: seq<Block>)
    | Reorganised(removed: seq<Block>, added: seq<Block>)
    | Observed(o: Observation)

  ghost predicate GenuineEvent(w: World, e: Event) {
    match e
    case Committed(s) => Identified(w, s)
    case Reorganised(removed, added) => Identified(w, removed) && Identified(w, added)
    case Observed(_) => true
  }

  ghost predicate GenuineEvents(w: World, events: seq<Event>) {
    forall i | 0 <= i < |events| :: GenuineEvent(w, events[i])
  }

  ghost function Step(w: World, t: Tracker, e: Event): (Tracker, Result<seq<Revision>, ChainError>)
    requires Inv(w, t)
  {
    match e
    case Committed(s) => Commit(t, s)
    case Reorganised(removed, added) => Reorg(t, removed, added)
    case Observed(o) => ObserveFinalized(t, o)
  }

  lemma StepKeepsInv(w: World, t: Tracker, e: Event)
    requires Inv(w, t) && GenuineEvent(w, e)
    ensures Inv(w, Step(w, t, e).0)
  {
    match e {
      case Committed(s) => CommitKeepsInv(w, t, s);
      case Reorganised(removed, added) => ReorgKeepsInv(w, t, removed, added);
      case Observed(o) => ObservationKeepsInv(w, t, o);
    }
  }

  /** A whole history of calls, accepted or refused. */
  ghost function Run(w: World, events: seq<Event>): (t: Tracker)
    requires GenuineEvents(w, events)
    ensures Inv(w, t)
    decreases |events|
  {
    if events == [] then START
    else
      var t := Run(w, events[..|events| - 1]);
      StepKeepsInv(w, t, events[|events| - 1]);
      Step(w, t, events[|events| - 1]).0
  }

  /** In every reachable state the head leads to the finalized block, which is canonical exactly when it is not
      numbered 2^64 - 1 or is the head. */
  lemma FinalizedIsAncestor(w: World, events: seq<Event>)
    requires GenuineEvents(w, events) && Run(w, events).finalized.Some?
    ensures var t := Run(w, events);
            var f := t.finalized.value;
            UnderHead(w, t.l, f) && (OnCanonical(t.l, f) <==> Number(t.l, f) < U64_MAX || t.l.head == Some(f))
  {
    AncestorIsCanonicalIff(w, Run(w, events).l, Run(w, events).finalized.value);
  }

  lemma ObservationDescends(w: World, t: Tracker, o: Observation)
    requires Inv(w, t) && t.finalized.Some?
    ensures var t' := ObserveFinalized(t, o).0;
            t'.finalized.Some? && Descends(w, t'.l.blocks, t'.finalized.value, t.finalized.value)
  {
    if ObservationError(t, o).None? {
      FoundIsCanonical(w, t.l, o.finalized);
      AdvanceDescends(w, t.l, t.finalized.value, o.finalized);
    }
  }

  /** The finalized block after a step is the one before or a descendant of it. */
  lemma StepDescends(w: World, t: Tracker, e: Event)
    requires Inv(w, t) && GenuineEvent(w, e) && t.finalized.Some?
    ensures var t' := Step(w, t, e).0;
            && t'.finalized.Some? && Grows(t.l.blocks, t'.l.blocks)
            && Descends(w, t'.l.blocks, t'.finalized.value, t.finalized.value)
  {
    GoodIsKnown(w, t.l);
    match e {
      case Committed(s) =>
        CommitKeeps(w, t.l, s);
        DescendsStable(w, t.l, Commit(t, s).0.l, t.finalized.value, t.finalized.value);
      case Reorganised(removed, added) =>
        ReorgKeeps(w, Bsc, t.l, t.finalized, removed, added);
        DescendsStable(w, t.l, Reorg(t, removed, added).0.l, t.finalized.value, t.finalized.value);
      case Observed(o) => ObservationDescends(w, t, o);
    }
  }

  lemma {:induction false} RunDescends(w: World, events: seq<Event>, i: nat, f: Hash)
    requires GenuineEvents(w, events) && i <= |events| && Run(w, events[..i]).finalized == Some(f)
    ensures var t := Run(w, events);
            t.finalized.Some? && Descends(w, t.l.blocks, t.finalized.value, f)
    decreases |events|
  {
    if i < |events| {
      var front, e := events[..|events| - 1], events[|events| - 1];
      assert front[..i] == events[..i];
      RunDescends(w, front, i, f);
      var t := Run(w, front);
      StepDescends(w, t, e);
      var t' := Run(w, events);
      DescendsStable(w, t.l, t'.l, t.finalized.value, f);
      ReachesTrans(w, t'.l.blocks, t'.finalized.value, t.finalized.value, f);
    } else {
      assert events[..i] == events;
      GoodIsKnown(w, Run(w, events).l);
    }
  }

  /** Once finalized, a block stays an ancestor of the head and of every later finalized block.  It stays in the
      canonical index exactly when it is not numbered 2^64 - 1, or while it is the head. */
  lemma FinalizedForever(w: World, events: seq<Event>, i: nat, f: Hash)
    requires GenuineEvents(w, events) && i <= |events| && Run(w, events[..i]).finalized == Some(f)
    ensures var t := Run(w, events);
            && t.finalized.Some? && Descends(w, t.l.blocks, t.finalized.value, f)
            && UnderHead(w, t.l, f)
            && (OnCanonical(t.l, f) <==> Number(t.l, f) < U64_MAX || t.l.head == Some(f))
  {
    RunDescends(w, events, i, f);
    var t := Run(w, events);
    UnderUnder(w, t.l, t.finalized.value, f);
    AncestorIsCanonicalIff(w, t.l, f);
  }

  // ---------------------------------------------------------------- the revision log

  /** Everything a run has emitted. */
  ghost function Log(w: World, events: seq<Event>): seq<Revision>
    requires GenuineEvents(w, events)
    decreases |events|
  {
    if events == [] then []
    else
      var front := events[..|events| - 1];
      match Step(w, Run(w, front), events[|events| - 1]).1
      case Ok(rs) => Log(w, front) + rs
      case Err(_) => Log(w, front)
  }

  lemma ObservationTells(t: Tracker, o: Observation)
    requires t.finalized.Some? ==> t.finalized.value in t.l.blocks
    requires ObservationError(t, o).None?
    ensures Tells(t.l, ObserveFinalized(t, o).0.l, ObserveFinalized(t, o).1.value)
  {
    FoldIgnores(t.l.canonical, ObserveFinalized(t, o).1.value);
  }

  lemma StepTells(w: World, t: Tracker, e: Event)
    requires Inv(w, t)
    ensures var (t', r) := Step(w, t, e);
            match r case Ok(rs) => Tells(t.l, t'.l, rs) case Err(_) => t'.l == t.l
  {
    match e {
      case Committed(s) => CommitTells(t.l, s);
      case Reorganised(removed, added) => ReorgTells(Bsc, t.l, t.finalized, removed, added);
      case Observed(o) => if ObservationError(t, o).None? { ObservationTells(t, o); }
    }
  }

  /** What the revisions of one step say about finality. */
  lemma StepNames(w: World, t: Tracker, e: Event)
    requires Inv(w, t)
    ensures var (t', r) := Step(w, t, e);
            match r
            case Ok(rs) => if LastOf(rs, Finalized).Some? then t'.finalized == LastOf(rs, Finalized) else t'.finalized == t.finalized
            case Err(_) => t' == t
  {
    match e {
      case Committed(s) => CommitIsSilent(t.l, s, Finalized);
      case Reorganised(removed, added) => ReorgIsSilent(Bsc, t.l, t.finalized, removed, added, Finalized);
      case Observed(o) => if ObservationError(t, o).None? { GoodIsKnown(w, t.l); assert Known(w, t.l.blocks, o.finalized); }
    }
  }

  /** The log numbers its revisions 1, 2, 3, …; folding it rebuilds the canonical index, and its last
      finalized revision names the finalized block. */
  lemma {:induction false} LogRebuildsState(w: World, events: seq<Event>)
    requires GenuineEvents(w, events)
    ensures var t, log := Run(w, events), Log(w, events);
            && Fold(map[], log) == t.l.canonical && Numbered(log, 0) && t.l.revision == |log|
            && t.finalized == LastOf(log, Finalized)
    decreases |events|
  {
    if events != [] {
      var front, e := events[..|events| - 1], events[|events| - 1];
      LogRebuildsState(w, front);
      var t := Run(w, front);
      StepTells(w, t, e);
      StepNames(w, t, e);
      match Step(w, t, e).1 {
        case Ok(rs) =>
          FoldConcat(map[], Log(w, front), rs);
          LastOfConcat(Log(w, front), rs, Finalized);
        case Err(_) =>
      }
    }
  }
}
