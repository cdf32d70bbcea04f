/** The Ethereum tracker: commits, reorganisations and consensus checkpoints. */
module EthereumSpec {
  import opened Prelude
  import opened ExecutionChain
  import opened ExecutionAncestry

  datatype Tracker = Tracker(l: Ledger, safe: Option<Hash>, finalized: Option<Hash>)

  datatype Checkpoint = Checkpoint(head: Hash, safe: Hash, finalized: Hash)

  const START := Tracker(EMPTY, None, None)

  // ---------------------------------------------------------------- operations

  function Commit(t: Tracker, s: seq<Block>): (Tracker, Result<seq<Revision>, ChainError>) {
    var (l', r) := ExecutionChain.Commit(t.l, s);
    (t.(l := l'), r)
  }

  /** A safe checkpoint that has left the index is forgotten. */
  function Reorg(t: Tracker, removed: seq<Block>, added: seq<Block>): (Tracker, Result<seq<Revision>, ChainError>) {
    var (l', r) := ExecutionChain.Reorg(Ethereum, t.l, t.finalized, removed, added);
    (t.(l := l', safe := if r.Ok? && t.safe.Some? && t.safe.value !in l'.canonical.Values then None else t.safe), r)
  }

  /** A checkpoint is refused by the numbers of its blocks alone, once they are all canonical. */
  function CheckpointError(t: Tracker, c: Checkpoint): Option<ChainError>
    requires t.finalized.Some? ==> t.finalized.value in t.l.blocks
    requires t.safe.Some? ==> t.safe.value in t.l.blocks
  {
    if LookupError(t.l, c.head).Some? then LookupError(t.l, c.head)
    else if LookupError(t.l, c.safe).Some? then LookupError(t.l, c.safe)
    else if LookupError(t.l, c.finalized).Some? then LookupError(t.l, c.finalized)
    else if !(Number(t.l, c.finalized) <= Number(t.l, c.safe) <= Number(t.l, c.head)) || t.l.head != Some(c.head) then
      Some(InvalidAncestry)
    else if t.finalized.Some? && !Advances(t.l, t.finalized.value, c.finalized) then
      Some(FinalizedReversalCritical(t.finalized.value))
    else if t.safe.Some? && !Advances(t.l, t.safe.value, c.safe) then Some(SafeCheckpointRegression)
    else None
  }

  function CheckpointRevisions(t: Tracker, c: Checkpoint): seq<Revision>
    requires c.safe in t.l.blocks && c.finalized in t.l.blocks
  {
    var first := if t.safe != Some(c.safe) then [Revision(t.l.blocks[c.safe], Safe, t.l.revision + 1)] else [];
    first + if t.finalized != Some(c.finalized) then
              [Revision(t.l.blocks[c.finalized], Finalized, t.l.revision + |first| + 1)]
            else []
  }

  function ObserveCheckpoint(t: Tracker, c: Checkpoint): (Tracker, Result<seq<Revision>, ChainError>)
    requires t.finalized.Some? ==> t.finalized.value in t.l.blocks
    requires t.safe.Some? ==> t.safe.value in t.l.blocks
  {
    var e := CheckpointError(t, c);
    if e.Some? then (t, Err(e.value))
    else
      var rs := CheckpointRevisions(t, c);
      (Tracker(t.l.(revision := t.l.revision + |rs|), Some(c.safe), Some(c.finalized)), Ok(rs))
  }

  // ---------------------------------------------------------------- invariant

  /** The index is a run of numbers that ends at the head; by parent links the head leads to the safe block and
      the safe block to the finalized one. */
  ghost predicate Inv(w: World, t: Tracker) {
    && Good(w, t.l)
    && (t.finalized.Some? ==> UnderHead(w, t.l, t.finalized.value))
    && (t.safe.Some? ==> && UnderHead(w, t.l, t.safe.value) && t.finalized.Some?
                         && Descends(w, t.l.blocks, t.safe.value, t.finalized.value))
  }

  lemma CommitKeepsInv(w: World, t: Tracker, s: seq<Block>)
    requires Inv(w, t) && Identified(w, s)
    ensures Inv(w, Commit(t, s).0)
  {
    CommitKeeps(w, t.l, s);
    if t.finalized.Some? {
      CommitKeepsAncestor(w, t.l, s, t.finalized.value);
    }
    if t.safe.Some? {
      CommitKeepsAncestor(w, t.l, s, t.safe.value);
      DescendsStable(w, t.l, Commit(t, s).0.l, t.safe.value, t.finalized.value);
    }
  }

  /** A value of the index is a canonical block. */
  lemma ValueIsCanonical(w: World, l: Ledger, h: Hash)
    requires Good(w, l) && h in l.canonical.Values
    ensures OnCanonical(l, h)
  {
    var n :| n in l.canonical && l.canonical[n] == h;
    var base :| GoodFrom(w, l, base);
    assert Entry(w, l, base, n) && Known(w, l.blocks, h);
  }

  lemma ReorgKeepsInv(w: World, t: Tracker, removed: seq<Block>, added: seq<Block>)
    requires Inv(w, t) && Identified(w, removed) && Identified(w, added)
    ensures Inv(w, Reorg(t, removed, added).0)
  {
    ReorgKeeps(w, Ethereum, t.l, t.finalized, removed, added);
    var t' := Reorg(t, removed, added).0;
    if ReorgError(Ethereum, t.l, t.finalized, removed, added).None? {
      if t.finalized.Some? {
        ReorgKeepsAncestor(w, Ethereum, t.l, t.finalized, removed, added, t.finalized.value);
      }
      if t'.safe.Some? {
        ValueIsCanonical(w, t'.l, t'.safe.value);
        HeadReaches(w, t'.l, t'.safe.value);
        DescendsStable(w, t.l, t'.l, t.safe.value, t.finalized.value);
      }
    }
  }

  lemma CheckpointKeepsInv(w: World, t: Tracker, c: Checkpoint)
    requires Inv(w, t)
    ensures Inv(w, ObserveCheckpoint(t, c).0)
  {
    if CheckpointError(t, c).None? {
      FoundIsCanonical(w, t.l, c.safe);
      FoundIsCanonical(w, t.l, c.finalized);
      HeadReaches(w, t.l, c.safe);
      HeadReaches(w, t.l, c.finalized);
      CanonicalOrder(w, t.l, c.finalized, c.safe);
      RenumberKeeps(w, t.l, ObserveCheckpoint(t, c).0.l.revision);
    }
  }

  // ---------------------------------------------------------------- runs

  datatype Event =
    | Committed(s: seq<Block>)
    | Reorganised(removed: seq<Block>, added: seq<Block>)
    | Checkpointed(c: Checkpoint)

  ghost predicate GenuineEvent(w: World, e: Event) {
    match e
    case Committed(s) => Identified(w, s)
    case Reorganised(removed, added) => Identified(w, removed) && Identified(w, added)
    case Checkpointed(_) => true
  }

  ghost predicate GenuineEvents(w: World, events: seq<Event>) {
    forall i | 0 <= i < |events| :: GenuineEvent(w, events[i])
  }

  ghost function Step(w: World, t: Tracker, e: Event): (Tracker, Result<seq<Revision>, ChainError>)
    requires Inv(w, t)
  {
    match e
    case Committed(s) => Commit(t, s)
    case Reorganised(removed, added) => Reorg(t, removed, added)
    case Checkpointed(c) => ObserveCheckpoint(t, c)
  }

  lemma StepKeepsInv(w: World, t: Tracker, e: Event)
    requires Inv(w, t) && GenuineEvent(w, e)
    ensures Inv(w, Step(w, t, e).0)
  {
    match e {
      case Committed(s) => CommitKeepsInv(w, t, s);
      case Reorganised(removed, added) => ReorgKeepsInv(w, t, removed, added);
      case Checkpointed(c) => CheckpointKeepsInv(w, t, c);
    }
  }

  /** A whole history of calls, accepted or refused. */
  ghost function Run(w: World, events: seq<Event>): (t: Tracker)
    requires GenuineEvents(w, events)
    ensures Inv(w, t)
    decreases |events|
  {
    if events == [] then START
    else
      var t := Run(w, events[..|events| - 1]);
      StepKeepsInv(w, t, events[|events| - 1]);
      Step(w, t, events[|events| - 1]).0
  }

  /** In every reachable state the head leads to the safe block and the safe block to the finalized one; each is
      canonical exactly when it is not numbered 2^64 - 1 or is the head. */
  lemma CheckpointsAreAncestors(w: World, events: seq<Event>)
    requires GenuineEvents(w, events) && Run(w, events).finalized.Some?
    ensures var t := Run(w, events);
            var f := t.finalized.value;
            && UnderHead(w, t.l, f) && (OnCanonical(t.l, f) <==> Number(t.l, f) < U64_MAX || t.l.head == Some(f))
            && (t.safe.Some? ==>
                  var s := t.safe.value;
                  && UnderHead(w, t.l, s) && Descends(w, t.l.blocks, s, f)
                  && (OnCanonical(t.l, s) <==> Number(t.l, s) < U64_MAX || t.l.head == Some(s)))
  {
    var t := Run(w, events);
    AncestorIsCanonicalIff(w, t.l, t.finalized.value);
    if t.safe.Some? {
      AncestorIsCanonicalIff(w, t.l, t.safe.value);
    }
  }

  lemma CheckpointDescends(w: World, t: Tracker, c: Checkpoint)
    requires Inv(w, t) && t.finalized.Some?
    ensures var t' := Step(w, t, Checkpointed(c)).0;
            t'.finalized.Some? && Descends(w, t'.l.blocks, t'.finalized.value, t.finalized.value)
  {
    if CheckpointError(t, c).None? {
      FoundIsCanonical(w, t.l, c.finalized);
      AdvanceDescends(w, t.l, t.finalized.value, c.finalized);
    }
  }

  /** The finalized block after a step is the one before or a descendant of it. */
  lemma StepDescends(w: World, t: Tracker, e: Event)
    requires Inv(w, t) && GenuineEvent(w, e) && t.finalized.Some?
    ensures var t' := Step(w, t, e).0;
            && t'.finalized.Some? && Grows(t.l.blocks, t'.l.blocks)
            && Descends(w, t'.l.blocks, t'.finalized.value, t.finalized.value)
  {
    GoodIsKnown(w, t.l);
    match e {
      case Committed(s) =>
        CommitKeeps(w, t.l, s);
        DescendsStable(w, t.l, Commit(t, s).0.l, t.finalized.value, t.finalized.value);
      case Reorganised(removed, added) =>
        ReorgKeeps(w, Ethereum, t.l, t.finalized, removed, added);
        DescendsStable(w, t.l, Reorg(t, removed, added).0.l, t.finalized.value, t.finalized.value);
      case Checkpointed(c) => CheckpointDescends(w, t, c);
    }
  }

  lemma {:induction false} RunDescends(w: World, events: seq<Event>, i: nat, f: Hash)
    requires GenuineEvents(w, events) && i <= |events| && Run(w, events[..i]).finalized == Some(f)
    ensures var t := Run(w, events);
            t.finalized.Some? && Descends(w, t.l.blocks, t.finalized.value, f)
    decreases |events|
  {
    if i < |events| {
      var front, e := events[..|events| - 1], events[|events| - 1];
      assert front[..i] == events[..i];
      RunDescends(w, front, i, f);
      var t := Run(w, front);
      StepDescends(w, t, e);
      var t' := Run(w, events);
      DescendsStable(w, t.l, t'.l, t.finalized.value, f);
      ReachesTrans(w, t'.l.blocks, t'.finalized.value, t.finalized.value, f);
    } else {
      assert events[..i] == events;
      GoodIsKnown(w, Run(w, events).l);
    }
  }

  /** Once finalized, a block stays an ancestor of the head and of every later finalized block.  It stays in the
      canonical index exactly when it is not numbered 2^64 - 1, or while it is the head. */
  lemma FinalizedForever(w: World, events: seq<Event>, i: nat, f: Hash)
    requires GenuineEvents(w, events) && i <= |events| && Run(w, events[..i]).finalized == Some(f)
    ensures var t := Run(w, events);
            && t.finalized.Some? && Descends(w, t.l.blocks, t.finalized.value, f)
            && UnderHead(w, t.l, f)
            && (OnCanonical(t.l, f) <==> Number(t.l, f) < U64_MAX || t.l.head == Some(f))
  {
    RunDescends(w, events, i, f);
    var t := Run(w, events);
    UnderUnder(w, t.l, t.finalized.value, f);
    AncestorIsCanonicalIff(w, t.l, f);
  }

  /** The exception is real: a finalized block with the largest number, and a commit on top of it. */
  lemma FinalizedLeavesIndex(w: World, a: Block, b: Block)
    requires Genuine(w, a) && Genuine(w, b) && a.number == b.number == U64_MAX && b.parent == a.hash
    ensures var events := [Committed([a]), Checkpointed(Checkpoint(a.hash, a.hash, a.hash)), Committed([b])];
            && GenuineEvents(w, events)
            && Run(w, events[..2]).finalized == Some(a.hash)
            && Run(w, events).finalized == Some(a.hash) && !OnCanonical(Run(w, events).l, a.hash)
  {
    var c := Checkpoint(a.hash, a.hash, a.hash);
    var events := [Committed([a]), Checkpointed(c), Committed([b])];
    assert events[..3] == events && events[..2][..1] == events[..1] && events[..1][..0] == [];
    CommitOne(EMPTY, a);
    var t1 := Run(w, events[..1]);
    assert Run(w, events[..1][..0]) == START && t1 == Step(w, START, events[0]).0;
    assert t1 == Tracker(Push(EMPTY, a), None, None);
    assert CheckpointError(t1, c).None? && |CheckpointRevisions(t1, c)| == 2;
    var t2 := Run(w, events[..2]);
    assert t2 == Step(w, t1, Checkpointed(c)).0;
    CommitOne(t2.l, b);
  }

  lemma CommitOne(l: Ledger, b: Block)
    requires !CanonicalAt(l, b)
    requires l.head.Some? ==> l.head.value in l.blocks && Follows(l.blocks[l.head.value], b)
    ensures ExecutionChain.Commit(l, [b]).0 == Push(l, b)
  {
    assert !CanonicalAt(l, [b][0]);
    assert [b][..0] == [] && Connect(l, []) == l;
  }

  // ---------------------------------------------------------------- the revision log

  /** Everything a run has emitted. */
  ghost function Log(w: World, events: seq<Event>): seq<Revision>
    requires GenuineEvents(w, events)
    decreases |events|
  {
    if events == [] then []
    else
      var front := events[..|events| - 1];
      match Step(w, Run(w, front), events[|events| - 1]).1
      case Ok(rs) => Log(w, front) + rs
      case Err(_) => Log(w, front)
  }

  lemma CheckpointTells(t: Tracker, c: Checkpoint)
    requires t.finalized.Some? ==> t.finalized.value in t.l.blocks
    requires t.safe.Some? ==> t.safe.value in t.l.blocks
    requires CheckpointError(t, c).None?
    ensures Tells(t.l, ObserveCheckpoint(t, c).0.l, CheckpointRevisions(t, c))
  {
    FoldIgnores(t.l.canonical, CheckpointRevisions(t, c));
  }

  lemma StepTells(w: World, t: Tracker, e: Event)
    requires Inv(w, t)
    ensures var (t', r) := Step(w, t, e);
            match r case Ok(rs) => Tells(t.l, t'.l, rs) case Err(_) => t'.l == t.l
  {
    match e {
      case Committed(s) => CommitTells(t.l, s);
      case Reorganised(removed, added) => ReorgTells(Ethereum, t.l, t.finalized, removed, added);
      case Checkpointed(c) => if CheckpointError(t, c).None? { CheckpointTells(t, c); }
    }
  }

  /** What the revisions of one step say about the checkpoints. */
  lemma StepNames(w: World, t: Tracker, e: Event)
    requires Inv(w, t)
    ensures var (t', r) := Step(w, t, e);
            match r
            case Ok(rs) =>
              && (if LastOf(rs, Finalized).Some? then t'.finalized == LastOf(rs, Finalized) else t'.finalized == t.finalized)
              && (if LastOf(rs, Safe).Some? then t'.safe == LastOf(rs, Safe) else t'.safe == t.safe || t'.safe == None)
            case Err(_) => t' == t
  {
    match e {
      case Committed(s) =>
        CommitIsSilent(t.l, s, Safe);
        CommitIsSilent(t.l, s, Finalized);
      case Reorganised(removed, added) =>
        ReorgIsSilent(Ethereum, t.l, t.finalized, removed, added, Safe);
        ReorgIsSilent(Ethereum, t.l, t.finalized, removed, added, Finalized);
      case Checkpointed(c) =>
        if CheckpointError(t, c).None? {
          CheckpointNames(w, t, c);
        }
    }
  }

  lemma CheckpointNames(w: World, t: Tracker, c: Checkpoint)
    requires Inv(w, t) && CheckpointError(t, c).None?
    ensures var rs := CheckpointRevisions(t, c);
            && LastOf(rs, Safe) == (if t.safe != Some(c.safe) then Some(c.safe) else None)
            && LastOf(rs, Finalized) == (if t.finalized != Some(c.finalized) then Some(c.finalized) else None)
  {
    GoodIsKnown(w, t.l);
    assert Known(w, t.l.blocks, c.safe) && Known(w, t.l.blocks, c.finalized);
    var first := if t.safe != Some(c.safe) then [Revision(t.l.blocks[c.safe], Safe, t.l.revision + 1)] else [];
    var second := if t.finalized != Some(c.finalized) then
        [Revision(t.l.blocks[c.finalized], Finalized, t.l.revision + |first| + 1)]
      else [];
    assert CheckpointRevisions(t, c) == first + second;
    LastOfConcat(first, second, Safe);
    LastOfConcat(first, second, Finalized);
  }

  /** The log numbers its revisions 1, 2, 3, …; folding it rebuilds the canonical index; its last finalized
      revision names the finalized block, and its last safe revision the safe block while there is one. */
  lemma {:induction false} LogRebuildsState(w: World, events: seq<Event>)
    requires GenuineEvents(w, events)
    ensures var t, log := Run(w, events), Log(w, events);
            && Fold(map[], log) == t.l.canonical && Numbered(log, 0) && t.l.revision == |log|
            && t.finalized == LastOf(log, Finalized) && (t.safe.Some? ==> t.safe == LastOf(log, Safe))
    decreases |events|
  {
    if events != [] {
      var front, e := events[..|events| - 1], events[|events| - 1];
      LogRebuildsState(w, front);
      var t := Run(w, front);
      StepTells(w, t, e);
      StepNames(w, t, e);
      match Step(w, t, e).1 {
        case Ok(rs) =>
          FoldConcat(map[], Log(w, front), rs);
          LastOfConcat(Log(w, front), rs, Finalized);
          LastOfConcat(Log(w, front), rs, Safe);
        case Err(_) =>
      }
    }
  }
}
