/** The Ethereum and BSC trackers as the services hold them: maps changed step by step, with parent walks
    for ancestry. */
module EvmCanonicality {
  import opened Prelude
  import opened ExecutionChain
  import opened ExecutionAncestry
  import EthereumSpec
  import BscSpec

  // ---------------------------------------------------------------- loops over segments

  method ValidateSegment(s: seq<Block>) returns (ok: bool)
    ensures ok <==> ValidSegment(s)
  {
    var i := 0;
    while i + 1 < |s|
      invariant 0 <= i && (i < |s| || i == 0)
      invariant forall k {:trigger FollowsAt(s, k)} | 0 <= k < i :: FollowsAt(s, k)
    {
      if s[i + 1].number != SaturatingSucc(s[i].number) || s[i + 1].parent != s[i].hash {
        assert !FollowsAt(s, i);
        return false;
      }
      i := i + 1;
    }
    ok := true;
  }

  method CountCanonical(canonical: map<nat, Hash>, s: seq<Block>) returns (all: bool, some: bool)
    ensures all <==> forall i | 0 <= i < |s| :: s[i].number in canonical && canonical[s[i].number] == s[i].hash
    ensures some <==> exists i | 0 <= i < |s| :: s[i].number in canonical && canonical[s[i].number] == s[i].hash
  {
    all, some := true, false;
    for i := 0 to |s|
      invariant all <==> forall k | 0 <= k < i :: s[k].number in canonical && canonical[s[k].number] == s[k].hash
      invariant some <==> exists k | 0 <= k < i :: s[k].number in canonical && canonical[s[k].number] == s[k].hash
    {
      if s[i].number in canonical && canonical[s[i].number] == s[i].hash {
        some := true;
      } else {
        all := false;
      }
    }
  }

  method HasHash(s: seq<Block>, h: Hash) returns (yes: bool)
    ensures yes <==> SomeHash(s, h)
  {
    yes := false;
    for i := 0 to |s|
      invariant yes <==> exists k | 0 <= k < i :: s[k].hash == h
    {
      if s[i].hash == h {
        yes := true;
      }
    }
  }

  /** Pushes the blocks one by one, each becoming the head. */
  method ConnectAll(l: Ledger, s: seq<Block>) returns (l': Ledger, revisions: seq<Revision>)
    ensures l' == Connect(l, s) && revisions == ConnectRevisions(l.revision, s)
  {
    l', revisions := l, [];
    for i := 0 to |s|
      invariant l' == Connect(l, s[..i]) && revisions == ConnectRevisions(l.revision, s[..i])
      invariant l'.revision == l.revision + i
    {
      assert s[..i + 1][..i] == s[..i];
      var b := s[i];
      l' := l'.(blocks := l'.blocks[b.hash := b], canonical := l'.canonical[b.number := b.hash],
                head := Some(b.hash), revision := l'.revision + 1);
      revisions := revisions + [Revision(b, CanonicalHead, l'.revision)];
    }
    assert s[..|s|] == s;
  }

  lemma DisconnectLast(l: Ledger, s: seq<Block>, i: nat)
    requires 0 < i <= |s|
    ensures Disconnect(l, s[..i])
            == Disconnect(l.(canonical := l.canonical - {s[i - 1].number}, revision := l.revision + 1), s[..i - 1])
    ensures DisconnectRevisions(l.revision, s[..i])
            == [Revision(s[i - 1], Reorged, l.revision + 1)] + DisconnectRevisions(l.revision + 1, s[..i - 1])
  {
    assert s[..i][..i - 1] == s[..i - 1];
  }

  /** Removes the blocks from the index, tip first. */
  method DisconnectAll(l: Ledger, s: seq<Block>) returns (l': Ledger, revisions: seq<Revision>)
    ensures l' == Disconnect(l, s) && revisions == DisconnectRevisions(l.revision, s)
  {
    l', revisions := l, [];
    var i := |s|;
    assert s[..|s|] == s;
    while i > 0
      invariant 0 <= i <= |s|
      invariant Disconnect(l, s) == Disconnect(l', s[..i])
      invariant DisconnectRevisions(l.revision, s) == revisions + DisconnectRevisions(l'.revision, s[..i])
    {
      DisconnectLast(l', s, i);
      i := i - 1;
      l' := l'.(canonical := l'.canonical - {s[i].number}, revision := l'.revision + 1);
      revisions := revisions + [Revision(s[i], Reorged, l'.revision)];
    }
  }

  /** What the parent walk decides: a block with the largest number is only its own ancestor. */
  ghost predicate Ancestor(w: World, l: Ledger, a: Hash, d: Hash) {
    a in l.blocks && d in l.blocks && if Number(l, a) < U64_MAX then Descends(w, l.blocks, d, a) else d == a
  }

  /** Walks parents down to the number of the supposed ancestor. */
  method IsAncestor(ghost w: World, l: Ledger, a: Hash, d: Hash) returns (yes: bool)
    requires Good(w, l)
    ensures yes <==> Ancestor(w, l, a, d)
  {
    if a !in l.blocks || d !in l.blocks {
      return false;
    }
    ghost var base :| GoodFrom(w, l, base);
    assert Based(l.blocks, base, a);
    var target := l.blocks[a].number;
    var current := l.blocks[d];
    ghost var h := d;
    while current.number > target
      invariant h in l.blocks && current == l.blocks[h]
      invariant if target < U64_MAX then Reaches(w, l.blocks, d, a) <==> Reaches(w, l.blocks, h, a) else h == d
      decreases w.rank(h)
    {
      assert Known(w, l.blocks, h) && Based(l.blocks, base, h);
      assert Reaches(w, l.blocks, h, a) <==> ParentReaches(w, l.blocks, h, a);
      if current.parent !in l.blocks {
        return false;
      }
      h := current.parent;
      current := l.blocks[current.parent];
    }
    assert Known(w, l.blocks, h);
    if Reaches(w, l.blocks, h, a) {
      ReachesFalls(w, l.blocks, h, a);
    }
    yes := current.hash == a;
  }

  method CanonicalBlock(l: Ledger, h: Hash) returns (r: Result<Block, ChainError>)
    ensures match LookupError(l, h)
            case Some(e) => r == Err(e)
            case None => r == Ok(l.blocks[h])
  {
    if h !in l.blocks {
      return Err(UnknownBlock(h));
    }
    var b := l.blocks[h];
    if b.number !in l.canonical || l.canonical[b.number] != h {
      return Err(BlockNotCanonical(h));
    }
    r := Ok(b);
  }

  class EthereumCanonicality {
    ghost const world: World
    var blocks: map<Hash, Block>
    var canonical: map<nat, Hash>
    var head: Option<Hash>
    var safe: Option<Hash>
    var finalized: Option<Hash>
    var revision: nat

    ghost predicate Valid()
      reads this
    {
      EthereumSpec.Inv(world, State())
    }

    function State(): EthereumSpec.Tracker
      reads this
    {
      EthereumSpec.Tracker(Index(), safe, finalized)
    }

    constructor (ghost world: World)
      ensures Valid() && State() == EthereumSpec.START && this.world == world
    {
      this.world := world;
      blocks, canonical, head, safe, finalized, revision := map[], map[], None, None, None, 0;
    }

    /** The index part of the state. */
    function Index(): Ledger
      reads this
    {
      Ledger(blocks, canonical, head, revision)
    }

    method Store(l: Ledger)
      modifies this`blocks, this`canonical, this`head, this`revision
      ensures Index() == l
    {
      blocks, canonical, head, revision := l.blocks, l.canonical, l.head, l.revision;
    }

    method CommitSegment(s: seq<Block>) returns (r: Result<seq<Revision>, ChainError>)
      requires Valid() && Identified(world, s)
      modifies this
      ensures Valid() && (State(), r) == EthereumSpec.Commit(old(State()), s)
    {
      EthereumSpec.CommitKeepsInv(world, State(), s);
      if s == [] {
        return Ok([]);
      }
      var valid := ValidateSegment(s);
      if !valid {
        return Err(DiscontinuousSegment);
      }
      var replay, _ := CountCanonical(canonical, s);
      assert replay <==> AllCanonical(Index(), s);
      if replay {
        return Ok([]);
      }
      if head.Some? {
        var h := head.value;
        if h !in blocks {
          return Err(UnknownBlock(h));
        }
        var top, first := blocks[h], s[0];
        if first.number != SaturatingSucc(top.number) || first.parent != top.hash {
          return Err(SegmentDoesNotExtendHead);
        }
      }
      var l, revisions := ConnectAll(Index(), s);
      Store(l);
      r := Ok(revisions);
    }

    /** The checks of a reorganisation, in the order they are made. */
    method CheckReorg(removed: seq<Block>, added: seq<Block>) returns (e: Option<ChainError>)
      ensures e == ReorgError(Ethereum, Index(), finalized, removed, added)
    {
      if removed == [] || added == [] {
        return Some(EmptyReorgSegment);
      }
      var validRemoved := ValidateSegment(removed);
      var validAdded := ValidateSegment(added);
      if !validRemoved || !validAdded {
        return Some(DiscontinuousSegment);
      }
      if removed[0].number != added[0].number || removed[0].parent != added[0].parent {
        return Some(ReorgAncestorMismatch);
      }
      if head.None? {
        return Some(MissingCanonicalHead);
      }
      var all, _ := CountCanonical(canonical, removed);
      assert all <==> AllCanonical(Index(), removed);
      if head != Some(removed[|removed| - 1].hash) || !all {
        return Some(ReorgDoesNotMatchCanonicalSuffix);
      }
      if finalized.Some? {
        var reversed := HasHash(removed, finalized.value);
        if reversed {
          return Some(FinalizedReversalCritical(finalized.value));
        }
      }
      var _, some := CountCanonical(canonical, added);
      assert some <==> SomeCanonical(Index(), added);
      if some {
        return Some(ReplacementAlreadyCanonical);
      }
      e := None;
    }

    method Reorg(removed: seq<Block>, added: seq<Block>) returns (r: Result<seq<Revision>, ChainError>)
      requires Valid() && Identified(world, removed) && Identified(world, added)
      modifies this
      ensures Valid() && (State(), r) == EthereumSpec.Reorg(old(State()), removed, added)
    {
      EthereumSpec.ReorgKeepsInv(world, State(), removed, added);
      var e := CheckReorg(removed, added);
      if e.Some? {
        return Err(e.value);
      }
      var l, down := DisconnectAll(Index(), removed);
      DisconnectFolds(Index(), removed);
      var l', up := ConnectAll(l, added);
      Store(l');
      if safe.Some? && safe.value !in canonical.Values {
        safe := None;
      }
      r := Ok(down + up);
    }

    /** The checks of a checkpoint, made by walking parents. */
    method CheckCheckpoint(c: EthereumSpec.Checkpoint) returns (e: Option<ChainError>)
      requires Valid()
      ensures e == EthereumSpec.CheckpointError(State(), c)
    {
      var l := Index();
      var top := CanonicalBlock(l, c.head);
      if top.Err? {
        return Some(top.error);
      }
      var nextSafe := CanonicalBlock(l, c.safe);
      if nextSafe.Err? {
        return Some(nextSafe.error);
      }
      var nextFinalized := CanonicalBlock(l, c.finalized);
      if nextFinalized.Err? {
        return Some(nextFinalized.error);
      }
      FoundIsCanonical(world, l, c.head);
      FoundIsCanonical(world, l, c.safe);
      FoundIsCanonical(world, l, c.finalized);
      var below := InOrder(c.finalized, c.safe);
      var above := InOrder(c.safe, c.head);
      if !below || !above || head != Some(c.head) {
        return Some(InvalidAncestry);
      }
      if finalized.Some? {
        var back := MovesBack(finalized.value, c.finalized);
        if back {
          return Some(FinalizedReversalCritical(finalized.value));
        }
      }
      if safe.Some? {
        var back := MovesBack(safe.value, c.safe);
        if back {
          return Some(SafeCheckpointRegression);
        }
      }
      e := None;
    }

    method InOrder(a: Hash, d: Hash) returns (yes: bool)
      requires Good(world, Index()) && OnCanonical(Index(), a) && OnCanonical(Index(), d)
      ensures yes <==> blocks[a].number <= blocks[d].number
    {
      CanonicalOrder(world, Index(), a, d);
      yes := IsAncestor(world, Index(), a, d);
    }

    /** The source's test against the previous checkpoint: another block that is not a strict descendant. */
    method MovesBack(previous: Hash, next: Hash) returns (back: bool)
      requires Good(world, Index()) && UnderHead(world, Index(), previous) && OnCanonical(Index(), next)
      ensures back <==> !Advances(Index(), previous, next)
    {
      if previous == next {
        return false;
      }
      if blocks[previous].number < blocks[next].number {
        AdvanceDescends(world, Index(), previous, next);
      }
      var descends := IsAncestor(world, Index(), previous, next);
      back := !descends || blocks[previous].number >= blocks[next].number;
    }

    method ObserveCheckpoint(c: EthereumSpec.Checkpoint) returns (r: Result<seq<Revision>, ChainError>)
      requires Valid()
      modifies this`safe, this`finalized, this`revision
      ensures Valid() && (State(), r) == EthereumSpec.ObserveCheckpoint(old(State()), c)
    {
      EthereumSpec.CheckpointKeepsInv(world, State(), c);
      var e := CheckCheckpoint(c);
      if e.Some? {
        return Err(e.value);
      }
      var revisions := [];
      if safe != Some(c.safe) {
        safe := Some(c.safe);
        revision := revision + 1;
        revisions := revisions + [Revision(blocks[c.safe], Safe, revision)];
      }
      if finalized != Some(c.finalized) {
        finalized := Some(c.finalized);
        revision := revision + 1;
        revisions := revisions + [Revision(blocks[c.finalized], Finalized, revision)];
      }
      assert revisions == EthereumSpec.CheckpointRevisions(old(State()), c);
      r := Ok(revisions);
    }
  }

  class BscCanonicality {
    ghost const world: World
    var blocks: map<Hash, Block>
    var canonical: map<nat, Hash>
    var head: Option<Hash>
    var finalized: Option<Hash>
    var revision: nat
    var lastObserved: Option<nat>
    var lastChange: Option<nat>

    ghost predicate Valid()
      reads this
    {
      BscSpec.Inv(world, State())
    }

    function State(): BscSpec.Tracker
      reads this
    {
      BscSpec.Tracker(Index(), finalized, lastObserved, lastChange)
    }

    constructor (ghost world: World)
      ensures Valid() && State() == BscSpec.START && this.world == world
    {
      this.world := world;
      blocks, canonical, head, finalized, revision := map[], map[], None, None, 0;
      lastObserved, lastChange := None, None;
    }

    /** The index part of the state. */
    function Index(): Ledger
      reads this
    {
      Ledger(blocks, canonical, head, revision)
    }

    method Store(l: Ledger)
      modifies this`blocks, this`canonical, this`head, this`revision
      ensures Index() == l
    {
      blocks, canonical, head, revision := l.blocks, l.canonical, l.head, l.revision;
    }

    method CommitSegment(s: seq<Block>) returns (r: Result<seq<Revision>, ChainError>)
      requires Valid() && Identified(world, s)
      modifies this
      ensures Valid() && (State(), r) == BscSpec.Commit(old(State()), s)
    {
      BscSpec.CommitKeepsInv(world, State(), s);
      if s == [] {
        return Ok([]);
      }
      var valid := ValidateSegment(s);
      if !valid {
        return Err(DiscontinuousSegment);
      }
      var replay, _ := CountCanonical(canonical, s);
      assert replay <==> AllCanonical(Index(), s);
      if replay {
        return Ok([]);
      }
      if head.Some? {
        var h := head.value;
        if h !in blocks {
          return Err(UnknownBlock(h));
        }
        var top, first := blocks[h], s[0];
        if first.number != SaturatingSucc(top.number) || first.parent != top.hash {
          return Err(SegmentDoesNotExtendHead);
        }
      }
      var l, revisions := ConnectAll(Index(), s);
      Store(l);
      r := Ok(revisions);
    }

    /** The checks of a reorganisation, in the order they are made. */
    method CheckReorg(removed: seq<Block>, added: seq<Block>) returns (e: Option<ChainError>)
      ensures e == ReorgError(Bsc, Index(), finalized, removed, added)
    {
      if removed == [] || added == [] {
        return Some(EmptyReorgSegment);
      }
      var validRemoved := ValidateSegment(removed);
      var validAdded := ValidateSegment(added);
      if !validRemoved || !validAdded {
        return Some(DiscontinuousSegment);
      }
      if removed[0].number != added[0].number || removed[0].parent != added[0].parent {
        return Some(ReorgAncestorMismatch);
      }
      var all, _ := CountCanonical(canonical, removed);
      assert all <==> AllCanonical(Index(), removed);
      if head != Some(removed[|removed| - 1].hash) || !all {
        return Some(ReorgDoesNotMatchCanonicalSuffix);
      }
      if finalized.Some? {
        var reversed := HasHash(removed, finalized.value);
        if reversed {
          return Some(FinalizedReversalCritical(finalized.value));
        }
      }
      e := None;
    }

    method Reorg(removed: seq<Block>, added: seq<Block>) returns (r: Result<seq<Revision>, ChainError>)
      requires Valid() && Identified(world, removed) && Identified(world, added)
      modifies this
      ensures Valid() && (State(), r) == BscSpec.Reorg(old(State()), removed, added)
    {
      BscSpec.ReorgKeepsInv(world, State(), removed, added);
      var e := CheckReorg(removed, added);
      if e.Some? {
        return Err(e.value);
      }
      var l, down := DisconnectAll(Index(), removed);
      DisconnectFolds(Index(), removed);
      var l', up := ConnectAll(l, added);
      Store(l');
      r := Ok(down + up);
    }

    /** The checks of an observation, made by walking parents. */
    method CheckObservation(o: BscSpec.Observation) returns (e: Option<ChainError>)
      requires Valid()
      ensures e == BscSpec.ObservationError(State(), o)
    {
      if lastObserved.Some? && o.at <= lastObserved.value {
        return Some(ObservationTimeRegression);
      }
      var l := Index();
      var top := CanonicalBlock(l, o.head);
      if top.Err? {
        return Some(top.error);
      }
      var next := CanonicalBlock(l, o.finalized);
      if next.Err? {
        return Some(next.error);
      }
      FoundIsCanonical(world, l, o.head);
      FoundIsCanonical(world, l, o.finalized);
      CanonicalOrder(world, l, o.finalized, o.head);
      var below := IsAncestor(world, l, o.finalized, o.head);
      if head != Some(o.head) || !below {
        return Some(InvalidAncestry);
      }
      if finalized.Some? && finalized.value != o.finalized {
        var previous := finalized.value;
        if previous !in blocks {
          return Some(UnknownBlock(previous));
        }
        if blocks[previous].number < blocks[o.finalized].number {
          AdvanceDescends(world, l, previous, o.finalized);
        }
        var descends := IsAncestor(world, l, previous, o.finalized);
        if blocks[o.finalized].number <= blocks[previous].number || !descends {
          return Some(FinalizedRegression(previous, o.finalized));
        }
      }
      e := None;
    }

    method ObserveFinalized(o: BscSpec.Observation) returns (r: Result<seq<Revision>, ChainError>)
      requires Valid()
      modifies this`finalized, this`revision, this`lastObserved, this`lastChange
      ensures Valid() && (State(), r) == BscSpec.ObserveFinalized(old(State()), o)
    {
      BscSpec.ObservationKeepsInv(world, State(), o);
      var e := CheckObservation(o);
      if e.Some? {
        return Err(e.value);
      }
      lastObserved := Some(o.at);
      if finalized != Some(o.finalized) {
        finalized := Some(o.finalized);
        lastChange := Some(o.at);
      }
      revision := revision + 1;
      r := Ok([Revision(blocks[o.finalized], Finalized, revision)]);
    }
  }
}
