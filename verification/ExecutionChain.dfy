/** Execution blocks, the canonical index by number, and its changes by commit and reorganisation:
    the part that the Ethereum and BSC trackers share. */
module ExecutionChain {
  import opened Prelude

  type Hash = nat

  /** Numbers are 64-bit in the source. */
  type BlockNumber = n: nat | n <= U64_MAX

  datatype Block = Block(number: BlockNumber, hash: Hash, parent: Hash)

  type Blocks = map<Hash, Block>
  type Index = map<nat, Hash>

  datatype Status = CanonicalHead | Reorged | Safe | Finalized

  datatype Revision = Revision(block: Block, status: Status, revision: nat)

  datatype Ledger = Ledger(blocks: Blocks, canonical: Index, head: Option<Hash>, revision: nat)

  datatype ChainError =
    | DiscontinuousSegment
    | SegmentDoesNotExtendHead
    | EmptyReorgSegment
    | ReorgAncestorMismatch
    | MissingCanonicalHead
    | ReorgDoesNotMatchCanonicalSuffix
    | ReplacementAlreadyCanonical
    | FinalizedReversalCritical(finalized: Hash)
    | UnknownBlock(hash: Hash)
    | BlockNotCanonical(hash: Hash)
    | InvalidAncestry
    | SafeCheckpointRegression
    | FinalizedRegression(previous: Hash, observed: Hash)
    | ObservationTimeRegression

  const EMPTY := Ledger(map[], map[], None, 0)

  // ---------------------------------------------------------------- segments

  /** What the source checks between neighbours: the number follows, with saturation at the top. */
  predicate Follows(a: Block, b: Block) {
    b.number == SaturatingSucc(a.number) && b.parent == a.hash
  }

  predicate ValidSegment(s: seq<Block>) {
    forall i {:trigger FollowsAt(s, i)} | 0 <= i < |s| - 1 :: FollowsAt(s, i)
  }

  predicate FollowsAt(s: seq<Block>, i: nat)
    requires i + 1 < |s|
  {
    Follows(s[i], s[i + 1])
  }

  /** No block of the segment but the last has the largest number. */
  predicate Unsaturated(s: seq<Block>) {
    forall i | 0 <= i < |s| - 1 :: s[i].number < U64_MAX
  }

  predicate CanonicalAt(l: Ledger, b: Block) {
    b.number in l.canonical && l.canonical[b.number] == b.hash
  }

  predicate AllCanonical(l: Ledger, s: seq<Block>) {
    forall i | 0 <= i < |s| :: CanonicalAt(l, s[i])
  }

  predicate SomeCanonical(l: Ledger, s: seq<Block>) {
    exists i | 0 <= i < |s| :: CanonicalAt(l, s[i])
  }

  predicate SomeHash(s: seq<Block>, h: Hash) {
    exists i | 0 <= i < |s| :: s[i].hash == h
  }

  // ---------------------------------------------------------------- changes

  /** One block becomes the head. */
  function Push(l: Ledger, b: Block): Ledger {
    l.(blocks := l.blocks[b.hash := b], canonical := l.canonical[b.number := b.hash], head := Some(b.hash), revision := l.revision + 1)
  }

  function Connect(l: Ledger, s: seq<Block>): Ledger {
    if s == [] then l else Push(Connect(l, s[..|s| - 1]), s[|s| - 1])
  }

  /** Removal of canonical entries, from the last block of the segment to the first. */
  function Disconnect(l: Ledger, s: seq<Block>): Ledger
    decreases |s|
  {
    if s == [] then l
    else Disconnect(l.(canonical := l.canonical - {s[|s| - 1].number}, revision := l.revision + 1), s[..|s| - 1])
  }

  function ConnectRevisions(revision: nat, s: seq<Block>): seq<Revision> {
    if s == [] then []
    else ConnectRevisions(revision, s[..|s| - 1]) + [Revision(s[|s| - 1], CanonicalHead, revision + |s|)]
  }

  function DisconnectRevisions(revision: nat, s: seq<Block>): seq<Revision>
    decreases |s|
  {
    if s == [] then []
    else [Revision(s[|s| - 1], Reorged, revision + 1)] + DisconnectRevisions(revision + 1, s[..|s| - 1])
  }

  // ---------------------------------------------------------------- operations

  function CommitError(l: Ledger, s: seq<Block>): Option<ChainError>
    requires s != []
  {
    if !ValidSegment(s) then Some(DiscontinuousSegment)
    else if AllCanonical(l, s) || l.head.None? then None
    else if l.head.value !in l.blocks then Some(UnknownBlock(l.head.value))
    else if !Follows(l.blocks[l.head.value], s[0]) then Some(SegmentDoesNotExtendHead)
    else None
  }

  function Commit(l: Ledger, s: seq<Block>): (Ledger, Result<seq<Revision>, ChainError>) {
    if s == [] then (l, Ok([]))
    else
      var e := CommitError(l, s);
      if e.Some? then (l, Err(e.value))
      else if AllCanonical(l, s) then (l, Ok([]))
      else (Connect(l, s), Ok(ConnectRevisions(l.revision, s)))
  }

  datatype Flavor = Ethereum | Bsc

  function ReorgError(flavor: Flavor, l: Ledger, finalized: Option<Hash>, removed: seq<Block>, added: seq<Block>): Option<ChainError> {
    if removed == [] || added == [] then Some(EmptyReorgSegment)
    else if !ValidSegment(removed) || !ValidSegment(added) then Some(DiscontinuousSegment)
    else if removed[0].number != added[0].number || removed[0].parent != added[0].parent then Some(ReorgAncestorMismatch)
    else if flavor == Ethereum && l.head.None? then Some(MissingCanonicalHead)
    else if l.head != Some(removed[|removed| - 1].hash) || !AllCanonical(l, removed) then Some(ReorgDoesNotMatchCanonicalSuffix)
    else if finalized.Some? && SomeHash(removed, finalized.value) then Some(FinalizedReversalCritical(finalized.value))
    else if flavor == Ethereum && SomeCanonical(l, added) then Some(ReplacementAlreadyCanonical)
    else None
  }

  function Reorg(flavor: Flavor, l: Ledger, finalized: Option<Hash>, removed: seq<Block>, added: seq<Block>):
      (Ledger, Result<seq<Revision>, ChainError>)
  {
    var e := ReorgError(flavor, l, finalized, removed, added);
    if e.Some? then (l, Err(e.value))
    else (Connect(Disconnect(l, removed), added),
          Ok(DisconnectRevisions(l.revision, removed) + ConnectRevisions(l.revision + |removed|, added)))
  }

  // ---------------------------------------------------------------- lookups

  function LookupError(l: Ledger, h: Hash): Option<ChainError> {
    if h !in l.blocks then Some(UnknownBlock(h))
    else if l.blocks[h].number !in l.canonical || l.canonical[l.blocks[h].number] != h then Some(BlockNotCanonical(h))
    else None
  }

  function Number(l: Ledger, h: Hash): nat
    requires h in l.blocks
  {
    l.blocks[h].number
  }

  /** The same block, or one with a larger number. */
  predicate Advances(l: Ledger, previous: Hash, next: Hash)
    requires previous in l.blocks && next in l.blocks
  {
    previous == next || Number(l, previous) < Number(l, next)
  }

  // ---------------------------------------------------------------- revisions

  function FoldOne(canonical: Index, r: Revision): Index {
    match r.status
    case CanonicalHead => canonical[r.block.number := r.block.hash]
    case Reorged => canonical - {r.block.number}
    case _ => canonical
  }

  /** A consumer's view: head revisions set an entry, reorged revisions drop one. */
  function Fold(canonical: Index, revisions: seq<Revision>): Index {
    if revisions == [] then canonical
    else FoldOne(Fold(canonical, revisions[..|revisions| - 1]), revisions[|revisions| - 1])
  }

  lemma {:induction false} FoldConcat(canonical: Index, a: seq<Revision>, b: seq<Revision>)
    ensures Fold(canonical, a + b) == Fold(Fold(canonical, a), b)
    decreases |b|
  {
    if b == [] {
      assert a + b == a;
    } else {
      assert (a + b)[..|a + b| - 1] == a + b[..|b| - 1];
      FoldConcat(canonical, a, b[..|b| - 1]);
    }
  }

  /** Checkpoint revisions do not touch the index. */
  lemma {:induction false} FoldIgnores(canonical: Index, revisions: seq<Revision>)
    requires forall i | 0 <= i < |revisions| :: revisions[i].status in {Safe, Finalized}
    ensures Fold(canonical, revisions) == canonical
    decreases |revisions|
  {
    if revisions != [] {
      FoldIgnores(canonical, revisions[..|revisions| - 1]);
    }
  }

  /** Revisions are numbered one after the other, from the counter on. */
  ghost predicate Numbered(revisions: seq<Revision>, start: nat) {
    forall i | 0 <= i < |revisions| :: revisions[i].revision == start + i + 1
  }

  lemma {:induction false} ConnectFolds(l: Ledger, s: seq<Block>)
    ensures var rs := ConnectRevisions(l.revision, s);
            && Fold(l.canonical, rs) == Connect(l, s).canonical
            && |rs| == |s| && Numbered(rs, l.revision) && Connect(l, s).revision == l.revision + |s|
    decreases |s|
  {
    if s != [] {
      ConnectFolds(l, s[..|s| - 1]);
      var rs := ConnectRevisions(l.revision, s);
      assert rs[..|rs| - 1] == ConnectRevisions(l.revision, s[..|s| - 1]);
    }
  }

  lemma {:induction false} DisconnectFolds(l: Ledger, s: seq<Block>)
    ensures var rs := DisconnectRevisions(l.revision, s);
            && Fold(l.canonical, rs) == Disconnect(l, s).canonical
            && |rs| == |s| && Numbered(rs, l.revision) && Disconnect(l, s).revision == l.revision + |s|
    decreases |s|
  {
    if s != [] {
      var cut := l.(canonical := l.canonical - {s[|s| - 1].number}, revision := l.revision + 1);
      DisconnectFolds(cut, s[..|s| - 1]);
      var first := [Revision(s[|s| - 1], Reorged, l.revision + 1)];
      FoldConcat(l.canonical, first, DisconnectRevisions(l.revision + 1, s[..|s| - 1]));
      assert first[..0] == [];
    }
  }

  /** The revisions of one operation: numbered from the counter, and folding them gives the new index. */
  ghost predicate Tells(l: Ledger, l': Ledger, revisions: seq<Revision>) {
    && Fold(l.canonical, revisions) == l'.canonical
    && Numbered(revisions, l.revision) && l'.revision == l.revision + |revisions|
  }

  lemma CommitTells(l: Ledger, s: seq<Block>)
    ensures var (l', r) := Commit(l, s);
            match r case Ok(revisions) => Tells(l, l', revisions) case Err(_) => l' == l
  {
    if s != [] {
      ConnectFolds(l, s);
    }
  }

  lemma ReorgTells(flavor: Flavor, l: Ledger, finalized: Option<Hash>, removed: seq<Block>, added: seq<Block>)
    ensures var (l', r) := Reorg(flavor, l, finalized, removed, added);
            match r case Ok(revisions) => Tells(l, l', revisions) case Err(_) => l' == l
  {
    if ReorgError(flavor, l, finalized, removed, added).None? {
      var m := Disconnect(l, removed);
      DisconnectFolds(l, removed);
      ConnectFolds(m, added);
      FoldConcat(l.canonical, DisconnectRevisions(l.revision, removed), ConnectRevisions(m.revision, added));
    }
  }

  /** The block of the last revision with a status. */
  function LastOf(revisions: seq<Revision>, status: Status): Option<Hash> {
    if revisions == [] then None
    else if revisions[|revisions| - 1].status == status then Some(revisions[|revisions| - 1].block.hash)
    else LastOf(revisions[..|revisions| - 1], status)
  }

  lemma {:induction false} LastOfConcat(a: seq<Revision>, b: seq<Revision>, status: Status)
    ensures LastOf(a + b, status) == if LastOf(b, status).Some? then LastOf(b, status) else LastOf(a, status)
    decreases |b|
  {
    if b == [] {
      assert a + b == a;
    } else {
      assert (a + b)[..|a + b| - 1] == a + b[..|b| - 1];
      LastOfConcat(a, b[..|b| - 1], status);
    }
  }

  lemma {:induction false} LastOfAbsent(revisions: seq<Revision>, status: Status)
    requires forall i | 0 <= i < |revisions| :: revisions[i].status != status
    ensures LastOf(revisions, status) == None
    decreases |revisions|
  {
    if revisions != [] {
      LastOfAbsent(revisions[..|revisions| - 1], status);
    }
  }

  lemma {:induction false} ConnectStatuses(revision: nat, s: seq<Block>)
    ensures forall i | 0 <= i < |ConnectRevisions(revision, s)| :: ConnectRevisions(revision, s)[i].status == CanonicalHead
    decreases |s|
  {
    if s != [] {
      ConnectStatuses(revision, s[..|s| - 1]);
    }
  }

  lemma {:induction false} DisconnectStatuses(revision: nat, s: seq<Block>)
    ensures forall i | 0 <= i < |DisconnectRevisions(revision, s)| :: DisconnectRevisions(revision, s)[i].status == Reorged
    decreases |s|
  {
    if s != [] {
      DisconnectStatuses(revision + 1, s[..|s| - 1]);
    }
  }

  /** Commits and reorganisations say nothing about safe or finalized blocks. */
  lemma CommitIsSilent(l: Ledger, s: seq<Block>, status: Status)
    requires status == Safe || status == Finalized
    ensures Commit(l, s).1.Ok? ==> LastOf(Commit(l, s).1.value, status) == None
  {
    if Commit(l, s).1.Ok? {
      ConnectStatuses(l.revision, s);
      LastOfAbsent(Commit(l, s).1.value, status);
    }
  }

  lemma ReorgIsSilent(flavor: Flavor, l: Ledger, finalized: Option<Hash>, removed: seq<Block>, added: seq<Block>, status: Status)
    requires status == Safe || status == Finalized
    ensures var r := Reorg(flavor, l, finalized, removed, added).1;
            r.Ok? ==> LastOf(r.value, status) == None
  {
    var r := Reorg(flavor, l, finalized, removed, added).1;
    if r.Ok? {
      DisconnectStatuses(l.revision, removed);
      ConnectStatuses(l.revision + |removed|, added);
      LastOfAbsent(r.value, status);
    }
  }
}
