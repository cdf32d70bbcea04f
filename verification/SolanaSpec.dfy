/** The Solana fork graph, its commitments, and the account projection as a plain fold.

    The graph here keeps, for every fork, the list of writes that are currently `applied` to the
    projection.  The account map is the fold of those lists along the path from the root to the
    active tip; undo logs do not appear. */
module SolanaSpec {
  import opened Prelude

  datatype ForkId = ForkId(slot: nat, blockhash: nat)

  datatype Commitment = Received | Processed | Confirmed | Finalized | Dead

  function Rank(c: Commitment): nat
    requires c != Dead
  {
    match c
    case Received => 0
    case Processed => 1
    case Confirmed => 2
    case Finalized => 3
  }

  datatype Account = Account(body: nat, version: nat)

  /** `body` stands for owner, lamports, data, executable flag and rent epoch. */
  datatype Write = Write(fork: ForkId, pubkey: nat, version: nat, body: nat)

  type Accounts = map<nat, Account>

  datatype Fork = Fork(parent: Option<ForkId>, commitment: Commitment, writes: seq<Write>, lastVersion: Option<nat>)
  type Nodes = map<ForkId, Fork>

  datatype Graph = Graph(nodes: Nodes, root: Option<ForkId>, active: Option<ForkId>,
                         applied: map<ForkId, seq<Write>>, revision: nat)

  datatype SolanaError =
    | ConflictingForkIdentity
    | UnknownParent
    | DeadParent
    | NonIncreasingSlot
    | MultipleRoots
    | UnknownFork
    | DeadFork
    | CommitmentRegression
    | FinalizedForkWouldDie
    | WriteVersionRegression
    | RevisionOverflow

  datatype CommitmentRevision = CommitmentRevision(revision: nat, fork: ForkId, from: Commitment, to: Commitment)

  // ---------------------------------------------------------------- paths

  ghost predicate NodeOk(nodes: Nodes, root: Option<ForkId>, f: ForkId)
    requires f in nodes
  {
    match nodes[f].parent
    case None => root == Some(f)
    case Some(p) => p in nodes && p.slot < f.slot
  }

  /** Parents are known and have smaller slots; only the root has none. */
  ghost predicate Tree(nodes: Nodes, root: Option<ForkId>) {
    forall f {:trigger NodeOk(nodes, root, f)} | f in nodes :: NodeOk(nodes, root, f)
  }

  /** The forks from the root to `f`. */
  ghost function Path(nodes: Nodes, root: Option<ForkId>, f: ForkId): (p: seq<ForkId>)
    requires Tree(nodes, root) && f in nodes
    ensures p != [] && p[|p| - 1] == f
    ensures forall x | x in p :: x in nodes
    decreases f.slot
  {
    assert NodeOk(nodes, root, f);
    match nodes[f].parent
    case None => [f]
    case Some(q) => Path(nodes, root, q) + [f]
  }

  ghost function TipPath(nodes: Nodes, root: Option<ForkId>, tip: Option<ForkId>): seq<ForkId>
    requires Tree(nodes, root) && (tip.Some? ==> tip.value in nodes)
  {
    if tip.None? then [] else Path(nodes, root, tip.value)
  }

  ghost predicate InOrder(p: seq<ForkId>, i: nat, j: nat)
    requires i < j < |p|
  {
    p[i].slot < p[j].slot
  }

  /** Slots grow along a list of forks. */
  ghost predicate Grows(p: seq<ForkId>) {
    forall i, j {:trigger InOrder(p, i, j)} | 0 <= i < j < |p| :: InOrder(p, i, j)
  }

  lemma GrowsIsDistinct(p: seq<ForkId>, n: nat)
    requires Grows(p) && n < |p|
    ensures p[n] !in p[..n]
  {
    forall i | 0 <= i < n
      ensures p[i] != p[n]
    {
      assert InOrder(p, i, n);
    }
  }

  lemma GrowsOnce(p: seq<ForkId>, i: nat, j: nat)
    requires Grows(p) && i < |p| && j < |p| && p[i] == p[j]
    ensures i == j
  {
    assert i < j ==> InOrder(p, i, j);
    assert j < i ==> InOrder(p, j, i);
  }

  /** Slots grow along a path, so no fork occurs twice. */
  lemma {:induction false} PathGrows(nodes: Nodes, root: Option<ForkId>, f: ForkId)
    requires Tree(nodes, root) && f in nodes
    ensures Grows(Path(nodes, root, f))
    ensures forall x | x in Path(nodes, root, f) :: x.slot <= f.slot
    decreases f.slot
  {
    assert NodeOk(nodes, root, f);
    if nodes[f].parent.Some? {
      var q := nodes[f].parent.value;
      PathGrows(nodes, root, q);
      var below, path := Path(nodes, root, q), Path(nodes, root, f);
      forall i, j | 0 <= i < j < |path|
        ensures InOrder(path, i, j)
      {
        assert below[i] in below;
        assert j < |below| ==> InOrder(below, i, j);
      }
    }
  }

  lemma {:induction false} PathPrefix(nodes: Nodes, root: Option<ForkId>, f: ForkId, i: nat)
    requires Tree(nodes, root) && f in nodes && i < |Path(nodes, root, f)|
    ensures Path(nodes, root, Path(nodes, root, f)[i]) == Path(nodes, root, f)[..i + 1]
    decreases f.slot
  {
    assert NodeOk(nodes, root, f);
    var p := Path(nodes, root, f);
    if i < |p| - 1 {
      var q := nodes[f].parent.value;
      PathPrefix(nodes, root, q, i);
      assert p[..i + 1] == Path(nodes, root, q)[..i + 1];
    } else {
      assert p[..i + 1] == p;
    }
  }

  /** Paths depend only on parents. */
  lemma {:induction false} PathFrame(nodes: Nodes, nodes': Nodes, root: Option<ForkId>, root': Option<ForkId>, f: ForkId)
    requires Tree(nodes, root) && Tree(nodes', root') && f in nodes
    requires forall g | g in nodes :: g in nodes' && nodes'[g].parent == nodes[g].parent
    ensures Path(nodes', root', f) == Path(nodes, root, f)
    decreases f.slot
  {
    assert NodeOk(nodes, root, f);
    if nodes[f].parent.Some? {
      PathFrame(nodes, nodes', root, root', nodes[f].parent.value);
    }
  }

  /** A fork on two paths is at the same place on both: the shared forks are the common prefix. */
  lemma SharedForks(nodes: Nodes, root: Option<ForkId>, a: ForkId, b: ForkId, i: nat)
    requires Tree(nodes, root) && a in nodes && b in nodes && i < |Path(nodes, root, a)|
    ensures var pa, pb := Path(nodes, root, a), Path(nodes, root, b);
            pa[i] in pb <==> i < CommonPrefix(pa, pb)
  {
    var pa, pb := Path(nodes, root, a), Path(nodes, root, b);
    var k := CommonPrefix(pa, pb);
    assert pa[..k] == pb[..k];
    if i < k {
      assert pa[..k][i] == pb[..k][i];
    } else if pa[i] in pb {
      var j :| 0 <= j < |pb| && pb[j] == pa[i];
      PathPrefix(nodes, root, a, i);
      PathPrefix(nodes, root, b, j);
      SameUpTo(pa, pb, i, j, k);
    }
  }

  lemma SameUpTo(pa: seq<ForkId>, pb: seq<ForkId>, i: nat, j: nat, k: nat)
    requires i < |pa| && j < |pb| && pa[..i + 1] == pb[..j + 1] && k <= i
    ensures k < |pb| && pa[k] == pb[k]
  {
    assert |pa[..i + 1]| == |pb[..j + 1]|;
    assert pa[..i + 1][k] == pb[..j + 1][k];
  }

  // ---------------------------------------------------------------- the projection

  function StateOf(w: Write): Account {
    Account(w.body, w.version)
  }

  function ApplyWrites(accounts: Accounts, ws: seq<Write>): Accounts {
    if ws == [] then accounts
    else
      var w := ws[|ws| - 1];
      ApplyWrites(accounts, ws[..|ws| - 1])[w.pubkey := StateOf(w)]
  }

  function WritesOf(applied: map<ForkId, seq<Write>>, f: ForkId): seq<Write> {
    if f in applied then applied[f] else []
  }

  /** The fold of the applied writes along a path. */
  function Projected(applied: map<ForkId, seq<Write>>, path: seq<ForkId>): Accounts {
    if path == [] then map[]
    else ApplyWrites(Projected(applied, path[..|path| - 1]), WritesOf(applied, path[|path| - 1]))
  }

  lemma {:induction false} ProjectedFrame(applied: map<ForkId, seq<Write>>, applied': map<ForkId, seq<Write>>, path: seq<ForkId>)
    requires forall f | f in path :: WritesOf(applied, f) == WritesOf(applied', f)
    ensures Projected(applied, path) == Projected(applied', path)
    decreases |path|
  {
    if path != [] {
      ProjectedFrame(applied, applied', path[..|path| - 1]);
      assert path[|path| - 1] in path;
    }
  }

  // ---------------------------------------------------------------- invariant

  ghost predicate ChildOk(nodes: Nodes, f: ForkId)
    requires f in nodes
  {
    nodes[f].parent.Some? && nodes[f].parent.value in nodes && nodes[nodes[f].parent.value].commitment == Dead ==>
      nodes[f].commitment == Dead
  }

  /** A dead fork has only dead children. */
  ghost predicate DeadClosed(nodes: Nodes) {
    forall f {:trigger ChildOk(nodes, f)} | f in nodes :: ChildOk(nodes, f)
  }

  ghost predicate TipLive(g: Graph) {
    g.active.Some? ==> g.active.value in g.nodes && g.nodes[g.active.value].commitment != Dead
  }

  ghost predicate Inv(g: Graph) {
    && Tree(g.nodes, g.root) && (g.root.Some? ==> g.root.value in g.nodes)
    && DeadClosed(g.nodes) && TipLive(g)
    && g.applied.Keys == g.nodes.Keys
    && (forall f | f in g.nodes && f !in ActivePath(g) :: g.applied[f] == [])
    && g.revision <= U64_MAX
  }

  ghost function ActivePath(g: Graph): seq<ForkId>
    requires Tree(g.nodes, g.root) && TipLive(g)
  {
    TipPath(g.nodes, g.root, g.active)
  }

  /** The account map a graph stands for. */
  ghost function AccountsOf(g: Graph): Accounts
    requires Inv(g)
  {
    Projected(g.applied, ActivePath(g))
  }

  lemma {:induction false} DeadReachesDown(nodes: Nodes, root: Option<ForkId>, f: ForkId, g: ForkId)
    requires Tree(nodes, root) && DeadClosed(nodes) && f in nodes && g in nodes
    requires f in Path(nodes, root, g) && nodes[f].commitment == Dead
    ensures nodes[g].commitment == Dead
    decreases g.slot
  {
    assert NodeOk(nodes, root, g) && ChildOk(nodes, g);
    if f != g {
      DeadReachesDown(nodes, root, f, nodes[g].parent.value);
    }
  }

  // ---------------------------------------------------------------- operations

  const START := Graph(map[], None, None, map[], 0)

  function SlotError(g: Graph, f: ForkId, parent: Option<ForkId>): Option<SolanaError>
    requires f !in g.nodes
  {
    match parent
    case Some(p) =>
      if p !in g.nodes then Some(UnknownParent)
      else if g.nodes[p].commitment == Dead then Some(DeadParent)
      else if f.slot <= p.slot then Some(NonIncreasingSlot)
      else None
    case None => if g.root.Some? then Some(MultipleRoots) else None
  }

  function ObserveSlot(g: Graph, f: ForkId, parent: Option<ForkId>): (Graph, Result<(), SolanaError>) {
    if f in g.nodes then (g, if g.nodes[f].parent == parent then Ok(()) else Err(ConflictingForkIdentity))
    else if SlotError(g, f, parent).Some? then (g, Err(SlotError(g, f, parent).value))
    else (g.(nodes := g.nodes[f := Fork(parent, Received, [], None)],
             applied := g.applied[f := []],
             root := if parent.None? then Some(f) else g.root), Ok(()))
  }

  /** The target of a switch is unknown or dead. */
  function ActivateError(nodes: Nodes, target: Option<ForkId>): Option<SolanaError> {
    if target.None? then None
    else if target.value !in nodes then Some(UnknownFork)
    else if nodes[target.value].commitment == Dead then Some(DeadFork)
    else None
  }

  /** Switching the projection: forks on both paths keep what is applied, forks that come onto the path
      get all their writes, forks that leave it get nothing. */
  ghost function Activated(g: Graph, target: Option<ForkId>): Graph
    requires Inv(g) && ActivateError(g.nodes, target).None?
  {
    var path := ActivePath(g);
    var path' := TipPath(g.nodes, g.root, target);
    g.(active := target,
       applied := map f | f in g.nodes ::
         if f !in path' then [] else if f in path then g.applied[f] else g.nodes[f].writes)
  }

  ghost function Activate(g: Graph, f: ForkId): (Graph, Result<(), SolanaError>)
    requires Inv(g)
  {
    var e := ActivateError(g.nodes, Some(f));
    if e.Some? then (g, Err(e.value)) else (Activated(g, Some(f)), Ok(()))
  }

  function WriteError(g: Graph, w: Write): Option<SolanaError> {
    if w.fork !in g.nodes then Some(UnknownFork)
    else
      var n := g.nodes[w.fork];
      if n.commitment == Dead then Some(DeadFork)
      else if n.lastVersion.Some? && w.version <= n.lastVersion.value then Some(WriteVersionRegression)
      else None
  }

  /** A write is always recorded, and applied at once only on the active tip. */
  function RecordWrite(g: Graph, w: Write): (Graph, Result<(), SolanaError>)
    requires g.applied.Keys == g.nodes.Keys
  {
    if WriteError(g, w).Some? then (g, Err(WriteError(g, w).value))
    else
      var n := g.nodes[w.fork];
      (g.(nodes := g.nodes[w.fork := n.(writes := n.writes + [w], lastVersion := Some(w.version))],
          applied := if g.active == Some(w.fork) then g.applied[w.fork := g.applied[w.fork] + [w]] else g.applied), Ok(()))
  }

  /** A fork and everything that descends from it. */
  ghost function Subtree(g: Graph, f: ForkId): set<ForkId>
    requires Tree(g.nodes, g.root)
  {
    set x | x in g.nodes && f in Path(g.nodes, g.root, x)
  }

  function Killed(nodes: Nodes, dead: set<ForkId>): Nodes {
    map f | f in nodes :: if f in dead then nodes[f].(commitment := Dead) else nodes[f]
  }

  ghost function DeathError(g: Graph, f: ForkId): Option<SolanaError>
    requires Inv(g)
  {
    if f !in g.nodes then Some(UnknownFork)
    else if g.nodes[f].commitment == Finalized then Some(FinalizedForkWouldDie)
    else if g.nodes[f].commitment != Dead && exists x | x in Subtree(g, f) :: g.nodes[x].commitment == Finalized then
      Some(FinalizedForkWouldDie)
    else None
  }

  /** The graph from which the dead subtree is marked: the projection has left it. */
  ghost function Vacated(g: Graph, f: ForkId): Graph
    requires Inv(g) && f in g.nodes && g.nodes[f].commitment != Dead
  {
    ParentIsLive(g, f);
    if g.active.Some? && g.active.value in Subtree(g, f) then Activated(g, g.nodes[f].parent) else g
  }

  /** The projection can always move to the parent of a fork that is about to die. */
  lemma ParentIsLive(g: Graph, f: ForkId)
    requires Inv(g) && f in g.nodes && g.nodes[f].commitment != Dead
    ensures ActivateError(g.nodes, g.nodes[f].parent).None?
  {
    assert NodeOk(g.nodes, g.root, f) && ChildOk(g.nodes, f);
  }

  ghost function MarkDead(g: Graph, f: ForkId): (Graph, Result<Option<CommitmentRevision>, SolanaError>)
    requires Inv(g)
  {
    var e := DeathError(g, f);
    if e.Some? then (g, Err(e.value))
    else if g.nodes[f].commitment == Dead then (g, Ok(None))
    else
      var g1 := Vacated(g, f);
      var g2 := g1.(nodes := Killed(g.nodes, Subtree(g, f)));
      if g.revision == U64_MAX then (g2, Err(RevisionOverflow))
      else (g2.(revision := g.revision + 1),
            Ok(Some(CommitmentRevision(g.revision + 1, f, g.nodes[f].commitment, Dead))))
  }

  ghost function ObserveCommitment(g: Graph, f: ForkId, c: Commitment): (Graph, Result<Option<CommitmentRevision>, SolanaError>)
    requires Inv(g)
  {
    if c == Dead then MarkDead(g, f)
    else if f !in g.nodes then (g, Err(UnknownFork))
    else
      var current := g.nodes[f].commitment;
      if current == c then (g, Ok(None))
      else if current == Dead then (g, Err(DeadFork))
      else if Rank(c) < Rank(current) then (g, Err(CommitmentRegression))
      else if g.revision == U64_MAX then (g, Err(RevisionOverflow))
      else (g.(nodes := g.nodes[f := g.nodes[f].(commitment := c)], revision := g.revision + 1),
            Ok(Some(CommitmentRevision(g.revision + 1, f, current, c))))
  }
}
