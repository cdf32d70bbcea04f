/** The candidate block tree, its chains, and what observing a block does to it. */
module DagSpec {
  import opened Prelude
  import opened BigEndian
  import opened BlockWork
  import opened BitcoinDomain

  datatype Network = Mainnet | Testnet | Signet | Regtest

  /** Consensus rules of one network.  The proof-of-work test and the retarget formula are
      parameters; everything proved holds for all of them. */
  datatype Rules = Rules(
    network: Network,
    genesis: BlockHash,
    hasValidPow: (Block, nat) -> bool,
    retarget: (Block, Block) -> nat)

  datatype DagNode = DagNode(block: Block, parent: Option<BlockHash>, height: nat, work: Work)
  type Nodes = map<BlockHash, DagNode>

  datatype Dag = Dag(nodes: Nodes, tip: Option<BlockHash>, nextRevision: nat)

  datatype Transition =
    | Connected(hash: BlockHash, height: nat, revision: nat)
    | Disconnected(hash: BlockHash, height: nat, revision: nat)

  // ---------------------------------------------------------------- the tree

  ghost predicate NodeOk(genesis: BlockHash, nodes: Nodes, h: BlockHash)
    requires h in nodes
  {
    var n := nodes[h];
    && n.block.hash == h
    && n.height <= U32_MAX
    && match n.parent
       case None => h == genesis && n.height == 0
       case Some(p) => h != genesis && p == n.block.prev && p in nodes && n.height == nodes[p].height + 1
  }

  /** Cumulative work is the parent's cumulative work plus the block's own. */
  ghost predicate WorkOk(nodes: Nodes, h: BlockHash)
    requires h in nodes
  {
    var n := nodes[h];
    match n.parent
    case None => Value(n.work) == Value(n.block.work)
    case Some(p) => p in nodes && Value(n.work) == Value(nodes[p].work) + Value(n.block.work)
  }

  ghost predicate WorksAddUp(nodes: Nodes) {
    forall h {:trigger WorkOk(nodes, h)} | h in nodes :: WorkOk(nodes, h)
  }

  ghost predicate Tree(genesis: BlockHash, nodes: Nodes) {
    forall h {:trigger NodeOk(genesis, nodes, h)} | h in nodes :: NodeOk(genesis, nodes, h)
  }

  /** The chain from genesis to `h`. */
  ghost function Chain(genesis: BlockHash, nodes: Nodes, h: BlockHash): (c: seq<BlockHash>)
    requires Tree(genesis, nodes) && h in nodes
    ensures |c| == nodes[h].height + 1 && c[|c| - 1] == h
    ensures forall i | 0 <= i < |c| :: c[i] in nodes && nodes[c[i]].height == i
    decreases nodes[h].height
  {
    assert NodeOk(genesis, nodes, h);
    match nodes[h].parent
    case None => [h]
    case Some(p) => Chain(genesis, nodes, p) + [h]
  }

  ghost function TipChain(genesis: BlockHash, nodes: Nodes, tip: Option<BlockHash>): seq<BlockHash>
    requires Tree(genesis, nodes) && (tip.Some? ==> tip.value in nodes)
  {
    if tip.None? then [] else Chain(genesis, nodes, tip.value)
  }

  /** A prefix of a chain is the chain of its last block. */
  lemma {:induction false} ChainPrefix(genesis: BlockHash, nodes: Nodes, h: BlockHash, i: nat)
    requires Tree(genesis, nodes) && h in nodes && i <= nodes[h].height
    ensures var c := Chain(genesis, nodes, h);
            Chain(genesis, nodes, c[i]) == c[..i + 1]
    decreases nodes[h].height
  {
    assert NodeOk(genesis, nodes, h);
    var c := Chain(genesis, nodes, h);
    if i < nodes[h].height {
      var p := nodes[h].parent.value;
      ChainPrefix(genesis, nodes, p, i);
      assert c[..i + 1] == Chain(genesis, nodes, p)[..i + 1];
    } else {
      assert c[..i + 1] == c;
    }
  }

  /** Adding blocks never changes the chain of a block already there. */
  lemma {:induction false} ChainStable(genesis: BlockHash, nodes: Nodes, nodes': Nodes, h: BlockHash)
    requires Tree(genesis, nodes) && Tree(genesis, nodes') && h in nodes
    requires forall x | x in nodes :: x in nodes' && nodes'[x] == nodes[x]
    ensures Chain(genesis, nodes', h) == Chain(genesis, nodes, h)
    decreases nodes[h].height
  {
    assert NodeOk(genesis, nodes, h);
    if nodes[h].parent.Some? {
      ChainStable(genesis, nodes, nodes', nodes[h].parent.value);
    }
  }

  /** The work of a chain, block by block. */
  ghost function ChainWork(nodes: Nodes, c: seq<BlockHash>): nat
    requires forall i | 0 <= i < |c| :: c[i] in nodes
  {
    if c == [] then 0 else ChainWork(nodes, c[..|c| - 1]) + Value(nodes[c[|c| - 1]].block.work)
  }

  /** A node's cumulative work is the sum of the works along its ancestry. */
  lemma {:induction false} WorkIsChainWork(genesis: BlockHash, nodes: Nodes, h: BlockHash)
    requires Tree(genesis, nodes) && WorksAddUp(nodes) && h in nodes
    ensures Value(nodes[h].work) == ChainWork(nodes, Chain(genesis, nodes, h))
    decreases nodes[h].height
  {
    assert NodeOk(genesis, nodes, h) && WorkOk(nodes, h);
    var c := Chain(genesis, nodes, h);
    if nodes[h].parent.Some? {
      WorkIsChainWork(genesis, nodes, nodes[h].parent.value);
      assert c[..|c| - 1] == Chain(genesis, nodes, nodes[h].parent.value);
    } else {
      assert c[..0] == [];
    }
  }

  /** A chain starts at genesis and every block names its predecessor as its parent, so the height of
      a node is its distance from genesis. */
  lemma {:induction false} ChainLinks(genesis: BlockHash, nodes: Nodes, h: BlockHash)
    requires Tree(genesis, nodes) && h in nodes
    ensures var c := Chain(genesis, nodes, h);
            && c[0] == genesis
            && (forall i | 0 < i < |c| :: nodes[c[i]].block.prev == c[i - 1])
            && (forall i | 0 <= i < |c| :: nodes[c[i]].block.hash == c[i])
    decreases nodes[h].height
  {
    assert NodeOk(genesis, nodes, h);
    if nodes[h].parent.Some? {
      ChainLinks(genesis, nodes, nodes[h].parent.value);
    }
  }

  /** The block before position `i` of a chain. */
  function Below(c: seq<BlockHash>, i: nat): Option<BlockHash>
    requires i <= |c|
  {
    if i == 0 then None else Some(c[i - 1])
  }

  ghost predicate LinkAt(nodes: Nodes, c: seq<BlockHash>, i: nat)
    requires i < |c| && c[i] in nodes
  {
    nodes[c[i]].parent == Below(c, i)
  }

  /** A list of blocks in which each one's parent is the one before it and the first has none. */
  ghost predicate Linked(nodes: Nodes, c: seq<BlockHash>) {
    && (forall i | 0 <= i < |c| :: c[i] in nodes && nodes[c[i]].height == i)
    && (forall i {:trigger LinkAt(nodes, c, i)} | 0 <= i < |c| :: LinkAt(nodes, c, i))
  }

  lemma LinkedAt(nodes: Nodes, c: seq<BlockHash>, i: nat)
    requires Linked(nodes, c) && i < |c|
    ensures c[i] in nodes && nodes[c[i]].height == i && nodes[c[i]].parent == Below(c, i)
  {
    assert LinkAt(nodes, c, i);
  }

  lemma LinkedSnoc(nodes: Nodes, c: seq<BlockHash>, h: BlockHash)
    requires Linked(nodes, c) && h in nodes && nodes[h].height == |c| && nodes[h].parent == Below(c, |c|)
    ensures Linked(nodes, c + [h])
  {
    forall i | 0 <= i < |c + [h]|
      ensures LinkAt(nodes, c + [h], i)
    {
      if i < |c| {
        LinkedAt(nodes, c, i);
      }
    }
  }

  lemma {:induction false} ChainIsLinked(genesis: BlockHash, nodes: Nodes, h: BlockHash)
    requires Tree(genesis, nodes) && h in nodes
    ensures Linked(nodes, Chain(genesis, nodes, h))
    decreases nodes[h].height
  {
    assert NodeOk(genesis, nodes, h);
    if nodes[h].parent.Some? {
      var p := nodes[h].parent.value;
      ChainIsLinked(genesis, nodes, p);
      LinkedSnoc(nodes, Chain(genesis, nodes, p), h);
    } else {
      LinkedSnoc(nodes, [], h);
      assert [] + [h] == Chain(genesis, nodes, h);
    }
  }

  /** A block on both chains sits at the same place on both, and the chains agree up to it: the
      shared blocks are exactly the common prefix. */
  lemma {:induction false} SharedBlocks(nodes: Nodes, a: seq<BlockHash>, b: seq<BlockHash>, i: nat)
    requires Linked(nodes, a) && Linked(nodes, b) && i < |a|
    ensures a[i] in b <==> i < CommonPrefix(a, b)
  {
    var k := CommonPrefix(a, b);
    assert a[..k] == b[..k];
    if i < k {
      assert a[..k][i] == b[..k][i];
    } else if a[i] in b {
      var j :| 0 <= j < |b| && b[j] == a[i];
      LinkedAt(nodes, a, i);
      LinkedAt(nodes, b, j);
      AgreeBelow(nodes, a, b, i, k);
    }
  }

  lemma {:induction false} AgreeBelow(nodes: Nodes, a: seq<BlockHash>, b: seq<BlockHash>, i: nat, k: nat)
    requires Linked(nodes, a) && Linked(nodes, b) && k <= i < |a| && i < |b| && a[i] == b[i]
    ensures a[k] == b[k]
    decreases i
  {
    if k < i {
      LinkedAt(nodes, a, i);
      LinkedAt(nodes, b, i);
      AgreeBelow(nodes, a, b, i - 1, k);
    }
  }

  // ---------------------------------------------------------------- observing a block

  ghost predicate Heaviest(nodes: Nodes, tip: BlockHash) {
    tip in nodes && forall h | h in nodes :: Value(nodes[h].work) <= Value(nodes[tip].work)
  }

  ghost predicate Inv(r: Rules, d: Dag) {
    && Tree(r.genesis, d.nodes) && WorksAddUp(d.nodes)
    && (d.tip.None? <==> d.nodes == map[])
    && (d.tip.Some? ==> Heaviest(d.nodes, d.tip.value))
    && d.nextRevision <= U64_MAX
  }

  function DifficultyInterval(n: Network): nat {
    if n.Regtest? then 144 else 2016
  }

  predicate NeedsEpochBoundary(n: Network, height: nat)
    ensures NeedsEpochBoundary(n, height) && height > 0 ==> DifficultyInterval(n) <= height
  {
    !n.Regtest? && height % 2016 == 0
  }

  /** The target required on top of the chain `c`: that of its last block, or the retargeted one
      computed from the block one difficulty interval below. */
  ghost function RequiredTarget(r: Rules, nodes: Nodes, c: seq<BlockHash>): nat
    requires c != [] && forall i | 0 <= i < |c| :: c[i] in nodes
  {
    var parent := nodes[c[|c| - 1]].block;
    if NeedsEpochBoundary(r.network, |c|) then
      r.retarget(nodes[c[|c| - DifficultyInterval(r.network)]].block, parent)
    else parent.target
  }

  datatype Context = Context(parent: Option<BlockHash>, height: nat, parentWork: Work, target: nat)

  /** Where a candidate would go, given the chain `c` of its parent. */
  ghost function ContextOn(r: Rules, nodes: Nodes, b: Block, c: seq<BlockHash>): Result<Context, StateError>
    requires b.prev in nodes ==> c != [] && forall i | 0 <= i < |c| :: c[i] in nodes
  {
    if b.hash == r.genesis then Ok(Context(None, 0, Zero(), b.target))
    else if b.prev == ZERO_HASH then Err(InvalidGenesis(b.hash))
    else if b.prev !in nodes then Err(UnknownParent(b.hash, b.prev))
    else if nodes[b.prev].height >= U32_MAX then Err(WorkOverflow(b.hash))
    else Ok(Context(Some(b.prev), nodes[b.prev].height + 1, nodes[b.prev].work, RequiredTarget(r, nodes, c)))
  }

  ghost function CandidateContext(r: Rules, nodes: Nodes, b: Block): Result<Context, StateError>
    requires Tree(r.genesis, nodes)
  {
    ContextOn(r, nodes, b, if b.prev in nodes then Chain(r.genesis, nodes, b.prev) else [])
  }

  /** The node a block would get, or why it is refused. */
  ghost function Candidate(r: Rules, nodes: Nodes, b: Block): Result<DagNode, StateError>
    requires Tree(r.genesis, nodes)
  {
    if !r.hasValidPow(b, b.target) then Err(InvalidProofOfWork(b.hash))
    else
      match CandidateContext(r, nodes, b)
      case Err(e) => Err(e)
      case Ok(c) =>
        if !r.hasValidPow(b, c.target) then Err(InvalidProofOfWork(b.hash))
        else match Sum(c.parentWork, b.work)
          case None => Err(WorkOverflow(b.hash))
          case Some(w) => Ok(DagNode(b, c.parent, c.height, w))
  }

  /** The revision given to the `i`-th correction after `first`. */
  function RevisionAt(first: nat, i: nat): nat {
    if first + i <= U64_MAX then first + i else U64_MAX
  }

  /** Corrections that take the canonical chain from `old` to `new`: everything above the common
      prefix is disconnected from the top down, then the new suffix is connected from the bottom up. */
  function Corrections(old_: seq<BlockHash>, new_: seq<BlockHash>, revision: nat): seq<Transition> {
    var k := CommonPrefix(old_, new_);
    var down := |old_| - k;
    seq(down + |new_| - k, i requires 0 <= i < down + |new_| - k =>
      if i < down then Disconnected(old_[|old_| - 1 - i], |old_| - 1 - i, RevisionAt(revision, i))
      else Connected(new_[k + i - down], k + i - down, RevisionAt(revision, i)))
  }

  ghost function Reorganized(r: Rules, d: Dag, tip: BlockHash): (Dag, seq<Transition>)
    requires Tree(r.genesis, d.nodes) && tip in d.nodes && (d.tip.Some? ==> d.tip.value in d.nodes)
  {
    var ts := Corrections(TipChain(r.genesis, d.nodes, d.tip), Chain(r.genesis, d.nodes, tip), d.nextRevision);
    (Dag(d.nodes, Some(tip), RevisionAt(d.nextRevision, |ts|)), ts)
  }

  ghost predicate Heavier(nodes: Nodes, tip: Option<BlockHash>, w: Work)
    requires tip.Some? ==> tip.value in nodes
  {
    tip.None? || LexLess(nodes[tip.value].work, w)
  }

  /** `observe_block`: the new tree, and the corrections or the error. */
  ghost function Observe(r: Rules, d: Dag, b: Block): (Dag, Result<seq<Transition>, StateError>)
    requires Inv(r, d)
  {
    if b.hash in d.nodes then (d, Ok([]))
    else match Candidate(r, d.nodes, b)
      case Err(e) => (d, Err(e))
      case Ok(node) =>
        InsertKeepsTree(r, d.nodes, b);
        var (d', ts) := Accept(r, d, b.hash, node);
        (d', Ok(ts))
  }

  /** The tree with an admissible node added, moving the tip when the node is strictly heavier. */
  ghost function Accept(r: Rules, d: Dag, h: BlockHash, node: DagNode): (Dag, seq<Transition>)
    requires Inv(r, d) && h !in d.nodes && Tree(r.genesis, d.nodes[h := node])
  {
    var d1 := d.(nodes := d.nodes[h := node]);
    if Heavier(d.nodes, d.tip, node.work) then Reorganized(r, d1, h) else (d1, [])
  }

  lemma InsertKeepsTree(r: Rules, nodes: Nodes, b: Block)
    requires Tree(r.genesis, nodes) && b.hash !in nodes && Candidate(r, nodes, b).Ok?
    ensures Tree(r.genesis, nodes[b.hash := Candidate(r, nodes, b).value])
  {
    var nodes' := nodes[b.hash := Candidate(r, nodes, b).value];
    assert NodeOk(r.genesis, nodes', b.hash);
    forall h | h in nodes && h != b.hash
      ensures NodeOk(r.genesis, nodes', h)
    {
      assert NodeOk(r.genesis, nodes, h);
    }
  }

  lemma InsertAddsUp(r: Rules, nodes: Nodes, b: Block)
    requires Tree(r.genesis, nodes) && WorksAddUp(nodes) && b.hash !in nodes && Candidate(r, nodes, b).Ok?
    ensures WorksAddUp(nodes[b.hash := Candidate(r, nodes, b).value])
  {
    var nodes' := nodes[b.hash := Candidate(r, nodes, b).value];
    var c := CandidateContext(r, nodes, b).value;
    SumIsSum(c.parentWork, b.work);
    ZeroIsZero(WORK_BYTES);
    assert WorkOk(nodes', b.hash);
    forall h | h in nodes && h != b.hash
      ensures WorkOk(nodes', h)
    {
      assert WorkOk(nodes, h);
    }
  }

  // ---------------------------------------------------------------- folding corrections

  /** Reading corrections as stack operations: disconnect pops the named top, connect pushes, each at the height it
      names. */
  function Fold(chain: seq<BlockHash>, ts: seq<Transition>): Option<seq<BlockHash>>
    decreases |ts|
  {
    if ts == [] then Some(chain)
    else match ts[0]
      case Connected(h, height, _) => if height == |chain| then Fold(chain + [h], ts[1..]) else None
      case Disconnected(h, height, _) =>
        if Last(chain) == Some(h) && height == |chain| - 1 then Fold(chain[..|chain| - 1], ts[1..]) else None
  }

  lemma {:induction false} FoldConnects(chain: seq<BlockHash>, new_: seq<BlockHash>, ts: seq<Transition>)
    requires |chain| <= |new_| && chain == new_[..|chain|] && |ts| == |new_| - |chain|
    requires forall i | 0 <= i < |ts| :: ts[i] == Connected(new_[|chain| + i], |chain| + i, ts[i].revision)
    ensures Fold(chain, ts) == Some(new_)
    decreases |ts|
  {
    if ts == [] {
      assert chain == new_;
    } else {
      assert chain + [ts[0].hash] == new_[..|chain| + 1];
      FoldConnects(chain + [ts[0].hash], new_, ts[1..]);
    }
  }

  lemma {:induction false} FoldDisconnects(chain: seq<BlockHash>, k: nat, new_: seq<BlockHash>, ts: seq<Transition>)
    requires k <= |chain| && k <= |new_| && chain[..k] == new_[..k] && |ts| == |chain| - k + |new_| - k
    requires forall i | 0 <= i < |chain| - k :: ts[i] == Disconnected(chain[|chain| - 1 - i], |chain| - 1 - i, ts[i].revision)
    requires forall i | |chain| - k <= i < |ts| ::
               ts[i] == Connected(new_[k + i - (|chain| - k)], k + i - (|chain| - k), ts[i].revision)
    ensures Fold(chain, ts) == Some(new_)
    decreases |chain|
  {
    if |chain| == k {
      assert chain == chain[..k];
      FoldConnects(chain, new_, ts);
    } else {
      var front := chain[..|chain| - 1];
      assert front[..k] == chain[..k];
      FoldDisconnects(front, k, new_, ts[1..]);
    }
  }

  /** Folding the emitted corrections over the old chain gives the new one; no block of the common
      prefix is touched. */
  lemma FoldCorrections(old_: seq<BlockHash>, new_: seq<BlockHash>, revision: nat)
    ensures Fold(old_, Corrections(old_, new_, revision)) == Some(new_)
  {
    FoldDisconnects(old_, CommonPrefix(old_, new_), new_, Corrections(old_, new_, revision));
  }

  // ---------------------------------------------------------------- invariance

  /** Whether `d'` is `d` with at most one more block, `h`. */
  ghost predicate Grows(d: Dag, d': Dag, h: BlockHash) {
    && (forall x | x in d.nodes :: x in d'.nodes && d'.nodes[x] == d.nodes[x])
    && (forall x | x in d'.nodes :: x in d.nodes || x == h)
  }

  lemma AcceptKeepsInv(r: Rules, d: Dag, h: BlockHash, node: DagNode)
    requires Inv(r, d) && h !in d.nodes && Tree(r.genesis, d.nodes[h := node]) && WorksAddUp(d.nodes[h := node])
    ensures var d' := Accept(r, d, h, node).0;
            Inv(r, d') && d'.nodes == d.nodes[h := node]
  {
    if d.tip.Some? {
      LexOrderIsIntegerOrder(d.nodes[d.tip.value].work, node.work);
    }
  }

  /** Observing any block keeps the tree sound and its tip heaviest, and changes nothing already
      in the tree. */
  lemma ObserveKeepsInv(r: Rules, d: Dag, b: Block)
    requires Inv(r, d)
    ensures Inv(r, Observe(r, d, b).0) && Grows(d, Observe(r, d, b).0, b.hash)
    ensures Observe(r, d, b).1.Err? ==> Observe(r, d, b).0 == d
  {
    if b.hash !in d.nodes && Candidate(r, d.nodes, b).Ok? {
      InsertKeepsTree(r, d.nodes, b);
      InsertAddsUp(r, d.nodes, b);
      AcceptKeepsInv(r, d, b.hash, Candidate(r, d.nodes, b).value);
    }
  }

  /** The corrections lead from the old canonical chain to the new one. */
  lemma ObserveCorrects(r: Rules, d: Dag, b: Block)
    requires Inv(r, d) && Inv(r, Observe(r, d, b).0) && Observe(r, d, b).1.Ok?
    ensures var (d', res) := Observe(r, d, b);
            Fold(TipChain(r.genesis, d.nodes, d.tip), res.value) == Some(TipChain(r.genesis, d'.nodes, d'.tip))
  {
    if b.hash !in d.nodes {
      InsertKeepsTree(r, d.nodes, b);
      var nodes' := d.nodes[b.hash := Candidate(r, d.nodes, b).value];
      if d.tip.Some? {
        ChainStable(r.genesis, d.nodes, nodes', d.tip.value);
      }
      FoldCorrections(TipChain(r.genesis, nodes', d.tip), Chain(r.genesis, nodes', b.hash), d.nextRevision);
    }
  }

  /** Only blocks on one of the two chains are touched: what is disconnected leaves the canonical chain and what is
      connected joins it. */
  lemma ObserveTouchesDifferences(r: Rules, d: Dag, b: Block, i: nat)
    requires Inv(r, d) && Inv(r, Observe(r, d, b).0) && Observe(r, d, b).1.Ok? && i < |Observe(r, d, b).1.value|
    ensures var (d', res) := Observe(r, d, b);
            var old_, new_, t := TipChain(r.genesis, d.nodes, d.tip), TipChain(r.genesis, d'.nodes, d'.tip), res.value[i];
            if t.Connected? then t.hash in new_ && t.hash !in old_ else t.hash in old_ && t.hash !in new_
  {
    InsertKeepsTree(r, d.nodes, b);
    var nodes' := d.nodes[b.hash := Candidate(r, d.nodes, b).value];
    var new_ := Chain(r.genesis, nodes', b.hash);
    var old_ := TipChain(r.genesis, nodes', d.tip);
    ChainIsLinked(r.genesis, nodes', b.hash);
    if d.tip.Some? {
      ChainStable(r.genesis, d.nodes, nodes', d.tip.value);
      ChainIsLinked(r.genesis, nodes', d.tip.value);
    }
    CorrectionsTouchDifferences(nodes', old_, new_, d.nextRevision, i);
  }

  lemma CorrectionsTouchDifferences(nodes: Nodes, old_: seq<BlockHash>, new_: seq<BlockHash>, revision: nat, i: nat)
    requires Linked(nodes, old_) && Linked(nodes, new_) && i < |Corrections(old_, new_, revision)|
    ensures var t := Corrections(old_, new_, revision)[i];
            if t.Connected? then t.hash in new_ && t.hash !in old_ else t.hash in old_ && t.hash !in new_
  {
    var k := CommonPrefix(old_, new_);
    var down := |old_| - k;
    if i < down {
      SharedBlocks(nodes, old_, new_, |old_| - 1 - i);
    } else {
      SharedBlocks(nodes, new_, old_, k + i - down);
      PrefixSymmetric(old_, new_);
    }
  }

  /** A tree in good order never reports itself inconsistent, and never misses a retarget boundary. */
  lemma ObserveErrors(r: Rules, d: Dag, b: Block)
    requires Inv(r, d)
    ensures var res := Observe(r, d, b).1;
            res.Err? ==> res.error.InvalidProofOfWork? || res.error.InvalidGenesis?
                         || res.error.UnknownParent? || res.error.WorkOverflow?
  {
  }
}
