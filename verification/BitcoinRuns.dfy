/** What holds after every run of observed blocks. */
module BitcoinRuns {
  import opened Prelude
  import opened BigEndian
  import opened BitcoinDomain
  import opened DagSpec
  import opened UtxoSpec
  import opened UtxoValue
  import opened UtxoOverflow
  import opened BitcoinSpec

  /** The invariant of the composed state: a sound tree, and a projection, journals included, that
      is exactly the replay of the canonical chain. */
  ghost predicate StateInv(r: Rules, s: State) {
    && Inv(r, s.dag)
    && Projects(s.dag.nodes, TipChain(r.genesis, s.dag.nodes, s.dag.tip), s.utxo)
  }

  ghost const Initial := State(Dag(map[], None, 1), EMPTY)

  lemma InitialInv(r: Rules)
    ensures StateInv(r, Initial)
  {
    assert Blocks(map[], []) == [];
  }

  /** Adding nodes does not change what a chain of existing nodes projects to. */
  lemma ProjectsStable(nodes: Nodes, nodes': Nodes, c: seq<BlockHash>, u: Utxo)
    requires Projects(nodes, c, u)
    requires forall x | x in nodes :: x in nodes' && nodes'[x] == nodes[x]
    ensures Projects(nodes', c, u)
  {
    assert Blocks(nodes', c) == Blocks(nodes, c);
  }

  lemma ObserveIsProper(r: Rules, d: Dag, b: Block)
    requires Inv(r, d) && Inv(r, Observe(r, d, b).0) && Observe(r, d, b).1.Ok?
    ensures var (d', res) := Observe(r, d, b);
            Proper(d'.nodes, TipChain(r.genesis, d.nodes, d.tip), res.value)
  {
    if b.hash !in d.nodes {
      InsertKeepsTree(r, d.nodes, b);
      var nodes' := d.nodes[b.hash := Candidate(r, d.nodes, b).value];
      if d.tip.Some? {
        ChainStable(r.genesis, d.nodes, nodes', d.tip.value);
      }
      ChainIsNamed(r.genesis, nodes', b.hash);
      ProperCorrections(nodes', TipChain(r.genesis, nodes', d.tip), Chain(r.genesis, nodes', b.hash), d.nextRevision);
    }
  }

  /** Every observed block, accepted or refused, keeps the invariant, and a refused one changes
      nothing. */
  lemma StepKeepsInv(r: Rules, s: State, b: Block)
    requires StateInv(r, s)
    ensures StateInv(r, Step(r, s, b).0)
    ensures Step(r, s, b).1.Err? ==> Step(r, s, b).0 == s
  {
    ObserveKeepsInv(r, s.dag, b);
    var (d, res) := Observe(r, s.dag, b);
    if res.Ok? {
      var c := TipChain(r.genesis, s.dag.nodes, s.dag.tip);
      ObserveCorrects(r, s.dag, b);
      ObserveIsProper(r, s.dag, b);
      ProjectsStable(s.dag.nodes, d.nodes, c, s.utxo);
      DriveReplays(d.nodes, c, s.utxo, res.value);
    }
  }

  lemma ObserveGoesDownThenUp(r: Rules, d: Dag, b: Block)
    requires Inv(r, d) && Observe(r, d, b).1.Ok?
    ensures DownThenUp(Observe(r, d, b).1.value)
  {
  }

  /** The chain that observing `b` would make canonical. */
  ghost function ChainAfter(r: Rules, d: Dag, b: Block): (c: seq<BlockHash>)
    requires Inv(r, d)
    ensures forall i | 0 <= i < |c| :: c[i] in Observe(r, d, b).0.nodes
  {
    ObserveKeepsInv(r, d, b);
    var d' := Observe(r, d, b).0;
    TipChain(r.genesis, d'.nodes, d'.tip)
  }

  /** A block past its header checks can only be refused because a block of the chain it makes canonical
      is, on the exact replay of that chain below it. */
  lemma StepRefusals(r: Rules, s: State, b: Block)
    requires StateInv(r, s) && Observe(r, s.dag, b).1.Ok? && Step(r, s, b).1.Err?
    ensures RefusedOnTheWay(Observe(r, s.dag, b).0.nodes, ChainAfter(r, s.dag, b), Step(r, s, b).1.error)
  {
    ObserveKeepsInv(r, s.dag, b);
    var (d, res) := Observe(r, s.dag, b);
    var c := TipChain(r.genesis, s.dag.nodes, s.dag.tip);
    ObserveCorrects(r, s.dag, b);
    ObserveIsProper(r, s.dag, b);
    ObserveGoesDownThenUp(r, s.dag, b);
    ProjectsStable(s.dag.nodes, d.nodes, c, s.utxo);
    DriveRefusals(d.nodes, c, s.utxo, res.value);
  }

  /** The only errors a block can meet: its own header is refused, or a block of the chain it would
      make canonical is refused for a ledger reason on the exact replay of that chain below it.  The errors
      of a broken tree, an out-of-order disconnect, a misplaced connect and a failed revert cannot happen. */
  lemma StepErrors(r: Rules, s: State, b: Block)
    requires StateInv(r, s) && Step(r, s, b).1.Err?
    ensures var e := Step(r, s, b).1.error;
            || e.InvalidProofOfWork? || e.InvalidGenesis? || e.UnknownParent? || e.WorkOverflow?
            || (RefusedOnTheWay(Observe(r, s.dag, b).0.nodes, ChainAfter(r, s.dag, b), e)
                && (e.MissingPrevout? || e.DuplicateOutpoint? || e.NegativeFee? || e.AmountOverflow? || e.InconsistentUtxo?))
  {
    ObserveErrors(r, s.dag, b);
    if Observe(r, s.dag, b).1.Ok? {
      StepRefusals(r, s, b);
      var nodes, goal, e := Observe(r, s.dag, b).0.nodes, ChainAfter(r, s.dag, b), Step(r, s, b).1.error;
      var i: nat, u :| i < |goal| && RefusedAt(nodes, goal[..i], u, goal[i], e);
      RefusalErrors(u, nodes[goal[i]].block);
    }
  }

  /** A block that extends the projection is refused for a ledger reason; the undo journal can only
      get stuck after an input-sum overflow. */
  lemma RefusalErrors(u: Utxo, b: Block)
    requires Extends(u, b) && ApplyBlock(u, b).1.Err?
    ensures var e := ApplyBlock(u, b).1.error;
            && (e.MissingPrevout? || e.DuplicateOutpoint? || e.NegativeFee? || e.AmountOverflow? || e.InconsistentUtxo?)
            && (e.InconsistentUtxo? ==> IsOverflow(ApplyTxs(u.entries, b.txs)))
  {
    AtomicIffNoInputSumOverflow(u, b);
  }

  // ---------------------------------------------------------------- runs

  /** The state after observing the blocks in order. */
  ghost function Run(r: Rules, observed: seq<Block>): (s: State)
    ensures StateInv(r, s)
    decreases |observed|
  {
    InitialInv(r);
    if observed == [] then Initial
    else
      var s := Run(r, observed[..|observed| - 1]);
      var b := observed[|observed| - 1];
      StepKeepsInv(r, s, b);
      Step(r, s, b).0
  }

  /** After any sequence of observed blocks, with any reorganisations and refusals, the UTXO state
      equals the replay of the canonical chain from nothing, and the stack of applied blocks is that
      chain. */
  lemma RunIsReplay(r: Rules, observed: seq<Block>)
    ensures var s := Run(r, observed);
            var chain := TipChain(r.genesis, s.dag.nodes, s.dag.tip);
            && Replay(CanonicalBlocks(r, s.dag)) == Some(s.utxo)
            && |s.utxo.applied| == |chain|
            && forall i | 0 <= i < |chain| :: s.utxo.applied[i].hash == chain[i]
  {
    ReplayStack(CanonicalBlocks(r, Run(r, observed).dag));
  }

  /** Along the canonical chain of any run, unspent value plus fees paid is what coinbases created. */
  lemma RunConservesValue(r: Rules, observed: seq<Block>)
    ensures var s := Run(r, observed);
            var blocks := CanonicalBlocks(r, s.dag);
            && Replay(blocks).Some? && ChainFees(blocks) >= 0
            && Total(s.utxo.entries) + ChainFees(blocks) == ChainMinted(blocks)
  {
    RunIsReplay(r, observed);
    ReplayConservesValue(CanonicalBlocks(r, Run(r, observed).dag));
  }

  function ChainMinted(blocks: seq<Block>): nat {
    if blocks == [] then 0 else ChainMinted(blocks[..|blocks| - 1]) + Minted(blocks[|blocks| - 1].txs)
  }

  function ChainFees(blocks: seq<Block>): int
    requires Replay(blocks).Some?
    decreases |blocks|
  {
    if blocks == [] then 0
    else
      var front := blocks[..|blocks| - 1];
      var b := blocks[|blocks| - 1];
      assert ApplyBlock(Replay(front).value, b).1.Ok?;
      ChainFees(front) + Fees(Replay(front).value.entries, b.txs)
  }

  lemma {:induction false} ReplayConservesValue(blocks: seq<Block>)
    requires Replay(blocks).Some?
    ensures Total(Replay(blocks).value.entries) + ChainFees(blocks) == ChainMinted(blocks)
    ensures ChainFees(blocks) >= 0
    decreases |blocks|
  {
    if blocks != [] {
      var front := blocks[..|blocks| - 1];
      ReplayConservesValue(front);
      BlockConservesValue(Replay(front).value.entries, blocks[|blocks| - 1].txs);
    }
  }

  // ---------------------------------------------------------------- a supply that fits

  lemma {:induction false} MintedGrows(blocks: seq<Block>, n: nat)
    requires n <= |blocks|
    ensures ChainMinted(blocks[..n]) <= ChainMinted(blocks)
    decreases |blocks|
  {
    if n < |blocks| {
      var front := blocks[..|blocks| - 1];
      assert front[..n] == blocks[..n];
      MintedGrows(front, n);
    } else {
      assert blocks[..n] == blocks;
    }
  }

  /** On a chain whose coinbases fit in 64 bits, every block is atomic on the replay below it. */
  lemma SupplyFitsAlongChain(blocks: seq<Block>, i: nat)
    requires ChainMinted(blocks) <= U64_MAX && i < |blocks| && Replay(blocks[..i]).Some?
    ensures Atomic(Replay(blocks[..i]).value, blocks[i])
  {
    MintedGrows(blocks, i + 1);
    assert blocks[..i + 1][..i] == blocks[..i];
    ReplayConservesValue(blocks[..i]);
    SupplyFitsIsAtomic(Replay(blocks[..i]).value, blocks[i]);
  }

  /** While the coinbases of the chain a block would make canonical fit in 64 bits, no run meets an
      inconsistent projection: a block past its header checks is refused only for the reason the transactions
      of a block on that chain failed. */
  lemma NoInconsistencyWhileSupplyFits(r: Rules, observed: seq<Block>, b: Block)
    requires var d := Run(r, observed).dag;
             ChainMinted(Blocks(Observe(r, d, b).0.nodes, ChainAfter(r, d, b))) <= U64_MAX
    ensures var s := Run(r, observed);
            var (d', res) := Observe(r, s.dag, b);
            var e := Step(r, s, b).1;
            && !(e.Err? && e.error.InconsistentUtxo?)
            && (res.Ok? && e.Err? ==> RefusedForItsTxs(d'.nodes, ChainAfter(r, s.dag, b), e.error))
  {
    var s := Run(r, observed);
    ObserveErrors(r, s.dag, b);
    if Observe(r, s.dag, b).1.Ok? && Step(r, s, b).1.Err? {
      StepRefusals(r, s, b);
      RefusalNamesItsTxs(Observe(r, s.dag, b).0.nodes, ChainAfter(r, s.dag, b), Step(r, s, b).1.error);
    }
  }

  /** A block of the chain has a transaction that fails on the replay below it, and `e` says which and why. */
  ghost predicate RefusedForItsTxs(nodes: Nodes, goal: seq<BlockHash>, e: StateError) {
    exists i: nat, u: Utxo :: i < |goal| && RefusedAt(nodes, goal[..i], u, goal[i], e)
                              && FailsWith(u, nodes[goal[i]].block, e)
  }

  ghost predicate FailsWith(u: Utxo, b: Block, e: StateError) {
    var failure := ApplyTxs(u.entries, b.txs).failure;
    failure.Some? && e == ToError(b.hash, failure.value)
  }

  lemma RefusalNamesItsTxs(nodes: Nodes, goal: seq<BlockHash>, e: StateError)
    requires (forall i | 0 <= i < |goal| :: goal[i] in nodes) && ChainMinted(Blocks(nodes, goal)) <= U64_MAX
    requires RefusedOnTheWay(nodes, goal, e)
    ensures RefusedForItsTxs(nodes, goal, e) && !e.InconsistentUtxo?
  {
    var i: nat, u :| i < |goal| && RefusedAt(nodes, goal[..i], u, goal[i], e);
    var blocks := Blocks(nodes, goal);
    assert blocks[..i] == Blocks(nodes, goal[..i]);
    SupplyFitsAlongChain(blocks, i);
    AtomicIffNoInputSumOverflow(u, blocks[i]);
    assert FailsWith(u, nodes[goal[i]].block, e);
  }

  // ---------------------------------------------------------------- equal tips, equal state

  /** A block hash names one block. */
  ghost predicate HashesIdentify(observed: seq<Block>, observed': seq<Block>) {
    forall b, b' | b in observed && b' in observed' && b.hash == b'.hash :: b == b'
  }

  lemma {:induction false} NodesWereObserved(r: Rules, observed: seq<Block>, h: BlockHash)
    requires h in Run(r, observed).dag.nodes
    ensures Run(r, observed).dag.nodes[h].block in observed
    decreases |observed|
  {
    if observed != [] {
      var front := observed[..|observed| - 1];
      RunRecords(r, observed, h);
      if h in Run(r, front).dag.nodes {
        NodesWereObserved(r, front, h);
      }
    }
  }

  lemma RunRecords(r: Rules, observed: seq<Block>, h: BlockHash)
    requires observed != [] && h in Run(r, observed).dag.nodes
    ensures var before := Run(r, observed[..|observed| - 1]).dag.nodes;
            Run(r, observed).dag.nodes[h].block == if h in before then before[h].block else observed[|observed| - 1]
  {
    StepRecords(r, Run(r, observed[..|observed| - 1]), observed[|observed| - 1], h);
  }

  lemma StepRecords(r: Rules, s: State, b: Block, h: BlockHash)
    requires StateInv(r, s)
    ensures var nodes' := Step(r, s, b).0.dag.nodes;
            h in nodes' ==> nodes'[h].block == (if h in s.dag.nodes then s.dag.nodes[h].block else b)
  {
    ObserveKeepsInv(r, s.dag, b);
    ObserveRecords(r, s.dag, b);
  }

  lemma ObserveRecords(r: Rules, d: Dag, b: Block)
    requires Inv(r, d)
    ensures var d' := Observe(r, d, b).0;
            b.hash !in d.nodes && b.hash in d'.nodes ==> d'.nodes[b.hash].block == b
  {
  }

  /** Two trees that agree on which block a hash names have the same chain below a shared block. */
  lemma {:induction false} SameChain(r: Rules, n: Nodes, n': Nodes, h: BlockHash)
    requires Tree(r.genesis, n) && Tree(r.genesis, n') && h in n && h in n'
    requires forall x | x in n && x in n' :: n[x].block == n'[x].block
    ensures Chain(r.genesis, n, h) == Chain(r.genesis, n', h)
    ensures Blocks(n, Chain(r.genesis, n, h)) == Blocks(n', Chain(r.genesis, n', h))
    decreases n[h].height
  {
    assert NodeOk(r.genesis, n, h) && NodeOk(r.genesis, n', h);
    if h != r.genesis {
      SameChain(r, n, n', n[h].block.prev);
    }
  }

  /** Two runs that end at the same tip hold the same UTXO state, however they got there. */
  lemma SameTipSameState(r: Rules, observed: seq<Block>, observed': seq<Block>)
    requires HashesIdentify(observed, observed')
    requires Run(r, observed).dag.tip == Run(r, observed').dag.tip
    ensures Run(r, observed).utxo == Run(r, observed').utxo
  {
    var s, s' := Run(r, observed), Run(r, observed');
    RunIsReplay(r, observed);
    RunIsReplay(r, observed');
    if s.dag.tip.Some? {
      var n, n' := s.dag.nodes, s'.dag.nodes;
      forall x | x in n && x in n'
        ensures n[x].block == n'[x].block
      {
        NodesWereObserved(r, observed, x);
        NodesWereObserved(r, observed', x);
        assert NodeOk(r.genesis, n, x) && NodeOk(r.genesis, n', x);
      }
      SameChain(r, n, n', s.dag.tip.value);
    }
  }

  // ---------------------------------------------------------------- the tip

  /** The hashes accepted during a run, in the order of acceptance. */
  ghost function Accepted(r: Rules, observed: seq<Block>): seq<BlockHash>
    decreases |observed|
  {
    if observed == [] then []
    else
      var front := observed[..|observed| - 1];
      var h := observed[|observed| - 1].hash;
      if h in Run(r, observed).dag.nodes && h !in Run(r, front).dag.nodes then Accepted(r, front) + [h]
      else Accepted(r, front)
  }

  /** Position `i` holds the earliest of the heaviest blocks of `order`. */
  ghost predicate FirstAt(nodes: Nodes, order: seq<BlockHash>, i: int) {
    && 0 <= i < |order|
    && (forall h | h in order :: h in nodes)
    && (forall j | 0 <= j < |order| :: Value(nodes[order[j]].work) <= Value(nodes[order[i]].work))
    && (forall j | 0 <= j < i :: Value(nodes[order[j]].work) < Value(nodes[order[i]].work))
  }

  /** `tip` is the earliest of the heaviest blocks, which are listed in the order `order`. */
  ghost predicate FirstHeaviest(nodes: Nodes, order: seq<BlockHash>, tip: Option<BlockHash>) {
    && (forall h :: h in order <==> h in nodes)
    && (tip.None? <==> order == [])
    && (tip.Some? ==> exists i :: FirstAt(nodes, order, i) && order[i] == tip.value)
  }

  lemma StepKeepsFirstHeaviest(r: Rules, s: State, b: Block, order: seq<BlockHash>)
    requires StateInv(r, s) && FirstHeaviest(s.dag.nodes, order, s.dag.tip)
    ensures var d' := Step(r, s, b).0.dag;
            FirstHeaviest(d'.nodes, if b.hash in d'.nodes && b.hash !in s.dag.nodes then order + [b.hash] else order, d'.tip)
  {
    var d := s.dag;
    var d' := Step(r, s, b).0.dag;
    if b.hash !in d.nodes && Candidate(r, d.nodes, b).Ok? && d' != d {
      var node := Candidate(r, d.nodes, b).value;
      InsertKeepsTree(r, d.nodes, b);
      AcceptKeepsFirstHeaviest(r, d, b.hash, node, order);
    }
  }

  lemma FirstAtAppend(nodes: Nodes, order: seq<BlockHash>, i: int, h: BlockHash, node: DagNode)
    requires FirstAt(nodes, order, i) && h !in nodes
    ensures Value(node.work) <= Value(nodes[order[i]].work) ==> FirstAt(nodes[h := node], order + [h], i)
    ensures Value(node.work) > Value(nodes[order[i]].work) ==> FirstAt(nodes[h := node], order + [h], |order|)
  {
    var nodes', order' := nodes[h := node], order + [h];
    assert forall j | 0 <= j < |order| :: order[j] in nodes && order'[j] == order[j] && nodes'[order'[j]] == nodes[order[j]];
  }

  lemma AcceptKeepsFirstHeaviest(r: Rules, d: Dag, h: BlockHash, node: DagNode, order: seq<BlockHash>)
    requires Inv(r, d) && h !in d.nodes && Tree(r.genesis, d.nodes[h := node]) && FirstHeaviest(d.nodes, order, d.tip)
    ensures var d' := Accept(r, d, h, node).0;
            FirstHeaviest(d'.nodes, order + [h], d'.tip)
  {
    if d.tip.Some? {
      LexOrderIsIntegerOrder(d.nodes[d.tip.value].work, node.work);
      var i :| FirstAt(d.nodes, order, i) && order[i] == d.tip.value;
      FirstAtAppend(d.nodes, order, i, h, node);
    } else {
      assert FirstAt(d.nodes[h := node], order + [h], 0);
    }
  }

  /** In every run the canonical tip is the earliest accepted block among those of maximal
      cumulative work. */
  lemma {:induction false} TipIsFirstHeaviest(r: Rules, observed: seq<Block>)
    ensures var d := Run(r, observed).dag;
            FirstHeaviest(d.nodes, Accepted(r, observed), d.tip)
    decreases |observed|
  {
    if observed != [] {
      var front := observed[..|observed| - 1];
      TipIsFirstHeaviest(r, front);
      StepKeepsFirstHeaviest(r, Run(r, front), observed[|observed| - 1], Accepted(r, front));
    }
  }
}
