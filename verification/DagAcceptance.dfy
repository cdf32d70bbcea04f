/** Which blocks enter the tree, said of the block and the chain of its parent. */
module DagAcceptance {
  import opened Prelude
  import opened BigEndian
  import opened BlockWork
  import opened BitcoinDomain
  import opened DagSpec
  import opened BitcoinSpec
  import opened BitcoinRuns

  /** Two to the power of 256. */
  const WORK_LIMIT: nat := 0x1_0000_0000_0000_0000_0000_0000_0000_0000_0000_0000_0000_0000_0000_0000_0000_0000

  lemma WorkLimitIs()
    ensures Pow256(WORK_BYTES) == WORK_LIMIT
  {
    assert Pow256(8) == 0x1_0000_0000_0000_0000;
    assert Pow256(16) == 0x1_0000_0000_0000_0000_0000_0000_0000_0000;
    assert Pow256(24) == 0x1_0000_0000_0000_0000_0000_0000_0000_0000_0000_0000_0000_0000;
  }

  /** There is a place for the block: it is the genesis block, or it names a known parent with a height to spare. */
  ghost predicate Placed(r: Rules, nodes: Nodes, b: Block) {
    b.hash == r.genesis || (b.prev != BlockHash(0) && b.prev in nodes && nodes[b.prev].height < 0xFFFF_FFFF)
  }

  /** The target its place asks of the block: its own for genesis; off regtest, at a height divisible by 2016, the one
      retargeted over the last 2016 blocks; otherwise that of its parent. */
  ghost function Demanded(r: Rules, nodes: Nodes, b: Block): nat
    requires Tree(r.genesis, nodes) && Placed(r, nodes, b)
  {
    if b.hash == r.genesis then b.target
    else
      var parent := nodes[b.prev];
      var height := parent.height + 1;
      if r.network != Regtest && height % 2016 == 0 then
        r.retarget(nodes[Chain(r.genesis, nodes, b.prev)[height - 2016]].block, parent.block)
      else parent.block.target
  }

  /** The work below the block, as an integer. */
  function WorkBelow(r: Rules, nodes: Nodes, b: Block): nat
    requires b.hash != r.genesis ==> b.prev in nodes
  {
    if b.hash == r.genesis then 0 else Value(nodes[b.prev].work)
  }

  lemma ContextIs(r: Rules, nodes: Nodes, b: Block)
    requires Tree(r.genesis, nodes)
    ensures CandidateContext(r, nodes, b).Ok? <==> Placed(r, nodes, b)
    ensures Placed(r, nodes, b) ==>
              var c := CandidateContext(r, nodes, b).value;
              c.target == Demanded(r, nodes, b) && Value(c.parentWork) == WorkBelow(r, nodes, b)
  {
    ZeroIsZero(WORK_BYTES);
  }

  /** The conditions under which an unknown block is accepted. */
  ghost predicate Acceptable(r: Rules, nodes: Nodes, b: Block)
    requires Tree(r.genesis, nodes)
  {
    && r.hasValidPow(b, b.target)
    && Placed(r, nodes, b) && r.hasValidPow(b, Demanded(r, nodes, b))
    && WorkBelow(r, nodes, b) + Value(b.work) < WORK_LIMIT
  }

  /** An unknown block enters the tree if and only if it has valid work for its own target and for the one its place
      demands, there is a place for it, and its cumulative work is below 2^256; the node holds that block. */
  lemma EntersIff(r: Rules, d: Dag, b: Block)
    requires Inv(r, d) && b.hash !in d.nodes
    ensures b.hash in Observe(r, d, b).0.nodes <==> Acceptable(r, d.nodes, b)
    ensures Observe(r, d, b).1.Ok? <==> Acceptable(r, d.nodes, b)
    ensures Acceptable(r, d.nodes, b) ==> Observe(r, d, b).0.nodes[b.hash].block == b
  {
    ContextIs(r, d.nodes, b);
    WorkLimitIs();
    ObserveRecords(r, d, b);
    if CandidateContext(r, d.nodes, b).Ok? {
      SumIsSum(CandidateContext(r, d.nodes, b).value.parentWork, b.work);
    }
  }

  /** Why an unknown block is refused. */
  lemma RefusedFor(r: Rules, d: Dag, b: Block)
    requires Inv(r, d) && b.hash !in d.nodes
    ensures var e, pow, placed := Observe(r, d, b).1, r.hasValidPow(b, b.target), Placed(r, d.nodes, b);
            && (e == Err(InvalidProofOfWork(b.hash)) <==> !pow || (placed && !r.hasValidPow(b, Demanded(r, d.nodes, b))))
            && (e == Err(InvalidGenesis(b.hash)) <==> pow && b.hash != r.genesis && b.prev == BlockHash(0))
            && (e == Err(UnknownParent(b.hash, b.prev)) <==>
                  pow && b.hash != r.genesis && b.prev != BlockHash(0) && b.prev !in d.nodes)
            && (e == Err(WorkOverflow(b.hash)) <==>
                  && pow && (placed || (b.prev != BlockHash(0) && b.prev in d.nodes))
                  && (placed ==> r.hasValidPow(b, Demanded(r, d.nodes, b))
                                 && WorkBelow(r, d.nodes, b) + Value(b.work) >= WORK_LIMIT))
  {
    ContextIs(r, d.nodes, b);
    WorkLimitIs();
    if CandidateContext(r, d.nodes, b).Ok? {
      SumIsSum(CandidateContext(r, d.nodes, b).value.parentWork, b.work);
    }
  }

  /** A block seen again changes nothing. */
  lemma SeenAgain(r: Rules, d: Dag, b: Block)
    requires Inv(r, d) && b.hash in d.nodes
    ensures Observe(r, d, b) == (d, Ok([]))
  {
  }

  // ---------------------------------------------------------------- runs

  /** A node with valid work for its own target and for the one its place demands. */
  ghost predicate Worked(r: Rules, nodes: Nodes, h: BlockHash)
    requires Tree(r.genesis, nodes) && h in nodes
  {
    var b := nodes[h].block;
    r.hasValidPow(b, b.target) && Placed(r, nodes, b) && r.hasValidPow(b, Demanded(r, nodes, b))
  }

  lemma DemandedStable(r: Rules, nodes: Nodes, nodes': Nodes, b: Block)
    requires Tree(r.genesis, nodes) && Tree(r.genesis, nodes') && Placed(r, nodes, b)
    requires forall x | x in nodes :: x in nodes' && nodes'[x] == nodes[x]
    ensures Placed(r, nodes', b) && Demanded(r, nodes', b) == Demanded(r, nodes, b)
  {
    if b.hash != r.genesis {
      ChainStable(r.genesis, nodes, nodes', b.prev);
    }
  }

  lemma StepKeepsWorked(r: Rules, s: State, b: Block, h: BlockHash)
    requires StateInv(r, s) && StateInv(r, Step(r, s, b).0) && h in Step(r, s, b).0.dag.nodes
    requires h in s.dag.nodes ==> Worked(r, s.dag.nodes, h)
    ensures Worked(r, Step(r, s, b).0.dag.nodes, h)
  {
    ObserveKeepsInv(r, s.dag, b);
    var nodes, nodes' := s.dag.nodes, Step(r, s, b).0.dag.nodes;
    if h in nodes {
      DemandedStable(r, nodes, nodes', nodes[h].block);
    } else {
      EntersIff(r, s.dag, b);
      DemandedStable(r, nodes, nodes', b);
    }
  }

  /** In every run every block of the tree has valid work for its own target and for the one its place demands. */
  lemma {:induction false} RunIsWorked(r: Rules, observed: seq<Block>, h: BlockHash)
    requires h in Run(r, observed).dag.nodes
    ensures Worked(r, Run(r, observed).dag.nodes, h)
    decreases |observed|
  {
    if observed != [] {
      var front := observed[..|observed| - 1];
      if h in Run(r, front).dag.nodes {
        RunIsWorked(r, front, h);
      }
      StepKeepsWorked(r, Run(r, front), observed[|observed| - 1], h);
    }
  }
}
