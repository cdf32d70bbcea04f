/** The in-memory candidate tree with heaviest-chain selection, changed in place. */
module CanonicalityState {
  import opened Prelude
  import opened BigEndian
  import opened BlockWork
  import opened BitcoinDomain
  import opened DagSpec

  class CanonicalityState {
    const rules: Rules
    var nodes: Nodes
    var tip: Option<BlockHash>
    var nextRevision: nat

    ghost function State(): Dag
      reads this
    {
      Dag(nodes, tip, nextRevision)
    }

    ghost predicate Valid()
      reads this
    {
      Inv(rules, State())
    }

    constructor (rules: Rules)
      ensures this.rules == rules
      ensures State() == Dag(map[], None, 1) && Valid()
    {
      this.rules := rules;
      nodes, tip, nextRevision := map[], None, 1;
    }

    /** A copy that shares nothing with the original. */
    constructor Clone(other: CanonicalityState)
      ensures rules == other.rules && State() == other.State()
    {
      rules := other.rules;
      nodes, tip, nextRevision := other.nodes, other.tip, other.nextRevision;
    }

    /** Validates and adds a block and returns the ordered canonical corrections. */
    method ObserveBlock(block: Block) returns (r: Result<seq<Transition>, StateError>)
      requires Valid()
      modifies this
      ensures Valid()
      ensures (State(), r) == Observe(rules, old(State()), block)
    {
      var hash := block.hash;
      if hash in nodes {
        return Ok([]);
      }
      if !rules.hasValidPow(block, block.target) {
        return Err(InvalidProofOfWork(hash));
      }
      ghost var c := [];
      if block.prev in nodes {
        c := Chain(rules.genesis, nodes, block.prev);
        ChainIsLinked(rules.genesis, nodes, block.prev);
      }
      var context := ValidateCandidateContext(block, c);
      if context.Err? {
        return Err(context.error);
      }
      if !rules.hasValidPow(block, context.value.target) {
        return Err(InvalidProofOfWork(hash));
      }
      var work := CheckedAdd(context.value.parentWork, block.work);
      if work.None? {
        return Err(WorkOverflow(hash));
      }
      var node := DagNode(block, context.value.parent, context.value.height, work.value);
      InsertKeepsTree(rules, nodes, block);
      InsertAddsUp(rules, nodes, block);
      r := Insert(hash, node);
    }

    /** Adds a node and makes it the tip when it is strictly heavier than the current one. */
    method Insert(hash: BlockHash, node: DagNode) returns (r: Result<seq<Transition>, StateError>)
      requires Valid() && hash !in nodes
      requires Tree(rules.genesis, nodes[hash := node]) && WorksAddUp(nodes[hash := node])
      modifies this
      ensures Valid()
      ensures r.Ok? && (State(), r.value) == Accept(rules, old(State()), hash, node)
    {
      AcceptKeepsInv(rules, State(), hash, node);
      var shouldReorganize := tip.None? || LexLess(nodes[tip.value].work, node.work);
      nodes := nodes[hash := node];
      if !shouldReorganize {
        return Ok([]);
      }
      if tip.Some? {
        ChainIsLinked(rules.genesis, nodes, tip.value);
      }
      ChainIsLinked(rules.genesis, nodes, hash);
      r := ReorganizeTo(hash, TipChain(rules.genesis, nodes, tip), Chain(rules.genesis, nodes, hash));
    }

    method ValidateCandidateContext(block: Block, ghost c: seq<BlockHash>) returns (r: Result<Context, StateError>)
      requires block.prev in nodes ==> Linked(nodes, c) && Last(c) == Some(block.prev)
      ensures r == ContextOn(rules, nodes, block, c)
    {
      var hash := block.hash;
      if hash == rules.genesis {
        return Ok(Context(None, 0, Zero(), block.target));
      }
      if block.prev == ZERO_HASH {
        return Err(InvalidGenesis(hash));
      }
      if block.prev !in nodes {
        return Err(UnknownParent(hash, block.prev));
      }
      var parent := nodes[block.prev];
      if parent.height >= U32_MAX {
        return Err(WorkOverflow(hash));
      }
      var height := parent.height + 1;
      var required := TargetAfter(hash, block.prev, c);
      match required {
        case Err(e) => return Err(e);
        case Ok(target) => return Ok(Context(Some(block.prev), height, parent.work, target));
      }
    }

    /** The target required of the block `hash` on top of `prev`, the last block of `c`. */
    method TargetAfter(hash: BlockHash, prev: BlockHash, ghost c: seq<BlockHash>) returns (r: Result<nat, StateError>)
      requires Linked(nodes, c) && Last(c) == Some(prev)
      ensures r == Ok(RequiredTarget(rules, nodes, c))
    {
      LinkedAt(nodes, c, |c| - 1);
      var height := nodes[prev].height + 1;
      var epochStart: Option<Block> := None;
      if NeedsEpochBoundary(rules.network, height) {
        var boundary := AncestorAtHeight(prev, height - DifficultyInterval(rules.network), c);
        match boundary {
          case Err(e) => return Err(e);
          case Ok(node) => epochStart := Some(node.block);
        }
      }
      match NextRequiredTarget(nodes[prev].block, height, epochStart) {
        case None => return Err(MissingDifficultyBoundary(hash, height - DifficultyInterval(rules.network)));
        case Some(target) => return Ok(target);
      }
    }

    /** The parent's target, or the retargeted one at a difficulty boundary. */
    function NextRequiredTarget(parent: Block, height: nat, epochStart: Option<Block>): Option<nat> {
      if !NeedsEpochBoundary(rules.network, height) then Some(parent.target)
      else if epochStart.None? then None
      else Some(rules.retarget(epochStart.value, parent))
    }

    /** Walks from `start`, the last block of `c`, towards genesis to the given height. */
    method AncestorAtHeight(start: BlockHash, height: nat, ghost c: seq<BlockHash>)
      returns (r: Result<DagNode, StateError>)
      requires Linked(nodes, c) && height < |c| && c[|c| - 1] == start
      ensures r == Ok(nodes[c[height]])
    {
      var cursor := start;
      ghost var at := |c| - 1;
      while true
        invariant height <= at < |c| && cursor == c[at]
        decreases at
      {
        LinkedAt(nodes, c, at);
        if cursor !in nodes {
          return Err(InconsistentDag(cursor));
        }
        var node := nodes[cursor];
        if node.height == height {
          return Ok(node);
        }
        if node.height < height || node.parent.None? {
          return Err(InconsistentDag(cursor));
        }
        cursor := node.parent.value;
        at := at - 1;
      }
    }

    /** All blocks on the chain `c` that ends in `start`. */
    method AncestorSet(start: BlockHash, ghost c: seq<BlockHash>) returns (r: Result<set<BlockHash>, StateError>)
      requires Linked(nodes, c) && Last(c) == Some(start)
      ensures r == Ok(set h | h in c)
    {
      var ancestors: set<BlockHash> := {};
      var cursor := Some(start);
      ghost var left := |c|;
      while cursor.Some?
        invariant 0 <= left <= |c|
        invariant cursor == Below(c, left)
        invariant ancestors == set h | h in c[left..]
        decreases left
      {
        left := left - 1;
        var hash := cursor.value;
        LinkedAt(nodes, c, left);
        assert c[left..] == [hash] + c[left + 1..];
        if hash in ancestors || hash !in nodes {
          return Err(InconsistentDag(hash));
        }
        ancestors := ancestors + {hash};
        cursor := nodes[hash].parent;
      }
      assert c[0..] == c;
      return Ok(ancestors);
    }

    /** Moves the tip, emitting disconnects from the old tip down to the common ancestor and then
        connects up to the new tip. */
    method ReorganizeTo(newTip: BlockHash, ghost oldChain: seq<BlockHash>, ghost newChain: seq<BlockHash>)
      returns (r: Result<seq<Transition>, StateError>)
      requires Linked(nodes, oldChain) && tip == Last(oldChain)
      requires Linked(nodes, newChain) && Last(newChain) == Some(newTip)
      requires nextRevision <= U64_MAX
      modifies this`tip, this`nextRevision
      ensures r == Ok(Corrections(oldChain, newChain, old(nextRevision)))
      ensures tip == Some(newTip) && nextRevision == RevisionAt(old(nextRevision), |r.value|)
    {
      ghost var k := CommonPrefix(oldChain, newChain);
      var newAncestors := AncestorSet(newTip, newChain);
      match newAncestors {
        case Err(e) =>
          return Err(e);
        case Ok(ancestors) =>
          forall i | 0 <= i < |oldChain|
            ensures oldChain[i] in ancestors <==> i < k
          {
            SharedBlocks(nodes, oldChain, newChain, i);
          }
          var disconnect, common := CollectDisconnects(ancestors, oldChain, k);
          var connected := CollectConnects(newTip, common, newChain, k);
          match connected {
            case Err(e) =>
              return Err(e);
            case Ok(downwards) =>
              var n := |downwards|;
              var connect := seq(n, i requires 0 <= i < n => downwards[n - 1 - i]);
              AboveReversed(newChain, k);
              var transitions := Emit(disconnect, connect, oldChain, newChain);
              tip := Some(newTip);
              return Ok(transitions);
          }
      }
    }

    /** The blocks of `c` above position `k`, from the top down, with their heights. */
    static ghost function Above(c: seq<BlockHash>, k: nat): seq<(BlockHash, nat)>
      requires k <= |c|
    {
      seq(|c| - k, i requires 0 <= i < |c| - k => (c[|c| - 1 - i], |c| - 1 - i))
    }

    /** The blocks of `c` from position `k`, from the bottom up, with their heights. */
    static ghost function Onwards(c: seq<BlockHash>, k: nat): seq<(BlockHash, nat)>
      requires k <= |c|
    {
      seq(|c| - k, i requires 0 <= i < |c| - k => (c[k + i], k + i))
    }

    static lemma AboveReversed(c: seq<BlockHash>, k: nat)
      requires k <= |c|
      ensures var a := Above(c, k);
              seq(|a|, i requires 0 <= i < |a| => a[|a| - 1 - i]) == Onwards(c, k)
    {
    }

    method CollectDisconnects(newAncestors: set<BlockHash>, ghost c: seq<BlockHash>, ghost k: nat)
      returns (disconnect: seq<(BlockHash, nat)>, common: Option<BlockHash>)
      requires Linked(nodes, c) && tip == Last(c) && k <= |c|
      requires forall i | 0 <= i < |c| :: c[i] in newAncestors <==> i < k
      ensures disconnect == Above(c, k) && common == Below(c, k)
    {
      disconnect := [];
      var cursor := tip;
      ghost var left := |c|;
      while cursor.Some?
        invariant k <= left <= |c|
        invariant cursor == Below(c, left)
        invariant disconnect == Above(c, left)
        decreases left
      {
        var hash := cursor.value;
        LinkedAt(nodes, c, left - 1);
        if hash in newAncestors {
          break;
        }
        disconnect := disconnect + [(hash, nodes[hash].height)];
        cursor := nodes[hash].parent;
        left := left - 1;
      }
      common := cursor;
    }

    method CollectConnects(newTip: BlockHash, common: Option<BlockHash>, ghost c: seq<BlockHash>, ghost k: nat)
      returns (r: Result<seq<(BlockHash, nat)>, StateError>)
      requires Linked(nodes, c) && Last(c) == Some(newTip) && k <= |c| && common == Below(c, k)
      ensures r == Ok(Above(c, k))
    {
      var connect := [];
      var cursor := Some(newTip);
      ghost var left := |c|;
      while cursor != common
        invariant k <= left <= |c|
        invariant cursor == Below(c, left)
        invariant connect == Above(c, left)
        decreases left
      {
        if cursor.None? {
          return Err(InconsistentDag(newTip));
        }
        var hash := cursor.value;
        LinkedAt(nodes, c, left - 1);
        connect := connect + [(hash, nodes[hash].height)];
        cursor := nodes[hash].parent;
        left := left - 1;
      }
      LastIsInjective(nodes, c, left, k);
      return Ok(connect);
    }

    /** Heights are distinct along a chain, so two prefixes with the same last block are the same. */
    static lemma LastIsInjective(nodes: Nodes, c: seq<BlockHash>, i: nat, j: nat)
      requires Linked(nodes, c) && i <= |c| && j <= |c| && Below(c, i) == Below(c, j)
      ensures i == j
    {
      if i != 0 && j != 0 {
        LinkedAt(nodes, c, i - 1);
        LinkedAt(nodes, c, j - 1);
      }
    }

    /** Numbers the collected blocks with consecutive revisions. */
    method Emit(disconnect: seq<(BlockHash, nat)>, connect: seq<(BlockHash, nat)>,
                ghost oldChain: seq<BlockHash>, ghost newChain: seq<BlockHash>)
      returns (transitions: seq<Transition>)
      requires nextRevision <= U64_MAX
      requires var k := CommonPrefix(oldChain, newChain);
               && disconnect == Above(oldChain, k)
               && connect == Onwards(newChain, k)
      modifies this`nextRevision
      ensures transitions == Corrections(oldChain, newChain, old(nextRevision))
      ensures nextRevision == RevisionAt(old(nextRevision), |transitions|)
    {
      ghost var first := nextRevision;
      ghost var all := Corrections(oldChain, newChain, first);
      transitions := [];
      for i := 0 to |disconnect|
        invariant transitions == all[..i]
        invariant nextRevision == RevisionAt(first, i)
      {
        var revision := TakeRevision();
        transitions := transitions + [Disconnected(disconnect[i].0, disconnect[i].1, revision)];
      }
      for i := 0 to |connect|
        invariant transitions == all[..|disconnect| + i]
        invariant nextRevision == RevisionAt(first, |disconnect| + i)
      {
        var revision := TakeRevision();
        transitions := transitions + [Connected(connect[i].0, connect[i].1, revision)];
      }
    }

    method TakeRevision() returns (revision: nat)
      requires nextRevision <= U64_MAX
      modifies this`nextRevision
      ensures revision == old(nextRevision) && nextRevision == SaturatingSucc(revision)
    {
      revision := nextRevision;
      nextRevision := SaturatingSucc(nextRevision);
    }
  }
}
