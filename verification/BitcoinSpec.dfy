/** The transactional composition of the block tree and the UTXO projection, and the theorems about
    every run of it. */
module BitcoinSpec {
  import opened Prelude
  import opened BitcoinDomain
  import opened DagSpec
  import opened UtxoSpec

  datatype State = State(dag: Dag, utxo: Utxo)
  datatype Update = Update(transition: Transition, events: seq<UtxoEvent>)

  const EMPTY := Utxo(map[], [])

  // ---------------------------------------------------------------- the simple form: replay

  /** Applying blocks one after the other, starting from no outputs at all. */
  function Replay(blocks: seq<Block>): Option<Utxo>
    decreases |blocks|
  {
    if blocks == [] then Some(EMPTY)
    else match Replay(blocks[..|blocks| - 1])
      case None => None
      case Some(u) =>
        var b := blocks[|blocks| - 1];
        if Extends(u, b) && ApplyBlock(u, b).1.Ok? then Some(ApplyBlock(u, b).0) else None
  }

  /** The blocks along a list of hashes. */
  function Blocks(nodes: Nodes, c: seq<BlockHash>): seq<Block>
    requires forall i | 0 <= i < |c| :: c[i] in nodes
  {
    seq(|c|, i requires 0 <= i < |c| => nodes[c[i]].block)
  }

  ghost function CanonicalBlocks(r: Rules, d: Dag): seq<Block>
    requires Inv(r, d)
  {
    Blocks(d.nodes, TipChain(r.genesis, d.nodes, d.tip))
  }

  lemma {:induction false} ReplayStack(blocks: seq<Block>)
    requires Replay(blocks).Some?
    ensures var u := Replay(blocks).value;
            |u.applied| == |blocks| && forall i | 0 <= i < |blocks| :: u.applied[i].hash == blocks[i].hash
    decreases |blocks|
  {
    if blocks != [] {
      ReplayStack(blocks[..|blocks| - 1]);
    }
  }

  // ---------------------------------------------------------------- the incremental form

  /** One correction applied to the projection. */
  function DriveOne(nodes: Nodes, u: Utxo, t: Transition): (Utxo, Result<seq<UtxoEvent>, StateError>) {
    match t
    case Connected(h, _, _) =>
      if h in nodes then ApplyBlock(u, nodes[h].block) else (u, Err(InconsistentDag(h)))
    case Disconnected(h, _, _) => RevertBlock(u, h)
  }

  /** The corrections applied in order, up to the first that fails. */
  function Drive(nodes: Nodes, u: Utxo, ts: seq<Transition>): (Utxo, Result<seq<Update>, StateError>)
    decreases |ts|
  {
    if ts == [] then (u, Ok([]))
    else
      var (u1, one) := DriveOne(nodes, u, ts[0]);
      match one
      case Err(e) => (u1, Err(e))
      case Ok(events) =>
        var (u2, rest) := Drive(nodes, u1, ts[1..]);
        match rest
        case Err(e) => (u2, Err(e))
        case Ok(updates) => (u2, Ok([Update(ts[0], events)] + updates))
  }

  /** `BitcoinState::observe_block`: both parts move together or not at all. */
  ghost function Step(r: Rules, s: State, b: Block): (State, Result<seq<Update>, StateError>)
    requires Inv(r, s.dag)
  {
    var (d, res) := Observe(r, s.dag, b);
    match res
    case Err(e) => (s, Err(e))
    case Ok(ts) =>
      var (u, driven) := Drive(d.nodes, s.utxo, ts);
      match driven
      case Err(e) => (s, Err(e))
      case Ok(updates) => (State(d, u), Ok(updates))
  }

  // ---------------------------------------------------------------- corrections walk linked chains

  /** A connect that fits on top of `c`: a known block that names the top of `c` as its parent. */
  ghost predicate Fits(nodes: Nodes, c: seq<BlockHash>, h: BlockHash) {
    && h in nodes && nodes[h].block.hash == h
    && (c != [] ==> nodes[h].block.prev == c[|c| - 1] && h != c[|c| - 1])
  }

  /** Corrections that disconnect the top of a chain or connect a child of it. */
  ghost predicate Proper(nodes: Nodes, c: seq<BlockHash>, ts: seq<Transition>)
    decreases |ts|
  {
    ts == [] ||
    match ts[0]
    case Connected(h, height, _) => Fits(nodes, c, h) && height == |c| && Proper(nodes, c + [h], ts[1..])
    case Disconnected(h, height, _) =>
      c != [] && c[|c| - 1] == h && height == |c| - 1 && Proper(nodes, c[..|c| - 1], ts[1..])
  }

  /** A chain whose every block fits on top of the ones below it. */
  ghost predicate Named(nodes: Nodes, c: seq<BlockHash>) {
    forall i | 0 <= i < |c| :: Fits(nodes, c[..i], c[i])
  }

  lemma ChainIsNamed(genesis: BlockHash, nodes: Nodes, h: BlockHash)
    requires Tree(genesis, nodes) && h in nodes
    ensures Named(nodes, Chain(genesis, nodes, h))
  {
    ChainLinks(genesis, nodes, h);
    var c := Chain(genesis, nodes, h);
    forall i | 0 <= i < |c|
      ensures Fits(nodes, c[..i], c[i])
    {
      assert nodes[c[i]].height == i;
    }
  }

  lemma {:induction false} ProperConnects(nodes: Nodes, k: nat, new_: seq<BlockHash>, ts: seq<Transition>)
    requires Named(nodes, new_) && k <= |new_| && |ts| == |new_| - k
    requires forall i | 0 <= i < |ts| :: ts[i] == Connected(new_[k + i], k + i, ts[i].revision)
    ensures Proper(nodes, new_[..k], ts)
    decreases |ts|
  {
    if ts != [] {
      assert Fits(nodes, new_[..k], new_[k]);
      assert new_[..k] + [ts[0].hash] == new_[..k + 1];
      ProperConnects(nodes, k + 1, new_, ts[1..]);
    }
  }

  lemma {:induction false} ProperDisconnects(nodes: Nodes, c: seq<BlockHash>, k: nat, ts: seq<Transition>)
    requires k <= |c| && |c| - k <= |ts| && Proper(nodes, c[..k], ts[|c| - k..])
    requires forall i | 0 <= i < |c| - k :: ts[i] == Disconnected(c[|c| - 1 - i], |c| - 1 - i, ts[i].revision)
    ensures Proper(nodes, c, ts)
    decreases |c|
  {
    if |c| == k {
      assert c == c[..k] && ts == ts[0..];
    } else {
      var front := c[..|c| - 1];
      assert front[..k] == c[..k];
      assert ts[1..][|front| - k..] == ts[|c| - k..];
      ProperDisconnects(nodes, front, k, ts[1..]);
    }
  }

  /** Down from `old_` to its first `k` blocks, and up from there to `new_`. */
  ghost predicate Leads(old_: seq<BlockHash>, new_: seq<BlockHash>, k: nat, ts: seq<Transition>) {
    && k <= |old_| && k <= |new_| && old_[..k] == new_[..k] && |ts| == |old_| - k + |new_| - k
    && (forall i | 0 <= i < |old_| - k :: ts[i] == Disconnected(old_[|old_| - 1 - i], |old_| - 1 - i, ts[i].revision))
    && (forall i | |old_| - k <= i < |ts| ::
          ts[i] == Connected(new_[k + i - (|old_| - k)], k + i - (|old_| - k), ts[i].revision))
  }

  lemma CorrectionsLead(old_: seq<BlockHash>, new_: seq<BlockHash>, revision: nat)
    ensures Leads(old_, new_, CommonPrefix(old_, new_), Corrections(old_, new_, revision))
  {
  }

  lemma LeadingIsProper(nodes: Nodes, old_: seq<BlockHash>, new_: seq<BlockHash>, k: nat, ts: seq<Transition>)
    requires Named(nodes, new_) && Leads(old_, new_, k, ts)
    ensures Proper(nodes, old_, ts)
  {
    ProperConnects(nodes, k, new_, ts[|old_| - k..]);
    ProperDisconnects(nodes, old_, k, ts);
  }

  lemma ProperCorrections(nodes: Nodes, old_: seq<BlockHash>, new_: seq<BlockHash>, revision: nat)
    requires Named(nodes, new_)
    ensures Proper(nodes, old_, Corrections(old_, new_, revision))
  {
    CorrectionsLead(old_, new_, revision);
    LeadingIsProper(nodes, old_, new_, CommonPrefix(old_, new_), Corrections(old_, new_, revision));
  }

  // ---------------------------------------------------------------- driving refines replaying

  lemma BlocksSnoc(nodes: Nodes, c: seq<BlockHash>, h: BlockHash)
    requires (forall i | 0 <= i < |c| :: c[i] in nodes) && h in nodes
    ensures Blocks(nodes, c + [h]) == Blocks(nodes, c) + [nodes[h].block]
  {
  }

  /** The projection is the replay of `c`. */
  ghost predicate Projects(nodes: Nodes, c: seq<BlockHash>, u: Utxo) {
    && (forall i | 0 <= i < |c| :: c[i] in nodes && nodes[c[i]].block.hash == c[i])
    && Replay(Blocks(nodes, c)) == Some(u)
  }

  /** A failure that is possible at all: a block fits on top of a chain, the projection is the exact
      replay of that chain, and the block's transactions are refused. */
  ghost predicate RefusedOnReplay(nodes: Nodes, e: StateError) {
    exists c: seq<BlockHash>, h: BlockHash, u: Utxo :: RefusedAt(nodes, c, u, h, e)
  }

  ghost predicate RefusedAt(nodes: Nodes, c: seq<BlockHash>, u: Utxo, h: BlockHash, e: StateError) {
    && Projects(nodes, c, u) && Fits(nodes, c, h)
    && Extends(u, nodes[h].block) && ApplyBlock(u, nodes[h].block).1 == Err(e)
  }

  /** Connecting: the projection of a chain becomes the projection of the longer chain. */
  lemma ConnectReplays(nodes: Nodes, c: seq<BlockHash>, u: Utxo, h: BlockHash)
    requires Projects(nodes, c, u) && Fits(nodes, c, h)
    ensures var (u', res) := ApplyBlock(u, nodes[h].block);
            && (res.Ok? ==> Projects(nodes, c + [h], u'))
            && (res.Err? ==> RefusedAt(nodes, c, u, h, res.error))
  {
    ReplayStack(Blocks(nodes, c));
    assert Tip(u) == Below(c, |c|);
    BlocksSnoc(nodes, c, h);
    assert (Blocks(nodes, c) + [nodes[h].block])[..|c|] == Blocks(nodes, c);
  }

  /** Disconnecting the top of a chain gives exactly the replay of the chain below it. */
  lemma DisconnectReplays(nodes: Nodes, c: seq<BlockHash>, u: Utxo)
    requires c != [] && Projects(nodes, c, u)
    ensures var (u', res) := RevertBlock(u, c[|c| - 1]);
            res.Ok? && Projects(nodes, c[..|c| - 1], u')
  {
    var front := c[..|c| - 1];
    var h := c[|c| - 1];
    assert c == front + [h];
    BlocksSnoc(nodes, front, h);
    var blocks := Blocks(nodes, c);
    assert blocks[..|blocks| - 1] == Blocks(nodes, front);
    RevertUndoesApply(Replay(Blocks(nodes, front)).value, nodes[h].block);
  }

  /** The chain after one correction. */
  function Moved(c: seq<BlockHash>, t: Transition): seq<BlockHash>
    requires t.Disconnected? ==> c != []
  {
    match t
    case Connected(h, _, _) => c + [h]
    case Disconnected(_, _, _) => c[..|c| - 1]
  }

  lemma DriveOneReplays(nodes: Nodes, c: seq<BlockHash>, u: Utxo, ts: seq<Transition>)
    requires ts != [] && Proper(nodes, c, ts) && Projects(nodes, c, u)
    ensures var (u', res) := DriveOne(nodes, u, ts[0]);
            && Proper(nodes, Moved(c, ts[0]), ts[1..])
            && Fold(c, ts) == Fold(Moved(c, ts[0]), ts[1..])
            && (res.Ok? ==> Projects(nodes, Moved(c, ts[0]), u'))
            && (res.Err? ==> RefusedOnReplay(nodes, res.error))
  {
    match ts[0] {
      case Connected(h, _, _) => ConnectReplays(nodes, c, u, h);
      case Disconnected(h, _, _) => DisconnectReplays(nodes, c, u);
    }
  }

  /** Driving proper corrections keeps the projection equal to the replay of the folded chain, and
      can only fail because a connected block's transactions are refused. */
  lemma {:induction false} DriveReplays(nodes: Nodes, c: seq<BlockHash>, u: Utxo, ts: seq<Transition>)
    requires Proper(nodes, c, ts) && Projects(nodes, c, u)
    ensures var (u', res) := Drive(nodes, u, ts);
            && (res.Ok? ==> Fold(c, ts).Some? && Projects(nodes, Fold(c, ts).value, u'))
            && (res.Err? ==> RefusedOnReplay(nodes, res.error))
    decreases |ts|
  {
    if ts != [] {
      DriveOneReplays(nodes, c, u, ts);
      var (u1, one) := DriveOne(nodes, u, ts[0]);
      if one.Ok? {
        DriveReplays(nodes, Moved(c, ts[0]), u1, ts[1..]);
      }
    }
  }

  // ---------------------------------------------------------------- where driving can stop

  /** The refusal of a block of `goal`, on the exact replay of the blocks of `goal` below it. */
  ghost predicate RefusedOnTheWay(nodes: Nodes, goal: seq<BlockHash>, e: StateError) {
    exists i: nat, u: Utxo :: i < |goal| && RefusedAt(nodes, goal[..i], u, goal[i], e)
  }

  /** Corrections that disconnect first and connect then. */
  ghost predicate DownThenUp(ts: seq<Transition>) {
    forall i, j | 0 <= i < j < |ts| && ts[i].Connected? :: ts[j].Connected?
  }

  lemma {:induction false} ConnectsKeepChain(c: seq<BlockHash>, ts: seq<Transition>)
    requires Fold(c, ts).Some? && forall t | t in ts :: t.Connected?
    ensures c <= Fold(c, ts).value
    decreases |ts|
  {
    if ts != [] {
      ConnectsKeepChain(c + [ts[0].hash], ts[1..]);
    }
  }

  /** Corrections that go down and then up can only stop on the chain they lead to. */
  lemma {:induction false} DriveRefusals(nodes: Nodes, c: seq<BlockHash>, u: Utxo, ts: seq<Transition>)
    requires Proper(nodes, c, ts) && Projects(nodes, c, u) && DownThenUp(ts) && Fold(c, ts).Some?
    ensures var res := Drive(nodes, u, ts).1;
            res.Err? ==> RefusedOnTheWay(nodes, Fold(c, ts).value, res.error)
    decreases |ts|
  {
    if ts != [] {
      DriveOneReplays(nodes, c, u, ts);
      var (u1, one) := DriveOne(nodes, u, ts[0]);
      if one.Ok? {
        DriveRefusals(nodes, Moved(c, ts[0]), u1, ts[1..]);
      } else {
        FirstRefused(nodes, c, u, ts);
      }
    }
  }

  lemma FirstRefused(nodes: Nodes, c: seq<BlockHash>, u: Utxo, ts: seq<Transition>)
    requires ts != [] && Proper(nodes, c, ts) && Projects(nodes, c, u) && DownThenUp(ts) && Fold(c, ts).Some?
    requires DriveOne(nodes, u, ts[0]).1.Err?
    ensures RefusedOnTheWay(nodes, Fold(c, ts).value, DriveOne(nodes, u, ts[0]).1.error)
  {
    match ts[0] {
      case Disconnected(_, _, _) => DisconnectReplays(nodes, c, u);
      case Connected(h, _, _) =>
        ConnectReplays(nodes, c, u, h);
        ConnectsKeepChain(c + [h], ts[1..]);
        var goal := Fold(c, ts).value;
        assert goal[..|c|] == c && goal[|c|] == h;
        assert RefusedAt(nodes, goal[..|c|], u, goal[|c|], DriveOne(nodes, u, ts[0]).1.error);
    }
  }
}
