/** The package graph as the service holds it: maps changed in place, and a breadth-first search over a queue. */
module MempoolGraph {
  import opened Prelude
  import opened BitcoinDomain
  import opened TxidOrder
  import opened MempoolGraphSpec

  type Adjacency = map<Txid, set<Txid>>

  predicate HasEdge(adjacency: Adjacency, a: Txid, b: Txid) {
    a in adjacency && b in adjacency[a]
  }

  function WithEdge(adjacency: Adjacency, a: Txid, b: Txid): Adjacency {
    adjacency[a := (if a in adjacency then adjacency[a] else {}) + {b}]
  }

  /** An edge between two present transactions that one of `done` spends. */
  predicate Linked(txs: Known, present: set<Txid>, done: set<Txid>, a: Txid, b: Txid) {
    a in present && b in present && ((a in done && Spends(txs, a, b)) || (b in done && Spends(txs, b, a)))
  }

  /** The edges that one present transaction with these inputs gives rise to. */
  predicate Ties(present: set<Txid>, child: Txid, inputs: seq<OutPoint>, a: Txid, b: Txid) {
    || (a == child && b in present && SpendsIn(inputs, b))
    || (b == child && a in present && SpendsIn(inputs, a))
  }

  class MempoolGraph {
    var transactions: Known
    var present: set<Txid>
    var spentByHistory: SpendIndex

    function State(): Graph
      reads this
    {
      Graph(transactions, present, spentByHistory)
    }

    predicate Valid()
      reads this
    {
      present <= transactions.Keys
    }

    constructor ()
      ensures Valid() && State() == Run([])
    {
      transactions, present, spentByHistory := map[], {}, map[];
    }

    // -------------------------------------------------------------- packages

    method LinkInputs(adjacency: Adjacency, child: Txid, inputs: seq<OutPoint>) returns (adjacency': Adjacency)
      ensures forall a, b :: HasEdge(adjacency', a, b) <==> HasEdge(adjacency, a, b) || Ties(present, child, inputs, a, b)
    {
      adjacency' := adjacency;
      for i := 0 to |inputs|
        invariant forall a, b :: HasEdge(adjacency', a, b) <==> HasEdge(adjacency, a, b) || Ties(present, child, inputs[..i], a, b)
      {
        var parent := inputs[i].txid;
        ghost var before := adjacency';
        if parent in present {
          adjacency' := WithEdge(adjacency', child, parent);
          adjacency' := WithEdge(adjacency', parent, child);
        }
        forall a, b
          ensures HasEdge(adjacency', a, b) <==> HasEdge(adjacency, a, b) || Ties(present, child, inputs[..i + 1], a, b)
        {
          assert HasEdge(before, a, b) <==> HasEdge(adjacency, a, b) || Ties(present, child, inputs[..i], a, b);
          SpendsMore(inputs, i, a);
          SpendsMore(inputs, i, b);
        }
      }
      assert inputs[..|inputs|] == inputs;
    }

    static lemma SpendsMore(inputs: seq<OutPoint>, i: nat, p: Txid)
      requires i < |inputs|
      ensures SpendsIn(inputs[..i + 1], p) <==> SpendsIn(inputs[..i], p) || p == inputs[i].txid
    {
      if SpendsIn(inputs[..i], p) {
        var k :| 0 <= k < |inputs[..i]| && inputs[..i][k].txid == p;
        assert inputs[..i + 1][k].txid == p;
      }
      if p == inputs[i].txid {
        assert inputs[..i + 1][i].txid == p;
      }
      if SpendsIn(inputs[..i + 1], p) {
        var k :| 0 <= k < |inputs[..i + 1]| && inputs[..i + 1][k].txid == p;
        assert k < i ==> inputs[..i][k].txid == p;
      }
    }

    /** The neighbours of every present transaction. */
    method CurrentAdjacency() returns (adjacency: Adjacency)
      requires Valid()
      ensures forall a, b :: HasEdge(adjacency, a, b) <==> Adjacent(transactions, present, a, b)
    {
      adjacency := map[];
      var rest := present;
      while rest != {}
        invariant rest <= present
        invariant forall a, b :: HasEdge(adjacency, a, b) <==> Linked(transactions, present, present - rest, a, b)
        decreases |rest|
      {
        var child :| child in rest;
        adjacency := LinkInputs(adjacency, child, transactions[child].inputs);
        rest := rest - {child};
      }
    }

    /** The search: transactions taken from the front of the queue, their neighbours put at its end. */
    method Search(txid: Txid, adjacency: Adjacency) returns (members: set<Txid>)
      requires txid in present
      requires forall a, b :: HasEdge(adjacency, a, b) <==> Adjacent(transactions, present, a, b)
      ensures members == Component(transactions, present, txid)
    {
      members := {};
      var queue := [txid];
      ConnectedSelf(transactions, present, txid);
      while queue != []
        invariant members <= Component(transactions, present, txid)
        invariant forall x | x in queue :: x in Component(transactions, present, txid)
        invariant txid in members || txid in queue
        invariant forall a, b | a in members && Adjacent(transactions, present, a, b) :: b in members || b in queue
        decreases present - members, |queue|
      {
        var member := queue[0];
        assert queue == [member] + queue[1..];
        queue := queue[1..];
        if member !in members {
          members := members + {member};
          if member in adjacency {
            var neighbours := Ordered(adjacency[member]);
            NeighboursConnected(transactions, present, txid, member, neighbours);
            queue := queue + neighbours;
          }
        }
      }
      ClosedIsComponent(transactions, present, members, txid);
    }

    static lemma NeighboursConnected(txs: Known, present: set<Txid>, t: Txid, m: Txid, neighbours: seq<Txid>)
      requires m in Component(txs, present, t) && forall x | x in neighbours :: Adjacent(txs, present, m, x)
      ensures forall x | x in neighbours :: x in Component(txs, present, t)
    {
      forall x | x in neighbours
        ensures x in Component(txs, present, t)
      {
        ConnectedStep(txs, present, t, m, x);
      }
    }

    method CheckedTotals(members: seq<Txid>) returns (r: Result<(nat, nat), MempoolError>)
      ensures r == Totals(transactions, members)
    {
      var fee, vsize := 0, 0;
      for i := 0 to |members|
        invariant Totals(transactions, members[..i]) == Ok((fee, vsize))
      {
        var t := members[i];
        assert members[..i + 1][..i] == members[..i];
        if t !in transactions {
          TotalsStop(transactions, members, i + 1);
          return Err(UnknownTransaction(t));
        }
        if fee + transactions[t].fee > U64_MAX {
          TotalsStop(transactions, members, i + 1);
          return Err(FeeOverflow);
        }
        if vsize + transactions[t].vsize > U64_MAX {
          TotalsStop(transactions, members, i + 1);
          return Err(VirtualSizeOverflow);
        }
        fee, vsize := fee + transactions[t].fee, vsize + transactions[t].vsize;
      }
      assert members[..|members|] == members;
      r := Ok((fee, vsize));
    }

    /** The first error is the result. */
    static lemma {:induction false} TotalsStop(txs: Known, members: seq<Txid>, i: nat)
      requires i <= |members| && Totals(txs, members[..i]).Err?
      ensures Totals(txs, members) == Totals(txs, members[..i])
      decreases |members|
    {
      if i == |members| {
        assert members[..i] == members;
      } else {
        assert members[..|members| - 1][..i] == members[..i];
        TotalsStop(txs, members[..|members| - 1], i);
      }
    }

    method PackageContaining(txid: Txid) returns (r: Result<Package, MempoolError>)
      requires Valid()
      ensures r == PackageOf(transactions, present, txid)
    {
      if txid !in present {
        return Err(UnknownTransaction(txid));
      }
      var adjacency := CurrentAdjacency();
      var members := Search(txid, adjacency);
      var listed := Ordered(members);
      var totals := CheckedTotals(listed);
      match totals {
        case Err(e) => return Err(e);
        case Ok((fee, vsize)) =>
          if vsize == 0 {
            return Err(ZeroVirtualSize);
          }
          return Ok(Package(listed, fee, vsize));
      }
    }

    // -------------------------------------------------------------- additions and removals

    method FindConflicts(txid: Txid, inputs: seq<OutPoint>) returns (conflicts: set<Edge>)
      ensures conflicts == Conflicts(spentByHistory, txid, inputs)
    {
      conflicts := {};
      for i := 0 to |inputs|
        invariant conflicts == set k, c | 0 <= k < i && inputs[k] in spentByHistory && c in spentByHistory[inputs[k]] && c != txid :: (inputs[k], c)
      {
        var o := inputs[i];
        if o in spentByHistory {
          conflicts := conflicts + set c | c in spentByHistory[o] && c != txid :: (o, c);
        }
      }
    }

    method NamesConflict(conflicts: set<Edge>, t: Txid) returns (yes: bool)
      ensures yes <==> Names(conflicts, t)
    {
      yes := exists edge | edge in conflicts :: edge.1 == t;
      if yes {
        ghost var edge :| edge in conflicts && edge.1 == t;
        assert (edge.0, t) in conflicts;
      }
    }

    method IndexSpends(txid: Txid, inputs: seq<OutPoint>)
      modifies this`spentByHistory
      ensures spentByHistory == IndexInputs(old(spentByHistory), txid, inputs)
    {
      for i := 0 to |inputs|
        invariant spentByHistory == IndexInputs(old(spentByHistory), txid, inputs[..i])
      {
        assert inputs[..i + 1][..i] == inputs[..i];
        var o := inputs[i];
        spentByHistory := spentByHistory[o := (if o in spentByHistory then spentByHistory[o] else {}) + {txid}];
      }
      assert inputs[..|inputs|] == inputs;
    }

    method Add(txid: Txid, tx: GraphTx, evidence: Evidence) returns (r: Result<Update, MempoolError>)
      requires Valid()
      modifies this
      ensures Valid() && (State(), r) == MempoolGraphSpec.Add(old(State()), txid, tx, evidence)
    {
      if txid in present {
        return Ok(Update([], None));
      }
      if tx.vsize > U64_MAX {
        return Err(TransactionTooLarge(txid));
      }
      var conflicts := FindConflicts(txid, tx.inputs);
      if !evidence.NoEvidence? {
        var named := NamesConflict(conflicts, evidence.replaced);
        if !named {
          return Err(InvalidReplacementEvidence(txid));
        }
      }
      var classification := if conflicts == {} then None else Some(Classify(evidence));
      IndexSpends(txid, tx.inputs);
      transactions := transactions[txid := tx];
      present := present + {txid};
      var listed := OrderedEdges(conflicts);
      r := Ok(Update(listed, classification));
    }

    method Remove(txid: Txid)
      requires Valid()
      modifies this`present
      ensures Valid() && State() == MempoolGraphSpec.Remove(old(State()), txid)
    {
      present := present - {txid};
    }
  }
}
