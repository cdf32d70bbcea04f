/** The package graph of one mempool: which transactions are joined by spending, and the checked totals of
    a package. */
module MempoolGraphSpec {
  import opened Prelude
  import opened BitcoinDomain
  import SetOrder
  import opened TxidOrder

  datatype GraphTx = GraphTx(inputs: seq<OutPoint>, fee: nat, vsize: nat)

  datatype MempoolError =
    | UnknownTransaction(txid: Txid)
    | TransactionTooLarge(txid: Txid)
    | InvalidReplacementEvidence(txid: Txid)
    | FeeOverflow
    | VirtualSizeOverflow
    | ZeroVirtualSize

  type Known = map<Txid, GraphTx>

  // ---------------------------------------------------------------- adjacency and components

  predicate SpendsIn(inputs: seq<OutPoint>, parent: Txid) {
    exists i | 0 <= i < |inputs| :: inputs[i].txid == parent
  }

  predicate Spends(txs: Known, child: Txid, parent: Txid) {
    child in txs && SpendsIn(txs[child].inputs, parent)
  }

  /** Two present transactions, one of which spends an output of the other. */
  predicate Adjacent(txs: Known, present: set<Txid>, a: Txid, b: Txid) {
    a in present && b in present && (Spends(txs, a, b) || Spends(txs, b, a))
  }

  ghost predicate Joined(txs: Known, present: set<Txid>, p: seq<Txid>, i: nat)
    requires i + 1 < |p|
  {
    Adjacent(txs, present, p[i], p[i + 1])
  }

  /** A walk through present transactions along spending links, in either direction. */
  ghost predicate Walk(txs: Known, present: set<Txid>, p: seq<Txid>, a: Txid, b: Txid) {
    && p != [] && p[0] == a && p[|p| - 1] == b && a in present
    && forall i {:trigger Joined(txs, present, p, i)} | 0 <= i < |p| - 1 :: Joined(txs, present, p, i)
  }

  ghost predicate Connected(txs: Known, present: set<Txid>, a: Txid, b: Txid) {
    exists p :: Walk(txs, present, p, a, b)
  }

  /** The connected component of a transaction among the present ones. */
  ghost function Component(txs: Known, present: set<Txid>, t: Txid): set<Txid> {
    set x | x in present && Connected(txs, present, t, x)
  }

  lemma ConnectedSelf(txs: Known, present: set<Txid>, a: Txid)
    requires a in present
    ensures Connected(txs, present, a, a)
  {
    assert Walk(txs, present, [a], a, a);
  }

  lemma ConnectedStep(txs: Known, present: set<Txid>, a: Txid, b: Txid, c: Txid)
    requires Connected(txs, present, a, b) && Adjacent(txs, present, b, c)
    ensures Connected(txs, present, a, c)
  {
    var p :| Walk(txs, present, p, a, b);
    var q := p + [c];
    forall i | 0 <= i < |q| - 1
      ensures Joined(txs, present, q, i)
    {
      assert i < |p| - 1 ==> Joined(txs, present, p, i);
    }
    assert Walk(txs, present, q, a, c);
  }

  lemma {:induction false} WalkEnds(txs: Known, present: set<Txid>, p: seq<Txid>, a: Txid, b: Txid)
    requires Walk(txs, present, p, a, b)
    ensures b in present
  {
    if |p| > 1 {
      assert Joined(txs, present, p, |p| - 2);
    }
  }

  /** Connectedness is transitive, by following the second walk step by step. */
  lemma {:induction false} ConnectedWalk(txs: Known, present: set<Txid>, a: Txid, b: Txid, c: Txid, p: seq<Txid>)
    requires Connected(txs, present, a, b) && Walk(txs, present, p, b, c)
    ensures Connected(txs, present, a, c)
    decreases |p|
  {
    if |p| > 1 {
      var front := p[..|p| - 1];
      assert Walk(txs, present, front, b, front[|front| - 1]) by {
        forall i | 0 <= i < |front| - 1
          ensures Joined(txs, present, front, i)
        {
          assert Joined(txs, present, p, i);
        }
      }
      ConnectedWalk(txs, present, a, b, front[|front| - 1], front);
      assert Joined(txs, present, p, |p| - 2);
      ConnectedStep(txs, present, a, front[|front| - 1], c);
    }
  }

  /** Connectedness is symmetric, by walking back. */
  lemma {:induction false} WalkBack(txs: Known, present: set<Txid>, p: seq<Txid>, a: Txid, b: Txid)
    requires Walk(txs, present, p, a, b)
    ensures Connected(txs, present, b, a)
    decreases |p|
  {
    WalkEnds(txs, present, p, a, b);
    if |p| == 1 {
      ConnectedSelf(txs, present, a);
    } else {
      var rest := p[1..];
      assert Joined(txs, present, p, 0);
      assert Walk(txs, present, rest, rest[0], b) by {
        forall i | 0 <= i < |rest| - 1
          ensures Joined(txs, present, rest, i)
        {
          assert Joined(txs, present, p, i + 1);
        }
      }
      WalkBack(txs, present, rest, rest[0], b);
      ConnectedStep(txs, present, b, rest[0], a);
    }
  }

  /** Every member of a component has the same component. */
  lemma SameComponent(txs: Known, present: set<Txid>, t: Txid, x: Txid)
    requires x in Component(txs, present, t)
    ensures Component(txs, present, x) == Component(txs, present, t)
  {
    var p :| Walk(txs, present, p, t, x);
    WalkBack(txs, present, p, t, x);
    var back :| Walk(txs, present, back, x, t);
    forall y | y in present
      ensures Connected(txs, present, x, y) <==> Connected(txs, present, t, y)
    {
      if Connected(txs, present, x, y) {
        var q :| Walk(txs, present, q, x, y);
        ConnectedWalk(txs, present, t, x, y, q);
      }
      if Connected(txs, present, t, y) {
        var q :| Walk(txs, present, q, t, y);
        ConnectedWalk(txs, present, x, t, y, q);
      }
    }
  }

  /** A set that holds `t` and all neighbours of its members holds the component of `t`. */
  lemma {:induction false} ClosedHoldsWalk(txs: Known, present: set<Txid>, members: set<Txid>, p: seq<Txid>, t: Txid, x: Txid)
    requires t in members && Walk(txs, present, p, t, x)
    requires forall a, b | a in members && Adjacent(txs, present, a, b) :: b in members
    ensures x in members
    decreases |p|
  {
    if |p| > 1 {
      var front := p[..|p| - 1];
      assert Walk(txs, present, front, t, front[|front| - 1]) by {
        forall i | 0 <= i < |front| - 1
          ensures Joined(txs, present, front, i)
        {
          assert Joined(txs, present, p, i);
        }
      }
      ClosedHoldsWalk(txs, present, members, front, t, front[|front| - 1]);
      assert Joined(txs, present, p, |p| - 2);
    }
  }

  lemma ClosedIsComponent(txs: Known, present: set<Txid>, members: set<Txid>, t: Txid)
    requires t in members && members <= Component(txs, present, t)
    requires forall a, b | a in members && Adjacent(txs, present, a, b) :: b in members
    ensures members == Component(txs, present, t)
  {
    forall x | x in Component(txs, present, t)
      ensures x in members
    {
      var p :| Walk(txs, present, p, t, x);
      ClosedHoldsWalk(txs, present, members, p, t, x);
    }
  }

  // ---------------------------------------------------------------- package totals

  function Totals(txs: Known, members: seq<Txid>): Result<(nat, nat), MempoolError> {
    if members == [] then Ok((0, 0))
    else
      var t := members[|members| - 1];
      match Totals(txs, members[..|members| - 1])
      case Err(e) => Err(e)
      case Ok((fee, vsize)) =>
        if t !in txs then Err(UnknownTransaction(t))
        else if fee + txs[t].fee > U64_MAX then Err(FeeOverflow)
        else if vsize + txs[t].vsize > U64_MAX then Err(VirtualSizeOverflow)
        else Ok((fee + txs[t].fee, vsize + txs[t].vsize))
  }

  function Fees(txs: Known, members: seq<Txid>): nat
    requires forall t | t in members :: t in txs
  {
    if members == [] then 0
    else
      assert members[|members| - 1] in members;
      Fees(txs, members[..|members| - 1]) + txs[members[|members| - 1]].fee
  }

  function Vsizes(txs: Known, members: seq<Txid>): nat
    requires forall t | t in members :: t in txs
  {
    if members == [] then 0
    else
      assert members[|members| - 1] in members;
      Vsizes(txs, members[..|members| - 1]) + txs[members[|members| - 1]].vsize
  }

  /** The checked fold succeeds exactly when both true totals fit in 64 bits, and then it returns them. */
  lemma {:induction false} TotalsFitIff(txs: Known, members: seq<Txid>)
    requires forall t | t in members :: t in txs
    ensures Totals(txs, members).Ok? <==> Fees(txs, members) <= U64_MAX && Vsizes(txs, members) <= U64_MAX
    ensures Totals(txs, members).Ok? ==> Totals(txs, members).value == (Fees(txs, members), Vsizes(txs, members))
    ensures Totals(txs, members).Err? ==>
              || (Totals(txs, members).error == FeeOverflow && Fees(txs, members) > U64_MAX)
              || (Totals(txs, members).error == VirtualSizeOverflow && Vsizes(txs, members) > U64_MAX)
    decreases |members|
  {
    if members != [] {
      assert members[|members| - 1] in members;
      TotalsFitIff(txs, members[..|members| - 1]);
    }
  }

  datatype Package = Package(members: seq<Txid>, fee: nat, vsize: nat)

  /** The package of a transaction: its component in order, with checked totals. */
  ghost function PackageOf(txs: Known, present: set<Txid>, t: Txid): Result<Package, MempoolError> {
    if t !in present then Err(UnknownTransaction(t))
    else
      var members := Listing(Component(txs, present, t));
      match Totals(txs, members)
      case Err(e) => Err(e)
      case Ok((fee, vsize)) => if vsize == 0 then Err(ZeroVirtualSize) else Ok(Package(members, fee, vsize))
  }

  /** Every member of a package yields the same package. */
  lemma SamePackage(txs: Known, present: set<Txid>, t: Txid, x: Txid)
    requires t in present && x in Component(txs, present, t)
    ensures PackageOf(txs, present, x) == PackageOf(txs, present, t)
  {
    SameComponent(txs, present, t, x);
  }

  /** A package request of a present transaction fails exactly for a total that does not fit, or no size at all. */
  lemma PackageFailsIff(txs: Known, present: set<Txid>, t: Txid)
    requires t in present && present <= txs.Keys
    ensures var members := Listing(Component(txs, present, t));
            && (forall x | x in members :: x in txs)
            && (PackageOf(txs, present, t).Err? <==>
                 Fees(txs, members) > U64_MAX || Vsizes(txs, members) > U64_MAX || Vsizes(txs, members) == 0)
            && (PackageOf(txs, present, t).Ok? ==>
                 PackageOf(txs, present, t).value == Package(members, Fees(txs, members), Vsizes(txs, members)))
  {
    TotalsFitIff(txs, Listing(Component(txs, present, t)));
  }

  // ---------------------------------------------------------------- additions, removals and conflicts

  datatype Evidence = NoEvidence | Direct(replaced: Txid) | Reconciled(replaced: Txid)
  datatype Classification = Observed | ReconciledConflict | Inferred

  /** The conflicting spends in ascending order, and how a replacement is classified. */
  datatype Update = Update(conflicts: seq<Edge>, classification: Option<Classification>)

  type SpendIndex = map<OutPoint, set<Txid>>

  datatype Graph = Graph(txs: Known, present: set<Txid>, spentBy: SpendIndex)

  predicate Indexed(spentBy: SpendIndex, o: OutPoint, t: Txid) {
    o in spentBy && t in spentBy[o]
  }

  ghost function Conflicts(spentBy: SpendIndex, txid: Txid, inputs: seq<OutPoint>): set<Edge> {
    set i, c | 0 <= i < |inputs| && inputs[i] in spentBy && c in spentBy[inputs[i]] && c != txid :: (inputs[i], c)
  }

  ghost predicate Names(conflicts: set<Edge>, t: Txid) {
    exists o :: (o, t) in conflicts
  }

  function IndexInputs(spentBy: SpendIndex, txid: Txid, inputs: seq<OutPoint>): SpendIndex {
    if inputs == [] then spentBy
    else
      var front := IndexInputs(spentBy, txid, inputs[..|inputs| - 1]);
      var o := inputs[|inputs| - 1];
      front[o := (if o in front then front[o] else {}) + {txid}]
  }

  lemma {:induction false} IndexInputsAdds(spentBy: SpendIndex, txid: Txid, inputs: seq<OutPoint>, o: OutPoint, t: Txid)
    ensures Indexed(IndexInputs(spentBy, txid, inputs), o, t) <==> Indexed(spentBy, o, t) || (t == txid && o in inputs)
    decreases |inputs|
  {
    if inputs != [] {
      IndexInputsAdds(spentBy, txid, inputs[..|inputs| - 1], o, t);
      assert inputs == inputs[..|inputs| - 1] + [inputs[|inputs| - 1]];
    }
  }

  ghost function AddError(g: Graph, txid: Txid, tx: GraphTx, e: Evidence): Option<MempoolError> {
    if tx.vsize > U64_MAX then Some(TransactionTooLarge(txid))
    else if !e.NoEvidence? && !Names(Conflicts(g.spentBy, txid, tx.inputs), e.replaced) then
      Some(InvalidReplacementEvidence(txid))
    else None
  }

  function Classify(e: Evidence): Classification {
    match e
    case NoEvidence => Inferred
    case Direct(_) => Observed
    case Reconciled(_) => ReconciledConflict
  }

  ghost function Add(g: Graph, txid: Txid, tx: GraphTx, e: Evidence): (Graph, Result<Update, MempoolError>) {
    if txid in g.present then (g, Ok(Update([], None)))
    else if AddError(g, txid, tx, e).Some? then (g, Err(AddError(g, txid, tx, e).value))
    else
      var conflicts := Conflicts(g.spentBy, txid, tx.inputs);
      (Graph(g.txs[txid := tx], g.present + {txid}, IndexInputs(g.spentBy, txid, tx.inputs)),
       Ok(Update(Edges(conflicts), if conflicts == {} then None else Some(Classify(e)))))
  }

  function Remove(g: Graph, txid: Txid): Graph {
    g.(present := g.present - {txid})
  }

  // ---------------------------------------------------------------- runs

  datatype Event = Added(txid: Txid, tx: GraphTx, e: Evidence) | Removed(txid: Txid)

  ghost function Step(g: Graph, e: Event): Graph {
    match e
    case Added(txid, tx, evidence) => Add(g, txid, tx, evidence).0
    case Removed(txid) => Remove(g, txid)
  }

  ghost function Run(events: seq<Event>): Graph {
    if events == [] then Graph(map[], {}, map[])
    else Step(Run(events[..|events| - 1]), events[|events| - 1])
  }

  /** The event at position `i` added a transaction that was not present. */
  ghost predicate Accepted(events: seq<Event>, i: nat)
    requires i < |events|
  {
    events[i].Added? &&
    (var g := Run(events[..i]);
     events[i].txid !in g.present && AddError(g, events[i].txid, events[i].tx, events[i].e).None?)
  }

  /** Some accepted addition of `t` spent `o`, whether or not `t` is still present. */
  ghost predicate EverSpent(events: seq<Event>, o: OutPoint, t: Txid) {
    exists i :: 0 <= i < |events| && Accepted(events, i) && events[i].txid == t && o in events[i].tx.inputs
  }

  lemma EverSpentSnoc(events: seq<Event>, o: OutPoint, t: Txid)
    requires events != []
    ensures var front, last := events[..|events| - 1], |events| - 1;
            EverSpent(events, o, t) <==>
              EverSpent(front, o, t) || (Accepted(events, last) && events[last].txid == t && o in events[last].tx.inputs)
  {
    var front := events[..|events| - 1];
    forall i | 0 <= i < |front|
      ensures Accepted(front, i) <==> Accepted(events, i)
    {
      assert front[..i] == events[..i];
    }
    if EverSpent(front, o, t) {
      var i :| 0 <= i < |front| && Accepted(front, i) && front[i].txid == t && o in front[i].tx.inputs;
      assert Accepted(events, i);
    }
    if EverSpent(events, o, t) {
      var i :| 0 <= i < |events| && Accepted(events, i) && events[i].txid == t && o in events[i].tx.inputs;
      assert i < |front| ==> Accepted(front, i);
    }
  }

  /** In every run the index holds exactly the spends of all additions ever accepted, and every present
      transaction is known. */
  lemma {:induction false} IndexIsHistory(events: seq<Event>, o: OutPoint, t: Txid)
    ensures Indexed(Run(events).spentBy, o, t) <==> EverSpent(events, o, t)
    ensures Run(events).present <= Run(events).txs.Keys
    decreases |events|
  {
    if events != [] {
      var front, last := events[..|events| - 1], |events| - 1;
      IndexIsHistory(front, o, t);
      EverSpentSnoc(events, o, t);
      assert events[..last] == front;
      if events[last].Added? {
        IndexInputsAdds(Run(front).spentBy, events[last].txid, events[last].tx.inputs, o, t);
      }
    }
  }

  /** The conflicts reported for a new transaction are exactly the earlier accepted spenders of its inputs. */
  lemma ConflictsAreHistory(events: seq<Event>, txid: Txid, inputs: seq<OutPoint>, o: OutPoint, t: Txid)
    ensures (o, t) in Conflicts(Run(events).spentBy, txid, inputs) <==> o in inputs && t != txid && EverSpent(events, o, t)
  {
    IndexIsHistory(events, o, t);
    var spentBy := Run(events).spentBy;
    if o in inputs && t != txid && Indexed(spentBy, o, t) {
      var i :| 0 <= i < |inputs| && inputs[i] == o;
      assert (inputs[i], t) in Conflicts(spentBy, txid, inputs);
    }
  }

  /** An accepted addition reports exactly the earlier accepted spenders of its inputs, each once, in ascending
      order of output and spender. */
  lemma ReportedConflicts(events: seq<Event>, txid: Txid, tx: GraphTx, e: Evidence)
    requires txid !in Run(events).present && Add(Run(events), txid, tx, e).1.Ok?
    ensures var listed := Add(Run(events), txid, tx, e).1.value.conflicts;
            && (forall o, t :: (o, t) in listed <==> o in tx.inputs && t != txid && EverSpent(events, o, t))
            && (forall i, j | 0 <= i < j < |listed| :: SetOrder.Before(EdgeKey(listed[i]), EdgeKey(listed[j])))
  {
    var conflicts := Conflicts(Run(events).spentBy, txid, tx.inputs);
    forall o, t
      ensures (o, t) in Edges(conflicts) <==> o in tx.inputs && t != txid && EverSpent(events, o, t)
    {
      ConflictsAreHistory(events, txid, tx.inputs, o, t);
    }
    forall i, j | 0 <= i < j < |Edges(conflicts)|
      ensures SetOrder.Before(EdgeKey(Edges(conflicts)[i]), EdgeKey(Edges(conflicts)[j]))
    {
      EdgesAscend(conflicts, i, j);
    }
  }
}
