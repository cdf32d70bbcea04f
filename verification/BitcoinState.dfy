/** The composed state as the service holds it: work on copies, then swap both in. */
module BitcoinState {
  import opened Prelude
  import opened BitcoinDomain
  import opened DagSpec
  import opened UtxoSpec
  import opened BitcoinSpec
  import opened BitcoinRuns
  import C = CanonicalityState
  import U = UtxoState

  class BitcoinState {
    var dag: C.CanonicalityState
    var utxos: U.UtxoState

    ghost function State(): State
      reads this, dag, utxos
    {
      BitcoinSpec.State(dag.State(), utxos.State())
    }

    ghost predicate Valid()
      reads this, dag, utxos
    {
      StateInv(dag.rules, State())
    }

    constructor (rules: Rules)
      ensures Valid() && dag.rules == rules && State() == Initial
    {
      dag := new C.CanonicalityState(rules);
      utxos := new U.UtxoState();
      new;
      InitialInv(rules);
    }

    /** Observes one block and applies every resulting correction, or changes nothing. */
    method ObserveBlock(block: Block) returns (r: Result<seq<Update>, StateError>)
      requires Valid()
      modifies this
      ensures Valid() && dag.rules == old(dag.rules)
      ensures (State(), r) == Step(dag.rules, old(State()), block)
    {
      ghost var s := State();
      r := Transact(block);
      StepKeepsInv(dag.rules, s, block);
    }

    /** Both copies are changed; they replace the originals only when nothing failed. */
    method Transact(block: Block) returns (r: Result<seq<Update>, StateError>)
      requires dag.Valid()
      modifies this
      ensures dag.rules == old(dag.rules)
      ensures (State(), r) == Step(dag.rules, old(State()), block)
    {
      var nextDag := new C.CanonicalityState.Clone(dag);
      var nextUtxos := new U.UtxoState.Clone(utxos);
      var observed := nextDag.ObserveBlock(block);
      match observed {
        case Err(e) => return Err(e);
        case Ok(transitions) => r := SwapIn(nextDag, nextUtxos, transitions);
      }
    }

    method SwapIn(nextDag: C.CanonicalityState, nextUtxos: U.UtxoState, transitions: seq<Transition>)
      returns (r: Result<seq<Update>, StateError>)
      requires nextUtxos != utxos && nextUtxos.State() == utxos.State()
      modifies this, nextUtxos
      ensures var (u, driven) := Drive(nextDag.nodes, old(utxos.State()), transitions);
              && r == driven
              && (r.Ok? ==> dag == nextDag && utxos.State() == u)
              && (r.Err? ==> dag == old(dag) && utxos.State() == old(utxos.State()))
    {
      r := ApplyTransitions(nextDag, nextUtxos, transitions);
      if r.Ok? {
        dag, utxos := nextDag, nextUtxos;
      }
    }

    /** Drives the projection through the transitions until one fails. */
    method ApplyTransitions(nextDag: C.CanonicalityState, nextUtxos: U.UtxoState, transitions: seq<Transition>)
      returns (r: Result<seq<Update>, StateError>)
      modifies nextUtxos
      ensures (nextUtxos.State(), r) == Drive(nextDag.nodes, old(nextUtxos.State()), transitions)
    {
      ghost var nodes, u0 := nextDag.nodes, nextUtxos.State();
      var updates := [];
      assert transitions[0..] == transitions;
      OntoNothing(Drive(nodes, u0, transitions));
      for i := 0 to |transitions|
        invariant nextDag.nodes == nodes
        invariant Drive(nodes, u0, transitions) == Onto(updates, Drive(nodes, nextUtxos.State(), transitions[i..]))
      {
        var t := transitions[i];
        assert transitions[i..][0] == t && transitions[i..][1..] == transitions[i + 1..];
        DriveUnfold(nodes, nextUtxos.State(), transitions[i..], updates);
        var one: Result<seq<UtxoEvent>, StateError>;
        match t {
          case Connected(hash, _, _) =>
            if hash in nextDag.nodes {
              one := nextUtxos.ApplyBlock(nextDag.nodes[hash].block);
            } else {
              one := Err(InconsistentDag(hash));
            }
          case Disconnected(hash, _, _) =>
            one := nextUtxos.RevertBlock(hash);
        }
        match one {
          case Err(e) => return Err(e);
          case Ok(events) => updates := updates + [Update(t, events)];
        }
      }
      assert updates + [] == updates;
      return Ok(updates);
    }

    /** A result with updates already emitted in front of it. */
    static ghost function Onto(done: seq<Update>, rest: (Utxo, Result<seq<Update>, StateError>)): (Utxo, Result<seq<Update>, StateError>) {
      (rest.0, match rest.1 case Err(e) => Err(e) case Ok(more) => Ok(done + more))
    }

    static lemma OntoNothing(rest: (Utxo, Result<seq<Update>, StateError>))
      ensures Onto([], rest) == rest
    {
      if rest.1.Ok? {
        assert [] + rest.1.value == rest.1.value;
      }
    }

    static lemma DriveUnfold(nodes: Nodes, u: Utxo, ts: seq<Transition>, done: seq<Update>)
      requires ts != []
      ensures var (u1, one) := DriveOne(nodes, u, ts[0]);
              Onto(done, Drive(nodes, u, ts))
              == match one
                 case Err(e) => (u1, Err(e))
                 case Ok(events) => Onto(done + [Update(ts[0], events)], Drive(nodes, u1, ts[1..]))
    {
      var (u1, one) := DriveOne(nodes, u, ts[0]);
      if one.Ok? {
        var (u2, rest) := Drive(nodes, u1, ts[1..]);
        if rest.Ok? {
          assert done + ([Update(ts[0], one.value)] + rest.value) == (done + [Update(ts[0], one.value)]) + rest.value;
        }
      }
    }
  }
}
