/** The updates a run emits, read by a consumer. */
module BitcoinLog {
  import opened Prelude
  import opened BitcoinDomain
  import opened DagSpec
  import opened UtxoSpec
  import opened UtxoEvents
  import opened BitcoinSpec
  import opened BitcoinRuns

  /** Everything a run has emitted. */
  ghost function Emitted(r: Rules, observed: seq<Block>): seq<Update>
    decreases |observed|
  {
    if observed == [] then []
    else
      var front := observed[..|observed| - 1];
      match Step(r, Run(r, front), observed[|observed| - 1]).1
      case Err(_) => Emitted(r, front)
      case Ok(updates) => Emitted(r, front) + updates
  }

  function Transitions(updates: seq<Update>): seq<Transition> {
    seq(|updates|, i requires 0 <= i < |updates| => updates[i].transition)
  }

  function Events(updates: seq<Update>): seq<UtxoEvent>
    decreases |updates|
  {
    if updates == [] then [] else updates[0].events + Events(updates[1..])
  }

  lemma {:induction false} EventsConcat(a: seq<Update>, b: seq<Update>)
    ensures Events(a + b) == Events(a) + Events(b)
    decreases |a|
  {
    if a == [] {
      assert a + b == b;
    } else {
      assert (a + b)[0] == a[0] && (a + b)[1..] == a[1..] + b;
      EventsConcat(a[1..], b);
    }
  }

  lemma {:induction false} FoldConcat(c: seq<BlockHash>, a: seq<Transition>, b: seq<Transition>)
    ensures Fold(c, a + b) == match Fold(c, a) case None => None case Some(next) => Fold(next, b)
    decreases |a|
  {
    if a == [] {
      assert a + b == b;
    } else {
      assert (a + b)[0] == a[0] && (a + b)[1..] == a[1..] + b;
      match a[0] {
        case Connected(h, _, _) => FoldConcat(c + [h], a[1..], b);
        case Disconnected(_, _, _) =>
          if c != [] {
            FoldConcat(c[..|c| - 1], a[1..], b);
          }
      }
    }
  }

  /** Driving answers each correction with an update that carries it, and the events of the updates are what the
      projection has to tell. */
  lemma {:induction false} DriveInforms(nodes: Nodes, u: Utxo, ts: seq<Transition>)
    requires Drive(nodes, u, ts).1.Ok?
    ensures var (u', r) := Drive(nodes, u, ts);
            Transitions(r.value) == ts && ReadAll(Informed(u), Events(r.value)) == Some(Informed(u'))
    decreases |ts|
  {
    if ts != [] {
      DriveOneInforms(nodes, u, ts[0]);
      var (u1, one) := DriveOne(nodes, u, ts[0]);
      DriveInforms(nodes, u1, ts[1..]);
      var rest := Drive(nodes, u1, ts[1..]).1.value;
      OneMoreUpdate(ts, one.value, rest);
      ReadConcat(Informed(u), one.value, Events(rest));
    }
  }

  lemma OneMoreUpdate(ts: seq<Transition>, events: seq<UtxoEvent>, rest: seq<Update>)
    requires ts != [] && Transitions(rest) == ts[1..]
    ensures var updates := [Update(ts[0], events)] + rest;
            Transitions(updates) == ts && Events(updates) == events + Events(rest)
  {
    var updates := [Update(ts[0], events)] + rest;
    assert updates[1..] == rest;
    forall i | 0 <= i < |ts|
      ensures Transitions(updates)[i] == ts[i]
    {
      assert i > 0 ==> Transitions(rest)[i - 1] == ts[1..][i - 1];
    }
  }

  lemma DriveOneInforms(nodes: Nodes, u: Utxo, t: Transition)
    requires DriveOne(nodes, u, t).1.Ok?
    ensures var (u', r) := DriveOne(nodes, u, t); ReadAll(Informed(u), r.value) == Some(Informed(u'))
  {
    match t {
      case Connected(h, _, _) => ApplyInforms(u, nodes[h].block);
      case Disconnected(h, _, _) => RevertInforms(u, h);
    }
  }

  /** Numbered one after the other from `first`, up to the largest number. */
  ghost predicate Numbered(updates: seq<Update>, first: nat) {
    forall i | 0 <= i < |updates| ::
      updates[i].transition.revision == if first + i <= U64_MAX then first + i else U64_MAX
  }

  lemma ObserveNumbers(r: Rules, d: Dag, b: Block)
    requires Inv(r, d) && Observe(r, d, b).1.Ok?
    ensures var (d', res) := Observe(r, d, b);
            && (forall i | 0 <= i < |res.value| :: res.value[i].revision == RevisionAt(d.nextRevision, i))
            && d'.nextRevision == RevisionAt(d.nextRevision, |res.value|)
  {
  }

  /** What a consumer holds: the canonical chain, the next number, and the outputs. */
  datatype View = View(chain: seq<BlockHash>, next: nat, outputs: Consumer)

  ghost function ViewOf(r: Rules, s: State): View
    requires StateInv(r, s)
  {
    View(TipChain(r.genesis, s.dag.nodes, s.dag.tip), s.dag.nextRevision, Informed(s.utxo))
  }

  /** Reading the updates leads from one view to another. */
  ghost predicate Tells(v: View, updates: seq<Update>, v': View) {
    && Fold(v.chain, Transitions(updates)) == Some(v'.chain)
    && Numbered(updates, v.next) && v'.next == RevisionAt(v.next, |updates|)
    && ReadAll(v.outputs, Events(updates)) == Some(v'.outputs)
  }

  lemma TellsConcat(v: View, a: seq<Update>, v1: View, b: seq<Update>, v2: View)
    requires Tells(v, a, v1) && Tells(v1, b, v2) && v.next <= U64_MAX
    ensures Tells(v, a + b, v2)
  {
    EventsConcat(a, b);
    ReadConcat(v.outputs, Events(a), Events(b));
    assert Transitions(a + b) == Transitions(a) + Transitions(b);
    FoldConcat(v.chain, Transitions(a), Transitions(b));
  }

  /** What the updates of one accepted block say. */
  lemma StepTells(r: Rules, s: State, b: Block)
    requires StateInv(r, s) && Step(r, s, b).1.Ok?
    ensures StateInv(r, Step(r, s, b).0)
    ensures Tells(ViewOf(r, s), Step(r, s, b).1.value, ViewOf(r, Step(r, s, b).0))
  {
    StepKeepsInv(r, s, b);
    ObserveKeepsInv(r, s.dag, b);
    var (d, observed) := Observe(r, s.dag, b);
    ObserveCorrects(r, s.dag, b);
    ObserveNumbers(r, s.dag, b);
    DriveInforms(d.nodes, s.utxo, observed.value);
    var updates := Step(r, s, b).1.value;
    forall i | 0 <= i < |updates|
      ensures updates[i].transition.revision == RevisionAt(s.dag.nextRevision, i)
    {
      assert Transitions(updates)[i] == observed.value[i];
    }
  }

  /** A consumer of the updates of any run holds, from them alone, the canonical chain with its heights and the UTXO
      map, and the updates are numbered 1, 2, 3, … up to the largest number. */
  lemma {:induction false} LogRebuildsState(r: Rules, observed: seq<Block>)
    ensures Tells(View([], 1, Consumer(map[], [])), Emitted(r, observed), ViewOf(r, Run(r, observed)))
    decreases |observed|
  {
    if observed != [] {
      var front, b := observed[..|observed| - 1], observed[|observed| - 1];
      var s := Run(r, front);
      LogRebuildsState(r, front);
      if Step(r, s, b).1.Ok? {
        StepTells(r, s, b);
        TellsConcat(View([], 1, Consumer(map[], [])), Emitted(r, front), ViewOf(r, s),
                    Step(r, s, b).1.value, ViewOf(r, Step(r, s, b).0));
      } else {
        StepKeepsInv(r, s, b);
      }
    }
  }
}
