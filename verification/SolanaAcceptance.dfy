/** What each operation accepts, said of the forks, their paths and their recorded writes. */
module SolanaAcceptance {
  import opened Prelude
  import opened SolanaSpec
  import opened SolanaRuns

  // ---------------------------------------------------------------- writes

  /** Every write recorded on the fork has a smaller version. */
  ghost predicate Newer(g: Graph, w: Write)
    requires w.fork in g.nodes
  {
    forall i | 0 <= i < |g.nodes[w.fork].writes| :: g.nodes[w.fork].writes[i].version < w.version
  }

  ghost predicate Rising(ws: seq<Write>) {
    forall i, j | 0 <= i < j < |ws| :: ws[i].version < ws[j].version
  }

  /** The writes of a fork are its own, with rising versions, the last of which is remembered. */
  ghost predicate Versioned(g: Graph, f: ForkId)
    requires f in g.nodes
  {
    var n := g.nodes[f];
    && (forall i | 0 <= i < |n.writes| :: n.writes[i].fork == f) && Rising(n.writes)
    && n.lastVersion == if n.writes == [] then None else Some(n.writes[|n.writes| - 1].version)
  }

  ghost predicate AllVersioned(g: Graph) {
    forall f {:trigger Versioned(g, f)} | f in g.nodes :: Versioned(g, f)
  }

  /** The fork is known and not dead. */
  predicate Live(g: Graph, f: ForkId) {
    f in g.nodes && g.nodes[f].commitment != Dead
  }

  lemma NewerIff(g: Graph, w: Write)
    requires w.fork in g.nodes && Versioned(g, w.fork)
    ensures Newer(g, w) <==> g.nodes[w.fork].lastVersion.None? || g.nodes[w.fork].lastVersion.value < w.version
  {
    var ws := g.nodes[w.fork].writes;
    if ws != [] {
      assert forall i | 0 <= i < |ws| - 1 :: ws[i].version < ws[|ws| - 1].version;
    }
  }

  lemma WriteOutcome(g: Graph, w: Write)
    requires Inv(g) && AllVersioned(g)
    ensures var (g', r) := RecordWrite(g, w);
            && (r.Ok? <==> Live(g, w.fork) && Newer(g, w))
            && (r == Err(UnknownFork) <==> w.fork !in g.nodes)
            && (r == Err(DeadFork) <==> w.fork in g.nodes && g.nodes[w.fork].commitment == Dead)
            && (r == Err(WriteVersionRegression) <==> Live(g, w.fork) && !Newer(g, w))
            && (r.Err? ==> g' == g)
  {
    if w.fork in g.nodes {
      assert Versioned(g, w.fork);
      NewerIff(g, w);
    }
  }

  lemma StepKeepsVersioned(g: Graph, e: Event)
    requires Inv(g) && AllVersioned(g)
    ensures AllVersioned(Step(g, e))
  {
    var g' := Step(g, e);
    forall f | f in g'.nodes
      ensures Versioned(g', f)
    {
      WritesAfter(g, e, f);
      if f in g.nodes {
        assert Versioned(g, f);
      }
      if e.Put? && f == e.w.fork && f in g.nodes {
        NewerIff(g, e.w);
      }
    }
  }

  /** Only an accepted write changes what a fork has recorded, by that write. */
  lemma WritesAfter(g: Graph, e: Event, f: ForkId)
    requires Inv(g) && f in Step(g, e).nodes
    ensures var n' := Step(g, e).nodes[f];
            if f !in g.nodes then n'.writes == [] && n'.lastVersion == None
            else if e.Put? && e.w.fork == f && WriteError(g, e.w).None? then
              n'.writes == g.nodes[f].writes + [e.w] && n'.lastVersion == Some(e.w.version)
            else n'.writes == g.nodes[f].writes && n'.lastVersion == g.nodes[f].lastVersion
  {
  }

  lemma {:induction false} RunIsVersioned(events: seq<Event>)
    ensures AllVersioned(Run(events))
    decreases |events|
  {
    if events != [] {
      RunIsVersioned(events[..|events| - 1]);
      StepKeepsVersioned(Run(events[..|events| - 1]), events[|events| - 1]);
    }
  }

  /** In every run the versions of the writes recorded on each fork rise strictly. */
  lemma VersionsRise(events: seq<Event>, f: ForkId, i: nat, j: nat)
    requires f in Run(events).nodes && i < j < |Run(events).nodes[f].writes|
    ensures Run(events).nodes[f].writes[i].version < Run(events).nodes[f].writes[j].version
  {
    RunIsVersioned(events);
    assert Versioned(Run(events), f);
  }

  /** In every run a write is accepted if and only if its fork is known and not dead and every write already recorded on
      that fork has a smaller version; a refusal says which of these fails and changes nothing. */
  lemma WriteAcceptedIff(events: seq<Event>, w: Write)
    ensures var g := Run(events);
            var (g', r) := RecordWrite(g, w);
            && (r.Ok? <==> Live(g, w.fork) && Newer(g, w))
            && (r == Err(UnknownFork) <==> w.fork !in g.nodes)
            && (r == Err(DeadFork) <==> w.fork in g.nodes && g.nodes[w.fork].commitment == Dead)
            && (r == Err(WriteVersionRegression) <==> Live(g, w.fork) && !Newer(g, w))
            && (r.Err? ==> g' == g)
  {
    RunIsVersioned(events);
    WriteOutcome(Run(events), w);
  }

  /** The writes to a fork that came when it was live and were newer than all before them, in order. */
  ghost function NewWrites(events: seq<Event>, f: ForkId): seq<Write>
    decreases |events|
  {
    if events == [] then []
    else
      var front, e := events[..|events| - 1], events[|events| - 1];
      var before := NewWrites(front, f);
      if e.Put? && e.w.fork == f && Live(Run(front), f) && (forall i | 0 <= i < |before| :: before[i].version < e.w.version) then
        before + [e.w]
      else before
  }

  /** A fork has recorded exactly those. */
  lemma {:induction false} RecordedIsHistory(events: seq<Event>, f: ForkId)
    ensures f in Run(events).nodes ==> Run(events).nodes[f].writes == NewWrites(events, f)
    ensures f !in Run(events).nodes ==> NewWrites(events, f) == []
    decreases |events|
  {
    if events != [] {
      var front, e := events[..|events| - 1], events[|events| - 1];
      var g := Run(front);
      RecordedIsHistory(front, f);
      if f in Run(events).nodes {
        WritesAfter(g, e, f);
      }
      if f in g.nodes {
        StepKeepsFate(g, e, f);
        if e.Put? && e.w.fork == f {
          RunIsVersioned(front);
          WriteOutcome(g, e.w);
        }
      }
    }
  }

  // ---------------------------------------------------------------- slots

  /** The forks from the root on: the first has no parent. */
  lemma {:induction false} PathStartsBare(nodes: Nodes, root: Option<ForkId>, f: ForkId)
    requires Tree(nodes, root) && f in nodes
    ensures var p := Path(nodes, root, f); nodes[p[0]].parent.None? && root == Some(p[0])
    decreases f.slot
  {
    assert NodeOk(nodes, root, f);
    if nodes[f].parent.Some? {
      PathStartsBare(nodes, root, nodes[f].parent.value);
    }
  }

  lemma RootIff(g: Graph)
    requires Inv(g)
    ensures g.root.None? <==> g.nodes == map[]
  {
    if g.nodes != map[] {
      var f :| f in g.nodes;
      PathStartsBare(g.nodes, g.root, f);
    }
  }

  /** A slot is accepted if and only if it is known with that parent, or it is the very first, or its parent is known,
      not dead, and at a smaller slot; a new one starts received and empty, and nothing else changes. */
  lemma SlotAcceptedIff(g: Graph, f: ForkId, parent: Option<ForkId>)
    requires Inv(g)
    ensures var (g', r) := ObserveSlot(g, f, parent);
            && (r.Ok? <==>
                  if f in g.nodes then g.nodes[f].parent == parent
                  else if parent.None? then g.nodes == map[]
                  else Live(g, parent.value) && parent.value.slot < f.slot)
            && (f in g.nodes || r.Err? ==> g' == g)
            && (f !in g.nodes && r.Ok? ==>
                  && g'.nodes.Keys == g.nodes.Keys + {f} && (forall x | x in g.nodes :: g'.nodes[x] == g.nodes[x])
                  && g'.nodes[f] == Fork(parent, Received, [], None)
                  && g'.active == g.active && g'.revision == g.revision)
  {
    RootIff(g);
  }

  /** Why a new slot is refused. */
  lemma SlotRefusedFor(g: Graph, f: ForkId, parent: Option<ForkId>)
    requires Inv(g)
    ensures var r := ObserveSlot(g, f, parent).1;
            && (r == Err(ConflictingForkIdentity) <==> f in g.nodes && g.nodes[f].parent != parent)
            && (r == Err(MultipleRoots) <==> f !in g.nodes && parent.None? && g.nodes != map[])
            && (r == Err(UnknownParent) <==> f !in g.nodes && parent.Some? && parent.value !in g.nodes)
            && (r == Err(DeadParent) <==>
                  f !in g.nodes && parent.Some? && parent.value in g.nodes && g.nodes[parent.value].commitment == Dead)
            && (r == Err(NonIncreasingSlot) <==> f !in g.nodes && parent.Some? && Live(g, parent.value) && f.slot <= parent.value.slot)
  {
    RootIff(g);
  }

  // ---------------------------------------------------------------- commitments

  /** Received, processed, confirmed, finalized, in this order. */
  predicate Rises(from: Commitment, to: Commitment) {
    match from
    case Received => to == Processed || to == Confirmed || to == Finalized
    case Processed => to == Confirmed || to == Finalized
    case Confirmed => to == Finalized
    case _ => false
  }

  /** A commitment other than death is accepted if and only if the fork is known and has it already or can rise to it,
      and then only that fork changes, under the next revision number. */
  lemma CommitmentAcceptedIff(g: Graph, f: ForkId, c: Commitment)
    requires Inv(g) && c != Dead
    ensures var (g', r) := ObserveCommitment(g, f, c);
            && (r.Ok? <==> f in g.nodes && (g.nodes[f].commitment == c || (Rises(g.nodes[f].commitment, c) && g.revision < U64_MAX)))
            && (r.Err? || r.value.None? ==> g' == g)
            && (r.Ok? ==> (r.value.None? <==> g.nodes[f].commitment == c))
            && (r.Ok? && r.value.Some? ==>
                  && r.value.value == CommitmentRevision(g.revision + 1, f, g.nodes[f].commitment, c)
                  && g'.revision == g.revision + 1 && g'.nodes.Keys == g.nodes.Keys && g'.nodes[f].commitment == c
                  && (forall x | x in g.nodes && x != f :: g'.nodes[x] == g.nodes[x])
                  && g'.active == g.active && g'.applied == g.applied)
  {
  }

  lemma CommitmentRefusedFor(g: Graph, f: ForkId, c: Commitment)
    requires Inv(g) && c != Dead
    ensures var r := ObserveCommitment(g, f, c).1;
            && (r == Err(UnknownFork) <==> f !in g.nodes)
            && (r == Err(DeadFork) <==> f in g.nodes && g.nodes[f].commitment == Dead)
            && (r == Err(CommitmentRegression) <==> f in g.nodes && Rises(c, g.nodes[f].commitment))
            && (r == Err(RevisionOverflow) <==>
                  f in g.nodes && Rises(g.nodes[f].commitment, c) && g.revision == U64_MAX)
  {
  }

  /** `x` is `f` or descends from it. */
  ghost predicate Below(g: Graph, f: ForkId, x: ForkId)
    requires Tree(g.nodes, g.root)
  {
    x in g.nodes && f in Path(g.nodes, g.root, x)
  }

  /** A fork may die if and only if it is known and neither it nor a descendant is finalized.  Then exactly it and its
      descendants are dead, the others as before, and the projection has left them; a death that is none changes
      nothing. */
  lemma DeathAcceptedIff(g: Graph, f: ForkId)
    requires Inv(g)
    ensures var (g', r) := MarkDead(g, f);
            var dies := f in g.nodes && forall x | Below(g, f, x) :: g.nodes[x].commitment != Finalized;
            && (r.Ok? <==> dies && (g.nodes[f].commitment == Dead || g.revision < U64_MAX))
            && (!dies ==> g' == g && r == Err(if f in g.nodes then FinalizedForkWouldDie else UnknownFork))
            && (dies && g.nodes[f].commitment == Dead ==> g' == g && r == Ok(None))
            && (dies && g.nodes[f].commitment != Dead ==>
                  && g'.nodes.Keys == g.nodes.Keys
                  && (forall x | x in g.nodes ::
                        g'.nodes[x] == if Below(g, f, x) then g.nodes[x].(commitment := Dead) else g.nodes[x])
                  && (g'.active == if g.active.Some? && Below(g, f, g.active.value) then g.nodes[f].parent else g.active)
                  && (r == if g.revision == U64_MAX then Err(RevisionOverflow)
                           else Ok(Some(CommitmentRevision(g.revision + 1, f, g.nodes[f].commitment, Dead)))))
  {
    if f in g.nodes && g.nodes[f].commitment == Dead {
      forall x | Below(g, f, x)
        ensures g.nodes[x].commitment == Dead
      {
        DeadReachesDown(g.nodes, g.root, f, x);
      }
    }
    if f in g.nodes {
      PathEndsAt(g, f);
    }
  }

  lemma PathEndsAt(g: Graph, f: ForkId)
    requires Inv(g) && f in g.nodes
    ensures Below(g, f, f)
  {
    var p := Path(g.nodes, g.root, f);
    assert p[|p| - 1] in p;
  }

  /** A switch is accepted if and only if its target is known and not dead; it then is active. */
  lemma SwitchAcceptedIff(g: Graph, f: ForkId)
    requires Inv(g)
    ensures var (g', r) := Activate(g, f);
            && (r.Ok? <==> Live(g, f)) && (r.Err? ==> g' == g && r == Err(if f in g.nodes then DeadFork else UnknownFork))
            && (r.Ok? ==> g'.active == Some(f) && g'.nodes == g.nodes && g'.revision == g.revision)
  {
  }

  // ---------------------------------------------------------------- the revision log

  /** The commitment revisions a run has emitted. */
  ghost function Told(events: seq<Event>): seq<CommitmentRevision>
    decreases |events|
  {
    if events == [] then []
    else
      var front, e := events[..|events| - 1], events[|events| - 1];
      if !e.Commit? then Told(front)
      else
        var r := ObserveCommitment(Run(front), e.f, e.c).1;
        if r.Ok? && r.value.Some? then Told(front) + [r.value.value] else Told(front)
  }

  /** What the last revision that names the fork says. */
  function LastSaid(told: seq<CommitmentRevision>, f: ForkId): Commitment {
    if told == [] then Received
    else if told[|told| - 1].fork == f then told[|told| - 1].to
    else LastSaid(told[..|told| - 1], f)
  }

  lemma SaidSnoc(told: seq<CommitmentRevision>, r: CommitmentRevision, f: ForkId)
    ensures LastSaid(told + [r], f) == if r.fork == f then r.to else LastSaid(told, f)
  {
    assert (told + [r])[..|told|] == told;
  }

  /** Revisions are numbered 1, 2, 3, … without gaps, and every live fork has the commitment that the last revision
      naming it says, or is as received. */
  lemma {:induction false} LogTellsCommitments(events: seq<Event>, f: ForkId)
    ensures var g, told := Run(events), Told(events);
            && g.revision == |told| && (forall i | 0 <= i < |told| :: told[i].revision == i + 1)
            && (Live(g, f) ==> g.nodes[f].commitment == LastSaid(told, f))
            && (f !in g.nodes ==> LastSaid(told, f) == Received)
    decreases |events|
  {
    if events != [] {
      var front, e := events[..|events| - 1], events[|events| - 1];
      LogTellsCommitments(front, f);
      var g := Run(front);
      if e.Commit? {
        if e.c == Dead {
          DeathAcceptedIff(g, e.f);
          DeathSaid(g, e.f, f);
        } else {
          CommitmentAcceptedIff(g, e.f, e.c);
        }
        var r := ObserveCommitment(g, e.f, e.c).1;
        if r.Ok? && r.value.Some? {
          SaidSnoc(Told(front), r.value.value, f);
        }
      } else {
        OtherEventsAreSilent(g, e, f);
      }
    }
  }

  lemma DeathSaid(g: Graph, f: ForkId, x: ForkId)
    requires Inv(g)
    ensures var (g', r) := MarkDead(g, f);
            && g'.revision == (if r.Ok? && r.value.Some? then g.revision + 1 else g.revision)
            && (g' == g || (Live(g', x) ==> Live(g, x) && x != f && g'.nodes[x].commitment == g.nodes[x].commitment))
            && (x !in g.nodes ==> x !in g'.nodes && (x != f || g' == g))
  {
    if f in g.nodes {
      PathEndsAt(g, f);
    }
  }

  lemma OtherEventsAreSilent(g: Graph, e: Event, f: ForkId)
    requires Inv(g) && !e.Commit?
    ensures var g' := Step(g, e);
            && g'.revision == g.revision && (f in g.nodes ==> f in g'.nodes && g'.nodes[f].commitment == g.nodes[f].commitment)
            && (f !in g.nodes && f in g'.nodes ==> g'.nodes[f].commitment == Received)
  {
  }
}
