/** What every operation on the fork graph keeps, and what holds in every run. */
module SolanaRuns {
  import opened Prelude
  import opened SolanaSpec

  datatype Event =
    | Slot(f: ForkId, parent: Option<ForkId>)
    | Commit(f: ForkId, c: Commitment)
    | Put(w: Write)
    | Switch(f: ForkId)

  ghost function Step(g: Graph, e: Event): Graph
    requires Inv(g)
  {
    match e
    case Slot(f, parent) => ObserveSlot(g, f, parent).0
    case Commit(f, c) => ObserveCommitment(g, f, c).0
    case Put(w) => RecordWrite(g, w).0
    case Switch(f) => Activate(g, f).0
  }

  // ---------------------------------------------------------------- the invariant is kept

  /** Two node maps with the same forks, parents and paths. */
  ghost predicate SameShape(nodes: Nodes, nodes': Nodes) {
    nodes.Keys == nodes'.Keys && forall f | f in nodes :: nodes'[f].parent == nodes[f].parent
  }

  lemma SameTree(nodes: Nodes, nodes': Nodes, root: Option<ForkId>)
    requires Tree(nodes, root) && SameShape(nodes, nodes')
    ensures Tree(nodes', root)
  {
    forall f | f in nodes'
      ensures NodeOk(nodes', root, f)
    {
      assert NodeOk(nodes, root, f);
    }
  }

  lemma SamePath(nodes: Nodes, nodes': Nodes, root: Option<ForkId>, tip: Option<ForkId>)
    requires Tree(nodes, root) && SameShape(nodes, nodes') && Tree(nodes', root) && (tip.Some? ==> tip.value in nodes)
    ensures TipPath(nodes', root, tip) == TipPath(nodes, root, tip)
  {
    if tip.Some? {
      PathFrame(nodes, nodes', root, root, tip.value);
    }
  }

  lemma LeafKeepsTree(g: Graph, f: ForkId, parent: Option<ForkId>)
    requires Inv(g) && f !in g.nodes && SlotError(g, f, parent).None?
    ensures var g' := ObserveSlot(g, f, parent).0;
            Tree(g'.nodes, g'.root) && DeadClosed(g'.nodes)
  {
    var g' := ObserveSlot(g, f, parent).0;
    forall x | x in g'.nodes
      ensures NodeOk(g'.nodes, g'.root, x)
      ensures ChildOk(g'.nodes, x)
    {
      if x != f {
        assert NodeOk(g.nodes, g.root, x) && ChildOk(g.nodes, x);
      }
    }
  }

  /** A leaf that is added changes no path. */
  lemma SlotKeepsInv(g: Graph, f: ForkId, parent: Option<ForkId>)
    requires Inv(g)
    ensures Inv(ObserveSlot(g, f, parent).0)
    ensures ActivePath(ObserveSlot(g, f, parent).0) == ActivePath(g)
  {
    var g' := ObserveSlot(g, f, parent).0;
    if f !in g.nodes && SlotError(g, f, parent).None? {
      LeafKeepsTree(g, f, parent);
      if g.active.Some? {
        PathFrame(g.nodes, g'.nodes, g.root, g'.root, g.active.value);
      }
      assert ActivePath(g') == ActivePath(g);
    }
  }

  lemma WriteKeepsInv(g: Graph, w: Write)
    requires Inv(g)
    ensures Inv(RecordWrite(g, w).0)
    ensures ActivePath(RecordWrite(g, w).0) == ActivePath(g)
  {
    var g' := RecordWrite(g, w).0;
    SameTree(g.nodes, g'.nodes, g.root);
    SamePath(g.nodes, g'.nodes, g.root, g.active);
    forall x | x in g'.nodes
      ensures ChildOk(g'.nodes, x)
    {
      assert ChildOk(g.nodes, x);
    }
  }

  lemma ActivatedKeepsInv(g: Graph, target: Option<ForkId>)
    requires Inv(g) && ActivateError(g.nodes, target).None?
    ensures Inv(Activated(g, target))
    ensures ActivePath(Activated(g, target)) == TipPath(g.nodes, g.root, target)
  {
  }

  /** Marking a whole subtree dead keeps dead forks closed under children. */
  lemma KilledKeepsClosed(g: Graph, f: ForkId)
    requires Tree(g.nodes, g.root) && DeadClosed(g.nodes) && f in g.nodes
    ensures DeadClosed(Killed(g.nodes, Subtree(g, f)))
    ensures SameShape(g.nodes, Killed(g.nodes, Subtree(g, f)))
  {
    var nodes' := Killed(g.nodes, Subtree(g, f));
    forall x | x in nodes'
      ensures ChildOk(nodes', x)
    {
      assert NodeOk(g.nodes, g.root, x) && ChildOk(g.nodes, x);
    }
  }

  /** After vacating, the active path does not meet the dying subtree. */
  lemma VacatedAvoids(g: Graph, f: ForkId)
    requires Inv(g) && f in g.nodes && g.nodes[f].commitment != Dead
    ensures var g1 := Vacated(g, f);
            && Inv(g1) && g1.nodes == g.nodes && g1.root == g.root
            && (g1.active.Some? ==> g1.active.value !in Subtree(g, f))
  {
    assert NodeOk(g.nodes, g.root, f);
    ParentIsLive(g, f);
    ActivatedKeepsInv(g, g.nodes[f].parent);
    if g.nodes[f].parent.Some? {
      PathGrows(g.nodes, g.root, g.nodes[f].parent.value);
    }
  }

  /** Marking forks dead off the active path keeps the invariant and the path. */
  lemma KillingKeepsInv(g1: Graph, f: ForkId, revision: nat)
    requires Inv(g1) && f in g1.nodes && (g1.active.Some? ==> g1.active.value !in Subtree(g1, f)) && revision <= U64_MAX
    ensures var g2 := g1.(nodes := Killed(g1.nodes, Subtree(g1, f)), revision := revision);
            Inv(g2) && ActivePath(g2) == ActivePath(g1)
  {
    KilledKeepsClosed(g1, f);
    var nodes' := Killed(g1.nodes, Subtree(g1, f));
    SameTree(g1.nodes, nodes', g1.root);
    SamePath(g1.nodes, nodes', g1.root, g1.active);
  }

  lemma DeathKeepsInv(g: Graph, f: ForkId)
    requires Inv(g)
    ensures Inv(MarkDead(g, f).0)
    ensures DeathError(g, f).None? && g.nodes[f].commitment != Dead ==>
              ActivePath(MarkDead(g, f).0) == ActivePath(Vacated(g, f))
  {
    if DeathError(g, f).None? && g.nodes[f].commitment != Dead {
      VacatedAvoids(g, f);
      KillingKeepsInv(Vacated(g, f), f, if g.revision == U64_MAX then g.revision else g.revision + 1);
    }
  }

  lemma CommitKeepsInv(g: Graph, f: ForkId, c: Commitment)
    requires Inv(g) && c != Dead
    ensures Inv(ObserveCommitment(g, f, c).0)
    ensures ActivePath(ObserveCommitment(g, f, c).0) == ActivePath(g)
  {
    var g' := ObserveCommitment(g, f, c).0;
    SameTree(g.nodes, g'.nodes, g.root);
    SamePath(g.nodes, g'.nodes, g.root, g.active);
    forall x | x in g'.nodes
      ensures ChildOk(g'.nodes, x)
    {
      assert ChildOk(g.nodes, x);
    }
  }

  lemma StepKeepsInv(g: Graph, e: Event)
    requires Inv(g)
    ensures Inv(Step(g, e))
  {
    match e {
      case Slot(f, parent) => SlotKeepsInv(g, f, parent);
      case Commit(f, c) => if c == Dead { DeathKeepsInv(g, f); } else { CommitKeepsInv(g, f, c); }
      case Put(w) => WriteKeepsInv(g, w);
      case Switch(f) => if ActivateError(g.nodes, Some(f)).None? { ActivatedKeepsInv(g, Some(f)); }
    }
  }

  ghost function Run(events: seq<Event>): (g: Graph)
    ensures Inv(g)
    decreases |events|
  {
    if events == [] then START
    else
      var g := Run(events[..|events| - 1]);
      StepKeepsInv(g, events[|events| - 1]);
      Step(g, events[|events| - 1])
  }

  // ---------------------------------------------------------------- death and finality

  /** No ancestor of a live fork, in particular of a finalized one, is dead. */
  lemma AncestorsOfLiveAreLive(events: seq<Event>, f: ForkId, g: ForkId)
    requires var s := Run(events);
             f in s.nodes && g in s.nodes && f in Path(s.nodes, s.root, g) && s.nodes[g].commitment != Dead
    ensures Run(events).nodes[f].commitment != Dead
  {
    var s := Run(events);
    if s.nodes[f].commitment == Dead {
      DeadReachesDown(s.nodes, s.root, f, g);
    }
  }

  /** A finalized fork stays finalized, a dead fork stays dead, and no fork is forgotten. */
  lemma StepKeepsFate(g: Graph, e: Event, f: ForkId)
    requires Inv(g) && f in g.nodes
    ensures f in Step(g, e).nodes && Step(g, e).nodes[f].parent == g.nodes[f].parent
    ensures g.nodes[f].commitment == Finalized ==> Step(g, e).nodes[f].commitment == Finalized
    ensures g.nodes[f].commitment == Dead ==> Step(g, e).nodes[f].commitment == Dead
  {
    if e.Commit? && e.c == Dead && DeathError(g, e.f).None? && g.nodes[e.f].commitment != Dead {
      assert f in Subtree(g, e.f) ==> g.nodes[f].commitment != Finalized;
    }
  }

  lemma {:induction false} FateIsFinal(events: seq<Event>, i: nat, f: ForkId)
    requires i <= |events| && f in Run(events[..i]).nodes
    ensures f in Run(events).nodes
    ensures Run(events[..i]).nodes[f].commitment == Finalized ==> Run(events).nodes[f].commitment == Finalized
    ensures Run(events[..i]).nodes[f].commitment == Dead ==> Run(events).nodes[f].commitment == Dead
    decreases |events|
  {
    if i < |events| {
      var front := events[..|events| - 1];
      assert front[..i] == events[..i];
      FateIsFinal(front, i, f);
      StepKeepsFate(Run(front), events[|events| - 1], f);
    } else {
      assert events[..i] == events;
    }
  }

  // ---------------------------------------------------------------- full replay

  function AllWrites(nodes: Nodes): map<ForkId, seq<Write>> {
    map f | f in nodes :: nodes[f].writes
  }

  /** Everything recorded on the active path is applied. */
  ghost predicate UpToDate(g: Graph)
    requires Inv(g)
  {
    forall f | f in ActivePath(g) :: g.applied[f] == g.nodes[f].writes
  }

  /** Then the account map is the replay of all recorded writes along the active path. */
  lemma UpToDateIsReplay(g: Graph)
    requires Inv(g) && UpToDate(g)
    ensures AccountsOf(g) == Projected(AllWrites(g.nodes), ActivePath(g))
  {
    ProjectedFrame(g.applied, AllWrites(g.nodes), ActivePath(g));
  }

  /** The one kind of write that is recorded but not applied: to a strict ancestor of the active tip. */
  ghost predicate ToStrictAncestor(g: Graph, w: Write)
    requires Inv(g)
  {
    w.fork in ActivePath(g) && g.active != Some(w.fork)
  }

  lemma StepKeepsUpToDate(g: Graph, e: Event)
    requires Inv(g) && UpToDate(g) && Inv(Step(g, e))
    requires e.Put? && WriteError(g, e.w).None? ==> !ToStrictAncestor(g, e.w)
    ensures UpToDate(Step(g, e))
  {
    match e {
      case Slot(f, parent) => SlotKeepsInv(g, f, parent);
      case Commit(f, c) => if c == Dead { DeathKeepsUpToDate(g, f); } else { CommitKeepsInv(g, f, c); }
      case Put(w) => WriteKeepsInv(g, w);
      case Switch(f) =>
        if ActivateError(g.nodes, Some(f)).None? {
          ActivatedKeepsInv(g, Some(f));
        }
    }
  }

  lemma DeathKeepsUpToDate(g: Graph, f: ForkId)
    requires Inv(g) && UpToDate(g) && Inv(MarkDead(g, f).0)
    ensures UpToDate(MarkDead(g, f).0)
  {
    if DeathError(g, f).None? && g.nodes[f].commitment != Dead {
      VacatedAvoids(g, f);
      DeathKeepsInv(g, f);
      var g1 := Vacated(g, f);
      if g1 != g {
        ParentIsLive(g, f);
        ActivatedIsUpToDate(g, g.nodes[f].parent);
      }
      var g2 := MarkDead(g, f).0;
      assert forall x | x in g.nodes :: g2.nodes[x].writes == g.nodes[x].writes;
    }
  }

  lemma ActivatedIsUpToDate(g: Graph, target: Option<ForkId>)
    requires Inv(g) && UpToDate(g) && ActivateError(g.nodes, target).None? && Inv(Activated(g, target))
    ensures UpToDate(Activated(g, target))
  {
    ActivatedKeepsInv(g, target);
  }

  /** Runs in which no accepted write goes to a strict ancestor of the active tip. */
  ghost predicate TipOrOffPath(events: seq<Event>)
    decreases |events|
  {
    events == [] ||
    (var front := events[..|events| - 1];
     var e := events[|events| - 1];
     TipOrOffPath(front) && (e.Put? && WriteError(Run(front), e.w).None? ==> !ToStrictAncestor(Run(front), e.w)))
  }

  lemma {:induction false} TipWritesStayUpToDate(events: seq<Event>)
    requires TipOrOffPath(events)
    ensures UpToDate(Run(events))
    decreases |events|
  {
    if events != [] {
      var front := events[..|events| - 1];
      TipWritesStayUpToDate(front);
      StepKeepsInv(Run(front), events[|events| - 1]);
      StepKeepsUpToDate(Run(front), events[|events| - 1]);
    }
  }

  /** In every run in which writes go to the active tip or to forks off the active path, the account
      map is the replay of all recorded writes from the root to the active tip, whatever was active
      before. */
  lemma RunIsReplay(events: seq<Event>)
    requires TipOrOffPath(events)
    ensures var g := Run(events);
            AccountsOf(g) == Projected(AllWrites(g.nodes), ActivePath(g))
  {
    TipWritesStayUpToDate(events);
    UpToDateIsReplay(Run(events));
  }
}
