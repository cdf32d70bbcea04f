/** Exactly when the account map equals the replay of everything recorded on the active path: in every
    state, and after every write, switch and death. */
module SolanaReplay {
  import opened Prelude
  import opened SolanaSpec
  import opened SolanaRuns

  type Recorded = map<ForkId, seq<Write>>

  // ---------------------------------------------------------------- the last write to an account

  function LastIn(ws: seq<Write>, pubkey: nat): Option<Write> {
    if ws == [] then None
    else if ws[|ws| - 1].pubkey == pubkey then Some(ws[|ws| - 1])
    else LastIn(ws[..|ws| - 1], pubkey)
  }

  /** The last write to an account along a path. */
  function LastOn(ws: Recorded, path: seq<ForkId>, pubkey: nat): Option<Write> {
    if path == [] then None
    else
      var last := LastIn(WritesOf(ws, path[|path| - 1]), pubkey);
      if last.Some? then last else LastOn(ws, path[..|path| - 1], pubkey)
  }

  /** Two last writes leave the account the same. */
  predicate SameState(a: Option<Write>, b: Option<Write>) {
    match (a, b)
    case (None, None) => true
    case (Some(x), Some(y)) => StateOf(x) == StateOf(y)
    case _ => false
  }

  /** An account holds what a last write says. */
  predicate HoldsLast(m: Accounts, pubkey: nat, last: Option<Write>) {
    match last
    case None => pubkey !in m
    case Some(w) => pubkey in m && m[pubkey] == StateOf(w)
  }

  lemma {:induction false} ApplyHoldsLast(m: Accounts, ws: seq<Write>, pubkey: nat, before: Option<Write>)
    requires HoldsLast(m, pubkey, before)
    ensures HoldsLast(ApplyWrites(m, ws), pubkey, if LastIn(ws, pubkey).Some? then LastIn(ws, pubkey) else before)
    decreases |ws|
  {
    if ws != [] {
      ApplyHoldsLast(m, ws[..|ws| - 1], pubkey, before);
    }
  }

  /** The fold along a path holds, for every account, what the last write along the path says. */
  lemma {:induction false} ProjectedHoldsLast(ws: Recorded, path: seq<ForkId>, pubkey: nat)
    ensures HoldsLast(Projected(ws, path), pubkey, LastOn(ws, path, pubkey))
    decreases |path|
  {
    if path != [] {
      var front := path[..|path| - 1];
      ProjectedHoldsLast(ws, front, pubkey);
      ApplyHoldsLast(Projected(ws, front), WritesOf(ws, path[|path| - 1]), pubkey, LastOn(ws, front, pubkey));
    }
  }

  lemma SameHolds(m: Accounts, m': Accounts, pubkey: nat, a: Option<Write>, b: Option<Write>)
    requires HoldsLast(m, pubkey, a) && HoldsLast(m', pubkey, b)
    ensures SameState(a, b) <==> (pubkey in m <==> pubkey in m') && (pubkey in m && pubkey in m' ==> m[pubkey] == m'[pubkey])
  {
  }

  /** Along a path, two records agree on what an account should hold. */
  ghost predicate AgreeOn(ws: Recorded, ws': Recorded, path: seq<ForkId>, pubkey: nat) {
    SameState(LastOn(ws, path, pubkey), LastOn(ws', path, pubkey))
  }

  lemma AgreeIsSame(ws: Recorded, ws': Recorded, path: seq<ForkId>, pubkey: nat)
    ensures var m, m' := Projected(ws, path), Projected(ws', path);
            AgreeOn(ws, ws', path, pubkey)
            <==> (pubkey in m <==> pubkey in m') && (pubkey in m && pubkey in m' ==> m[pubkey] == m'[pubkey])
  {
    ProjectedHoldsLast(ws, path, pubkey);
    ProjectedHoldsLast(ws', path, pubkey);
    SameHolds(Projected(ws, path), Projected(ws', path), pubkey, LastOn(ws, path, pubkey), LastOn(ws', path, pubkey));
  }

  /** Two folds are equal exactly when they agree on the last write to every account. */
  lemma SameProjection(ws: Recorded, ws': Recorded, path: seq<ForkId>)
    ensures Projected(ws, path) == Projected(ws', path)
            <==> forall pubkey {:trigger AgreeOn(ws, ws', path, pubkey)} :: AgreeOn(ws, ws', path, pubkey)
  {
    var m, m' := Projected(ws, path), Projected(ws', path);
    if m == m' {
      forall pubkey
        ensures AgreeOn(ws, ws', path, pubkey)
      {
        AgreeIsSame(ws, ws', path, pubkey);
      }
    }
    if forall pubkey {:trigger AgreeOn(ws, ws', path, pubkey)} :: AgreeOn(ws, ws', path, pubkey) {
      forall pubkey
        ensures (pubkey in m <==> pubkey in m') && (pubkey in m && pubkey in m' ==> m[pubkey] == m'[pubkey])
      {
        assert AgreeOn(ws, ws', path, pubkey);
        AgreeIsSame(ws, ws', path, pubkey);
      }
      assert m.Keys == m'.Keys;
    }
  }

  lemma {:induction false} LastOnConcat(ws: Recorded, a: seq<ForkId>, b: seq<ForkId>, pubkey: nat)
    ensures LastOn(ws, a + b, pubkey) == if LastOn(ws, b, pubkey).Some? then LastOn(ws, b, pubkey) else LastOn(ws, a, pubkey)
    decreases |b|
  {
    if b == [] {
      assert a + b == a;
    } else {
      assert (a + b)[..|a + b| - 1] == a + b[..|b| - 1];
      LastOnConcat(ws, a, b[..|b| - 1], pubkey);
    }
  }

  lemma {:induction false} LastOnFrame(ws: Recorded, ws': Recorded, path: seq<ForkId>, pubkey: nat)
    requires forall f | f in path :: LastIn(WritesOf(ws, f), pubkey) == LastIn(WritesOf(ws', f), pubkey)
    ensures LastOn(ws, path, pubkey) == LastOn(ws', path, pubkey)
    decreases |path|
  {
    if path != [] {
      assert path[|path| - 1] in path;
      LastOnFrame(ws, ws', path[..|path| - 1], pubkey);
    }
  }

  // ---------------------------------------------------------------- every state

  /** The account map equals the replay of all recorded writes along the active path. */
  ghost predicate Replays(g: Graph)
    requires Inv(g)
  {
    AccountsOf(g) == Projected(AllWrites(g.nodes), ActivePath(g))
  }

  /** Along a path, the last applied write to an account is the last recorded one, or says the same. */
  ghost predicate CurrentOn(g: Graph, path: seq<ForkId>, pubkey: nat) {
    AgreeOn(g.applied, AllWrites(g.nodes), path, pubkey)
  }

  ghost predicate Current(g: Graph, pubkey: nat)
    requires Inv(g)
  {
    CurrentOn(g, ActivePath(g), pubkey)
  }

  /** In every state, reachable or not, the map replays exactly when every account is current. */
  lemma ReplaysIff(g: Graph)
    requires Inv(g)
    ensures Replays(g) <==> forall pubkey :: Current(g, pubkey)
  {
    var path, all := ActivePath(g), AllWrites(g.nodes);
    SameProjection(g.applied, all, path);
    forall pubkey
      ensures Current(g, pubkey) <==> AgreeOn(g.applied, all, path, pubkey)
    {
    }
    if forall pubkey :: Current(g, pubkey) {
      forall pubkey
        ensures AgreeOn(g.applied, all, path, pubkey)
      {
        assert Current(g, pubkey);
      }
    }
  }

  // ---------------------------------------------------------------- writes

  /** Where a fork is on a path. */
  ghost function At(path: seq<ForkId>, f: ForkId): (i: nat)
    requires f in path
    ensures i < |path| && path[i] == f
  {
    var i :| 0 <= i < |path| && path[i] == f;
    i
  }

  /** A fork on the path above the written one records the same account. */
  ghost predicate Overwritten(g: Graph, path: seq<ForkId>, w: Write)
    requires w.fork in path
  {
    LastOn(AllWrites(g.nodes), path[At(path, w.fork) + 1..], w.pubkey).Some?
  }

  /** What a write needs along a path, account by account, for the two to agree after it. */
  ghost predicate AgreesAfterWrite(g: Graph, path: seq<ForkId>, w: Write, pubkey: nat) {
    if pubkey != w.pubkey || w.fork !in path then CurrentOn(g, path, pubkey)
    else if g.active == Some(w.fork) then true
    else if Overwritten(g, path, w) then CurrentOn(g, path, pubkey)
    else SameState(LastOn(g.applied, path, pubkey), Some(w))
  }

  /** What a write needs, account by account, for the map to replay after it. */
  ghost predicate CurrentAfterWrite(g: Graph, w: Write, pubkey: nat)
    requires Inv(g)
  {
    AgreesAfterWrite(g, ActivePath(g), w, pubkey)
  }

  lemma LastInSnoc(ws: seq<Write>, w: Write, pubkey: nat)
    ensures LastIn(ws + [w], pubkey) == if w.pubkey == pubkey then Some(w) else LastIn(ws, pubkey)
  {
    assert (ws + [w])[..|ws|] == ws;
  }

  /** One more write on one fork of a path, for another account or for the account itself. */
  lemma LastOnInserted(ws: Recorded, path: seq<ForkId>, i: nat, w: Write, pubkey: nat)
    requires Grows(path) && i < |path|
    ensures var ws' := ws[path[i] := WritesOf(ws, path[i]) + [w]];
            var above := LastOn(ws, path[i + 1..], pubkey);
            LastOn(ws', path, pubkey) == if pubkey != w.pubkey || above.Some? then LastOn(ws, path, pubkey) else Some(w)
  {
    var f, below, above := path[i], path[..i], path[i + 1..];
    var ws' := ws[f := WritesOf(ws, f) + [w]];
    assert path == below + ([f] + above);
    NotElsewhere(path, i);
    LastOnFrame(ws, ws', below, pubkey);
    LastOnFrame(ws, ws', above, pubkey);
    LastInSnoc(WritesOf(ws, f), w, pubkey);
    LastOnThree(ws, below, f, above, pubkey);
    LastOnThree(ws', below, f, above, pubkey);
  }

  lemma LastOnThree(ws: Recorded, below: seq<ForkId>, f: ForkId, above: seq<ForkId>, pubkey: nat)
    ensures LastOn(ws, below + ([f] + above), pubkey)
            == if LastOn(ws, above, pubkey).Some? then LastOn(ws, above, pubkey)
               else if LastIn(WritesOf(ws, f), pubkey).Some? then LastIn(WritesOf(ws, f), pubkey)
               else LastOn(ws, below, pubkey)
  {
    LastOnConcat(ws, below, [f] + above, pubkey);
    LastOnConcat(ws, [f], above, pubkey);
    assert [f][..0] == [];
  }

  lemma NotElsewhere(path: seq<ForkId>, i: nat)
    requires Grows(path) && i < |path|
    ensures path[i] !in path[..i] && path[i] !in path[i + 1..]
  {
    GrowsIsDistinct(path, i);
    forall j | i + 1 <= j < |path|
      ensures path[j] != path[i]
    {
      assert InOrder(path, i, j);
    }
  }

  lemma AllWritesAfter(g: Graph, w: Write)
    requires g.applied.Keys == g.nodes.Keys && WriteError(g, w).None?
    ensures var all := AllWrites(g.nodes);
            AllWrites(RecordWrite(g, w).0.nodes) == all[w.fork := WritesOf(all, w.fork) + [w]]
  {
  }

  lemma WriteCurrentIff(g: Graph, w: Write, pubkey: nat)
    requires Inv(g) && WriteError(g, w).None? && Inv(RecordWrite(g, w).0)
    requires ActivePath(RecordWrite(g, w).0) == ActivePath(g)
    ensures Current(RecordWrite(g, w).0, pubkey) <==> CurrentAfterWrite(g, w, pubkey)
  {
    if g.active == Some(w.fork) {
      OnTip(g, w, pubkey);
    } else if w.fork in ActivePath(g) {
      OnAncestor(g, w, pubkey);
    } else {
      AllWritesAfter(g, w);
      LastOnFrame(AllWrites(g.nodes), AllWrites(RecordWrite(g, w).0.nodes), ActivePath(g), pubkey);
    }
  }

  /** A write recorded but not applied. */
  lemma RecordedOnly(applied: Recorded, all: Recorded, path: seq<ForkId>, i: nat, w: Write, pubkey: nat)
    requires Grows(path) && i < |path|
    ensures var all' := all[path[i] := WritesOf(all, path[i]) + [w]];
            AgreeOn(applied, all', path, pubkey)
            <==> if pubkey != w.pubkey || LastOn(all, path[i + 1..], pubkey).Some? then AgreeOn(applied, all, path, pubkey)
                 else SameState(LastOn(applied, path, pubkey), Some(w))
  {
    LastOnInserted(all, path, i, w, pubkey);
  }

  /** A write recorded and applied at the end of the path. */
  lemma RecordedAtTip(applied: Recorded, all: Recorded, path: seq<ForkId>, w: Write, pubkey: nat)
    requires Grows(path) && path != []
    ensures var tip := path[|path| - 1];
            AgreeOn(applied[tip := WritesOf(applied, tip) + [w]], all[tip := WritesOf(all, tip) + [w]], path, pubkey)
            <==> pubkey == w.pubkey || AgreeOn(applied, all, path, pubkey)
  {
    var i := |path| - 1;
    assert path[i + 1..] == [];
    LastOnInserted(all, path, i, w, pubkey);
    LastOnInserted(applied, path, i, w, pubkey);
  }

  lemma AppliedAfter(g: Graph, w: Write)
    requires g.applied.Keys == g.nodes.Keys && WriteError(g, w).None?
    ensures RecordWrite(g, w).0.applied
            == if g.active == Some(w.fork) then g.applied[w.fork := WritesOf(g.applied, w.fork) + [w]] else g.applied
  {
  }

  lemma OnTip(g: Graph, w: Write, pubkey: nat)
    requires Inv(g) && WriteError(g, w).None? && g.active == Some(w.fork)
    ensures CurrentOn(RecordWrite(g, w).0, ActivePath(g), pubkey) <==> CurrentAfterWrite(g, w, pubkey)
  {
    PathGrows(g.nodes, g.root, g.active.value);
    TipWrite(g, w, ActivePath(g), pubkey);
    assert w.fork in ActivePath(g);
  }

  lemma OnAncestor(g: Graph, w: Write, pubkey: nat)
    requires Inv(g) && WriteError(g, w).None? && w.fork in ActivePath(g) && g.active != Some(w.fork)
    ensures CurrentOn(RecordWrite(g, w).0, ActivePath(g), pubkey) <==> CurrentAfterWrite(g, w, pubkey)
  {
    PathGrows(g.nodes, g.root, g.active.value);
    AncestorWrite(g, w, ActivePath(g), pubkey);
  }

  lemma TipWrite(g: Graph, w: Write, path: seq<ForkId>, pubkey: nat)
    requires g.applied.Keys == g.nodes.Keys && WriteError(g, w).None? && g.active == Some(w.fork)
    requires Grows(path) && path != [] && path[|path| - 1] == w.fork
    ensures CurrentOn(RecordWrite(g, w).0, path, pubkey) <==> pubkey == w.pubkey || CurrentOn(g, path, pubkey)
  {
    AllWritesAfter(g, w);
    AppliedAfter(g, w);
    RecordedAtTip(g.applied, AllWrites(g.nodes), path, w, pubkey);
  }

  lemma AncestorWrite(g: Graph, w: Write, path: seq<ForkId>, pubkey: nat)
    requires g.applied.Keys == g.nodes.Keys && WriteError(g, w).None? && g.active != Some(w.fork)
    requires Grows(path) && w.fork in path
    ensures CurrentOn(RecordWrite(g, w).0, path, pubkey) <==> AgreesAfterWrite(g, path, w, pubkey)
  {
    AllWritesAfter(g, w);
    AppliedAfter(g, w);
    RecordedOnly(g.applied, AllWrites(g.nodes), path, At(path, w.fork), w, pubkey);
  }

  /** After an accepted write the map replays exactly when every other account is current, and the written one
      is on the tip, or was current and is overwritten above or off the path, or already holds that value. */
  lemma WriteReplaysIff(g: Graph, w: Write)
    requires Inv(g) && WriteError(g, w).None?
    ensures Inv(RecordWrite(g, w).0)
    ensures Replays(RecordWrite(g, w).0) <==> forall pubkey :: CurrentAfterWrite(g, w, pubkey)
  {
    var g' := RecordWrite(g, w).0;
    WriteKeepsInv(g, w);
    ReplaysIff(g');
    forall pubkey
      ensures Current(g', pubkey) <==> CurrentAfterWrite(g, w, pubkey)
    {
      WriteCurrentIff(g, w, pubkey);
    }
  }

  // ---------------------------------------------------------------- switches

  /** What a switch needs, account by account: a fork that comes onto the path records the account, or it is
      current on the forks that stay. */
  ghost predicate CurrentAfterSwitch(g: Graph, target: Option<ForkId>, pubkey: nat)
    requires Inv(g) && ActivateError(g.nodes, target).None?
  {
    var p, q := ActivePath(g), TipPath(g.nodes, g.root, target);
    var k := CommonPrefix(p, q);
    LastOn(AllWrites(g.nodes), q[k..], pubkey).Some? || CurrentOn(g, q[..k], pubkey)
  }

  /** Forks that stay keep what they have applied; forks that come get everything. */
  lemma SwitchedWrites(g: Graph, target: Option<ForkId>, f: ForkId)
    requires Inv(g) && ActivateError(g.nodes, target).None?
    requires f in TipPath(g.nodes, g.root, target)
    ensures var p, q := ActivePath(g), TipPath(g.nodes, g.root, target);
            var g' := Activated(g, target);
            && f in g.nodes
            && (f in q[..CommonPrefix(p, q)] ==> g'.applied[f] == g.applied[f])
            && (f in q[CommonPrefix(p, q)..] ==> g'.applied[f] == g.nodes[f].writes)
  {
    var p, q := ActivePath(g), TipPath(g.nodes, g.root, target);
    var k := CommonPrefix(p, q);
    if f in q[..k] {
      assert q[..k] == p[..k];
      assert f in p;
    }
    if f in q[k..] {
      NewlyActive(g, target, f);
    }
  }

  lemma NewlyActive(g: Graph, target: Option<ForkId>, f: ForkId)
    requires Inv(g) && ActivateError(g.nodes, target).None?
    requires var q := TipPath(g.nodes, g.root, target);
             f in q[CommonPrefix(ActivePath(g), q)..]
    ensures f !in ActivePath(g)
  {
    if g.active.Some? {
      var p, q := ActivePath(g), TipPath(g.nodes, g.root, target);
      var k := CommonPrefix(p, q);
      var i :| 0 <= i < |q[k..]| && q[k..][i] == f;
      SharedForks(g.nodes, g.root, target.value, g.active.value, k + i);
      PrefixSymmetric(p, q);
    }
  }

  lemma SwitchCurrentIff(g: Graph, target: Option<ForkId>, pubkey: nat)
    requires Inv(g) && ActivateError(g.nodes, target).None? && Inv(Activated(g, target))
    ensures Current(Activated(g, target), pubkey) <==> CurrentAfterSwitch(g, target, pubkey)
  {
    var p, q := ActivePath(g), TipPath(g.nodes, g.root, target);
    var k, g', all := CommonPrefix(p, q), Activated(g, target), AllWrites(g.nodes);
    assert AgreeOn(g'.applied, all, q[..k] + q[k..], pubkey)
           <==> LastOn(all, q[k..], pubkey).Some? || AgreeOn(g.applied, all, q[..k], pubkey) by {
      StayAndCome(g, target);
      AgreeAfterSwitch(g'.applied, g.applied, all, q[..k], q[k..], pubkey);
    }
    Rejoin(q, k);
    ActivatedKeepsInv(g, target);
  }

  lemma Rejoin(q: seq<ForkId>, k: nat)
    requires k <= |q|
    ensures q[..k] + q[k..] == q
  {
  }

  lemma AgreeAfterSwitch(applied': Recorded, applied: Recorded, all: Recorded, stay: seq<ForkId>, come: seq<ForkId>, pubkey: nat)
    requires forall f | f in stay :: WritesOf(applied', f) == WritesOf(applied, f)
    requires forall f | f in come :: WritesOf(applied', f) == WritesOf(all, f)
    ensures AgreeOn(applied', all, stay + come, pubkey)
            <==> LastOn(all, come, pubkey).Some? || AgreeOn(applied, all, stay, pubkey)
  {
    LastOnFrame(applied', applied, stay, pubkey);
    LastOnFrame(applied', all, come, pubkey);
    LastOnConcat(applied', stay, come, pubkey);
    LastOnConcat(all, stay, come, pubkey);
  }

  lemma StayAndCome(g: Graph, target: Option<ForkId>)
    requires Inv(g) && ActivateError(g.nodes, target).None?
    ensures var p, q := ActivePath(g), TipPath(g.nodes, g.root, target);
            var k, g' := CommonPrefix(p, q), Activated(g, target);
            && (forall f | f in q[..k] :: WritesOf(g'.applied, f) == WritesOf(g.applied, f))
            && (forall f | f in q[k..] :: WritesOf(g'.applied, f) == WritesOf(AllWrites(g.nodes), f))
  {
    var p, q := ActivePath(g), TipPath(g.nodes, g.root, target);
    var k := CommonPrefix(p, q);
    forall f | f in q[..k]
      ensures WritesOf(Activated(g, target).applied, f) == WritesOf(g.applied, f)
    {
      assert f in q;
      SwitchedWrites(g, target, f);
    }
    forall f | f in q[k..]
      ensures WritesOf(Activated(g, target).applied, f) == WritesOf(AllWrites(g.nodes), f)
    {
      assert f in q;
      SwitchedWrites(g, target, f);
    }
  }

  /** After a switch the map replays exactly when every account is recorded on the forks that come, or is current
      on the forks that stay. */
  lemma SwitchReplaysIff(g: Graph, target: Option<ForkId>)
    requires Inv(g) && ActivateError(g.nodes, target).None?
    ensures Inv(Activated(g, target))
    ensures Replays(Activated(g, target)) <==> forall pubkey :: CurrentAfterSwitch(g, target, pubkey)
  {
    ActivatedKeepsInv(g, target);
    ReplaysIff(Activated(g, target));
    forall pubkey
      ensures Current(Activated(g, target), pubkey) <==> CurrentAfterSwitch(g, target, pubkey)
    {
      SwitchCurrentIff(g, target, pubkey);
    }
  }

  // ---------------------------------------------------------------- deaths and everything else

  /** Paths and writes decide whether the map replays; commitments and revisions do not matter. */
  lemma SameWritesSameReplay(g: Graph, g': Graph)
    requires Inv(g) && Inv(g') && ActivePath(g') == ActivePath(g)
    requires forall f | f in ActivePath(g) ::
               WritesOf(g'.applied, f) == WritesOf(g.applied, f) && WritesOf(AllWrites(g'.nodes), f) == WritesOf(AllWrites(g.nodes), f)
    ensures Replays(g') <==> Replays(g)
  {
    ProjectedFrame(g.applied, g'.applied, ActivePath(g));
    ProjectedFrame(AllWrites(g.nodes), AllWrites(g'.nodes), ActivePath(g));
  }

  /** After a death the map replays exactly when it did before, or, when the projection had to move, when every
      account is current on the path to the parent of the dead fork. */
  lemma DeathReplaysIff(g: Graph, f: ForkId)
    requires Inv(g) && DeathError(g, f).None? && g.nodes[f].commitment != Dead
    ensures Inv(MarkDead(g, f).0)
    ensures ActivateError(g.nodes, g.nodes[f].parent).None?
    ensures Replays(MarkDead(g, f).0) <==>
              if g.active.Some? && g.active.value in Subtree(g, f) then
                forall pubkey :: CurrentAfterSwitch(g, g.nodes[f].parent, pubkey)
              else Replays(g)
  {
    ParentIsLive(g, f);
    VacatedAvoids(g, f);
    DeathKeepsInv(g, f);
    SameWritesSameReplay(Vacated(g, f), MarkDead(g, f).0);
    if g.active.Some? && g.active.value in Subtree(g, f) {
      SwitchReplaysIff(g, g.nodes[f].parent);
    }
  }

  /** What an event needs for the map to replay after it, said of the state before it. */
  ghost predicate ReplaysAfter(g: Graph, e: Event)
    requires Inv(g)
  {
    match e
    case Slot(_, _) => Replays(g)
    case Put(w) => if WriteError(g, w).None? then forall pubkey :: CurrentAfterWrite(g, w, pubkey) else Replays(g)
    case Switch(f) =>
      if ActivateError(g.nodes, Some(f)).None? then forall pubkey :: CurrentAfterSwitch(g, Some(f), pubkey) else Replays(g)
    case Commit(f, c) =>
      if c == Dead && DeathError(g, f).None? && g.nodes[f].commitment != Dead && ActivateError(g.nodes, g.nodes[f].parent).None?
         && g.active.Some? && g.active.value in Subtree(g, f) then
        forall pubkey :: CurrentAfterSwitch(g, g.nodes[f].parent, pubkey)
      else Replays(g)
  }

  /** The exact condition for every event. */
  lemma StepReplaysIff(g: Graph, e: Event)
    requires Inv(g)
    ensures Inv(Step(g, e))
    ensures Replays(Step(g, e)) <==> ReplaysAfter(g, e)
  {
    StepKeepsInv(g, e);
    match e {
      case Slot(f, parent) =>
        SlotKeepsInv(g, f, parent);
        SameWritesSameReplay(g, Step(g, e));
      case Put(w) => if WriteError(g, w).None? { WriteReplaysIff(g, w); }
      case Switch(f) => if ActivateError(g.nodes, Some(f)).None? { SwitchReplaysIff(g, Some(f)); }
      case Commit(f, c) => CommitReplaysIff(g, f, c);
    }
  }

  lemma CommitReplaysIff(g: Graph, f: ForkId, c: Commitment)
    requires Inv(g) && Inv(ObserveCommitment(g, f, c).0)
    ensures Replays(ObserveCommitment(g, f, c).0) <==> ReplaysAfter(g, Commit(f, c))
  {
    if c != Dead {
      CommitKeepsInv(g, f, c);
      SameWritesSameReplay(g, ObserveCommitment(g, f, c).0);
    } else if DeathError(g, f).None? && g.nodes[f].commitment != Dead {
      DeathReplaysIff(g, f);
    }
  }

  /** Over every run: the map replays after an event exactly when the state before met the condition of that
      event. */
  lemma RunReplaysIff(events: seq<Event>)
    requires events != []
    ensures Replays(Run(events)) <==> ReplaysAfter(Run(events[..|events| - 1]), events[|events| - 1])
  {
    var g, e := Run(events[..|events| - 1]), events[|events| - 1];
    StepReplaysIff(g, e);
  }

  /** The loss is real: a root, its child made active, and then a write to the root. */
  lemma AncestorWriteIsLost(r: ForkId, c: ForkId, w: Write)
    requires r.slot < c.slot && w.fork == r
    ensures var g := Run([Slot(r, None), Slot(c, Some(r)), Switch(c), Put(w)]);
            AccountsOf(g) == map[] && !Replays(g)
  {
    var three := [Slot(r, None), Slot(c, Some(r)), Switch(c)];
    ThreeEvents(r, c);
    LostFrom(Run(three), r, c, w);
    RunSnoc(three, Put(w));
    assert three + [Put(w)] == [Slot(r, None), Slot(c, Some(r)), Switch(c), Put(w)];
  }

  lemma ThreeEvents(r: ForkId, c: ForkId)
    requires r.slot < c.slot
    ensures var g := Run([Slot(r, None), Slot(c, Some(r)), Switch(c)]);
            && g.nodes == Pair(r, c) && g.active == Some(c)
            && ActivePath(g) == [r, c] && g.applied == map[r := [], c := []]
  {
    var two := [Slot(r, None), Slot(c, Some(r))];
    TwoForks(r, c);
    ChildActive(Run(two), r, c);
    RunSnoc(two, Switch(c));
    assert two + [Switch(c)] == [Slot(r, None), Slot(c, Some(r)), Switch(c)];
  }

  lemma RunSnoc(events: seq<Event>, e: Event)
    ensures Run(events + [e]) == Step(Run(events), e)
  {
    assert (events + [e])[..|events + [e]| - 1] == events;
  }

  function Pair(r: ForkId, c: ForkId): Nodes {
    map[r := Fork(None, Received, [], None), c := Fork(Some(r), Received, [], None)]
  }

  lemma TwoForks(r: ForkId, c: ForkId)
    requires r.slot < c.slot
    ensures var g := Run([Slot(r, None), Slot(c, Some(r))]);
            g.nodes == Pair(r, c) && g.root == Some(r) && g.active == None
  {
    RunSnoc([], Slot(r, None));
    assert [] + [Slot(r, None)] == [Slot(r, None)];
    assert Run([Slot(r, None)]) == Graph(map[r := Fork(None, Received, [], None)], Some(r), None, map[r := []], 0);
    RunSnoc([Slot(r, None)], Slot(c, Some(r)));
    assert [Slot(r, None)] + [Slot(c, Some(r))] == [Slot(r, None), Slot(c, Some(r))];
  }

  lemma ChildActive(g: Graph, r: ForkId, c: ForkId)
    requires Inv(g) && r.slot < c.slot && g.nodes == Pair(r, c) && g.root == Some(r) && g.active == None
    ensures var g' := Activate(g, c).0;
            && Inv(g') && g'.nodes == g.nodes && g'.active == Some(c)
            && ActivePath(g') == [r, c] && g'.applied == map[r := [], c := []]
  {
    ActivatedKeepsInv(g, Some(c));
    assert Path(g.nodes, g.root, r) == [r];
    assert Path(g.nodes, g.root, c) == [r, c];
  }

  lemma LostFrom(g: Graph, r: ForkId, c: ForkId, w: Write)
    requires Inv(g) && r.slot < c.slot && w.fork == r && g.nodes == Pair(r, c) && g.active == Some(c)
    requires ActivePath(g) == [r, c] && g.applied == map[r := [], c := []]
    ensures var g' := RecordWrite(g, w).0;
            Inv(g') && AccountsOf(g') == map[] && !Replays(g')
  {
    var g' := RecordWrite(g, w).0;
    WriteKeepsInv(g, w);
    LastOnPair(g'.applied, r, c, w.pubkey);
    LastOnPair(AllWrites(g'.nodes), r, c, w.pubkey);
    assert [w][..0] == [] && [] + [w] == [w];
    assert !Current(g', w.pubkey);
    ReplaysIff(g');
    assert [r, c][..1] == [r] && [r][..0] == [];
    assert Projected(g.applied, [r]) == map[];
  }

  lemma LastOnPair(ws: Recorded, r: ForkId, c: ForkId, pubkey: nat)
    ensures LastOn(ws, [r, c], pubkey)
            == if LastIn(WritesOf(ws, c), pubkey).Some? then LastIn(WritesOf(ws, c), pubkey) else LastIn(WritesOf(ws, r), pubkey)
    ensures LastOn(ws, [r], pubkey) == LastIn(WritesOf(ws, r), pubkey)
  {
    assert [r, c][..1] == [r] && [r][..0] == [];
    assert LastOn(ws, [r][..0], pubkey) == None;
    assert LastOn(ws, [r], pubkey) == LastIn(WritesOf(ws, r), pubkey);
    assert LastOn(ws, [r, c][..1], pubkey) == LastOn(ws, [r], pubkey);
  }

  /** A write that a later fork hides comes to light when the projection moves back: the child writes an account,
      then the root does, and the map still replays; after a switch to the root it does not. */
  lemma HiddenWriteSurfaces(r: ForkId, c: ForkId, wc: Write, wr: Write)
    requires r.slot < c.slot && wc.fork == c && wr.fork == r && wc.pubkey == wr.pubkey
    ensures var events := [Slot(r, None), Slot(c, Some(r)), Switch(c), Put(wc), Put(wr)];
            Replays(Run(events)) && !Replays(Run(events + [Switch(r)]))
  {
    var events := [Slot(r, None), Slot(c, Some(r)), Switch(c), Put(wc), Put(wr)];
    FiveEvents(r, c, wc, wr);
    RunSnoc(events, Switch(r));
    HiddenThenSeen(Run(events), r, c, wc, wr);
  }

  lemma FiveEvents(r: ForkId, c: ForkId, wc: Write, wr: Write)
    requires r.slot < c.slot && wc.fork == c && wr.fork == r
    ensures var g := Run([Slot(r, None), Slot(c, Some(r)), Switch(c), Put(wc), Put(wr)]);
            && ActivePath(g) == [r, c] && g.active == Some(c)
            && g.applied == map[r := [], c := [wc]] && AllWrites(g.nodes) == map[r := [wr], c := [wc]]
            && r in g.nodes && g.nodes[r].commitment == Received
  {
    var three := [Slot(r, None), Slot(c, Some(r)), Switch(c)];
    ThreeEvents(r, c);
    BothWritten(Run(three), r, c, wc, wr);
    TwoMore(three, wc, wr);
    assert three + [Put(wc)] + [Put(wr)] == [Slot(r, None), Slot(c, Some(r)), Switch(c), Put(wc), Put(wr)];
  }

  lemma TwoMore(events: seq<Event>, w: Write, w': Write)
    ensures Run(events + [Put(w)] + [Put(w')]) == RecordWrite(RecordWrite(Run(events), w).0, w').0
  {
    RunSnoc(events, Put(w));
    RunSnoc(events + [Put(w)], Put(w'));
  }

  lemma BothWritten(g: Graph, r: ForkId, c: ForkId, wc: Write, wr: Write)
    requires Inv(g) && r != c && wc.fork == c && wr.fork == r && g.nodes == Pair(r, c) && g.active == Some(c)
    requires ActivePath(g) == [r, c] && g.applied == map[r := [], c := []]
    ensures var g' := RecordWrite(RecordWrite(g, wc).0, wr).0;
            && Inv(g') && ActivePath(g') == [r, c] && g'.active == Some(c)
            && g'.applied == map[r := [], c := [wc]] && AllWrites(g'.nodes) == map[r := [wr], c := [wc]]
            && g'.nodes[r].commitment == Received
  {
    ChildWritten(g, r, c, wc);
    var g1 := RecordWrite(g, wc).0;
    assert [] + [wr] == [wr];
    WriteKeepsInv(g1, wr);
    AllWritesAfter(g1, wr);
    AppliedAfter(g1, wr);
  }

  lemma ChildWritten(g: Graph, r: ForkId, c: ForkId, wc: Write)
    requires Inv(g) && r != c && wc.fork == c && g.nodes == Pair(r, c) && g.active == Some(c)
    requires ActivePath(g) == [r, c] && g.applied == map[r := [], c := []]
    ensures var g' := RecordWrite(g, wc).0;
            && Inv(g') && ActivePath(g') == [r, c] && g'.active == Some(c)
            && g'.applied == map[r := [], c := [wc]] && AllWrites(g'.nodes) == map[r := [], c := [wc]]
            && r in g'.nodes && g'.nodes[r] == Fork(None, Received, [], None)
  {
    assert [] + [wc] == [wc];
    assert WriteError(g, wc).None?;
    assert RecordWrite(g, wc).0 == g.(nodes := g.nodes[c := Fork(Some(r), Received, [wc], Some(wc.version))],
                                      applied := g.applied[c := [wc]]);
    WriteKeepsInv(g, wc);
  }

  lemma HiddenThenSeen(g: Graph, r: ForkId, c: ForkId, wc: Write, wr: Write)
    requires Inv(g) && r != c && wc.pubkey == wr.pubkey && ActivePath(g) == [r, c] && g.active == Some(c)
    requires g.applied == map[r := [], c := [wc]] && AllWrites(g.nodes) == map[r := [wr], c := [wc]]
    requires g.nodes[r].commitment == Received
    ensures Replays(g) && Inv(Activate(g, r).0) && !Replays(Activate(g, r).0)
  {
    var all := AllWrites(g.nodes);
    assert [wc][..0] == [] && [wr][..0] == [];
    forall pubkey
      ensures Current(g, pubkey)
    {
      LastOnPair(g.applied, r, c, pubkey);
      LastOnPair(all, r, c, pubkey);
    }
    ReplaysIff(g);
    ActivatedKeepsInv(g, Some(r));
    RootPath(g, r, c);
    assert CommonPrefix([r, c], [r]) == 1;
    assert [r][..1] == [r] && [r][1..] == [];
    LastOnPair(g.applied, r, c, wr.pubkey);
    LastOnPair(all, r, c, wr.pubkey);
    assert !CurrentAfterSwitch(g, Some(r), wr.pubkey);
    SwitchReplaysIff(g, Some(r));
  }

  lemma RootPath(g: Graph, r: ForkId, c: ForkId)
    requires Inv(g) && ActivePath(g) == [r, c] && g.active == Some(c)
    ensures r in g.nodes && TipPath(g.nodes, g.root, Some(r)) == [r]
  {
    assert r in [r, c];
    PathPrefix(g.nodes, g.root, c, 0);
    assert [r, c][..1] == [r];
  }
}
