/** The Solana fork graph as the service holds it: one account map, changed in place, with an undo log
    per fork on the active path. */
module SolanaCanonicality {
  import opened Prelude
  import opened SolanaSpec
  import opened SolanaRuns

  datatype Undo = Undo(pubkey: nat, previous: Option<Account>)

  // ---------------------------------------------------------------- undo logs

  function Lookup(accounts: Accounts, pubkey: nat): Option<Account> {
    if pubkey in accounts then Some(accounts[pubkey]) else None
  }

  /** The undo log of applying writes to a map. */
  function Journal(accounts: Accounts, ws: seq<Write>): seq<Undo> {
    if ws == [] then []
    else
      var front, w := ws[..|ws| - 1], ws[|ws| - 1];
      Journal(accounts, front) + [Undo(w.pubkey, Lookup(ApplyWrites(accounts, front), w.pubkey))]
  }

  function UndoOne(accounts: Accounts, u: Undo): Accounts {
    match u.previous
    case Some(a) => accounts[u.pubkey := a]
    case None => accounts - {u.pubkey}
  }

  /** Running an undo log from its end. */
  function Unwind(accounts: Accounts, log: seq<Undo>): Accounts
    decreases |log|
  {
    if log == [] then accounts
    else Unwind(UndoOne(accounts, log[|log| - 1]), log[..|log| - 1])
  }

  /** An undo log is the exact inverse of the writes it was made for. */
  lemma {:induction false} UnwindUndoesWrites(accounts: Accounts, ws: seq<Write>)
    ensures Unwind(ApplyWrites(accounts, ws), Journal(accounts, ws)) == accounts
    decreases |ws|
  {
    if ws != [] {
      var front, w := ws[..|ws| - 1], ws[|ws| - 1];
      var m := ApplyWrites(accounts, front);
      assert UndoOne(m[w.pubkey := StateOf(w)], Undo(w.pubkey, Lookup(m, w.pubkey))) == m;
      UnwindUndoesWrites(accounts, front);
    }
  }

  // ---------------------------------------------------------------- the representation

  type UndoLogs = map<ForkId, seq<Undo>>
  type Applied = map<ForkId, seq<Write>>

  function UndoOf(undo: UndoLogs, f: ForkId): seq<Undo> {
    if f in undo then undo[f] else []
  }

  ghost predicate LogAt(path: seq<ForkId>, undo: UndoLogs, applied: Applied, k: nat)
    requires k < |path|
  {
    UndoOf(undo, path[k]) == Journal(Projected(applied, path[..k]), WritesOf(applied, path[k]))
  }

  /** A fork off the path has nothing applied and nothing to undo. */
  ghost predicate Idle(path: seq<ForkId>, undo: UndoLogs, applied: Applied, f: ForkId) {
    f !in path ==> UndoOf(undo, f) == [] && WritesOf(applied, f) == []
  }

  /** The account map is the fold of the applied writes along `path`, each fork on it has exactly the
      undo log of its own applied writes, and all other undo logs are empty. */
  ghost predicate Represents(path: seq<ForkId>, accounts: Accounts, undo: UndoLogs, applied: Applied) {
    && accounts == Projected(applied, path)
    && (forall f {:trigger Idle(path, undo, applied, f)} :: Idle(path, undo, applied, f))
    && (forall k {:trigger LogAt(path, undo, applied, k)} | 0 <= k < |path| :: LogAt(path, undo, applied, k))
  }

  /** Changing a fork that is not on a path changes nothing along it. */
  lemma LogFrame(path: seq<ForkId>, f: ForkId, log: seq<Undo>, ws: seq<Write>, undo: UndoLogs, applied: Applied, k: nat)
    requires f !in path && k < |path| && LogAt(path, undo, applied, k)
    ensures LogAt(path, undo[f := log], applied[f := ws], k)
  {
    ProjectedFrame(applied, applied[f := ws], path[..k]);
  }

  lemma PrefixLog(path: seq<ForkId>, f: ForkId, undo: UndoLogs, applied: Applied, k: nat)
    requires k < |path|
    ensures LogAt(path + [f], undo, applied, k) <==> LogAt(path, undo, applied, k)
  {
    assert (path + [f])[..k] == path[..k];
  }

  /** The logs below the top fork do not depend on what the top fork has applied. */
  lemma LogsBelow(path: seq<ForkId>, f: ForkId, log: seq<Undo>, ws: seq<Write>, undo: UndoLogs, applied: Applied, k: nat)
    requires f !in path && k < |path| && LogAt(path + [f], undo, applied, k)
    ensures LogAt(path + [f], undo[f := log], applied[f := ws], k) && LogAt(path, undo[f := log], applied[f := ws], k)
  {
    PrefixLog(path, f, undo, applied, k);
    LogFrame(path, f, log, ws, undo, applied, k);
    PrefixLog(path, f, undo[f := log], applied[f := ws], k);
  }

  /** Undoing the top fork of the path leaves the representation of the path below it. */
  lemma RevertTop(path: seq<ForkId>, f: ForkId, accounts: Accounts, undo: UndoLogs, applied: Applied)
    requires f !in path && Represents(path + [f], accounts, undo, applied)
    ensures Represents(path, Unwind(accounts, UndoOf(undo, f)), undo[f := []], applied[f := []])
  {
    var full, undo', applied' := path + [f], undo[f := []], applied[f := []];
    assert full[..|path|] == path && full[|path|] == f;
    assert LogAt(full, undo, applied, |path|);
    UnwindUndoesWrites(Projected(applied, path), WritesOf(applied, f));
    ProjectedFrame(applied, applied', path);
    forall k | 0 <= k < |path|
      ensures LogAt(path, undo', applied', k)
    {
      assert LogAt(full, undo, applied, k);
      LogsBelow(path, f, [], [], undo, applied, k);
    }
    forall x
      ensures Idle(path, undo', applied', x)
    {
      assert Idle(full, undo, applied, x);
    }
  }

  /** The top fork of the path gets other writes and their undo log. */
  lemma ReplaceTop(path: seq<ForkId>, f: ForkId, ws: seq<Write>, undo: UndoLogs, applied: Applied, base: Accounts)
    requires f !in path && base == Projected(applied, path)
    requires forall x {:trigger Idle(path + [f], undo, applied, x)} :: Idle(path + [f], undo, applied, x)
    requires forall k {:trigger LogAt(path, undo, applied, k)} | 0 <= k < |path| :: LogAt(path, undo, applied, k)
    ensures Represents(path + [f], ApplyWrites(base, ws), undo[f := Journal(base, ws)], applied[f := ws])
  {
    var full, undo', applied' := path + [f], undo[f := Journal(base, ws)], applied[f := ws];
    assert full[..|path|] == path && full[|path|] == f;
    ProjectedFrame(applied, applied', path);
    forall k | 0 <= k < |full|
      ensures LogAt(full, undo', applied', k)
    {
      if k < |path| {
        assert LogAt(path, undo, applied, k);
        PrefixLog(path, f, undo, applied, k);
        LogsBelow(path, f, Journal(base, ws), ws, undo, applied, k);
      }
    }
    forall x
      ensures Idle(full, undo', applied', x)
    {
      assert Idle(full, undo, applied, x);
    }
  }

  /** Applying writes for a fork that comes onto the path. */
  lemma ApplyTop(path: seq<ForkId>, f: ForkId, ws: seq<Write>, accounts: Accounts, undo: UndoLogs, applied: Applied)
    requires f !in path && Represents(path, accounts, undo, applied)
    ensures Represents(path + [f], ApplyWrites(accounts, ws), undo[f := Journal(accounts, ws)], applied[f := ws])
  {
    forall x
      ensures Idle(path + [f], undo, applied, x)
    {
      assert Idle(path, undo, applied, x);
    }
    ReplaceTop(path, f, ws, undo, applied, accounts);
  }

  /** One more write on the top fork. */
  lemma WriteTop(path: seq<ForkId>, f: ForkId, w: Write, accounts: Accounts, undo: UndoLogs, applied: Applied)
    requires f !in path && Represents(path + [f], accounts, undo, applied)
    ensures Represents(path + [f], accounts[w.pubkey := StateOf(w)],
                       undo[f := UndoOf(undo, f) + [Undo(w.pubkey, Lookup(accounts, w.pubkey))]],
                       applied[f := WritesOf(applied, f) + [w]])
  {
    var full, ws := path + [f], WritesOf(applied, f);
    assert full[..|path|] == path && full[|path|] == f;
    assert LogAt(full, undo, applied, |path|);
    assert (ws + [w])[..|ws|] == ws;
    forall k | 0 <= k < |path|
      ensures LogAt(path, undo, applied, k)
    {
      assert LogAt(full, undo, applied, k);
      PrefixLog(path, f, undo, applied, k);
    }
    ReplaceTop(path, f, ws + [w], undo, applied, Projected(applied, path));
  }

  lemma NewLeaf(path: seq<ForkId>, f: ForkId, accounts: Accounts, undo: UndoLogs, applied: Applied)
    requires f !in undo && f !in applied && Represents(path, accounts, undo, applied)
    ensures Represents(path, accounts, undo[f := []], applied[f := []])
  {
    var undo', applied' := undo[f := []], applied[f := []];
    ProjectedFrame(applied, applied', path);
    forall k | 0 <= k < |path|
      ensures LogAt(path, undo', applied', k)
    {
      assert LogAt(path, undo, applied, k);
      ProjectedFrame(applied, applied', path[..k]);
    }
    forall x
      ensures Idle(path, undo', applied', x)
    {
      assert Idle(path, undo, applied, x);
    }
  }

  // ---------------------------------------------------------------- paths as they are walked

  ghost predicate Mirrored(up: seq<ForkId>, p: seq<ForkId>, i: nat)
    requires i < |up| == |p|
  {
    up[i] == p[|p| - 1 - i]
  }

  /** A path read from its tip to the root. */
  ghost predicate Reversed(up: seq<ForkId>, p: seq<ForkId>) {
    |up| == |p| && forall i {:trigger Mirrored(up, p, i)} | 0 <= i < |up| :: Mirrored(up, p, i)
  }

  lemma PathLink(nodes: Nodes, root: Option<ForkId>, f: ForkId, i: nat)
    requires Tree(nodes, root) && f in nodes && i < |Path(nodes, root, f)|
    ensures var p := Path(nodes, root, f);
            p[i] in nodes && nodes[p[i]].parent == if i == 0 then None else Some(p[i - 1])
  {
    var p := Path(nodes, root, f);
    assert p[i] in p;
    PathPrefix(nodes, root, f, i);
    assert NodeOk(nodes, root, p[i]);
    if i != 0 {
      assert p[..i + 1][i - 1] == p[i - 1];
    }
  }

  /** What a fork has applied after the forks `gone` were reverted and the forks `come` were applied. */
  ghost predicate SwitchedAt(nodes: Nodes, start: Applied, applied: Applied, gone: seq<ForkId>, come: seq<ForkId>, f: ForkId) {
    WritesOf(applied, f)
    == if f in come && f in nodes then nodes[f].writes else if f in gone then [] else WritesOf(start, f)
  }

  ghost predicate Switched(nodes: Nodes, start: Applied, applied: Applied, gone: seq<ForkId>, come: seq<ForkId>) {
    forall f {:trigger SwitchedAt(nodes, start, applied, gone, come, f)} ::
      SwitchedAt(nodes, start, applied, gone, come, f)
  }

  /** Reverting down to the common ancestor and applying up to the target is the declarative switch. */
  lemma SwitchedIsActivated(g: Graph, target: Option<ForkId>, applied: Applied)
    requires Inv(g) && ActivateError(g.nodes, target).None? && applied.Keys == g.nodes.Keys
    requires var p, q := ActivePath(g), TipPath(g.nodes, g.root, target);
             var k := CommonPrefix(p, q);
             Switched(g.nodes, g.applied, applied, p[k..], q[k..])
    ensures Activated(g, target).applied == applied
  {
    var p, q := ActivePath(g), TipPath(g.nodes, g.root, target);
    var k := CommonPrefix(p, q);
    forall f | f in g.nodes
      ensures Activated(g, target).applied[f] == applied[f]
    {
      assert SwitchedAt(g.nodes, g.applied, applied, p[k..], q[k..], f);
      SwitchedForkIsActivated(g, target, applied, f);
    }
  }

  lemma SwitchedForkIsActivated(g: Graph, target: Option<ForkId>, applied: Applied, f: ForkId)
    requires Inv(g) && ActivateError(g.nodes, target).None? && applied.Keys == g.nodes.Keys && f in g.nodes
    requires var p, q := ActivePath(g), TipPath(g.nodes, g.root, target);
             var k := CommonPrefix(p, q);
             SwitchedAt(g.nodes, g.applied, applied, p[k..], q[k..], f)
    ensures Activated(g, target).applied[f] == applied[f]
  {
    var p, q := ActivePath(g), TipPath(g.nodes, g.root, target);
    var k := CommonPrefix(p, q);
    WhereIs(g, target, f);
    ActivatedAt(g, target, applied, p[k..], q[k..], f);
  }

  lemma ActivatedAt(g: Graph, target: Option<ForkId>, applied: Applied, gone: seq<ForkId>, come: seq<ForkId>, f: ForkId)
    requires Inv(g) && ActivateError(g.nodes, target).None? && applied.Keys == g.nodes.Keys && f in g.nodes
    requires SwitchedAt(g.nodes, g.applied, applied, gone, come, f)
    requires var p, q := ActivePath(g), TipPath(g.nodes, g.root, target);
             (f in gone <==> f in p && f !in q) && (f in come <==> f in q && f !in p)
    ensures Activated(g, target).applied[f] == applied[f]
  {
  }

  lemma WhereIs(g: Graph, target: Option<ForkId>, f: ForkId)
    requires Inv(g) && ActivateError(g.nodes, target).None? && f in g.nodes
    ensures var p, q := ActivePath(g), TipPath(g.nodes, g.root, target);
            var k := CommonPrefix(p, q);
            && (f in p[k..] <==> f in p && f !in q)
            && (f in q[k..] <==> f in q && f !in p)
  {
    var p, q := ActivePath(g), TipPath(g.nodes, g.root, target);
    if g.active.Some? && target.Some? {
      Split(g.nodes, g.root, g.active.value, target.value, f);
      Split(g.nodes, g.root, target.value, g.active.value, f);
      PrefixSymmetric(p, q);
    }
  }

  /** The part of one path above the common prefix is what the other path does not contain. */
  lemma Split(nodes: Nodes, root: Option<ForkId>, a: ForkId, b: ForkId, f: ForkId)
    requires Tree(nodes, root) && a in nodes && b in nodes
    ensures var p, q := Path(nodes, root, a), Path(nodes, root, b);
            f in p[CommonPrefix(p, q)..] <==> f in p && f !in q
  {
    var p, q := Path(nodes, root, a), Path(nodes, root, b);
    var k := CommonPrefix(p, q);
    if f in p[k..] {
      var i :| 0 <= i < |p[k..]| && p[k..][i] == f;
      SharedForks(nodes, root, a, b, k + i);
    }
    if f in p && f !in q {
      var i :| 0 <= i < |p| && p[i] == f;
      SharedForks(nodes, root, a, b, i);
      InSuffix(p, k, i);
    }
  }

  lemma InSuffix(p: seq<ForkId>, k: nat, i: nat)
    requires k <= i < |p|
    ensures p[i] in p[k..]
  {
    assert p[k..][i - k] == p[i];
  }

  lemma ReversedHas(up: seq<ForkId>, p: seq<ForkId>, x: ForkId)
    requires Reversed(up, p)
    ensures x in up <==> x in p
  {
    if x in p {
      var i :| 0 <= i < |p| && p[i] == x;
      assert Mirrored(up, p, |p| - 1 - i);
    }
    if x in up {
      var i :| 0 <= i < |up| && up[i] == x;
      assert Mirrored(up, p, i);
    }
  }

  /** Where the old and the new path part: the last fork they share. */
  ghost predicate PartsAt(p: seq<ForkId>, q: seq<ForkId>, k: nat, common: Option<ForkId>) {
    && k <= |p| && k <= |q| && p[..k] == q[..k]
    && (forall i | 0 <= i < |p| :: p[i] in q <==> i < k)
    && common == if k == 0 then None else Some(p[k - 1])
  }

  lemma PartsOnBoth(p: seq<ForkId>, q: seq<ForkId>, k: nat, common: Option<ForkId>)
    requires PartsAt(p, q, k, common)
    ensures common == if k == 0 then None else Some(q[k - 1])
  {
    assert k > 0 ==> p[..k][k - 1] == q[..k][k - 1];
  }

  lemma PathsPart(g: Graph, target: Option<ForkId>, common: Option<ForkId>)
    requires Inv(g) && ActivateError(g.nodes, target).None?
    requires var p, q := ActivePath(g), TipPath(g.nodes, g.root, target);
             var k := CommonPrefix(p, q);
             common == if k == 0 then None else Some(p[k - 1])
    ensures var p, q := ActivePath(g), TipPath(g.nodes, g.root, target);
            Grows(p) && Grows(q) && PartsAt(p, q, CommonPrefix(p, q), common)
  {
    var p, q := ActivePath(g), TipPath(g.nodes, g.root, target);
    if g.active.Some? {
      PathGrows(g.nodes, g.root, g.active.value);
    }
    if target.Some? {
      PathGrows(g.nodes, g.root, target.value);
    }
    forall i | 0 <= i < |p|
      ensures p[i] in q <==> i < CommonPrefix(p, q)
    {
      if target.Some? {
        SharedForks(g.nodes, g.root, g.active.value, target.value, i);
      }
    }
  }

  /** Nothing moves when the projection is already where it should be. */
  lemma ActivatedSame(g: Graph)
    requires Inv(g) && ActivateError(g.nodes, g.active).None?
    ensures Activated(g, g.active) == g
  {
    assert Activated(g, g.active).applied == g.applied;
  }

  lemma SwitchedTwice(nodes: Nodes, start: Applied, middle: Applied, applied: Applied, gone: seq<ForkId>, come: seq<ForkId>)
    requires Switched(nodes, start, middle, gone, []) && Switched(nodes, middle, applied, [], come)
    ensures Switched(nodes, start, applied, gone, come)
  {
    forall f
      ensures SwitchedAt(nodes, start, applied, gone, come, f)
    {
      assert SwitchedAt(nodes, start, middle, gone, [], f) && SwitchedAt(nodes, middle, applied, [], come, f);
    }
  }

  lemma SwitchedNothing(nodes: Nodes, applied: Applied)
    ensures Switched(nodes, applied, applied, [], [])
  {
  }

  lemma SwitchedOneOut(nodes: Nodes, start: Applied, applied: Applied, f: ForkId, gone: seq<ForkId>)
    requires Switched(nodes, start, applied, gone, [])
    ensures Switched(nodes, start, applied[f := []], [f] + gone, [])
  {
    var applied', gone' := applied[f := []], [f] + gone;
    forall x
      ensures SwitchedAt(nodes, start, applied', gone', [], x)
    {
      assert SwitchedAt(nodes, start, applied, gone, [], x);
    }
  }

  lemma SwitchedOneIn(nodes: Nodes, start: Applied, applied: Applied, come: seq<ForkId>, f: ForkId)
    requires Switched(nodes, start, applied, [], come) && f in nodes
    ensures Switched(nodes, start, applied[f := nodes[f].writes], [], come + [f])
  {
    var applied', come' := applied[f := nodes[f].writes], come + [f];
    forall x
      ensures SwitchedAt(nodes, start, applied', [], come', x)
    {
      assert SwitchedAt(nodes, start, applied, [], come, x);
    }
  }

  /** The state while a path is being reverted: `m` of its forks are left. */
  ghost predicate RevertedTo(nodes: Nodes, start: Applied, p: seq<ForkId>, m: nat,
                             accounts: Accounts, undo: UndoLogs, applied: Applied)
    requires m <= |p|
  {
    Represents(p[..m], accounts, undo, applied) && Switched(nodes, start, applied, p[m..], [])
  }

  lemma RevertNone(nodes: Nodes, p: seq<ForkId>, accounts: Accounts, undo: UndoLogs, applied: Applied)
    requires Represents(p, accounts, undo, applied)
    ensures RevertedTo(nodes, applied, p, |p|, accounts, undo, applied)
  {
    assert p[..|p|] == p && p[|p|..] == [];
    SwitchedNothing(nodes, applied);
  }

  lemma RevertNext(nodes: Nodes, start: Applied, p: seq<ForkId>, n: nat, accounts: Accounts, undo: UndoLogs, applied: Applied)
    requires Grows(p) && n < |p| && RevertedTo(nodes, start, p, n + 1, accounts, undo, applied)
    ensures RevertedTo(nodes, start, p, n, Unwind(accounts, UndoOf(undo, p[n])), undo[p[n] := []], applied[p[n] := []])
  {
    assert p[..n + 1] == p[..n] + [p[n]] && p[n..] == [p[n]] + p[n + 1..];
    GrowsIsDistinct(p, n);
    RevertTop(p[..n], p[n], accounts, undo, applied);
    SwitchedOneOut(nodes, start, applied, p[n], p[n + 1..]);
  }

  /** The state while a path is being applied above its first `k` forks: `m` of its forks are there. */
  ghost predicate AppliedTo(nodes: Nodes, start: Applied, q: seq<ForkId>, k: nat, m: nat,
                            accounts: Accounts, undo: UndoLogs, applied: Applied)
    requires k <= m <= |q|
  {
    Represents(q[..m], accounts, undo, applied) && Switched(nodes, start, applied, [], q[k..m])
  }

  lemma RevertedToShared(nodes: Nodes, start: Applied, p: seq<ForkId>, q: seq<ForkId>, k: nat,
                         accounts: Accounts, undo: UndoLogs, applied: Applied)
    requires k <= |p| && k <= |q| && p[..k] == q[..k] && RevertedTo(nodes, start, p, k, accounts, undo, applied)
    ensures Represents(q[..k], accounts, undo, applied) && Switched(nodes, start, applied, p[k..], [])
  {
  }

  lemma AppliedAll(nodes: Nodes, start: Applied, q: seq<ForkId>, k: nat, accounts: Accounts, undo: UndoLogs, applied: Applied)
    requires k <= |q| && AppliedTo(nodes, start, q, k, |q|, accounts, undo, applied)
    ensures Represents(q, accounts, undo, applied) && Switched(nodes, start, applied, [], q[k..])
  {
    assert q[..|q|] == q && q[k..|q|] == q[k..];
  }

  lemma ApplyNone(nodes: Nodes, q: seq<ForkId>, k: nat, accounts: Accounts, undo: UndoLogs, applied: Applied)
    requires k <= |q| && Represents(q[..k], accounts, undo, applied)
    ensures AppliedTo(nodes, applied, q, k, k, accounts, undo, applied)
  {
    assert q[k..k] == [];
    SwitchedNothing(nodes, applied);
  }

  lemma ApplyNext(nodes: Nodes, start: Applied, q: seq<ForkId>, k: nat, n: nat,
                  accounts: Accounts, undo: UndoLogs, applied: Applied)
    requires Grows(q) && k <= n < |q| && q[n] in nodes && AppliedTo(nodes, start, q, k, n, accounts, undo, applied)
    ensures var ws := nodes[q[n]].writes;
            AppliedTo(nodes, start, q, k, n + 1,
                      ApplyWrites(accounts, ws), undo[q[n] := Journal(accounts, ws)], applied[q[n] := ws])
  {
    assert q[..n + 1] == q[..n] + [q[n]] && q[k..n + 1] == q[k..n] + [q[n]];
    GrowsIsDistinct(q, n);
    ApplyTop(q[..n], q[n], nodes[q[n]].writes, accounts, undo, applied);
    SwitchedOneIn(nodes, start, applied, q[k..n], q[n]);
  }

  /** The account map and the undo logs of a whole graph. */
  ghost predicate Holds(g: Graph, accounts: Accounts, undo: UndoLogs) {
    Inv(g) && undo.Keys == g.nodes.Keys && Represents(ActivePath(g), accounts, undo, g.applied)
  }

  lemma Landed(g: Graph, target: Option<ForkId>, p: seq<ForkId>, q: seq<ForkId>, k: nat,
               middle: Applied, accounts: Accounts, undo: UndoLogs, applied: Applied)
    requires Inv(g) && ActivateError(g.nodes, target).None? && undo.Keys == applied.Keys == g.nodes.Keys
    requires p == ActivePath(g) && q == TipPath(g.nodes, g.root, target) && k == CommonPrefix(p, q)
    requires Switched(g.nodes, g.applied, middle, p[k..], []) && AppliedTo(g.nodes, middle, q, k, |q|, accounts, undo, applied)
    ensures Activated(g, target).applied == applied && Holds(Activated(g, target), accounts, undo)
  {
    AppliedAll(g.nodes, middle, q, k, accounts, undo, applied);
    SwitchedTwice(g.nodes, g.applied, middle, applied, p[k..], q[k..]);
    SwitchedIsActivated(g, target, applied);
    ActivatedKeepsInv(g, target);
  }

  lemma TipWritten(g: Graph, w: Write, accounts: Accounts, undo: UndoLogs)
    requires Holds(g, accounts, undo) && g.active == Some(w.fork)
    ensures Represents(ActivePath(g), accounts[w.pubkey := StateOf(w)],
                       undo[w.fork := undo[w.fork] + [Undo(w.pubkey, Lookup(accounts, w.pubkey))]],
                       g.applied[w.fork := g.applied[w.fork] + [w]])
  {
    var p := ActivePath(g);
    assert p == p[..|p| - 1] + [w.fork];
    PathGrows(g.nodes, g.root, w.fork);
    GrowsIsDistinct(p, |p| - 1);
    WriteTop(p[..|p| - 1], w.fork, w, accounts, undo, g.applied);
  }

  lemma Buried(g: Graph, f: ForkId, accounts: Accounts, undo: UndoLogs)
    requires Inv(g) && DeathError(g, f).None? && g.nodes[f].commitment != Dead
    requires Holds(Vacated(g, f), accounts, undo)
    ensures Holds(MarkDead(g, f).0, accounts, undo)
    ensures MarkDead(g, f)
            == (Vacated(g, f).(nodes := Killed(g.nodes, Subtree(g, f)),
                               revision := if g.revision == U64_MAX then U64_MAX else g.revision + 1),
                if g.revision == U64_MAX then Err(RevisionOverflow)
                else Ok(Some(CommitmentRevision(g.revision + 1, f, g.nodes[f].commitment, Dead))))
  {
    DeathKeepsInv(g, f);
  }

  class SolanaCanonicality {
    var nodes: Nodes
    var undo: UndoLogs
    var root: Option<ForkId>
    var active: Option<ForkId>
    var accounts: Accounts
    var revision: nat
    ghost var applied: Applied

    ghost function State(): Graph
      reads this
    {
      Graph(nodes, root, active, applied, revision)
    }

    ghost predicate Valid()
      reads this
    {
      Holds(State(), accounts, undo)
    }

    constructor ()
      ensures Valid() && State() == START && accounts == map[]
    {
      nodes, undo, root, active, accounts, revision := map[], map[], None, None, map[], 0;
      applied := map[];
    }

    /** Walks parents from a fork to the root. */
    method PathToRoot(tip: ForkId) returns (up: seq<ForkId>)
      requires Tree(nodes, root) && tip in nodes
      ensures Reversed(up, Path(nodes, root, tip)) && forall i | 0 <= i < |up| :: up[i] in nodes
    {
      ghost var p := Path(nodes, root, tip);
      up := [];
      var current := Some(tip);
      ghost var left := |p|;
      while current.Some?
        invariant 0 <= left <= |p| && |up| == |p| - left
        invariant current == if left == 0 then None else Some(p[left - 1])
        invariant forall i | 0 <= i < |up| :: up[i] == p[|p| - 1 - i] && up[i] in nodes
        decreases left
      {
        PathLink(nodes, root, tip, left - 1);
        var f := current.value;
        up := up + [f];
        current := if f in nodes then nodes[f].parent else None;
        left := left - 1;
      }
    }

    method IsAncestor(ancestor: ForkId, descendant: ForkId) returns (yes: bool)
      requires Tree(nodes, root) && descendant in nodes
      ensures yes <==> ancestor in Path(nodes, root, descendant)
    {
      var up := PathToRoot(descendant);
      ghost var p := Path(nodes, root, descendant);
      ReversedHas(up, p, ancestor);
      yes := ancestor in up;
    }

    /** Undoes everything a fork has applied. */
    method RevertNode(f: ForkId)
      requires f in undo && f in applied
      modifies this`accounts, this`undo, this`applied
      ensures accounts == Unwind(old(accounts), old(undo)[f])
      ensures undo == old(undo)[f := []] && applied == old(applied)[f := []]
      ensures undo.Keys == old(undo).Keys && applied.Keys == old(applied).Keys
    {
      var log := undo[f];
      undo := undo[f := []];
      applied := applied[f := []];
      var i := |log|;
      ghost var start := accounts;
      assert log[..i] == log;
      while i > 0
        invariant 0 <= i <= |log|
        invariant Unwind(start, log) == Unwind(accounts, log[..i])
        invariant undo == old(undo)[f := []] && applied == old(applied)[f := []]
      {
        i := i - 1;
        assert log[..i + 1][..i] == log[..i] && log[..i + 1][i] == log[i];
        match log[i].previous {
          case Some(previous) => accounts := accounts[log[i].pubkey := previous];
          case None => accounts := accounts - {log[i].pubkey};
        }
      }
    }

    /** Applies all recorded writes of a fork, keeping an undo log. */
    method ApplyNode(f: ForkId)
      requires f in nodes
      modifies this`accounts, this`undo, this`applied
      ensures accounts == ApplyWrites(old(accounts), nodes[f].writes)
      ensures undo == old(undo)[f := Journal(old(accounts), nodes[f].writes)]
      ensures applied == old(applied)[f := nodes[f].writes]
    {
      var writes := nodes[f].writes;
      ghost var start := accounts;
      var log := [];
      for i := 0 to |writes|
        invariant accounts == ApplyWrites(start, writes[..i])
        invariant log == Journal(start, writes[..i])
        invariant undo == old(undo) && applied == old(applied)
      {
        assert writes[..i + 1][..i] == writes[..i];
        var one := ApplyWrite(writes[i]);
        log := log + [one];
      }
      assert writes[..|writes|] == writes;
      undo := undo[f := log];
      applied := applied[f := writes];
    }

    method ApplyWrite(w: Write) returns (one: Undo)
      modifies this`accounts
      ensures accounts == old(accounts)[w.pubkey := StateOf(w)]
      ensures one == Undo(w.pubkey, Lookup(old(accounts), w.pubkey))
    {
      one := Undo(w.pubkey, if w.pubkey in accounts then Some(accounts[w.pubkey]) else None);
      accounts := accounts[w.pubkey := StateOf(w)];
    }

    /** The first fork of one walk, from its tip, that is also on the other. */
    static method FindCommon(current: seq<ForkId>, target: seq<ForkId>, ghost p: seq<ForkId>, ghost q: seq<ForkId>, ghost k: nat)
      returns (common: Option<ForkId>)
      requires Reversed(current, p) && Reversed(target, q)
      requires k <= |p| && forall i | 0 <= i < |p| :: p[i] in q <==> i < k
      ensures common == if k == 0 then None else Some(p[k - 1])
    {
      var i := 0;
      while i < |current|
        invariant 0 <= i <= |current| - k
      {
        ReversedHas(target, q, current[i]);
        assert Mirrored(current, p, i);
        if current[i] in target {
          return Some(current[i]);
        }
        i := i + 1;
      }
      common := None;
    }

    /** Reverts the forks above the common one, from the tip down. */
    method RevertAbove(up: seq<ForkId>, common: Option<ForkId>, ghost p: seq<ForkId>, ghost k: nat)
      requires Reversed(up, p) && Grows(p) && k <= |p| && common == if k == 0 then None else Some(p[k - 1])
      requires undo.Keys == applied.Keys == nodes.Keys && forall i | 0 <= i < |up| :: up[i] in nodes
      requires Represents(p, accounts, undo, applied)
      modifies this`accounts, this`undo, this`applied
      ensures undo.Keys == applied.Keys == nodes.Keys
      ensures RevertedTo(nodes, old(applied), p, k, accounts, undo, applied)
    {
      var n := CountAbove(up, common, p, k);
      RevertNone(nodes, p, accounts, undo, applied);
      ghost var m := |p|;
      for i := 0 to n
        invariant m == |p| - i
        invariant undo.Keys == nodes.Keys && applied.Keys == nodes.Keys
        invariant RevertedTo(nodes, old(applied), p, m, accounts, undo, applied)
      {
        m := m - 1;
        assert Mirrored(up, p, i);
        RevertNext(nodes, old(applied), p, m, accounts, undo, applied);
        RevertNode(up[i]);
      }
    }

    /** Applies the forks above the common one, from it up to the tip. */
    method ApplyAbove(up: seq<ForkId>, common: Option<ForkId>, ghost q: seq<ForkId>, ghost k: nat)
      requires Reversed(up, q) && Grows(q) && k <= |q| && common == if k == 0 then None else Some(q[k - 1])
      requires undo.Keys == applied.Keys == nodes.Keys && forall i | 0 <= i < |up| :: up[i] in nodes
      requires Represents(q[..k], accounts, undo, applied)
      modifies this`accounts, this`undo, this`applied
      ensures undo.Keys == applied.Keys == nodes.Keys
      ensures AppliedTo(nodes, old(applied), q, k, |q|, accounts, undo, applied)
    {
      var n := CountAbove(up, common, q, k);
      ApplyNone(nodes, q, k, accounts, undo, applied);
      var i := n;
      while i > 0
        invariant 0 <= i <= n
        invariant undo.Keys == applied.Keys == nodes.Keys
        invariant AppliedTo(nodes, old(applied), q, k, |q| - i, accounts, undo, applied)
      {
        i := i - 1;
        assert Mirrored(up, q, i);
        ApplyNext(nodes, old(applied), q, k, |q| - 1 - i, accounts, undo, applied);
        ApplyNode(up[i]);
      }
    }

    /** How many forks of a walk come before the common one. */
    static method CountAbove(up: seq<ForkId>, common: Option<ForkId>, ghost q: seq<ForkId>, ghost k: nat) returns (n: nat)
      requires Reversed(up, q) && Grows(q) && k <= |q| && common == if k == 0 then None else Some(q[k - 1])
      ensures n == |q| - k
    {
      n := 0;
      while n < |up| && Some(up[n]) != common
        invariant 0 <= n <= |q| - k
      {
        assert Mirrored(up, q, n);
        n := n + 1;
      }
      if n < |up| {
        assert Mirrored(up, q, n);
        GrowsOnce(q, |q| - 1 - n, k - 1);
      }
    }

    method WalkFrom(tip: Option<ForkId>) returns (up: seq<ForkId>)
      requires Tree(nodes, root) && (tip.Some? ==> tip.value in nodes)
      ensures Reversed(up, TipPath(nodes, root, tip)) && forall i | 0 <= i < |up| :: up[i] in nodes
    {
      up := [];
      if tip.Some? {
        up := PathToRoot(tip.value);
      }
    }

    /** The two walks to the root and the fork where they meet. */
    method Walks(target: Option<ForkId>) returns (current: seq<ForkId>, next: seq<ForkId>, common: Option<ForkId>)
      requires Valid() && ActivateError(nodes, target).None?
      ensures Reversed(current, ActivePath(State())) && Reversed(next, TipPath(nodes, root, target))
      ensures forall i | 0 <= i < |current| :: current[i] in nodes
      ensures forall i | 0 <= i < |next| :: next[i] in nodes
      ensures Grows(ActivePath(State())) && Grows(TipPath(nodes, root, target))
      ensures var p, q := ActivePath(State()), TipPath(nodes, root, target);
              var k := CommonPrefix(p, q);
              && common == (if k == 0 then None else Some(p[k - 1]))
              && common == (if k == 0 then None else Some(q[k - 1]))
    {
      ghost var p, q := ActivePath(State()), TipPath(nodes, root, target);
      ghost var k := CommonPrefix(p, q);
      current := WalkFrom(active);
      next := WalkFrom(target);
      PathsPart(State(), target, if k == 0 then None else Some(p[k - 1]));
      common := FindCommon(current, next, p, q, k);
      PartsOnBoth(p, q, k, common);
    }

    /** Moves the account map from the current path to the target path. */
    method SwitchPaths(target: Option<ForkId>)
      requires Valid() && ActivateError(nodes, target).None?
      modifies this`accounts, this`undo, this`applied
      ensures applied == Activated(old(State()), target).applied
      ensures Holds(Activated(old(State()), target), accounts, undo)
    {
      ghost var g := State();
      ghost var p, q := ActivePath(g), TipPath(nodes, root, target);
      ghost var k := CommonPrefix(p, q);
      var current, next, common := Walks(target);
      RevertAbove(current, common, p, k);
      RevertedToShared(nodes, g.applied, p, q, k, accounts, undo, applied);
      ghost var middle := applied;
      ApplyAbove(next, common, q, k);
      Landed(g, target, p, q, k, middle, accounts, undo, applied);
    }

    /** Switches the projection to a live fork, or to nothing. */
    method ActivateOptional(target: Option<ForkId>) returns (r: Result<(), SolanaError>)
      requires Valid()
      modifies this`accounts, this`undo, this`applied, this`active
      ensures Valid()
      ensures match ActivateError(nodes, target)
              case Some(e) => r == Err(e) && State() == old(State()) && accounts == old(accounts)
              case None => r == Ok(()) && State() == Activated(old(State()), target)
    {
      if target.Some? {
        if target.value !in nodes {
          return Err(UnknownFork);
        }
        if nodes[target.value].commitment == Dead {
          return Err(DeadFork);
        }
      }
      if active == target {
        ActivatedSame(State());
        return Ok(());
      }
      SwitchPaths(target);
      active := target;
      r := Ok(());
    }

    method Activate(f: ForkId) returns (r: Result<(), SolanaError>)
      requires Valid()
      modifies this`accounts, this`undo, this`applied, this`active
      ensures Valid() && (State(), r) == SolanaSpec.Activate(old(State()), f)
    {
      r := ActivateOptional(Some(f));
    }

    method ObserveSlot(f: ForkId, parent: Option<ForkId>) returns (r: Result<(), SolanaError>)
      requires Valid()
      modifies this
      ensures Valid() && (State(), r) == SolanaSpec.ObserveSlot(old(State()), f, parent)
      ensures accounts == old(accounts)
    {
      ghost var g := State();
      SlotKeepsInv(g, f, parent);
      if f in nodes {
        return if nodes[f].parent == parent then Ok(()) else Err(ConflictingForkIdentity);
      }
      if parent.Some? {
        var p := parent.value;
        if p !in nodes {
          return Err(UnknownParent);
        }
        if nodes[p].commitment == Dead {
          return Err(DeadParent);
        }
        if f.slot <= p.slot {
          return Err(NonIncreasingSlot);
        }
      } else if root.Some? {
        return Err(MultipleRoots);
      }
      if parent.None? {
        root := Some(f);
      }
      NewLeaf(ActivePath(g), f, accounts, undo, applied);
      nodes := nodes[f := Fork(parent, Received, [], None)];
      undo := undo[f := []];
      applied := applied[f := []];
      assert nodes.Keys == g.nodes.Keys + {f};
      r := Ok(());
    }

    /** Records a write, and applies it at once when its fork is the active tip. */
    method RecordAccountWrite(w: Write) returns (r: Result<(), SolanaError>)
      requires Valid()
      modifies this
      ensures Valid() && (State(), r) == SolanaSpec.RecordWrite(old(State()), w)
    {
      ghost var g := State();
      WriteKeepsInv(g, w);
      var f := w.fork;
      if f !in nodes {
        return Err(UnknownFork);
      }
      if nodes[f].commitment == Dead {
        return Err(DeadFork);
      }
      if nodes[f].lastVersion.Some? && w.version <= nodes[f].lastVersion.value {
        return Err(WriteVersionRegression);
      }
      if active == Some(f) {
        ApplyToTip(w);
      }
      nodes := nodes[f := nodes[f].(writes := nodes[f].writes + [w], lastVersion := Some(w.version))];
      assert State() == SolanaSpec.RecordWrite(g, w).0;
      r := Ok(());
    }

    method ApplyToTip(w: Write)
      requires Valid() && active == Some(w.fork)
      modifies this`accounts, this`undo, this`applied
      ensures undo.Keys == nodes.Keys && applied == old(applied)[w.fork := old(applied)[w.fork] + [w]]
      ensures Represents(ActivePath(old(State())), accounts, undo, applied)
    {
      TipWritten(State(), w, accounts, undo);
      var one := ApplyWrite(w);
      undo := undo[w.fork := undo[w.fork] + [one]];
      applied := applied[w.fork := applied[w.fork] + [w]];
    }

    method NextRevision() returns (ok: bool)
      modifies this`revision
      ensures ok == (old(revision) != U64_MAX)
      ensures revision == if ok then old(revision) + 1 else old(revision)
    {
      ok := revision != U64_MAX;
      if ok {
        revision := revision + 1;
      }
    }

    method ObserveCommitment(f: ForkId, c: Commitment) returns (r: Result<Option<CommitmentRevision>, SolanaError>)
      requires Valid()
      modifies this
      ensures Valid() && (State(), r) == SolanaSpec.ObserveCommitment(old(State()), f, c)
    {
      if c == Dead {
        r := MarkDead(f);
        return;
      }
      ghost var g := State();
      CommitKeepsInv(g, f, c);
      if f !in nodes {
        return Err(UnknownFork);
      }
      var current := nodes[f].commitment;
      if current == c {
        return Ok(None);
      }
      if current == Dead {
        return Err(DeadFork);
      }
      if Rank(c) < Rank(current) {
        return Err(CommitmentRegression);
      }
      var ok := NextRevision();
      if !ok {
        return Err(RevisionOverflow);
      }
      nodes := nodes[f := nodes[f].(commitment := c)];
      assert nodes.Keys == g.nodes.Keys;
      r := Ok(Some(CommitmentRevision(revision, f, current, c)));
    }

    /** The fork and everything below it. */
    method CollectSubtree(f: ForkId) returns (dead: set<ForkId>)
      requires Tree(nodes, root)
      ensures dead == Subtree(State(), f)
    {
      dead := {};
      var rest := nodes.Keys;
      while rest != {}
        invariant rest <= nodes.Keys
        invariant dead == set x | x in nodes.Keys - rest && f in Path(nodes, root, x)
        decreases |rest|
      {
        var x :| x in rest;
        var yes := IsAncestor(f, x);
        rest := rest - {x};
        if yes {
          dead := dead + {x};
        }
      }
    }

    method AnyFinalized(dead: set<ForkId>) returns (yes: bool)
      requires dead <= nodes.Keys
      ensures yes <==> exists x | x in dead :: nodes[x].commitment == Finalized
    {
      var rest := dead;
      while rest != {}
        invariant rest <= dead
        invariant forall x | x in dead - rest :: nodes[x].commitment != Finalized
        decreases |rest|
      {
        var x :| x in rest;
        if nodes[x].commitment == Finalized {
          return true;
        }
        rest := rest - {x};
      }
      yes := false;
    }

    method Kill(dead: set<ForkId>)
      requires dead <= nodes.Keys
      modifies this`nodes
      ensures nodes == Killed(old(nodes), dead)
    {
      var rest := dead;
      assert Killed(nodes, {}) == nodes;
      assert dead - rest == {};
      while rest != {}
        invariant rest <= dead
        invariant nodes == Killed(old(nodes), dead - rest)
        decreases |rest|
      {
        var x :| x in rest;
        nodes := nodes[x := nodes[x].(commitment := Dead)];
        rest := rest - {x};
        assert nodes == Killed(old(nodes), dead - rest);
      }
    }

    /** Moves the projection out of the dying subtree, then marks all of it dead. */
    method MarkDead(f: ForkId) returns (r: Result<Option<CommitmentRevision>, SolanaError>)
      requires Valid()
      modifies this
      ensures Valid() && (State(), r) == SolanaSpec.MarkDead(old(State()), f)
    {
      if f !in nodes {
        return Err(UnknownFork);
      }
      var current := nodes[f].commitment;
      if current == Dead {
        return Ok(None);
      }
      if current == Finalized {
        return Err(FinalizedForkWouldDie);
      }
      var dead := CollectSubtree(f);
      var finalized := AnyFinalized(dead);
      if finalized {
        return Err(FinalizedForkWouldDie);
      }
      r := Bury(f, dead, current);
    }

    method Bury(f: ForkId, dead: set<ForkId>, current: Commitment) returns (r: Result<Option<CommitmentRevision>, SolanaError>)
      requires Valid() && f in nodes && current == nodes[f].commitment != Dead
      requires DeathError(State(), f).None? && dead == Subtree(State(), f)
      modifies this
      ensures Valid() && (State(), r) == SolanaSpec.MarkDead(old(State()), f)
    {
      ghost var g := State();
      Vacate(f);
      Buried(g, f, accounts, undo);
      Kill(dead);
      var ok := NextRevision();
      ghost var g' := SolanaSpec.MarkDead(g, f).0;
      assert State() == g' && Holds(g', accounts, undo);
      if !ok {
        return Err(RevisionOverflow);
      }
      r := Ok(Some(CommitmentRevision(revision, f, current, Dead)));
    }

    method Vacate(f: ForkId)
      requires Valid() && f in nodes && nodes[f].commitment != Dead
      modifies this`accounts, this`undo, this`applied, this`active
      ensures Valid() && State() == Vacated(old(State()), f)
    {
      if active.Some? {
        var within := IsAncestor(f, active.value);
        if within {
          ParentIsLive(State(), f);
          var moved := ActivateOptional(nodes[f].parent);
        }
      }
    }
  }
}
