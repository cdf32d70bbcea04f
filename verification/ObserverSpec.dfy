/** One observer's mempool: membership epochs, their revision log, and convergence to snapshots. */
module ObserverSpec {
  import opened Prelude
  import opened BitcoinDomain
  import opened TxidOrder

  datatype Membership = Present | Absent
  datatype Cause = Observed | Mined | Replaced | Disconnected | ReconciledSnapshot

  /** An epoch's identity: the digest of the source, the transaction and the epoch's number. */
  type EpochId = nat

  /** The digest of one source. */
  type Digest = (Txid, nat) -> EpochId

  /** `revision` counts inside an epoch. */
  datatype Revision = Revision(txid: Txid, epoch: EpochId, revision: nat, state: Membership, cause: Cause,
                               observedAt: Option<int>, recordedAt: int)

  datatype Epoch = Epoch(id: EpochId, firstSeen: Option<int>)

  datatype Observer = Observer(sequence: Option<nat>, lastSnapshot: Option<set<Txid>>, members: map<Txid, Epoch>,
                               counts: map<Txid, nat>, log: seq<Revision>)

  datatype SnapshotError = SnapshotSequenceRegression(current: nat, attempted: nat) | SnapshotSequenceConflict(sequence: nat)

  const START := Observer(None, None, map[], map[], [])

  /** When and why a change was recorded. */
  datatype Stamp = Stamp(cause: Cause, observedAt: Option<int>, recordedAt: int)

  // ---------------------------------------------------------------- operations

  function NextEpoch(o: Observer, t: Txid): nat {
    if t in o.counts then SaturatingSucc(o.counts[t]) else 1
  }

  function Add(d: Digest, o: Observer, t: Txid, s: Stamp): (Observer, seq<Revision>) {
    if t in o.members then (o, [])
    else
      var n := NextEpoch(o, t);
      var r := Revision(t, d(t, n), 1, Present, s.cause, s.observedAt, s.recordedAt);
      (o.(members := o.members[t := Epoch(d(t, n), s.observedAt)], counts := o.counts[t := n], log := o.log + [r]), [r])
  }

  function Remove(o: Observer, t: Txid, s: Stamp): (Observer, seq<Revision>) {
    if t !in o.members then (o, [])
    else
      var r := Revision(t, o.members[t].id, 2, Absent, s.cause, s.observedAt, s.recordedAt);
      (o.(members := o.members - {t}, log := o.log + [r]), [r])
  }

  function AddAll(d: Digest, o: Observer, ts: seq<Txid>, s: Stamp): (Observer, seq<Revision>) {
    if ts == [] then (o, [])
    else
      var (o1, rs1) := AddAll(d, o, ts[..|ts| - 1], s);
      var (o2, rs2) := Add(d, o1, ts[|ts| - 1], s);
      (o2, rs1 + rs2)
  }

  function RemoveAll(o: Observer, ts: seq<Txid>, s: Stamp): (Observer, seq<Revision>) {
    if ts == [] then (o, [])
    else
      var (o1, rs1) := RemoveAll(o, ts[..|ts| - 1], s);
      var (o2, rs2) := Remove(o1, ts[|ts| - 1], s);
      (o2, rs1 + rs2)
  }

  /** Removals first, then additions, each in ascending order. */
  ghost function Converge(d: Digest, o: Observer, snapshot: set<Txid>, s: Stamp): (Observer, seq<Revision>) {
    var (o1, rs1) := RemoveAll(o, Listing(o.members.Keys - snapshot), s);
    var (o2, rs2) := AddAll(d, o1, Listing(snapshot - o.members.Keys), s);
    (o2, rs1 + rs2)
  }

  ghost function ApplySnapshot(d: Digest, o: Observer, sequence: nat, snapshot: set<Txid>, recordedAt: int):
      (Observer, Result<seq<Revision>, SnapshotError>)
  {
    if o.sequence.Some? && sequence < o.sequence.value then
      (o, Err(SnapshotSequenceRegression(o.sequence.value, sequence)))
    else if o.sequence == Some(sequence) then
      (o, if o.lastSnapshot == Some(snapshot) then Ok([]) else Err(SnapshotSequenceConflict(sequence)))
    else
      var (o', rs) := Converge(d, o, snapshot, Stamp(ReconciledSnapshot, None, recordedAt));
      (o'.(sequence := Some(sequence), lastSnapshot := Some(snapshot)), Ok(rs))
  }

  // ---------------------------------------------------------------- the log of one transaction

  function Of(log: seq<Revision>, t: Txid): seq<Revision> {
    if log == [] then []
    else
      var front := Of(log[..|log| - 1], t);
      if log[|log| - 1].txid == t then front + [log[|log| - 1]] else front
  }

  lemma OfSnoc(log: seq<Revision>, r: Revision, t: Txid)
    ensures Of(log + [r], t) == if r.txid == t then Of(log, t) + [r] else Of(log, t)
  {
    assert (log + [r])[..|log|] == log;
  }

  function Capped(n: nat): nat {
    if n < U64_MAX then n else U64_MAX
  }

  /** Revisions of one transaction alternate; both revisions of the `k`-th epoch carry its identity, the first as
      revision 1 and the second as revision 2. */
  ghost predicate InTurn(d: Digest, t: Txid, revisions: seq<Revision>, i: nat)
    requires i < |revisions|
  {
    && revisions[i].state == (if i % 2 == 0 then Present else Absent)
    && revisions[i].revision == i % 2 + 1
    && revisions[i].epoch == d(t, Capped(i / 2 + 1))
  }

  ghost predicate Alternates(d: Digest, t: Txid, revisions: seq<Revision>) {
    forall i {:trigger InTurn(d, t, revisions, i)} | 0 <= i < |revisions| :: InTurn(d, t, revisions, i)
  }

  /** What the tracker holds about one transaction is what its revisions say. */
  ghost predicate Agrees(d: Digest, o: Observer, t: Txid) {
    var rs := Of(o.log, t);
    && Alternates(d, t, rs)
    && (t in o.counts <==> rs != []) && (t in o.counts ==> o.counts[t] == Capped((|rs| + 1) / 2))
    && (t in o.members <==> |rs| % 2 == 1)
    && (t in o.members ==> o.members[t] == Epoch(rs[|rs| - 1].epoch, rs[|rs| - 1].observedAt))
  }

  ghost predicate Inv(d: Digest, o: Observer) {
    forall t {:trigger Agrees(d, o, t)} :: Agrees(d, o, t)
  }

  lemma AddKeepsAgreement(d: Digest, o: Observer, u: Txid, s: Stamp, t: Txid)
    requires Agrees(d, o, t)
    ensures Agrees(d, Add(d, o, u, s).0, t)
  {
    if u !in o.members {
      var r, rs := Add(d, o, u, s).1[0], Of(o.log, t);
      OfSnoc(o.log, r, t);
      if t == u {
        Halves(|rs|);
        AlternatesMore(d, t, rs, r);
      }
    }
  }

  lemma RemoveKeepsAgreement(d: Digest, o: Observer, u: Txid, s: Stamp, t: Txid)
    requires Agrees(d, o, t)
    ensures Agrees(d, Remove(o, u, s).0, t)
  {
    if u in o.members {
      var r, rs := Remove(o, u, s).1[0], Of(o.log, t);
      OfSnoc(o.log, r, t);
      if t == u {
        Halves(|rs|);
        assert InTurn(d, t, rs, |rs| - 1);
        AlternatesMore(d, t, rs, r);
      }
    }
  }

  lemma Halves(n: nat)
    ensures n % 2 == 0 ==> (n + 1) % 2 == 1 && (n + 1) / 2 == n / 2 && (n + 2) / 2 == n / 2 + 1
    ensures n % 2 == 1 ==> (n + 1) % 2 == 0 && (n + 1) / 2 == n / 2 + 1 && (n + 2) / 2 == (n + 1) / 2 && (n - 1) / 2 == n / 2
  {
  }

  lemma AlternatesMore(d: Digest, t: Txid, rs: seq<Revision>, r: Revision)
    requires Alternates(d, t, rs)
    requires r.state == (if |rs| % 2 == 0 then Present else Absent) && r.revision == |rs| % 2 + 1
    requires r.epoch == d(t, Capped(|rs| / 2 + 1))
    ensures Alternates(d, t, rs + [r])
  {
    forall i | 0 <= i < |rs|
      ensures InTurn(d, t, rs + [r], i)
    {
      assert InTurn(d, t, rs, i);
    }
  }

  lemma {:induction false} AddAllKeepsInv(d: Digest, o: Observer, ts: seq<Txid>, s: Stamp)
    requires Inv(d, o)
    ensures Inv(d, AddAll(d, o, ts, s).0)
    decreases |ts|
  {
    if ts != [] {
      AddAllKeepsInv(d, o, ts[..|ts| - 1], s);
      forall t
        ensures Agrees(d, AddAll(d, o, ts, s).0, t)
      {
        AddKeepsAgreement(d, AddAll(d, o, ts[..|ts| - 1], s).0, ts[|ts| - 1], s, t);
      }
    }
  }

  lemma {:induction false} RemoveAllKeepsInv(d: Digest, o: Observer, ts: seq<Txid>, s: Stamp)
    requires Inv(d, o)
    ensures Inv(d, RemoveAll(o, ts, s).0)
    decreases |ts|
  {
    if ts != [] {
      RemoveAllKeepsInv(d, o, ts[..|ts| - 1], s);
      forall t
        ensures Agrees(d, RemoveAll(o, ts, s).0, t)
      {
        RemoveKeepsAgreement(d, RemoveAll(o, ts[..|ts| - 1], s).0, ts[|ts| - 1], s, t);
      }
    }
  }

  lemma ConvergeKeepsInv(d: Digest, o: Observer, snapshot: set<Txid>, s: Stamp)
    requires Inv(d, o)
    ensures Inv(d, Converge(d, o, snapshot, s).0)
  {
    var removals, additions := Listing(o.members.Keys - snapshot), Listing(snapshot - o.members.Keys);
    RemoveAllKeepsInv(d, o, removals, s);
    AddAllKeepsInv(d, RemoveAll(o, removals, s).0, additions, s);
  }

  lemma SnapshotKeepsInv(d: Digest, o: Observer, sequence: nat, snapshot: set<Txid>, recordedAt: int)
    requires Inv(d, o)
    ensures Inv(d, ApplySnapshot(d, o, sequence, snapshot, recordedAt).0)
  {
    var s := Stamp(ReconciledSnapshot, None, recordedAt);
    ConvergeKeepsInv(d, o, snapshot, s);
    Relabelled(d, Converge(d, o, snapshot, s).0, sequence, snapshot);
  }

  lemma Relabelled(d: Digest, o: Observer, sequence: nat, snapshot: set<Txid>)
    requires Inv(d, o)
    ensures Inv(d, o.(sequence := Some(sequence), lastSnapshot := Some(snapshot)))
  {
    var o' := o.(sequence := Some(sequence), lastSnapshot := Some(snapshot));
    forall t
      ensures Agrees(d, o', t)
    {
      assert Agrees(d, o, t);
    }
  }

  // ---------------------------------------------------------------- convergence

  lemma {:induction false} AddAllMembers(d: Digest, o: Observer, ts: seq<Txid>, s: Stamp)
    ensures AddAll(d, o, ts, s).0.members.Keys == o.members.Keys + set t | t in ts
    decreases |ts|
  {
    if ts != [] {
      AddAllMembers(d, o, ts[..|ts| - 1], s);
      assert ts == ts[..|ts| - 1] + [ts[|ts| - 1]];
    }
  }

  lemma {:induction false} RemoveAllMembers(o: Observer, ts: seq<Txid>, s: Stamp)
    ensures RemoveAll(o, ts, s).0.members.Keys == o.members.Keys - set t | t in ts
    decreases |ts|
  {
    if ts != [] {
      RemoveAllMembers(o, ts[..|ts| - 1], s);
      assert ts == ts[..|ts| - 1] + [ts[|ts| - 1]];
    }
  }

  lemma ConvergeMembers(d: Digest, o: Observer, snapshot: set<Txid>, s: Stamp)
    ensures Converge(d, o, snapshot, s).0.members.Keys == snapshot
  {
    var current := o.members.Keys;
    var o1 := RemoveAll(o, Listing(current - snapshot), s).0;
    RemoveAllMembers(o, Listing(current - snapshot), s);
    ListedSet(current - snapshot);
    AddAllMembers(d, o1, Listing(snapshot - current), s);
    ListedSet(snapshot - current);
    assert current - (current - snapshot) + (snapshot - current) == snapshot;
  }

  /** After an accepted newer snapshot the members are exactly that snapshot. */
  lemma SnapshotConverges(d: Digest, o: Observer, sequence: nat, snapshot: set<Txid>, recordedAt: int)
    requires o.sequence.Some? ==> o.sequence.value < sequence
    ensures ApplySnapshot(d, o, sequence, snapshot, recordedAt).1.Ok?
    ensures ApplySnapshot(d, o, sequence, snapshot, recordedAt).0.members.Keys == snapshot
  {
    ConvergeMembers(d, o, snapshot, Stamp(ReconciledSnapshot, None, recordedAt));
  }

  // ---------------------------------------------------------------- runs

  datatype Event = Seen(t: Txid, s: Stamp) | Gone(t: Txid, s: Stamp) | Snapshot(sequence: nat, members: set<Txid>, recordedAt: int)

  ghost function Step(d: Digest, o: Observer, e: Event): Observer {
    match e
    case Seen(t, s) => Add(d, o, t, s).0
    case Gone(t, s) => Remove(o, t, s).0
    case Snapshot(sequence, members, recordedAt) => ApplySnapshot(d, o, sequence, members, recordedAt).0
  }

  ghost function Run(d: Digest, events: seq<Event>): Observer {
    if events == [] then START else Step(d, Run(d, events[..|events| - 1]), events[|events| - 1])
  }

  /** In every run each transaction's revisions alternate Present and Absent with epochs 1, 2, 3, … (up to the
      largest counter), and the members are exactly the transactions whose last revision is Present. */
  lemma {:induction false} RunAlternates(d: Digest, events: seq<Event>)
    ensures Inv(d, Run(d, events))
    decreases |events|
  {
    if events != [] {
      var o, e := Run(d, events[..|events| - 1]), events[|events| - 1];
      RunAlternates(d, events[..|events| - 1]);
      match e {
        case Seen(u, s) =>
          forall t ensures Agrees(d, Step(d, o, e), t) { AddKeepsAgreement(d, o, u, s, t); }
        case Gone(u, s) =>
          forall t ensures Agrees(d, Step(d, o, e), t) { RemoveKeepsAgreement(d, o, u, s, t); }
        case Snapshot(sequence, members, recordedAt) => SnapshotKeepsInv(d, o, sequence, members, recordedAt);
      }
    } else {
      assert forall t :: Agrees(d, START, t);
    }
  }

  /** While the digest does not collide, two revisions of a transaction carry the same identity exactly when
      they belong to the same epoch; past the largest counter all epochs share one. */
  lemma SameIdentityIff(d: Digest, events: seq<Event>, t: Txid, i: nat, j: nat)
    requires forall m, n | d(t, m) == d(t, n) :: m == n
    requires var rs := Of(Run(d, events).log, t); i < |rs| && j < |rs|
    ensures var rs := Of(Run(d, events).log, t);
            rs[i].epoch == rs[j].epoch <==> i / 2 == j / 2 || (i / 2 >= U64_MAX - 1 && j / 2 >= U64_MAX - 1)
  {
    RunAlternates(d, events);
    assert Agrees(d, Run(d, events), t);
    var rs := Of(Run(d, events).log, t);
    assert InTurn(d, t, rs, i) && InTurn(d, t, rs, j);
  }

  /** The snapshot sequence never goes back. */
  lemma {:induction false} SequenceOnlyGrows(d: Digest, events: seq<Event>, i: nat)
    requires i <= |events| && Run(d, events[..i]).sequence.Some?
    ensures Run(d, events).sequence.Some? && Run(d, events[..i]).sequence.value <= Run(d, events).sequence.value
    decreases |events|
  {
    if i < |events| {
      var front := events[..|events| - 1];
      assert front[..i] == events[..i];
      SequenceOnlyGrows(d, front, i);
      SequenceKept(d, Run(d, front), events[|events| - 1]);
    } else {
      assert events[..i] == events;
    }
  }

  lemma SequenceKept(d: Digest, o: Observer, e: Event)
    requires o.sequence.Some?
    ensures Step(d, o, e).sequence.Some? && o.sequence.value <= Step(d, o, e).sequence.value
  {
  }

  // ---------------------------------------------------------------- what is returned

  /** An addition opens an epoch if and only if the transaction is absent; the one revision returned carries the stamp
      and is what the log gains. */
  lemma AddReturns(d: Digest, o: Observer, t: Txid, s: Stamp)
    ensures var (o', rs) := Add(d, o, t, s);
            && o'.log == o.log + rs && |rs| == (if t in o.members then 0 else 1) && (rs == [] ==> o' == o)
            && (rs != [] ==>
                  && rs[0].txid == t && rs[0].state == Present
                  && Stamp(rs[0].cause, rs[0].observedAt, rs[0].recordedAt) == s
                  && o'.members.Keys == o.members.Keys + {t} && o'.members[t] == Epoch(rs[0].epoch, s.observedAt)
                  && (forall u | u in o.members :: o'.members[u] == o.members[u])
                  && o'.sequence == o.sequence && o'.lastSnapshot == o.lastSnapshot)
  {
    assert o.log + [] == o.log;
  }

  lemma RemoveReturns(o: Observer, t: Txid, s: Stamp)
    ensures var (o', rs) := Remove(o, t, s);
            && o'.log == o.log + rs && |rs| == (if t in o.members then 1 else 0) && (rs == [] ==> o' == o)
            && (rs != [] ==>
                  && rs[0].txid == t && rs[0].state == Absent && rs[0].epoch == o.members[t].id
                  && Stamp(rs[0].cause, rs[0].observedAt, rs[0].recordedAt) == s
                  && o'.members == o.members - {t} && o'.counts == o.counts
                  && o'.sequence == o.sequence && o'.lastSnapshot == o.lastSnapshot)
  {
    assert o.log + [] == o.log;
  }

  /** The revisions of a list of transactions, one each, in its order, with one stamp. */
  ghost predicate Tells(rs: seq<Revision>, ts: seq<Txid>, state: Membership, s: Stamp) {
    |rs| == |ts| && forall i | 0 <= i < |ts| ::
      && rs[i].txid == ts[i] && rs[i].state == state
      && rs[i].cause == s.cause && rs[i].observedAt == s.observedAt && rs[i].recordedAt == s.recordedAt
  }

  /** Pairwise different. */
  ghost predicate Distinct(ts: seq<Txid>) {
    forall i, j | 0 <= i < j < |ts| :: ts[i] != ts[j]
  }

  lemma {:induction false} AddAllReturns(d: Digest, o: Observer, ts: seq<Txid>, s: Stamp)
    requires Distinct(ts) && forall t | t in ts :: t !in o.members
    ensures var (o', rs) := AddAll(d, o, ts, s); o'.log == o.log + rs && Tells(rs, ts, Present, s)
    decreases |ts|
  {
    if ts == [] {
      assert o.log + [] == o.log;
    } else {
      var front, t := ts[..|ts| - 1], ts[|ts| - 1];
      AddAllReturns(d, o, front, s);
      AddAllMembers(d, o, front, s);
      var (o1, rs1) := AddAll(d, o, front, s);
      AddReturns(d, o1, t, s);
      Reassociate(o.log, rs1, Add(d, o1, t, s).1);
    }
  }

  lemma {:induction false} RemoveAllReturns(o: Observer, ts: seq<Txid>, s: Stamp)
    requires Distinct(ts) && forall t | t in ts :: t in o.members
    ensures var (o', rs) := RemoveAll(o, ts, s); o'.log == o.log + rs && Tells(rs, ts, Absent, s)
    decreases |ts|
  {
    if ts == [] {
      assert o.log + [] == o.log;
    } else {
      var front, t := ts[..|ts| - 1], ts[|ts| - 1];
      RemoveAllReturns(o, front, s);
      RemoveAllMembers(o, front, s);
      var (o1, rs1) := RemoveAll(o, front, s);
      RemoveReturns(o1, t, s);
      Reassociate(o.log, rs1, Remove(o1, t, s).1);
    }
  }

  lemma ListingIsDistinct(ts: set<Txid>)
    ensures Distinct(Listing(ts))
  {
    forall i, j | 0 <= i < j < |Listing(ts)|
      ensures Listing(ts)[i] != Listing(ts)[j]
    {
      ListingAscends(ts, i, j);
    }
  }

  /** A snapshot is accepted if and only if it is newer than the last, or is the last again; a newer one tells of each
      member that is gone and then of each that is new, in ascending order, and the log gains exactly that list. */
  lemma SnapshotReturns(d: Digest, o: Observer, sequence: nat, snapshot: set<Txid>, recordedAt: int)
    ensures var (o', r) := ApplySnapshot(d, o, sequence, snapshot, recordedAt);
            var newer := o.sequence.Some? ==> o.sequence.value < sequence;
            && (r.Ok? <==> newer || (o.sequence == Some(sequence) && o.lastSnapshot == Some(snapshot)))
            && (r.Err? ==> o' == o && r.error == if o.sequence.value > sequence then SnapshotSequenceRegression(o.sequence.value, sequence)
                                                 else SnapshotSequenceConflict(sequence))
            && (r.Ok? && !newer ==> o' == o && r.value == [])
            && (newer ==> o'.log == o.log + r.value && o'.sequence == Some(sequence) && o'.lastSnapshot == Some(snapshot)
                          && TellsChange(r.value, o.members.Keys, snapshot, recordedAt))
  {
    var newer := o.sequence.Some? ==> o.sequence.value < sequence;
    if newer {
      ConvergeReturns(d, o, snapshot, Stamp(ReconciledSnapshot, None, recordedAt));
    }
  }

  ghost predicate TellsChange(rs: seq<Revision>, before: set<Txid>, after: set<Txid>, recordedAt: int) {
    var gone, came, s := Listing(before - after), Listing(after - before), Stamp(ReconciledSnapshot, None, recordedAt);
    |rs| == |gone| + |came| && Tells(rs[..|gone|], gone, Absent, s) && Tells(rs[|gone|..], came, Present, s)
  }

  lemma ConvergeReturns(d: Digest, o: Observer, snapshot: set<Txid>, s: Stamp)
    ensures var (o', rs) := Converge(d, o, snapshot, s);
            var gone, came := Listing(o.members.Keys - snapshot), Listing(snapshot - o.members.Keys);
            && o'.log == o.log + rs && |rs| == |gone| + |came|
            && Tells(rs[..|gone|], gone, Absent, s) && Tells(rs[|gone|..], came, Present, s)
  {
    var gone, came := Listing(o.members.Keys - snapshot), Listing(snapshot - o.members.Keys);
    ListingIsDistinct(o.members.Keys - snapshot);
    ListingIsDistinct(snapshot - o.members.Keys);
    RemoveAllReturns(o, gone, s);
    RemoveAllMembers(o, gone, s);
    var (o1, rs1) := RemoveAll(o, gone, s);
    AddAllReturns(d, o1, came, s);
    var rs2 := AddAll(d, o1, came, s).1;
    Reassociate(o.log, rs1, rs2);
    assert (rs1 + rs2)[..|gone|] == rs1 && (rs1 + rs2)[|gone|..] == rs2;
  }
}
