/** The observer mempool as the service holds it. */
module ObserverMempool {
  import opened Prelude
  import opened BitcoinDomain
  import opened TxidOrder
  import opened ObserverSpec

  class ObserverMempool {
    /** The epoch digest, with the source identity in it. */
    const digest: Digest
    var snapshotSequence: Option<nat>
    var lastSnapshotMembers: Option<set<Txid>>
    var members: map<Txid, Epoch>
    var epochCounts: map<Txid, nat>
    var revisions: seq<Revision>

    function State(): Observer
      reads this
    {
      Observer(snapshotSequence, lastSnapshotMembers, members, epochCounts, revisions)
    }

    ghost predicate Valid()
      reads this
    {
      Inv(digest, State())
    }

    constructor (digest: Digest)
      ensures Valid() && State() == START && this.digest == digest
    {
      this.digest := digest;
      snapshotSequence, lastSnapshotMembers := None, None;
      members, epochCounts, revisions := map[], map[], [];
    }

    method Record(r: Revision)
      modifies this`revisions
      ensures revisions == old(revisions) + [r]
    {
      revisions := revisions + [r];
    }

    method Add(t: Txid, s: Stamp) returns (out: seq<Revision>)
      requires Valid()
      modifies this`members, this`epochCounts, this`revisions
      ensures Valid() && (State(), out) == ObserverSpec.Add(digest, old(State()), t, s)
    {
      ghost var o := State();
      forall u ensures Agrees(digest, ObserverSpec.Add(digest, o, t, s).0, u) {
        assert Agrees(digest, o, u);
        AddKeepsAgreement(digest, o, t, s, u);
      }
      if t in members {
        return [];
      }
      var number := if t in epochCounts then SaturatingSucc(epochCounts[t]) else 1;
      epochCounts := epochCounts[t := number];
      var id := digest(t, number);
      members := members[t := Epoch(id, s.observedAt)];
      var r := Revision(t, id, 1, Present, s.cause, s.observedAt, s.recordedAt);
      Record(r);
      assert State() == ObserverSpec.Add(digest, o, t, s).0;
      out := [r];
    }

    method Remove(t: Txid, s: Stamp) returns (out: seq<Revision>)
      requires Valid()
      modifies this`members, this`revisions
      ensures Valid() && (State(), out) == ObserverSpec.Remove(old(State()), t, s)
    {
      ghost var o := State();
      forall u ensures Agrees(digest, ObserverSpec.Remove(o, t, s).0, u) {
        assert Agrees(digest, o, u);
        RemoveKeepsAgreement(digest, o, t, s, u);
      }
      if t !in members {
        return [];
      }
      var id := members[t].id;
      members := members - {t};
      var r := Revision(t, id, 2, Absent, s.cause, s.observedAt, s.recordedAt);
      Record(r);
      assert State() == ObserverSpec.Remove(o, t, s).0;
      out := [r];
    }

    method ApplySnapshot(sequence: nat, listed: seq<Txid>, recordedAt: int) returns (r: Result<seq<Revision>, SnapshotError>)
      requires Valid()
      modifies this
      ensures Valid()
      ensures (State(), r) == ObserverSpec.ApplySnapshot(digest, old(State()), sequence, (set t | t in listed), recordedAt)
    {
      var snapshot := set t | t in listed;
      ghost var o := State();
      SnapshotKeepsInv(digest, o, sequence, snapshot, recordedAt);
      if snapshotSequence.Some? {
        var current := snapshotSequence.value;
        if sequence < current {
          return Err(SnapshotSequenceRegression(current, sequence));
        }
        if sequence == current {
          return if lastSnapshotMembers == Some(snapshot) then Ok([]) else Err(SnapshotSequenceConflict(sequence));
        }
      }
      var s := Stamp(ReconciledSnapshot, None, recordedAt);
      var removals := Ordered(members.Keys - snapshot);
      var additions := Ordered(snapshot - members.Keys);
      var removed := RemoveEach(removals, s);
      var added := AddEach(additions, s);
      assert (State(), removed + added) == Converge(digest, o, snapshot, s);
      snapshotSequence := Some(sequence);
      lastSnapshotMembers := Some(snapshot);
      assert State() == ObserverSpec.ApplySnapshot(digest, o, sequence, snapshot, recordedAt).0;
      r := Ok(removed + added);
    }

    method RemoveEach(ts: seq<Txid>, s: Stamp) returns (out: seq<Revision>)
      requires Valid()
      modifies this`members, this`revisions
      ensures Valid() && (State(), out) == RemoveAll(old(State()), ts, s)
    {
      out := [];
      for i := 0 to |ts|
        invariant Valid() && (State(), out) == RemoveAll(old(State()), ts[..i], s)
      {
        assert ts[..i + 1][..i] == ts[..i];
        var more := Remove(ts[i], s);
        out := out + more;
      }
      assert ts[..|ts|] == ts;
    }

    method AddEach(ts: seq<Txid>, s: Stamp) returns (out: seq<Revision>)
      requires Valid()
      modifies this`members, this`epochCounts, this`revisions
      ensures Valid() && (State(), out) == AddAll(digest, old(State()), ts, s)
    {
      out := [];
      for i := 0 to |ts|
        invariant Valid() && (State(), out) == AddAll(digest, old(State()), ts[..i], s)
      {
        assert ts[..i + 1][..i] == ts[..i];
        var more := Add(ts[i], s);
        out := out + more;
      }
      assert ts[..|ts|] == ts;
    }
  }
}
