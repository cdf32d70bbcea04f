/** Which checkpoints and finality observations are accepted, in ancestry, and what reorganisations keep of them. */
module FinalityAcceptance {
  import opened Prelude
  import opened ExecutionChain
  import opened ExecutionAncestry
  import opened ExecutionAcceptance
  import EthereumSpec
  import BscSpec

  /** The same block, or a descendant with a larger number. */
  ghost predicate Onward(w: World, l: Ledger, previous: Hash, next: Hash)
    requires previous in l.blocks && next in l.blocks
  {
    previous == next || (Descends(w, l.blocks, next, previous) && Number(l, previous) < Number(l, next))
  }

  lemma OnwardIff(w: World, l: Ledger, previous: Hash, next: Hash)
    requires Good(w, l) && UnderHead(w, l, previous) && OnCanonical(l, next)
    ensures Onward(w, l, previous, next) <==> Advances(l, previous, next)
  {
    if Advances(l, previous, next) {
      AdvanceDescends(w, l, previous, next);
    }
  }

  // ---------------------------------------------------------------- Ethereum

  /** What a checkpoint needs: its blocks are canonical, the first is the head and leads to the second and that to the
      third, and neither safe nor finalized moves off the line it was on. */
  ghost predicate Follows(w: World, t: EthereumSpec.Tracker, c: EthereumSpec.Checkpoint)
    requires EthereumSpec.Inv(w, t)
  {
    && OnCanonical(t.l, c.head) && OnCanonical(t.l, c.safe) && OnCanonical(t.l, c.finalized)
    && t.l.head == Some(c.head)
    && Descends(w, t.l.blocks, c.head, c.safe) && Descends(w, t.l.blocks, c.safe, c.finalized)
    && (t.finalized.Some? ==> Onward(w, t.l, t.finalized.value, c.finalized))
    && (t.safe.Some? ==> Onward(w, t.l, t.safe.value, c.safe))
  }

  /** A checkpoint is accepted if and only if it follows; it then becomes safe and finalized, and a revision tells of
      each that changed.  A refused one changes nothing. */
  lemma CheckpointAcceptedIff(w: World, t: EthereumSpec.Tracker, c: EthereumSpec.Checkpoint)
    requires EthereumSpec.Inv(w, t)
    ensures var (t', r) := EthereumSpec.ObserveCheckpoint(t, c);
            && (r.Ok? <==> Follows(w, t, c)) && (r.Err? ==> t' == t)
            && (r.Ok? ==>
                  && t'.safe == Some(c.safe) && t'.finalized == Some(c.finalized)
                  && t'.l == t.l.(revision := t.l.revision + |r.value|)
                  && (t.safe == Some(c.safe) && t.finalized == Some(c.finalized) ==> r.value == [])
                  && (t.safe != Some(c.safe) && t.finalized == Some(c.finalized) ==>
                        r.value == [Revision(t.l.blocks[c.safe], Safe, t.l.revision + 1)])
                  && (t.safe == Some(c.safe) && t.finalized != Some(c.finalized) ==>
                        r.value == [Revision(t.l.blocks[c.finalized], Finalized, t.l.revision + 1)])
                  && (t.safe != Some(c.safe) && t.finalized != Some(c.finalized) ==>
                        r.value == [Revision(t.l.blocks[c.safe], Safe, t.l.revision + 1),
                                    Revision(t.l.blocks[c.finalized], Finalized, t.l.revision + 2)]))
  {
    CheckpointOrderIff(w, t, c);
  }

  lemma CheckpointOrderIff(w: World, t: EthereumSpec.Tracker, c: EthereumSpec.Checkpoint)
    requires EthereumSpec.Inv(w, t)
    ensures EthereumSpec.CheckpointError(t, c).None? <==> Follows(w, t, c)
  {
    FoundIsCanonical(w, t.l, c.head);
    FoundIsCanonical(w, t.l, c.safe);
    FoundIsCanonical(w, t.l, c.finalized);
    if OnCanonical(t.l, c.head) && OnCanonical(t.l, c.safe) && OnCanonical(t.l, c.finalized) {
      CanonicalOrder(w, t.l, c.safe, c.head);
      CanonicalOrder(w, t.l, c.finalized, c.safe);
      if t.finalized.Some? {
        OnwardIff(w, t.l, t.finalized.value, c.finalized);
      }
      if t.safe.Some? {
        OnwardIff(w, t.l, t.safe.value, c.safe);
      }
    }
  }

  /** Why a checkpoint of canonical blocks is refused: its line, or the finalized block, or the safe one. */
  lemma CheckpointRefusedFor(w: World, t: EthereumSpec.Tracker, c: EthereumSpec.Checkpoint)
    requires EthereumSpec.Inv(w, t) && OnCanonical(t.l, c.head) && OnCanonical(t.l, c.safe) && OnCanonical(t.l, c.finalized)
    ensures var r := EthereumSpec.ObserveCheckpoint(t, c).1;
            var line := t.l.head == Some(c.head) && Descends(w, t.l.blocks, c.head, c.safe) && Descends(w, t.l.blocks, c.safe, c.finalized);
            var final := t.finalized.Some? ==> Onward(w, t.l, t.finalized.value, c.finalized);
            && (r == Err(InvalidAncestry) <==> !line)
            && (t.finalized.Some? ==> (r == Err(FinalizedReversalCritical(t.finalized.value)) <==> line && !final))
            && (t.safe.Some? ==> (r == Err(SafeCheckpointRegression) <==> line && final && !Onward(w, t.l, t.safe.value, c.safe)))
  {
    CanonicalOrder(w, t.l, c.safe, c.head);
    CanonicalOrder(w, t.l, c.finalized, c.safe);
    if t.finalized.Some? {
      OnwardIff(w, t.l, t.finalized.value, c.finalized);
    }
    if t.safe.Some? {
      OnwardIff(w, t.l, t.safe.value, c.safe);
    }
  }

  /** In every run a reorganisation is accepted if and only if it is replaceable; then finalized stays, and safe stays
      exactly when it is still canonical and is forgotten otherwise. */
  lemma EthereumReorgAcceptedIff(w: World, events: seq<EthereumSpec.Event>, removed: seq<Block>, added: seq<Block>)
    requires EthereumSpec.GenuineEvents(w, events) && Identified(w, removed) && Identified(w, added)
    ensures var t := EthereumSpec.Run(w, events);
            var (t', r) := EthereumSpec.Reorg(t, removed, added);
            && (r.Ok? <==> Replaceable(Ethereum, t.l, t.finalized, removed, added)) && (r.Err? ==> t' == t)
            && t'.finalized == t.finalized
            && (r.Ok? && t.safe.Some? ==> t'.safe == if OnCanonical(t'.l, t.safe.value) then t.safe else None)
            && (t.safe.None? ==> t'.safe.None?)
  {
    var t := EthereumSpec.Run(w, events);
    ReorgAcceptedIff(w, Ethereum, t.l, t.finalized, removed, added);
    ReorgKeeps(w, Ethereum, t.l, t.finalized, removed, added);
    var l' := EthereumSpec.Reorg(t, removed, added).0.l;
    if t.safe.Some? && t.safe.value in l'.canonical.Values {
      EthereumSpec.ValueIsCanonical(w, l', t.safe.value);
    }
    if t.safe.Some? && OnCanonical(l', t.safe.value) {
      assert l'.canonical[l'.blocks[t.safe.value].number] in l'.canonical.Values;
    }
  }

  // ---------------------------------------------------------------- BSC

  /** What an observation needs: it is newer, its blocks are canonical, the head is the head and leads to the finalized
      one, and finality does not move off the line it was on. */
  ghost predicate Finalizes(w: World, t: BscSpec.Tracker, o: BscSpec.Observation)
    requires BscSpec.Inv(w, t)
  {
    && (t.lastObserved.Some? ==> t.lastObserved.value < o.at)
    && OnCanonical(t.l, o.head) && OnCanonical(t.l, o.finalized)
    && t.l.head == Some(o.head) && Descends(w, t.l.blocks, o.head, o.finalized)
    && (t.finalized.Some? ==> Onward(w, t.l, t.finalized.value, o.finalized))
  }

  /** An observation is accepted if and only if it finalizes; the time of change moves only with the finalized block. */
  lemma ObservationAcceptedIff(w: World, t: BscSpec.Tracker, o: BscSpec.Observation)
    requires BscSpec.Inv(w, t)
    ensures var (t', r) := BscSpec.ObserveFinalized(t, o);
            && (r.Ok? <==> Finalizes(w, t, o)) && (r.Err? ==> t' == t)
            && (r.Ok? ==>
                  && t'.finalized == Some(o.finalized) && t'.lastObserved == Some(o.at)
                  && (t'.lastChange == if t.finalized == Some(o.finalized) then t.lastChange else Some(o.at))
                  && t'.l == t.l.(revision := t.l.revision + 1)
                  && r.value == [Revision(t.l.blocks[o.finalized], Finalized, t.l.revision + 1)])
  {
    FoundIsCanonical(w, t.l, o.head);
    FoundIsCanonical(w, t.l, o.finalized);
    if OnCanonical(t.l, o.head) && OnCanonical(t.l, o.finalized) {
      CanonicalOrder(w, t.l, o.finalized, o.head);
      if t.finalized.Some? {
        OnwardIff(w, t.l, t.finalized.value, o.finalized);
      }
    }
  }

  /** In every run a BSC reorganisation is accepted if and only if it is replaceable; finality and its times stay. */
  lemma BscReorgAcceptedIff(w: World, events: seq<BscSpec.Event>, removed: seq<Block>, added: seq<Block>)
    requires BscSpec.GenuineEvents(w, events) && Identified(w, removed) && Identified(w, added)
    ensures var t := BscSpec.Run(w, events);
            var (t', r) := BscSpec.Reorg(t, removed, added);
            && (r.Ok? <==> Replaceable(Bsc, t.l, t.finalized, removed, added))
            && t' == t.(l := t'.l) && (r.Err? ==> t' == t)
  {
    var t := BscSpec.Run(w, events);
    ReorgAcceptedIff(w, Bsc, t.l, t.finalized, removed, added);
  }

  /** Commits are accepted alike by both, and touch neither checkpoints nor times. */
  lemma CommitsAcceptedIff(w: World, t: EthereumSpec.Tracker, b: BscSpec.Tracker, s: seq<Block>)
    requires EthereumSpec.Inv(w, t) && BscSpec.Inv(w, b)
    ensures var (t', r) := EthereumSpec.Commit(t, s);
            && (r.Ok? <==> s == [] || (Chained(s) && (AllIndexed(t.l, s) || Extends(t.l, s)))) && t' == t.(l := t'.l)
    ensures var (b', r) := BscSpec.Commit(b, s);
            && (r.Ok? <==> s == [] || (Chained(s) && (AllIndexed(b.l, s) || Extends(b.l, s)))) && b' == b.(l := b'.l)
  {
    CommitAcceptedIff(w, t.l, s);
    CommitAcceptedIff(w, b.l, s);
  }
}
