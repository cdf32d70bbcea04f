/** Which commits and reorganisations are accepted, and the index and revisions they lead to, said of the index, parents
    and hashes. */
module ExecutionAcceptance {
  import opened Prelude
  import opened ExecutionChain
  import opened ExecutionAncestry

  /** Each block follows the one before by number, saturating at 2^64 - 1, and by parent. */
  ghost predicate Chained(s: seq<Block>) {
    forall i {:trigger ChainedAt(s, i)} | 0 < i < |s| :: ChainedAt(s, i)
  }

  predicate ChainedAt(s: seq<Block>, i: nat)
    requires 0 < i < |s|
  {
    && s[i].parent == s[i - 1].hash
    && s[i].number == if s[i - 1].number < 0xFFFF_FFFF_FFFF_FFFF then s[i - 1].number + 1 else 0xFFFF_FFFF_FFFF_FFFF
  }

  lemma ChainedIsValid(s: seq<Block>)
    ensures Chained(s) <==> ValidSegment(s)
  {
    if Chained(s) {
      forall i | 0 <= i < |s| - 1
        ensures FollowsAt(s, i)
      {
        assert ChainedAt(s, i + 1);
      }
    }
    if ValidSegment(s) {
      forall i | 0 < i < |s|
        ensures ChainedAt(s, i)
      {
        assert FollowsAt(s, i - 1);
      }
    }
  }

  /** Block `i` is the index entry numbered `start + i`. */
  predicate EntryAt(l: Ledger, s: seq<Block>, i: nat)
    requires i < |s|
  {
    s[i].number == s[0].number + i && s[i].number in l.canonical && l.canonical[s[i].number] == s[i].hash
  }

  /** The segment is the top of the index: its blocks are the entries from its first number on, and there are no
      others. */
  ghost predicate Top(l: Ledger, s: seq<Block>) {
    && s != [] && (forall i {:trigger EntryAt(l, s, i)} | 0 <= i < |s| :: EntryAt(l, s, i))
    && (forall n | n in l.canonical :: n < s[0].number + |s|)
  }

  lemma TopIff(w: World, l: Ledger, s: seq<Block>)
    requires Good(w, l) && Identified(w, s) && ValidSegment(s) && s != []
    ensures Top(l, s) <==> l.head == Some(s[|s| - 1].hash) && AllCanonical(l, s)
  {
    if l.head.Some? {
      var base :| GoodFrom(w, l, base);
      if l.head == Some(s[|s| - 1].hash) && AllCanonical(l, s) {
        RemovedIsSuffix(w, l, base, s);
        forall i | 0 <= i < |s|
          ensures EntryAt(l, s, i)
        {
          assert IsEntry(l, s, s[0].number, i);
        }
      }
      if Top(l, s) {
        TopEndsAtHead(w, l, base, s);
      }
    } else {
      assert !EntryAt(l, s, 0);
    }
  }

  lemma TopEndsAtHead(w: World, l: Ledger, base: nat, s: seq<Block>)
    requires GoodFrom(w, l, base) && Top(l, s)
    ensures l.head == Some(s[|s| - 1].hash) && AllCanonical(l, s)
  {
    assert EntryAt(l, s, |s| - 1);
    assert Known(w, l.blocks, l.head.value);
    forall i | 0 <= i < |s|
      ensures CanonicalAt(l, s[i])
    {
      assert EntryAt(l, s, i);
    }
  }

  /** No block of the segment is the index entry at its number. */
  ghost predicate NoneIndexed(l: Ledger, s: seq<Block>) {
    forall i | 0 <= i < |s| :: !(s[i].number in l.canonical && l.canonical[s[i].number] == s[i].hash)
  }

  /** What a reorganisation needs. */
  ghost predicate Replaceable(flavor: Flavor, l: Ledger, finalized: Option<Hash>, removed: seq<Block>, added: seq<Block>) {
    && removed != [] && added != [] && Chained(removed) && Chained(added)
    && removed[0].number == added[0].number && removed[0].parent == added[0].parent
    && Top(l, removed)
    && (finalized.Some? ==> forall i | 0 <= i < |removed| :: removed[i].hash != finalized.value)
    && (flavor == Ethereum ==> NoneIndexed(l, added))
  }

  /** A reorganisation is accepted if and only if both segments are nonempty and linked and start at one number with one
      parent, the removed one is the top of the index and does not hold the finalized block, and, for Ethereum, no added
      block is the entry at its number. */
  lemma ReorgAcceptedIff(w: World, flavor: Flavor, l: Ledger, finalized: Option<Hash>, removed: seq<Block>, added: seq<Block>)
    requires Good(w, l) && Identified(w, removed) && Identified(w, added)
    ensures var (l', r) := Reorg(flavor, l, finalized, removed, added);
            (r.Ok? <==> Replaceable(flavor, l, finalized, removed, added)) && (r.Err? ==> l' == l)
  {
    ChainedIsValid(removed);
    ChainedIsValid(added);
    if removed != [] && ValidSegment(removed) {
      TopIff(w, l, removed);
    }
    assert NoneIndexed(l, added) <==> !SomeCanonical(l, added) by {
      if SomeCanonical(l, added) {
        var i :| 0 <= i < |added| && CanonicalAt(l, added[i]);
        assert added[i].number in l.canonical && l.canonical[added[i].number] == added[i].hash;
      }
    }
  }

  /** The error names the first condition that fails, in this order. */
  lemma ReorgRefusedFor(w: World, flavor: Flavor, l: Ledger, finalized: Option<Hash>, removed: seq<Block>, added: seq<Block>)
    requires Good(w, l) && Identified(w, removed) && Identified(w, added)
    ensures var r := Reorg(flavor, l, finalized, removed, added).1;
            var whole := removed != [] && added != [];
            var chained := whole && Chained(removed) && Chained(added);
            var forked := chained && removed[0].number == added[0].number && removed[0].parent == added[0].parent;
            var top := forked && Top(l, removed);
            var kept := top && (finalized.Some? ==> forall i | 0 <= i < |removed| :: removed[i].hash != finalized.value);
            && (r == Err(EmptyReorgSegment) <==> !whole)
            && (r == Err(DiscontinuousSegment) <==> whole && !chained)
            && (r == Err(ReorgAncestorMismatch) <==> chained && !forked)
            && (r == Err(MissingCanonicalHead) <==> forked && flavor == Ethereum && l.head.None?)
            && (r == Err(ReorgDoesNotMatchCanonicalSuffix) <==> forked && !top && (flavor == Ethereum ==> l.head.Some?))
            && (finalized.Some? ==> (r == Err(FinalizedReversalCritical(finalized.value)) <==> top && !kept))
            && (r == Err(ReplacementAlreadyCanonical) <==> kept && flavor == Ethereum && !NoneIndexed(l, added))
  {
    ReorgAcceptedIff(w, flavor, l, finalized, removed, added);
    ChainedIsValid(removed);
    ChainedIsValid(added);
    if removed != [] && ValidSegment(removed) {
      TopIff(w, l, removed);
    }
  }

  // ---------------------------------------------------------------- the index afterwards

  lemma {:induction false} Numbers(s: seq<Block>, i: nat)
    requires ValidSegment(s) && i < |s|
    ensures s[i].number == if s[0].number + i < U64_MAX then s[0].number + i else U64_MAX
  {
    if i > 0 {
      Numbers(s, i - 1);
      assert FollowsAt(s, i - 1);
    }
  }

  lemma FrontIsValid(s: seq<Block>)
    requires s != [] && ValidSegment(s)
    ensures ValidSegment(s[..|s| - 1])
  {
    var front := s[..|s| - 1];
    forall i | 0 <= i < |front| - 1
      ensures FollowsAt(front, i)
    {
      assert FollowsAt(s, i);
    }
  }

  /** The entry a linked segment makes at number `n`: its last block at the last number, and below that its block with
      that number. */
  ghost predicate Entered(s: seq<Block>, canonical: Index, n: nat)
    requires s != []
  {
    var last := s[|s| - 1];
    && (n == last.number ==> n in canonical && canonical[n] == last.hash)
    && (s[0].number <= n < last.number ==> n - s[0].number < |s| && n in canonical && canonical[n] == s[n - s[0].number].hash)
  }

  /** Connecting a linked segment sets the entries from its first number to its last, and no others. */
  lemma {:induction false} ConnectedIndex(l: Ledger, s: seq<Block>, n: nat)
    requires s != [] && ValidSegment(s)
    ensures var canonical := Connect(l, s).canonical;
            && Entered(s, canonical, n)
            && (n < s[0].number || s[|s| - 1].number < n ==>
                  (n in canonical <==> n in l.canonical) && (n in l.canonical ==> canonical[n] == l.canonical[n]))
    decreases |s|
  {
    var front, b := s[..|s| - 1], s[|s| - 1];
    assert Connect(l, s) == Push(Connect(l, front), b);
    Numbers(s, |s| - 1);
    if front == [] {
      assert Connect(l, front) == l;
    } else {
      FrontIsValid(s);
      ConnectedIndex(l, front, n);
      Numbers(s, |s| - 2);
    }
  }

  /** After an accepted reorganisation the index is as before below the first number, holds the added blocks from there
      on, and ends at the last of them, which is the head; everything known stays known. */
  lemma ReorgIndex(w: World, flavor: Flavor, l: Ledger, finalized: Option<Hash>, removed: seq<Block>, added: seq<Block>, n: nat)
    requires Good(w, l) && Identified(w, removed) && Identified(w, added) && Replaceable(flavor, l, finalized, removed, added)
    ensures var l' := Reorg(flavor, l, finalized, removed, added).0;
            && l'.head == Some(added[|added| - 1].hash) && Entered(added, l'.canonical, n)
            && (n < added[0].number ==> (n in l'.canonical <==> n in l.canonical) && (n in l.canonical ==> l'.canonical[n] == l.canonical[n]))
            && (added[|added| - 1].number < n ==> n !in l'.canonical)
  {
    ReorgAcceptedIff(w, flavor, l, finalized, removed, added);
    var base := ReorgAttaches(w, flavor, l, finalized, removed, added);
    var m := Disconnect(l, removed);
    ConnectedIndex(m, added, n);
    Numbers(added, |added| - 1);
  }

  // ---------------------------------------------------------------- commits

  /** The segment follows the head. */
  ghost predicate Extends(l: Ledger, s: seq<Block>)
    requires s != []
  {
    l.head.None?
    || (l.head.value in l.blocks && s[0].parent == l.blocks[l.head.value].hash
        && s[0].number == if l.blocks[l.head.value].number < 0xFFFF_FFFF_FFFF_FFFF then l.blocks[l.head.value].number + 1
                          else 0xFFFF_FFFF_FFFF_FFFF)
  }

  /** Every block is the index entry at its number. */
  ghost predicate AllIndexed(l: Ledger, s: seq<Block>) {
    forall i | 0 <= i < |s| :: s[i].number in l.canonical && l.canonical[s[i].number] == s[i].hash
  }

  /** A commit is accepted if and only if it is empty, or linked and either wholly in the index already or on top of the
      head; in the index already it changes nothing. */
  lemma CommitAcceptedIff(w: World, l: Ledger, s: seq<Block>)
    requires Good(w, l)
    ensures var (l', r) := Commit(l, s);
            && (r.Ok? <==> s == [] || (Chained(s) && (AllIndexed(l, s) || Extends(l, s))))
            && (r.Err? ==> l' == l && r == Err(if Chained(s) then SegmentDoesNotExtendHead else DiscontinuousSegment))
            && (r.Ok? && AllIndexed(l, s) ==> l' == l && r.value == [])
  {
    GoodIsKnown(w, l);
    ChainedIsValid(s);
    assert AllIndexed(l, s) <==> AllCanonical(l, s) by {
      if AllIndexed(l, s) {
        assert forall i | 0 <= i < |s| :: CanonicalAt(l, s[i]);
      }
      if AllCanonical(l, s) {
        assert forall i | 0 <= i < |s| :: CanonicalAt(l, s[i]) && s[i].number in l.canonical;
      }
    }
  }

  /** After any other accepted commit the head is its last block, and the index holds it on top of what it held. */
  lemma CommitIndex(w: World, l: Ledger, s: seq<Block>, n: nat)
    requires Good(w, l) && s != [] && Chained(s) && !AllIndexed(l, s) && Extends(l, s)
    ensures var l' := Commit(l, s).0;
            && l'.head == Some(s[|s| - 1].hash) && Entered(s, l'.canonical, n)
            && (n < s[0].number || s[|s| - 1].number < n ==>
                  (n in l'.canonical <==> n in l.canonical) && (n in l.canonical ==> l'.canonical[n] == l.canonical[n]))
  {
    CommitAcceptedIff(w, l, s);
    ChainedIsValid(s);
    var i :| 0 <= i < |s| && !(s[i].number in l.canonical && l.canonical[s[i].number] == s[i].hash);
    assert !CanonicalAt(l, s[i]);
    ConnectedIndex(l, s, n);
  }

  // ---------------------------------------------------------------- revisions

  lemma {:induction false} ConnectRevisionAt(revision: nat, s: seq<Block>, i: nat)
    ensures |ConnectRevisions(revision, s)| == |s|
    ensures i < |s| ==> ConnectRevisions(revision, s)[i] == Revision(s[i], CanonicalHead, revision + i + 1)
    decreases |s|
  {
    if s != [] {
      ConnectRevisionAt(revision, s[..|s| - 1], i);
    }
  }

  lemma {:induction false} DisconnectRevisionAt(revision: nat, s: seq<Block>, i: nat)
    ensures |DisconnectRevisions(revision, s)| == |s|
    ensures i < |s| ==> DisconnectRevisions(revision, s)[i] == Revision(s[|s| - 1 - i], Reorged, revision + i + 1)
    decreases |s|
  {
    if s != [] {
      DisconnectRevisionAt(revision + 1, s[..|s| - 1], if i == 0 then 0 else i - 1);
    }
  }

  /** A reorganisation tells of each removed block, from the head down, and then of each added one, numbered on. */
  lemma ReorgRevisions(flavor: Flavor, l: Ledger, finalized: Option<Hash>, removed: seq<Block>, added: seq<Block>, i: nat)
    requires Reorg(flavor, l, finalized, removed, added).1.Ok? && i < |removed| + |added|
    ensures var rs := Reorg(flavor, l, finalized, removed, added).1.value;
            && |rs| == |removed| + |added|
            && rs[i] == if i < |removed| then Revision(removed[|removed| - 1 - i], Reorged, l.revision + i + 1)
                        else Revision(added[i - |removed|], CanonicalHead, l.revision + i + 1)
  {
    DisconnectRevisionAt(l.revision, removed, i);
    ConnectRevisionAt(l.revision + |removed|, added, if i < |removed| then 0 else i - |removed|);
  }

  /** A commit tells of each new block, numbered on. */
  lemma CommitRevisions(l: Ledger, s: seq<Block>, i: nat)
    requires Commit(l, s).1.Ok? && !AllCanonical(l, s) && i < |s|
    ensures var rs := Commit(l, s).1.value;
            |rs| == |s| && rs[i] == Revision(s[i], CanonicalHead, l.revision + i + 1)
  {
    ConnectRevisionAt(l.revision, s, i);
  }

  // ---------------------------------------------------------------- a run

  /** Three blocks, and then a sibling in place of the last. */
  lemma SiblingReplaces(w: World, flavor: Flavor, g: Block, a: Block, b: Block, c: Block)
    requires Genuine(w, g) && Genuine(w, a) && Genuine(w, b) && Genuine(w, c)
    requires g.number == 0 && a.number == 1 && b.number == c.number == 2
    requires a.parent == g.hash && b.parent == c.parent == a.hash && b.hash != c.hash
    ensures var l := Commit(EMPTY, [g, a, b]).0;
            var (l', r) := Reorg(flavor, l, None, [b], [c]);
            && l.head == Some(b.hash) && l.canonical == map[0 := g.hash, 1 := a.hash, 2 := b.hash]
            && r == Ok([Revision(b, Reorged, 4), Revision(c, CanonicalHead, 5)])
            && l'.head == Some(c.hash) && l'.canonical == map[0 := g.hash, 1 := a.hash, 2 := c.hash]
  {
    CommitThree(g, a, b);
    var l := Commit(EMPTY, [g, a, b]).0;
    assert l.canonical == map[0 := g.hash, 1 := a.hash, 2 := b.hash];
    assert AllCanonical(l, [b]) && !SomeCanonical(l, [c]);
    assert ReorgError(flavor, l, None, [b], [c]).None?;
    assert [b][..0] == [] && [c][..0] == [];
    var cut := l.(canonical := l.canonical - {2}, revision := 4);
    assert Disconnect(l, [b]) == cut && Connect(cut, [c]) == Push(cut, c);
    assert DisconnectRevisions(3, [b]) == [Revision(b, Reorged, 4)];
    assert ConnectRevisions(4, [c]) == [Revision(c, CanonicalHead, 5)];
    assert l.revision == 3 && |[b]| == 1;
    assert [Revision(b, Reorged, 4)] + [Revision(c, CanonicalHead, 5)] == [Revision(b, Reorged, 4), Revision(c, CanonicalHead, 5)];
    assert Push(cut, c).canonical == map[0 := g.hash, 1 := a.hash, 2 := c.hash];
  }

  lemma CommitThree(g: Block, a: Block, b: Block)
    requires g.number == 0 && a.number == 1 && b.number == 2 && a.parent == g.hash && b.parent == a.hash
    ensures Commit(EMPTY, [g, a, b]).0 == Push(Push(Push(EMPTY, g), a), b)
  {
    var s := [g, a, b];
    forall i | 0 <= i < |s| - 1
      ensures FollowsAt(s, i)
    {
      assert i == 0 || i == 1;
    }
    assert !CanonicalAt(EMPTY, s[0]);
    assert s[..2] == [g, a] && [g, a][..1] == [g] && [g][..0] == [];
    assert Connect(EMPTY, [g]) == Push(EMPTY, g);
    assert Connect(EMPTY, [g, a]) == Push(Push(EMPTY, g), a);
  }
}
