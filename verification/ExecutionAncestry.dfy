/** The invariant of the canonical index under every commit and reorganisation: it is a contiguous run of
    numbers up to the head, and by parent links the head reaches each of its blocks.  Numbers saturate at the
    top, so several linked blocks can carry the largest one; the invariant holds for them too. */
module ExecutionAncestry {
  import opened Prelude
  import opened ExecutionChain

  // ---------------------------------------------------------------- genuine blocks

  /** Which block a hash stands for, and an order in which hashes come about: a block's hash is computed from
      its parent's. */
  datatype World = World(block: Hash -> Block, rank: Hash -> nat)

  ghost predicate Genuine(w: World, b: Block) {
    b == w.block(b.hash) && w.rank(b.parent) < w.rank(b.hash)
  }

  /** Blocks as the trackers receive them. */
  ghost predicate Identified(w: World, s: seq<Block>) {
    forall i | 0 <= i < |s| :: Genuine(w, s[i])
  }

  ghost predicate Known(w: World, blocks: Blocks, h: Hash)
    requires h in blocks
  {
    Genuine(w, blocks[h]) && blocks[h].hash == h
  }

  ghost predicate AllKnown(w: World, blocks: Blocks) {
    forall h {:trigger Known(w, blocks, h)} | h in blocks :: Known(w, blocks, h)
  }

  // ---------------------------------------------------------------- ancestry

  /** The parent is known and the number follows it. */
  predicate Linked(blocks: Blocks, h: Hash)
    requires h in blocks
  {
    blocks[h].parent in blocks && blocks[h].number == SaturatingSucc(blocks[blocks[h].parent].number)
  }

  /** From `d`, following parents leads to `a`. */
  ghost predicate Reaches(w: World, blocks: Blocks, d: Hash, a: Hash)
    requires AllKnown(w, blocks)
    decreases w.rank(d)
  {
    d in blocks && (d == a || (Linked(blocks, d) && ParentReaches(w, blocks, d, a)))
  }

  ghost predicate ParentReaches(w: World, blocks: Blocks, d: Hash, a: Hash)
    requires AllKnown(w, blocks) && d in blocks
    decreases w.rank(d), 0
  {
    assert Known(w, blocks, d);
    Reaches(w, blocks, blocks[d].parent, a)
  }

  lemma {:induction false} ReachesTrans(w: World, blocks: Blocks, d: Hash, m: Hash, a: Hash)
    requires AllKnown(w, blocks) && Reaches(w, blocks, d, m) && Reaches(w, blocks, m, a)
    ensures Reaches(w, blocks, d, a)
    decreases w.rank(d)
  {
    if d != m {
      assert Known(w, blocks, d);
      ReachesTrans(w, blocks, blocks[d].parent, m, a);
    }
  }

  /** Numbers fall along parents, except among blocks that carry the largest one. */
  lemma {:induction false} ReachesFalls(w: World, blocks: Blocks, d: Hash, a: Hash)
    requires AllKnown(w, blocks) && Reaches(w, blocks, d, a)
    ensures a in blocks && blocks[a].number <= blocks[d].number
    ensures d != a && blocks[d].number < U64_MAX ==> blocks[a].number < blocks[d].number
    decreases w.rank(d)
  {
    if d != a {
      assert Known(w, blocks, d);
      ReachesFalls(w, blocks, blocks[d].parent, a);
    }
  }

  /** Below the largest number, a block has one ancestor per number. */
  lemma {:induction false} ReachesUnique(w: World, blocks: Blocks, d: Hash, a: Hash, b: Hash)
    requires AllKnown(w, blocks) && Reaches(w, blocks, d, a) && Reaches(w, blocks, d, b)
    requires a in blocks && b in blocks && blocks[a].number == blocks[b].number < U64_MAX
    ensures a == b
    decreases w.rank(d)
  {
    if d == a {
      ReachesFalls(w, blocks, d, b);
    } else if d == b {
      ReachesFalls(w, blocks, d, a);
    } else {
      assert Known(w, blocks, d);
      ReachesUnique(w, blocks, blocks[d].parent, a, b);
    }
  }

  /** Everything known stays known. */
  ghost predicate Grows(blocks: Blocks, blocks': Blocks) {
    forall h | h in blocks :: h in blocks' && blocks'[h] == blocks[h]
  }

  lemma {:induction false} ReachesStable(w: World, blocks: Blocks, blocks': Blocks, d: Hash, a: Hash)
    requires AllKnown(w, blocks) && AllKnown(w, blocks') && Grows(blocks, blocks') && Reaches(w, blocks, d, a)
    ensures Reaches(w, blocks', d, a)
    decreases w.rank(d)
  {
    if d != a {
      assert Known(w, blocks, d);
      ReachesStable(w, blocks, blocks', blocks[d].parent, a);
    }
  }

  /** `Reaches`, with what it needs. */
  ghost predicate Descends(w: World, blocks: Blocks, d: Hash, a: Hash) {
    AllKnown(w, blocks) && Reaches(w, blocks, d, a)
  }

  // ---------------------------------------------------------------- the invariant

  /** Above the base every block is linked. */
  ghost predicate Based(blocks: Blocks, base: nat, h: Hash)
    requires h in blocks
  {
    base <= blocks[h].number && (base < blocks[h].number ==> Linked(blocks, h))
  }

  ghost predicate Sane(w: World, blocks: Blocks, base: nat) {
    AllKnown(w, blocks) && forall h {:trigger Based(blocks, base, h)} | h in blocks :: Based(blocks, base, h)
  }

  ghost predicate Entry(w: World, l: Ledger, base: nat, n: nat)
    requires AllKnown(w, l.blocks) && n in l.canonical
  {
    && l.canonical[n] in l.blocks && l.blocks[l.canonical[n]].number == n
    && (base < n ==> n - 1 in l.canonical && Reaches(w, l.blocks, l.canonical[n], l.canonical[n - 1]))
  }

  /** The canonical index holds the numbers `base..end`, and each of its blocks reaches the one below. */
  ghost predicate RunTo(w: World, l: Ledger, base: nat, end: nat)
    requires AllKnown(w, l.blocks)
  {
    && base <= end
    && (forall n {:trigger n in l.canonical} :: n in l.canonical <==> base <= n < end)
    && (forall n {:trigger Entry(w, l, base, n)} | n in l.canonical :: Entry(w, l, base, n))
  }

  ghost predicate GoodFrom(w: World, l: Ledger, base: nat) {
    && Sane(w, l.blocks, base)
    && l.head.Some? && l.head.value in l.blocks
    && RunTo(w, l, base, Number(l, l.head.value) + 1) && CanonicalAt(l, l.blocks[l.head.value])
  }

  /** Nothing yet, or a run that ends at the head. */
  ghost predicate Good(w: World, l: Ledger) {
    match l.head
    case None => l.blocks == map[] && l.canonical == map[]
    case Some(_) => exists base :: GoodFrom(w, l, base)
  }

  lemma GoodIsKnown(w: World, l: Ledger)
    requires Good(w, l)
    ensures AllKnown(w, l.blocks) && (l.head.Some? ==> l.head.value in l.blocks)
  {
    if l.head.Some? {
      var base :| GoodFrom(w, l, base);
    }
  }

  /** A known block that is in the canonical index. */
  predicate OnCanonical(l: Ledger, h: Hash) {
    h in l.blocks && CanonicalAt(l, l.blocks[h]) && l.blocks[h].hash == h
  }

  /** By parent links the head leads to the block. */
  ghost predicate UnderHead(w: World, l: Ledger, a: Hash) {
    l.head.Some? && a in l.blocks && Descends(w, l.blocks, l.head.value, a)
  }

  lemma FoundIsCanonical(w: World, l: Ledger, h: Hash)
    requires Good(w, l)
    ensures LookupError(l, h).None? <==> OnCanonical(l, h)
  {
    GoodIsKnown(w, l);
    assert h in l.blocks ==> Known(w, l.blocks, h);
  }

  /** Each canonical block reaches all the canonical blocks below it. */
  lemma {:induction false} CanonicalWalk(w: World, l: Ledger, base: nat, m: nat, n: nat)
    requires AllKnown(w, l.blocks) && m in l.canonical && base <= n <= m
    requires forall k {:trigger Entry(w, l, base, k)} | k in l.canonical :: Entry(w, l, base, k)
    ensures n in l.canonical && Reaches(w, l.blocks, l.canonical[m], l.canonical[n])
    decreases m
  {
    assert Entry(w, l, base, m);
    if n < m {
      CanonicalWalk(w, l, base, m - 1, n);
      ReachesTrans(w, l.blocks, l.canonical[m], l.canonical[m - 1], l.canonical[n]);
    }
  }

  /** The head reaches every canonical block. */
  lemma HeadReaches(w: World, l: Ledger, h: Hash)
    requires Good(w, l) && OnCanonical(l, h)
    ensures UnderHead(w, l, h)
  {
    var base :| GoodFrom(w, l, base);
    assert Known(w, l.blocks, l.head.value);
    CanonicalWalk(w, l, base, Number(l, l.head.value), Number(l, h));
  }

  /** Among canonical blocks, ancestry is the order of numbers. */
  lemma CanonicalOrder(w: World, l: Ledger, a: Hash, d: Hash)
    requires Good(w, l) && OnCanonical(l, a) && OnCanonical(l, d)
    ensures Descends(w, l.blocks, d, a) <==> Number(l, a) <= Number(l, d)
  {
    var base :| GoodFrom(w, l, base);
    if Number(l, a) <= Number(l, d) {
      CanonicalWalk(w, l, base, Number(l, d), Number(l, a));
    }
    if Reaches(w, l.blocks, d, a) {
      ReachesFalls(w, l.blocks, d, a);
    }
  }

  /** An ancestor of the head is canonical exactly when its number is not the largest one or it is the
      head itself. */
  lemma AncestorIsCanonicalIff(w: World, l: Ledger, a: Hash)
    requires Good(w, l) && UnderHead(w, l, a)
    ensures OnCanonical(l, a) <==> Number(l, a) < U64_MAX || l.head == Some(a)
  {
    var base :| GoodFrom(w, l, base);
    var head := l.head.value;
    ReachesFalls(w, l.blocks, head, a);
    assert Known(w, l.blocks, a) && Known(w, l.blocks, head) && Based(l.blocks, base, a);
    if Number(l, a) < U64_MAX {
      CanonicalWalk(w, l, base, Number(l, head), Number(l, a));
      assert Entry(w, l, base, Number(l, a));
      ReachesUnique(w, l.blocks, head, a, l.canonical[Number(l, a)]);
    }
  }

  /** In the index, a block below the largest number has its predecessor as parent. */
  lemma EntryIsChild(w: World, l: Ledger, base: nat, n: nat)
    requires GoodFrom(w, l, base) && n in l.canonical && base < n < U64_MAX
    ensures Entry(w, l, base, n) && l.blocks[l.canonical[n]].parent == l.canonical[n - 1]
  {
    assert Entry(w, l, base, n) && Entry(w, l, base, n - 1);
    var h, p := l.canonical[n], l.canonical[n - 1];
    assert Known(w, l.blocks, h) && Based(l.blocks, base, h);
    var q := l.blocks[h].parent;
    assert ParentReaches(w, l.blocks, h, p);
    if q != p {
      ReachesFalls(w, l.blocks, q, p);
    }
  }

  /** The index has no gaps, and below the largest number it is linked by parents. */
  lemma IndexIsLinked(w: World, l: Ledger, m: nat, n: nat)
    requires Good(w, l) && m in l.canonical && n in l.canonical && m < n
    ensures n - 1 in l.canonical && l.canonical[n] in l.blocks && Number(l, l.canonical[n]) == n
    ensures n < U64_MAX ==> l.blocks[l.canonical[n]].parent == l.canonical[n - 1]
  {
    var base :| GoodFrom(w, l, base);
    assert Entry(w, l, base, n);
    if n < U64_MAX {
      EntryIsChild(w, l, base, n);
    }
  }

  // ---------------------------------------------------------------- pushing

  /** A block that can become the head: its number ends the run, or is the largest one again; its parent is
      known and reaches the block below. */
  ghost predicate Attaches(w: World, l: Ledger, base: nat, b: Block) {
    && Sane(w, l.blocks, base) && Genuine(w, b)
    && (RunTo(w, l, base, b.number) || (b.number == U64_MAX && RunTo(w, l, base, b.number + 1)))
    && (base < b.number ==>
          && b.parent in l.blocks && b.number == SaturatingSucc(l.blocks[b.parent].number)
          && b.number - 1 in l.canonical && Reaches(w, l.blocks, b.parent, l.canonical[b.number - 1]))
    && base <= b.number
  }

  lemma PushKeepsBlocks(w: World, l: Ledger, base: nat, b: Block)
    requires Attaches(w, l, base, b)
    ensures Sane(w, Push(l, b).blocks, base) && Grows(l.blocks, Push(l, b).blocks)
  {
    var blocks' := Push(l, b).blocks;
    assert b.hash in l.blocks ==> Known(w, l.blocks, b.hash);
    forall h | h in blocks'
      ensures Known(w, blocks', h)
    {
      assert h in l.blocks ==> Known(w, l.blocks, h);
    }
    forall h | h in blocks'
      ensures Based(blocks', base, h)
    {
      assert h in l.blocks ==> Based(l.blocks, base, h);
    }
  }

  lemma PushKeepsEntry(w: World, l: Ledger, base: nat, b: Block, n: nat)
    requires Attaches(w, l, base, b) && n in Push(l, b).canonical
    requires Sane(w, Push(l, b).blocks, base) && Grows(l.blocks, Push(l, b).blocks)
    ensures Entry(w, Push(l, b), base, n)
  {
    var l' := Push(l, b);
    if n != b.number {
      assert Entry(w, l, base, n);
      if base < n {
        ReachesStable(w, l.blocks, l'.blocks, l.canonical[n], l.canonical[n - 1]);
      }
    } else if base < n {
      ReachesStable(w, l.blocks, l'.blocks, b.parent, l.canonical[n - 1]);
      assert Based(l'.blocks, base, b.hash);
      assert ParentReaches(w, l'.blocks, b.hash, l.canonical[n - 1]);
    }
  }

  lemma PushKeeps(w: World, l: Ledger, base: nat, b: Block)
    requires Attaches(w, l, base, b)
    ensures GoodFrom(w, Push(l, b), base)
  {
    var l' := Push(l, b);
    PushKeepsBlocks(w, l, base, b);
    forall n | n in l'.canonical
      ensures Entry(w, l', base, n)
    {
      PushKeepsEntry(w, l, base, b, n);
    }
  }

  /** What follows the head can become the head. */
  lemma FollowerAttaches(w: World, l: Ledger, base: nat, b: Block)
    requires GoodFrom(w, l, base) && Genuine(w, b) && Follows(l.blocks[l.head.value], b)
    ensures Attaches(w, l, base, b)
  {
    var head := l.head.value;
    assert Known(w, l.blocks, head) && Based(l.blocks, base, head) && Entry(w, l, base, Number(l, head));
  }

  lemma SegmentFront(w: World, s: seq<Block>)
    requires |s| > 1 && Identified(w, s) && ValidSegment(s)
    ensures Identified(w, s[..|s| - 1]) && ValidSegment(s[..|s| - 1])
  {
    var front := s[..|s| - 1];
    forall i | 0 <= i < |front| - 1
      ensures FollowsAt(front, i)
    {
      assert FollowsAt(s, i);
    }
  }

  /** Connecting a segment makes its last block the head, which reaches its first. */
  lemma {:induction false} ConnectKeeps(w: World, l: Ledger, base: nat, s: seq<Block>)
    requires s != [] && Attaches(w, l, base, s[0]) && Identified(w, s) && ValidSegment(s)
    ensures var l' := Connect(l, s);
            && GoodFrom(w, l', base) && Grows(l.blocks, l'.blocks) && l'.head == Some(s[|s| - 1].hash)
            && s[0].hash in l'.blocks && l'.blocks[s[0].hash] == s[0]
            && Reaches(w, l'.blocks, s[|s| - 1].hash, s[0].hash)
    decreases |s|
  {
    var front, b := s[..|s| - 1], s[|s| - 1];
    if front == [] {
      assert Connect(l, front) == l;
      PushKeepsBlocks(w, l, base, b);
      PushKeeps(w, l, base, b);
    } else {
      var m := Connect(l, front);
      SegmentFront(w, s);
      ConnectKeeps(w, l, base, front);
      assert FollowsAt(s, |s| - 2);
      LastIsKnown(l, front);
      FollowerAttaches(w, m, base, b);
      PushKeepsBlocks(w, m, base, b);
      PushKeeps(w, m, base, b);
      PushedReaches(w, m, base, b, s[0].hash);
    }
  }

  lemma LastIsKnown(l: Ledger, s: seq<Block>)
    requires s != []
    ensures s[|s| - 1].hash in Connect(l, s).blocks && Connect(l, s).blocks[s[|s| - 1].hash] == s[|s| - 1]
  {
  }

  /** A new head on top of the old one reaches what the old one did. */
  lemma PushedReaches(w: World, l: Ledger, base: nat, b: Block, a: Hash)
    requires GoodFrom(w, l, base) && Genuine(w, b) && Follows(l.blocks[l.head.value], b)
    requires Reaches(w, l.blocks, l.head.value, a)
    requires Sane(w, Push(l, b).blocks, base) && Grows(l.blocks, Push(l, b).blocks)
    ensures Reaches(w, Push(l, b).blocks, b.hash, a)
  {
    var blocks' := Push(l, b).blocks;
    assert Known(w, l.blocks, l.head.value);
    ReachesStable(w, l.blocks, blocks', l.head.value, a);
    assert Linked(blocks', b.hash) && ParentReaches(w, blocks', b.hash, a);
  }

  // ---------------------------------------------------------------- committing

  /** A commit keeps the invariant, everything known, and every ancestor of the head. */
  lemma CommitKeeps(w: World, l: Ledger, s: seq<Block>)
    requires Good(w, l) && Identified(w, s)
    ensures var l' := Commit(l, s).0; Good(w, l') && Grows(l.blocks, l'.blocks)
  {
    if s != [] && CommitError(l, s).None? && !AllCanonical(l, s) {
      var base := CommitAttaches(w, l, s);
      ConnectKeeps(w, l, base, s);
    }
  }

  lemma CommitAttaches(w: World, l: Ledger, s: seq<Block>) returns (base: nat)
    requires Good(w, l) && Identified(w, s) && s != [] && CommitError(l, s).None? && !AllCanonical(l, s)
    ensures Attaches(w, l, base, s[0]) && (l.head.Some? ==> GoodFrom(w, l, base))
  {
    if l.head.None? {
      base := s[0].number;
    } else {
      base :| GoodFrom(w, l, base);
      FollowerAttaches(w, l, base, s[0]);
    }
  }

  lemma CommitKeepsAncestor(w: World, l: Ledger, s: seq<Block>, a: Hash)
    requires Good(w, l) && Identified(w, s) && UnderHead(w, l, a)
    ensures UnderHead(w, Commit(l, s).0, a)
  {
    if s != [] && CommitError(l, s).None? && !AllCanonical(l, s) {
      var base := CommitAttaches(w, l, s);
      ConnectKeeps(w, l, base, s);
      var blocks' := Connect(l, s).blocks;
      ReachesStable(w, l.blocks, blocks', l.head.value, a);
      assert Known(w, l.blocks, l.head.value);
      assert Linked(blocks', s[0].hash) && ParentReaches(w, blocks', s[0].hash, a);
      ReachesTrans(w, blocks', s[|s| - 1].hash, s[0].hash, a);
    }
  }

  // ---------------------------------------------------------------- reorganising

  lemma {:induction false} Rises(s: seq<Block>, i: nat)
    requires ValidSegment(s) && Unsaturated(s) && i < |s|
    ensures s[i].number == s[0].number + i
  {
    if i > 0 {
      Rises(s, i - 1);
      assert FollowsAt(s, i - 1);
    }
  }

  function Below(canonical: Index, end: nat): Index {
    map n | n in canonical && n < end :: canonical[n]
  }

  /** Removing the top blocks one by one cuts the index at the first of them. */
  lemma {:induction false} DisconnectCuts(l: Ledger, s: seq<Block>, start: nat)
    requires forall i | 0 <= i < |s| :: s[i].number == start + i
    requires forall n | n in l.canonical :: n < start + |s|
    ensures Disconnect(l, s) == l.(canonical := Below(l.canonical, start), revision := l.revision + |s|)
    decreases |s|
  {
    if s == [] {
      assert Below(l.canonical, start) == l.canonical;
    } else {
      var cut := l.(canonical := l.canonical - {s[|s| - 1].number}, revision := l.revision + 1);
      DisconnectCuts(cut, s[..|s| - 1], start);
      assert Below(cut.canonical, start) == Below(l.canonical, start);
    }
  }

  /** Of linked canonical blocks, only the last can carry the largest number: it is in the index once. */
  lemma CanonicalSegmentRises(w: World, l: Ledger, s: seq<Block>)
    requires Identified(w, s) && ValidSegment(s) && AllCanonical(l, s)
    ensures Unsaturated(s)
  {
    forall i | 0 <= i < |s| - 1
      ensures s[i].number < U64_MAX
    {
      assert FollowsAt(s, i) && CanonicalAt(l, s[i]) && CanonicalAt(l, s[i + 1]);
    }
  }

  /** Block `i` of the segment is the canonical block numbered `start + i`. */
  ghost predicate IsEntry(l: Ledger, s: seq<Block>, start: nat, i: nat)
    requires i < |s|
  {
    && s[i].number == start + i && start + i in l.canonical && l.canonical[start + i] == s[i].hash
    && s[i].hash in l.blocks && l.blocks[s[i].hash] == s[i]
  }

  /** A canonical segment that ends at the head is the top of the run. */
  ghost predicate Suffix(l: Ledger, s: seq<Block>) {
    && s != [] && l.head == Some(s[|s| - 1].hash)
    && forall i {:trigger IsEntry(l, s, s[0].number, i)} | 0 <= i < |s| :: IsEntry(l, s, s[0].number, i)
  }

  lemma RemovedIsSuffix(w: World, l: Ledger, base: nat, s: seq<Block>)
    requires GoodFrom(w, l, base) && Identified(w, s) && ValidSegment(s) && AllCanonical(l, s)
    requires s != [] && l.head == Some(s[|s| - 1].hash)
    ensures Suffix(l, s) && base <= s[0].number && s[0].number + |s| == Number(l, l.head.value) + 1
  {
    CanonicalSegmentRises(w, l, s);
    forall i | 0 <= i < |s|
      ensures IsEntry(l, s, s[0].number, i)
    {
      assert CanonicalAt(l, s[i]);
      assert Entry(w, l, base, s[i].number) && Known(w, l.blocks, s[i].hash);
      Rises(s, i);
    }
    assert IsEntry(l, s, s[0].number, |s| - 1);
    assert IsEntry(l, s, s[0].number, 0);
  }

  lemma SuffixCuts(l: Ledger, s: seq<Block>)
    requires Suffix(l, s) && forall n | n in l.canonical :: n < s[0].number + |s|
    ensures Disconnect(l, s) == l.(canonical := Below(l.canonical, s[0].number), revision := l.revision + |s|)
  {
    forall i | 0 <= i < |s|
      ensures s[i].number == s[0].number + i
    {
      assert IsEntry(l, s, s[0].number, i);
    }
    DisconnectCuts(l, s, s[0].number);
  }

  lemma CutRun(w: World, l: Ledger, base: nat, end: nat, start: nat, m: Ledger)
    requires AllKnown(w, l.blocks) && RunTo(w, l, base, end) && base <= start <= end
    requires m.blocks == l.blocks && m.canonical == Below(l.canonical, start)
    ensures RunTo(w, m, base, start)
  {
    forall n | n in m.canonical
      ensures Entry(w, m, base, n)
    {
      assert Entry(w, l, base, n);
    }
  }

  /** After the removal, the replacement attaches where the removed segment did. */
  lemma ReplacementAttaches(w: World, l: Ledger, base: nat, removed: seq<Block>, b: Block, m: Ledger)
    requires GoodFrom(w, l, base) && Suffix(l, removed) && base <= removed[0].number && Genuine(w, b)
    requires b.number == removed[0].number && b.parent == removed[0].parent
    requires m.blocks == l.blocks && m.canonical == Below(l.canonical, b.number)
    ensures Attaches(w, m, base, b)
  {
    var start := removed[0].number;
    assert IsEntry(l, removed, start, 0);
    CutRun(w, l, base, Number(l, l.head.value) + 1, start, m);
    assert Entry(w, l, base, start) && Based(l.blocks, base, removed[0].hash);
    if base < start {
      assert Entry(w, l, base, start - 1);
      assert ParentReaches(w, l.blocks, removed[0].hash, l.canonical[start - 1]);
    }
  }

  /** A reorganisation keeps the invariant and everything known; its result is the removed segment cut off
      and the added one connected. */
  lemma ReorgAttaches(w: World, flavor: Flavor, l: Ledger, finalized: Option<Hash>, removed: seq<Block>, added: seq<Block>)
    returns (base: nat)
    requires Good(w, l) && Identified(w, removed) && Identified(w, added)
    requires ReorgError(flavor, l, finalized, removed, added).None?
    ensures GoodFrom(w, l, base) && Suffix(l, removed) && base <= removed[0].number
    ensures var m := Disconnect(l, removed);
            && m.blocks == l.blocks && m.canonical == Below(l.canonical, removed[0].number)
            && Attaches(w, m, base, added[0])
  {
    base :| GoodFrom(w, l, base);
    RemovedIsSuffix(w, l, base, removed);
    SuffixCuts(l, removed);
    ReplacementAttaches(w, l, base, removed, added[0], Disconnect(l, removed));
  }

  lemma ReorgKeeps(w: World, flavor: Flavor, l: Ledger, finalized: Option<Hash>, removed: seq<Block>, added: seq<Block>)
    requires Good(w, l) && Identified(w, removed) && Identified(w, added)
    ensures var l' := Reorg(flavor, l, finalized, removed, added).0; Good(w, l') && Grows(l.blocks, l'.blocks)
  {
    if ReorgError(flavor, l, finalized, removed, added).None? {
      var base := ReorgAttaches(w, flavor, l, finalized, removed, added);
      ConnectKeeps(w, Disconnect(l, removed), base, added);
    }
  }

  /** Past the blocks of a suffix, what the head reaches is reached from below them. */
  lemma {:induction false} ReachedBelow(w: World, l: Ledger, s: seq<Block>, k: nat, a: Hash)
    requires AllKnown(w, l.blocks) && Suffix(l, s) && ValidSegment(s) && k < |s| && !SomeHash(s, a)
    requires Reaches(w, l.blocks, s[k].hash, a)
    ensures IsEntry(l, s, s[0].number, 0) && Linked(l.blocks, s[0].hash) && Reaches(w, l.blocks, s[0].parent, a)
    decreases k
  {
    assert IsEntry(l, s, s[0].number, k);
    assert ParentReaches(w, l.blocks, s[k].hash, a);
    if k > 0 {
      assert FollowsAt(s, k - 1);
      ReachedBelow(w, l, s, k - 1, a);
    }
  }

  /** A reorganisation keeps every ancestor of the head that it does not remove. */
  lemma ReorgKeepsAncestor(w: World, flavor: Flavor, l: Ledger, finalized: Option<Hash>,
                           removed: seq<Block>, added: seq<Block>, a: Hash)
    requires Good(w, l) && Identified(w, removed) && Identified(w, added)
    requires ReorgError(flavor, l, finalized, removed, added).None?
    requires UnderHead(w, l, a) && !SomeHash(removed, a)
    ensures UnderHead(w, Reorg(flavor, l, finalized, removed, added).0, a)
  {
    var base := ReorgAttaches(w, flavor, l, finalized, removed, added);
    var m := Disconnect(l, removed);
    ConnectKeeps(w, m, base, added);
    ReachedBelow(w, l, removed, |removed| - 1, a);
    var blocks' := Connect(m, added).blocks;
    ReachesStable(w, l.blocks, blocks', removed[0].parent, a);
    assert Linked(blocks', added[0].hash) && ParentReaches(w, blocks', added[0].hash, a);
    ReachesTrans(w, blocks', added[|added| - 1].hash, added[0].hash, a);
  }

  /** The canonical blocks that a reorganisation removes are those from its first number on; the others stay. */
  lemma UnremovedStays(w: World, flavor: Flavor, l: Ledger, finalized: Option<Hash>,
                       removed: seq<Block>, added: seq<Block>, h: Hash)
    requires Good(w, l) && Identified(w, removed) && Identified(w, added)
    requires ReorgError(flavor, l, finalized, removed, added).None? && OnCanonical(l, h)
    ensures SomeHash(removed, h) <==> removed[0].number <= Number(l, h)
    ensures !SomeHash(removed, h) ==> OnCanonical(Reorg(flavor, l, finalized, removed, added).0, h)
  {
    RemovedFrom(w, flavor, l, finalized, removed, added, h);
    if !SomeHash(removed, h) {
      HeadReaches(w, l, h);
      ReorgKeeps(w, flavor, l, finalized, removed, added);
      ReorgKeepsAncestor(w, flavor, l, finalized, removed, added, h);
      AncestorIsCanonicalIff(w, Reorg(flavor, l, finalized, removed, added).0, h);
    }
  }

  lemma RemovedFrom(w: World, flavor: Flavor, l: Ledger, finalized: Option<Hash>,
                    removed: seq<Block>, added: seq<Block>, h: Hash)
    requires Good(w, l) && Identified(w, removed) && Identified(w, added)
    requires ReorgError(flavor, l, finalized, removed, added).None? && OnCanonical(l, h)
    ensures SomeHash(removed, h) <==> removed[0].number <= Number(l, h)
  {
    var base := ReorgAttaches(w, flavor, l, finalized, removed, added);
    RemovedIsSuffix(w, l, base, removed);
    var n, start := Number(l, h), removed[0].number;
    if start <= n {
      assert IsEntry(l, removed, start, n - start);
    }
    if SomeHash(removed, h) {
      var i :| 0 <= i < |removed| && removed[i].hash == h;
      assert IsEntry(l, removed, start, i);
    }
  }

  lemma UnderUnder(w: World, l: Ledger, m: Hash, a: Hash)
    requires UnderHead(w, l, m) && Descends(w, l.blocks, m, a)
    ensures UnderHead(w, l, a)
  {
    ReachesTrans(w, l.blocks, l.head.value, m, a);
    ReachesFalls(w, l.blocks, m, a);
  }

  /** A later block is still a descendant when more blocks are known. */
  lemma DescendsStable(w: World, l: Ledger, l': Ledger, d: Hash, a: Hash)
    requires Good(w, l') && Grows(l.blocks, l'.blocks) && Descends(w, l.blocks, d, a)
    ensures Descends(w, l'.blocks, d, a)
  {
    GoodIsKnown(w, l');
    ReachesStable(w, l.blocks, l'.blocks, d, a);
  }

  /** What a newly finalized block has to do with the one before: it is the same, or a strict descendant. */
  lemma AdvanceDescends(w: World, l: Ledger, previous: Hash, next: Hash)
    requires Good(w, l) && UnderHead(w, l, previous) && OnCanonical(l, next) && Advances(l, previous, next)
    ensures Descends(w, l.blocks, next, previous)
  {
    if previous != next {
      AncestorIsCanonicalIff(w, l, previous);
      CanonicalOrder(w, l, previous, next);
    }
  }

  /** A new counter changes nothing. */
  lemma RenumberKeeps(w: World, l: Ledger, revision: nat)
    requires Good(w, l)
    ensures Good(w, l.(revision := revision))
  {
    if l.head.Some? {
      var base :| GoodFrom(w, l, base);
      var l' := l.(revision := revision);
      forall n | n in l'.canonical
        ensures Entry(w, l', base, n)
      {
        assert Entry(w, l, base, n);
      }
      assert GoodFrom(w, l', base);
    }
  }

  // ---------------------------------------------------------------- saturation

  /** Numbers of a segment on top of a head, none of them the largest except possibly the last. */
  predicate FitsAbove(l: Ledger, s: seq<Block>) {
    (l.head.Some? ==> l.head.value in l.blocks && Number(l, l.head.value) < U64_MAX) && Unsaturated(s)
  }

  lemma PutCount(m: Index, n: nat, h: Hash)
    ensures |m[n := h]| == if n in m then |m| else |m| + 1
  {
    assert m[n := h].Keys == m.Keys + {n};
  }

  lemma {:induction false} ConnectAtMost(l: Ledger, s: seq<Block>)
    ensures |Connect(l, s).canonical| <= |l.canonical| + |s|
    decreases |s|
  {
    if s != [] {
      ConnectAtMost(l, s[..|s| - 1]);
      PutCount(Connect(l, s[..|s| - 1]).canonical, s[|s| - 1].number, s[|s| - 1].hash);
    }
  }

  lemma {:induction false} ConnectAddsEach(l: Ledger, s: seq<Block>)
    requires s != [] && ValidSegment(s) && Unsaturated(s) && forall n | n in l.canonical :: n < s[0].number
    ensures |Connect(l, s).canonical| == |l.canonical| + |s|
    ensures forall n | n in Connect(l, s).canonical :: n < s[0].number + |s|
    decreases |s|
  {
    var front, b := s[..|s| - 1], s[|s| - 1];
    Rises(s, |s| - 1);
    if front != [] {
      forall i | 0 <= i < |front| - 1
        ensures FollowsAt(front, i)
      {
        assert FollowsAt(s, i);
      }
      ConnectAddsEach(l, front);
    }
    PutCount(Connect(l, front).canonical, b.number, b.hash);
  }

  /** One repeated number is enough to lose an entry. */
  lemma {:induction false} ConnectLoses(l: Ledger, s: seq<Block>, i: nat)
    requires i < |s| && s[i].number in Connect(l, s[..i]).canonical
    ensures |Connect(l, s).canonical| < |l.canonical| + |s|
    decreases |s|
  {
    var front, b := s[..|s| - 1], s[|s| - 1];
    PutCount(Connect(l, front).canonical, b.number, b.hash);
    if i == |s| - 1 {
      ConnectAtMost(l, front);
    } else {
      assert front[..i] == s[..i];
      ConnectLoses(l, front, i);
    }
  }

  /** On top of an index that ends below it, a segment adds an entry per block if and only if no number in it
      saturates. */
  lemma ConnectCountIff(l: Ledger, s: seq<Block>)
    requires s != [] && ValidSegment(s) && forall n | n in l.canonical :: n < s[0].number
    ensures |Connect(l, s).canonical| == |l.canonical| + |s| <==> Unsaturated(s)
  {
    if Unsaturated(s) {
      ConnectAddsEach(l, s);
    } else {
      var i :| 0 <= i < |s| - 1 && s[i].number >= U64_MAX;
      assert FollowsAt(s, i);
      assert s[..i + 1][..i] == s[..i] && s[..i + 1][i] == s[i];
      ConnectLoses(l, s, i + 1);
    }
  }

  /** An accepted commit adds one canonical entry per block if and only if no number saturates. */
  lemma OneEntryPerBlockIff(w: World, l: Ledger, s: seq<Block>)
    requires Good(w, l) && s != [] && CommitError(l, s).None? && !AllCanonical(l, s)
    ensures |Commit(l, s).0.canonical| == |l.canonical| + |s| <==> FitsAbove(l, s)
  {
    GoodIsKnown(w, l);
    if l.head.Some? && Number(l, l.head.value) == U64_MAX {
      var base :| GoodFrom(w, l, base);
      assert s[..0] == [] && Connect(l, s[..0]) == l;
      ConnectLoses(l, s, 0);
    } else {
      EndsAtHead(w, l);
      ConnectCountIff(l, s);
    }
  }

  lemma EndsAtHead(w: World, l: Ledger)
    requires Good(w, l)
    ensures forall n | n in l.canonical :: l.head.Some? && l.head.value in l.blocks && n <= Number(l, l.head.value)
  {
    if l.head.Some? {
      var base :| GoodFrom(w, l, base);
    }
  }

  lemma {:induction false} DisconnectCount(l: Ledger, s: seq<Block>, start: nat)
    requires forall i | 0 <= i < |s| :: s[i].number == start + i && s[i].number in l.canonical
    ensures |Disconnect(l, s).canonical| + |s| == |l.canonical|
    decreases |s|
  {
    if s != [] {
      var cut := l.(canonical := l.canonical - {s[|s| - 1].number}, revision := l.revision + 1);
      PutCount(cut.canonical, s[|s| - 1].number, l.canonical[s[|s| - 1].number]);
      assert cut.canonical[s[|s| - 1].number := l.canonical[s[|s| - 1].number]] == l.canonical;
      var front := s[..|s| - 1];
      assert forall i | 0 <= i < |front| :: front[i] == s[i];
      DisconnectCount(cut, front, start);
    }
  }

  /** An accepted reorganisation gives back an entry per removed block, and takes one per added block if and
      only if no number of the added segment saturates. */
  lemma ReorgEntriesIff(w: World, flavor: Flavor, l: Ledger, finalized: Option<Hash>, removed: seq<Block>, added: seq<Block>)
    requires Good(w, l) && Identified(w, removed) && Identified(w, added)
    requires ReorgError(flavor, l, finalized, removed, added).None?
    ensures |Reorg(flavor, l, finalized, removed, added).0.canonical| + |removed| == |l.canonical| + |added|
            <==> Unsaturated(added)
  {
    var base := ReorgAttaches(w, flavor, l, finalized, removed, added);
    forall i | 0 <= i < |removed|
      ensures removed[i].number == removed[0].number + i && removed[i].number in l.canonical
    {
      assert IsEntry(l, removed, removed[0].number, i);
    }
    DisconnectCount(l, removed, removed[0].number);
    ConnectCountIff(Disconnect(l, removed), added);
  }

  /** Two linked blocks that both carry the largest number are both accepted, and the first one is lost. */
  lemma SaturationLosesABlock()
    ensures var a, b := Block(U64_MAX, 1, 0), Block(U64_MAX, 2, 1);
            Commit(EMPTY, [a, b]).1.Ok? && Commit(EMPTY, [a, b]).0.canonical == map[U64_MAX := 2]
  {
    var a, b := Block(U64_MAX, 1, 0), Block(U64_MAX, 2, 1);
    assert !CanonicalAt(EMPTY, [a, b][0]);
    assert [a, b][..1] == [a] && [a][..0] == [];
    assert Connect(EMPTY, [a]) == Push(EMPTY, a);
  }
}
