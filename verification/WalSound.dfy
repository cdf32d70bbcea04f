/** What recovery accepts, for every file: said of the frames the bytes hold, without an accumulator. */
module WalSound {
  import opened Prelude
  import opened BigEndian
  import opened WalFormat
  import opened WalLog
  import opened WalRecovery

  // ---------------------------------------------------------------- the frames of a file

  /** The frame's bytes are its type, the length of its payload, the payload, and the checksum of all that. */
  predicate Shaped(c: Codec, f: RawFrame) {
    var n := |f.bytes|;
    && 9 <= n && f.frameType == f.bytes[0] != 0
    && |f.payload| == Value(f.bytes[1..5]) <= 64 * 1024 * 1024 && n == 9 + |f.payload|
    && f.payload == f.bytes[5..n - 4]
    && (f.crcValid <==> c.crc(f.bytes[..n - 4]) == Value(f.bytes[n - 4..]))
  }

  /** The file holds the frame at its place. */
  predicate FrameHere(c: Codec, file: Bytes, f: RawFrame) {
    f.offset <= f.end <= |file| && f.bytes == file[f.offset..f.end] && Shaped(c, f)
  }

  /** From `offset` on, the file is too short for the frame that starts there. */
  predicate CutHere(file: Bytes, offset: nat) {
    && offset < |file| && file[offset] != 0
    && (|file| - offset < 5
        || (Value(file[offset + 1..offset + 5]) <= 64 * 1024 * 1024 && |file| - offset < 9 + Value(file[offset + 1..offset + 5])))
  }

  /** The frames lie side by side from `start`; behind them the file ends, is zero, or holds a part of a frame. */
  predicate Framed(c: Codec, file: Bytes, start: nat, scan: Scan) {
    && AllHere(c, file, scan.frames)
    && SideBySide(start, scan.frames)
    && scan.end == EndOf(start, scan.frames) && StopsAt(file, scan.end, scan.truncated)
  }

  predicate IsHere(c: Codec, file: Bytes, frames: seq<RawFrame>, i: nat)
    requires i < |frames|
  {
    FrameHere(c, file, frames[i])
  }

  predicate AllHere(c: Codec, file: Bytes, frames: seq<RawFrame>) {
    forall i {:trigger IsHere(c, file, frames, i)} | 0 <= i < |frames| :: IsHere(c, file, frames, i)
  }

  predicate Beside(start: nat, frames: seq<RawFrame>, i: nat)
    requires i < |frames|
  {
    frames[i].offset == if i == 0 then start else frames[i - 1].end
  }

  predicate SideBySide(start: nat, frames: seq<RawFrame>) {
    forall i {:trigger Beside(start, frames, i)} | 0 <= i < |frames| :: Beside(start, frames, i)
  }

  function EndOf(start: nat, frames: seq<RawFrame>): nat {
    if frames == [] then start else frames[|frames| - 1].end
  }

  predicate StopsAt(file: Bytes, end: nat, truncated: Option<nat>) {
    end <= |file| &&
    match truncated
    case None => end == |file| || file[end] == 0
    case Some(at) => at == end && CutHere(file, at)
  }

  lemma ReadIsHere(c: Codec, file: Bytes, offset: nat, f: RawFrame)
    requires offset <= |file|
    ensures ReadFrame(c, file, offset) == Complete(f) <==> f.offset == offset && FrameHere(c, file, f)
  {
    if f.offset == offset && FrameHere(c, file, f) {
      PartsHere(file, f);
    }
    if ReadFrame(c, file, offset) == Complete(f) {
      PartsHere(file, f);
    }
  }

  /** The parts of a frame where they are in the file. */
  lemma PartsHere(file: Bytes, f: RawFrame)
    requires f.offset + 9 <= f.end <= |file| && f.bytes == file[f.offset..f.end]
    ensures var at, n := f.offset, f.end - f.offset;
            && file[at] == f.bytes[0] && file[at + 1..at + 5] == f.bytes[1..5] && file[at + 5..f.end - 4] == f.bytes[5..n - 4]
            && file[at..f.end - 4] == f.bytes[..n - 4] && file[f.end - 4..f.end] == f.bytes[n - 4..]
  {
    var n := f.end - f.offset;
    Slice(file, f.offset, f.bytes, 1, 5);
    Slice(file, f.offset, f.bytes, 5, n - 4);
    Slice(file, f.offset, f.bytes, 0, n - 4);
    Slice(file, f.offset, f.bytes, n - 4, n);
  }

  lemma {:induction false} ScanIsFramed(c: Codec, file: Bytes, start: nat)
    requires start <= |file| && ScanFrom(c, file, start).Ok?
    ensures Framed(c, file, start, ScanFrom(c, file, start).value)
    decreases |file| - start
  {
    match ReadFrame(c, file, start) {
      case Complete(f) =>
        ReadIsHere(c, file, start, f);
        ScanIsFramed(c, file, f.end);
        OneMoreFrame(c, file, f, ScanFrom(c, file, f.end).value);
      case _ =>
    }
  }

  lemma OneMoreFrame(c: Codec, file: Bytes, f: RawFrame, rest: Scan)
    requires FrameHere(c, file, f) && Framed(c, file, f.end, rest)
    ensures Framed(c, file, f.offset, rest.(frames := [f] + rest.frames))
  {
    OneMoreBeside(f, rest.frames);
    OneMoreHere(c, file, f, rest.frames);
  }

  lemma OneMoreHere(c: Codec, file: Bytes, f: RawFrame, rest: seq<RawFrame>)
    ensures AllHere(c, file, [f] + rest) <==> FrameHere(c, file, f) && AllHere(c, file, rest)
  {
    var frames := [f] + rest;
    if AllHere(c, file, frames) {
      assert IsHere(c, file, frames, 0);
      forall i | 0 <= i < |rest|
        ensures IsHere(c, file, rest, i)
      {
        assert IsHere(c, file, frames, i + 1) && frames[i + 1] == rest[i];
      }
    }
    if FrameHere(c, file, f) && AllHere(c, file, rest) {
      forall i | 0 <= i < |frames|
        ensures IsHere(c, file, frames, i)
      {
        assert i > 0 ==> IsHere(c, file, rest, i - 1) && frames[i] == rest[i - 1];
      }
    }
  }

  lemma OneMoreBeside(f: RawFrame, rest: seq<RawFrame>)
    ensures SideBySide(f.end, rest) <==> SideBySide(f.offset, [f] + rest)
    ensures EndOf(f.offset, [f] + rest) == EndOf(f.end, rest)
  {
    var frames := [f] + rest;
    if SideBySide(f.offset, frames) {
      forall i | 0 <= i < |rest|
        ensures Beside(f.end, rest, i)
      {
        assert Beside(f.offset, frames, i + 1);
      }
    }
    if SideBySide(f.end, rest) {
      forall i | 0 <= i < |frames|
        ensures Beside(f.offset, frames, i)
      {
        assert i > 0 ==> Beside(f.end, rest, i - 1);
      }
    }
  }

  lemma OneFrameLess(c: Codec, file: Bytes, start: nat, scan: Scan)
    requires Framed(c, file, start, scan) && scan.frames != []
    ensures var f, rest := scan.frames[0], scan.(frames := scan.frames[1..]);
            && f.offset == start && FrameHere(c, file, f) && Framed(c, file, f.end, rest)
            && [f] + rest.frames == scan.frames
  {
    var f, rest := scan.frames[0], scan.frames[1..];
    assert [f] + rest == scan.frames;
    assert Beside(start, scan.frames, 0);
    OneMoreBeside(f, rest);
    OneMoreHere(c, file, f, rest);
  }

  lemma {:induction false} FramedIsScanned(c: Codec, file: Bytes, start: nat, scan: Scan)
    requires start <= |file| && Framed(c, file, start, scan)
    ensures ScanFrom(c, file, start) == Ok(scan)
    decreases |scan.frames|
  {
    if scan.frames == [] {
      StoppedScan(c, file, start, scan.truncated);
    } else {
      var f, rest := scan.frames[0], scan.(frames := scan.frames[1..]);
      OneFrameLess(c, file, start, scan);
      ReadIsHere(c, file, start, f);
      FramedIsScanned(c, file, f.end, rest);
    }
  }

  lemma StoppedScan(c: Codec, file: Bytes, end: nat, truncated: Option<nat>)
    requires end <= |file| && StopsAt(file, end, truncated)
    ensures ScanFrom(c, file, end) == Ok(Scan([], truncated, end))
  {
  }

  /** Scanning finds the frames of a file, for every file that has them. */
  lemma ScannedIff(c: Codec, file: Bytes, scan: Scan)
    ensures ScanFrom(c, file, 0) == Ok(scan) <==> Framed(c, file, 0, scan)
  {
    if ScanFrom(c, file, 0).Ok? {
      ScanIsFramed(c, file, 0);
    }
    if Framed(c, file, 0, scan) {
      FramedIsScanned(c, file, 0, scan);
    }
  }

  // ---------------------------------------------------------------- which frames are accepted

  /** The first frame after the last commit among the first `n`. */
  function GroupStart(fs: seq<RawFrame>, n: nat): (a: nat)
    requires n <= |fs|
    ensures a <= n
    ensures a > 0 ==> fs[a - 1].frameType == GROUP_COMMIT_FRAME
    ensures forall k | a <= k < n :: fs[k].frameType != GROUP_COMMIT_FRAME
  {
    if n == 0 then 0 else if fs[n - 1].frameType == GROUP_COMMIT_FRAME then n else GroupStart(fs, n - 1)
  }

  /** An observation frame with a good checksum that decodes. */
  predicate Seen(v: Env, f: RawFrame) {
    f.frameType == OBSERVATION_FRAME && f.crcValid && v.codec.decodeObservation(f.payload).Some?
  }

  function ObservationIn(v: Env, f: RawFrame): Observation
    requires Seen(v, f)
  {
    v.codec.decodeObservation(f.payload).value
  }

  /** A commit message covers exactly the frames `a..n`: good observations without a gap, with their session, range,
      places and digest. */
  ghost predicate Covers(v: Env, fs: seq<RawFrame>, a: nat, n: nat, w: WalCommit) {
    && a < n <= |fs| && (forall k | a <= k < n :: Seen(v, fs[k]))
    && w.session == v.session
    && w.firstSequence == ObservationIn(v, fs[a]).sequence && w.lastSequence == ObservationIn(v, fs[n - 1]).sequence
    && w.firstOffset == fs[a].offset && w.lastOffset == fs[n - 1].end - 1
    && (forall k | a < k < n :: ObservationIn(v, fs[k]).sequence == ObservationIn(v, fs[k - 1]).sequence + 1)
    && w.hash == v.codec.digest(Concat(
         [COMMIT_DOMAIN, v.session, ToBytes(w.firstSequence, 8), ToBytes(w.lastSequence, 8),
          ToBytes(w.firstOffset, 8), ToBytes(w.lastOffset, 8), I64(w.durableAt)]
         + seq(n - a, i requires 0 <= i < n - a => fs[a + i].bytes)))
    && w.lastSequence < 0xFFFF_FFFF_FFFF_FFFF
  }

  /** A good commit frame for everything since the previous one. */
  ghost predicate GoodCommit(v: Env, fs: seq<RawFrame>, n: nat)
    requires n < |fs|
  {
    && fs[n].crcValid && v.codec.decodeCommit(fs[n].payload).Some?
    && Covers(v, fs, GroupStart(fs, n), n, v.codec.decodeCommit(fs[n].payload).value)
  }

  /** A good seal: nothing is uncommitted and its payload is the digest of everything before it. */
  ghost predicate GoodSeal(v: Env, file: Bytes, fs: seq<RawFrame>, n: nat)
    requires n < |fs|
  {
    && fs[n].crcValid && GroupStart(fs, n) == n
    && fs[n].offset <= |file| && fs[n].payload == v.codec.digest(file[..fs[n].offset])
  }

  /** Frame `n` is in order: no seal before it, and a good commit, a good seal, or an observation that decodes if its
      checksum is good. */
  ghost predicate InOrder(v: Env, file: Bytes, fs: seq<RawFrame>, n: nat)
    requires n < |fs|
  {
    && (n > 0 ==> fs[n - 1].frameType != SEGMENT_SEAL_FRAME)
    && (|| (fs[n].frameType == OBSERVATION_FRAME && (fs[n].crcValid ==> Seen(v, fs[n])))
        || (fs[n].frameType == GROUP_COMMIT_FRAME && GoodCommit(v, fs, n))
        || (fs[n].frameType == SEGMENT_SEAL_FRAME && GoodSeal(v, file, fs, n)))
  }

  ghost predicate AllInOrder(v: Env, file: Bytes, fs: seq<RawFrame>, n: nat)
    requires n <= |fs|
  {
    forall k {:trigger InOrder(v, file, fs, k)} | 0 <= k < n :: InOrder(v, file, fs, k)
  }

  /** The observations of the group that ends before the commit frame `n`, stamped by it. */
  ghost function Group(v: Env, fs: seq<RawFrame>, n: nat): seq<CommittedObservation>
    requires n < |fs| && GoodCommit(v, fs, n)
  {
    var a, w := GroupStart(fs, n), v.codec.decodeCommit(fs[n].payload).value;
    seq(n - a, i requires 0 <= i < n - a => CommittedObservation(ObservationIn(v, fs[a + i]), w.durableAt, w.hash))
  }

  /** The groups of all commits among the first `n` frames, one after the other. */
  ghost function Groups(v: Env, file: Bytes, fs: seq<RawFrame>, n: nat): seq<CommittedObservation>
    requires n <= |fs| && AllInOrder(v, file, fs, n)
  {
    if n == 0 then []
    else
      assert InOrder(v, file, fs, n - 1);
      Groups(v, file, fs, n - 1) + if fs[n - 1].frameType == GROUP_COMMIT_FRAME then Group(v, fs, n - 1) else []
  }

  /** One past the last sequence that is committed. */
  ghost function NextSequence(v: Env, fs: seq<RawFrame>, n: nat): nat
    requires n <= |fs|
  {
    var a := GroupStart(fs, n);
    if a == 0 || v.codec.decodeCommit(fs[a - 1].payload).None? then 0
    else v.codec.decodeCommit(fs[a - 1].payload).value.lastSequence + 1
  }

  function CommitEnd(fs: seq<RawFrame>, n: nat): nat
    requires n <= |fs|
  {
    if GroupStart(fs, n) == 0 then 0 else fs[GroupStart(fs, n) - 1].end
  }

  // ---------------------------------------------------------------- the accumulator says the same

  /** The good observations among the frames `a..n`. */
  function GoodOnes(v: Env, fs: seq<RawFrame>, a: nat, n: nat): seq<PendingFrame>
    requires a <= n <= |fs|
    decreases n
  {
    if n == a then []
    else
      GoodOnes(v, fs, a, n - 1)
      + if Seen(v, fs[n - 1]) then [PendingFrame(ObservationIn(v, fs[n - 1]), fs[n - 1].offset, fs[n - 1].end, fs[n - 1].bytes)] else []
  }

  /** The place of the first observation with a bad checksum among the frames `a..n`. */
  function FirstBad(fs: seq<RawFrame>, a: nat, n: nat): (bad: Option<nat>)
    requires a <= n <= |fs|
    ensures bad.None? <==> forall k | a <= k < n :: !(fs[k].frameType == OBSERVATION_FRAME && !fs[k].crcValid)
    decreases n
  {
    if n == a then None
    else if FirstBad(fs, a, n - 1).Some? then FirstBad(fs, a, n - 1)
    else if fs[n - 1].frameType == OBSERVATION_FRAME && !fs[n - 1].crcValid then Some(fs[n - 1].offset)
    else None
  }

  ghost function AccAt(v: Env, file: Bytes, fs: seq<RawFrame>, n: nat): Accumulator
    requires n <= |fs| && AllInOrder(v, file, fs, n)
  {
    var a := GroupStart(fs, n);
    Accumulator(Groups(v, file, fs, n), GoodOnes(v, fs, a, n), FirstBad(fs, a, n), CommitEnd(fs, n), NextSequence(v, fs, n),
                n > 0 && fs[n - 1].frameType == SEGMENT_SEAL_FRAME)
  }

  /** When all frames of a group are good, the good ones are all of them. */
  lemma {:induction false} GoodOnesAt(v: Env, fs: seq<RawFrame>, a: nat, n: nat)
    requires a <= n <= |fs| && forall k | a <= k < n :: Seen(v, fs[k])
    ensures var good := GoodOnes(v, fs, a, n);
            |good| == n - a && forall i | 0 <= i < n - a ::
              good[i] == PendingFrame(ObservationIn(v, fs[a + i]), fs[a + i].offset, fs[a + i].end, fs[a + i].bytes)
    decreases n
  {
    if n > a {
      GoodOnesAt(v, fs, a, n - 1);
    }
  }

  lemma {:induction false} FrameListAt(pending: seq<PendingFrame>)
    ensures FrameList(pending) == seq(|pending|, i requires 0 <= i < |pending| => pending[i].bytes)
    decreases |pending|
  {
    if pending != [] {
      FrameListAt(pending[..|pending| - 1]);
    }
  }

  lemma {:induction false} BadAmong(v: Env, fs: seq<RawFrame>, a: nat, n: nat)
    requires a <= n <= |fs|
    requires forall k | a <= k < n :: fs[k].frameType == OBSERVATION_FRAME && (fs[k].crcValid ==> Seen(v, fs[k]))
    ensures FirstBad(fs, a, n).None? <==> forall k | a <= k < n :: Seen(v, fs[k])
  {
  }

  /** A commit matches the accumulated frames exactly when it covers the frames since the previous one. */
  lemma MatchesIffCovers(v: Env, fs: seq<RawFrame>, a: nat, n: nat, w: WalCommit)
    requires a <= n <= |fs| && forall k | a <= k < n :: Seen(v, fs[k])
    ensures CommitMatches(v, w, GoodOnes(v, fs, a, n)) && w.lastSequence < U64_MAX <==> Covers(v, fs, a, n, w)
  {
    var good := GoodOnes(v, fs, a, n);
    GoodOnesAt(v, fs, a, n);
    FrameListAt(good);
    assert seq(n - a, i requires 0 <= i < n - a => fs[a + i].bytes) == FrameList(good);
    ContiguousIff(v, fs, a, n, good);
  }

  lemma ContiguousIff(v: Env, fs: seq<RawFrame>, a: nat, n: nat, good: seq<PendingFrame>)
    requires a <= n <= |fs| && |good| == n - a && forall k | a <= k < n :: Seen(v, fs[k])
    requires forall i | 0 <= i < n - a :: good[i].observation == ObservationIn(v, fs[a + i])
    ensures Contiguous(good) <==>
              forall k | a < k < n :: ObservationIn(v, fs[k]).sequence == ObservationIn(v, fs[k - 1]).sequence + 1
  {
    if Contiguous(good) {
      forall k | a < k < n
        ensures ObservationIn(v, fs[k]).sequence == ObservationIn(v, fs[k - 1]).sequence + 1
      {
        assert good[k - a].observation.sequence == good[k - a - 1].observation.sequence + 1;
      }
    }
  }

  lemma StampedAt(v: Env, fs: seq<RawFrame>, n: nat)
    requires n < |fs| && GoodCommit(v, fs, n)
    ensures var a, w := GroupStart(fs, n), v.codec.decodeCommit(fs[n].payload).value;
            Stamped(GoodOnes(v, fs, a, n), w.durableAt, w.hash) == Group(v, fs, n)
  {
    var a, w := GroupStart(fs, n), v.codec.decodeCommit(fs[n].payload).value;
    StampedGroup(v, fs, a, n, w);
  }

  lemma StampedGroup(v: Env, fs: seq<RawFrame>, a: nat, n: nat, w: WalCommit)
    requires a <= n <= |fs| && forall k | a <= k < n :: Seen(v, fs[k])
    ensures Stamped(GoodOnes(v, fs, a, n), w.durableAt, w.hash)
         == seq(n - a, i requires 0 <= i < n - a => CommittedObservation(ObservationIn(v, fs[a + i]), w.durableAt, w.hash))
  {
    GoodOnesAt(v, fs, a, n);
    StampedAll(GoodOnes(v, fs, a, n), w,
               seq(n - a, i requires 0 <= i < n - a => CommittedObservation(ObservationIn(v, fs[a + i]), w.durableAt, w.hash)));
  }

  lemma {:induction false} StampedAll(good: seq<PendingFrame>, w: WalCommit, group: seq<CommittedObservation>)
    requires |good| == |group|
    requires forall i | 0 <= i < |good| :: group[i] == CommittedObservation(good[i].observation, w.durableAt, w.hash)
    ensures Stamped(good, w.durableAt, w.hash) == group
  {
    var stamped := Stamped(good, w.durableAt, w.hash);
    assert |stamped| == |good|;
    forall i | 0 <= i < |stamped|
      ensures stamped[i] == group[i]
    {
    }
  }

  lemma TailIsObservations(v: Env, file: Bytes, fs: seq<RawFrame>, n: nat)
    requires n <= |fs| && AllInOrder(v, file, fs, n) && (n > 0 ==> fs[n - 1].frameType != SEGMENT_SEAL_FRAME)
    ensures forall k | GroupStart(fs, n) <= k < n :: fs[k].frameType == OBSERVATION_FRAME && (fs[k].crcValid ==> Seen(v, fs[k]))
  {
    forall k | GroupStart(fs, n) <= k < n
      ensures fs[k].frameType == OBSERVATION_FRAME && (fs[k].crcValid ==> Seen(v, fs[k]))
    {
      assert InOrder(v, file, fs, k);
      assert k + 1 < n ==> InOrder(v, file, fs, k + 1);
    }
  }

  lemma CommitStep(v: Env, file: Bytes, fs: seq<RawFrame>, n: nat)
    requires n < |fs| && AllInOrder(v, file, fs, n) && fs[n].frameType == GROUP_COMMIT_FRAME
    requires n > 0 ==> fs[n - 1].frameType != SEGMENT_SEAL_FRAME
    ensures var r := ProcessCommit(v, AccAt(v, file, fs, n), fs[n]);
            && (r.Ok? <==> GoodCommit(v, fs, n))
            && (r.Ok? ==>
                  var w := v.codec.decodeCommit(fs[n].payload).value;
                  r.value == Accumulator(Groups(v, file, fs, n) + Group(v, fs, n), [], None, fs[n].end, w.lastSequence + 1, false))
  {
    var a := GroupStart(fs, n);
    TailIsObservations(v, file, fs, n);
    BadAmong(v, fs, a, n);
    if fs[n].crcValid && FirstBad(fs, a, n).None? && v.codec.decodeCommit(fs[n].payload).Some? {
      MatchesIffCovers(v, fs, a, n, v.codec.decodeCommit(fs[n].payload).value);
      if GoodCommit(v, fs, n) {
        StampedAt(v, fs, n);
      }
    }
  }

  lemma SealStep(v: Env, file: Bytes, fs: seq<RawFrame>, n: nat)
    requires n < |fs| && AllInOrder(v, file, fs, n) && fs[n].frameType == SEGMENT_SEAL_FRAME && fs[n].offset <= |file|
    requires n > 0 ==> fs[n - 1].frameType != SEGMENT_SEAL_FRAME
    ensures var acc := AccAt(v, file, fs, n);
            var r := ProcessSeal(v, file, acc, fs[n]);
            (r.Ok? <==> GoodSeal(v, file, fs, n)) && (r.Ok? ==> r.value == acc.(isSealed := true))
  {
    var a := GroupStart(fs, n);
    TailIsObservations(v, file, fs, n);
    BadAmong(v, fs, a, n);
    if a < n && FirstBad(fs, a, n).None? {
      GoodOnesAt(v, fs, a, n);
    }
  }

  lemma FrameStep(v: Env, file: Bytes, fs: seq<RawFrame>, n: nat)
    requires n < |fs| && AllInOrder(v, file, fs, n) && fs[n].offset <= |file|
    ensures var r := ProcessFrame(v, file, AccAt(v, file, fs, n), fs[n]);
            && (r.Ok? <==> InOrder(v, file, fs, n))
            && (r.Ok? ==> AllInOrder(v, file, fs, n + 1) && r.value == AccAt(v, file, fs, n + 1))
  {
    if n == 0 || fs[n - 1].frameType != SEGMENT_SEAL_FRAME {
      if fs[n].frameType == GROUP_COMMIT_FRAME {
        CommitStep(v, file, fs, n);
        if InOrder(v, file, fs, n) {
          CommitAcc(v, file, fs, n);
        }
      } else {
        if fs[n].frameType == SEGMENT_SEAL_FRAME {
          SealStep(v, file, fs, n);
        }
        if InOrder(v, file, fs, n) {
          OtherAcc(v, file, fs, n);
        }
      }
    }
  }

  /** What one more commit in order does to the accumulator. */
  lemma CommitAcc(v: Env, file: Bytes, fs: seq<RawFrame>, n: nat)
    requires n < |fs| && AllInOrder(v, file, fs, n) && InOrder(v, file, fs, n) && fs[n].frameType == GROUP_COMMIT_FRAME
    ensures AllInOrder(v, file, fs, n + 1)
    ensures AccAt(v, file, fs, n + 1)
         == Accumulator(Groups(v, file, fs, n) + Group(v, fs, n), [], None, fs[n].end,
                        v.codec.decodeCommit(fs[n].payload).value.lastSequence + 1, false)
  {
    NextGroups(v, file, fs, n);
    assert GroupStart(fs, n + 1) == n + 1;
  }

  /** What one more observation or seal in order does to it. */
  lemma OtherAcc(v: Env, file: Bytes, fs: seq<RawFrame>, n: nat)
    requires n < |fs| && AllInOrder(v, file, fs, n) && InOrder(v, file, fs, n) && fs[n].frameType != GROUP_COMMIT_FRAME
    ensures AllInOrder(v, file, fs, n + 1)
    ensures var acc, next, f := AccAt(v, file, fs, n), AccAt(v, file, fs, n + 1), fs[n];
            && (f.frameType == SEGMENT_SEAL_FRAME ==> next == acc.(isSealed := true))
            && (f.frameType == OBSERVATION_FRAME && f.crcValid ==>
                  next == acc.(candidates := acc.candidates + [PendingFrame(ObservationIn(v, f), f.offset, f.end, f.bytes)]))
            && (f.frameType == OBSERVATION_FRAME && !f.crcValid ==>
                  next == acc.(invalid := if acc.invalid.Some? then acc.invalid else Some(f.offset)))
  {
    NextGroups(v, file, fs, n);
    NextTail(v, fs, n);
    SameCommit(v, fs, n);
  }

  lemma SameCommit(v: Env, fs: seq<RawFrame>, n: nat)
    requires n < |fs| && fs[n].frameType != GROUP_COMMIT_FRAME
    ensures CommitEnd(fs, n + 1) == CommitEnd(fs, n) && NextSequence(v, fs, n + 1) == NextSequence(v, fs, n)
  {
    assert GroupStart(fs, n + 1) == GroupStart(fs, n);
  }

  lemma NextGroups(v: Env, file: Bytes, fs: seq<RawFrame>, n: nat)
    requires n < |fs| && AllInOrder(v, file, fs, n) && InOrder(v, file, fs, n)
    ensures AllInOrder(v, file, fs, n + 1)
    ensures Groups(v, file, fs, n + 1)
         == if fs[n].frameType == GROUP_COMMIT_FRAME then Groups(v, file, fs, n) + Group(v, fs, n) else Groups(v, file, fs, n)
  {
    var groups := Groups(v, file, fs, n);
    assert groups + [] == groups;
  }

  lemma NextTail(v: Env, fs: seq<RawFrame>, n: nat)
    requires n < |fs| && fs[n].frameType != GROUP_COMMIT_FRAME
    ensures var a, f := GroupStart(fs, n), fs[n];
            && GroupStart(fs, n + 1) == a
            && GoodOnes(v, fs, a, n + 1)
               == (if Seen(v, f) then GoodOnes(v, fs, a, n) + [PendingFrame(ObservationIn(v, f), f.offset, f.end, f.bytes)]
                   else GoodOnes(v, fs, a, n))
            && FirstBad(fs, a, n + 1)
               == (if FirstBad(fs, a, n).None? && f.frameType == OBSERVATION_FRAME && !f.crcValid then Some(f.offset)
                   else FirstBad(fs, a, n))
  {
    var good := GoodOnes(v, fs, GroupStart(fs, n), n);
    assert good + [] == good;
  }

  lemma {:induction false} ProcessedIff(v: Env, file: Bytes, fs: seq<RawFrame>, n: nat)
    requires n <= |fs| && forall k | 0 <= k < |fs| :: fs[k].offset <= |file|
    ensures var r := ProcessAll(v, file, Ok(START), fs[..n]);
            && (r.Ok? <==> AllInOrder(v, file, fs, n))
            && (r.Ok? ==> r.value == AccAt(v, file, fs, n))
    decreases n
  {
    if n > 0 {
      ProcessedIff(v, file, fs, n - 1);
      ProcessNext(v, file, fs, n - 1);
      if AllInOrder(v, file, fs, n - 1) {
        FrameStep(v, file, fs, n - 1);
      } else {
        var k :| 0 <= k < n - 1 && !InOrder(v, file, fs, k);
      }
    }
  }

  // ---------------------------------------------------------------- every file

  /** The frame is the first good observation among the frames `a..n`. */
  ghost predicate FirstSeen(v: Env, fs: seq<RawFrame>, a: nat, n: nat, k: nat) {
    a <= k < n <= |fs| && Seen(v, fs[k]) && forall j | a <= j < k :: !Seen(v, fs[j])
  }

  /** How many observations are good behind the last commit, and where the tail starts. */
  ghost predicate Reports(v: Env, scan: Scan, report: Report) {
    var fs, n := scan.frames, |scan.frames|;
    var a := GroupStart(fs, n);
    var tail := a < n && fs[n - 1].frameType != SEGMENT_SEAL_FRAME;
    if scan.truncated.Some? then report == Report([TruncatedTail(scan.truncated.value)], CommitEnd(fs, n))
    else if !tail then report == Report([], scan.end)
    else
      && report.logicalEnd == CommitEnd(fs, n) && |report.incidents| == 1 && report.incidents[0].UncommittedTail?
      && report.incidents[0].observations == |GoodOnes(v, fs, a, n)|
      && (if GoodOnes(v, fs, a, n) == [] then report.incidents[0].fromOffset == fs[a].offset
          else exists k: nat :: FirstSeen(v, fs, a, n, k) && report.incidents[0].fromOffset == fs[k].offset)
  }

  /** Recovery accepts a file if and only if its frames are all in order; it then returns the groups of its commits one
      after the other, the number behind the last of them, and whether the last frame is a seal. */
  lemma RecoversIff(v: Env, file: Bytes)
    ensures Recover(v, file).Ok? <==>
              exists scan :: Framed(v.codec, file, 0, scan) && AllInOrder(v, file, scan.frames, |scan.frames|)
    ensures forall scan | Framed(v.codec, file, 0, scan) && AllInOrder(v, file, scan.frames, |scan.frames|) ::
              var fs, n := scan.frames, |scan.frames|;
              var got := Recover(v, file);
              && got.Ok? && got.value.committed == Groups(v, file, fs, n) && got.value.nextSequence == NextSequence(v, fs, n)
              && (got.value.isSealed <==> n > 0 && fs[n - 1].frameType == SEGMENT_SEAL_FRAME)
              && Reports(v, scan, got.value.report)
  {
    if ScanFrom(v.codec, file, 0).Ok? {
      var scan := ScanFrom(v.codec, file, 0).value;
      ScannedIff(v.codec, file, scan);
      FramesRecoverIff(v, file, scan);
    }
    forall scan | Framed(v.codec, file, 0, scan)
      ensures ScanFrom(v.codec, file, 0) == Ok(scan)
    {
      ScannedIff(v.codec, file, scan);
    }
  }

  lemma FramesRecoverIff(v: Env, file: Bytes, scan: Scan)
    requires ScanFrom(v.codec, file, 0) == Ok(scan) && Framed(v.codec, file, 0, scan)
    ensures Recover(v, file).Ok? <==> AllInOrder(v, file, scan.frames, |scan.frames|)
    ensures Recover(v, file).Ok? ==>
              var fs, n := scan.frames, |scan.frames|;
              var got := Recover(v, file).value;
              && got.committed == Groups(v, file, fs, n) && got.nextSequence == NextSequence(v, fs, n)
              && (got.isSealed <==> n > 0 && fs[n - 1].frameType == SEGMENT_SEAL_FRAME)
              && Reports(v, scan, got.report)
  {
    var fs, n := scan.frames, |scan.frames|;
    assert fs[..n] == fs;
    forall k | 0 <= k < n
      ensures fs[k].offset <= |file|
    {
      assert IsHere(v.codec, file, fs, k);
    }
    ProcessedIff(v, file, fs, n);
    if AllInOrder(v, file, fs, n) {
      ReportsTail(v, file, scan);
    }
  }

  lemma ReportsTail(v: Env, file: Bytes, scan: Scan)
    requires AllInOrder(v, file, scan.frames, |scan.frames|)
    ensures Reports(v, scan, FinishReport(scan.end, scan.truncated, AccAt(v, file, scan.frames, |scan.frames|)))
  {
    var fs, n := scan.frames, |scan.frames|;
    var a := GroupStart(fs, n);
    if scan.truncated.None? {
      if n > 0 && fs[n - 1].frameType == SEGMENT_SEAL_FRAME {
        assert InOrder(v, file, fs, n - 1);
        assert GroupStart(fs, n - 1) == n - 1;
        assert GoodOnes(v, fs, n - 1, n) == [] by {
          assert GoodOnes(v, fs, n - 1, n - 1) == [];
        }
      } else if a < n {
        TailIsObservations(v, file, fs, n);
        FirstGood(v, fs, a, n);
        BadAmong(v, fs, a, n);
      }
    }
  }

  /** Where the first good observation and the first bad one are. */
  lemma {:induction false} FirstGood(v: Env, fs: seq<RawFrame>, a: nat, n: nat)
    requires a < n <= |fs|
    requires forall k | a <= k < n :: fs[k].frameType == OBSERVATION_FRAME && (fs[k].crcValid ==> Seen(v, fs[k]))
    ensures var good := GoodOnes(v, fs, a, n);
            if good == [] then (forall k | a <= k < n :: !Seen(v, fs[k])) && FirstBad(fs, a, n) == Some(fs[a].offset)
            else exists k: nat :: FirstSeen(v, fs, a, n, k) && good[0].offset == fs[k].offset
    decreases n
  {
    if n - 1 == a {
      assert GoodOnes(v, fs, a, a) == [];
      assert Seen(v, fs[a]) ==> FirstSeen(v, fs, a, n, a);
    } else {
      FirstGood(v, fs, a, n - 1);
      if GoodOnes(v, fs, a, n - 1) != [] {
        var k: nat :| FirstSeen(v, fs, a, n - 1, k) && GoodOnes(v, fs, a, n - 1)[0].offset == fs[k].offset;
        assert FirstSeen(v, fs, a, n, k);
      } else if Seen(v, fs[n - 1]) {
        assert FirstSeen(v, fs, a, n, n - 1);
      }
    }
  }

  /** In a file that recovery accepts, no observation frame with a bad checksum lies before a commit frame. */
  lemma {:induction false} NothingBadIsCommitted(v: Env, file: Bytes, fs: seq<RawFrame>, i: nat, j: nat)
    requires AllInOrder(v, file, fs, |fs|) && i < j < |fs|
    requires fs[i].frameType == OBSERVATION_FRAME && fs[j].frameType == GROUP_COMMIT_FRAME
    ensures fs[i].crcValid
    decreases j
  {
    assert InOrder(v, file, fs, j);
    var a := GroupStart(fs, j);
    if a > i {
      NothingBadIsCommitted(v, file, fs, i, a - 1);
    }
  }

  // ---------------------------------------------------------------- what a refusal says

  /** The frame is the first of its group whose sequence does not follow the one before. */
  ghost predicate GapAt(v: Env, fs: seq<RawFrame>, a: nat, n: nat, k: nat) {
    && a < k < n <= |fs| && (forall i | a <= i < n :: Seen(v, fs[i]))
    && ObservationIn(v, fs[k]).sequence != ObservationIn(v, fs[k - 1]).sequence + 1
    && forall i | a < i < k :: ObservationIn(v, fs[i]).sequence == ObservationIn(v, fs[i - 1]).sequence + 1
  }

  /** The observation is the first of its group with a bad checksum. */
  ghost predicate BadAt(fs: seq<RawFrame>, a: nat, n: nat, k: nat) {
    && a <= k < n <= |fs| && fs[k].frameType == OBSERVATION_FRAME && !fs[k].crcValid
    && forall i | a <= i < k :: !(fs[i].frameType == OBSERVATION_FRAME && !fs[i].crcValid)
  }

  /** The session, the range and the places of a commit are those of its group. */
  ghost predicate Ranged(v: Env, fs: seq<RawFrame>, a: nat, n: nat, w: WalCommit) {
    && a < n <= |fs| && (forall k | a <= k < n :: Seen(v, fs[k]))
    && w.session == v.session
    && w.firstSequence == ObservationIn(v, fs[a]).sequence && w.lastSequence == ObservationIn(v, fs[n - 1]).sequence
    && w.firstOffset == fs[a].offset && w.lastOffset == fs[n - 1].end - 1
  }

  /** What is said of the first frame that is not in order: a bad checksum in front of a commit by its place, a gap in
      an otherwise fitting commit by the place of the frame behind it, what does not decode as such, and anything else as
      a corrupt frame. */
  ghost predicate Says(v: Env, fs: seq<RawFrame>, n: nat, e: WalError)
    requires n < |fs|
  {
    var f, a := fs[n], GroupStart(fs, n);
    var message := v.codec.decodeCommit(f.payload);
    if n > 0 && fs[n - 1].frameType == SEGMENT_SEAL_FRAME then e == CorruptFrame(f.offset)
    else if f.frameType == OBSERVATION_FRAME then e == Decode(f.offset)
    else if f.frameType != GROUP_COMMIT_FRAME || !f.crcValid then e == CorruptFrame(f.offset)
    else if exists k: nat :: BadAt(fs, a, n, k) then exists k: nat :: BadAt(fs, a, n, k) && e == CommittedCorruption(fs[k].offset)
    else if message.None? then e == Decode(f.offset)
    else if Ranged(v, fs, a, n, message.value) && exists k: nat :: GapAt(v, fs, a, n, k) then
      exists k: nat :: GapAt(v, fs, a, n, k) && e == CorruptFrame(fs[k].offset)
    else e == CorruptFrame(f.offset)
  }

  lemma {:induction false} FirstBadAt(fs: seq<RawFrame>, a: nat, n: nat)
    requires a <= n <= |fs|
    ensures FirstBad(fs, a, n).Some? <==> exists k: nat :: BadAt(fs, a, n, k)
    ensures FirstBad(fs, a, n).Some? ==> exists k: nat :: BadAt(fs, a, n, k) && FirstBad(fs, a, n) == Some(fs[k].offset)
    decreases n
  {
    if n > a {
      FirstBadAt(fs, a, n - 1);
      if FirstBad(fs, a, n - 1).Some? {
        var k: nat :| BadAt(fs, a, n - 1, k) && FirstBad(fs, a, n - 1) == Some(fs[k].offset);
        assert BadAt(fs, a, n, k);
      } else if fs[n - 1].frameType == OBSERVATION_FRAME && !fs[n - 1].crcValid {
        assert BadAt(fs, a, n, n - 1);
      }
    }
  }

  lemma {:induction false} FirstGapIs(candidates: seq<PendingFrame>, i: nat, k: nat)
    requires 0 < i <= k < |candidates|
    requires candidates[k].observation.sequence != candidates[k - 1].observation.sequence + 1
    requires forall j | i <= j < k :: candidates[j].observation.sequence == candidates[j - 1].observation.sequence + 1
    ensures FirstGap(candidates, i) == candidates[k].offset
    decreases k - i
  {
    if i < k {
      FirstGapIs(candidates, i + 1, k);
    }
  }

  lemma SomeGap(v: Env, fs: seq<RawFrame>, a: nat, n: nat) returns (k: nat)
    requires a < n <= |fs| && (forall i | a <= i < n :: Seen(v, fs[i])) && !Contiguous(GoodOnes(v, fs, a, n))
    ensures GapAt(v, fs, a, n, k)
  {
    GoodOnesAt(v, fs, a, n);
    ContiguousIff(v, fs, a, n, GoodOnes(v, fs, a, n));
    k := a + 1;
    while k < n && ObservationIn(v, fs[k]).sequence == ObservationIn(v, fs[k - 1]).sequence + 1
      invariant a < k <= n && forall i | a < i < k :: ObservationIn(v, fs[i]).sequence == ObservationIn(v, fs[i - 1]).sequence + 1
    {
      k := k + 1;
    }
  }

  lemma GapOffset(v: Env, fs: seq<RawFrame>, a: nat, n: nat, k: nat)
    requires GapAt(v, fs, a, n, k)
    ensures FirstGap(GoodOnes(v, fs, a, n), 1) == fs[k].offset
  {
    var good := GoodOnes(v, fs, a, n);
    GoodOnesAt(v, fs, a, n);
    assert good[k - a].observation == ObservationIn(v, fs[k]) && good[k - a - 1].observation == ObservationIn(v, fs[k - 1]);
    forall j | 1 <= j < k - a
      ensures good[j].observation.sequence == good[j - 1].observation.sequence + 1
    {
      assert good[j].observation == ObservationIn(v, fs[a + j]) && good[j - 1].observation == ObservationIn(v, fs[a + j - 1]);
    }
    FirstGapIs(good, 1, k - a);
  }

  lemma GapSays(v: Env, fs: seq<RawFrame>, a: nat, n: nat, w: WalCommit, offset: nat)
    requires a <= n <= |fs| && (forall k | a <= k < n :: Seen(v, fs[k]))
    ensures var at := CommitErrorOffset(v, w, GoodOnes(v, fs, a, n), offset);
            if Ranged(v, fs, a, n, w) && exists k: nat :: GapAt(v, fs, a, n, k) then exists k: nat :: GapAt(v, fs, a, n, k) && at == fs[k].offset
            else at == offset
  {
    var good := GoodOnes(v, fs, a, n);
    GoodOnesAt(v, fs, a, n);
    ContiguousIff(v, fs, a, n, good);
    if Ranged(v, fs, a, n, w) && !Contiguous(good) {
      var k := SomeGap(v, fs, a, n);
      GapOffset(v, fs, a, n, k);
    }
  }

  lemma FrameSays(v: Env, file: Bytes, fs: seq<RawFrame>, n: nat)
    requires n < |fs| && AllInOrder(v, file, fs, n) && !InOrder(v, file, fs, n) && fs[n].offset <= |file|
    ensures var r := ProcessFrame(v, file, AccAt(v, file, fs, n), fs[n]); r.Err? && Says(v, fs, n, r.error)
  {
    var a := GroupStart(fs, n);
    FrameStep(v, file, fs, n);
    if (n == 0 || fs[n - 1].frameType != SEGMENT_SEAL_FRAME) && fs[n].frameType == GROUP_COMMIT_FRAME && fs[n].crcValid {
      FirstBadAt(fs, a, n);
      TailIsObservations(v, file, fs, n);
      BadAmong(v, fs, a, n);
      if FirstBad(fs, a, n).None? && v.codec.decodeCommit(fs[n].payload).Some? {
        var w := v.codec.decodeCommit(fs[n].payload).value;
        GapSays(v, fs, a, n, w, fs[n].offset);
        MatchesIffCovers(v, fs, a, n, w);
        if CommitMatches(v, w, GoodOnes(v, fs, a, n)) {
          NoGapInCovered(v, fs, a, n, w);
        }
      }
    }
  }

  lemma NoGapInCovered(v: Env, fs: seq<RawFrame>, a: nat, n: nat, w: WalCommit)
    requires a <= n <= |fs| && (forall k | a <= k < n :: Seen(v, fs[k])) && CommitMatches(v, w, GoodOnes(v, fs, a, n))
    ensures !exists k: nat :: GapAt(v, fs, a, n, k)
  {
    GoodOnesAt(v, fs, a, n);
    ContiguousIff(v, fs, a, n, GoodOnes(v, fs, a, n));
  }

  /** A file is refused with what the first frame that is not in order says. */
  lemma RefusalSays(v: Env, file: Bytes, scan: Scan, n: nat)
    requires Framed(v.codec, file, 0, scan) && n < |scan.frames|
    requires AllInOrder(v, file, scan.frames, n) && !InOrder(v, file, scan.frames, n)
    ensures Recover(v, file).Err? && Says(v, scan.frames, n, Recover(v, file).error)
  {
    var fs := scan.frames;
    forall k | 0 <= k < |fs|
      ensures fs[k].offset <= |file|
    {
      assert IsHere(v.codec, file, fs, k);
    }
    ProcessedIff(v, file, fs, n);
    ProcessNext(v, file, fs, n);
    FrameSays(v, file, fs, n);
    var e := ProcessFrame(v, file, AccAt(v, file, fs, n), fs[n]).error;
    ErrStays(v, file, fs, n + 1, |fs|, e);
    assert fs[..|fs|] == fs;
    FramedIsScanned(v.codec, file, 0, scan);
  }

  /** A file that claims a frame over the bound is refused at that frame, whatever is before it. */
  lemma {:induction false} OversizedIsRefused(c: Codec, file: Bytes, start: nat, frames: seq<RawFrame>)
    requires start <= |file| && AllHere(c, file, frames) && SideBySide(start, frames)
    requires var end := EndOf(start, frames);
             end + 5 <= |file| && file[end] != 0 && Value(file[end + 1..end + 5]) > 64 * 1024 * 1024
    ensures ScanFrom(c, file, start) == Err(CorruptFrame(EndOf(start, frames)))
    decreases |frames|
  {
    if frames != [] {
      var f, rest := frames[0], frames[1..];
      assert [f] + rest == frames;
      assert Beside(start, frames, 0) && IsHere(c, file, frames, 0);
      OneMoreBeside(f, rest);
      OneMoreHere(c, file, f, rest);
      ReadIsHere(c, file, start, f);
      OversizedIsRefused(c, file, f.end, rest);
    }
  }

  // ---------------------------------------------------------------- corrupted observations

  /** `file` is `whole`, with the bytes between `at + 5` and `end` changed so that the checksum in the last four of them
      fails, and nothing behind. */
  ghost predicate Spoiled(c: Codec, whole: Bytes, file: Bytes, at: nat, end: nat) {
    && at + 9 <= end <= |whole| <= |file|
    && file[..at + 5] == whole[..at + 5] && file[end..|whole|] == whole[end..]
    && (|file| == |whole| || file[|whole|] == 0)
    && c.crc(file[at..end - 4]) != Value(file[end - 4..end])
  }

  /** The frame that is then found at its place. */
  function Damaged(f: RawFrame, file: Bytes): RawFrame
    requires f.offset + 9 <= f.end <= |file|
  {
    f.(payload := file[f.offset + 5..f.end - 4], bytes := file[f.offset..f.end], crcValid := false)
  }

  /** A frame is where its bytes are. */
  lemma SameHere(c: Codec, file: Bytes, file': Bytes, f: RawFrame)
    requires FrameHere(c, file, f) && f.end <= |file'| && file'[f.offset..f.end] == file[f.offset..f.end]
    ensures FrameHere(c, file', f)
  {
  }

  /** Bytes outside the damage are as before. */
  lemma UndamagedBytes(whole: Bytes, file: Bytes, at: nat, end: nat, i: nat, k: nat)
    requires at <= end <= |whole| <= |file| && file[..at] == whole[..at] && file[end..|whole|] == whole[end..]
    requires i <= k <= at || end <= i <= k <= |whole|
    ensures file[i..k] == whole[i..k]
  {
    forall n | i <= n < k
      ensures file[n] == whole[n]
    {
      if n < at {
        assert file[..at][n] == whole[..at][n];
      } else {
        assert file[end..|whole|][n - end] == whole[end..][n - end];
      }
    }
  }

  lemma BesideDamage(c: Codec, whole: Bytes, file: Bytes, at: nat, end: nat, f: RawFrame)
    requires Spoiled(c, whole, file, at, end) && FrameHere(c, whole, f) && (f.end <= at || end <= f.offset)
    ensures FrameHere(c, file, f)
  {
    TakeLess(file, whole, at + 5, at);
    UndamagedBytes(whole, file, at, end, f.offset, f.end);
    SameHere(c, whole, file, f);
  }

  lemma TakeLess(a: Bytes, b: Bytes, n: nat, k: nat)
    requires k <= n <= |a| && n <= |b| && a[..n] == b[..n]
    ensures a[..k] == b[..k]
  {
    assert a[..k] == a[..n][..k] && b[..k] == b[..n][..k];
  }

  lemma DamagedHere(c: Codec, whole: Bytes, file: Bytes, f: RawFrame)
    requires FrameHere(c, whole, f) && Spoiled(c, whole, file, f.offset, f.end)
    ensures FrameHere(c, file, Damaged(f, file))
  {
    var d, at := Damaged(f, file), f.offset;
    PartsHere(whole, f);
    PartsHere(file, d);
    assert file[at] == file[..at + 5][at] && whole[at] == whole[..at + 5][at];
    assert file[at + 1..at + 5] == file[..at + 5][at + 1..] && whole[at + 1..at + 5] == whole[..at + 5][at + 1..];
  }

  lemma {:induction false} OneBehindAnother(c: Codec, file: Bytes, start: nat, frames: seq<RawFrame>, i: nat, k: nat)
    requires AllHere(c, file, frames) && SideBySide(start, frames) && i < k < |frames|
    ensures frames[i].end <= frames[k].offset
    decreases k
  {
    assert Beside(start, frames, k);
    if i < k - 1 {
      OneBehindAnother(c, file, start, frames, i, k - 1);
      assert IsHere(c, file, frames, k - 1);
    }
  }

  /** The frames of a spoiled file are the frames there were, and the damaged one. */
  lemma SpoiledFrames(c: Codec, whole: Bytes, file: Bytes, fs: seq<RawFrame>, j: nat)
    requires Framed(c, whole, 0, Scan(fs, None, |whole|)) && j < |fs| && Spoiled(c, whole, file, fs[j].offset, fs[j].end)
    ensures Framed(c, file, 0, Scan(fs[j := Damaged(fs[j], file)], None, |whole|))
  {
    var damaged := fs[j := Damaged(fs[j], file)];
    forall i | 0 <= i < |damaged|
      ensures IsHere(c, file, damaged, i)
    {
      assert IsHere(c, whole, fs, i);
      if i == j {
        DamagedHere(c, whole, file, fs[j]);
      } else {
        if i < j {
          OneBehindAnother(c, whole, 0, fs, i, j);
        } else {
          OneBehindAnother(c, whole, 0, fs, j, i);
        }
        BesideDamage(c, whole, file, fs[j].offset, fs[j].end, fs[i]);
      }
    }
    forall i | 0 <= i < |damaged|
      ensures Beside(0, damaged, i)
    {
      assert Beside(0, fs, i);
    }
  }

  // ---------------------------------------------------------------- processing up to the damage and on

  lemma ProcessNext(v: Env, file: Bytes, fs: seq<RawFrame>, n: nat)
    requires n < |fs|
    ensures var r, next := ProcessAll(v, file, Ok(START), fs[..n]), ProcessAll(v, file, Ok(START), fs[..n + 1]);
            next == if r.Err? then r else ProcessFrame(v, file, r.value, fs[n])
  {
    assert fs[..n + 1][..n] == fs[..n];
  }

  lemma {:induction false} ErrStays(v: Env, file: Bytes, fs: seq<RawFrame>, i: nat, n: nat, e: WalError)
    requires i <= n <= |fs| && ProcessAll(v, file, Ok(START), fs[..i]) == Err(e)
    ensures ProcessAll(v, file, Ok(START), fs[..n]) == Err(e)
    decreases n
  {
    if i < n {
      ErrStays(v, file, fs, i, n - 1, e);
      ProcessNext(v, file, fs, n - 1);
    }
  }

  /** What processing the first `n` frames gives. */
  function After(v: Env, file: Bytes, fs: seq<RawFrame>, n: nat): Result<Accumulator, WalError>
    requires n <= |fs|
  {
    ProcessAll(v, file, Ok(START), fs[..n])
  }

  /** An accumulator that has met no damage. */
  predicate Clean(r: Result<Accumulator, WalError>) {
    r.Ok? && r.value.invalid.None? && !r.value.isSealed
  }

  predicate Remembers(r: Result<Accumulator, WalError>, at: nat) {
    r.Ok? && r.value.invalid == Some(at) && !r.value.isSealed
  }

  lemma OneMoreRemembered(v: Env, file: Bytes, r: Result<Accumulator, WalError>, f: RawFrame, at: nat)
    requires f.frameType == OBSERVATION_FRAME
    requires (Clean(r) && !f.crcValid && f.offset == at) || (Remembers(r, at) && Seen(v, f))
    ensures Remembers(ProcessFrame(v, file, r.value, f), at)
  {
  }

  /** Damage is remembered over the good observations behind it. */
  lemma {:induction false} DamageRemembered(v: Env, file: Bytes, fs: seq<RawFrame>, j: nat, k: nat)
    requires j < k <= |fs| && fs[j].frameType == OBSERVATION_FRAME && !fs[j].crcValid && forall i | j < i < k :: Seen(v, fs[i])
    requires Clean(After(v, file, fs, j))
    ensures Remembers(After(v, file, fs, k), fs[j].offset)
    decreases k
  {
    ProcessNext(v, file, fs, k - 1);
    if k - 1 > j {
      DamageRemembered(v, file, fs, j, k - 1);
    }
    OneMoreRemembered(v, file, After(v, file, fs, k - 1), fs[k - 1], fs[j].offset);
  }

  /** The commit behind the damage reports it. */
  lemma DamageReported(v: Env, file: Bytes, fs: seq<RawFrame>, j: nat, c: nat)
    requires j < c < |fs| && fs[j].frameType == OBSERVATION_FRAME && !fs[j].crcValid && forall i | j < i < c :: Seen(v, fs[i])
    requires fs[c].frameType == GROUP_COMMIT_FRAME && fs[c].crcValid
    requires Clean(After(v, file, fs, j))
    ensures ProcessAll(v, file, Ok(START), fs) == Err(CommittedCorruption(fs[j].offset))
  {
    assert After(v, file, fs, c + 1) == Err(CommittedCorruption(fs[j].offset)) by {
      DamageRemembered(v, file, fs, j, c);
      ProcessNext(v, file, fs, c);
      CommitMeetsDamage(v, file, After(v, file, fs, c).value, fs[c]);
    }
    ErrStays(v, file, fs, c + 1, |fs|, CommittedCorruption(fs[j].offset));
    assert fs[..|fs|] == fs;
  }

  lemma CommitMeetsDamage(v: Env, file: Bytes, acc: Accumulator, f: RawFrame)
    requires f.frameType == GROUP_COMMIT_FRAME && f.crcValid && acc.invalid.Some? && !acc.isSealed
    ensures ProcessFrame(v, file, acc, f) == Err(CommittedCorruption(acc.invalid.value))
  {
  }

  // ---------------------------------------------------------------- corrupted logs

  lemma FramesAreFramed(v: Env, records: seq<Record>)
    requires Legal(v, records)
    ensures Framed(v.codec, Render(v, records), 0, Scan(Frames(v, records), None, |Render(v, records)|))
  {
    var whole := Render(v, records);
    assert whole[..|whole|] == whole && records[..0] == [];
    FramesScanned(v, whole, records, 0, Scan([], None, |whole|));
    assert Frames(v, records)[0..] + [] == Frames(v, records);
    ScanIsFramed(v.codec, whole, 0);
  }

  /** The first commit behind `j`. */
  lemma FirstCommit(records: seq<Record>, j: nat, c: nat) returns (first: nat)
    requires j < c < |records| && records[c].Commit?
    ensures j < first <= c && records[first].Commit? && forall k | j < k < first :: !records[k].Commit?
  {
    first := j + 1;
    while !records[first].Commit?
      invariant j < first <= c && forall k | j < k < first :: !records[k].Commit?
      decreases c - first
    {
      first := first + 1;
    }
  }

  /** Until they are committed, observations are followed by observations. */
  lemma {:induction false} PendingUntilCommit(v: Env, records: seq<Record>, j: nat, k: nat)
    requires Legal(v, records) && j < k <= |records| && records[j].Observe?
    requires forall i | j < i < k :: !records[i].Commit?
    ensures Pending(v, records[..k]) != [] && records[k - 1].Observe?
    decreases k
  {
    NextAdmissible(v, records, k - 1);
    TakeOneMore(records, k - 1);
    AfterRecord(v, records[..k - 1], records[k - 1]);
    if k - 1 > j {
      PendingUntilCommit(v, records, j, k - 1);
    }
  }

  lemma NextAdmissible(v: Env, records: seq<Record>, i: nat)
    requires Legal(v, records) && i < |records|
    ensures Legal(v, records[..i]) && Admissible(v, records[..i], records[i])
  {
    LegalPrefix(v, records, i + 1);
    assert records[..i + 1][..i] == records[..i];
  }

  lemma ObservationSeen(v: Env, records: seq<Record>, k: nat)
    requires Lawful(v.codec) && Legal(v, records) && |Render(v, records)| <= U64_MAX && k < |records| && records[k].Observe?
    ensures Seen(v, Frames(v, records)[k])
  {
    FramesIndex(v, records, k);
    NextAdmissible(v, records, k);
    RenderPrefix(v, records, k);
    CountBound(v, records[..k]);
    assert Decodes(v.codec, records[k].o);
  }

  lemma FramesBefore(v: Env, records: seq<Record>, j: nat)
    requires j <= |records|
    ensures Frames(v, records)[..j] == Frames(v, records[..j])
  {
    var before := records[..j];
    forall i | 0 <= i < j
      ensures Frames(v, records)[i] == Frames(v, before)[i]
    {
      FramesIndex(v, records, i);
      FramesIndex(v, before, i);
      assert before[..i] == records[..i];
    }
  }

  lemma BeforeDamage(v: Env, file: Bytes, records: seq<Record>, j: nat)
    requires Lawful(v.codec) && Legal(v, records) && |Render(v, records)| <= U64_MAX && j < |records|
    requires StartsWith(file, Render(v, records[..j]))
    ensures ProcessAll(v, file, Ok(START), Frames(v, records)[..j]) == Ok(AccOf(v, records[..j]))
    ensures !IsSealed(records[..j])
  {
    NextAdmissible(v, records, j);
    RenderPrefix(v, records, j);
    FramesBefore(v, records, j);
    FramesProcessed(v, file, records[..j]);
  }

  /** A committed observation whose checksum fails is reported at its place: for every log, every observation in it that
      a commit follows, and every change of its payload or checksum bytes. */
  lemma CorruptionIsReported(v: Env, records: seq<Record>, j: nat, c: nat, file: Bytes)
    requires Lawful(v.codec) && Legal(v, records) && |Render(v, records)| <= U64_MAX
    requires j < c < |records| && records[j].Observe? && records[c].Commit?
    requires Spoiled(v.codec, Render(v, records), file, |Render(v, records[..j])|, |Render(v, records[..j + 1])|)
    ensures Recover(v, file) == Err(CommittedCorruption(|Render(v, records[..j])|))
  {
    var fs := Frames(v, records);
    PlaceOf(v, records, j);
    FramesAreFramed(v, records);
    var damaged := fs[j := Damaged(fs[j], file)];
    SpoiledFrames(v.codec, Render(v, records), file, fs, j);
    FramedIsScanned(v.codec, file, 0, Scan(damaged, None, |Render(v, records)|));
    assert ProcessAll(v, file, Ok(START), damaged) == Err(CommittedCorruption(fs[j].offset)) by {
      DamagedProcessed(v, records, j, c, file, damaged);
    }
  }

  lemma PlaceOf(v: Env, records: seq<Record>, j: nat)
    requires j < |records|
    ensures var f := Frames(v, records)[j];
            && f.frameType == TypeOf(records[j]) && f.crcValid
            && f.offset == |Render(v, records[..j])| && f.end == |Render(v, records[..j + 1])|
  {
    FramesIndex(v, records, j);
    TakeOneMore(records, j);
    AfterRecord(v, records[..j], records[j]);
  }

  lemma SeenUntilCommit(v: Env, records: seq<Record>, j: nat, c: nat)
    requires Lawful(v.codec) && Legal(v, records) && |Render(v, records)| <= U64_MAX
    requires j < c < |records| && records[j].Observe? && forall i | j < i < c :: !records[i].Commit?
    ensures forall i | j < i < c :: Seen(v, Frames(v, records)[i])
  {
    forall i | j < i < c
      ensures Seen(v, Frames(v, records)[i])
    {
      PendingUntilCommit(v, records, j, i + 1);
      ObservationSeen(v, records, i);
    }
  }

  lemma DamagedProcessed(v: Env, records: seq<Record>, j: nat, c: nat, file: Bytes, damaged: seq<RawFrame>)
    requires Lawful(v.codec) && Legal(v, records) && |Render(v, records)| <= U64_MAX
    requires j < c < |records| && records[j].Observe? && records[c].Commit?
    requires Spoiled(v.codec, Render(v, records), file, |Render(v, records[..j])|, |Render(v, records[..j + 1])|)
    requires |damaged| == |records| && forall i | 0 <= i < |records| && i != j :: damaged[i] == Frames(v, records)[i]
    requires damaged[j].frameType == OBSERVATION_FRAME && !damaged[j].crcValid && damaged[j].offset == |Render(v, records[..j])|
    ensures ProcessAll(v, file, Ok(START), damaged) == Err(CommittedCorruption(damaged[j].offset))
  {
    var fs := Frames(v, records);
    var first := FirstCommit(records, j, c);
    SeenUntilCommit(v, records, j, first);
    PlaceOf(v, records, first);
    RenderPrefix(v, records, j);
    TakeLess(file, Render(v, records), |Render(v, records[..j])| + 5, |Render(v, records[..j])|);
    BeforeDamage(v, file, records, j);
    assert damaged[..j] == fs[..j];
    DamageReported(v, file, damaged, j, first);
  }
}
