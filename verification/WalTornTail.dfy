/** A crash that leaves a torn record in front of preallocated zero bytes instead of an end of file. */
module WalTornTail {
  import opened Prelude
  import opened BigEndian
  import opened WalFormat
  import opened WalLog
  import opened WalRecovery

  lemma {:induction false} ValueMonotone(a: Bytes, b: Bytes)
    requires |a| == |b| && forall i | 0 <= i < |a| :: a[i] <= b[i]
    ensures Value(a) <= Value(b)
  {
    if a != [] {
      ValueMonotone(a[1..], b[1..]);
      MulMonotone(a[0], b[0], Pow256(|a| - 1));
    }
  }

  lemma MulMonotone(x: nat, y: nat, p: nat)
    requires x <= y
    ensures x * p <= y * p
  {
  }

  /** The bytes of a record of which only the first `n` were written, in front of `m` zero bytes. */
  function Torn(bytes: Bytes, n: nat, m: nat): Bytes
    requires n <= |bytes|
  {
    bytes[..n] + Zeros(m)
  }

  /** A torn frame is read as cut, or as one frame of the same type that swallows the torn part. */
  lemma TornReading(c: Codec, file: Bytes, at: nat, frameType: Byte, payload: Bytes, n: nat, m: nat)
    requires frameType != 0 && |payload| <= MAX_PAYLOAD_BYTES && at <= |file|
    requires var bytes := FrameBytes(c, frameType, payload);
             0 < n < |bytes| && file[at..] == Torn(bytes, n, m)
    ensures var r := ReadFrame(c, file, at);
            r == Cut || (r.Complete? && r.frame.frameType == frameType && at + n <= r.frame.end)
  {
    var bytes := FrameBytes(c, frameType, payload);
    FramePieces(c, frameType, payload);
    assert file[at] == file[at..][0];
    if |file| - at >= HEADER_BYTES {
      var torn := file[at + 1..at + HEADER_BYTES];
      var length := bytes[1..HEADER_BYTES];
      forall i | 0 <= i < 4
        ensures torn[i] == file[at..][1 + i]
      {
      }
      U32RoundTrip(|payload|);
      ValueMonotone(torn, length);
      assert n >= HEADER_BYTES ==> torn == length;
    }
  }

  lemma ScanOne(c: Codec, file: Bytes, at: nat)
    requires at <= |file| && ReadFrame(c, file, at).Complete?
    requires var end := ReadFrame(c, file, at).frame.end;
             end == |file| || file[end] == 0
    ensures var f := ReadFrame(c, file, at).frame;
            ScanFrom(c, file, at) == Ok(Scan([f], None, f.end))
  {
    var f := ReadFrame(c, file, at).frame;
    assert ScanFrom(c, file, f.end) == Ok(Scan([], None, f.end));
    assert [f] + [] == [f];
  }

  /** Scanning a torn tail finds nothing more than that one frame. */
  lemma TornScan(c: Codec, file: Bytes, at: nat, frameType: Byte, payload: Bytes, n: nat, m: nat)
    requires frameType != 0 && |payload| <= MAX_PAYLOAD_BYTES && at <= |file|
    requires var bytes := FrameBytes(c, frameType, payload);
             0 < n < |bytes| && file[at..] == Torn(bytes, n, m)
    ensures var r := ReadFrame(c, file, at);
            || (r == Cut && ScanFrom(c, file, at) == Ok(Scan([], Some(at), at)))
            || (r.Complete? && r.frame.frameType == frameType
                && ScanFrom(c, file, at) == Ok(Scan([r.frame], None, r.frame.end)))
  {
    TornReading(c, file, at, frameType, payload, n, m);
    var r := ReadFrame(c, file, at);
    if r.Complete? {
      var end := r.frame.end;
      if end < |file| {
        assert file[end] == file[at..][end - at] == 0;
      }
      ScanOne(c, file, at);
    }
  }

  /** Whatever the torn frame decodes to, it can only be ignored, refused, or taken as the commit of
      everything that was pending. */
  lemma TornProcessed(v: Env, file: Bytes, acc: Accumulator, f: RawFrame)
    requires ProcessFrame(v, file, acc, f).Ok?
    ensures var acc' := ProcessFrame(v, file, acc, f).value;
            || acc'.committed == acc.committed
            || (f.frameType == GROUP_COMMIT_FRAME
                && exists at: int, hash: Bytes :: acc'.committed == acc.committed + Stamped(acc.candidates, at, hash))
  {
    if f.frameType == GROUP_COMMIT_FRAME {
      var w := v.codec.decodeCommit(f.payload).value;
      assert ProcessFrame(v, file, acc, f).value.committed == acc.committed + Stamped(acc.candidates, w.durableAt, w.hash);
    }
  }

  /** What recovery returns for a torn observation whose checksum is wrong: the exact committed list, and the
      uncommitted tail. */
  function WithoutTornObservation(v: Env, before: seq<Record>): Recovered {
    var pending := Pending(v, before);
    var from := if pending == [] then |Render(v, before)| else pending[0].offset;
    Recovered(Report([UncommittedTail(from, |pending|)], LastCommitEnd(v, before)), Committed(v, before),
              |Committed(v, before)|, false)
  }

  /** The outcome by what is read where the torn record starts.  With a wrong checksum it is exact.  Should the
      checksum of the torn bytes match by chance, nothing is lost, reordered or invented: an error, or the
      exact committed list, or, only for a torn commit, that list and all the observations it was about to
      commit. */
  ghost predicate TornOutcome(v: Env, before: seq<Record>, r: Record, reading: Reading, got: Result<Recovered, WalError>) {
    match reading
    case Cut => got == Ok(Expected(v, before, true))
    case Complete(f) =>
      if f.crcValid then
        || got.Err?
        || got.value.committed == Committed(v, before)
        || (r.Commit? && exists at: int, hash: Bytes ::
              got.value.committed == Committed(v, before) + Stamped(Pending(v, before), at, hash))
      else if r.Observe? then got == Ok(WithoutTornObservation(v, before))
      else got == Err(CorruptFrame(|Render(v, before)|))
    case _ => false
  }

  /** Recovery from a record of which a proper part was written in front of zeros. */
  lemma RecoverTornZeros(v: Env, before: seq<Record>, r: Record, n: nat, m: nat)
    requires Lawful(v.codec) && Legal(v, before + [r]) && |Render(v, before)| <= U64_MAX
    requires 0 < n < |RecordBytes(v, before, r)|
    ensures var file := Render(v, before) + Torn(RecordBytes(v, before, r), n, m);
            TornOutcome(v, before, r, ReadFrame(v.codec, file, |Render(v, before)|), Recover(v, file))
  {
    Snoc(before, r);
    var bytes := RecordBytes(v, before, r);
    var at := |Render(v, before)|;
    var file := Render(v, before) + Torn(bytes, n, m);
    assert file[..at] == Render(v, before) && file[at..] == Torn(bytes, n, m);
    TornScan(v.codec, file, at, TypeOf(r), Payload(v, before, r), n, m);
    TornRecovered(v, file, before, r);
  }

  lemma TornRecovered(v: Env, file: Bytes, before: seq<Record>, r: Record)
    requires Lawful(v.codec) && Legal(v, before) && !IsSealed(before) && |Render(v, before)| <= U64_MAX
    requires StartsWith(file, Render(v, before))
    requires var at := |Render(v, before)|;
             var reading := ReadFrame(v.codec, file, at);
             || (reading == Cut && ScanFrom(v.codec, file, at) == Ok(Scan([], Some(at), at)))
             || (reading.Complete? && reading.frame.frameType == TypeOf(r)
                 && ScanFrom(v.codec, file, at) == Ok(Scan([reading.frame], None, reading.frame.end)))
    ensures TornOutcome(v, before, r, ReadFrame(v.codec, file, |Render(v, before)|), Recover(v, file))
  {
    var at := |Render(v, before)|;
    var reading := ReadFrame(v.codec, file, at);
    if reading == Cut {
      RecoverWhole(v, file, before, Some(at));
    } else {
      RecoverOneMore(v, file, before, reading.frame);
      TornFrame(v, file, before, r, reading.frame);
    }
  }

  lemma TornFrame(v: Env, file: Bytes, before: seq<Record>, r: Record, f: RawFrame)
    requires Legal(v, before) && !IsSealed(before) && f.offset == |Render(v, before)| && f.frameType == TypeOf(r)
    ensures var got := match ProcessFrame(v, file, AccOf(v, before), f)
                       case Err(e) => Err(e)
                       case Ok(acc) => Ok(Finish(Scan(Frames(v, before) + [f], None, f.end), acc));
            TornOutcome(v, before, r, Complete(f), got)
  {
    var processed := ProcessFrame(v, file, AccOf(v, before), f);
    if processed.Ok? && f.crcValid {
      TornProcessed(v, file, AccOf(v, before), f);
    }
  }

  /** Recovery of a whole log with exactly one more frame behind it. */
  lemma RecoverOneMore(v: Env, file: Bytes, before: seq<Record>, f: RawFrame)
    requires Lawful(v.codec) && Legal(v, before) && |Render(v, before)| <= U64_MAX
    requires StartsWith(file, Render(v, before))
    requires ScanFrom(v.codec, file, |Render(v, before)|) == Ok(Scan([f], None, f.end))
    ensures var processed := ProcessFrame(v, file, AccOf(v, before), f);
            Recover(v, file) == match processed
                                case Err(e) => Err(e)
                                case Ok(acc) => Ok(Finish(Scan(Frames(v, before) + [f], None, f.end), acc))
  {
    assert before[..0] == [];
    FramesScanned(v, file, before, 0, Scan([f], None, f.end));
    assert Frames(v, before)[0..] + [f] == Frames(v, before) + [f];
    FramesProcessed(v, file, before);
    var all := Frames(v, before) + [f];
    assert all[..|all| - 1] == Frames(v, before);
  }
}
