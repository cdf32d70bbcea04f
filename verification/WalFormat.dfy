/** Frames of the write-ahead log, and reading them back from bytes.

    The checksum, the digest and the protobuf codecs are parameters: the theorems hold for every
    checksum and digest function and every pair of codecs that are inverse to each other. */
module WalFormat {
  import opened Prelude
  import opened BigEndian

  const OBSERVATION_FRAME: Byte := 1
  const GROUP_COMMIT_FRAME: Byte := 2
  const SEGMENT_SEAL_FRAME: Byte := 3
  const HEADER_BYTES: nat := 5
  const CRC_BYTES: nat := 4
  const COMMIT_RESERVE_BYTES: nat := 512
  const MAX_PAYLOAD_BYTES: nat := 64 * 1024 * 1024
  const SESSION_BYTES: nat := 16
  const I64_MIN: int := -0x8000_0000_0000_0000
  const I64_MAX: int := 0x7FFF_FFFF_FFFF_FFFF

  type Bytes = seq<Byte>
  type Crc = n: nat | n <= U32_MAX
  type Digest = d: Bytes | |d| == 32 witness seq(32, _ => 0)
  type Session = s: Bytes | |s| == SESSION_BYTES witness seq(SESSION_BYTES, _ => 0)
  /** A 64-bit signed time. */
  type Nanos = n: int | I64_MIN <= n <= I64_MAX

  datatype Observation = Observation(session: Bytes, sequence: nat, body: Bytes)

  datatype WalCommit = WalCommit(session: Bytes, firstSequence: nat, lastSequence: nat,
                                 firstOffset: nat, lastOffset: nat, durableAt: int, hash: Bytes)

  datatype Codec = Codec(
    crc: Bytes -> Crc,
    digest: Bytes -> Digest,
    encodeObservation: Observation -> Bytes,
    decodeObservation: Bytes -> Option<Observation>,
    encodeCommit: WalCommit -> Bytes,
    decodeCommit: Bytes -> Option<WalCommit>)

  /** A commit whose fields have the widths of the message: 64-bit numbers, a session and a digest. */
  predicate InRange(w: WalCommit) {
    && |w.session| == SESSION_BYTES && |w.hash| == 32
    && w.firstSequence <= U64_MAX && w.lastSequence <= U64_MAX
    && w.firstOffset <= U64_MAX && w.lastOffset <= U64_MAX
    && I64_MIN <= w.durableAt <= I64_MAX
  }

  ghost predicate Decodes(c: Codec, o: Observation) {
    c.decodeObservation(c.encodeObservation(o)) == Some(o)
  }

  ghost predicate CommitDecodes(c: Codec, w: WalCommit) {
    && c.decodeCommit(c.encodeCommit(w)) == Some(w)
    && |c.encodeCommit(w)| + HEADER_BYTES + CRC_BYTES <= COMMIT_RESERVE_BYTES
  }

  /** Decoding inverts encoding on messages with 64-bit fields, and such a commit fits into the space
      reserved for it. */
  ghost predicate Lawful(c: Codec) {
    && (forall o: Observation {:trigger Decodes(c, o)} | o.sequence <= U64_MAX :: Decodes(c, o))
    && (forall w {:trigger CommitDecodes(c, w)} | InRange(w) :: CommitDecodes(c, w))
  }

  datatype WalError =
    | Decode(offset: nat)
    | CapacityExhausted(required: nat, available: nat)
    | NoPendingObservations
    | PendingObservations
    | Sealed
    | SequenceMismatch(expected: nat, actual: nat)
    | SourceSessionMismatch
    | CommittedCorruption(offset: nat)
    | CorruptFrame(offset: nat)
    | InvalidCapacity(maxBytes: nat)

  datatype RawFrame = RawFrame(frameType: Byte, offset: nat, end: nat, payload: Bytes, bytes: Bytes, crcValid: bool)

  // ---------------------------------------------------------------- one frame

  function U32(n: nat): Bytes {
    ToBytes(n, 4)
  }

  function Covered(frameType: Byte, payload: Bytes): Bytes {
    [frameType] + U32(|payload|) + payload
  }

  /** Type, length, payload, checksum. */
  function FrameBytes(c: Codec, frameType: Byte, payload: Bytes): (bytes: Bytes)
    ensures |bytes| == HEADER_BYTES + |payload| + CRC_BYTES
  {
    Covered(frameType, payload) + U32(c.crc(Covered(frameType, payload)))
  }

  /** Encoding refuses payloads over the safety bound. */
  method EncodeFrame(c: Codec, frameType: Byte, payload: Bytes) returns (r: Result<Bytes, WalError>)
    ensures r == if |payload| > MAX_PAYLOAD_BYTES then Err(CapacityExhausted(|payload|, MAX_PAYLOAD_BYTES))
                 else Ok(FrameBytes(c, frameType, payload))
  {
    if |payload| > MAX_PAYLOAD_BYTES {
      return Err(CapacityExhausted(|payload|, MAX_PAYLOAD_BYTES));
    }
    var frame := [frameType];
    frame := frame + U32(|payload|);
    frame := frame + payload;
    var crc := c.crc(frame);
    frame := frame + U32(crc);
    return Ok(frame);
  }

  /** What is found at an offset of a file. */
  datatype Reading = EndOfLog | Cut | Oversized | Complete(frame: RawFrame)

  function Length(file: Bytes, offset: nat): nat
    requires offset + HEADER_BYTES <= |file|
  {
    Value(file[offset + 1..offset + HEADER_BYTES])
  }

  function ReadFrame(c: Codec, file: Bytes, offset: nat): (r: Reading)
    requires offset <= |file|
    ensures r.Complete? ==> offset < r.frame.end <= |file| && r.frame.offset == offset
  {
    if offset == |file| || file[offset] == 0 then EndOfLog
    else if |file| - offset < HEADER_BYTES then Cut
    else
      var n := Length(file, offset);
      if n > MAX_PAYLOAD_BYTES then Oversized
      else if HEADER_BYTES + n + CRC_BYTES > |file| - offset then Cut
      else
        var body := offset + HEADER_BYTES;
        Complete(RawFrame(file[offset], offset, body + n + CRC_BYTES, file[body..body + n],
                          file[offset..body + n + CRC_BYTES],
                          c.crc(file[offset..body + n]) == Value(file[body + n..body + n + CRC_BYTES])))
  }

  lemma U32RoundTrip(n: nat)
    requires n <= U32_MAX
    ensures Value(U32(n)) == n
  {
    assert Pow256(4) == U32_MAX + 1 by {
      assert Pow256(1) == 256 && Pow256(2) == 256 * Pow256(1) && Pow256(3) == 256 * Pow256(2);
    }
    ToBytesRoundTrip(n, 4);
  }

  /** A frame written at an offset is read back whole, with a valid checksum. */
  lemma ReadWritten(c: Codec, file: Bytes, offset: nat, frameType: Byte, payload: Bytes)
    requires frameType != 0 && |payload| <= MAX_PAYLOAD_BYTES
    requires var bytes := FrameBytes(c, frameType, payload);
             offset + |bytes| <= |file| && file[offset..offset + |bytes|] == bytes
    ensures var bytes := FrameBytes(c, frameType, payload);
            ReadFrame(c, file, offset) == Complete(RawFrame(frameType, offset, offset + |bytes|, payload, bytes, true))
  {
    var bytes := FrameBytes(c, frameType, payload);
    var covered := Covered(frameType, payload);
    FramePieces(c, frameType, payload);
    var body := offset + HEADER_BYTES;
    assert file[offset] == file[offset..offset + |bytes|][0];
    Slice(file, offset, bytes, 1, HEADER_BYTES);
    Slice(file, offset, bytes, HEADER_BYTES, HEADER_BYTES + |payload|);
    Slice(file, offset, bytes, 0, HEADER_BYTES + |payload|);
    Slice(file, offset, bytes, HEADER_BYTES + |payload|, |bytes|);
    U32RoundTrip(|payload|);
    U32RoundTrip(c.crc(covered));
  }

  lemma Slice(file: Bytes, offset: nat, part: Bytes, i: nat, j: nat)
    requires offset + |part| <= |file| && file[offset..offset + |part|] == part && i <= j <= |part|
    ensures file[offset + i..offset + j] == part[i..j]
  {
    forall k | 0 <= k < j - i
      ensures file[offset + i..offset + j][k] == part[i..j][k]
    {
      assert file[offset..offset + |part|][i + k] == file[offset + i + k];
    }
  }

  lemma FramePieces(c: Codec, frameType: Byte, payload: Bytes)
    ensures var bytes := FrameBytes(c, frameType, payload);
            var covered := Covered(frameType, payload);
            && bytes[0] == frameType && bytes[1..HEADER_BYTES] == U32(|payload|)
            && bytes[HEADER_BYTES..HEADER_BYTES + |payload|] == payload
            && bytes[0..HEADER_BYTES + |payload|] == covered
            && bytes[HEADER_BYTES + |payload|..] == U32(c.crc(covered))
  {
  }

  /** A frame cut short by the end of the file is recognised as cut, wherever the cut is. */
  lemma ReadCut(c: Codec, file: Bytes, offset: nat, frameType: Byte, payload: Bytes)
    requires frameType != 0 && |payload| <= MAX_PAYLOAD_BYTES && offset < |file|
    requires var bytes := FrameBytes(c, frameType, payload);
             |file| - offset < |bytes| && file[offset..] == bytes[..|file| - offset]
    ensures ReadFrame(c, file, offset) == Cut
  {
    var bytes := FrameBytes(c, frameType, payload);
    FramePieces(c, frameType, payload);
    assert file[offset] == file[offset..][0];
    if |file| - offset >= HEADER_BYTES {
      assert file[offset + 1..offset + HEADER_BYTES] == file[offset..][1..HEADER_BYTES];
      assert file[offset..][1..HEADER_BYTES] == bytes[1..HEADER_BYTES];
      U32RoundTrip(|payload|);
    }
  }

  // ---------------------------------------------------------------- the whole file

  datatype Scan = Scan(frames: seq<RawFrame>, truncated: Option<nat>, end: nat)

  /** Reading frames from an offset until the log ends, is cut, or claims an impossible length. */
  function ScanFrom(c: Codec, file: Bytes, offset: nat): Result<Scan, WalError>
    requires offset <= |file|
    decreases |file| - offset
  {
    match ReadFrame(c, file, offset)
    case EndOfLog => Ok(Scan([], None, offset))
    case Cut => Ok(Scan([], Some(offset), offset))
    case Oversized => Err(CorruptFrame(offset))
    case Complete(f) => Found([f], ScanFrom(c, file, f.end))
  }

  function Found(before: seq<RawFrame>, rest: Result<Scan, WalError>): Result<Scan, WalError> {
    match rest
    case Err(e) => Err(e)
    case Ok(s) => Ok(s.(frames := before + s.frames))
  }

  /** One frame, field by field. */
  method ReadAt(c: Codec, file: Bytes, offset: nat) returns (r: Reading)
    requires offset < |file|
    ensures r == ReadFrame(c, file, offset)
  {
    var frameType := file[offset];
    if frameType == 0 {
      return EndOfLog;
    }
    if |file| - offset < HEADER_BYTES {
      return Cut;
    }
    var payloadLen := Value(file[offset + 1..offset + HEADER_BYTES]);
    if payloadLen > MAX_PAYLOAD_BYTES {
      return Oversized;
    }
    var frameLen := HEADER_BYTES + payloadLen + CRC_BYTES;
    if frameLen > |file| - offset {
      return Cut;
    }
    var body := offset + HEADER_BYTES;
    var payload := file[body..body + payloadLen];
    var crcValid := c.crc(file[offset..body + payloadLen]) == Value(file[body + payloadLen..offset + frameLen]);
    r := Complete(RawFrame(frameType, offset, offset + frameLen, payload, file[offset..offset + frameLen], crcValid));
  }

  /** The parser loop. */
  method ScanFile(c: Codec, file: Bytes) returns (r: Result<Scan, WalError>)
    ensures r == ScanFrom(c, file, 0)
  {
    var frames: seq<RawFrame> := [];
    var offset := 0;
    FoundNothing(ScanFrom(c, file, 0));
    while offset < |file|
      invariant offset <= |file|
      invariant ScanFrom(c, file, 0) == Found(frames, ScanFrom(c, file, offset))
      decreases |file| - offset
    {
      var reading := ReadAt(c, file, offset);
      match reading {
        case EndOfLog => break;
        case Cut =>
          assert frames + [] == frames;
          return Ok(Scan(frames, Some(offset), offset));
        case Oversized => return Err(CorruptFrame(offset));
        case Complete(frame) =>
          FoundTwice(frames, frame, ScanFrom(c, file, frame.end));
          frames := frames + [frame];
          offset := frame.end;
      }
    }
    assert frames + [] == frames;
    return Ok(Scan(frames, None, offset));
  }

  lemma FoundNothing(rest: Result<Scan, WalError>)
    ensures Found([], rest) == rest
  {
    if rest.Ok? {
      assert [] + rest.value.frames == rest.value.frames;
    }
  }

  lemma FoundTwice(before: seq<RawFrame>, f: RawFrame, rest: Result<Scan, WalError>)
    ensures Found(before, Found([f], rest)) == Found(before + [f], rest)
  {
    if rest.Ok? {
      assert before + ([f] + rest.value.frames) == (before + [f]) + rest.value.frames;
    }
  }

  /** The digest of everything before an offset, fed in 8 KiB chunks. */
  method HashPrefix(c: Codec, file: Bytes, end: nat) returns (digest: Digest)
    requires end <= |file|
    ensures digest == c.digest(file[..end])
  {
    var fed: Bytes := [];
    var remaining := end;
    while remaining > 0
      invariant 0 <= remaining <= end
      invariant fed == file[..end - remaining]
    {
      var chunk := if remaining < 8192 then remaining else 8192;
      var at := end - remaining;
      fed := fed + file[at..at + chunk];
      assert file[..at + chunk] == file[..at] + file[at..at + chunk];
      remaining := remaining - chunk;
    }
    digest := c.digest(fed);
  }
}
