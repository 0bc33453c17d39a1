/** The two fixed headers at the start of an .ibt capture and the bounds of
    the session-info text block (main.go:23-47, main.go:71-95). */
module Headers {
  import opened LittleEndian
  import opened Errors

  /** `parse` slices this many bytes for the primary header ... */
  const HeaderSpan: nat := 112
  /** ... of which binary.Read consumes the 56 that TelemetryHeader occupies. */
  const HeaderSize: nat := 56
  /** The disk header is read from bs[112:144]. */
  const DiskHeaderStart: nat := 112
  const DiskHeaderEnd: nat := 144

  /** TelemetryHeader: ten int32 fields, 12 skipped bytes, then BufOffset. */
  datatype TelemetryHeader = TelemetryHeader(
    version: int, status: int, tickRate: int,
    sessionInfoUpdate: int, sessionInfoLength: int, sessionInfoOffset: int,
    numVars: int, varHeaderOffset: int,
    numBuf: int, bufLen: int, bufOffset: int)
  {
    predicate Valid() {
      IsInt32(version) && IsInt32(status) && IsInt32(tickRate)
      && IsInt32(sessionInfoUpdate) && IsInt32(sessionInfoLength) && IsInt32(sessionInfoOffset)
      && IsInt32(numVars) && IsInt32(varHeaderOffset)
      && IsInt32(numBuf) && IsInt32(bufLen) && IsInt32(bufOffset)
    }
  }

  /** DiskHeader: three float64 fields, kept as their raw 64-bit patterns,
      then two int32 fields. */
  datatype DiskHeader = DiskHeader(
    startDate: nat, startTime: nat, endTime: nat,
    lapCount: int, recordCount: int)
  {
    predicate Valid() {
      startDate < Pow256(8) && startTime < Pow256(8) && endTime < Pow256(8)
      && IsInt32(lapCount) && IsInt32(recordCount)
    }
  }

  function I32At(bs: seq<byte>, at: nat): int
    requires at + 4 <= |bs|
  {
    Int32(bs[at..at + 4])
  }

  function U64At(bs: seq<byte>, at: nat): nat
    requires at + 8 <= |bs|
  {
    Unsigned(bs[at..at + 8])
  }

  /** The primary header; the slice bs[:112] fails on a shorter capture. */
  function DecodeTelemetryHeader(bs: seq<byte>): (r: Result<TelemetryHeader>)
    ensures r.Ok? <==> |bs| >= HeaderSpan
    ensures r.Err? ==> r.error == HeaderOutOfRange
    ensures r.Ok? ==> r.value.Valid()
  {
    if |bs| < HeaderSpan then Err(HeaderOutOfRange)
    else Ok(TelemetryHeader(
      I32At(bs, 0), I32At(bs, 4), I32At(bs, 8),
      I32At(bs, 12), I32At(bs, 16), I32At(bs, 20),
      I32At(bs, 24), I32At(bs, 28),
      I32At(bs, 32), I32At(bs, 36), I32At(bs, 52)))
  }

  /** The 56-byte image of a header, with the 12 skipped bytes given. */
  function EncodeTelemetryHeader(h: TelemetryHeader, reserved: seq<byte>): (b: seq<byte>)
    requires h.Valid() && |reserved| == 12
    ensures |b| == HeaderSize
  {
    EncodeInt32(h.version) + EncodeInt32(h.status) + EncodeInt32(h.tickRate)
    + EncodeInt32(h.sessionInfoUpdate) + EncodeInt32(h.sessionInfoLength) + EncodeInt32(h.sessionInfoOffset)
    + EncodeInt32(h.numVars) + EncodeInt32(h.varHeaderOffset)
    + EncodeInt32(h.numBuf) + EncodeInt32(h.bufLen) + reserved + EncodeInt32(h.bufOffset)
  }

  /** Decoding an encoded header gives it back, whatever follows it. */
  lemma DecodeEncodeTelemetryHeader(h: TelemetryHeader, reserved: seq<byte>, rest: seq<byte>)
    requires h.Valid() && |reserved| == 12 && |rest| >= HeaderSpan - HeaderSize
    ensures DecodeTelemetryHeader(EncodeTelemetryHeader(h, reserved) + rest) == Ok(h)
  {
    var e := EncodeTelemetryHeader(h, reserved) + rest;
    assert e[0..4] == EncodeInt32(h.version);
    assert e[4..8] == EncodeInt32(h.status);
    assert e[8..12] == EncodeInt32(h.tickRate);
    assert e[12..16] == EncodeInt32(h.sessionInfoUpdate);
    assert e[16..20] == EncodeInt32(h.sessionInfoLength);
    assert e[20..24] == EncodeInt32(h.sessionInfoOffset);
    assert e[24..28] == EncodeInt32(h.numVars);
    assert e[28..32] == EncodeInt32(h.varHeaderOffset);
    assert e[32..36] == EncodeInt32(h.numBuf);
    assert e[36..40] == EncodeInt32(h.bufLen);
    assert e[52..56] == EncodeInt32(h.bufOffset);
    Int32OfEncode(h.version);
    Int32OfEncode(h.status);
    Int32OfEncode(h.tickRate);
    Int32OfEncode(h.sessionInfoUpdate);
    Int32OfEncode(h.sessionInfoLength);
    Int32OfEncode(h.sessionInfoOffset);
    Int32OfEncode(h.numVars);
    Int32OfEncode(h.varHeaderOffset);
    Int32OfEncode(h.numBuf);
    Int32OfEncode(h.bufLen);
    Int32OfEncode(h.bufOffset);
  }

  /** Every field comes from its own four bytes: re-encoding the decoded
      header with the skipped bytes 40..52 rebuilds the first 56 bytes. */
  lemma EncodeDecodeTelemetryHeader(bs: seq<byte>)
    requires |bs| >= HeaderSpan
    ensures EncodeTelemetryHeader(DecodeTelemetryHeader(bs).value, bs[40..52]) == bs[..HeaderSize]
  {
    var h := DecodeTelemetryHeader(bs).value;
    assert h == TelemetryHeader(
      I32At(bs, 0), I32At(bs, 4), I32At(bs, 8),
      I32At(bs, 12), I32At(bs, 16), I32At(bs, 20),
      I32At(bs, 24), I32At(bs, 28),
      I32At(bs, 32), I32At(bs, 36), I32At(bs, 52));
    I32AtBytes(bs, 0);
    I32AtBytes(bs, 4);
    I32AtBytes(bs, 8);
    I32AtBytes(bs, 12);
    I32AtBytes(bs, 16);
    I32AtBytes(bs, 20);
    I32AtBytes(bs, 24);
    I32AtBytes(bs, 28);
    I32AtBytes(bs, 32);
    I32AtBytes(bs, 36);
    I32AtBytes(bs, 52);
    EncodeInPlace(h, bs);
  }

  /** A header whose every field encodes to the bytes at its offset
      re-encodes to the first 56 bytes. */
  lemma EncodeInPlace(h: TelemetryHeader, bs: seq<byte>)
    requires h.Valid() && |bs| >= HeaderSpan
    requires EncodeInt32(h.version) == bs[0..4] && EncodeInt32(h.status) == bs[4..8]
    requires EncodeInt32(h.tickRate) == bs[8..12] && EncodeInt32(h.sessionInfoUpdate) == bs[12..16]
    requires EncodeInt32(h.sessionInfoLength) == bs[16..20] && EncodeInt32(h.sessionInfoOffset) == bs[20..24]
    requires EncodeInt32(h.numVars) == bs[24..28] && EncodeInt32(h.varHeaderOffset) == bs[28..32]
    requires EncodeInt32(h.numBuf) == bs[32..36] && EncodeInt32(h.bufLen) == bs[36..40]
    requires EncodeInt32(h.bufOffset) == bs[52..56]
    ensures EncodeTelemetryHeader(h, bs[40..52]) == bs[..HeaderSize]
  {
    SliceSplit(bs, 0, 4, 8);
    SliceSplit(bs, 0, 8, 12);
    SliceSplit(bs, 0, 12, 16);
    SliceSplit(bs, 0, 16, 20);
    SliceSplit(bs, 0, 20, 24);
    SliceSplit(bs, 0, 24, 28);
    SliceSplit(bs, 0, 28, 32);
    SliceSplit(bs, 0, 32, 36);
    SliceSplit(bs, 0, 36, 40);
    SliceSplit(bs, 0, 40, 52);
    SliceSplit(bs, 0, 52, 56);
    assert bs[..HeaderSize] == bs[0..56];
  }

  /** Bytes 56..112 are sliced but never read. */
  lemma TelemetryHeaderIgnoresTail(bs: seq<byte>, bs': seq<byte>)
    requires |bs| >= HeaderSpan && |bs'| >= HeaderSpan
    requires bs[..HeaderSize] == bs'[..HeaderSize]
    ensures DecodeTelemetryHeader(bs) == DecodeTelemetryHeader(bs')
  {
    EncodeDecodeTelemetryHeader(bs);
    EncodeDecodeTelemetryHeader(bs');
    assert bs[40..52] == bs'[40..52] by {
      assert bs[40..52] == bs[..HeaderSize][40..52];
      assert bs'[40..52] == bs'[..HeaderSize][40..52];
    }
    var h, h' := DecodeTelemetryHeader(bs).value, DecodeTelemetryHeader(bs').value;
    var rest := bs[HeaderSize..HeaderSpan];
    DecodeEncodeTelemetryHeader(h, bs[40..52], rest);
    DecodeEncodeTelemetryHeader(h', bs[40..52], rest);
  }

  /** The disk header; the slice bs[112:144] fails on a shorter capture. */
  function DecodeDiskHeader(bs: seq<byte>): (r: Result<DiskHeader>)
    ensures r.Ok? <==> |bs| >= DiskHeaderEnd
    ensures r.Err? ==> r.error == DiskHeaderOutOfRange
    ensures r.Ok? ==> r.value.Valid()
  {
    if |bs| < DiskHeaderEnd then Err(DiskHeaderOutOfRange)
    else Ok(DiskHeader(U64At(bs, 112), U64At(bs, 120), U64At(bs, 128), I32At(bs, 136), I32At(bs, 140)))
  }

  /** The 32-byte image of a disk header. */
  function EncodeDiskHeader(d: DiskHeader): (b: seq<byte>)
    requires d.Valid()
    ensures |b| == DiskHeaderEnd - DiskHeaderStart
  {
    Bytes(d.startDate, 8) + Bytes(d.startTime, 8) + Bytes(d.endTime, 8)
    + EncodeInt32(d.lapCount) + EncodeInt32(d.recordCount)
  }

  /** A disk header placed after any 112 bytes decodes to itself, whatever
      follows it. */
  lemma DecodeEncodeDiskHeader(prefix: seq<byte>, d: DiskHeader, rest: seq<byte>)
    requires |prefix| == DiskHeaderStart && d.Valid()
    ensures DecodeDiskHeader(prefix + EncodeDiskHeader(d) + rest) == Ok(d)
  {
    var e := prefix + EncodeDiskHeader(d) + rest;
    assert e[112..120] == Bytes(d.startDate, 8);
    assert e[120..128] == Bytes(d.startTime, 8);
    assert e[128..136] == Bytes(d.endTime, 8);
    assert e[136..140] == EncodeInt32(d.lapCount);
    assert e[140..144] == EncodeInt32(d.recordCount);
    UnsignedOfBytes(d.startDate, 8);
    UnsignedOfBytes(d.startTime, 8);
    UnsignedOfBytes(d.endTime, 8);
    Int32OfEncode(d.lapCount);
    Int32OfEncode(d.recordCount);
  }

  lemma U64AtBytes(bs: seq<byte>, at: nat)
    requires at + 8 <= |bs|
    ensures Bytes(U64At(bs, at), 8) == bs[at..at + 8]
  {
    BytesOfUnsigned(bs[at..at + 8]);
  }

  lemma I32AtBytes(bs: seq<byte>, at: nat)
    requires at + 4 <= |bs|
    ensures EncodeInt32(I32At(bs, at)) == bs[at..at + 4]
  {
    EncodeOfInt32(bs[at..at + 4]);
  }

  /** The disk header is exactly bytes 112..144. */
  lemma EncodeDecodeDiskHeader(bs: seq<byte>)
    requires |bs| >= DiskHeaderEnd
    ensures EncodeDiskHeader(DecodeDiskHeader(bs).value) == bs[DiskHeaderStart..DiskHeaderEnd]
  {
    var d := DecodeDiskHeader(bs).value;
    U64AtBytes(bs, 112);
    U64AtBytes(bs, 120);
    U64AtBytes(bs, 128);
    I32AtBytes(bs, 136);
    I32AtBytes(bs, 140);
    assert EncodeDiskHeader(d) == bs[112..120] + bs[120..128] + bs[128..136] + bs[136..140] + bs[140..144];
    SliceSplit(bs, 112, 120, 128);
    SliceSplit(bs, 112, 128, 136);
    SliceSplit(bs, 112, 136, 140);
    SliceSplit(bs, 112, 140, 144);
  }

  lemma SliceSplit(s: seq<byte>, i: nat, j: nat, k: nat)
    requires i <= j <= k <= |s|
    ensures s[i..k] == s[i..j] + s[j..k]
  {
  }

  /** `make([]byte, SessionInfoLength)` followed by the int32 slice
      bs[SessionInfoOffset : SessionInfoOffset + SessionInfoLength] succeeds
      exactly when both ends are non-negative, the int32 sum does not wrap
      (a wrapped end would lie below the start) and the end is in the capture. */
  predicate SessionInfoInBounds(h: TelemetryHeader, len: nat) {
    0 <= h.sessionInfoOffset && 0 <= h.sessionInfoLength
    && h.sessionInfoOffset + h.sessionInfoLength <= MaxInt32
    && h.sessionInfoOffset + h.sessionInfoLength <= len
  }

  /** The session-info text block, copied but never interpreted. */
  function SessionInfo(bs: seq<byte>, h: TelemetryHeader): (r: Result<seq<byte>>)
    ensures r.Ok? <==> SessionInfoInBounds(h, |bs|)
    ensures r.Err? ==> r.error == SessionInfoOutOfRange
    ensures r.Ok? ==> |r.value| == h.sessionInfoLength
    ensures r.Ok? ==> forall i :: 0 <= i < |r.value| ==> r.value[i] == bs[h.sessionInfoOffset + i]
  {
    if SessionInfoInBounds(h, |bs|)
    then Ok(bs[h.sessionInfoOffset..h.sessionInfoOffset + h.sessionInfoLength])
    else Err(SessionInfoOutOfRange)
  }
}
