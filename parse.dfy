/** `parse` as a whole (main.go:71-187): the two headers, the session-info
    block, the variable records, the name table and the frame walk, each
    stage stopping the program (here: an error result) when its slice
    falls outside the capture. */
module Parser {
  import opened LittleEndian
  import opened Errors
  import opened Headers
  import opened VarRecords
  import opened NameTable
  import opened Frames

  /** Everything `parse` builds before it starts writing the trace, and the
      trace lines themselves as samples. */
  datatype Parsed = Parsed(
    header: TelemetryHeader,
    disk: DiskHeader,
    sessionInfo: seq<byte>,
    varHeaders: seq<VarHeader>,
    varMap: map<string, VarHeader>,
    trace: seq<Sample>)

  /** The records `parse` reads: NumVars of them, measured from byte 0. */
  function Records(bs: seq<byte>, base: int, n: nat): seq<VarHeader>
    requires n == 0 || (0 <= base && base + n * RecordSize <= |bs|)
  {
    seq(n, j requires 0 <= j < n => RecordAt(bs, base, j))
  }

  /** All stages before the frame walk succeed. */
  predicate TablesRead(bs: seq<byte>) {
    |bs| >= DiskHeaderEnd
    && var h := DecodeTelemetryHeader(bs).value;
       SessionInfoInBounds(h, |bs|) && 1 <= h.numVars && h.numVars * RecordSize <= |bs|
  }

  function HeaderOf(bs: seq<byte>): TelemetryHeader
    requires |bs| >= HeaderSpan
  {
    DecodeTelemetryHeader(bs).value
  }

  /** The map the frame walk consults: every record but record 0, filed
      under its lowercased name. */
  function VarMapOf(bs: seq<byte>): map<string, VarHeader>
    requires TablesRead(bs)
  {
    TableOf(Records(bs, 0, HeaderOf(bs).numVars)[1..])
  }

  /** The frame positions are computed in int32 by `parse`; see
      WalkFitsInt32. A capture that fails before the frame loop computes
      none of them. */
  predicate ParseFitsInt32(bs: seq<byte>) {
    TablesRead(bs) ==> WalkFitsInt32(HeaderOf(bs), |bs|)
  }

  method Parse(bs: seq<byte>) returns (r: Result<Parsed>)
    requires ParseFitsInt32(bs)
    // The stages fail in program order, each with its own error.
    ensures r == Err(HeaderOutOfRange) <==> |bs| < HeaderSpan
    ensures r == Err(DiskHeaderOutOfRange) <==> HeaderSpan <= |bs| < DiskHeaderEnd
    ensures |bs| >= DiskHeaderEnd ==>
      (r == Err(SessionInfoOutOfRange) <==> !SessionInfoInBounds(HeaderOf(bs), |bs|))
    ensures |bs| >= DiskHeaderEnd && SessionInfoInBounds(HeaderOf(bs), |bs|) ==>
      ((r.Err? && r.error.VarRecordOutOfRange?)
         <==> 1 <= HeaderOf(bs).numVars && |bs| < HeaderOf(bs).numVars * RecordSize)
    ensures |bs| >= DiskHeaderEnd && SessionInfoInBounds(HeaderOf(bs), |bs|) ==>
      (r == Err(NoVarRecords) <==> HeaderOf(bs).numVars <= 0)
    // Once the tables are read, the outcome is the frame walk's.
    ensures TablesRead(bs) ==>
      (r.Ok? <==> Walk(bs, HeaderOf(bs), VarMapOf(bs)).Ok?)
      && (r.Err? ==> r.error == Walk(bs, HeaderOf(bs), VarMapOf(bs)).error)
    ensures r.Ok? ==>
      TablesRead(bs)
      && r.value == Parsed(HeaderOf(bs), DecodeDiskHeader(bs).value,
                           SessionInfo(bs, HeaderOf(bs)).value,
                           Records(bs, 0, HeaderOf(bs).numVars), VarMapOf(bs),
                           Walk(bs, HeaderOf(bs), VarMapOf(bs)).value)
  {
    var header := DecodeTelemetryHeader(bs);
    if header.Err? {
      return Err(header.error);
    }
    var h := header.value;
    var disk := DecodeDiskHeader(bs);
    if disk.Err? {
      return Err(disk.error);
    }
    var sessionInfo := SessionInfo(bs, h);
    if sessionInfo.Err? {
      return Err(sessionInfo.error);
    }
    var varHeaders := ReadVarHeaders(bs, 0, h.numVars);
    if varHeaders.Err? {
      return Err(varHeaders.error);
    }
    var varMap := BuildVarMap(varHeaders.value);
    if varMap.Err? {
      return Err(varMap.error);
    }
    assert varHeaders.value == Records(bs, 0, h.numVars);
    var trace := WalkFrames(bs, h, varMap.value);
    WalkFromErrors(bs, h.bufLen, LayoutOf(varMap.value), 0, h.bufOffset);
    if trace.Err? {
      return Err(trace.error);
    }
    return Ok(Parsed(h, disk.value, sessionInfo.value, varHeaders.value, varMap.value, trace.value));
  }

  /** `parse` reads record i from byte 144 * i instead of from
      VarHeaderOffset + 144 * i. When the table really starts right after
      the two headers, the records it files in the name table are the
      declared records 0 .. NumVars - 2: the last declared variable is read
      from nowhere and is missing from the table unless another record
      shares its name. */
  lemma AsWrittenDropsLast(bs: seq<byte>)
    requires TablesRead(bs)
    requires DiskHeaderEnd + HeaderOf(bs).numVars * RecordSize <= |bs|
    ensures var n := HeaderOf(bs).numVars;
      Records(bs, 0, n)[1..] == Records(bs, DiskHeaderEnd, n)[..n - 1]
    ensures var n := HeaderOf(bs).numVars;
      var last := RecordAt(bs, DiskHeaderEnd, n - 1);
      (forall j :: 0 <= j < n - 1 ==> Key(RecordAt(bs, DiskHeaderEnd, j)) != Key(last))
        ==> Key(last) !in VarMapOf(bs)
  {
    var n := HeaderOf(bs).numVars;
    var asWritten, declared := Records(bs, 0, n)[1..], Records(bs, DiskHeaderEnd, n)[..n - 1];
    forall j | 0 <= j < n - 1
      ensures asWritten[j] == declared[j]
    {
      AsWrittenShift(bs, j);
    }
    assert asWritten == declared;
    TableKeys(asWritten);
  }
}
