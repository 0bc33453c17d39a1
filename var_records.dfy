/** The 144-byte variable records, their text accessors and the loop of
    `parse` that reads NumVars of them (main.go:49-69, main.go:98-107). */
module VarRecords {
  import opened LittleEndian
  import opened Errors
  import opened Headers

  const RecordSize: nat := 144

  function Zeros(n: nat): (z: seq<byte>)
    ensures |z| == n
  {
    if n == 0 then [] else [0] + Zeros(n - 1)
  }

  /** The `Stuff [128]byte` area that holds name, description and unit. */
  type Stuff = s: seq<byte> | |s| == 128 witness Zeros(128)

  /** VarHeader: Type, Offset, Count (int32), CountAsTime (int8), three
      skipped bytes, then Stuff. */
  datatype VarHeader = VarHeader(typ: int, offset: int, count: int, countAsTime: int, stuff: Stuff)
  {
    predicate Valid() {
      IsInt32(typ) && IsInt32(offset) && IsInt32(count) && IsInt8(countAsTime)
    }
  }

  /** Go's zero VarHeader, what a map miss yields. */
  const ZeroVarHeader: VarHeader := VarHeader(0, 0, 0, 0, Zeros(128))

  predicate NoNul(s: seq<byte>) {
    forall i :: 0 <= i < |s| ==> s[i] != 0
  }

  /** strings.ReplaceAll(s, "\x00", ""): every zero byte removed, the rest
      kept in order. */
  function StripNul(s: seq<byte>): (r: seq<byte>)
    ensures |r| <= |s|
    ensures NoNul(r)
  {
    if s == [] then []
    else (if s[0] == 0 then [] else [s[0]]) + StripNul(s[1..])
  }

  /** A field without NUL bytes is returned unchanged. */
  lemma {:induction false} StripNulIdentity(s: seq<byte>)
    requires NoNul(s)
    ensures StripNul(s) == s
  {
    if s != [] {
      StripNulIdentity(s[1..]);
    }
  }

  lemma StripNulIdempotent(s: seq<byte>)
    ensures StripNul(StripNul(s)) == StripNul(s)
  {
    StripNulIdentity(StripNul(s));
  }

  /** Stripping works piecewise, so together with its effect on one byte it
      determines StripNul completely. */
  lemma {:induction false} StripNulAppend(a: seq<byte>, b: seq<byte>)
    ensures StripNul(a + b) == StripNul(a) + StripNul(b)
  {
    if a == [] {
      assert a + b == b;
    } else {
      assert (a + b)[1..] == a[1..] + b;
      StripNulAppend(a[1..], b);
    }
  }

  /** Exactly the non-NUL bytes survive, each as often as it occurs. */
  lemma {:induction false} StripNulMultiset(s: seq<byte>)
    ensures multiset(StripNul(s)) == multiset(s)[0 := 0]
  {
    if s != [] {
      StripNulMultiset(s[1..]);
      assert s == [s[0]] + s[1..];
    }
  }

  /** Name(): Stuff[0:32] with its NULs removed. */
  function Name(v: VarHeader): (r: seq<byte>)
    ensures |r| <= 32 && NoNul(r)
  {
    StripNul(v.stuff[0..32])
  }

  /** Description(): Stuff[32:96] with its NULs removed. */
  function Description(v: VarHeader): (r: seq<byte>)
    ensures |r| <= 64 && NoNul(r)
  {
    StripNul(v.stuff[32..96])
  }

  /** Unit(): Stuff[96:128] with its NULs removed. */
  function Unit(v: VarHeader): (r: seq<byte>)
    ensures |r| <= 32 && NoNul(r)
  {
    StripNul(v.stuff[96..128])
  }

  /** What the three accessors promise about a text field: it is the field
      itself when the field holds no NUL, stripping it again changes
      nothing, and it holds exactly the field's non-NUL bytes. */
  lemma TextField(field: seq<byte>, text: seq<byte>)
    requires text == StripNul(field)
    ensures NoNul(field) ==> text == field
    ensures StripNul(text) == text
    ensures multiset(text) == multiset(field)[0 := 0]
  {
    if NoNul(field) {
      StripNulIdentity(field);
    }
    StripNulIdempotent(field);
    StripNulMultiset(field);
  }

  lemma NameText(v: VarHeader)
    ensures NoNul(v.stuff[0..32]) ==> Name(v) == v.stuff[0..32]
    ensures StripNul(Name(v)) == Name(v)
    ensures multiset(Name(v)) == multiset(v.stuff[0..32])[0 := 0]
  {
    TextField(v.stuff[0..32], Name(v));
  }

  lemma DescriptionText(v: VarHeader)
    ensures NoNul(v.stuff[32..96]) ==> Description(v) == v.stuff[32..96]
    ensures StripNul(Description(v)) == Description(v)
    ensures multiset(Description(v)) == multiset(v.stuff[32..96])[0 := 0]
  {
    TextField(v.stuff[32..96], Description(v));
  }

  lemma UnitText(v: VarHeader)
    ensures NoNul(v.stuff[96..128]) ==> Unit(v) == v.stuff[96..128]
    ensures StripNul(Unit(v)) == Unit(v)
    ensures multiset(Unit(v)) == multiset(v.stuff[96..128])[0 := 0]
  {
    TextField(v.stuff[96..128], Unit(v));
  }

  /** binary.Read of one 144-byte record. */
  function DecodeVarRecord(rec: seq<byte>): (v: VarHeader)
    requires |rec| == RecordSize
    ensures v.Valid()
  {
    VarHeader(Int32(rec[0..4]), Int32(rec[4..8]), Int32(rec[8..12]), Int8(rec[12]), rec[16..144])
  }

  /** The 144-byte image of a record, with the three skipped bytes given. */
  function EncodeVarRecord(v: VarHeader, pad: seq<byte>): (b: seq<byte>)
    requires v.Valid() && |pad| == 3
    ensures |b| == RecordSize
  {
    EncodeInt32(v.typ) + EncodeInt32(v.offset) + EncodeInt32(v.count) + [EncodeInt8(v.countAsTime)]
    + pad + v.stuff
  }

  lemma DecodeEncodeVarRecord(v: VarHeader, pad: seq<byte>)
    requires v.Valid() && |pad| == 3
    ensures DecodeVarRecord(EncodeVarRecord(v, pad)) == v
  {
    var e := EncodeVarRecord(v, pad);
    assert e[0..4] == EncodeInt32(v.typ);
    assert e[4..8] == EncodeInt32(v.offset);
    assert e[8..12] == EncodeInt32(v.count);
    assert e[16..144] == v.stuff;
    Int32OfEncode(v.typ);
    Int32OfEncode(v.offset);
    Int32OfEncode(v.count);
  }

  /** Type at +0, Offset at +4, Count at +8, CountAsTime at +12, the pad at
      +13..+16 and Stuff at +16..+144: re-encoding rebuilds the record. */
  lemma EncodeDecodeVarRecord(rec: seq<byte>)
    requires |rec| == RecordSize
    ensures EncodeVarRecord(DecodeVarRecord(rec), rec[13..16]) == rec
  {
    EncodeOfInt32(rec[0..4]);
    EncodeOfInt32(rec[4..8]);
    EncodeOfInt32(rec[8..12]);
    EncodeOfInt8(rec[12]);
    assert rec == rec[0..4] + rec[4..8] + rec[8..12] + [rec[12]] + rec[13..16] + rec[16..144];
  }

  /** Record `i` of a table that starts at byte `base` lies inside the capture. */
  predicate RecordInBounds(len: nat, base: int, i: int) {
    0 <= base + i * RecordSize && base + i * RecordSize + RecordSize <= len
  }

  function RecordAt(bs: seq<byte>, base: int, i: int): VarHeader
    requires RecordInBounds(|bs|, base, i)
  {
    DecodeVarRecord(bs[base + i * RecordSize..base + i * RecordSize + RecordSize])
  }

  /** The records are contiguous, so all `n` of them fit exactly when the
      first starts inside the capture and the last ends inside it. */
  lemma RecordsFit(len: nat, base: int, n: int)
    ensures (forall j :: 0 <= j < n ==> RecordInBounds(len, base, j))
        <==> (n <= 0 || (0 <= base && base + n * RecordSize <= len))
  {
    if n > 0 && 0 <= base && base + n * RecordSize <= len {
      forall j | 0 <= j < n ensures RecordInBounds(len, base, j) {
      }
    }
    if n > 0 && (forall j :: 0 <= j < n ==> RecordInBounds(len, base, j)) {
      assert RecordInBounds(len, base, 0);
      assert RecordInBounds(len, base, n - 1);
    }
  }

  /** The loop of `parse` that reads NumVars records in index order; record
      `i` is decoded from bytes base + 144 * i and the slice of the first
      record outside the capture fails. `parse` itself passes base 0. */
  method ReadVarHeaders(bs: seq<byte>, base: int, numVars: int) returns (r: Result<seq<VarHeader>>)
    ensures r.Ok? <==> (numVars <= 0 || (0 <= base && base + numVars * RecordSize <= |bs|))
    ensures r.Ok? ==> |r.value| == (if numVars <= 0 then 0 else numVars)
    ensures r.Ok? ==> forall j :: 0 <= j < |r.value| ==>
      RecordInBounds(|bs|, base, j) && r.value[j] == RecordAt(bs, base, j)
    ensures r.Err? ==> r.error.VarRecordOutOfRange? && 0 <= r.error.index < numVars
    ensures r.Err? ==> !RecordInBounds(|bs|, base, r.error.index)
    ensures r.Err? ==> forall j :: 0 <= j < r.error.index ==> RecordInBounds(|bs|, base, j)
  {
    RecordsFit(|bs|, base, numVars);
    var varHeaders: seq<VarHeader> := [];
    var i := 0;
    while i < numVars
      invariant 0 <= i <= (if numVars <= 0 then 0 else numVars)
      invariant |varHeaders| == i
      invariant forall j :: 0 <= j < i ==> RecordInBounds(|bs|, base, j) && varHeaders[j] == RecordAt(bs, base, j)
    {
      var start := base + i * RecordSize;
      var end := start + RecordSize;
      if !(0 <= start && end <= |bs|) {
        return Err(VarRecordOutOfRange(i));
      }
      varHeaders := varHeaders + [DecodeVarRecord(bs[start..end])];
      i := i + 1;
    }
    return Ok(varHeaders);
  }

  /** Measured from the start of the capture, record 0 is the file header:
      its Type, Offset and Count are the header's Version, Status and
      TickRate and its text area is header bytes 16..144. */
  lemma RecordZeroIsHeader(bs: seq<byte>)
    requires |bs| >= RecordSize
    ensures RecordInBounds(|bs|, 0, 0)
    ensures var h, v := DecodeTelemetryHeader(bs).value, RecordAt(bs, 0, 0);
      v.typ == h.version && v.offset == h.status && v.count == h.tickRate
      && v.stuff == bs[16..RecordSize] && Name(v) == StripNul(bs[16..48])
  {
    var rec := bs[0..RecordSize];
    assert rec[0..4] == bs[0..4] && rec[4..8] == bs[4..8] && rec[8..12] == bs[8..12];
    assert rec[16..RecordSize] == bs[16..RecordSize];
    assert rec[16..RecordSize][0..32] == bs[16..48];
  }

  /** When the table really starts at VarHeaderOffset = 144 (right after the
      112 + 32 header bytes), record i + 1 measured from the file start is
      declared record i: every record is shifted by one. */
  lemma AsWrittenShift(bs: seq<byte>, i: int)
    requires RecordInBounds(|bs|, DiskHeaderEnd, i)
    ensures RecordInBounds(|bs|, 0, i + 1)
    ensures RecordAt(bs, 0, i + 1) == RecordAt(bs, DiskHeaderEnd, i)
  {
  }
}
