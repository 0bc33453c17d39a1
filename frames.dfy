/** The frame loop of `parse` (main.go:128-186): frame `k` is the BufLen
    bytes at BufOffset + k * BufLen, the loop stops at the first frame that
    would end past the capture, and five channels are read from each frame
    at the offsets the name table gives them. */
module Frames {
  import opened LittleEndian
  import opened Errors
  import opened Headers
  import opened VarRecords
  import opened NameTable

  /** The widths `parse` hard-codes: int32 lap, float64 session time and
      float32 speed, throttle and brake. */
  const LapWidth: nat := 4
  const SessionTimeWidth: nat := 8
  const FloatWidth: nat := 4

  /** One printed trace line, with the lap it was read beside. The float
      channels are kept as their raw little-endian bit patterns. */
  datatype Sample = Sample(lap: int, sessionTime: seq<byte>, speed: seq<byte>, throttle: seq<byte>, brake: seq<byte>)

  /** buf[v.Offset : v.Offset + width] lies inside a frame of `frameLen` bytes. */
  predicate Fits(frameLen: int, v: VarHeader, width: nat) {
    0 <= v.offset && v.offset + width <= frameLen
  }

  /** The five records `parse` looks up in the name table for every frame;
      a missing name yields the zero record, so offset 0. The lookups do
      not depend on the frame, so every frame sees the same layout. */
  datatype Layout = Layout(lap: VarHeader, sessionTime: VarHeader, speed: VarHeader,
                           throttle: VarHeader, brake: VarHeader)

  function LayoutOf(varMap: map<string, VarHeader>): Layout {
    Layout(Lookup(varMap, "lap"), Lookup(varMap, "sessiontime"), Lookup(varMap, "speed"),
           Lookup(varMap, "throttle"), Lookup(varMap, "brake"))
  }

  /** Every one of the five channel windows lies inside a frame of `frameLen` bytes. */
  predicate ChannelsFit(frameLen: int, l: Layout) {
    && Fits(frameLen, l.lap, LapWidth)
    && Fits(frameLen, l.sessionTime, SessionTimeWidth)
    && Fits(frameLen, l.speed, FloatWidth)
    && Fits(frameLen, l.throttle, FloatWidth)
    && Fits(frameLen, l.brake, FloatWidth)
  }

  function Channel(frame: seq<byte>, v: VarHeader, width: nat): (b: seq<byte>)
    requires Fits(|frame|, v, width)
    ensures |b| == width
  {
    frame[v.offset..v.offset + width]
  }

  /** The channel `parse` fails on when not all five fit: the first one, in
      the order lap, sessiontime, speed, throttle, brake, whose window
      leaves the frame. */
  function Misfit(frameLen: int, l: Layout): (name: string)
    requires !ChannelsFit(frameLen, l)
    ensures name == "lap" <==> !Fits(frameLen, l.lap, LapWidth)
  {
    if !Fits(frameLen, l.lap, LapWidth) then "lap"
    else if !Fits(frameLen, l.sessionTime, SessionTimeWidth) then "sessiontime"
    else if !Fits(frameLen, l.speed, FloatWidth) then "speed"
    else if !Fits(frameLen, l.throttle, FloatWidth) then "throttle"
    else "brake"
  }

  /** The five decodes once every window is known to fit: an int32 lap and
      the raw bits of the float64 session time and the three float32s. */
  function ReadSample(frame: seq<byte>, l: Layout): (s: Sample)
    requires ChannelsFit(|frame|, l)
    ensures IsInt32(s.lap)
  {
    Sample(
      Int32(Channel(frame, l.lap, LapWidth)),
      Channel(frame, l.sessionTime, SessionTimeWidth),
      Channel(frame, l.speed, FloatWidth),
      Channel(frame, l.throttle, FloatWidth),
      Channel(frame, l.brake, FloatWidth))
  }

  /** The five reads from one frame, in the order `parse` does them; the
      first channel whose window leaves the frame fails. */
  function ExtractSample(frame: seq<byte>, l: Layout, k: nat): (r: Result<Sample>)
    ensures r.Ok? <==> ChannelsFit(|frame|, l)
    ensures r.Err? ==> r.error.ChannelOutOfRange? && r.error.frame == k
  {
    if ChannelsFit(|frame|, l) then Ok(ReadSample(frame, l))
    else Err(ChannelOutOfRange(k, Misfit(|frame|, l)))
  }

  /** A sample depends on nothing but the five windows it reads. */
  lemma ExtractReadsOnlyWindows(frame: seq<byte>, frame': seq<byte>, l: Layout, k: nat)
    requires |frame| == |frame'| && ChannelsFit(|frame|, l)
    requires Channel(frame, l.lap, LapWidth) == Channel(frame', l.lap, LapWidth)
    requires Channel(frame, l.sessionTime, SessionTimeWidth) == Channel(frame', l.sessionTime, SessionTimeWidth)
    requires Channel(frame, l.speed, FloatWidth) == Channel(frame', l.speed, FloatWidth)
    requires Channel(frame, l.throttle, FloatWidth) == Channel(frame', l.throttle, FloatWidth)
    requires Channel(frame, l.brake, FloatWidth) == Channel(frame', l.brake, FloatWidth)
    ensures ExtractSample(frame, l, k) == ExtractSample(frame', l, k)
  {
  }

  /** Values written at the offsets of the records filed under "lap",
      "sessiontime", "speed", "throttle" and "brake" are read back: the lap
      as the int32 written, the other four as their 8- and 4-byte bit
      patterns. */
  lemma SampleRoundTrip(frame: seq<byte>, m: map<string, VarHeader>, k: nat,
                        lap: int, t: nat, sp: nat, th: nat, br: nat)
    requires ChannelsFit(|frame|, LayoutOf(m)) && IsInt32(lap)
    requires Channel(frame, Lookup(m, "lap"), LapWidth) == EncodeInt32(lap)
    requires Channel(frame, Lookup(m, "sessiontime"), SessionTimeWidth) == Bytes(t, SessionTimeWidth)
    requires Channel(frame, Lookup(m, "speed"), FloatWidth) == Bytes(sp, FloatWidth)
    requires Channel(frame, Lookup(m, "throttle"), FloatWidth) == Bytes(th, FloatWidth)
    requires Channel(frame, Lookup(m, "brake"), FloatWidth) == Bytes(br, FloatWidth)
    ensures ExtractSample(frame, LayoutOf(m), k)
         == Ok(Sample(lap, Bytes(t, SessionTimeWidth), Bytes(sp, FloatWidth), Bytes(th, FloatWidth), Bytes(br, FloatWidth)))
  {
    Int32OfEncode(lap);
  }

  /** Where frame `k` starts: BufLen bytes after frame k - 1, frame 0 at
      BufOffset (FrameStartIs: BufOffset + k * BufLen). */
  function FrameStart(h: TelemetryHeader, k: nat): int {
    FramePos(h.bufOffset, h.bufLen, k)
  }

  lemma Distrib(a: int, n: int)
    ensures (a + 1) * n == a * n + n
  {
  }

  function Prefixed(trace: seq<Sample>, r: Result<seq<Sample>>): Result<seq<Sample>> {
    match r
    case Ok(rest) => Ok(trace + rest)
    case Err(e) => Err(e)
  }

  /** The samples of frame k, starting at byte `start`, and of every frame
      after it, up to the first frame that would end past the capture or the
      first failing slice. */
  function WalkFrom(bs: seq<byte>, bufLen: int, l: Layout, k: nat, start: int): Result<seq<Sample>>
    decreases |bs| - start
  {
    var end := start + bufLen;
    if end > |bs| then Ok([])
    else if !(0 <= start <= end) then Err(FrameOutOfRange(k))
    else
      match ExtractSample(bs[start..end], l, k)
      case Err(e) => Err(e)
      case Ok(s) => Prefixed([s], WalkFrom(bs, bufLen, l, k + 1, end))
  }

  /** Frame k starts k * BufLen bytes after BufOffset, the expression the
      loop of `parse` computes. */
  lemma FrameStartIs(h: TelemetryHeader, k: nat)
    ensures FrameStart(h, k) == h.bufOffset + k * h.bufLen
  {
    FramePosIs(h.bufOffset, h.bufLen, k);
  }

  /** Where the i-th frame after one at `start` begins. */
  function FramePos(start: int, bufLen: int, i: nat): int
    decreases i
  {
    if i == 0 then start else FramePos(start + bufLen, bufLen, i - 1)
  }

  lemma {:induction false} FramePosIs(start: int, bufLen: int, i: nat)
    decreases i
    ensures FramePos(start, bufLen, i) == start + i * bufLen
  {
    if i > 0 {
      FramePosIs(start + bufLen, bufLen, i - 1);
      Distrib(i - 1, bufLen);
    }
  }

  lemma {:induction false} FramePosSucc(start: int, bufLen: int, i: nat)
    decreases i
    ensures FramePos(start, bufLen, i + 1) == FramePos(start, bufLen, i) + bufLen
  {
    if i > 0 {
      FramePosSucc(start + bufLen, bufLen, i - 1);
    }
  }

  /** The whole frame walk of a capture. */
  function Walk(bs: seq<byte>, h: TelemetryHeader, varMap: map<string, VarHeader>): Result<seq<Sample>> {
    WalkFrom(bs, h.bufLen, LayoutOf(varMap), 0, h.bufOffset)
  }

  /** `start` and `end` are int32 in the program; this keeps every value
      they take during the walk inside int32, where the mathematical
      integers of this model agree with them. The end of frame 0 must not
      wrap; when frame 0 already ends past the capture the loop stops there,
      and otherwise every later frame end is at most len(bs) + BufLen. */
  predicate WalkFitsInt32(h: TelemetryHeader, len: nat) {
    -Two31 <= h.bufOffset + h.bufLen <= MaxInt32
    && (h.bufOffset + h.bufLen > len || len + h.bufLen <= MaxInt32)
  }

  /** The `for { ... count++ }` loop of `parse`, appending one trace line
      per frame. */
  method WalkFrames(bs: seq<byte>, h: TelemetryHeader, varMap: map<string, VarHeader>) returns (r: Result<seq<Sample>>)
    requires WalkFitsInt32(h, |bs|)
    ensures r == Walk(bs, h, varMap)
  {
    var count: nat := 0;
    var trace: seq<Sample> := [];
    ghost var l := LayoutOf(varMap);
    ghost var goal := Walk(bs, h, varMap);
    PrefixedEmpty(goal);
    while true
      invariant goal == Prefixed(trace, WalkFrom(bs, h.bufLen, l, count, FrameStart(h, count)))
      decreases |bs| - FrameStart(h, count)
    {
      var start := h.bufOffset + count * h.bufLen;
      assert start == FrameStart(h, count) by {
        FrameStartIs(h, count);
      }
      var end := start + h.bufLen;
      if end > |bs| {
        break;
      }
      if !(0 <= start <= end) {
        return Err(FrameOutOfRange(count));
      }
      var buf := bs[start..end];
      var layout := LayoutOf(varMap);
      var sample := ExtractSample(buf, layout, count);
      if sample.Err? {
        return Err(sample.error);
      }
      WalkAdvance(bs, h, l, count, trace, start, sample.value);
      trace := trace + [sample.value];
      count := count + 1;
    }
    assert trace + [] == trace;
    return Ok(trace);
  }

  lemma PrefixedEmpty(r: Result<seq<Sample>>)
    ensures Prefixed([], r) == r
  {
    if r.Ok? {
      assert [] + r.value == r.value;
    }
  }

  lemma PrefixedAppend(trace: seq<Sample>, s: Sample, r: Result<seq<Sample>>)
    ensures Prefixed(trace, Prefixed([s], r)) == Prefixed(trace + [s], r)
  {
    if r.Ok? {
      assert trace + ([s] + r.value) == (trace + [s]) + r.value;
    }
  }

  /** One turn of the loop of `parse`: a frame inside the capture whose
      channels all fit moves its sample from the rest of the walk onto the
      trace, and the next frame starts further on. */
  lemma WalkAdvance(bs: seq<byte>, h: TelemetryHeader, l: Layout, count: nat, trace: seq<Sample>, start: int, s: Sample)
    requires start == FramePos(h.bufOffset, h.bufLen, count)
    requires 0 <= start <= start + h.bufLen <= |bs|
    requires ExtractSample(bs[start..start + h.bufLen], l, count) == Ok(s)
    ensures 0 < h.bufLen
    ensures FramePos(h.bufOffset, h.bufLen, count + 1) == start + h.bufLen
    ensures Prefixed(trace, WalkFrom(bs, h.bufLen, l, count, start))
         == Prefixed(trace + [s], WalkFrom(bs, h.bufLen, l, count + 1, FramePos(h.bufOffset, h.bufLen, count + 1)))
  {
    var frame := bs[start..start + h.bufLen];
    assert |frame| == h.bufLen;
    assert Fits(h.bufLen, l.lap, LapWidth);
    FramePosSucc(h.bufOffset, h.bufLen, count);
    WalkFromNext(bs, h.bufLen, l, count, start);
    PrefixedAppend(trace, s, WalkFrom(bs, h.bufLen, l, count + 1, start + h.bufLen));
  }

  /** A frame inside the capture whose channels all fit contributes its
      sample ahead of the rest of the walk. */
  lemma WalkFromNext(bs: seq<byte>, bufLen: int, l: Layout, k: nat, start: int)
    requires 0 <= start <= start + bufLen <= |bs|
    requires ChannelsFit(bufLen, l)
    ensures WalkFrom(bs, bufLen, l, k, start)
         == Prefixed([ReadSample(bs[start..start + bufLen], l)], WalkFrom(bs, bufLen, l, k + 1, start + bufLen))
  {
  }

  /** The walk fails only at a frame, never before the first one walked:
      either that frame's slice is out of range or one of its channel
      slices is. */
  lemma {:induction false} WalkFromErrors(bs: seq<byte>, bufLen: int, l: Layout, k: nat, start: int)
    decreases |bs| - start
    ensures var w := WalkFrom(bs, bufLen, l, k, start);
      w.Err? ==> (w.error.FrameOutOfRange? || w.error.ChannelOutOfRange?) && w.error.frame >= k
  {
    var end := start + bufLen;
    if end <= |bs| && 0 <= start <= end && ExtractSample(bs[start..end], l, k).Ok? {
      assert Fits(bufLen, l.lap, LapWidth);
      WalkFromErrors(bs, bufLen, l, k + 1, end);
    }
  }

  /** The walk stops at the first frame that would end past the capture. */
  lemma {:induction false} WalkStopsAtOverrun(bs: seq<byte>, bufLen: int, l: Layout, k: nat, start: int)
    requires WalkFrom(bs, bufLen, l, k, start).Ok?
    ensures FramePos(start, bufLen, |WalkFrom(bs, bufLen, l, k, start).value|) + bufLen > |bs|
    decreases |bs| - start
  {
    var end := start + bufLen;
    var s := WalkFrom(bs, bufLen, l, k, start).value;
    if end <= |bs| {
      WalkFromStep(bs, bufLen, l, k, start);
      var rest := WalkFrom(bs, bufLen, l, k + 1, end).value;
      assert |s| == |rest| + 1;
      WalkStopsAtOverrun(bs, bufLen, l, k + 1, end);
      assert FramePos(start, bufLen, |s|) == FramePos(end, bufLen, |rest|);
    } else {
      assert s == [];
    }
  }

  /** One step of a successful walk that has a frame at `start`: that frame
      yields the first sample and the walk from the next frame the rest. */
  lemma WalkFromStep(bs: seq<byte>, bufLen: int, l: Layout, k: nat, start: int)
    requires WalkFrom(bs, bufLen, l, k, start).Ok?
    requires |WalkFrom(bs, bufLen, l, k, start).value| > 0
    ensures 0 < bufLen && 0 <= start && start + bufLen <= |bs|
    ensures WalkFrom(bs, bufLen, l, k + 1, start + bufLen).Ok?
    ensures ExtractSample(bs[start..start + bufLen], l, k) == Ok(WalkFrom(bs, bufLen, l, k, start).value[0])
    ensures WalkFrom(bs, bufLen, l, k, start).value[1..] == WalkFrom(bs, bufLen, l, k + 1, start + bufLen).value
  {
    var end := start + bufLen;
    var first := ExtractSample(bs[start..end], l, k);
    assert Fits(end - start, l.lap, LapWidth);
  }

  /** Dropping the first i samples of a walk leaves the walk that starts i
      frames later, at frame k' = k + i and byte FramePos(start, bufLen, i). */
  lemma {:induction false} WalkDrop(bs: seq<byte>, bufLen: int, l: Layout, k: nat, start: int, i: nat, k': nat, start': int)
    requires WalkFrom(bs, bufLen, l, k, start).Ok? && i <= |WalkFrom(bs, bufLen, l, k, start).value|
    requires k' == k + i && start' == FramePos(start, bufLen, i)
    ensures WalkFrom(bs, bufLen, l, k', start').Ok?
    ensures WalkFrom(bs, bufLen, l, k, start).value[i..] == WalkFrom(bs, bufLen, l, k', start').value
    decreases i
  {
    var w := WalkFrom(bs, bufLen, l, k, start).value;
    if i == 0 {
      assert w[i..] == w;
    } else {
      WalkFromStep(bs, bufLen, l, k, start);
      WalkDrop(bs, bufLen, l, k + 1, start + bufLen, i - 1, k', start');
      assert w[i..] == w[1..][i - 1..];
    }
  }

  /** The i-th sample comes from frame k + i, the bufLen bytes at
      FramePos(start, bufLen, i), which lie inside the capture. */
  lemma WalkFrameAt(bs: seq<byte>, bufLen: int, l: Layout, k: nat, start: int, i: nat)
    requires WalkFrom(bs, bufLen, l, k, start).Ok? && i < |WalkFrom(bs, bufLen, l, k, start).value|
    ensures 0 < bufLen && 0 <= FramePos(start, bufLen, i) && FramePos(start, bufLen, i) + bufLen <= |bs|
    ensures ExtractSample(bs[FramePos(start, bufLen, i)..FramePos(start, bufLen, i) + bufLen], l, k + i)
         == Ok(WalkFrom(bs, bufLen, l, k, start).value[i])
  {
    WalkDrop(bs, bufLen, l, k, start, i, k + i, FramePos(start, bufLen, i));
    var w := WalkFrom(bs, bufLen, l, k, start).value;
    assert w[i..][0] == w[i];
    WalkFromStep(bs, bufLen, l, k + i, FramePos(start, bufLen, i));
  }

  /** A successful walk ends at the first frame that would end past the
      capture. */
  lemma WalkEndsPastCapture(bs: seq<byte>, h: TelemetryHeader, varMap: map<string, VarHeader>)
    requires Walk(bs, h, varMap).Ok?
    ensures FrameStart(h, |Walk(bs, h, varMap).value|) + h.bufLen > |bs|
  {
    var w := WalkFrom(bs, h.bufLen, LayoutOf(varMap), 0, h.bufOffset);
    WalkStopsAtOverrun(bs, h.bufLen, LayoutOf(varMap), 0, h.bufOffset);
  }

  /** Sample i of a successful walk is read from the BufLen bytes at
      BufOffset + i * BufLen, which lie inside the capture. */
  lemma WalkSampleFrame(bs: seq<byte>, h: TelemetryHeader, varMap: map<string, VarHeader>, i: nat)
    requires Walk(bs, h, varMap).Ok? && i < |Walk(bs, h, varMap).value|
    ensures 0 <= FrameStart(h, i) && FrameStart(h, i) + h.bufLen <= |bs|
    ensures ExtractSample(bs[FrameStart(h, i)..FrameStart(h, i) + h.bufLen], LayoutOf(varMap), i)
         == Ok(Walk(bs, h, varMap).value[i])
  {
    var l := LayoutOf(varMap);
    var w := WalkFrom(bs, h.bufLen, l, 0, h.bufOffset);
    assert Walk(bs, h, varMap) == w;
    WalkFrameAt(bs, h.bufLen, l, 0, h.bufOffset, i);
    assert 0 + i == i;
  }

  lemma {:induction false} MulAtLeast(a: int, d: int)
    requires a >= 1 && d > 0
    ensures a * d >= d
    decreases a
  {
    if a > 1 {
      MulAtLeast(a - 1, d);
      assert a * d == (a - 1) * d + d;
    }
  }

  /** Division of a non-negative number is determined by quotient and remainder. */
  lemma DivUnique(x: int, d: int, q: int, m: int)
    requires 0 < d && 0 <= m < d && x == q * d + m
    ensures x / d == q
  {
    var q', m' := x / d, x % d;
    assert x == q' * d + m' && 0 <= m' < d;
    if q' > q {
      assert (q' - q) * d == m - m';
      MulAtLeast(q' - q, d);
    } else if q' < q {
      assert (q - q') * d == m' - m;
      MulAtLeast(q - q', d);
    }
  }

  lemma DivStep(x: int, n: int)
    requires 0 < n <= x
    ensures x / n == (x - n) / n + 1
  {
    var q, m := (x - n) / n, (x - n) % n;
    assert x - n == q * n + m && 0 <= m < n;
    assert x == (q + 1) * n + m;
    DivUnique(x, n, q + 1, m);
  }

  /** With every channel inside the frame and the frame start inside the
      capture, the walk succeeds and yields (len(bs) - start) / bufLen
      samples. */
  lemma {:induction false} WalkCountFrom(bs: seq<byte>, bufLen: int, l: Layout, k: nat, start: int)
    requires ChannelsFit(bufLen, l)
    requires 0 <= start <= |bs|
    ensures WalkFrom(bs, bufLen, l, k, start).Ok?
    ensures |WalkFrom(bs, bufLen, l, k, start).value| == (|bs| - start) / bufLen
    decreases |bs| - start
  {
    var end := start + bufLen;
    assert Fits(bufLen, l.lap, LapWidth);
    if end <= |bs| {
      WalkCountFrom(bs, bufLen, l, k + 1, end);
      DivStep(|bs| - start, bufLen);
    } else {
      DivUnique(|bs| - start, bufLen, 0, |bs| - start);
    }
  }

  /** The number of frames processed: (len(bs) - BufOffset) / BufLen when
      0 <= BufOffset <= len(bs), none when BufOffset is past the end. */
  lemma FrameCount(bs: seq<byte>, h: TelemetryHeader, varMap: map<string, VarHeader>)
    requires ChannelsFit(h.bufLen, LayoutOf(varMap)) && 0 <= h.bufOffset
    ensures Walk(bs, h, varMap).Ok?
    ensures |Walk(bs, h, varMap).value| == if h.bufOffset <= |bs| then (|bs| - h.bufOffset) / h.bufLen else 0
  {
    if h.bufOffset <= |bs| {
      WalkCountFrom(bs, h.bufLen, LayoutOf(varMap), 0, h.bufOffset);
    }
  }

  lemma DivOfMultiple(n: nat, d: int, extra: int)
    requires 0 < d && 0 <= extra < d
    ensures (n * d + extra) / d == n
  {
    DivUnique(n * d + extra, d, n, extra);
  }

  /** A capture of exactly BufOffset + n * BufLen bytes gives n frames, and
      so does one a byte longer. */
  lemma ExactFrameCount(bs: seq<byte>, h: TelemetryHeader, varMap: map<string, VarHeader>, n: nat, extra: int)
    requires ChannelsFit(h.bufLen, LayoutOf(varMap)) && 0 <= h.bufOffset
    requires extra == 0 || extra == 1
    requires |bs| == h.bufOffset + n * h.bufLen + extra
    ensures Walk(bs, h, varMap).Ok? && |Walk(bs, h, varMap).value| == n
  {
    FrameCount(bs, h, varMap);
    DivOfMultiple(n, h.bufLen, extra);
  }

  /** A first frame inside the capture with a channel window outside it
      fails the walk at frame 0. */
  lemma MisfitChannelFails(bs: seq<byte>, h: TelemetryHeader, varMap: map<string, VarHeader>)
    requires 0 <= h.bufOffset <= h.bufOffset + h.bufLen <= |bs|
    requires !ChannelsFit(h.bufLen, LayoutOf(varMap))
    ensures Walk(bs, h, varMap).Err?
    ensures Walk(bs, h, varMap).error.ChannelOutOfRange? && Walk(bs, h, varMap).error.frame == 0
  {
  }

  /** BufLen <= 0 never yields a sample: either the first frame already ends
      past the capture, or its slice or its first channel read fails. */
  lemma NonPositiveBufLenYieldsNothing(bs: seq<byte>, h: TelemetryHeader, varMap: map<string, VarHeader>)
    requires h.bufLen <= 0
    ensures Walk(bs, h, varMap).Ok? ==> Walk(bs, h, varMap).value == []
  {
    var start := FrameStart(h, 0);
    if start + h.bufLen <= |bs| && 0 <= start <= start + h.bufLen {
      assert !Fits(h.bufLen, LayoutOf(varMap).lap, LapWidth);
      assert !ChannelsFit(|bs[start..start + h.bufLen]|, LayoutOf(varMap));
    }
  }

  /** With BufLen <= 0 and BufOffset inside the capture the walk fails at
      frame 0 and never loops: a negative BufLen makes the frame slice run
      backwards, and an empty frame cannot hold the lap window. */
  lemma NonPositiveBufLenFails(bs: seq<byte>, h: TelemetryHeader, varMap: map<string, VarHeader>)
    requires h.bufLen <= 0 && 0 <= h.bufOffset <= |bs|
    ensures Walk(bs, h, varMap).Err? && Walk(bs, h, varMap).error.frame == 0
    ensures h.bufLen < 0 ==> Walk(bs, h, varMap).error == FrameOutOfRange(0)
    ensures h.bufLen == 0 ==> Walk(bs, h, varMap).error == ChannelOutOfRange(0, "lap")
  {
    var start := FrameStart(h, 0);
    if h.bufLen == 0 {
      assert !Fits(|bs[start..start]|, LayoutOf(varMap).lap, LapWidth);
    }
  }
}
