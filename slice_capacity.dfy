/** Go bounds a reslice `buf[lo:hi]` by cap(buf), not by len(buf). The frame
    `buf := bs[start:end]` of `parse` (main.go:135) has capacity
    cap(bs) - start, so each of its five channel reads (main.go:140-175)
    succeeds whenever the window lies in the rest of the capture, even when
    it leaves the frame. This module states that reading of the program,
    with cap(bs) taken to be len(bs), the least capacity the program can
    see; `Frames` bounds each window by the frame instead. */
module SliceCapacity {
  import opened LittleEndian
  import opened Headers
  import opened VarRecords
  import opened NameTable
  import opened Frames

  /** buf[v.Offset : v.Offset + width] succeeds for the frame at `start`. */
  predicate CapFits(len: nat, start: int, v: VarHeader, width: nat) {
    0 <= v.offset && start + v.offset + width <= len
  }

  /** All five channel reads of the frame at `start` succeed. */
  predicate ChannelsCapFit(len: nat, start: int, l: Layout) {
    && CapFits(len, start, l.lap, LapWidth)
    && CapFits(len, start, l.sessionTime, SessionTimeWidth)
    && CapFits(len, start, l.speed, FloatWidth)
    && CapFits(len, start, l.throttle, FloatWidth)
    && CapFits(len, start, l.brake, FloatWidth)
  }

  /** The bytes the program reads for a channel: they are taken from the
      capture at start + Offset, wherever the frame ends. */
  function CapChannel(bs: seq<byte>, start: int, v: VarHeader, width: nat): (b: seq<byte>)
    requires 0 <= start && CapFits(|bs|, start, v, width)
    ensures |b| == width
    ensures forall i :: 0 <= i < width ==> b[i] == bs[start + v.offset + i]
  {
    bs[start + v.offset..start + v.offset + width]
  }

  /** A window inside the frame reads the same bytes under both bounds, so
      the model and the program agree on every frame whose windows fit. */
  lemma CapChannelInFrame(bs: seq<byte>, start: int, frameLen: int, v: VarHeader, width: nat)
    requires 0 <= start && 0 <= frameLen && start + frameLen <= |bs|
    requires Fits(frameLen, v, width)
    ensures CapFits(|bs|, start, v, width)
    ensures CapChannel(bs, start, v, width) == Channel(bs[start..start + frameLen], v, width)
  {
    var frame := bs[start..start + frameLen];
    assert |frame| == frameLen;
    forall i | 0 <= i < width
      ensures CapChannel(bs, start, v, width)[i] == Channel(frame, v, width)[i]
    {
      assert frame[v.offset + i] == bs[start + v.offset + i];
    }
  }

  /** A lap window that starts two bytes before the end of a frame fails in
      the model, while the program reads its last two bytes from the next
      frame. */
  lemma AsWrittenReadsNextFrame(bs: seq<byte>, start: int, frameLen: int, v: VarHeader)
    requires 0 <= start && 2 <= frameLen && start + frameLen + 2 <= |bs|
    requires v.offset == frameLen - 2
    ensures !Fits(frameLen, v, LapWidth)
    ensures CapFits(|bs|, start, v, LapWidth)
    ensures CapChannel(bs, start, v, LapWidth)[2..] == bs[start + frameLen..start + frameLen + 2]
  {
    var w := CapChannel(bs, start, v, LapWidth);
    assert w[2..][0] == bs[start + frameLen] && w[2..][1] == bs[start + frameLen + 1];
  }

  /** With BufLen = 0 every frame the program computes starts at BufOffset
      and ends there. The end test `end > len(bs)` never fires, the frame
      slice is always valid, and when the five windows fit the capture at
      BufOffset every read of frame k succeeds, for every k: the loop never
      ends. */
  lemma {:induction false} AsWrittenZeroBufLenNeverStops(bs: seq<byte>, h: TelemetryHeader, l: Layout, k: nat)
    requires h.bufLen == 0 && 0 <= h.bufOffset <= |bs|
    requires ChannelsCapFit(|bs|, h.bufOffset, l)
    ensures FrameStart(h, k) == h.bufOffset
    ensures !(FrameStart(h, k) + h.bufLen > |bs|)
    ensures 0 <= FrameStart(h, k) <= FrameStart(h, k) + h.bufLen
    ensures ChannelsCapFit(|bs|, FrameStart(h, k), l)
  {
    FrameStartIs(h, k);
    assert k * h.bufLen == 0;
  }

  /** When none of the five names is in the table every offset is 0, so a
      capture with at least eight bytes from BufOffset on satisfies the
      program's reads, while the model's empty frame holds none of them. */
  lemma MissingNamesFitCapture(bs: seq<byte>, h: TelemetryHeader, m: map<string, VarHeader>)
    requires "lap" !in m && "sessiontime" !in m && "speed" !in m && "throttle" !in m && "brake" !in m
    requires h.bufLen == 0 && 0 <= h.bufOffset && h.bufOffset + SessionTimeWidth <= |bs|
    ensures ChannelsCapFit(|bs|, h.bufOffset, LayoutOf(m))
    ensures !ChannelsFit(h.bufLen, LayoutOf(m))
  {
    var l := LayoutOf(m);
    assert l.lap.offset == 0 && l.sessionTime.offset == 0 && l.speed.offset == 0;
    assert l.throttle.offset == 0 && l.brake.offset == 0;
  }
}
