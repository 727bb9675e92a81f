/**
 * `CSubtitleInputPin`: the pin that receives subtitle samples, queues
 * them, and the worker pass that decodes the queue into calls on the
 * subtitle track and asks for the rendered subtitles to be recomputed.
 *
 * The worker thread, the queue mutex and the condition variable are not
 * modelled: `Receive`, `EndOfStream`, `InvalidateSamples` and one pass of
 * the worker loop (`DrainQueue`) are methods on one object, each running to
 * completion.  What the pin does to the track and to the renderer is kept
 * as a trace of calls, in order.
 */
module SubtitleInputPin {
  import opened SubtitleText
  import opened SubtitleDecoder
  import opened Wrappers

  // ---------------------------------------------------------------------
  // Result codes and times

  const S_OK := 0
  /** `VFW_S_NO_STOP_TIME`: the sample has a start time only. */
  const VFW_S_NO_STOP_TIME := 0x0004_0270
  /** `VFW_E_SAMPLE_TIME_NOT_SET` (0x80040249) as a signed `HRESULT`. */
  const VFW_E_SAMPLE_TIME_NOT_SET := 0x8004_0249 - 0x1_0000_0000
  /** The time that marks a missing start or stop time. */
  const INVALID_TIME := -0x8000_0000_0000_0000

  /** `FAILED(hr)`: the severity bit is set, so the signed value is negative. */
  predicate Failed(hr: int)
  {
    hr < 0
  }

  /**
   * What one `IMediaSample` delivers, as `Receive` reads it: the result of
   * the base class's `Receive`, of `GetTime` and the two raw times, the
   * sample itself, and the result of `GetPointer`, whether the pointer is
   * NULL, and the first `GetActualDataLength()` bytes it points to (a
   * length of zero or below delivers no bytes).
   */
  datatype Delivery = Delivery(
    baseHr: int,
    timeHr: int,
    start: int,
    stop: int,
    buffer: nat,
    pointerHr: int,
    pointerNull: bool,
    data: seq<Byte>)

  /** The image formats queue the media sample itself. */
  predicate UsesMediaSample(subtype: SubType)
  {
    subtype == Hdmv || subtype == Dvb
  }

  /**
   * The absolute times of a sample: both shifted by the segment start, the
   * stop marked missing, or both marked missing; no times for any other
   * result of `GetTime`.
   */
  function StampedTimes(timeHr: int, start: int, stop: int, segmentStart: int): (r: Option<(int, int)>)
    ensures r.Some? <==> timeHr in {S_OK, VFW_S_NO_STOP_TIME, VFW_E_SAMPLE_TIME_NOT_SET}
  {
    if timeHr == S_OK then Some((start + segmentStart, stop + segmentStart))
    else if timeHr == VFW_S_NO_STOP_TIME then Some((start + segmentStart, INVALID_TIME))
    else if timeHr == VFW_E_SAMPLE_TIME_NOT_SET then Some((INVALID_TIME, INVALID_TIME))
    else None
  }

  /** What `Receive` returns and the sample it queues, if any. */
  datatype Admission = Admission(hr: int, queued: Option<Sample>)

  /** `Receive` as a function of the delivery, the subtype and the segment start. */
  function Admit(subtype: SubType, segmentStart: int, d: Delivery): (r: Admission)
    ensures Failed(d.baseHr) ==> r == Admission(d.baseHr, None)
    ensures r.queued.Some? ==> r.hr == S_OK && (r.queued.value.MediaSample? <==> UsesMediaSample(subtype))
    ensures r.queued.Some? && r.queued.value.DataSample? ==> r.queued.value.data == d.data && |d.data| > 0
    ensures r.queued.Some? && r.queued.value.MediaSample? ==> r.queued.value.buffer == d.buffer
  {
    if Failed(d.baseHr) then Admission(d.baseHr, None)
    else match StampedTimes(d.timeHr, d.start, d.stop, segmentStart)
      case None => Admission(d.timeHr, None)
      case Some((start, stop)) =>
        if (start == INVALID_TIME || stop == INVALID_TIME) && !UsesMediaSample(subtype) then
          Admission(S_OK, None)
        else if UsesMediaSample(subtype) then
          Admission(S_OK, Some(MediaSample(start, stop, d.buffer)))
        else if Failed(d.pointerHr) || d.pointerNull then
          Admission(d.pointerHr, None)
        else if |d.data| == 0 then
          Admission(S_OK, None)
        else
          Admission(S_OK, Some(DataSample(start, stop, d.data)))
  }

  /** The queue entries an admission adds: the sample, or nothing. */
  function Queued(a: Admission): seq<Option<Sample>>
  {
    match a.queued
    case None => []
    case Some(s) => [Some(s)]
  }

  // ---------------------------------------------------------------------
  // Properties of `Receive`

  /**
   * A queued sample carries the shifted times: both with `S_OK`, the start
   * only with `VFW_S_NO_STOP_TIME` (the stop is then missing), neither with
   * `VFW_E_SAMPLE_TIME_NOT_SET`; any other `GetTime` result queues nothing.
   */
  lemma {:induction false} AdmittedTimes(subtype: SubType, segmentStart: int, d: Delivery)
    ensures var q := Admit(subtype, segmentStart, d).queued;
      q.Some? ==>
        && d.timeHr in {S_OK, VFW_S_NO_STOP_TIME, VFW_E_SAMPLE_TIME_NOT_SET}
        && (d.timeHr == S_OK ==> q.value.start == d.start + segmentStart && q.value.stop == d.stop + segmentStart)
        && (d.timeHr == VFW_S_NO_STOP_TIME ==> q.value.start == d.start + segmentStart && q.value.stop == INVALID_TIME)
        && (d.timeHr == VFW_E_SAMPLE_TIME_NOT_SET ==> q.value.start == INVALID_TIME && q.value.stop == INVALID_TIME)
  {
  }

  /**
   * A text sample is queued exactly when every step succeeds: the base
   * class accepts it, both shifted times are present, the pointer is valid
   * and the payload is not empty.  It is queued with those times and bytes.
   */
  lemma {:induction false} AdmitTextIff(subtype: SubType, segmentStart: int, d: Delivery)
    requires !UsesMediaSample(subtype)
    ensures var a := Admit(subtype, segmentStart, d);
      var t := StampedTimes(d.timeHr, d.start, d.stop, segmentStart);
      a.queued.Some? <==>
        && !Failed(d.baseHr) && t.Some?
        && t.value.0 != INVALID_TIME && t.value.1 != INVALID_TIME
        && !Failed(d.pointerHr) && !d.pointerNull && |d.data| > 0
    ensures var a := Admit(subtype, segmentStart, d);
      var t := StampedTimes(d.timeHr, d.start, d.stop, segmentStart);
      a.queued.Some? ==> a.queued.value == DataSample(t.value.0, t.value.1, d.data)
  {
  }

  /**
   * The image formats queue the media sample whenever the base class and
   * `GetTime` accept it, even with missing times, and never a copy of the
   * payload.
   */
  lemma {:induction false} AdmitImage(subtype: SubType, segmentStart: int, d: Delivery)
    requires UsesMediaSample(subtype)
    ensures var a := Admit(subtype, segmentStart, d);
      a.queued.Some? <==> !Failed(d.baseHr) && d.timeHr in {S_OK, VFW_S_NO_STOP_TIME, VFW_E_SAMPLE_TIME_NOT_SET}
    ensures var a := Admit(subtype, segmentStart, d);
      a.queued.Some? ==> a.queued.value.MediaSample? && a.queued.value.buffer == d.buffer && a.hr == S_OK
  {
  }

  /** No queued sample has an empty payload, and queuing always answers `S_OK`. */
  lemma {:induction false} AdmitNeverEmpty(subtype: SubType, segmentStart: int, d: Delivery)
    ensures var a := Admit(subtype, segmentStart, d);
      a.queued.Some? ==> a.hr == S_OK && (a.queued.value.DataSample? ==> |a.queued.value.data| > 0)
  {
  }

  /** A failure of the base class is returned as is, and nothing is queued. */
  lemma {:induction false} AdmitBaseFailure(subtype: SubType, segmentStart: int, d: Delivery)
    requires Failed(d.baseHr)
    ensures Admit(subtype, segmentStart, d) == Admission(d.baseHr, None)
  {
  }

  // ---------------------------------------------------------------------
  // The worker's fold and the calls it makes

  /** What the pin asks of the track and of the renderer, in order. */
  datatype Call =
    | Locked                 // `m_pSubLock` taken
    | Track(op: TrackOp)     // a call the decoder makes on the track
    | Unlocked               // `m_pSubLock` released
    | Invalidate(from: int)  // `InvalidateSubtitle(rtInvalidate, ...)`

  /** The track calls, in order. */
  function Tracks(ops: seq<TrackOp>): (cs: seq<Call>)
    ensures |cs| == |ops|
    ensures forall i :: 0 <= i < |ops| ==> cs[i] == Track(ops[i])
  {
    seq(|ops|, i requires 0 <= i < |ops| => Track(ops[i]))
  }

  /** The value a queue entry reports: -1 for the end-of-stream marker. */
  function ReportedBy(mt: MediaType, codecs: Codecs, item: Option<Sample>): int
  {
    match item
    case None => -1
    case Some(s) => Reported(mt, codecs, s)
  }

  /** The fold's step: a non-negative value replaces a larger one or the -1 sentinel. */
  function Lower(acc: int, t: int): (r: int)
    ensures r == acc || r == t
    ensures acc >= 0 || t >= 0 ==> r >= 0
    ensures r >= 0 ==> (acc >= 0 ==> r <= acc) && (t >= 0 ==> r <= t)
  {
    if t >= 0 && (t < acc || acc < 0) then t else acc
  }

  /** The values the entries report, front first. */
  function Reports(mt: MediaType, codecs: Codecs, items: seq<Option<Sample>>): (vs: seq<int>)
    ensures |vs| == |items|
    ensures forall k :: 0 <= k < |items| ==> vs[k] == ReportedBy(mt, codecs, items[k])
  {
    seq(|items|, k requires 0 <= k < |items| => ReportedBy(mt, codecs, items[k]))
  }

  /** The fold of the worker's inner loop over the reported values, front first. */
  function Earliest(vs: seq<int>, acc: int): (r: int)
    ensures r < 0 ==> r == acc
    ensures acc >= 0 ==> 0 <= r <= acc
  {
    if |vs| == 0 then acc
    else Earliest(vs[1..], Lower(acc, vs[0]))
  }

  /** Decoding the front entry folds its value and leaves the rest of the batch to fold. */
  lemma {:induction false} EarliestStep(mt: MediaType, codecs: Codecs, q: seq<Option<Sample>>, acc: int, rt: int)
    requires q != [] && rt == ReportedBy(mt, codecs, q[0])
    ensures Earliest(Reports(mt, codecs, q), acc) == Earliest(Reports(mt, codecs, q[1..]), Lower(acc, rt))
  {
    assert Reports(mt, codecs, q)[1..] == Reports(mt, codecs, q[1..]);
  }

  /** The calls made while decoding one entry; the marker makes none. */
  function ItemCalls(mt: MediaType, codecs: Codecs, item: Option<Sample>): seq<Call>
  {
    match item
    case None => []
    case Some(s) => Tracks(Decode(mt, codecs, s).ops)
  }

  /** The calls made while decoding the entries, front first. */
  function BatchCalls(mt: MediaType, codecs: Codecs, items: seq<Option<Sample>>): seq<Call>
  {
    if |items| == 0 then []
    else ItemCalls(mt, codecs, items[0]) + BatchCalls(mt, codecs, items[1..])
  }

  /** Decoding the front entry moves its calls from the batch still to come to the calls made. */
  lemma {:induction false} BatchStep(mt: MediaType, codecs: Codecs, q: seq<Option<Sample>>, done: seq<Call>, front: seq<Call>)
    requires q != [] && front == ItemCalls(mt, codecs, q[0])
    ensures done + BatchCalls(mt, codecs, q) == done + front + BatchCalls(mt, codecs, q[1..])
  {
    var rest := BatchCalls(mt, codecs, q[1..]);
    assert BatchCalls(mt, codecs, q) == front + rest;
    assert done + (front + rest) == done + front + rest;
  }

  /** The `InvalidateSubtitle` call for a folded value: none for a negative one. */
  function InvalidateCall(rt: int): seq<Call>
  {
    if rt >= 0 then [Invalidate(rt)] else []
  }

  /** One pass of the worker over a batch: lock, decode, unlock, then invalidate. */
  function PassCalls(mt: MediaType, codecs: Codecs, items: seq<Option<Sample>>): seq<Call>
  {
    [Locked] + BatchCalls(mt, codecs, items) + [Unlocked] + InvalidateCall(Earliest(Reports(mt, codecs, items), -1))
  }

  /** Some value is non-negative. */
  predicate SomeReport(vs: seq<int>)
  {
    exists k :: 0 <= k < |vs| && vs[k] >= 0
  }

  /** `acc` is -1 or non-negative, as the fold keeps it. */
  predicate Sentinel(acc: int)
  {
    acc == -1 || acc >= 0
  }

  /**
   * The fold finds the earliest invalidation: from -1 it ends at -1
   * exactly when no value is non-negative; otherwise at the least
   * non-negative value, which is one of the values.  Started from a value
   * already folded, it keeps that value in the race.
   */
  lemma {:induction false} EarliestIsMinimum(vs: seq<int>, acc: int)
    requires Sentinel(acc)
    ensures var r := Earliest(vs, acc);
      && Sentinel(r)
      && (r == -1 <==> acc == -1 && !SomeReport(vs))
      && (r >= 0 ==> r == acc || exists k :: 0 <= k < |vs| && vs[k] == r)
      && (r >= 0 && acc >= 0 ==> r <= acc)
      && (forall k :: 0 <= k < |vs| && vs[k] >= 0 ==> r <= vs[k])
    decreases |vs|
  {
    if |vs| > 0 {
      var next := Lower(acc, vs[0]);
      var tail := vs[1..];
      EarliestIsMinimum(tail, next);
      var r := Earliest(tail, next);
      assert forall k :: 1 <= k < |vs| ==> vs[k] == tail[k - 1];
      if r >= 0 && r != next {
        var k :| 0 <= k < |tail| && tail[k] == r;
        assert vs[k + 1] == r;
      }
      if SomeReport(tail) {
        var k :| 0 <= k < |tail| && tail[k] >= 0;
        assert vs[k + 1] >= 0;
      }
    }
  }

  /**
   * The pass invalidates from the earliest non-negative value the batch's
   * samples report, and not at all when none reports one: null markers,
   * media samples and samples that changed no text never count.
   */
  lemma {:induction false} PassInvalidates(mt: MediaType, codecs: Codecs, items: seq<Option<Sample>>)
    ensures var r := Earliest(Reports(mt, codecs, items), -1);
      && (r == -1 <==> forall k :: 0 <= k < |items| ==> ReportedBy(mt, codecs, items[k]) < 0)
      && (r >= 0 ==> exists k :: 0 <= k < |items| && items[k].Some? && ReportedBy(mt, codecs, items[k]) == r
                                 && r == items[k].value.start)
      && (forall k :: 0 <= k < |items| && ReportedBy(mt, codecs, items[k]) >= 0 ==> r <= ReportedBy(mt, codecs, items[k]))
  {
    var vs := Reports(mt, codecs, items);
    EarliestIsMinimum(vs, -1);
    var r := Earliest(vs, -1);
    if r >= 0 {
      var k :| 0 <= k < |vs| && vs[k] == r;
      assert items[k].Some? && ReportedBy(mt, codecs, items[k]) == r && r == items[k].value.start;
    }
  }

  /** The calls of a pass, as the worker makes them one after another. */
  lemma {:induction false} PassShape(mt: MediaType, codecs: Codecs, items: seq<Option<Sample>>,
                  before: seq<Call>, unlocked: seq<Call>, after: seq<Call>, rt: int)
    requires rt == Earliest(Reports(mt, codecs, items), -1)
    requires unlocked == before + [Locked] + BatchCalls(mt, codecs, items) + [Unlocked]
    requires after == unlocked + InvalidateCall(rt)
    ensures after == before + PassCalls(mt, codecs, items)
  {
    RegroupCalls(before, [Locked], BatchCalls(mt, codecs, items), [Unlocked], InvalidateCall(rt));
  }

  lemma {:induction false} RegroupCalls(a: seq<Call>, b: seq<Call>, c: seq<Call>, d: seq<Call>, e: seq<Call>)
    ensures a + b + c + d + e == a + (b + c + d + e)
  {
  }

  /** The pass's calls hold the lock events and the invalidation once each, outside the track calls. */
  lemma {:induction false} BatchCallsAreTrackCalls(mt: MediaType, codecs: Codecs, items: seq<Option<Sample>>)
    ensures forall i :: 0 <= i < |BatchCalls(mt, codecs, items)| ==> BatchCalls(mt, codecs, items)[i].Track?
    decreases |items|
  {
    if |items| > 0 {
      BatchCallsAreTrackCalls(mt, codecs, items[1..]);
    }
  }

  /**
   * In a pass, `InvalidateSubtitle` is called at most once, as the last
   * call, after the subtitle lock was released, and with the earliest
   * value the batch reported; every track call happens under the lock.
   */
  lemma {:induction false} InvalidateAfterUnlock(mt: MediaType, codecs: Codecs, items: seq<Option<Sample>>)
    ensures var cs := PassCalls(mt, codecs, items);
      && |cs| >= 2 && cs[0] == Locked
      && (forall i :: 0 <= i < |cs| && cs[i].Invalidate? ==>
            i == |cs| - 1 && cs[i - 1] == Unlocked && cs[i].from == Earliest(Reports(mt, codecs, items), -1))
      && (forall i :: 0 < i < |cs| && cs[i].Track? ==> exists j :: i < j < |cs| && cs[j] == Unlocked)
  {
    var batch := BatchCalls(mt, codecs, items);
    var cs := PassCalls(mt, codecs, items);
    BatchCallsAreTrackCalls(mt, codecs, items);
    var u := 1 + |batch|;
    assert cs[u] == Unlocked;
    forall i | 0 <= i < |cs| && cs[i].Invalidate?
      ensures i == |cs| - 1 && cs[i - 1] == Unlocked
    {
    }
    forall i | 0 < i < |cs| && cs[i].Track?
      ensures exists j :: i < j < |cs| && cs[j] == Unlocked
    {
      assert i < u;
    }
  }

  // ---------------------------------------------------------------------
  // The pin

  class InputPin {
    /** `m_mt`: the connected media type. */
    const mediaType: MediaType
    /** The text conversions the decoder calls. */
    const codecs: Codecs
    /** `m_tStart`: the start of the current segment, set by `NewSegment`. */
    var segmentStart: int
    /** `m_sampleQueue`: queued samples, front first; `None` is the end-of-stream marker. */
    var queue: seq<Option<Sample>>
    /** `m_bStopDecoding` */
    var stopDecoding: bool
    /** `m_bExitDecodingThread` */
    var exitDecodingThread: bool
    /** The calls made on the track and the renderer so far. */
    var calls: seq<Call>

    constructor (mt: MediaType, conversions: Codecs, start: int)
      ensures mediaType == mt && codecs == conversions && segmentStart == start
      ensures queue == [] && !stopDecoding && !exitDecodingThread && calls == []
    {
      mediaType := mt;
      codecs := conversions;
      segmentStart := start;
      queue := [];
      stopDecoding := false;
      exitDecodingThread := false;
      calls := [];
    }

    /** `m_bStopDecoding || m_bExitDecodingThread`: the worker must not decode. */
    predicate Stopping()
      reads this
    {
      stopDecoding || exitDecodingThread
    }

    /**
     * `Receive`: stamps the sample's times, drops what cannot be shown and
     * appends the rest at the tail of the queue.
     */
    method Receive(d: Delivery) returns (hr: int)
      modifies this
      ensures hr == Admit(mediaType.subtype, segmentStart, d).hr
      ensures queue == old(queue) + Queued(Admit(mediaType.subtype, segmentStart, d))
      ensures segmentStart == old(segmentStart) && calls == old(calls)
      ensures stopDecoding == old(stopDecoding) && exitDecodingThread == old(exitDecodingThread)
    {
      hr := d.baseHr;
      if Failed(hr) {
        return;
      }
      var start, stop;
      hr := d.timeHr;
      if hr == S_OK {
        start, stop := d.start + segmentStart, d.stop + segmentStart;
      } else if hr == VFW_S_NO_STOP_TIME {
        start, stop := d.start + segmentStart, INVALID_TIME;
      } else if hr == VFW_E_SAMPLE_TIME_NOT_SET {
        start, stop := INVALID_TIME, INVALID_TIME;
      } else {
        return;
      }
      var useMediaSample := mediaType.subtype == Hdmv || mediaType.subtype == Dvb;
      if (start == INVALID_TIME || stop == INVALID_TIME) && !useMediaSample {
        return S_OK;
      }
      if useMediaSample {
        queue := queue + [Some(MediaSample(start, stop, d.buffer))];
        return S_OK;
      }
      hr := d.pointerHr;
      if Failed(hr) || d.pointerNull {
        return;
      }
      if |d.data| == 0 {
        return S_OK;
      }
      queue := queue + [Some(DataSample(start, stop, d.data))];
      return S_OK;
    }

    /** `EndOfStream`: when the base class succeeds, the end-of-stream marker is queued. */
    method EndOfStream(baseHr: int) returns (hr: int)
      modifies this
      ensures hr == baseHr
      ensures queue == old(queue) + (if Failed(baseHr) then [] else [None])
      ensures segmentStart == old(segmentStart) && calls == old(calls)
      ensures stopDecoding == old(stopDecoding) && exitDecodingThread == old(exitDecodingThread)
    {
      hr := baseHr;
      if !Failed(hr) {
        queue := queue + [None];
      }
    }

    /** `InvalidateSamples`: the queue is emptied and decoding may go on. */
    method InvalidateSamples()
      modifies this
      ensures queue == [] && !stopDecoding
      ensures segmentStart == old(segmentStart) && calls == old(calls)
      ensures exitDecodingThread == old(exitDecodingThread)
    {
      stopDecoding := true;
      queue := [];
      stopDecoding := false;
    }

    /** The destructor's request to the worker: stop decoding and exit. */
    method Close()
      modifies this
      ensures stopDecoding && exitDecodingThread && Stopping()
      ensures queue == old(queue) && segmentStart == old(segmentStart) && calls == old(calls)
    {
      exitDecodingThread := true;
      stopDecoding := true;
    }

    /** `DecodeSample` on the pin: the decoder's calls reach the track. */
    method DecodeOne(s: Sample) returns (rt: int)
      modifies this
      ensures rt == Reported(mediaType, codecs, s)
      ensures calls == old(calls) + Tracks(Decode(mediaType, codecs, s).ops)
      ensures queue == old(queue) && segmentStart == old(segmentStart)
      ensures stopDecoding == old(stopDecoding) && exitDecodingThread == old(exitDecodingThread)
    {
      var ops;
      ops, rt := DecodeSample(mediaType, codecs, s);
      calls := calls + Tracks(ops);
    }

    /**
     * One turn of the worker's inner loop: the front entry is decoded,
     * unless it is the end-of-stream marker, and popped.
     */
    method DecodeFront() returns (rt: int)
      requires queue != []
      modifies this
      ensures rt == ReportedBy(mediaType, codecs, old(queue[0]))
      ensures calls == old(calls) + ItemCalls(mediaType, codecs, old(queue[0]))
      ensures queue == old(queue[1..]) && segmentStart == old(segmentStart)
      ensures stopDecoding == old(stopDecoding) && exitDecodingThread == old(exitDecodingThread)
    {
      var item := queue[0];
      rt := -1;
      if item.Some? {
        rt := DecodeOne(item.value);
      }
      queue := queue[1..];
    }

    /**
     * The inner loop of `DecodeSamples`: the queue is decoded front to
     * back while decoding may go on, folding the reported values into the
     * earliest one.
     */
    method DecodeQueue() returns (rtInvalidate: int)
      requires !Stopping()
      modifies this
      ensures rtInvalidate == Earliest(Reports(mediaType, codecs, old(queue)), -1)
      ensures queue == [] && calls == old(calls) + BatchCalls(mediaType, codecs, old(queue))
      ensures segmentStart == old(segmentStart)
      ensures stopDecoding == old(stopDecoding) && exitDecodingThread == old(exitDecodingThread)
    {
      rtInvalidate := -1;
      ghost var batch := queue;
      while queue != [] && !Stopping()
        invariant !Stopping()
        invariant segmentStart == old(segmentStart)
        invariant stopDecoding == old(stopDecoding) && exitDecodingThread == old(exitDecodingThread)
        invariant calls + BatchCalls(mediaType, codecs, queue) == old(calls) + BatchCalls(mediaType, codecs, batch)
        invariant Earliest(Reports(mediaType, codecs, queue), rtInvalidate) == Earliest(Reports(mediaType, codecs, batch), -1)
        decreases |queue|
      {
        ghost var q := queue;
        ghost var done := calls;
        var rt := DecodeFront();
        EarliestStep(mediaType, codecs, q, rtInvalidate, rt);
        BatchStep(mediaType, codecs, q, done, ItemCalls(mediaType, codecs, q[0]));
        rtInvalidate := Lower(rtInvalidate, rt);
      }
      assert Earliest(Reports(mediaType, codecs, queue), rtInvalidate) == rtInvalidate;
      assert calls + BatchCalls(mediaType, codecs, queue) == calls;
    }

    /**
     * One pass of `DecodeSamples` once its wait is over: unless it must
     * stop, it decodes the whole queue under the subtitle lock, and after
     * releasing the lock asks for the subtitles to be recomputed from the
     * earliest time the samples reported.
     */
    method DrainQueue() returns (rtInvalidate: int)
      modifies this
      ensures old(Stopping()) ==> rtInvalidate == -1 && queue == old(queue) && calls == old(calls)
      ensures !old(Stopping()) ==>
        && rtInvalidate == Earliest(Reports(mediaType, codecs, old(queue)), -1)
        && queue == []
        && calls == old(calls) + PassCalls(mediaType, codecs, old(queue))
      ensures segmentStart == old(segmentStart)
      ensures stopDecoding == old(stopDecoding) && exitDecodingThread == old(exitDecodingThread)
    {
      rtInvalidate := -1;
      if !Stopping() {
        ghost var before := calls;
        ghost var batch := queue;
        calls := calls + [Locked];
        rtInvalidate := DecodeQueue();
        calls := calls + [Unlocked];
        ghost var unlocked := calls;
        if rtInvalidate >= 0 {
          calls := calls + [Invalidate(rtInvalidate)];
        }
        PassShape(mediaType, codecs, batch, before, unlocked, calls, rtInvalidate);
      }
    }
  }

  /** After `Close`, a pass decodes nothing, calls nothing and leaves the queue as it is. */
  method CloseStopsDecoding(pin: InputPin) returns (rt: int)
    modifies pin
    ensures rt == -1 && pin.queue == old(pin.queue) && pin.calls == old(pin.calls)
  {
    pin.Close();
    rt := pin.DrainQueue();
  }
}
