/**
 AudioStreamOut: AudioFlinger's managed access to one HAL output stream.
 The stream object is an immutable record; every operation returns the new
 record together with what the C++ method returns. The HAL is reduced to the
 replies it gives, which are passed in as parameters.
 */
module AudioStreamOut {
  import opened MachineInts
  import opened AudioTypes

  /** mRateMultiplier: an int that the adapters only ever set to 1 or 4. */
  type Multiplier = m: int | 1 <= m < 0x8000_0000 witness 1

  datatype StreamOut = StreamOut(
    /** stream != NULL: a HAL stream has been opened */
    hasStream: bool,
    flags: OutputFlags,
    /** HAL frames handed to the HAL since the last flush */
    framesWritten: uint64,
    framesWrittenAtStandby: uint64,
    /** 64-bit extension of the HAL's 32-bit render position */
    renderPosition: uint64,
    rateMultiplier: Multiplier,
    halFormatHasProportionalFrames: bool,
    halFrameSize: uint64,
    /** one backwards move of renderPosition is allowed */
    expectRetrograde: bool,
    halBufferSize: uint64,
    /** mConfigFormat; the constructor leaves it unset (None) */
    configFormat: Option<Format>)

  /** The position-tracking fields are all at rest. */
  predicate CountersReset(s: StreamOut) {
    && s.framesWritten == 0
    && s.framesWrittenAtStandby == 0
    && s.renderPosition == 0
    && !s.expectRetrograde
  }

  /** The constructor. */
  function Create(flags: OutputFlags): (s: StreamOut)
    ensures CountersReset(s)
    ensures !s.hasStream && s.flags == flags && s.configFormat == None
    ensures s.rateMultiplier == 1 && !s.halFormatHasProportionalFrames
    ensures s.halFrameSize == 0 && s.halBufferSize == 0
  {
    StreamOut(false, flags, 0, 0, 0, 1, false, 0, false, 0, None)
  }

  // ---------------------------------------------------------------------
  // Render position
  // ---------------------------------------------------------------------

  /** A status, the stream afterwards, and the value stored through the
      `frames` out-pointer (None: the pointer is left untouched). */
  datatype Reading<T> = Reading(status: Status, stream: StreamOut, frames: Option<T>)

  /** How far the HAL's 32-bit counter moved relative to the low half of
      the 64-bit position: `__builtin_sub_overflow` into an int32_t. It is
      the one signed 32-bit step that carries `truncated` to `halPosition`
      modulo 2^32. */
  function HalDelta(halPosition: uint32, truncated: uint32): (d: int32)
    ensures Wrap32(truncated + d) == halPosition
  {
    var w := Wrap32(halPosition - truncated);
    assert truncated + w == halPosition + (if truncated <= halPosition then 0 else TWO_32);
    AsInt32(w)
  }

  /** No other int32 step carries `truncated` to `halPosition`. */
  lemma HalDeltaUnique(halPosition: uint32, truncated: uint32, d: int32)
    requires Wrap32(truncated + d) == halPosition
    ensures d == HalDelta(halPosition, truncated)
  {
    var e := HalDelta(halPosition, truncated);
    assert Wrap32(truncated + e) == halPosition;
    var a := truncated + d;
    var b := truncated + e;
    assert a % 0x1_0000_0000 == b % 0x1_0000_0000;
    assert -0x1_0000_0000 < a - b < 0x1_0000_0000;
    var qa := a / 0x1_0000_0000;
    var qb := b / 0x1_0000_0000;
    assert a - b == (qa - qb) * 0x1_0000_0000;
  }

  /** The example the source gives: 100 - 0xFFFFFFF0 reads as 116. */
  lemma HalDeltaAcrossWrap()
    ensures HalDelta(100, 0xFFFF_FFF0) == 116
  {
  }

  /** The position update once the HAL has answered: move forward by a
      positive delta; move back only when a retrograde move is expected,
      and consume that expectation. `-deltaHalPosition` for INT32_MIN is
      taken as 2^31. */
  function Track(s: StreamOut, halPosition: uint32): (t: StreamOut)
    ensures t == s.(renderPosition := t.renderPosition, expectRetrograde := t.expectRetrograde)
    ensures t.renderPosition == s.renderPosition || Low32(t.renderPosition) == halPosition
    ensures t.expectRetrograde ==> s.expectRetrograde
  {
    var d := HalDelta(halPosition, Low32(s.renderPosition));
    Low32OfWrap64Track(s.renderPosition, d, halPosition);
    if d > 0 then
      s.(renderPosition := Wrap64(s.renderPosition + d))
    else if s.expectRetrograde then
      s.(expectRetrograde := false, renderPosition := Wrap64(s.renderPosition + d))
    else
      s
  }

  /** Moving the 64-bit position by the delta lands on the HAL value in
      the low 32 bits. */
  lemma Low32OfWrap64Track(pos: uint64, d: int32, halPosition: uint32)
    requires Wrap32(Low32(pos) + d) == halPosition
    ensures Low32(Wrap64(pos + d)) == halPosition
  {
    var q := pos / 0x1_0000_0000;
    var y := Low32(pos) + d;
    var qy := y / 0x1_0000_0000;
    assert pos == q * 0x1_0000_0000 + Low32(pos);
    assert y == qy * 0x1_0000_0000 + Wrap32(y);
    Mod32Unique(pos + d, q + qy, Wrap32(y));
    Low32OfWrap64(pos + d);
  }

  /** getRenderPosition(uint64_t *frames). */
  function GetRenderPosition(s: StreamOut, halStatus: Status, halPosition: uint32): (r: Reading<uint64>)
    ensures !s.hasStream ==> r == Reading(NO_INIT, s, None)
    ensures s.hasStream && halStatus != NO_ERROR ==> r == Reading(halStatus, s, None)
    ensures s.hasStream && halStatus == NO_ERROR ==>
              && r.status == NO_ERROR
              && r.frames.Some?
              && r.frames.value * s.rateMultiplier <= r.stream.renderPosition < r.frames.value * s.rateMultiplier + s.rateMultiplier
    ensures r.stream == s.(renderPosition := r.stream.renderPosition, expectRetrograde := r.stream.expectRetrograde)
    ensures r.stream.renderPosition == s.renderPosition || Low32(r.stream.renderPosition) == halPosition
  {
    if !s.hasStream then
      Reading(NO_INIT, s, None)
    else if halStatus != NO_ERROR then
      Reading(halStatus, s, None)
    else
      var t := Track(s, halPosition);
      DivFloor(t.renderPosition, s.rateMultiplier);
      Reading(halStatus, t, Some(t.renderPosition / s.rateMultiplier))
  }

  /** getRenderPosition(uint32_t *frames): the bottom 32 bits of the 64-bit
      position, written only on success. */
  function GetRenderPosition32(s: StreamOut, halStatus: Status, halPosition: uint32): (r: Reading<uint32>)
    ensures var wide := GetRenderPosition(s, halStatus, halPosition);
            && r.status == wide.status
            && r.stream == wide.stream
            && (r.status == NO_ERROR ==> r.frames == Some(Low32(wide.frames.value)))
            && (r.status != NO_ERROR ==> r.frames == None)
  {
    var wide := GetRenderPosition(s, halStatus, halPosition);
    if wide.status == NO_ERROR then
      Reading(wide.status, wide.stream, Some(Low32(wide.frames.value)))
    else
      Reading(wide.status, wide.stream, None)
  }

  /** A successful reading moves the position forward by exactly a positive
      delta, after which it agrees with the HAL in its low 32 bits. */
  lemma ForwardReadingAddsDelta(s: StreamOut, halPosition: uint32)
    requires s.hasStream
    requires HalDelta(halPosition, Low32(s.renderPosition)) > 0
    ensures var r := GetRenderPosition(s, NO_ERROR, halPosition);
            && r.stream.renderPosition == Wrap64(s.renderPosition + HalDelta(halPosition, Low32(s.renderPosition)))
            && Low32(r.stream.renderPosition) == halPosition
            && r.stream.expectRetrograde == s.expectRetrograde
  {
    var d := HalDelta(halPosition, Low32(s.renderPosition));
    Low32OfWrap64Track(s.renderPosition, d, halPosition);
  }

  /** Without an expected retrograde move the 64-bit position never goes
      backwards (short of wrapping past 2^64). */
  lemma RenderPositionMonotonic(s: StreamOut, halStatus: Status, halPosition: uint32)
    requires !s.expectRetrograde
    requires s.renderPosition < TWO_64 - TWO_31
    ensures var r := GetRenderPosition(s, halStatus, halPosition);
            && r.stream.renderPosition >= s.renderPosition
            && !r.stream.expectRetrograde
  {
  }

  /** presentationComplete(): allow one backwards move. */
  function PresentationComplete(s: StreamOut): (t: StreamOut)
    ensures t.expectRetrograde
    ensures t == s.(expectRetrograde := true)
  {
    s.(expectRetrograde := true)
  }

  /** After presentationComplete the first non-forward reading moves the
      position back by |delta| and consumes the permission; a second
      non-forward reading leaves the position where it is. */
  lemma RetrogradeConsumedOnce(s: StreamOut, first: uint32, second: uint32)
    requires s.hasStream
    requires HalDelta(first, Low32(s.renderPosition)) <= 0
    ensures var r1 := GetRenderPosition(PresentationComplete(s), NO_ERROR, first);
            && r1.stream.renderPosition == Wrap64(s.renderPosition + HalDelta(first, Low32(s.renderPosition)))
            && Low32(r1.stream.renderPosition) == first
            && !r1.stream.expectRetrograde
            && (HalDelta(second, first) <= 0 ==>
                  GetRenderPosition(r1.stream, NO_ERROR, second).stream == r1.stream)
  {
    var d := HalDelta(first, Low32(s.renderPosition));
    Low32OfWrap64Track(s.renderPosition, d, first);
  }

  // ---------------------------------------------------------------------
  // Presentation position
  // ---------------------------------------------------------------------

  /** getPresentationPosition: the HAL position with the frames written
      before standby taken off (never below zero) and scaled to the
      application rate, for formats with proportional frames; the HAL value
      unchanged otherwise. The timestamp is passed through and not modelled. */
  function GetPresentationPosition(s: StreamOut, halStatus: Status, halPosition: uint64): (r: Reading<uint64>)
    ensures r.stream == s
    ensures !s.hasStream ==> r.status == NO_INIT && r.frames == None
    ensures s.hasStream && halStatus != NO_ERROR ==> r.status == halStatus && r.frames == None
    ensures s.hasStream && halStatus == NO_ERROR ==> r.status == NO_ERROR && r.frames.Some?
    ensures s.hasStream && halStatus == NO_ERROR && s.halFormatHasProportionalFrames ==>
              var since := if halPosition <= s.framesWrittenAtStandby then 0
                           else halPosition - s.framesWrittenAtStandby;
              && r.frames.value * s.rateMultiplier <= since < r.frames.value * s.rateMultiplier + s.rateMultiplier
              && r.frames.value <= halPosition
    ensures s.hasStream && halStatus == NO_ERROR && !s.halFormatHasProportionalFrames ==>
              r.frames == Some(halPosition)
  {
    if !s.hasStream then
      Reading(NO_INIT, s, None)
    else if halStatus != NO_ERROR then
      Reading(halStatus, s, None)
    else if s.halFormatHasProportionalFrames then
      var adjusted: uint64 := if halPosition <= s.framesWrittenAtStandby then 0
                              else halPosition - s.framesWrittenAtStandby;
      DivFloor(adjusted, s.rateMultiplier);
      Reading(halStatus, s, Some(adjusted / s.rateMultiplier))
    else
      Reading(halStatus, s, Some(halPosition))
  }

  // ---------------------------------------------------------------------
  // Open
  // ---------------------------------------------------------------------

  /** The HAL's answer to openOutputStream: its status and the config as
      the HAL leaves it (a HAL may rewrite the config it was given). */
  datatype OpenReply = OpenReply(status: Status, config: AudioConfig)

  /** The HAL's answer to getFrameSize. */
  datatype FrameSizeReply = FrameSizeReply(status: Status, frameSize: uint64)

  /** One openOutputStream call as the HAL receives it. */
  datatype OpenRequest = OpenRequest(flags: OutputFlags, config: AudioConfig)

  datatype OpenOutcome = OpenOutcome(stream: StreamOut, status: Status, requests: seq<OpenRequest>)

  /** Whether the IEC 61937 open is retried as 16-bit PCM: only when the first
      open failed and the (possibly HAL-rewritten) format is IEC 61937. */
  predicate RetriesAsPcm(first: OpenReply) {
    first.status != NO_ERROR && first.config.format == FORMAT_IEC61937
  }

  /** The status of the HAL open that decides the outcome. */
  function HalOpenStatus(first: OpenReply, retry: OpenReply): Status {
    if RetriesAsPcm(first) then retry.status else first.status
  }

  /** open(): ask the HAL for a stream, marking IEC 61937 data as non-audio,
      and retry an IEC 61937 stream as 16-bit PCM if the HAL refused it. On
      success adopt the stream and its frame and buffer sizes. The format is
      recorded whatever the outcome. A HAL stream that cannot report a
      positive frame size aborts the process in the source, so such replies
      are excluded. */
  function Open(s: StreamOut, config: AudioConfig, first: OpenReply, retry: OpenReply,
                frame: FrameSizeReply, bufferSize: uint64, hasProportionalFrames: Format -> bool): (r: OpenOutcome)
    requires HalOpenStatus(first, retry) == NO_ERROR ==> frame.status == OK && frame.frameSize > 0
    ensures 1 <= |r.requests| <= 2
    ensures r.requests[0].config == config
    ensures config.format == FORMAT_IEC61937 ==> r.requests[0].flags == s.flags | OUTPUT_FLAG_IEC958_NONAUDIO
    ensures config.format != FORMAT_IEC61937 ==> r.requests[0].flags == s.flags
    ensures |r.requests| == 2 <==> RetriesAsPcm(first)
    ensures |r.requests| == 2 ==>
              r.requests[1] == OpenRequest(r.requests[0].flags, first.config.(format := FORMAT_PCM_16_BIT))
    ensures r.status == HalOpenStatus(first, retry)
    ensures r.stream.configFormat == Some(first.config.format)
    ensures r.status != NO_ERROR ==> r.stream == s.(configFormat := Some(first.config.format))
    ensures r.status == NO_ERROR ==>
              && r.stream.hasStream
              && r.stream.halFrameSize == frame.frameSize > 0
              && r.stream.halBufferSize == bufferSize
              && r.stream.halFormatHasProportionalFrames == hasProportionalFrames(first.config.format)
    ensures r.stream == s.(hasStream := r.stream.hasStream, halFormatHasProportionalFrames := r.stream.halFormatHasProportionalFrames,
                           halFrameSize := r.stream.halFrameSize, halBufferSize := r.stream.halBufferSize,
                           configFormat := r.stream.configFormat)
  {
    var customFlags := if config.format == FORMAT_IEC61937 then s.flags | OUTPUT_FLAG_IEC958_NONAUDIO else s.flags;
    var firstRequest := OpenRequest(customFlags, config);
    // From here on `config` is what the HAL left behind.
    var config' := first.config;
    var requests := if RetriesAsPcm(first) then [firstRequest, OpenRequest(customFlags, config'.(format := FORMAT_PCM_16_BIT))]
                    else [firstRequest];
    var status := HalOpenStatus(first, retry);
    var adopted := if status == NO_ERROR then
                    s.(hasStream := true, halFormatHasProportionalFrames := hasProportionalFrames(config'.format),
                       halFrameSize := frame.frameSize, halBufferSize := bufferSize)
                  else s;
    var status' := if status == NO_ERROR then frame.status else status;
    OpenOutcome(adopted.(configFormat := Some(config'.format)), status', requests)
  }

  /** getFrameSize(). */
  function GetFrameSize(s: StreamOut): uint64 {
    s.halFrameSize
  }

  /** After a successful open the frame size reported is the HAL's, and it
      is positive. */
  lemma FrameSizeAfterOpen(s: StreamOut, config: AudioConfig, first: OpenReply, retry: OpenReply,
                           frame: FrameSizeReply, bufferSize: uint64, hasProportionalFrames: Format -> bool)
    requires HalOpenStatus(first, retry) == NO_ERROR
    requires frame.status == OK && frame.frameSize > 0
    ensures var r := Open(s, config, first, retry, frame, bufferSize, hasProportionalFrames);
            r.status == NO_ERROR && GetFrameSize(r.stream) == frame.frameSize > 0
  {
  }

  // ---------------------------------------------------------------------
  // Audio properties
  // ---------------------------------------------------------------------

  /** The HAL's answer to getAudioProperties. */
  datatype PropertiesReply = PropertiesReply(status: Status, config: AudioConfig)

  /** getAudioProperties() of a plain stream: what the HAL reports, or an
      all-invalid triple when the HAL fails. */
  function GetAudioProperties(s: StreamOut, reply: PropertiesReply): (c: AudioConfig)
    requires s.hasStream
    ensures reply.status == OK ==> c == reply.config
    ensures reply.status != OK ==>
              c.sampleRate == 0 && c.channelMask == CHANNEL_INVALID && c.format == FORMAT_INVALID
  {
    if reply.status != OK then AudioConfig(0, CHANNEL_INVALID, FORMAT_INVALID) else reply.config
  }

  // ---------------------------------------------------------------------
  // Flush, standby, write
  // ---------------------------------------------------------------------

  datatype Outcome = Outcome(stream: StreamOut, status: Status)

  /** flush(): reset every position counter, then flush the HAL; a HAL that
      does not implement flush counts as success. */
  function Flush(s: StreamOut, halStatus: Status): (r: Outcome)
    requires s.hasStream
    ensures CountersReset(r.stream)
    ensures r.stream == s.(framesWritten := 0, framesWrittenAtStandby := 0, renderPosition := 0, expectRetrograde := false)
    ensures r.status == NO_ERROR <==> halStatus == NO_ERROR || halStatus == INVALID_OPERATION
    ensures r.status != NO_ERROR ==> r.status == halStatus
  {
    var t := s.(renderPosition := 0, expectRetrograde := false, framesWritten := 0, framesWrittenAtStandby := 0);
    Outcome(t, if halStatus != INVALID_OPERATION then halStatus else NO_ERROR)
  }

  /** standby(): reset the render position and, unless the stream carries
      IEC 61937 data, remember how many frames were written so far. */
  function Standby(s: StreamOut, halStatus: Status): (r: Outcome)
    requires s.hasStream
    ensures r.status == halStatus
    ensures r.stream.renderPosition == 0 && !r.stream.expectRetrograde
    ensures r.stream.framesWritten == s.framesWritten
    ensures s.configFormat != Some(FORMAT_IEC61937) ==> r.stream.framesWrittenAtStandby == s.framesWritten
    ensures s.configFormat == Some(FORMAT_IEC61937) ==> r.stream.framesWrittenAtStandby == s.framesWrittenAtStandby
    ensures r.stream == s.(renderPosition := 0, expectRetrograde := false,
                           framesWrittenAtStandby := r.stream.framesWrittenAtStandby)
  {
    var t := s.(renderPosition := 0, expectRetrograde := false);
    var t' := if s.configFormat != Some(FORMAT_IEC61937) then t.(framesWrittenAtStandby := s.framesWritten) else t;
    Outcome(t', halStatus)
  }

  /** Flush restarts the presentation position: afterwards it is the HAL's
      own count, scaled down by the rate multiplier when the format has
      proportional frames. */
  lemma FlushRestartsPresentation(s: StreamOut, halFlush: Status, halPosition: uint64)
    requires s.hasStream
    ensures GetPresentationPosition(Flush(s, halFlush).stream, NO_ERROR, halPosition).frames
              == Some(if s.halFormatHasProportionalFrames then halPosition / s.rateMultiplier else halPosition)
  {
  }

  /** Flush restarts the render position: afterwards it is the HAL's 32-bit
      position scaled down by the rate multiplier, as long as that position
      has not reached 2^31. From 2^31 on it reads as a move backwards,
      which a flushed stream does not accept, so it reads as zero. */
  lemma FlushRestartsRender(s: StreamOut, halFlush: Status, halPosition: uint32)
    requires s.hasStream
    ensures GetRenderPosition(Flush(s, halFlush).stream, NO_ERROR, halPosition).frames
              == Some(if halPosition < TWO_31 then halPosition / s.rateMultiplier else 0)
  {
    var f := Flush(s, halFlush).stream;
    assert Low32(f.renderPosition) == 0;
    var d := HalDelta(halPosition, 0);
    assert d == AsInt32(halPosition);
    var t := Track(f, halPosition);
    assert t.renderPosition == if halPosition < TWO_31 then halPosition else 0;
  }

  /** After standby of a PCM stream, a presentation position that has not
      passed the frames written before standby reads as zero. */
  lemma PresentationRestartsAfterStandby(s: StreamOut, halStandby: Status, halPosition: uint64)
    requires s.hasStream && s.halFormatHasProportionalFrames
    requires s.configFormat != Some(FORMAT_IEC61937)
    requires halPosition <= s.framesWritten
    ensures GetPresentationPosition(Standby(s, halStandby).stream, NO_ERROR, halPosition).frames == Some(0)
  {
  }

  /** The HAL's answer to one write: its status and the bytes it took. */
  datatype HalWrite = HalWrite(status: Status, bytesWritten: uint64)

  /** What write() returns for a HAL answer: the byte count on OK, the
      (negative) status otherwise, as an ssize_t. */
  function WriteReturn(reply: HalWrite): (n: int64)
    ensures reply.status == OK ==> AsUint64(n) == reply.bytesWritten
    ensures reply.status != OK ==> n == reply.status
  {
    if reply.status == OK then AsInt64(reply.bytesWritten) else reply.status
  }

  /** Whole HAL frames in what a write took: nothing unless the HAL said OK
      and the frame size is known. */
  function FramesCounted(frameSize: uint64, reply: HalWrite): (n: uint64)
    ensures reply.status != OK || frameSize == 0 ==> n == 0
    ensures reply.status == OK && frameSize > 0 ==>
              n * frameSize <= reply.bytesWritten < n * frameSize + frameSize
  {
    if reply.status == OK && reply.bytesWritten > 0 && frameSize > 0 then
      DivFloor(reply.bytesWritten, frameSize);
      reply.bytesWritten / frameSize
    else
      0
  }

  datatype WriteOutcome = WriteOutcome(stream: StreamOut, result: int64)

  /** write(): hand the buffer to the HAL and count the whole frames it took. */
  function Write(s: StreamOut, numBytes: uint64, reply: HalWrite): (r: WriteOutcome)
    requires s.hasStream
    ensures r.result == WriteReturn(reply)
    ensures r.stream == s.(framesWritten := Wrap64(s.framesWritten + FramesCounted(s.halFrameSize, reply)))
    ensures reply.status != OK || s.halFrameSize == 0 ==> r.stream == s
  {
    var n := FramesCounted(s.halFrameSize, reply);
    var t := if reply.status == OK && reply.bytesWritten > 0 && s.halFrameSize > 0 then
               s.(framesWritten := Wrap64(s.framesWritten + n))
             else s;
    WriteOutcome(t, if reply.status == OK then AsInt64(reply.bytesWritten) else reply.status)
  }
}
