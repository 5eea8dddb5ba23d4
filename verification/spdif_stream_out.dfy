/**
 SpdifStreamOut: an AudioStreamOut that carries compressed AC-3, E-AC-3 and
 DTS audio to a HAL expecting PCM, by wrapping it in IEC 61937 data bursts.
 The adapter remembers the configuration the application asked for, opens
 the HAL with the device configuration the burst format needs, and passes
 writes through an SPDIF encoder that calls back into writeDataBurst with
 every finished burst. The encoder itself is not part of this model: it is
 a format, a framing state that reset() returns to a burst boundary, and
 its reaction to one write, given as a parameter.
 */
module SpdifStreamOut {
  import opened MachineInts
  import opened AudioTypes
  import AudioStreamOut
  import DataBurst

  // ---------------------------------------------------------------------
  // Format policy
  // ---------------------------------------------------------------------

  /** What the HAL side of an IEC 61937 stream needs for one compressed
      format: the rate multiplier, the device sample rate and channel mask. */
  datatype DevicePolicy = DevicePolicy(rateMultiplier: AudioStreamOut.Multiplier, sampleRate: uint32, channelMask: ChannelMask)

  /** The compressed formats the adapter knows how to wrap. */
  predicate IsWrappable(format: Format) {
    || format == FORMAT_E_AC3 || format == FORMAT_E_AC3_JOC
    || format == FORMAT_AC3 || format == FORMAT_DTS
    || format == FORMAT_DTS_HD
  }

  /** The switch in open(): E-AC-3 bursts run at four times the application
      rate, AC-3 and DTS at the application rate, DTS-HD at a fixed 192 kHz
      on eight channels. The product is uint32_t arithmetic. */
  function ResolvePolicy(format: Format, sampleRate: uint32): (p: Option<DevicePolicy>)
    ensures p.Some? <==> IsWrappable(format)
    ensures p.Some? && format != FORMAT_DTS_HD ==> p.value.channelMask == CHANNEL_OUT_STEREO
    ensures p.Some? && format != FORMAT_DTS_HD ==> p.value.sampleRate == Wrap32(sampleRate * p.value.rateMultiplier)
    ensures format == FORMAT_DTS_HD ==> p == Some(DevicePolicy(1, 192000, CHANNEL_OUT_7POINT1))
  {
    if format == FORMAT_E_AC3 || format == FORMAT_E_AC3_JOC then
      Some(DevicePolicy(4, Wrap32(sampleRate * 4), CHANNEL_OUT_STEREO))
    else if format == FORMAT_AC3 || format == FORMAT_DTS then
      Some(DevicePolicy(1, sampleRate, CHANNEL_OUT_STEREO))
    else if format == FORMAT_DTS_HD then
      Some(DevicePolicy(1, 192000, CHANNEL_OUT_7POINT1))
    else
      None
  }

  /** Only the E-AC-3 family runs faster than the application rate. */
  lemma MultiplierFourExactlyForEac3(format: Format, sampleRate: uint32)
    requires IsWrappable(format)
    ensures var p := ResolvePolicy(format, sampleRate).value;
            && (p.rateMultiplier == 4 <==> format == FORMAT_E_AC3 || format == FORMAT_E_AC3_JOC)
            && (p.rateMultiplier != 4 ==> p.rateMultiplier == 1)
  {
  }

  /** Outside DTS-HD the device rate is the application rate times the
      multiplier, so dividing by the multiplier gives the application rate
      back, as long as the uint32_t product does not wrap. */
  lemma DeviceRateScalesApplicationRate(format: Format, sampleRate: uint32)
    requires IsWrappable(format) && format != FORMAT_DTS_HD
    requires sampleRate < 0x4000_0000
    ensures var p := ResolvePolicy(format, sampleRate).value;
            && p.sampleRate == sampleRate * p.rateMultiplier
            && p.sampleRate / p.rateMultiplier == sampleRate
  {
    var p := ResolvePolicy(format, sampleRate).value;
    assert 0 <= sampleRate * p.rateMultiplier < 0x1_0000_0000;
  }

  /** customConfig: the device configuration handed to the base open. Its
      format is the burst wire format whatever the application format. */
  function DeviceConfig(p: DevicePolicy): (c: AudioConfig)
    ensures c.format == FORMAT_IEC61937
    ensures c.sampleRate == p.sampleRate && c.channelMask == p.channelMask
  {
    AudioConfig(p.sampleRate, p.channelMask, FORMAT_IEC61937)
  }

  // ---------------------------------------------------------------------
  // Encoder
  // ---------------------------------------------------------------------

  /** Where the encoder stands in the compressed stream: at a burst
      boundary, or partway through a frame with residue held back. */
  datatype Framing = AtBoundary | MidBurst(residueBytes: nat)

  /** The SPDIF encoder: bound to a format when the adapter is built. */
  datatype Encoder = Encoder(format: Format, framing: Framing)

  /** reset(): drop any residue so the next write starts a new burst. */
  function Reset(e: Encoder): (e': Encoder)
    ensures e'.framing == AtBoundary
    ensures e'.format == e.format
  {
    e.(framing := AtBoundary)
  }

  /** The encoder's reaction to one write: what it returns, the bursts it
      hands to writeDataBurst (their sizes in bytes, in order), and its
      framing afterwards. */
  datatype EncoderStep = EncoderStep(consumed: int64, bursts: seq<uint64>, framing: Framing)

  // ---------------------------------------------------------------------
  // The adapter
  // ---------------------------------------------------------------------

  /** The base stream, the encoder, and the application's format, sample
      rate and channel mask (mApplicationFormat, mApplicationSampleRate,
      mApplicationChannelMask). */
  datatype SpdifOut = SpdifOut(base: AudioStreamOut.StreamOut, encoder: Encoder, application: AudioConfig)

  /** The constructor: the base stream is told the data is not audio, the
      encoder is bound to the compressed format, the application triple
      starts out default, zero and empty. */
  function Create(flags: OutputFlags, format: Format): (sp: SpdifOut)
    ensures sp.base == AudioStreamOut.Create(flags | OUTPUT_FLAG_IEC958_NONAUDIO)
    ensures HasFlag(sp.base.flags, OUTPUT_FLAG_IEC958_NONAUDIO)
    ensures sp.encoder == Encoder(format, AtBoundary)
    ensures sp.application == AudioConfig(0, CHANNEL_NONE, FORMAT_DEFAULT)
  {
    SpdifOut(AudioStreamOut.Create(flags | OUTPUT_FLAG_IEC958_NONAUDIO), Encoder(format, AtBoundary),
             AudioConfig(0, CHANNEL_NONE, FORMAT_DEFAULT))
  }

  datatype SpdifOpenOutcome = SpdifOpenOutcome(adapter: SpdifOut, status: Status, requests: seq<AudioStreamOut.OpenRequest>)

  /** open(): record the application's configuration, then either reject
      the format or set the rate multiplier and open the base stream with
      the device configuration, returning its status unchanged. */
  function Open(sp: SpdifOut, config: AudioConfig, first: AudioStreamOut.OpenReply, retry: AudioStreamOut.OpenReply,
                frame: AudioStreamOut.FrameSizeReply, bufferSize: uint64, hasProportionalFrames: Format -> bool): (r: SpdifOpenOutcome)
    requires IsWrappable(config.format) && AudioStreamOut.HalOpenStatus(first, retry) == NO_ERROR ==>
               frame.status == OK && frame.frameSize > 0
    ensures r.adapter.application == config
    ensures r.adapter.encoder == sp.encoder
    ensures !IsWrappable(config.format) ==> r.status == BAD_VALUE && r.requests == [] && r.adapter.base == sp.base
    ensures IsWrappable(config.format) ==>
              var p := ResolvePolicy(config.format, config.sampleRate).value;
              && r.status == AudioStreamOut.HalOpenStatus(first, retry)
              && 1 <= |r.requests| <= 2
              && r.requests[0] == AudioStreamOut.OpenRequest(sp.base.flags | OUTPUT_FLAG_IEC958_NONAUDIO, DeviceConfig(p))
              && r.adapter.base.rateMultiplier == p.rateMultiplier
              && r.adapter.base.configFormat == Some(first.config.format)
              && (r.status == NO_ERROR ==> r.adapter.base.hasStream && r.adapter.base.halBufferSize == bufferSize)
    ensures IsWrappable(config.format) ==>
              var p := ResolvePolicy(config.format, config.sampleRate).value;
              var o := AudioStreamOut.Open(sp.base.(rateMultiplier := p.rateMultiplier), DeviceConfig(p),
                                           first, retry, frame, bufferSize, hasProportionalFrames);
              r.adapter.base == o.stream && r.requests == o.requests && r.status == o.status
  {
    var adapter := sp.(application := config);
    var p := ResolvePolicy(config.format, config.sampleRate);
    if p.None? then
      SpdifOpenOutcome(adapter, BAD_VALUE, [])
    else
      var base := sp.base.(rateMultiplier := p.value.rateMultiplier);
      var o := AudioStreamOut.Open(base, DeviceConfig(p.value), first, retry, frame, bufferSize, hasProportionalFrames);
      SpdifOpenOutcome(adapter.(base := o.stream), o.status, o.requests)
  }

  /** getAudioProperties(): the application's view, not the device's. */
  function GetAudioProperties(sp: SpdifOut): (c: AudioConfig)
    ensures c.format == sp.application.format
    ensures c.sampleRate == sp.application.sampleRate
    ensures c.channelMask == sp.application.channelMask
  {
    sp.application
  }

  datatype SpdifOutcome = SpdifOutcome(adapter: SpdifOut, status: Status)

  /** flush(): reset the encoder, then flush the base stream and return
      its status. */
  function Flush(sp: SpdifOut, halStatus: Status): (r: SpdifOutcome)
    requires sp.base.hasStream
    ensures r.adapter.encoder == Reset(sp.encoder)
    ensures r.adapter.application == sp.application
    ensures AudioStreamOut.CountersReset(r.adapter.base)
    ensures r.status == NO_ERROR <==> halStatus == NO_ERROR || halStatus == INVALID_OPERATION
    ensures var o := AudioStreamOut.Flush(sp.base, halStatus); r.adapter.base == o.stream && r.status == o.status
  {
    var o := AudioStreamOut.Flush(sp.base, halStatus);
    SpdifOutcome(sp.(encoder := Reset(sp.encoder), base := o.stream), o.status)
  }

  /** standby(): reset the encoder, then put the base stream in standby and
      return its status. While the HAL carries IEC 61937 the frames written
      before standby are not taken as a new presentation origin. */
  function Standby(sp: SpdifOut, halStatus: Status): (r: SpdifOutcome)
    requires sp.base.hasStream
    ensures r.adapter.encoder == Reset(sp.encoder)
    ensures r.adapter.application == sp.application
    ensures r.status == halStatus
    ensures r.adapter.base.renderPosition == 0
    ensures sp.base.configFormat == Some(FORMAT_IEC61937) ==>
              r.adapter.base.framesWrittenAtStandby == sp.base.framesWrittenAtStandby
    ensures r.adapter.base == AudioStreamOut.Standby(sp.base, halStatus).stream
  {
    var o := AudioStreamOut.Standby(sp.base, halStatus);
    SpdifOutcome(sp.(encoder := Reset(sp.encoder), base := o.stream), o.status)
  }

  /** The base stream's frame counter after the bursts whose HAL replies are
      `sinks`, the i-th burst having used the first |offered[i]| of them. */
  function FramesAcross(frames: uint64, frameSize: uint64, sinks: seq<seq<AudioStreamOut.HalWrite>>,
                        offered: seq<seq<uint64>>): uint64
    requires |offered| == |sinks|
    requires forall i :: 0 <= i < |sinks| ==> |offered[i]| <= |sinks[i]|
  {
    if |sinks| == 0 then frames
    else
      var k := |sinks| - 1;
      DataBurst.FramesAfter(FramesAcross(frames, frameSize, sinks[..k], offered[..k]), frameSize, sinks[k][..|offered[k]|])
  }

  /** One more burst extends the frame counter by the frames its attempts
      counted. */
  lemma FramesAcrossStep(frames: uint64, frameSize: uint64, sinks: seq<seq<AudioStreamOut.HalWrite>>,
                         offered: seq<seq<uint64>>, offers: seq<uint64>)
    requires |offered| < |sinks|
    requires forall i :: 0 <= i < |offered| ==> |offered[i]| <= |sinks[i]|
    requires |offers| <= |sinks[|offered|]|
    ensures var k := |offered|;
            FramesAcross(frames, frameSize, sinks[..k + 1], offered + [offers])
              == DataBurst.FramesAfter(FramesAcross(frames, frameSize, sinks[..k], offered), frameSize, sinks[k][..|offers|])
  {
    var k := |offered|;
    assert sinks[..k + 1][..k] == sinks[..k];
    assert (offered + [offers])[..k] == offered;
  }

  /** The first |written| bursts were each written by one run of
      writeDataBurst as written, and the base stream has moved only its
      frame counter, by the frames those runs counted. */
  predicate BurstsWritten(sp: SpdifOut, step: EncoderStep, sinks: seq<seq<AudioStreamOut.HalWrite>>, base: AudioStreamOut.StreamOut,
                          written: seq<int64>, offered: seq<seq<uint64>>, accepted: seq<seq<uint64>>)
  {
    && |written| == |offered| == |accepted| <= |step.bursts| == |sinks|
    && (forall i :: 0 <= i < |written| ==>
          && DataBurst.IsBurstRun(sp.base.halBufferSize, step.bursts[i], sinks[i], offered[i], accepted[i])
          && written[i] == AsInt64(Wrap64(DataBurst.Sum(accepted[i]))))
    && (forall i :: 0 <= i < |offered| ==> |offered[i]| <= |sinks[i]|)
    && base == sp.base.(framesWritten := FramesAcross(sp.base.framesWritten, sp.base.halFrameSize, sinks[..|offered|], offered))
  }

  /** The encoder's call back for the next burst. */
  method WriteNextBurst(sp: SpdifOut, step: EncoderStep, sinks: seq<seq<AudioStreamOut.HalWrite>>, base: AudioStreamOut.StreamOut,
                        written: seq<int64>, offered: seq<seq<uint64>>, accepted: seq<seq<uint64>>)
    returns (base': AudioStreamOut.StreamOut, written': seq<int64>, offered': seq<seq<uint64>>, accepted': seq<seq<uint64>>)
    requires sp.base.hasStream || sp.base.halBufferSize == 0
    requires forall i :: 0 <= i < |sinks| ==> |sinks[i]| >= DataBurst.MAX_WRITE_ATTEMPTS
    requires BurstsWritten(sp, step, sinks, base, written, offered, accepted)
    requires |written| < |step.bursts|
    ensures BurstsWritten(sp, step, sinks, base', written', offered', accepted')
    ensures |written'| == |written| + 1
  {
    var i := |written|;
    var w, offers, sizes;
    base', w, offers, sizes := DataBurst.WriteDataBurst(base, step.bursts[i], sinks[i]);
    FramesAcrossStep(sp.base.framesWritten, sp.base.halFrameSize, sinks, offered, offers);
    written', offered', accepted' := written + [w], offered + [offers], accepted + [sizes];
  }

  /** write(): hand the buffer to the encoder, which calls writeDataBurst
      once per finished burst (each burst meeting its own HAL replies), and
      return what the encoder returns. Every burst is a run of the loop as
      written, and only the frame counter of the base stream moves: by the
      frames each attempted chunk counted, burst after burst. */
  method Write(sp: SpdifOut, step: EncoderStep, sinks: seq<seq<AudioStreamOut.HalWrite>>)
    returns (sp': SpdifOut, r: int64, written: seq<int64>, offered: seq<seq<uint64>>, accepted: seq<seq<uint64>>)
    requires |sinks| == |step.bursts|
    requires forall i :: 0 <= i < |sinks| ==> |sinks[i]| >= DataBurst.MAX_WRITE_ATTEMPTS
    requires |step.bursts| > 0 ==> sp.base.hasStream || sp.base.halBufferSize == 0
    ensures r == step.consumed
    ensures sp'.encoder == sp.encoder.(framing := step.framing)
    ensures sp'.application == sp.application
    ensures && |written| == |offered| == |accepted| == |step.bursts|
            && forall i :: 0 <= i < |step.bursts| ==>
                 && DataBurst.IsBurstRun(sp.base.halBufferSize, step.bursts[i], sinks[i], offered[i], accepted[i])
                 && written[i] == AsInt64(Wrap64(DataBurst.Sum(accepted[i])))
    ensures && |offered| == |sinks|
            && (forall i :: 0 <= i < |sinks| ==> |offered[i]| <= |sinks[i]|)
            && sp'.base == sp.base.(framesWritten := FramesAcross(sp.base.framesWritten, sp.base.halFrameSize, sinks, offered))
  {
    var base := sp.base;
    written, offered, accepted := [], [], [];
    while |written| < |step.bursts|
      invariant BurstsWritten(sp, step, sinks, base, written, offered, accepted)
      decreases |step.bursts| - |written|
    {
      base, written, offered, accepted := WriteNextBurst(sp, step, sinks, base, written, offered, accepted);
    }
    assert sinks[..|sinks|] == sinks;
    sp' := sp.(base := base, encoder := sp.encoder.(framing := step.framing));
    r := step.consumed;
  }

  // ---------------------------------------------------------------------
  // Properties
  // ---------------------------------------------------------------------

  /** Whatever the format and whatever the HAL answers, the properties
      reported after open are exactly the configuration the application
      asked for. */
  lemma AudioPropertiesAfterOpen(sp: SpdifOut, config: AudioConfig, first: AudioStreamOut.OpenReply, retry: AudioStreamOut.OpenReply,
                                 frame: AudioStreamOut.FrameSizeReply, bufferSize: uint64, hasProportionalFrames: Format -> bool)
    requires IsWrappable(config.format) && AudioStreamOut.HalOpenStatus(first, retry) == NO_ERROR ==>
               frame.status == OK && frame.frameSize > 0
    ensures GetAudioProperties(Open(sp, config, first, retry, frame, bufferSize, hasProportionalFrames).adapter) == config
  {
  }

  /** A stream that was never opened (mHalBufferSize still 0) makes no
      base write for any burst, and every burst reports nothing written. */
  lemma UnopenedWriteSendsNothing(sp: SpdifOut, step: EncoderStep, sinks: seq<seq<AudioStreamOut.HalWrite>>,
                                  written: seq<int64>, offered: seq<seq<uint64>>, accepted: seq<seq<uint64>>)
    requires sp.base.halBufferSize == 0
    requires |written| == |offered| == |accepted| == |step.bursts| == |sinks|
    requires forall i :: 0 <= i < |step.bursts| ==>
               && DataBurst.IsBurstRun(sp.base.halBufferSize, step.bursts[i], sinks[i], offered[i], accepted[i])
               && written[i] == AsInt64(Wrap64(DataBurst.Sum(accepted[i])))
    ensures forall i :: 0 <= i < |step.bursts| ==> offered[i] == [] && written[i] == 0
  {
    forall i | 0 <= i < |step.bursts|
      ensures offered[i] == [] && written[i] == 0
    {
      DataBurst.ZeroChunkWritesNothing(sp.base.halBufferSize, step.bursts[i], sinks[i], offered[i], accepted[i]);
    }
  }

  /** Flush and standby leave the application's properties alone and put
      the encoder at a burst boundary. */
  lemma ResetKeepsProperties(sp: SpdifOut, halStatus: Status)
    requires sp.base.hasStream
    ensures GetAudioProperties(Flush(sp, halStatus).adapter) == GetAudioProperties(sp)
    ensures GetAudioProperties(Standby(sp, halStatus).adapter) == GetAudioProperties(sp)
    ensures Flush(sp, halStatus).adapter.encoder.framing == AtBoundary
    ensures Standby(sp, halStatus).adapter.encoder.framing == AtBoundary
  {
  }

  /** An unknown format is refused before the HAL is asked anything: the
      base stream, including its rate multiplier, is left as it was, but
      the application triple has already been overwritten. */
  lemma UnknownFormatRefused(sp: SpdifOut, config: AudioConfig, first: AudioStreamOut.OpenReply, retry: AudioStreamOut.OpenReply,
                             frame: AudioStreamOut.FrameSizeReply, bufferSize: uint64, hasProportionalFrames: Format -> bool)
    requires config.format == FORMAT_PCM_16_BIT
    ensures var r := Open(sp, config, first, retry, frame, bufferSize, hasProportionalFrames);
            && r.status == BAD_VALUE
            && r.requests == []
            && r.adapter.base.rateMultiplier == sp.base.rateMultiplier
            && GetAudioProperties(r.adapter) == config
  {
  }

  /** An E-AC-3 stream at 48 kHz: the HAL is asked for a stereo IEC 61937
      stream at 192 kHz, marked non-audio, while the application still
      sees 48 kHz E-AC-3. Once the HAL has accepted it, 192000 HAL frames
      after a fresh start read as 48000 application frames. */
  lemma Eac3At48k(flags: OutputFlags, first: AudioStreamOut.OpenReply, retry: AudioStreamOut.OpenReply,
                  frame: AudioStreamOut.FrameSizeReply, bufferSize: uint64, hasProportionalFrames: Format -> bool)
    requires AudioStreamOut.HalOpenStatus(first, retry) == NO_ERROR
    requires frame.status == OK && frame.frameSize > 0
    requires hasProportionalFrames(first.config.format)
    ensures var config := AudioConfig(48000, CHANNEL_OUT_STEREO, FORMAT_E_AC3);
            var r := Open(Create(flags, FORMAT_E_AC3), config, first, retry, frame, bufferSize, hasProportionalFrames);
            && r.status == NO_ERROR
            && r.requests[0].config == AudioConfig(192000, CHANNEL_OUT_STEREO, FORMAT_IEC61937)
            && HasFlag(r.requests[0].flags, OUTPUT_FLAG_IEC958_NONAUDIO)
            && GetAudioProperties(r.adapter) == config
            && AudioStreamOut.GetPresentationPosition(r.adapter.base, NO_ERROR, 192000).frames == Some(48000)
  {
  }

  /** DTS-HD always runs the HAL at 192 kHz on 7.1 channels, whatever rate
      the application asked for. */
  lemma DtsHdFixedDevice(sp: SpdifOut, sampleRate: uint32, channelMask: ChannelMask,
                         first: AudioStreamOut.OpenReply, retry: AudioStreamOut.OpenReply,
                         frame: AudioStreamOut.FrameSizeReply, bufferSize: uint64, hasProportionalFrames: Format -> bool)
    requires AudioStreamOut.HalOpenStatus(first, retry) == NO_ERROR ==> frame.status == OK && frame.frameSize > 0
    ensures var config := AudioConfig(sampleRate, channelMask, FORMAT_DTS_HD);
            var r := Open(sp, config, first, retry, frame, bufferSize, hasProportionalFrames);
            && r.requests[0].config == AudioConfig(192000, CHANNEL_OUT_7POINT1, FORMAT_IEC61937)
            && r.adapter.base.rateMultiplier == 1
            && GetAudioProperties(r.adapter) == config
  {
  }
}
