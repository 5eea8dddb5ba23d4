/**
 Status codes, audio format codes, channel masks and output flags that the
 stream classes exchange with the audio HAL, and the audio_config record.
 The numeric values are Android's own (utils/Errors.h, system/audio.h); those
 headers are not part of this model, and the proofs rely only on the values
 being distinct.
 */
module AudioTypes {
  import opened MachineInts

  datatype Option<T> = None | Some(value: T)

  /** status_t */
  type Status = int32

  const OK: Status := 0
  const NO_ERROR: Status := 0
  /** -ENODEV */
  const NO_INIT: Status := -19
  /** -EINVAL */
  const BAD_VALUE: Status := -22
  /** -ENOSYS */
  const INVALID_OPERATION: Status := -38

  /** audio_format_t */
  type Format = uint32

  const FORMAT_DEFAULT: Format := 0
  const FORMAT_PCM_16_BIT: Format := 0x1
  const FORMAT_AC3: Format := 0x0900_0000
  const FORMAT_E_AC3: Format := 0x0A00_0000
  const FORMAT_E_AC3_JOC: Format := 0x0A00_0001
  const FORMAT_DTS: Format := 0x0B00_0000
  const FORMAT_DTS_HD: Format := 0x0C00_0000
  /** Compressed audio wrapped in IEC 61937 data bursts. */
  const FORMAT_IEC61937: Format := 0x0D00_0000
  const FORMAT_INVALID: Format := 0xFFFF_FFFF

  /** audio_channel_mask_t */
  type ChannelMask = uint32

  const CHANNEL_NONE: ChannelMask := 0
  const CHANNEL_OUT_STEREO: ChannelMask := 0x3
  const CHANNEL_OUT_7POINT1: ChannelMask := 0x63F
  const CHANNEL_INVALID: ChannelMask := 0xC000_0000

  /** audio_output_flags_t, a bit set */
  type OutputFlags = bv32

  const OUTPUT_FLAG_IEC958_NONAUDIO: OutputFlags := 0x400

  predicate HasFlag(flags: OutputFlags, flag: OutputFlags) {
    flags & flag == flag
  }

  /** The sample rate, channel mask and format fields of audio_config
      (audio_config_base_t); offload info and frame count are not modelled. */
  datatype AudioConfig = AudioConfig(sampleRate: uint32, channelMask: ChannelMask, format: Format)
}
