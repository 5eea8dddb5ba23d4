# AudioFlinger compressed-audio output streams, modelled in Dafny

This project models two output-stream classes of Android's AudioFlinger.

**AudioStreamOut** is the managed handle on one HAL output stream. It opens
the HAL stream, falling back to 16-bit PCM when the HAL refuses IEC 61937. It
extends the HAL's 32-bit render position to 64 bits, allowing one backwards
move after `presentationComplete`. It reports presentation positions relative
to the last standby, scaled to the application's rate. It also counts the
frames handed to the HAL across `write`, `flush` and `standby`.

**SpdifStreamOut** is an `AudioStreamOut` that carries AC-3, E-AC-3 and DTS
audio wrapped in IEC 61937 data bursts. Its format table picks the device
configuration: rate multiplier, device sample rate and channel mask. It keeps
the application's configuration for `getAudioProperties`. It resets its SPDIF
encoder on `flush` and `standby`. `writeDataBurst` pushes every finished burst
through the base stream's `write` in chunks of at most the HAL buffer size,
with at most ten attempts.

Each stream is an immutable record, and every operation returns the new
record together with what the C++ method returns. The HAL is reduced to the
replies it gives, which are passed in as parameters:
- an open status and the config as the HAL leaves it;
- a frame size;
- a buffer size;
- one status and byte count per write;
- a status and position per position query.

Fixed-width integers are mathematical integers, with every `uint32_t`,
`size_t` and `ssize_t` wrap-around written out.

Files:
- `machine_ints.dfy`: the machine integer types and the arithmetic facts they need.
- `audio_types.dfy`: status codes, format codes, channel masks, output flags and the config triple.
- `audio_stream_out.dfy`: `AudioStreamOut`.
- `data_burst.dfy`: `writeDataBurst` as written, and the corrected writer.
- `spdif_stream_out.dfy`: `SpdifStreamOut`.

## Model

| member | source | states |
|---|---|---|
| AudioStreamOut.Create | services/audioflinger/AudioStreamOut.cpp:32-45 | A new stream has no HAL stream and keeps the flags it was given. All counters are zero, with no retrograde permission. The multiplier is 1, the proportional-frames flag is false, and the frame and buffer sizes are 0. The config format is not yet set. |
| AudioStreamOut.HalDelta | services/audioflinger/AudioStreamOut.cpp:68-73 | The signed 32-bit delta carries the truncated 64-bit position to the HAL's 32-bit position modulo 2^32. |
| AudioStreamOut.HalDeltaUnique | services/audioflinger/AudioStreamOut.cpp:71-73 | No other int32 value does this, so the delta is the one wrap-around difference the source comment describes. |
| AudioStreamOut.HalDeltaAcrossWrap | services/audioflinger/AudioStreamOut.cpp:68-70 | The example in the source comment: 100 - 0xFFFFFFF0 reads as 116. |
| AudioStreamOut.Track | services/audioflinger/AudioStreamOut.cpp:71-80 | The update changes only the render position and the retrograde flag. Afterwards the position is either unchanged or agrees with the HAL in its low 32 bits. The flag can only be cleared, never set. |
| AudioStreamOut.Low32OfWrap64Track | services/audioflinger/AudioStreamOut.cpp:75-79 | Moving the 64-bit position by the delta, modulo 2^64, lands on the HAL position in the low 32 bits. |
| AudioStreamOut.GetRenderPosition | services/audioflinger/AudioStreamOut.cpp:56-85 | Without a stream the result is NO_INIT, and a HAL error is passed through; in both cases nothing changes and no frames are reported. On success the reported frames are the floor of the position divided by the multiplier. Nothing but the position and the flag changes. |
| AudioStreamOut.GetRenderPosition32 | services/audioflinger/AudioStreamOut.cpp:87-96 | Returns the same status and stream as the 64-bit reading. It reports the low 32 bits on success and leaves the output untouched on error. |
| AudioStreamOut.ForwardReadingAddsDelta | services/audioflinger/AudioStreamOut.cpp:75-76 | A positive delta adds exactly the delta, modulo 2^64. Afterwards the low 32 bits equal the HAL position, and the retrograde flag is kept. |
| AudioStreamOut.RenderPositionMonotonic | services/audioflinger/AudioStreamOut.cpp:75-80 | Without a retrograde permission, a reading never moves the position backwards and never sets the flag. |
| AudioStreamOut.PresentationComplete | services/audioflinger/AudioStreamOut.h:96-101 | Grants the retrograde permission and changes nothing else. |
| AudioStreamOut.RetrogradeConsumedOnce | services/audioflinger/AudioStreamOut.cpp:77-80 | After presentationComplete, the first non-positive delta moves the position back by its magnitude, lands on the HAL value and clears the flag. A second non-positive reading then leaves the stream unchanged. |
| AudioStreamOut.GetPresentationPosition | services/audioflinger/AudioStreamOut.cpp:98-123 | Returns NO_INIT without a stream and passes HAL errors through. For formats with proportional frames, the frames are the floor of the HAL position minus the standby snapshot (never below zero) divided by the multiplier, and never exceed the HAL position. For other formats the HAL position passes through unchanged. |
| AudioStreamOut.Open | services/audioflinger/AudioStreamOut.cpp:125-182 | IEC958_NONAUDIO is added to the flags exactly when the format is IEC 61937. A second, 16-bit PCM request is made exactly when the first open failed and the config the HAL left is IEC 61937. The status is that of the deciding HAL open. The config format is recorded whatever the outcome. On success the stream, the frame size, the buffer size and the proportional-frames flag are adopted, and nothing else changes. |
| AudioStreamOut.FrameSizeAfterOpen | services/audioflinger/AudioStreamOut.cpp:169-176 | After a successful open, getFrameSize reports the HAL's frame size, and it is positive. |
| AudioStreamOut.GetAudioProperties | services/audioflinger/AudioStreamOut.cpp:184-193 | Returns the HAL's triple, or rate 0 with an invalid channel mask and an invalid format when the HAL fails. |
| AudioStreamOut.Flush | services/audioflinger/AudioStreamOut.cpp:195-203 | Resets all four position counters and nothing else. Succeeds exactly when the HAL flush succeeded or is not implemented; otherwise returns the HAL's status. |
| AudioStreamOut.FlushRestartsPresentation | services/audioflinger/AudioStreamOut.cpp:195-200 | After flush, a proportional-frames presentation position is the HAL position divided by the multiplier, and other formats report the HAL position unchanged. |
| AudioStreamOut.FlushRestartsRender | services/audioflinger/AudioStreamOut.cpp:195-200 | After flush, the render position is the HAL's 32-bit position divided by the multiplier while that position is below 2^31. From 2^31 on it counts as a backwards move, which a flushed stream refuses, so it reads as zero. |
| AudioStreamOut.Standby | services/audioflinger/AudioStreamOut.cpp:205-213 | Resets the render position and the flag and returns the HAL's status. The frames written so far become the standby snapshot unless the stream carries IEC 61937. |
| AudioStreamOut.PresentationRestartsAfterStandby | services/audioflinger/AudioStreamOut.cpp:205-211 | After standby of a PCM stream, a presentation position that has not passed the frames written before standby reads as zero. |
| AudioStreamOut.WriteReturn | services/audioflinger/AudioStreamOut.cpp:222 | write returns the byte count on OK and the negative status otherwise, as an ssize_t. |
| AudioStreamOut.FramesCounted | services/audioflinger/AudioStreamOut.cpp:219-220 | Counts the whole HAL frames in what the HAL took, and nothing unless the HAL said OK with a known frame size. |
| AudioStreamOut.Write | services/audioflinger/AudioStreamOut.cpp:215-223 | Returns the HAL's answer as an ssize_t. Only the frame counter moves, by the whole frames written, modulo 2^64. A failed write leaves the stream unchanged. |
| DataBurst.WriteDataBurst | services/audioflinger/SpdifStreamOut.cpp:123-153 | Callable on a stream that was never opened, whose mHalBufferSize is still 0. The attempts form a burst run: at most ten, each chunk min(leftBytes, mHalBufferSize) and positive, and the run stops only after ten attempts or at an empty chunk. The result is the size_t total. Only the frame counter of the base stream moves, along the base writes made. |
| DataBurst.BurstAttempt | services/audioflinger/SpdifStreamOut.cpp:133-149 | One pass of the loop body adds one attempt and keeps the loop state consistent, with the counters in size_t arithmetic. |
| DataBurst.BurstRunUnique | services/audioflinger/SpdifStreamOut.cpp:130-150 | The burst size, the buffer size and the HAL replies determine the attempts uniquely. |
| DataBurst.ZeroChunkWritesNothing | services/audioflinger/SpdifStreamOut.cpp:133-135 | When the burst or the HAL buffer is empty, the loop exits before any base write and reports nothing written. |
| DataBurst.HonestSinkConserves | services/audioflinger/SpdifStreamOut.cpp:125-152 | If every base write returns 0 to the chunk size, totalBytes + leftBytes == bytes after every attempt and the total never exceeds the burst. The run stops short of ten attempts only when the whole burst is written or there is no HAL buffer. |
| DataBurst.ConservedAt | services/audioflinger/SpdifStreamOut.cpp:145-146 | When chunks never exceed what is left, the exact total stays within the burst at every prefix, and leftBytes is the exact remainder. |
| DataBurst.PrefixWithinBurst | services/audioflinger/SpdifStreamOut.cpp:141-146 | Chunks that never exceed what is left keep the running total within the burst. |
| DataBurst.NegativeStatusRewindsBurst | services/audioflinger/SpdifStreamOut.cpp:141-146 | As written, a first base write failing with -32 on a 100-byte burst sets totalBytes to 2^64 - 32. The second chunk is then 132 bytes. |
| DataBurst.AsWrittenAgreesWithoutFailures | services/audioflinger/SpdifStreamOut.cpp:141-146 | When none of the base writes the loop makes returns a negative status, the loop as written and the corrected writer make the same attempts, count the same results and return the same total. |
| DataBurst.CheckedAttempt | services/audioflinger/SpdifStreamOut.cpp:133-147 | A corrected loop pass offers one chunk of min(leftBytes, mHalBufferSize). It records a non-negative result in the counters or reports the failure, and moves only the frame counter. |
| DataBurst.WriteDataBurstChecked | services/audioflinger/SpdifStreamOut.cpp:123-153 | Callable on a stream that was never opened, like the loop as written. The corrected writer offers chunks of min(leftBytes, mHalBufferSize), each positive, and counts each non-negative result. It stops at the first negative result; without one it stops only after ten attempts or at an empty chunk. The result is the size_t total. With a HAL that never reports more than it was offered, every chunk lies inside the burst and the result is the exact total, at most the burst size. Only the frame counter of the base stream moves, along the base writes made. |
| DataBurst.CheckedRunInsideBurst | services/audioflinger/SpdifStreamOut.cpp:133-146 | In any corrected run, with a HAL that never reports more than it was offered, every chunk starts at the bytes accepted before it and ends inside the burst. The total never exceeds the burst, and the result is that exact total. |
| DataBurst.CheckedRunUnique | services/audioflinger/SpdifStreamOut.cpp:130-150 | The burst size, the buffer size and the HAL replies determine the corrected writer's attempts and result uniquely. |
| SpdifStreamOut.ResolvePolicy | services/audioflinger/SpdifStreamOut.cpp:60-83 | A policy exists exactly for AC-3, E-AC-3, E-AC-3-JOC, DTS and DTS-HD. Outside DTS-HD the device rate is the application rate times the multiplier (uint32_t) on stereo. DTS-HD is 192000 Hz on 7.1 with multiplier 1. |
| SpdifStreamOut.MultiplierFourExactlyForEac3 | services/audioflinger/SpdifStreamOut.cpp:61-78 | The multiplier is 4 exactly for E-AC-3 and E-AC-3-JOC, and 1 for every other supported format. |
| SpdifStreamOut.DeviceRateScalesApplicationRate | services/audioflinger/SpdifStreamOut.cpp:61-71 | Outside DTS-HD, without uint32_t overflow, the device rate divided by the multiplier gives back the application rate. |
| SpdifStreamOut.DeviceConfig | services/audioflinger/SpdifStreamOut.cpp:84 | The device configuration always carries the IEC 61937 wire format, with the policy's rate and mask. |
| SpdifStreamOut.Reset | services/audioflinger/SpdifStreamOut.cpp:111-121 | Encoder reset returns to a burst boundary and keeps the format the encoder is bound to. |
| SpdifStreamOut.Create | services/audioflinger/SpdifStreamOut.cpp:34-44 | The base stream is built with IEC958_NONAUDIO added to the flags. The encoder is bound to the format at a burst boundary. The application triple is default, 0 and none. |
| SpdifStreamOut.Open | services/audioflinger/SpdifStreamOut.cpp:46-109 | The application triple is recorded whatever happens. An unknown format returns BAD_VALUE with no HAL request and the base stream untouched. A known format sets the multiplier and opens the base with the device configuration, flags marked non-audio. The resulting base stream, HAL requests and status are exactly those of the base open on the device configuration. |
| SpdifStreamOut.GetAudioProperties | services/audioflinger/SpdifStreamOut.cpp:166-174 | Reports the application's format, rate and mask, not the device's. |
| SpdifStreamOut.Flush | services/audioflinger/SpdifStreamOut.cpp:111-115 | Resets the encoder and flushes the base stream, resetting its counters. Returns the base status: success exactly when the HAL flush succeeded or is not implemented. |
| SpdifStreamOut.Standby | services/audioflinger/SpdifStreamOut.cpp:117-121 | Resets the encoder, puts the base stream in standby and returns the HAL status. While the base carries IEC 61937, the standby snapshot is kept. |
| SpdifStreamOut.Write | services/audioflinger/SpdifStreamOut.cpp:123-159 | Callable before open, when mHalBufferSize is still 0. Returns the encoder's result. Every burst the encoder emits is a run of writeDataBurst as written, with the base stream's mHalBufferSize, and its result is the size_t total. The base frame counter ends at the frames counted by every attempt of every burst, in order. Nothing else in the base changes, and the encoder takes its new framing. |
| SpdifStreamOut.UnopenedWriteSendsNothing | services/audioflinger/SpdifStreamOut.cpp:133-135 | On a stream never opened (mHalBufferSize 0, as set at AudioStreamOut.cpp:43), no burst makes a base write and every burst reports 0 bytes written. |
| SpdifStreamOut.AudioPropertiesAfterOpen | services/audioflinger/SpdifStreamOut.cpp:54-56 | After open, for any format and any HAL answer, the properties are exactly the configuration the application asked for. |
| SpdifStreamOut.ResetKeepsProperties | services/audioflinger/SpdifStreamOut.cpp:111-121 | flush and standby leave the application's properties unchanged and put the encoder at a burst boundary. |
| SpdifStreamOut.UnknownFormatRefused | services/audioflinger/SpdifStreamOut.cpp:79-83 | A PCM request is refused with BAD_VALUE before any HAL call, with the multiplier unchanged but the application triple already overwritten. |
| SpdifStreamOut.Eac3At48k | services/audioflinger/SpdifStreamOut.cpp:61-66 | E-AC-3 at 48 kHz asks the HAL for stereo IEC 61937 at 192 kHz, marked non-audio, while the application sees 48 kHz. On a fresh stream, 192000 HAL frames then read as 48000 presentation frames. |
| SpdifStreamOut.DtsHdFixedDevice | services/audioflinger/SpdifStreamOut.cpp:74-78 | DTS-HD asks for 192 kHz on 7.1 with multiplier 1, whatever the application rate. |

## Left out

- The HAL is not modelled. `hwDev()`, `openOutputStream`, the stream's `getFrameSize`, `getBufferSize`, `getRenderPosition`, `getPresentationPosition`, `write`, `flush`, `standby` and `getAudioProperties` are replaced by their replies, given as parameters.
- The `handle`, `devices` and `address` arguments of `open` are not modelled. They only pass through to the HAL.
- The audio config is only its rate, channel mask and format. The offload info and frame count fields are not modelled.
- A HAL may rewrite the config it is given, and the model takes the whole rewritten triple from its reply. The PCM retry asks for the HAL's rate and channel mask with the format replaced by 16-bit PCM. The rewritten format decides whether to retry, `mConfigFormat` and the proportional-frames flag.
- The `timespec` timestamp of `getPresentationPosition` is not modelled. It only passes through.
- `audio_has_proportional_frames` lives outside these files, so it is a function parameter.
- The numeric values of status codes, formats, channel masks and the non-audio flag come from Android's `utils/Errors.h` and `system/audio.h`. Those headers are not part of this model, and the proofs use only the values' distinctness and the flag's bit.
- The SPDIF encoder (`SPDIFEncoder`, from audio_utils) is not part of this model. It is a bound format and a framing state that `reset` returns to a burst boundary. Its reaction to one `write` is a parameter: what it returns, the burst sizes it hands to `writeDataBurst`, and its framing afterwards.
- SpdifStreamOut.Write: the encoder's return value is taken as given rather than derived from the bytes it consumed or from the burst results, because that logic lives in the encoder.
- Buffer contents are not modelled, only byte counts and offsets. `&input[totalBytes]` is the total accepted before the chunk.
- Logging is not modelled, because it has no effect on state.
- The aborting `LOG_ALWAYS_FATAL_IF` checks in `open` become a precondition on the frame-size reply.
- `sp<>` reference counting, the destructor, the `audioHwDev` pointer and the callers' locking are not modelled. The classes hold no locks of their own.
- AudioStreamOut.Flush, AudioStreamOut.Standby, AudioStreamOut.Write and AudioStreamOut.GetAudioProperties require an open stream, because the source dereferences `stream` without checking it. writeDataBurst reaches the base write only with a positive mHalBufferSize, which only a successful open sets, so the burst writers also accept a stream that was never opened.
- AudioStreamOut.Track: `-deltaHalPosition` overflows for INT32_MIN in C++. The model takes the magnitude as 2^31.
- AudioStreamOut.Create: the C++ constructor leaves `mConfigFormat` uninitialised. The model gives it no value (`None`) until the first `open`.
- AudioStreamOut.RenderPositionMonotonic: requires the position to be at least 2^31 below 2^64, because a forward move past 2^64 wraps in the source too.
- AudioStreamOut.GetFrameSize has no contract of its own. It returns the stored frame size, and FrameSizeAfterOpen states what that is.
- The multiplier is modelled as an int from 1 to 2^31 - 1. The source only ever stores 1 or 4.
- The comment on `mRenderPosition` in AudioStreamOut.h says presentation complete resets it. The code only grants the retrograde permission, and the model follows the code.

## Findings

| source | as written | input that shows it | evidently intended | confidence | as-written member | corrected member |
|---|---|---|---|---|---|---|
| services/audioflinger/SpdifStreamOut.cpp:125-146 | `size` is a `size_t`, so the `ssize_t` status of a failed base write becomes a huge count. `size < 0` never holds, and the status is added to `totalBytes` and taken off `leftBytes` modulo 2^64. | A 100-byte burst with mHalBufferSize 4096, where the first base write fails with -32 (-EPIPE). The second attempt then offers 132 bytes starting at offset 2^64 - 32, 32 bytes before the burst buffer. | Keep the result signed and stop at the first negative result, so the chunks stay inside the burst and the result is the exact total. | high, not executed | DataBurst.NegativeStatusRewindsBurst | DataBurst.WriteDataBurstChecked |

`DataBurst.WriteDataBurst` models the loop as written, and `SpdifStreamOut.Write` sends its bursts through it, as the source does.
`DataBurst.WriteDataBurstChecked` is the corrected definition.
`DataBurst.AsWrittenAgreesWithoutFailures` shows that the two make the same attempts and return the same total when no base write returns a negative status.
