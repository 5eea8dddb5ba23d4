/**
 SpdifStreamOut::writeDataBurst: push one IEC 61937 data burst through the
 base stream's write in chunks of at most mHalBufferSize bytes, giving up
 after ten attempts. The HAL is a sequence of replies, one per attempt.

 The counters are size_t. The base write returns an ssize_t, which is stored
 into a size_t, so a negative status becomes a huge count and the source's
 `size < 0` test never holds; this model keeps that arithmetic as written.
 */
module DataBurst {
  import opened MachineInts
  import opened AudioTypes
  import AudioStreamOut

  /** maxCount in the source. */
  const MAX_WRITE_ATTEMPTS: nat := 10

  function Min(a: uint64, b: uint64): uint64 {
    if a > b then b else a
  }

  /** Exact sum of byte counts. */
  function Sum(xs: seq<uint64>): nat {
    if |xs| == 0 then 0 else Sum(xs[..|xs| - 1]) + xs[|xs| - 1]
  }

  lemma SumAppend(xs: seq<uint64>, x: uint64)
    ensures Sum(xs + [x]) == Sum(xs) + x
  {
    assert (xs + [x])[..|xs|] == xs;
  }

  /** The size_t `size` that one attempt adds to totalBytes. */
  function Accepted(reply: AudioStreamOut.HalWrite): uint64 {
    AsUint64(AudioStreamOut.WriteReturn(reply))
  }

  /** leftBytes once the given sizes have been taken off (size_t arithmetic). */
  function Left(bytes: uint64, sizes: seq<uint64>): uint64 {
    Wrap64(bytes - Sum(sizes))
  }

  /** The attempts a burst of `bytes` makes against the HAL replies: `offers`
      are the chunk sizes handed to the base write, `sizes` what each call
      returned as a size_t. Every chunk is min(leftBytes, mHalBufferSize) and
      positive; the run ends after ten attempts or when the next chunk would
      be empty. */
  predicate IsBurstRun(halBufferSize: uint64, bytes: uint64, replies: seq<AudioStreamOut.HalWrite>,
                       offers: seq<uint64>, sizes: seq<uint64>)
  {
    && IsBurstPrefix(halBufferSize, bytes, replies, offers, sizes)
    && (|offers| == MAX_WRITE_ATTEMPTS || Min(Left(bytes, sizes), halBufferSize) == 0)
  }

  /** The first attempts of a run, before deciding whether to stop. */
  predicate IsBurstPrefix(halBufferSize: uint64, bytes: uint64, replies: seq<AudioStreamOut.HalWrite>,
                          offers: seq<uint64>, sizes: seq<uint64>)
  {
    && |offers| == |sizes| <= MAX_WRITE_ATTEMPTS
    && |offers| <= |replies|
    && (forall i {:trigger sizes[i]} :: 0 <= i < |sizes| ==> sizes[i] == Accepted(replies[i]))
    && (forall i {:trigger offers[i]} :: 0 <= i < |offers| ==> offers[i] == Min(Left(bytes, sizes[..i]), halBufferSize))
    && (forall i :: 0 <= i < |offers| ==> offers[i] > 0)
  }

  /** The chunk of attempt k, if there was one. */
  lemma ChunkAt(halBufferSize: uint64, bytes: uint64, offers: seq<uint64>, sizes: seq<uint64>, k: nat)
    requires |offers| <= |sizes| + 1
    requires forall i {:trigger offers[i]} :: 0 <= i < |offers| ==> offers[i] == Min(Left(bytes, sizes[..i]), halBufferSize)
    requires forall i :: 0 <= i < |offers| ==> offers[i] > 0
    ensures k < |offers| ==> 0 < offers[k] == Min(Left(bytes, sizes[..k]), halBufferSize)
  {
  }

  /** One more attempt extends a prefix. */
  lemma PrefixExtend(halBufferSize: uint64, bytes: uint64, replies: seq<AudioStreamOut.HalWrite>,
                     offers: seq<uint64>, sizes: seq<uint64>)
    requires IsBurstPrefix(halBufferSize, bytes, replies, offers, sizes)
    requires |offers| < MAX_WRITE_ATTEMPTS && |offers| < |replies|
    requires Min(Left(bytes, sizes), halBufferSize) > 0
    ensures IsBurstPrefix(halBufferSize, bytes, replies, offers + [Min(Left(bytes, sizes), halBufferSize)],
                          sizes + [Accepted(replies[|offers|])])
  {
    var k := |offers|;
    var sizes' := sizes + [Accepted(replies[k])];
    assert forall i :: 0 <= i <= k ==> sizes'[..i] == sizes[..i];
  }

  /** The running counters of the loop after one more attempt. */
  lemma CountersStep(bytes: uint64, sizes: seq<uint64>, size: uint64)
    ensures Wrap64(Wrap64(Sum(sizes)) + size) == Wrap64(Sum(sizes + [size]))
    ensures Wrap64(Left(bytes, sizes) - size) == Left(bytes, sizes + [size])
  {
    SumAppend(sizes, size);
    Wrap64Add(Sum(sizes), size);
    var d: int := size;
    Wrap64Add(bytes - Sum(sizes), -d);
  }

  /** framesWritten after one more base write. */
  lemma FramesStep(frames: uint64, frameSize: uint64, replies: seq<AudioStreamOut.HalWrite>, k: nat)
    requires k < |replies|
    ensures FramesAfter(frames, frameSize, replies[..k + 1])
            == Wrap64(FramesAfter(frames, frameSize, replies[..k]) + AudioStreamOut.FramesCounted(frameSize, replies[k]))
  {
    assert replies[..k + 1][..k] == replies[..k];
  }

  /** One more base write moves the stream along the FramesAfter fold. */
  lemma WriteFollowsFrames(s: AudioStreamOut.StreamOut, t: AudioStreamOut.StreamOut, replies: seq<AudioStreamOut.HalWrite>,
                           k: nat, chunk: uint64)
    requires s.hasStream && k < |replies|
    requires t == s.(framesWritten := FramesAfter(s.framesWritten, s.halFrameSize, replies[..k]))
    ensures AudioStreamOut.Write(t, chunk, replies[k]).stream
            == s.(framesWritten := FramesAfter(s.framesWritten, s.halFrameSize, replies[..k + 1]))
  {
    FramesStep(s.framesWritten, s.halFrameSize, replies, k);
  }

  /** framesWritten after the base write has seen the given replies. */
  function FramesAfter(frames: uint64, frameSize: uint64, replies: seq<AudioStreamOut.HalWrite>): uint64 {
    if |replies| == 0 then frames
    else Wrap64(FramesAfter(frames, frameSize, replies[..|replies| - 1])
                + AudioStreamOut.FramesCounted(frameSize, replies[|replies| - 1]))
  }

  /** The loop's variables after the attempts recorded in `offers` and `sizes`. */
  predicate BurstState(s: AudioStreamOut.StreamOut, bytes: uint64, replies: seq<AudioStreamOut.HalWrite>,
                       offers: seq<uint64>, sizes: seq<uint64>,
                       t: AudioStreamOut.StreamOut, totalBytes: uint64, leftBytes: uint64)
  {
    && IsBurstPrefix(s.halBufferSize, bytes, replies, offers, sizes)
    && totalBytes == Wrap64(Sum(sizes))
    && leftBytes == Left(bytes, sizes)
    && t == s.(framesWritten := FramesAfter(s.framesWritten, s.halFrameSize, replies[..|offers|]))
  }

  /** One pass of the loop body keeps BurstState. */
  lemma BurstStep(s: AudioStreamOut.StreamOut, bytes: uint64, replies: seq<AudioStreamOut.HalWrite>,
                  offers: seq<uint64>, sizes: seq<uint64>,
                  t: AudioStreamOut.StreamOut, totalBytes: uint64, leftBytes: uint64)
    requires s.hasStream
    requires BurstState(s, bytes, replies, offers, sizes, t, totalBytes, leftBytes)
    requires |offers| < MAX_WRITE_ATTEMPTS && |offers| < |replies|
    requires Min(leftBytes, t.halBufferSize) > 0
    ensures var w := AudioStreamOut.Write(t, Min(leftBytes, t.halBufferSize), replies[|offers|]);
            var size := AsUint64(w.result);
            BurstState(s, bytes, replies, offers + [Min(leftBytes, t.halBufferSize)], sizes + [size],
                       w.stream, Wrap64(totalBytes + size), Wrap64(leftBytes - size))
  {
    var k := |offers|;
    var w := AudioStreamOut.Write(t, Min(leftBytes, t.halBufferSize), replies[k]);
    var size := AsUint64(w.result);
    assert size == Accepted(replies[k]);
    PrefixExtend(s.halBufferSize, bytes, replies, offers, sizes);
    CountersStep(bytes, sizes, size);
    WriteFollowsFrames(s, t, replies, k, Min(leftBytes, t.halBufferSize));
  }

  /** One pass of the loop body as written: offer min(leftBytes,
      mHalBufferSize) bytes and add whatever the base write returns, read as
      a size_t, to the counters. */
  method BurstAttempt(s: AudioStreamOut.StreamOut, bytes: uint64, replies: seq<AudioStreamOut.HalWrite>,
                      offers: seq<uint64>, sizes: seq<uint64>,
                      t: AudioStreamOut.StreamOut, totalBytes: uint64, leftBytes: uint64)
    returns (offers': seq<uint64>, sizes': seq<uint64>, t': AudioStreamOut.StreamOut, totalBytes': uint64, leftBytes': uint64)
    requires s.hasStream
    requires BurstState(s, bytes, replies, offers, sizes, t, totalBytes, leftBytes)
    requires |offers| < MAX_WRITE_ATTEMPTS && |offers| < |replies|
    requires Min(leftBytes, t.halBufferSize) > 0
    ensures BurstState(s, bytes, replies, offers', sizes', t', totalBytes', leftBytes')
    ensures |offers'| == |offers| + 1
  {
    var writeBytes := Min(leftBytes, t.halBufferSize);
    BurstStep(s, bytes, replies, offers, sizes, t, totalBytes, leftBytes);
    var w := AudioStreamOut.Write(t, writeBytes, replies[|offers|]);
    t' := w.stream;
    // `size` is a size_t: a negative result wraps, and `size < 0` is never true.
    var size: uint64 := AsUint64(w.result);
    totalBytes' := Wrap64(totalBytes + size);
    leftBytes' := Wrap64(leftBytes - size);
    offers' := offers + [writeBytes];
    sizes' := sizes + [size];
  }

  /** writeDataBurst(), as written. */
  method WriteDataBurst(s: AudioStreamOut.StreamOut, bytes: uint64, replies: seq<AudioStreamOut.HalWrite>)
    returns (t: AudioStreamOut.StreamOut, written: int64, offers: seq<uint64>, sizes: seq<uint64>)
    requires s.hasStream || s.halBufferSize == 0
    requires |replies| >= MAX_WRITE_ATTEMPTS
    ensures IsBurstRun(s.halBufferSize, bytes, replies, offers, sizes)
    ensures written == AsInt64(Wrap64(Sum(sizes)))
    ensures t == s.(framesWritten := FramesAfter(s.framesWritten, s.halFrameSize, replies[..|offers|]))
  {
    var totalBytes: uint64 := 0;
    var writeBytes: uint64 := 0;
    var leftBytes: uint64 := bytes;
    var maxCount: int := MAX_WRITE_ATTEMPTS;
    t, offers, sizes := s, [], [];
    // the do { ... } while (maxCount > 0 && leftBytes > 0) of the source
    var again := true;
    while again
      invariant 0 <= maxCount <= MAX_WRITE_ATTEMPTS
      invariant |offers| == MAX_WRITE_ATTEMPTS - maxCount
      invariant again ==> maxCount > 0
      invariant !again ==> maxCount == 0 || leftBytes == 0
      invariant BurstState(s, bytes, replies, offers, sizes, t, totalBytes, leftBytes)
      decreases maxCount
    {
      writeBytes := Min(leftBytes, t.halBufferSize);
      if writeBytes <= 0 {
        break;
      }
      offers, sizes, t, totalBytes, leftBytes := BurstAttempt(s, bytes, replies, offers, sizes, t, totalBytes, leftBytes);
      maxCount := maxCount - 1;
      again := maxCount > 0 && leftBytes > 0;
    }
    written := AsInt64(totalBytes);
  }

  /** The run is determined by the burst size, the buffer size and the
      replies: IsBurstRun describes exactly one sequence of attempts. */
  lemma BurstRunUnique(halBufferSize: uint64, bytes: uint64, replies: seq<AudioStreamOut.HalWrite>,
                       offers1: seq<uint64>, sizes1: seq<uint64>, offers2: seq<uint64>, sizes2: seq<uint64>)
    requires IsBurstRun(halBufferSize, bytes, replies, offers1, sizes1)
    requires IsBurstRun(halBufferSize, bytes, replies, offers2, sizes2)
    ensures offers1 == offers2 && sizes1 == sizes2
  {
    var m := if |sizes1| < |sizes2| then |sizes1| else |sizes2|;
    assert sizes1[..m] == sizes2[..m];
    assert sizes1[..|sizes1|] == sizes1 && sizes2[..|sizes2|] == sizes2;
    // the shorter run stops at a chunk the longer one finds positive
    ChunkAt(halBufferSize, bytes, offers1, sizes1, m);
    ChunkAt(halBufferSize, bytes, offers2, sizes2, m);
    if |offers1| == |offers2| {
      assert sizes1 == sizes2;
      forall i | 0 <= i < |offers1|
        ensures offers1[i] == offers2[i]
      {
        assert sizes1[..i] == sizes2[..i];
      }
      assert offers1 == offers2;
    }
  }

  /** A zero-sized first chunk (nothing to send, or no HAL buffer) ends the
      burst before any HAL call, and nothing is reported written. */
  lemma ZeroChunkWritesNothing(halBufferSize: uint64, bytes: uint64, replies: seq<AudioStreamOut.HalWrite>,
                               offers: seq<uint64>, sizes: seq<uint64>)
    requires IsBurstRun(halBufferSize, bytes, replies, offers, sizes)
    requires bytes == 0 || halBufferSize == 0
    ensures offers == [] && sizes == [] && Sum(sizes) == 0
  {
    assert sizes[..0] == [];
    ChunkAt(halBufferSize, bytes, offers, sizes, 0);
  }

  /** When every base write returns a count between 0 and what it was
      offered: totalBytes + leftBytes == bytes after every attempt, the total
      never exceeds the burst, and the run stops short of ten attempts only
      once the whole burst is written (or there is no HAL buffer at all). */
  lemma {:induction false} HonestSinkConserves(halBufferSize: uint64, bytes: uint64, replies: seq<AudioStreamOut.HalWrite>,
                                               offers: seq<uint64>, sizes: seq<uint64>)
    requires IsBurstRun(halBufferSize, bytes, replies, offers, sizes)
    requires forall i :: 0 <= i < |offers| ==> 0 <= AudioStreamOut.WriteReturn(replies[i]) <= offers[i]
    ensures forall k :: 0 <= k <= |sizes| ==> Wrap64(Sum(sizes[..k])) + Left(bytes, sizes[..k]) == bytes
    ensures Sum(sizes) <= bytes
    ensures |offers| < MAX_WRITE_ATTEMPTS && halBufferSize > 0 ==> Sum(sizes) == bytes
  {
    HonestChunks(halBufferSize, bytes, replies, offers, sizes);
    forall k | 0 <= k <= |sizes|
      ensures Wrap64(Sum(sizes[..k])) + Left(bytes, sizes[..k]) == bytes
    {
      ConservedAt(bytes, offers, sizes, k);
    }
    assert sizes[..|sizes|] == sizes;
    ConservedAt(bytes, offers, sizes, |sizes|);
  }

  /** With an honest HAL every accepted count is at most its chunk, and
      every chunk at most what was left of the burst. */
  lemma HonestChunks(halBufferSize: uint64, bytes: uint64, replies: seq<AudioStreamOut.HalWrite>,
                     offers: seq<uint64>, sizes: seq<uint64>)
    requires IsBurstRun(halBufferSize, bytes, replies, offers, sizes)
    requires forall i :: 0 <= i < |offers| ==> 0 <= AudioStreamOut.WriteReturn(replies[i]) <= offers[i]
    ensures forall i :: 0 <= i < |sizes| ==> sizes[i] <= offers[i] <= Left(bytes, sizes[..i])
  {
    forall i | 0 <= i < |sizes|
      ensures sizes[i] <= offers[i] <= Left(bytes, sizes[..i])
    {
      assert sizes[i] == Accepted(replies[i]) == AudioStreamOut.WriteReturn(replies[i]);
      assert offers[i] == Min(Left(bytes, sizes[..i]), halBufferSize);
    }
  }

  /** When no base write fails, the corrected writer and the loop as
      written make the same attempts and return the same total: the two
      differ only on a negative status. */
  lemma AsWrittenAgreesWithoutFailures(halBufferSize: uint64, bytes: uint64, replies: seq<AudioStreamOut.HalWrite>,
                                       offers: seq<uint64>, sizes: seq<uint64>,
                                       checkedOffers: seq<uint64>, checkedSizes: seq<uint64>, checkedWritten: int64)
    requires IsBurstRun(halBufferSize, bytes, replies, offers, sizes)
    requires CheckedRun(halBufferSize, bytes, replies, checkedOffers, checkedSizes, checkedWritten)
    requires forall i :: 0 <= i < |offers| ==> AudioStreamOut.WriteReturn(replies[i]) >= 0
    ensures checkedOffers == offers && checkedSizes == sizes
    ensures checkedWritten == AsInt64(Wrap64(Sum(sizes)))
  {
    forall i | 0 <= i < |sizes|
      ensures sizes[i] == AudioStreamOut.WriteReturn(replies[i])
    {
      assert sizes[i] == Accepted(replies[i]);
    }
    assert CheckedRun(halBufferSize, bytes, replies, offers, sizes, AsInt64(Wrap64(Sum(sizes))));
    CheckedRunUnique(halBufferSize, bytes, replies, offers, sizes, AsInt64(Wrap64(Sum(sizes))),
                     checkedOffers, checkedSizes, checkedWritten);
  }

  /** The conservation law at one prefix. */
  lemma ConservedAt(bytes: uint64, offers: seq<uint64>, sizes: seq<uint64>, k: nat)
    requires |sizes| == |offers|
    requires forall i :: 0 <= i < |sizes| ==> sizes[i] <= offers[i] <= Left(bytes, sizes[..i])
    requires k <= |sizes|
    ensures 0 <= Sum(sizes[..k]) <= bytes
    ensures Wrap64(Sum(sizes[..k])) + Left(bytes, sizes[..k]) == bytes
    ensures Left(bytes, sizes[..k]) == bytes - Sum(sizes[..k])
  {
    PrefixWithinBurst(bytes, offers, sizes, k);
    Wrap64InRange(Sum(sizes[..k]));
    Wrap64InRange(bytes - Sum(sizes[..k]));
  }

  /** Chunks that never exceed what was left of the burst keep the running
      total inside the burst. */
  lemma {:induction false} PrefixWithinBurst(bytes: uint64, offers: seq<uint64>, sizes: seq<uint64>, k: nat)
    requires |sizes| == |offers|
    requires forall i :: 0 <= i < |sizes| ==> sizes[i] <= offers[i] <= Left(bytes, sizes[..i])
    requires k <= |sizes|
    ensures Sum(sizes[..k]) <= bytes
    decreases k
  {
    if k > 0 {
      var before := sizes[..k - 1];
      PrefixWithinBurst(bytes, offers, sizes, k - 1);
      assert sizes[..k] == before + [sizes[k - 1]];
      SumAppend(before, sizes[k - 1]);
      Wrap64InRange(bytes - Sum(before));
      assert sizes[k - 1] <= Left(bytes, before) == bytes - Sum(before);
    } else {
      assert sizes[..0] == [];
    }
  }

  /** The source as written, on a burst of 100 bytes with a 4096-byte HAL
      buffer whose first write fails with -EPIPE (-32): the failure is added
      to totalBytes modulo 2^64, so the second attempt starts 32 bytes before
      the burst and offers 132 bytes, more than the whole burst. */
  lemma NegativeStatusRewindsBurst(replies: seq<AudioStreamOut.HalWrite>, offers: seq<uint64>, sizes: seq<uint64>)
    requires |replies| >= MAX_WRITE_ATTEMPTS
    requires IsBurstRun(4096, 100, replies, offers, sizes)
    requires replies[0].status == -32
    ensures |offers| >= 2
    ensures Wrap64(Sum(sizes[..1])) == TWO_64 - 32
    ensures offers[1] == 132
  {
    assert sizes[..0] == [];
    assert sizes[0] == TWO_64 - 32;
    assert sizes[..1] == [sizes[0]];
    assert Sum(sizes[..1]) == Sum([]) + sizes[0];
    assert Left(100, sizes[..1]) == 132;
  }

  /** Every base write returned at most what it was offered (any negative
      status included): the HAL's side of the write contract. */
  predicate SinkNeverOverreports(replies: seq<AudioStreamOut.HalWrite>, offers: seq<uint64>)
    requires |offers| <= |replies|
  {
    forall i :: 0 <= i < |offers| ==> AudioStreamOut.WriteReturn(replies[i]) <= offers[i]
  }

  /** Every chunk handed to the HAL lies inside the burst buffer: it starts
      at the bytes accepted before it and ends at or before `bytes`. */
  predicate ChunksInsideBurst(bytes: uint64, offers: seq<uint64>, sizes: seq<uint64>)
    requires |offers| <= |sizes| + 1
  {
    forall i {:trigger offers[i]} :: 0 <= i < |offers| ==> Sum(sizes[..i]) + offers[i] <= bytes
  }

  /** The first attempts of the corrected writer: every chunk is
      min(leftBytes, mHalBufferSize) and positive, every counted result is
      the base write's non-negative return, and an attempt left uncounted
      is the last one and returned a negative status. */
  predicate CheckedPrefix(halBufferSize: uint64, bytes: uint64, replies: seq<AudioStreamOut.HalWrite>,
                          offers: seq<uint64>, sizes: seq<uint64>)
  {
    && |sizes| <= |offers| <= |sizes| + 1
    && |offers| <= |replies|
    && (forall i {:trigger sizes[i]} :: 0 <= i < |sizes| ==> sizes[i] == AudioStreamOut.WriteReturn(replies[i]))
    && (forall i {:trigger offers[i]} :: 0 <= i < |offers| ==> offers[i] == Min(Left(bytes, sizes[..i]), halBufferSize))
    && (forall i :: 0 <= i < |offers| ==> offers[i] > 0)
    && (|sizes| < |offers| ==> AudioStreamOut.WriteReturn(replies[|sizes|]) < 0)
  }

  /** A whole run of the corrected writer and its result: at most ten
      attempts; a run with no failed attempt ends after ten attempts or at
      an empty chunk; and the result is the total as an ssize_t. */
  predicate CheckedRun(halBufferSize: uint64, bytes: uint64, replies: seq<AudioStreamOut.HalWrite>,
                       offers: seq<uint64>, sizes: seq<uint64>, written: int64)
  {
    && CheckedPrefix(halBufferSize, bytes, replies, offers, sizes)
    && |offers| <= MAX_WRITE_ATTEMPTS
    && (|offers| == |sizes| ==> |offers| == MAX_WRITE_ATTEMPTS || Min(Left(bytes, sizes), halBufferSize) == 0)
    && written == AsInt64(Wrap64(Sum(sizes)))
  }

  /** With a HAL that never reports more than it was offered, every chunk
      of a corrected run lies inside the burst, the total never exceeds the
      burst, and the result is the exact total. */
  lemma CheckedRunInsideBurst(halBufferSize: uint64, bytes: uint64, replies: seq<AudioStreamOut.HalWrite>,
                              offers: seq<uint64>, sizes: seq<uint64>, written: int64)
    requires CheckedRun(halBufferSize, bytes, replies, offers, sizes, written)
    requires SinkNeverOverreports(replies, offers)
    ensures ChunksInsideBurst(bytes, offers, sizes)
    ensures Sum(sizes) <= bytes
    ensures written == AsInt64(Sum(sizes))
  {
    var counted := offers[..|sizes|];
    forall i | 0 <= i < |sizes|
      ensures sizes[i] <= counted[i] <= Left(bytes, sizes[..i])
    {
      assert sizes[i] == AudioStreamOut.WriteReturn(replies[i]) <= offers[i];
      assert offers[i] == Min(Left(bytes, sizes[..i]), halBufferSize);
    }
    forall i | 0 <= i < |offers|
      ensures Sum(sizes[..i]) + offers[i] <= bytes
    {
      ConservedAt(bytes, counted, sizes, i);
      assert offers[i] == Min(Left(bytes, sizes[..i]), halBufferSize);
    }
    assert sizes[..|sizes|] == sizes;
    ConservedAt(bytes, counted, sizes, |sizes|);
    Wrap64InRange(Sum(sizes));
  }

  /** The corrected run is determined by the burst size, the buffer size
      and the replies. */
  lemma CheckedRunUnique(halBufferSize: uint64, bytes: uint64, replies: seq<AudioStreamOut.HalWrite>,
                         offers1: seq<uint64>, sizes1: seq<uint64>, written1: int64,
                         offers2: seq<uint64>, sizes2: seq<uint64>, written2: int64)
    requires CheckedRun(halBufferSize, bytes, replies, offers1, sizes1, written1)
    requires CheckedRun(halBufferSize, bytes, replies, offers2, sizes2, written2)
    ensures offers1 == offers2 && sizes1 == sizes2 && written1 == written2
  {
    var m := if |sizes1| < |sizes2| then |sizes1| else |sizes2|;
    assert sizes1[..m] == sizes2[..m];
    assert sizes1[..|sizes1|] == sizes1 && sizes2[..|sizes2|] == sizes2;
    // a run cannot stop while the other one goes on counting
    ChunkAt(halBufferSize, bytes, offers1, sizes1, m);
    ChunkAt(halBufferSize, bytes, offers2, sizes2, m);
    CountedAt(replies, sizes1, m);
    CountedAt(replies, sizes2, m);
    assert sizes1 == sizes2;
    forall i | 0 <= i < |offers1| && i < |offers2|
      ensures offers1[i] == offers2[i]
    {
      assert sizes1[..i] == sizes2[..i];
    }
    assert |offers1| == |offers2|;
    assert offers1 == offers2;
  }

  /** A counted attempt of the corrected writer had a non-negative result. */
  lemma CountedAt(replies: seq<AudioStreamOut.HalWrite>, sizes: seq<uint64>, k: nat)
    requires |sizes| <= |replies|
    requires forall i {:trigger sizes[i]} :: 0 <= i < |sizes| ==> sizes[i] == AudioStreamOut.WriteReturn(replies[i])
    ensures k < |sizes| ==> AudioStreamOut.WriteReturn(replies[k]) >= 0
  {
    if k < |sizes| {
      assert sizes[k] == AudioStreamOut.WriteReturn(replies[k]);
    }
  }

  /** The corrected loop's variables after the attempts recorded in `offers`
      (accepted ones also in `sizes`). */
  predicate CheckedState(halBufferSize: uint64, bytes: uint64, replies: seq<AudioStreamOut.HalWrite>,
                         offers: seq<uint64>, sizes: seq<uint64>, totalBytes: uint64, leftBytes: uint64)
  {
    && CheckedPrefix(halBufferSize, bytes, replies, offers, sizes)
    && totalBytes == Wrap64(Sum(sizes))
    && leftBytes == Left(bytes, sizes)
  }

  /** A chunk the HAL accepted (a non-negative result) keeps CheckedState. */
  lemma CheckedAccept(halBufferSize: uint64, bytes: uint64, replies: seq<AudioStreamOut.HalWrite>,
                      offers: seq<uint64>, sizes: seq<uint64>, totalBytes: uint64, leftBytes: uint64)
    requires CheckedState(halBufferSize, bytes, replies, offers, sizes, totalBytes, leftBytes)
    requires |offers| == |sizes| < |replies|
    requires Min(leftBytes, halBufferSize) > 0
    requires AudioStreamOut.WriteReturn(replies[|offers|]) >= 0
    ensures var size := AudioStreamOut.WriteReturn(replies[|offers|]);
            CheckedState(halBufferSize, bytes, replies, offers + [Min(leftBytes, halBufferSize)], sizes + [size],
                         Wrap64(totalBytes + size), Wrap64(leftBytes - size))
  {
    var size := AudioStreamOut.WriteReturn(replies[|offers|]);
    CheckedPrefixAccept(halBufferSize, bytes, replies, offers, sizes);
    CountersStep(bytes, sizes, size);
  }

  /** The prefix part of CheckedAccept. */
  lemma CheckedPrefixAccept(halBufferSize: uint64, bytes: uint64, replies: seq<AudioStreamOut.HalWrite>,
                            offers: seq<uint64>, sizes: seq<uint64>)
    requires CheckedPrefix(halBufferSize, bytes, replies, offers, sizes)
    requires |offers| == |sizes| < |replies|
    requires Min(Left(bytes, sizes), halBufferSize) > 0
    requires AudioStreamOut.WriteReturn(replies[|offers|]) >= 0
    ensures CheckedPrefix(halBufferSize, bytes, replies, offers + [Min(Left(bytes, sizes), halBufferSize)],
                          sizes + [AudioStreamOut.WriteReturn(replies[|offers|]) as uint64])
  {
    var k := |offers|;
    var sizes' := sizes + [AudioStreamOut.WriteReturn(replies[k]) as uint64];
    assert forall i :: 0 <= i <= k ==> sizes'[..i] == sizes[..i];
    assert sizes[..k] == sizes;
  }

  /** A chunk the HAL refused (a negative result) keeps CheckedState. */
  lemma CheckedRefuse(halBufferSize: uint64, bytes: uint64, replies: seq<AudioStreamOut.HalWrite>,
                      offers: seq<uint64>, sizes: seq<uint64>, totalBytes: uint64, leftBytes: uint64)
    requires CheckedState(halBufferSize, bytes, replies, offers, sizes, totalBytes, leftBytes)
    requires |offers| == |sizes| < |replies|
    requires Min(leftBytes, halBufferSize) > 0
    requires AudioStreamOut.WriteReturn(replies[|offers|]) < 0
    ensures CheckedState(halBufferSize, bytes, replies, offers + [Min(leftBytes, halBufferSize)], sizes, totalBytes, leftBytes)
  {
    assert sizes[..|sizes|] == sizes;
  }

  /** One pass of the corrected loop body: offer min(leftBytes,
      mHalBufferSize) bytes, and either record what the HAL accepted or
      note the failure. */
  method CheckedAttempt(s: AudioStreamOut.StreamOut, t: AudioStreamOut.StreamOut, bytes: uint64, replies: seq<AudioStreamOut.HalWrite>,
                        offers: seq<uint64>, sizes: seq<uint64>, totalBytes: uint64, leftBytes: uint64)
    returns (t': AudioStreamOut.StreamOut, offers': seq<uint64>, sizes': seq<uint64>,
             totalBytes': uint64, leftBytes': uint64, failed: bool)
    requires s.hasStream
    requires CheckedState(s.halBufferSize, bytes, replies, offers, sizes, totalBytes, leftBytes)
    requires |offers| == |sizes| < |replies|
    requires Min(leftBytes, s.halBufferSize) > 0
    requires t == s.(framesWritten := FramesAfter(s.framesWritten, s.halFrameSize, replies[..|offers|]))
    ensures CheckedState(s.halBufferSize, bytes, replies, offers', sizes', totalBytes', leftBytes')
    ensures offers' == offers + [Min(leftBytes, s.halBufferSize)]
    ensures t' == s.(framesWritten := FramesAfter(s.framesWritten, s.halFrameSize, replies[..|offers'|]))
    ensures failed <==> AudioStreamOut.WriteReturn(replies[|offers|]) < 0
    ensures failed ==> sizes' == sizes
    ensures !failed ==> |sizes'| == |sizes| + 1
  {
    var chunk := Min(leftBytes, t.halBufferSize);
    assert chunk == Min(leftBytes, s.halBufferSize);
    var w := AudioStreamOut.Write(t, chunk, replies[|offers|]);
    WriteFollowsFrames(s, t, replies, |offers|, chunk);
    t' := w.stream;
    var size: int64 := w.result;
    assert size == AudioStreamOut.WriteReturn(replies[|offers|]);
    offers' := offers + [chunk];
    if size < 0 {
      CheckedRefuse(s.halBufferSize, bytes, replies, offers, sizes, totalBytes, leftBytes);
      sizes', totalBytes', leftBytes', failed := sizes, totalBytes, leftBytes, true;
    } else {
      CheckedAccept(s.halBufferSize, bytes, replies, offers, sizes, totalBytes, leftBytes);
      sizes' := sizes + [size];
      totalBytes' := Wrap64(totalBytes + size);
      leftBytes' := Wrap64(leftBytes - size);
      failed := false;
    }
  }

  /** writeDataBurst with `size` held as the ssize_t the base write returns,
      stopping at the first negative result: the loop the source evidently
      intends. It makes the same chunks as the loop as written until a base
      write fails; as long as the HAL never reports more than it was
      offered, every chunk stays inside the burst and the total never
      exceeds it. */
  method WriteDataBurstChecked(s: AudioStreamOut.StreamOut, bytes: uint64, replies: seq<AudioStreamOut.HalWrite>)
    returns (t: AudioStreamOut.StreamOut, written: int64, offers: seq<uint64>, sizes: seq<uint64>)
    requires s.hasStream || s.halBufferSize == 0
    requires |replies| >= MAX_WRITE_ATTEMPTS
    ensures CheckedRun(s.halBufferSize, bytes, replies, offers, sizes, written)
    ensures SinkNeverOverreports(replies, offers) ==>
              ChunksInsideBurst(bytes, offers, sizes) && Sum(sizes) <= bytes && written == AsInt64(Sum(sizes))
    ensures t == s.(framesWritten := FramesAfter(s.framesWritten, s.halFrameSize, replies[..|offers|]))
  {
    var totalBytes: uint64 := 0;
    var leftBytes: uint64 := bytes;
    var maxCount: int := MAX_WRITE_ATTEMPTS;
    var failed := false;
    t, offers, sizes := s, [], [];
    var again := true;
    while again
      invariant 0 <= maxCount <= MAX_WRITE_ATTEMPTS
      invariant |sizes| == MAX_WRITE_ATTEMPTS - maxCount
      invariant |offers| == |sizes| + (if failed then 1 else 0)
      invariant again ==> maxCount > 0 && !failed
      invariant failed ==> maxCount > 0
      invariant !again && !failed ==> maxCount == 0 || leftBytes == 0
      invariant t == s.(framesWritten := FramesAfter(s.framesWritten, s.halFrameSize, replies[..|offers|]))
      invariant CheckedState(s.halBufferSize, bytes, replies, offers, sizes, totalBytes, leftBytes)
      decreases maxCount, again
    {
      var writeBytes := Min(leftBytes, t.halBufferSize);
      if writeBytes <= 0 {
        break;
      }
      t, offers, sizes, totalBytes, leftBytes, failed := CheckedAttempt(s, t, bytes, replies, offers, sizes, totalBytes, leftBytes);
      if !failed {
        maxCount := maxCount - 1;
        again := maxCount > 0 && leftBytes > 0;
      } else {
        again := false;
      }
    }
    written := AsInt64(totalBytes);
    if SinkNeverOverreports(replies, offers) {
      CheckedRunInsideBurst(s.halBufferSize, bytes, replies, offers, sizes, written);
    }
  }
}
