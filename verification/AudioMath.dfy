/** Rate conversion of the audio daemon: which source frame every output frame shows. */
module AudioMath {
  import opened Arith
  import opened Bytes

  const OUT_RATE: int := 48000
  const WIN_FRAMES: int := 8192
  const CHUNK_FRAMES: int := 4096

  /** The format fields of a WAV file, and where its sample data lies. */
  datatype Wav = Wav(rate: nat, channels: nat, bits: nat, dataOff: nat, dataLen: nat)

  /** What the header reader accepts. */
  predicate Playable(w: Wav) {
    w.rate > 0 && (w.channels == 1 || w.channels == 2) && (w.bits == 8 || w.bits == 16)
  }

  function BytesPerFrame(w: Wav): (b: nat)
    ensures Playable(w) ==> 1 <= b <= 4
  {
    w.bits / 8 * w.channels
  }

  function Frames(w: Wav): nat
    requires Playable(w)
  {
    w.dataLen / BytesPerFrame(w)
  }

  /** Output frames of the whole track: the source duration at 48 kHz, rounded up. */
  function OutFrames(w: Wav): nat
    requires Playable(w)
  {
    var p := Frames(w) * 48000 + w.rate - 1;
    p / w.rate
  }

  /** The source frame that output frame `k` shows. */
  function SourceIndex(rate: nat, k: nat): nat {
    k * rate / 48000
  }

  // ------------------------------------------------------------------- samples

  /** A little-endian signed 16-bit number. */
  function Int16(lo: byte, hi: byte): (v: int)
    ensures -32768 <= v <= 32767
  {
    var u := lo as int + hi as int * 256;
    if u >= 32768 then u - 65536 else u
  }

  /** The value of one channel of a frame at byte `at` of `buf`. */
  function ChannelValue(buf: seq<byte>, at: nat, bits: nat): (v: int)
    requires at + bits / 8 <= |buf| && (bits == 8 || bits == 16)
    ensures -32768 <= v <= 32767
  {
    if bits == 16 then Int16(buf[at], buf[at + 1]) else (buf[at] as int - 128) * 256
  }

  /** C's division of `a` by 1 or 2, toward zero. */
  function MeanOf(a: int, channels: nat): int
    requires channels == 1 || channels == 2
  {
    if channels == 1 then a else if a >= 0 then a / 2 else -(-a / 2)
  }

  /** The frame at byte `at` of `buf`, mixed down to one value. */
  function FrameValue(buf: seq<byte>, at: nat, channels: nat, bits: nat): (v: int)
    requires (channels == 1 || channels == 2) && (bits == 8 || bits == 16)
    requires at + bits / 8 * channels <= |buf|
    ensures -32768 <= v <= 32767
  {
    MeanOf(ChannelValue(buf, at, bits) + (if channels == 2 then ChannelValue(buf, at + bits / 8, bits) else 0), channels)
  }

  /** The file holds all the sample data its header declares. */
  predicate Complete(file: seq<byte>, w: Wav)
    requires Playable(w)
  {
    w.dataOff + Frames(w) * BytesPerFrame(w) <= |file|
  }

  lemma FrameInFile(file: seq<byte>, w: Wav, frame: nat)
    requires Playable(w) && Complete(file, w) && frame < Frames(w)
    ensures w.dataOff + frame * BytesPerFrame(w) + BytesPerFrame(w) <= |file|
  {
    var b := BytesPerFrame(w);
    MulMono(b, frame + 1, Frames(w));
    MulStep(b, frame);
  }

  /** Source frame `frame` of the file, mixed down. */
  function SourceSample(file: seq<byte>, w: Wav, frame: nat): int
    requires Playable(w) && Complete(file, w) && frame < Frames(w)
  {
    FrameInFile(file, w, frame);
    FrameValue(file, w.dataOff + frame * BytesPerFrame(w), w.channels, w.bits)
  }

  /** The first `n` output frames of a track, both channels alike: sampling the file directly. */
  function Pcm(file: seq<byte>, w: Wav, n: nat): (pcm: seq<int>)
    requires Playable(w) && Complete(file, w) && n <= OutFrames(w)
    ensures |pcm| == 2 * n
  {
    seq(2 * n, j requires 0 <= j < 2 * n =>
      IndexInSource(w, j / 2); SourceSample(file, w, SourceIndex(w.rate, j / 2)))
  }

  // ------------------------------------------------- what a file of given values gives

  /** The bytes at `at` hold the value `v`: two's complement, low byte first, or the high byte alone, offset by 128. */
  predicate StoresValue(file: seq<byte>, at: nat, bits: nat, v: int) {
    if bits == 16 then
      -32768 <= v < 32768 && at + 2 <= |file| && file[at] as int == v % 256 && file[at + 1] as int == v / 256 % 256
    else
      at + 1 <= |file| && v == (file[at] as int - 128) * 256
  }

  /** The track's data are the values `vs`, channel by channel and frame by frame. */
  ghost predicate Stores(file: seq<byte>, w: Wav, vs: seq<int>)
    requires Playable(w)
  {
    && w.dataLen == |vs| * (w.bits / 8) && |vs| % w.channels == 0
    && forall j :: 0 <= j < |vs| ==> StoresValue(file, w.dataOff + j * (w.bits / 8), w.bits, vs[j])
  }

  /** `m` is half of `sum`, cut toward zero. */
  predicate IsHalf(m: int, sum: int) {
    if sum >= 0 then 0 <= sum - 2 * m <= 1 else 0 <= 2 * m - sum <= 1
  }

  /** What output frame `k` must sound like: the value itself, or the two channels' mean. */
  predicate HeardAs(w: Wav, vs: seq<int>, k: nat, m: int)
    requires Playable(w)
  {
    var frame := k * w.rate / 48000;
    if w.channels == 1 then frame < |vs| && m == vs[frame]
    else 2 * frame + 1 < |vs| && IsHalf(m, vs[2 * frame] + vs[2 * frame + 1])
  }

  lemma ValueRead(file: seq<byte>, at: nat, bits: nat, v: int)
    requires (bits == 8 || bits == 16) && StoresValue(file, at, bits, v)
    ensures at + bits / 8 <= |file| && ChannelValue(file, at, bits) == v
  {
    if bits == 16 {
      assert v == 256 * (v / 256) + v % 256;
    }
  }

  lemma MeanIsHalf(a: int)
    ensures MeanOf(a, 1) == a && IsHalf(MeanOf(a, 2), a)
  {
  }

  lemma FrameSizeIs(w: Wav)
    requires Playable(w)
    ensures BytesPerFrame(w) == if w.channels == 1 then w.bits / 8 else 2 * (w.bits / 8)
  {
  }

  lemma Doubled(f: nat, width: nat)
    ensures f * (2 * width) == 2 * f * width
  {
  }

  lemma FrameBytes(w: Wav, n: nat, f: nat)
    requires Playable(w) && w.dataLen == n * (w.bits / 8) && n % w.channels == 0
    ensures Frames(w) * w.channels == n
    ensures f * BytesPerFrame(w) == if w.channels == 1 then f * (w.bits / 8) else 2 * f * (w.bits / 8)
  {
    hide BytesPerFrame;
    FrameSizeIs(w);
    var width := w.bits / 8;
    if w.channels == 1 {
      DivUnique(n * width, width, n);
      assert width * n == n * width;
    } else {
      var h := n / 2;
      Doubled(h, width);
      Doubled(f, width);
      assert (2 * width) * h == h * (2 * width);
      DivUnique(n * width, 2 * width, h);
    }
  }

  lemma FrameHeard(file: seq<byte>, w: Wav, vs: seq<int>, f: nat)
    requires Playable(w) && Stores(file, w, vs) && Complete(file, w) && f < Frames(w)
    ensures w.channels == 1 ==> f < |vs| && SourceSample(file, w, f) == vs[f]
    ensures w.channels == 2 ==> 2 * f + 1 < |vs| && IsHalf(SourceSample(file, w, f), vs[2 * f] + vs[2 * f + 1])
  {
    hide ChannelValue, StoresValue, MeanOf, BytesPerFrame, Frames;
    FrameBytes(w, |vs|, f);
    FrameInFile(file, w, f);
    var at, width := w.dataOff + f * BytesPerFrame(w), w.bits / 8;
    if w.channels == 1 {
      ValueRead(file, at, w.bits, vs[f]);
      FrameIsMean(file, at, w);
      MeanIsHalf(vs[f]);
    } else {
      assert (2 * f + 1) * width == 2 * f * width + width;
      ValueRead(file, at, w.bits, vs[2 * f]);
      ValueRead(file, at + width, w.bits, vs[2 * f + 1]);
      FrameIsMean(file, at, w);
      MeanIsHalf(vs[2 * f] + vs[2 * f + 1]);
    }
  }

  lemma FrameIsMean(buf: seq<byte>, at: nat, w: Wav)
    requires Playable(w) && at + BytesPerFrame(w) <= |buf|
    ensures at + w.bits / 8 <= |buf| && (w.channels == 2 ==> at + w.bits / 8 + w.bits / 8 <= |buf|)
    ensures w.channels == 1 ==> FrameValue(buf, at, 1, w.bits) == MeanOf(ChannelValue(buf, at, w.bits), 1)
    ensures w.channels == 2 ==>
              FrameValue(buf, at, 2, w.bits)
              == MeanOf(ChannelValue(buf, at, w.bits) + ChannelValue(buf, at + w.bits / 8, w.bits), 2)
  {
    hide ChannelValue, MeanOf;
  }

  /** Of a file that holds given values, the conversion gives those values: output frame `k` sounds like frame floor(k * rate / 48000). */
  lemma PcmIsHeard(file: seq<byte>, w: Wav, vs: seq<int>, n: nat)
    requires Playable(w) && Stores(file, w, vs) && Complete(file, w) && n <= OutFrames(w)
    ensures forall k :: 0 <= k < n ==> HeardAs(w, vs, k, Pcm(file, w, n)[2 * k]) && Pcm(file, w, n)[2 * k + 1] == Pcm(file, w, n)[2 * k]
  {
    hide Stores, Complete, SourceSample, Frames, OutFrames;
    forall k: nat | k < n
      ensures HeardAs(w, vs, k, Pcm(file, w, n)[2 * k]) && Pcm(file, w, n)[2 * k + 1] == Pcm(file, w, n)[2 * k]
    {
      IndexInSource(w, k);
      FrameHeard(file, w, vs, SourceIndex(w.rate, k));
      assert (2 * k) / 2 == k && (2 * k + 1) / 2 == k;
    }
  }

  // ---------------------------------------------------------------- arithmetic

  /** Every output frame shows a frame the source has. */
  lemma IndexInSource(w: Wav, k: nat)
    requires Playable(w) && k < OutFrames(w)
    ensures SourceIndex(w.rate, k) < Frames(w)
  {
    var f, r, n := Frames(w), w.rate, OutFrames(w);
    DivUnique(f * 48000 + r - 1, r, n);
    MulMono(r, k + 1, n);
    MulStep(r, k);
    assert k * r == r * k < f * 48000;
  }

  /** No output frame is missing either: one more would show a frame past the end. */
  lemma NextIndexPastSource(w: Wav)
    requires Playable(w)
    ensures SourceIndex(w.rate, OutFrames(w)) >= Frames(w)
  {
    var f, r, n := Frames(w), w.rate, OutFrames(w);
    DivUnique(f * 48000 + r - 1, r, n);
    assert n * r == r * n >= f * 48000;
  }

  lemma IndexMono(rate: nat, k: nat, m: nat)
    requires k <= m
    ensures SourceIndex(rate, k) <= SourceIndex(rate, m)
  {
    MulMono(rate, k, m);
    DivMono(k * rate, m * rate, 48000);
  }

  lemma IndexSpread(rate: nat, k: nat, i: nat)
    ensures i * rate / 48000 <= Spread(rate, k, i) <= i * rate / 48000 + 1
  {
    assert (k + i) * rate == k * rate + i * rate;
  }

  /** A chunk starting anywhere shows frames inside one window of 8192 source frames. */
  lemma ChunkFitsWindow(rate: nat, k: nat, i: nat)
    requires rate <= 96011 && i < CHUNK_FRAMES
    ensures Spread(rate, k, i) < WIN_FRAMES
  {
    IndexSpread(rate, k, i);
    MulMono(rate, i, 4095);
    MulMono(4095, rate, 96011);
    DivMono(i * rate, 4095 * 96011, 48000);
  }

  /** How far apart the source frames of output frames `k` and `k + i` lie. */
  function Spread(rate: nat, k: nat, i: nat): int {
    SourceIndex(rate, k + i) - SourceIndex(rate, k)
  }

  /** The first output frame whose chunk leaves the window at a rate just above the limit. */
  function TightStart(rate: nat): nat {
    if rate == 96012 then 3905
    else if rate == 96013 then 3290
    else if rate == 96014 then 2763
    else if rate == 96015 then 2305
    else if rate == 96016 then 1905
    else if rate == 96017 then 1553
    else if rate == 96018 then 1239
    else if rate == 96019 then 958
    else if rate == 96020 then 705
    else if rate == 96021 then 477
    else if rate == 96022 then 269
    else if rate == 96023 then 79
    else 0
  }

  lemma TightChunk(rate: nat)
    requires 96012 <= rate < 96024
    ensures Spread(rate, TightStart(rate), 4095) >= WIN_FRAMES
  {
    assert Spread(rate, TightStart(rate), 4095)
        == (TightStart(rate) + 4095) * rate / 48000 - TightStart(rate) * rate / 48000;
  }

  /** The window is large enough for every chunk exactly up to 96011 source frames per second. */
  lemma WindowSufficesIff(rate: nat)
    ensures (forall k: nat, i: nat :: i < CHUNK_FRAMES ==> Spread(rate, k, i) < WIN_FRAMES)
       <==> rate <= 96011
  {
    if rate <= 96011 {
      forall k: nat, i: nat | i < CHUNK_FRAMES
        ensures Spread(rate, k, i) < WIN_FRAMES
      {
        ChunkFitsWindow(rate, k, i);
      }
    } else {
      if rate >= 96024 {
        MulMono(4095, 96024, rate);
        DivMono(4095 * 96024, 4095 * rate, 48000);
        IndexSpread(rate, 0, 4095);
      } else {
        TightChunk(rate);
      }
      var k, i: nat := TightStart(rate), 4095;
      assert i < CHUNK_FRAMES && Spread(rate, k, i) >= WIN_FRAMES;
    }
  }
}
