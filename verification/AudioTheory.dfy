/** What the device has been given of a track, over every run of the audio daemon's machine. */
module AudioTheory {
  import opened Arith
  import opened AudioMath
  import opened AudioPlayer
  import opened Bytes
  import opened WavHeader

  // ------------------------------------------------------------------ what was given

  /** The file really has this frame of the data its header declares. */
  predicate Held(file: seq<byte>, w: Wav, frame: nat)
    requires Playable(w)
  {
    frame < Frames(w) && w.dataOff + frame * BytesPerFrame(w) + BytesPerFrame(w) <= |file|
  }

  function FrameOf(file: seq<byte>, w: Wav, frame: nat): int
    requires Playable(w) && w.dataOff + frame * BytesPerFrame(w) + BytesPerFrame(w) <= |file|
  {
    FrameValue(file, w.dataOff + frame * BytesPerFrame(w), w.channels, w.bits)
  }

  /** Output frame `k` was given as the source frame it shows, if the file has that. */
  ghost predicate GivenRight(s: Stream, k: nat)
    requires Playable(s.title) && k < s.done && |s.given| == 2 * s.done
  {
    var frame := SourceIndex(s.title.rate, k);
    Held(s.origin, s.title, frame) ==> s.given[2 * k] == s.given[2 * k + 1] == FrameOf(s.origin, s.title, frame)
  }

  /** Everything given so far is the track's direct conversion, as far as the file goes. */
  ghost predicate Kept(s: Stream) {
    && Playable(s.title) && s.done <= OutFrames(s.title) && |s.given| == 2 * s.done
    && forall k: nat :: k < s.done ==> GivenRight(s, k)
  }

  lemma CompleteHolds(file: seq<byte>, w: Wav, frame: nat)
    requires Playable(w) && Complete(file, w) && frame < Frames(w)
    ensures Held(file, w, frame) && FrameOf(file, w, frame) == SourceSample(file, w, frame)
  {
    FrameInFile(file, w, frame);
  }

  /** For a file with all its data, that is: exactly the prefix of the direct conversion. */
  lemma KeptIsPcm(s: Stream)
    requires Playable(s.title) && Complete(s.origin, s.title) && s.done <= OutFrames(s.title)
    ensures Kept(s) <==> s.given == Pcm(s.origin, s.title, s.done)
  {
    hide GivenRight, Pcm, Complete, OutFrames;
    if |s.given| == 2 * s.done {
      var pcm := Pcm(s.origin, s.title, s.done);
      forall k: nat | k < s.done
        ensures GivenRight(s, k) <==> s.given[2 * k] == pcm[2 * k] && s.given[2 * k + 1] == pcm[2 * k + 1]
      {
        RightIsPcm(s, k);
      }
      if Kept(s) {
        PairsMakeWhole(s.given, pcm, s.done);
      }
    }
  }

  lemma RightIsPcm(s: Stream, k: nat)
    requires Playable(s.title) && Complete(s.origin, s.title) && s.done <= OutFrames(s.title)
    requires k < s.done && |s.given| == 2 * s.done
    ensures var pcm := Pcm(s.origin, s.title, s.done);
            GivenRight(s, k) <==> s.given[2 * k] == pcm[2 * k] && s.given[2 * k + 1] == pcm[2 * k + 1]
  {
    hide Held, FrameOf, Pcm, SourceIndex, Complete, OutFrames, Frames;
    PcmFrame(s.origin, s.title, s.done, k);
  }

  lemma PairsMakeWhole(a: seq<int>, b: seq<int>, n: nat)
    requires |a| == |b| == 2 * n && forall k: nat :: k < n ==> a[2 * k] == b[2 * k] && a[2 * k + 1] == b[2 * k + 1]
    ensures a == b
  {
    forall j: nat | j < 2 * n ensures a[j] == b[j] {
      assert j == 2 * (j / 2) || j == 2 * (j / 2) + 1;
    }
  }

  lemma PcmFrame(file: seq<byte>, w: Wav, n: nat, k: nat)
    requires Playable(w) && Complete(file, w) && k < n <= OutFrames(w)
    ensures var frame := SourceIndex(w.rate, k);
            && Held(file, w, frame)
            && Pcm(file, w, n)[2 * k] == Pcm(file, w, n)[2 * k + 1] == FrameOf(file, w, frame)
  {
    IndexInSource(w, k);
    CompleteHolds(file, w, SourceIndex(w.rate, k));
    assert (2 * k) / 2 == k && (2 * k + 1) / 2 == k;
  }

  // ---------------------------------------------------------------------- the window

  /** `buf` starts with frames `start`, `start + 1`, ... of the data at `off` of `file`, `n` of them. */
  ghost predicate WindowHolds(file: seq<byte>, buf: seq<byte>, off: nat, b: nat, start: nat, n: nat) {
    && n <= WIN_FRAMES && n * b <= |buf|
    && (n > 0 ==> off + start * b + n * b <= |file| && buf[..n * b] == file[off + start * b..off + start * b + n * b])
  }

  /** The window shows the file the stream was started from. */
  ghost predicate Shows(s: Stream, w: Window)
    requires Playable(s.title)
  {
    WindowHolds(s.origin, w.buffer, s.title.dataOff, BytesPerFrame(s.title), w.start, w.frames)
  }

  predicate Covers(w: Window, frame: nat) {
    w.start <= frame < w.start + w.frames
  }

  /** A refill brings in every frame the window has room for and the file has. */
  lemma RefilledWindow(file: seq<byte>, before: Buffer, w: Wav, first: nat)
    requires Playable(w)
    ensures var b := BytesPerFrame(w);
            var bytes := RefillBytes(w, file, first);
            var n := |bytes| / b;
            && 0 <= n && WindowHolds(file, Overlay(before, bytes), w.dataOff, b, first, n)
  {
    hide Playable, BytesPerFrame;
    var b := BytesPerFrame(w);
    var at := w.dataOff + first * b;
    var bytes := RefillBytes(w, file, first);
    var n := |bytes| / b;
    RefillSize(w, file, first);
    DivUnique(|bytes|, b, n);
    assert b * n == n * b;
    if n > 0 {
      assert Overlay(before, bytes)[..n * b] == bytes[..n * b] == file[at..at + n * b];
    }
  }

  lemma RefillReaches(file: seq<byte>, w: Wav, first: nat, frame: nat)
    requires Playable(w) && first <= frame < first + WIN_FRAMES
    ensures var b := BytesPerFrame(w);
            w.dataOff + frame * b + b <= |file| <==> frame < first + |RefillBytes(w, file, first)| / b
  {
    hide Playable, BytesPerFrame;
    var b := BytesPerFrame(w);
    var at := w.dataOff + first * b;
    var bytes := RefillBytes(w, file, first);
    var n := |bytes| / b;
    var k := frame - first;
    DivUnique(|bytes|, b, n);
    MulStep(b, k);
    MulMono(b, k + 1, 8192);
    assert frame * b == first * b + b * k;
    if k < n {
      MulMono(b, k + 1, n);
    } else {
      MulMono(b, n + 1, k + 1);
      MulStep(b, n);
    }
  }

  /** Reading a frame through a window is reading it from the file the window shows. */
  lemma WindowSample(file: seq<byte>, w: Window, format: Wav, off: nat, frame: nat)
    requires Playable(format) && Covers(w, frame)
    requires WindowHolds(file, w.buffer, off, BytesPerFrame(format), w.start, w.frames)
    ensures off + frame * BytesPerFrame(format) + BytesPerFrame(format) <= |file|
    ensures Sample(w, format, frame)
         == FrameValue(file, off + frame * BytesPerFrame(format), format.channels, format.bits)
  {
    hide FrameValue;
    var b := BytesPerFrame(format);
    var k, n := frame - w.start, w.frames;
    MulMono(b, k + 1, n);
    MulStep(b, k);
    assert frame * b == w.start * b + k * b;
    SameFrame(w.buffer, k * b, file, off + w.start * b + k * b, w.buffer[..n * b], off + w.start * b, format);
  }

  /** Two places that hold the same bytes hold the same frame. */
  lemma SameFrame(buf: seq<byte>, p: nat, file: seq<byte>, q: nat, shared: seq<byte>, base: nat, w: Wav)
    requires Playable(w) && q == base + p && p + BytesPerFrame(w) <= |shared| <= |buf| && base + |shared| <= |file|
    requires shared == buf[..|shared|] == file[base..base + |shared|]
    ensures FrameValue(buf, p, w.channels, w.bits) == FrameValue(file, q, w.channels, w.bits)
  {
    SameByte(buf, file, shared, base, p);
    if BytesPerFrame(w) > 1 {
      SameByte(buf, file, shared, base, p + 1);
    }
    if BytesPerFrame(w) == 4 {
      SameByte(buf, file, shared, base, p + 2);
      SameByte(buf, file, shared, base, p + 3);
    }
  }

  lemma SameByte(buf: seq<byte>, file: seq<byte>, shared: seq<byte>, base: nat, p: nat)
    requires p < |shared| <= |buf| && base + |shared| <= |file|
    requires shared == buf[..|shared|] == file[base..base + |shared|]
    ensures buf[p] == file[base + p]
  {
    assert shared[p] == buf[p] && shared[p] == file[base + p];
  }

  // ------------------------------------------------------------------ a single offer

  /** What is taken of output frame `k` is what the started file has there. */
  ghost predicate TakenRight(s: Stream, w: Window, format: Wav, k: nat)
    requires Playable(s.title) && Playable(format)
  {
    var frame := SourceIndex(s.title.rate, k);
    Held(s.origin, s.title, frame) ==> Sample(w, format, frame) == FrameOf(s.origin, s.title, frame)
  }

  /**
   * One offer, whatever the path has come to lead to: what was given stays right if and only if it was
   * right before and every frame the device takes is.
   */
  lemma OfferKeepsIff(p: Player, reply: Reply)
    requires Ready(p) && p.stream.Some? && AfterOffer(p, reply).Going? && AfterOffer(p, reply).value.0.stream.Some?
    ensures var s, t := p.stream.value, AfterOffer(p, reply).value.0.stream.value;
            && t.done <= OutFrames(s.title)
            && (Kept(t) <==> Kept(s) && forall k: nat :: s.done <= k < t.done ==> TakenRight(s, NextWindow(p).0, p.format, k))
  {
    hide NextWindow, SourceIndex, Sample, Held, FrameOf, OutFrames, Samples, Playable;
    var s, t := p.stream.value, AfterOffer(p, reply).value.0.stream.value;
    var w := NextWindow(p).0;
    var n := ChunkSize(s.total - s.done);
    OfferTakes(p, reply);
    if |s.given| == 2 * s.done {
      forall k: nat | k < t.done
        ensures GivenRight(t, k) <==> if k < s.done then GivenRight(s, k) else TakenRight(s, w, p.format, k)
      {
        GivenAt(s, t, w, p.format, n, k);
      }
      assert forall k: nat :: k < s.done ==> (GivenRight(s, k) <==> GivenRight(t, k));
    }
  }

  lemma OfferTakes(p: Player, reply: Reply)
    requires Ready(p) && p.stream.Some? && AfterOffer(p, reply).Going? && AfterOffer(p, reply).value.0.stream.Some?
    ensures var s, t := p.stream.value, AfterOffer(p, reply).value.0.stream.value;
            var n := ChunkSize(s.total - s.done);
            && s.done < s.total && SameShape(p.format, s.title) && 0 < n
            && s.done <= t.done <= s.done + n && t.done <= OutFrames(s.title) && t.origin == s.origin && t.title == s.title
            && t.given == s.given + Samples(NextWindow(p).0, p.format, s.done, n)[..2 * (t.done - s.done)]
  {
    hide NextWindow, Samples, OutFrames, AllPlaced;
  }

  lemma GivenAt(s: Stream, t: Stream, w: Window, format: Wav, n: nat, k: nat)
    requires Playable(s.title) && Playable(format) && SameShape(format, s.title) && |s.given| == 2 * s.done
    requires s.done <= t.done <= s.done + n && k < t.done && t.origin == s.origin && t.title == s.title
    requires t.given == s.given + Samples(w, format, s.done, n)[..2 * (t.done - s.done)]
    ensures GivenRight(t, k) <==> if k < s.done then GivenRight(s, k) else TakenRight(s, w, format, k)
  {
    hide SourceIndex, Sample, Held, FrameOf, Playable;
    if k >= s.done {
      var i := k - s.done;
      assert (2 * i) / 2 == i && (2 * i + 1) / 2 == i;
    }
  }

  /** The next chunk's frames, as far as the started file has them, are in the window it is made from. */
  ghost predicate Served(p: Player)
    requires Ready(p) && p.stream.Some? && p.stream.value.done < p.stream.value.total
  {
    var s, w := p.stream.value, NextWindow(p).0;
    && Shows(s, w)
    && forall k: nat :: s.done <= k < s.done + ChunkSize(s.total - s.done) ==> WellServed(s, w, k)
  }

  ghost predicate WellServed(s: Stream, w: Window, k: nat)
    requires Playable(s.title)
  {
    var frame := SourceIndex(s.title.rate, k);
    Held(s.origin, s.title, frame) ==> Covers(w, frame)
  }

  /** From a window that serves it, an offer keeps what was given right. */
  lemma ServedOfferKeeps(p: Player, reply: Reply)
    requires Ready(p) && p.stream.Some? && p.stream.value.done < p.stream.value.total
    requires Kept(p.stream.value) && Served(p) && AfterOffer(p, reply).Going?
    ensures var q := AfterOffer(p, reply).value.0;
            q.stream.Some? ==> Kept(q.stream.value) && Shows(q.stream.value, q.window)
  {
    hide NextWindow, SourceIndex, Sample, Held, FrameOf, Kept, AllPlaced, WindowHolds, Frames, Tractable;
    var q := AfterOffer(p, reply).value.0;
    if q.stream.Some? {
      var s, w := p.stream.value, NextWindow(p).0;
      forall k: nat | s.done <= k < q.stream.value.done
        ensures TakenRight(s, w, p.format, k)
      {
        assert WellServed(s, w, k);
        ServedFrame(s, w, p.format, k);
      }
      OfferKeepsIff(p, reply);
    }
  }

  lemma ServedFrame(s: Stream, w: Window, format: Wav, k: nat)
    requires Playable(s.title) && SameShape(format, s.title) && Shows(s, w) && WellServed(s, w, k)
    ensures Playable(format) && TakenRight(s, w, format, k)
  {
    hide SourceIndex, WindowHolds, FrameValue;
    var frame := SourceIndex(s.title.rate, k);
    if Held(s.origin, s.title, frame) {
      WindowSample(s.origin, w, format, s.title.dataOff, frame);
    }
  }

  /** As long as the window lasts it does not matter where the path leads. */
  lemma WindowLasts(p: Player)
    requires Ready(p) && p.stream.Some? && p.stream.value.done < p.stream.value.total
    requires Shows(p.stream.value, p.window) && !Refills(p)
    ensures Served(p)
  {
    hide SourceIndex, Held, WindowHolds, OutFrames, Frames, RefillBytes, Tractable, NextWindow;
    var s, w := p.stream.value, p.window;
    NextWindowReady(p);
    var n := ChunkSize(s.total - s.done);
    forall k: nat | s.done <= k < s.done + n
      ensures WellServed(s, w, k)
    {
      IndexMono(s.title.rate, s.done, k);
      IndexMono(s.title.rate, k, s.done + n);
    }
  }

  /** The path leads to the started file, with its data at the same place. */
  predicate Attached(p: Player)
    requires p.stream.Some?
  {
    p.stream.value.source == p.stream.value.origin && p.format.dataOff == p.stream.value.title.dataOff
  }

  /** The path leads to no file, or to one that ends before the next frame's place. */
  predicate CutOff(p: Player)
    requires p.stream.Some?
  {
    var b := BytesPerFrame(p.format);
    |p.stream.value.source| < p.format.dataOff + FirstFrame(p) * b + b
  }

  /** A refill from the started file serves the next chunk, up to 96011 frames per second. */
  lemma AttachedServes(p: Player)
    requires Ready(p) && p.stream.Some? && p.stream.value.done < p.stream.value.total
    requires Attached(p) && Refills(p) && p.format.rate <= 96011
    ensures Served(p)
  {
    hide SourceIndex, WindowHolds, OutFrames, Frames, RefillBytes, Tractable;
    var s, w := p.stream.value, NextWindow(p).0;
    var n := ChunkSize(s.total - s.done);
    var first := FirstFrame(p);
    NextWindowReady(p);
    RefilledWindow(s.origin, p.window.buffer, s.title, first);
    assert RefillBytes(p.format, s.source, first) == RefillBytes(s.title, s.origin, first) by {
      SameRefill(p.format, s.title, s.source, first);
    }
    forall k: nat | s.done <= k < s.done + n
      ensures WellServed(s, w, k)
    {
      IndexMono(s.title.rate, s.done, k);
      ChunkFitsWindow(s.title.rate, s.done, k - s.done);
      RefillReaches(s.origin, s.title, first, SourceIndex(s.title.rate, k));
    }
  }

  lemma SameRefill(a: Wav, b: Wav, source: seq<byte>, first: nat)
    requires Playable(a) && SameShape(a, b) && a.dataOff == b.dataOff
    ensures RefillBytes(a, source, first) == RefillBytes(b, source, first)
  {
  }

  /** A stream cut off from its data fails at its next refill. */
  lemma CutOffStops(p: Player)
    requires Ready(p) && p.stream.Some? && p.stream.value.done < p.stream.value.total
    requires CutOff(p) && Refills(p)
    ensures !NextWindow(p).1
  {
    hide SourceIndex, OutFrames, Frames, RefillBytes, Tractable;
    NextWindowReady(p);
    RefillReaches(p.stream.value.source, p.format, FirstFrame(p), FirstFrame(p));
  }
  // --------------------------------------------------------------- leaving the buffer

  /** A chunk is read outside the window buffer exactly when its last frame has no place there. */
  lemma OutsideIff(p: Player, reply: Reply)
    requires Ready(p) && p.stream.Some? && p.stream.value.done < p.stream.value.total
    ensures var s, (w, ok) := p.stream.value, NextWindow(p);
            AfterOffer(p, reply) == Halted(Outside)
            <==> ok && !Placed(w, p.format, s.done + ChunkSize(s.total - s.done) - 1)
  {
    hide NextWindow, SourceIndex, OutFrames, Frames, Samples, Tractable, BytesPerFrame;
    var s, w := p.stream.value, NextWindow(p).0;
    var n := ChunkSize(s.total - s.done);
    var last := s.done + n - 1;
    NextWindowReady(p);
    forall k: nat | s.done <= k <= last && Placed(w, p.format, last)
      ensures Placed(w, p.format, k)
    {
      IndexMono(p.format.rate, s.done, k);
      IndexMono(p.format.rate, k, last);
      BufferMono(SourceIndex(p.format.rate, k) - w.start, SourceIndex(p.format.rate, last) - w.start, BytesPerFrame(p.format));
    }
  }

  lemma BufferMono(i: nat, j: nat, b: nat)
    requires i <= j && InBuffer(j, b)
    ensures InBuffer(i, b)
  {
    MulMono(b, i, j);
  }

  lemma WindowBytes(idx: nat, b: nat)
    requires idx < WIN_FRAMES && 1 <= b <= 4
    ensures InBuffer(idx, b)
  {
    MulMono(b, idx + 1, 8192);
    MulStep(b, idx);
  }

  /** Up to 96011 frames per second no chunk is read outside it. */
  lemma SlowTrackStaysInside(p: Player, reply: Reply)
    requires Ready(p) && p.stream.Some? && p.format.rate <= 96011
    ensures AfterOffer(p, reply).Going?
  {
    hide RefillBytes, SourceIndex, OutFrames, Frames, Samples, Tractable, InBuffer;
    if p.stream.value.done < p.stream.value.total {
      var s, w := p.stream.value, NextWindow(p).0;
      var n := ChunkSize(s.total - s.done);
      var last := s.done + n - 1;
      OutsideIff(p, reply);
      NextWindowReady(p);
      IndexMono(p.format.rate, s.done, last);
      IndexMono(p.format.rate, last, s.done + n);
      ChunkFitsWindow(p.format.rate, s.done, n - 1);
      WindowBytes(SourceIndex(p.format.rate, last) - w.start, BytesPerFrame(p.format));
    }
  }

  /** The first chunk of a 16-bit stereo track at 96024 frames per second or more is, if it is a full one. */
  lemma FastTrackLeavesBuffer(p: Player, claimOk: bool, reply: Reply)
    requires Ready(p) && p.stream.Some? && p.window.frames == 0 && p.stream.value.done == 0
    requires p.stream.value.total >= CHUNK_FRAMES && p.format.channels == 2 && p.format.bits == 16
    requires p.format.rate >= 96024 && |p.stream.value.source| >= p.format.dataOff + 4
    ensures AfterDevice(p, claimOk, reply) == Halted(Outside) <==> p.stream.value.claimed || claimOk
  {
    hide OutFrames, Frames, RefillBytes, Samples, Tractable;
    if p.stream.value.claimed || claimOk {
      var q := p.(stream := Some(p.stream.value.(claimed := true)));
      NextWindowReady(q);
      RefillReaches(q.stream.value.source, q.format, 0, 0);
      OutsideIff(q, reply);
      MulMono(4095, 96024, p.format.rate);
      DivMono(4095 * 96024, 4095 * p.format.rate, 48000);
    }
  }

  // --------------------------------------------------------------------- whole runs

  /**
   * What the device has been given is right, and will stay so: nothing more is to come, or the window shows
   * the started file and can only be refilled from there, or not at all.
   */
  ghost predicate Safe(p: Player)
    requires Ready(p)
  {
    p.stream.Some? ==>
      var s := p.stream.value;
      && s.title.rate <= 96011 && Kept(s)
      && (s.total == 0 || (Shows(s, p.window) && (Attached(p) || CutOff(p))))
  }

  /** What was given of a stream that ended by itself: everything, unless the stream was emptied meanwhile. */
  ghost predicate Finished(e: Stream) {
    Kept(e) && (e.total > 0 ==> e.done == OutFrames(e.title))
  }

  lemma SafeServes(p: Player)
    requires Ready(p) && p.stream.Some? && p.stream.value.done < p.stream.value.total && Safe(p)
    ensures !NextWindow(p).1 || Served(p)
  {
    hide SourceIndex, WindowHolds, OutFrames, Frames, RefillBytes, Tractable, Kept, Served, Attached, CutOff;
    if !Refills(p) {
      WindowLasts(p);
    } else if Attached(p) {
      AttachedServes(p);
    } else {
      CutOffStops(p);
    }
  }

  lemma StillCutOff(p: Player, q: Player)
    requires p.stream.Some? && q.stream.Some? && p.format == q.format && p.stream.value.source == q.stream.value.source
    requires p.stream.value.done <= q.stream.value.done && CutOff(p)
    ensures CutOff(q)
  {
    hide SourceIndex, BytesPerFrame;
    IndexMono(p.format.rate, p.stream.value.done, q.stream.value.done);
    MulMono(BytesPerFrame(p.format), FirstFrame(p), FirstFrame(q));
  }

  lemma OfferSafe(p: Player, reply: Reply)
    requires Ready(p) && p.stream.Some? && Safe(p)
    ensures var r := AfterOffer(p, reply);
            && r.Going? && Ready(r.value.0) && Safe(r.value.0) && (r.value.1.Some? ==> Finished(r.value.1.value))
  {
    hide NextWindow, SourceIndex, OutFrames, Frames, Samples, Tractable, Kept, AllPlaced, Served, WindowHolds, BytesPerFrame,
         Attached, CutOff;
    if p.stream.value.done < p.stream.value.total {
      SlowTrackStaysInside(p, reply);
      var q := AfterOffer(p, reply).value.0;
      NextWindowReady(p);
      SafeServes(p);
      if NextWindow(p).1 && q.stream.Some? {
        ServedOfferKeeps(p, reply);
        if CutOff(p) {
          StillCutOff(p, q);
        } else {
          StillAttached(p, q);
        }
      }
    }
  }

  lemma StillAttached(p: Player, q: Player)
    requires p.stream.Some? && q.stream.Some? && p.format == q.format && p.stream.value.source == q.stream.value.source
    requires p.stream.value.origin == q.stream.value.origin && p.stream.value.title == q.stream.value.title
    ensures Attached(p) <==> Attached(q)
  {
  }

  /**
   * A message that leaves what is given right: one that starts a track of a rate the window suffices for or
   * stops, and a failing start if no stream is on, or it empties the stream, or it leaves the path at the
   * started file or at one that ends before the next frame's place.
   */
  predicate Calm(p: Player, files: Files, c: Command)
    requires Ready(p)
  {
    c.Stop? || c.path == [] ||
    var o := StartOf(p, files, Truncated(c.path));
    match o
    case Begun(track) => track.rate <= 96011
    case Empty(_) => true
    case _ =>
      p.stream.None? || p.stream.value.total == 0 ||
      var q := Started(p, files, Truncated(c.path)).value;
      Attached(q) || CutOff(q)
  }

  /** Starting a missing file is always calm. */
  lemma MissingFileIsCalm(p: Player, files: Files, path: Path)
    requires Ready(p) && Truncated(path) !in files
    ensures Calm(p, files, Play(path))
  {
  }

  /** So is starting a file too short for a header, where the data lies behind a format chunk of full length. */
  lemma ShortFileIsCalm(p: Player, files: Files, path: Path)
    requires Ready(p) && Truncated(path) in files && |files[Truncated(path)]| <= 44
    requires p.stream.Some? ==> p.format.dataOff >= 44
    ensures Calm(p, files, Play(path))
  {
    hide Accepted, DataFound, OutFrames, Frames, HeaderAfter, Truncated, SourceIndex;
  }

  predicate CalmCommands(p: Player, files: Files, cs: seq<Command>, i: nat)
    requires Ready(p) && i <= |cs|
    decreases |cs| - i
  {
    i == |cs| ||
    (&& Calm(p, files, cs[i])
     && (CommandReady(p, files, cs[i]);
         var q := AfterCommand(p, files, cs[i]);
         q.Going? ==> CalmCommands(q.value, files, cs, i + 1)))
  }

  predicate CalmRun(p: Player, files: Files, rounds: seq<Round>, i: nat)
    requires Ready(p) && i <= |rounds|
    decreases |rounds| - i
  {
    i == |rounds| ||
    (&& CalmCommands(p, files, rounds[i].commands, 0)
     && (RoundReady(p, files, rounds[i]);
         var q := AfterRound(p, files, rounds[i]);
         q.Going? ==> CalmRun(q.value.0, files, rounds, i + 1)))
  }

  lemma KeptAlike(s: Stream, t: Stream)
    requires s.origin == t.origin && s.title == t.title && s.done == t.done && s.given == t.given
    ensures Kept(s) <==> Kept(t)
  {
    hide Held, FrameOf, OutFrames, SourceIndex;
    if Playable(s.title) && |s.given| == 2 * s.done {
      assert forall k: nat :: k < s.done ==> (GivenRight(s, k) <==> GivenRight(t, k));
    }
  }

  lemma CommandSafe(p: Player, files: Files, c: Command)
    requires Ready(p) && Safe(p) && Calm(p, files, c)
    ensures var q := AfterCommand(p, files, c); q.Going? ==> Ready(q.value) && Safe(q.value)
  {
    hide HeaderAfter, OutFrames, Frames, Kept, CutOff, Tractable, Truncated, StartOf, BytesPerFrame;
    CommandReady(p, files, c);
    var q := AfterCommand(p, files, c);
    if q.Going? && q.value.stream.Some? {
      if c.Play? && c.path != [] && StartOf(p, files, Truncated(c.path)).Begun? {
        FirstOffer(q.value.stream.value);
      } else {
        KeptAlike(p.stream.value, q.value.stream.value);
      }
    }
  }

  lemma FirstOffer(s: Stream)
    requires Playable(s.title) && s.done == 0 && s.given == []
    ensures Kept(s)
  {
  }

  lemma {:induction false} CommandsSafe(p: Player, files: Files, cs: seq<Command>, i: nat)
    requires Ready(p) && i <= |cs| && Safe(p) && CalmCommands(p, files, cs, i)
    ensures var q := CommandsFrom(p, files, cs, i); q.Going? ==> Ready(q.value) && Safe(q.value)
    decreases |cs| - i
  {
    hide AfterCommand, Ready, Safe, Calm;
    if i < |cs| {
      CommandSafe(p, files, cs[i]);
      var q := AfterCommand(p, files, cs[i]);
      if q.Going? {
        CommandsSafe(q.value, files, cs, i + 1);
      }
    }
  }

  lemma DeviceSafe(p: Player, claimOk: bool, reply: Reply)
    requires Ready(p) && Safe(p)
    ensures var r := AfterDevice(p, claimOk, reply);
            && r.Going? && Ready(r.value.0) && Safe(r.value.0) && (r.value.1.Some? ==> Finished(r.value.1.value))
  {
    hide AfterOffer, OutFrames, Frames, WindowHolds, Tractable, SourceIndex;
    if p.stream.Some? && (p.stream.value.claimed || claimOk) {
      var s := p.stream.value.(claimed := true);
      KeptAlike(p.stream.value, s);
      OfferSafe(p.(stream := Some(s)), reply);
    }
  }

  /**
   * Over every run without other failing starts, at every point the device has been given exactly the
   * beginning of the track's conversion, no sample was read outside the window buffer, and each stream that
   * ended by itself was given completely unless a start without a frame had emptied it.
   */
  lemma {:induction false} RunSafe(p: Player, files: Files, rounds: seq<Round>, i: nat)
    requires Ready(p) && i <= |rounds| && Safe(p) && CalmRun(p, files, rounds, i)
    ensures var o := RoundsFrom(p, files, rounds, i);
            && o != Halted(Outside)
            && (o.Going? ==> Ready(o.value.0) && Safe(o.value.0) && forall e :: e in o.value.1 ==> Finished(e))
    decreases |rounds| - i
  {
    hide Ready, Safe, CommandsFrom, AfterDevice, CalmCommands, Finished;
    if i < |rounds| {
      var c := CommandsFrom(p, files, rounds[i].commands, 0);
      CommandsSafe(p, files, rounds[i].commands, 0);
      CommandsWhy(p, files, rounds[i].commands, 0);
      RoundReady(p, files, rounds[i]);
      if c.Going? {
        DeviceSafe(c.value, rounds[i].claimed, rounds[i].reply);
        RunSafe(AfterRound(p, files, rounds[i]).value.0, files, rounds, i + 1);
      }
    }
  }

  lemma {:induction false} CommandsWhy(p: Player, files: Files, cs: seq<Command>, i: nat)
    requires i <= |cs|
    ensures CommandsFrom(p, files, cs, i) != Halted(Outside)
    decreases |cs| - i
  {
    hide StartOf, HeaderAfter;
    if i < |cs| {
      var q := AfterCommand(p, files, cs[i]);
      if q.Going? {
        CommandsWhy(q.value, files, cs, i + 1);
      }
    }
  }

  // --------------------------------------------------------------- when it is lost

  /** The file the path leads to has bytes at the place of the frame that output frame `k` shows. */
  predicate InSource(p: Player, k: nat)
    requires p.stream.Some?
  {
    p.format.dataOff + SourceIndex(p.format.rate, k) * BytesPerFrame(p.format) + BytesPerFrame(p.format)
    <= |p.stream.value.source|
  }

  /** How far into the refilled window that frame lies. */
  function Depth(p: Player, k: nat): int
    requires p.stream.Some?
  {
    SourceIndex(p.format.rate, k) - FirstFrame(p)
  }

  /**
   * What a refill gives for output frame `k`: the frame of the file the path leads to, if that has it and the
   * window reaches so far, and otherwise what the buffer had at that place, the refill's last bytes over it.
   */
  function ShownFrame(p: Player, k: nat): int
    requires p.stream.Some? && Playable(p.format) && 0 <= Depth(p, k) && InBuffer(Depth(p, k), BytesPerFrame(p.format))
  {
    if Depth(p, k) < WIN_FRAMES && InSource(p, k) then
      FrameOf(p.stream.value.source, p.format, SourceIndex(p.format.rate, k))
    else
      FrameValue(Overlay(p.window.buffer, RefillBytes(p.format, p.stream.value.source, FirstFrame(p))),
                 Depth(p, k) * BytesPerFrame(p.format), p.format.channels, p.format.bits)
  }

  lemma ShownIs(p: Player, k: nat)
    requires Ready(p) && p.stream.Some? && p.stream.value.done < p.stream.value.total && Refills(p)
    requires p.stream.value.done <= k && Placed(NextWindow(p).0, p.format, k)
    ensures 0 <= Depth(p, k) && InBuffer(Depth(p, k), BytesPerFrame(p.format))
    ensures ShownFrame(p, k) == Sample(NextWindow(p).0, p.format, SourceIndex(p.format.rate, k))
  {
    hide SourceIndex, RefillBytes, OutFrames, Frames, Tractable, WindowHolds, BytesPerFrame, FrameValue, NextWindow, InBuffer;
    var s, w := p.stream.value, NextWindow(p).0;
    var frame := SourceIndex(p.format.rate, k);
    IndexMono(p.format.rate, s.done, k);
    NextWindowReady(p);
    if Depth(p, k) < WIN_FRAMES && InSource(p, k) {
      RefillReaches(s.source, p.format, FirstFrame(p), frame);
      RefilledWindow(s.source, p.window.buffer, p.format, FirstFrame(p));
      WindowSample(s.source, w, p.format, p.format.dataOff, frame);
    }
  }

  /** Behind the refill's bytes the buffer is as it was. */
  lemma LeftoverFrame(p: Player, k: nat)
    requires p.stream.Some? && Playable(p.format) && 0 <= Depth(p, k) && InBuffer(Depth(p, k), BytesPerFrame(p.format))
    requires |RefillBytes(p.format, p.stream.value.source, FirstFrame(p))| <= Depth(p, k) * BytesPerFrame(p.format)
    ensures ShownFrame(p, k)
         == FrameValue(p.window.buffer, Depth(p, k) * BytesPerFrame(p.format), p.format.channels, p.format.bits)
  {
    hide FrameValue, RefillBytes, SourceIndex, BytesPerFrame;
    var b := BytesPerFrame(p.format);
    var bytes := RefillBytes(p.format, p.stream.value.source, FirstFrame(p));
    if Depth(p, k) < WIN_FRAMES && InSource(p, k) {
      RefillReaches(p.stream.value.source, p.format, FirstFrame(p), SourceIndex(p.format.rate, k));
      WholeFrames(|bytes|, b, Depth(p, k));
      assert false;
    }
    SameTail(p.window.buffer, bytes, Depth(p, k) * b, p.format);
  }

  lemma WholeFrames(bytes: nat, b: nat, k: nat)
    requires b > 0 && k < bytes / b
    ensures k * b < bytes
  {
    DivUnique(bytes, b, bytes / b);
    MulMono(b, k + 1, bytes / b);
    MulStep(b, k);
  }

  lemma SameTail(buf: seq<byte>, bytes: seq<byte>, at: nat, format: Wav)
    requires Playable(format) && |bytes| <= at && at + BytesPerFrame(format) <= |buf|
    ensures FrameValue(Overlay(buf, bytes), at, format.channels, format.bits)
         == FrameValue(buf, at, format.channels, format.bits)
  {
    assert forall i :: |bytes| <= i < |buf| ==> Overlay(buf, bytes)[i] == buf[i];
  }

  /** Output frame `k` would be given as the frame the started file has. */
  ghost predicate Agrees(p: Player, k: nat)
    requires p.stream.Some? && Playable(p.format) && Playable(p.stream.value.title)
    requires 0 <= Depth(p, k) && InBuffer(Depth(p, k), BytesPerFrame(p.format))
  {
    var s, frame := p.stream.value, SourceIndex(p.format.rate, k);
    Held(s.origin, s.title, frame) ==> ShownFrame(p, k) == FrameOf(s.origin, s.title, frame)
  }

  ghost predicate AgreesTo(p: Player, end: nat)
    requires Ready(p) && p.stream.Some?
  {
    forall k: nat :: p.stream.value.done <= k < end ==>
      0 <= Depth(p, k) && InBuffer(Depth(p, k), BytesPerFrame(p.format)) && Agrees(p, k)
  }

  /**
   * A refill wherever the path has come to lead, and whatever the rate: what the device was given stays right
   * exactly if every frame it takes, from the other file or left in the window, is the started file's.
   */
  lemma DetachedOffer(p: Player, frames: nat)
    requires Ready(p) && p.stream.Some? && p.stream.value.done < p.stream.value.total && Refills(p)
    requires Kept(p.stream.value) && AfterOffer(p, Takes(frames)).Going? && InSource(p, p.stream.value.done)
    ensures var s := p.stream.value;
            var q := AfterOffer(p, Takes(frames)).value.0;
            && q.stream.Some? && q.stream.value.done == s.done + Least(frames, ChunkSize(s.total - s.done))
            && (Kept(q.stream.value) <==> AgreesTo(p, q.stream.value.done))
  {
    hide SourceIndex, RefillBytes, OutFrames, Frames, Tractable, Sample, Kept, WindowHolds, BytesPerFrame, FrameValue, Samples,
         NextWindow, Depth, InBuffer, ShownFrame, Held, FrameOf;
    var s := p.stream.value;
    NextWindowReady(p);
    RefillReaches(s.source, p.format, FirstFrame(p), FirstFrame(p));
    OfferKeepsIff(p, Takes(frames));
    var q := AfterOffer(p, Takes(frames)).value.0;
    forall k: nat | s.done <= k < q.stream.value.done
      ensures 0 <= Depth(p, k) && InBuffer(Depth(p, k), BytesPerFrame(p.format))
      ensures TakenRight(s, NextWindow(p).0, p.format, k) <==> Agrees(p, k)
    {
      assert Placed(NextWindow(p).0, p.format, k);
      ShownIs(p, k);
    }
  }

  /**
   * Above 96011 frames per second, while frames are narrow enough not to be read outside the buffer: the last
   * frame of the first full chunk of every track from 96024 frames per second on is whatever stood in the
   * buffer before.
   */
  lemma NarrowFastTrackReadsStale(p: Player, reply: Reply)
    requires Ready(p) && p.stream.Some? && p.window.frames == 0 && p.stream.value.done == 0
    requires p.stream.value.total >= CHUNK_FRAMES && p.format.rate >= 96024 && InSource(p, 0)
    requires InBuffer(SourceIndex(p.format.rate, 4095), BytesPerFrame(p.format))
    ensures AfterOffer(p, reply).Going? && Depth(p, 4095) >= WIN_FRAMES
    ensures var at := SourceIndex(p.format.rate, 4095) * BytesPerFrame(p.format);
            Sample(NextWindow(p).0, p.format, SourceIndex(p.format.rate, 4095))
            == FrameValue(p.window.buffer, at, p.format.channels, p.format.bits)
  {
    hide OutFrames, Frames, RefillBytes, Samples, Tractable, FrameValue, Sample, BytesPerFrame, ShownFrame, SourceIndex, InBuffer,
         NextWindow, Overlay, AfterOffer;
    var b := BytesPerFrame(p.format);
    NextWindowReady(p);
    OnlyOutside(p, reply);
    OutsideIff(p, reply);
    FastIndex(p.format.rate);
    RefillReaches(p.stream.value.source, p.format, 0, 0);
    ShownIs(p, 4095);
    RefillAtMost(p.format, p.stream.value.source, 0);
    MulMono(b, 8192, Depth(p, 4095));
    LeftoverFrame(p, 4095);
  }

  lemma OnlyOutside(p: Player, reply: Reply)
    requires p.stream.Some? && Playable(p.format)
    ensures AfterOffer(p, reply).Halted? ==> AfterOffer(p, reply) == Halted(Outside)
  {
  }

  lemma FastIndex(rate: nat)
    requires rate >= 96024
    ensures SourceIndex(rate, 0) == 0 && SourceIndex(rate, 4095) >= WIN_FRAMES
  {
    MulMono(4095, 96024, rate);
    DivMono(4095 * 96024, 4095 * rate, 48000);
  }

  lemma RefillAtMost(format: Wav, source: seq<byte>, first: nat)
    requires Playable(format)
    ensures |RefillBytes(format, source, first)| <= 8192 * BytesPerFrame(format)
  {
  }

  // ------------------------------------------------------------- every run, exactly

  /** A message after which the stream, if one is on, has been given nothing yet. */
  predicate BeginsAnew(p: Player, files: Files, c: Command) {
    c.Stop? || (c.path != [] && StartOf(p, files, Truncated(c.path)).Begun?)
  }

  function RightAfterCommands(p: Player, files: Files, cs: seq<Command>, i: nat, right: bool): bool
    requires i <= |cs|
    decreases |cs| - i
  {
    if i == |cs| then right
    else
      var q := AfterCommand(p, files, cs[i]);
      if q.Halted? then right else RightAfterCommands(q.value, files, cs, i + 1, right || BeginsAnew(p, files, cs[i]))
  }

  /** The offer's part: every frame taken is the started file's. */
  ghost predicate RightAfterDevice(p: Player, claimOk: bool, reply: Reply, right: bool)
    requires Ready(p)
  {
    var r := AfterDevice(p, claimOk, reply);
    right &&
    (p.stream.Some? && r.Going? && r.value.0.stream.Some? ==>
       forall k: nat :: p.stream.value.done <= k < r.value.0.stream.value.done ==>
         TakenRight(p.stream.value, NextWindow(p).0, p.format, k))
  }

  /** Offer by offer over a run: for the stream on at its end, and for each stream that ended by itself. */
  ghost function Verdicts(p: Player, files: Files, rounds: seq<Round>, i: nat, right: bool): (bool, seq<bool>)
    requires Ready(p) && i <= |rounds|
    decreases |rounds| - i
  {
    if i == |rounds| || AfterRound(p, files, rounds[i]).Halted? then (right, [])
    else
      RoundReady(p, files, rounds[i]);
      CommandsReady(p, files, rounds[i].commands, 0);
      var c := CommandsFrom(p, files, rounds[i].commands, 0).value;
      var before := RightAfterCommands(p, files, rounds[i].commands, 0, right);
      var after := RightAfterDevice(c, rounds[i].claimed, rounds[i].reply, before);
      var q := AfterRound(p, files, rounds[i]).value;
      var rest := Verdicts(q.0, files, rounds, i + 1, after);
      (rest.0, (if q.1 == [] then [] else [before]) + rest.1)
  }

  lemma CommandKeptIff(p: Player, files: Files, c: Command, right: bool)
    requires Ready(p) && (p.stream.Some? ==> (Kept(p.stream.value) <==> right)) && AfterCommand(p, files, c).Going?
    ensures var q := AfterCommand(p, files, c).value;
            q.stream.Some? ==> (Kept(q.stream.value) <==> right || BeginsAnew(p, files, c))
  {
    hide HeaderAfter, OutFrames, Frames, Kept, Tractable, Truncated, StartOf, BytesPerFrame;
    var q := AfterCommand(p, files, c).value;
    if q.stream.Some? {
      if BeginsAnew(p, files, c) {
        FirstOffer(q.stream.value);
      } else {
        KeptAlike(p.stream.value, q.stream.value);
      }
    }
  }

  lemma {:induction false} CommandsKeptIff(p: Player, files: Files, cs: seq<Command>, i: nat, right: bool)
    requires Ready(p) && i <= |cs| && (p.stream.Some? ==> (Kept(p.stream.value) <==> right))
    requires CommandsFrom(p, files, cs, i).Going?
    ensures var q := CommandsFrom(p, files, cs, i).value;
            q.stream.Some? ==> (Kept(q.stream.value) <==> RightAfterCommands(p, files, cs, i, right))
    decreases |cs| - i
  {
    hide AfterCommand, Ready, Kept, BeginsAnew;
    if i < |cs| {
      CommandReady(p, files, cs[i]);
      CommandKeptIff(p, files, cs[i], right);
      CommandsKeptIff(AfterCommand(p, files, cs[i]).value, files, cs, i + 1, right || BeginsAnew(p, files, cs[i]));
    }
  }

  lemma DeviceKeptIff(p: Player, claimOk: bool, reply: Reply, right: bool)
    requires Ready(p) && (p.stream.Some? ==> (Kept(p.stream.value) <==> right)) && AfterDevice(p, claimOk, reply).Going?
    ensures var (q, ended) := AfterDevice(p, claimOk, reply).value;
            && (q.stream.Some? ==> (Kept(q.stream.value) <==> RightAfterDevice(p, claimOk, reply, right)))
            && (ended.Some? ==> (Kept(ended.value) <==> right))
  {
    hide NextWindow, SourceIndex, OutFrames, Frames, Samples, Tractable, Kept, AllPlaced, Held, FrameOf, Sample;
    if p.stream.Some? && (p.stream.value.claimed || claimOk) {
      var s := p.stream.value.(claimed := true);
      var p1 := p.(stream := Some(s));
      KeptAlike(p.stream.value, s);
      if AfterDevice(p, claimOk, reply).value.0.stream.Some? {
        OfferKeepsIff(p1, reply);
        assert NextWindow(p1) == NextWindow(p) by {
          SameWindow(p, p1);
        }
        assert forall k: nat :: TakenRight(s, NextWindow(p).0, p.format, k) <==> TakenRight(p.stream.value, NextWindow(p).0, p.format, k);
      }
    }
  }

  lemma SameWindow(p: Player, q: Player)
    requires p.stream.Some? && p.stream.value.done < p.stream.value.total && Playable(p.format)
    requires q == p.(stream := Some(p.stream.value.(claimed := true)))
    ensures NextWindow(p) == NextWindow(q)
  {
  }

  /**
   * Over every run: what the device was given of a stream, on at the end or ended by itself, is right if and
   * only if at each of its offers every frame taken was the started file's.
   */
  lemma {:induction false} RunKeptIff(p: Player, files: Files, rounds: seq<Round>, i: nat, right: bool)
    requires Ready(p) && i <= |rounds| && (p.stream.Some? ==> (Kept(p.stream.value) <==> right))
    requires RoundsFrom(p, files, rounds, i).Going?
    ensures var (q, log) := RoundsFrom(p, files, rounds, i).value;
            var (on, ended) := Verdicts(p, files, rounds, i, right);
            && (q.stream.Some? ==> (Kept(q.stream.value) <==> on))
            && |log| == |ended| && forall j :: 0 <= j < |log| ==> (Kept(log[j]) <==> ended[j])
    decreases |rounds| - i
  {
    hide Ready, Kept, CommandsFrom, AfterDevice, RightAfterDevice, RightAfterCommands;
    if i < |rounds| {
      var r := rounds[i];
      var c := CommandsFrom(p, files, r.commands, 0).value;
      CommandsReady(p, files, r.commands, 0);
      RoundReady(p, files, r);
      CommandsKeptIff(p, files, r.commands, 0, right);
      var before := RightAfterCommands(p, files, r.commands, 0, right);
      DeviceKeptIff(c, r.claimed, r.reply, before);
      RunKeptIff(AfterRound(p, files, r).value.0, files, rounds, i + 1, RightAfterDevice(c, r.claimed, r.reply, before));
    }
  }

  /**
   * An accepted header without a frame, while a stream is on: at the next offer the stream ends as if it had
   * come to its end, with what was given so far. Of a complete file that is everything exactly if the last
   * frame had been given.
   */
  lemma EmptyStartEnds(p: Player, files: Files, path: Path, reply: Reply)
    requires Ready(p) && Safe(p) && p.stream.Some? && StartOf(p, files, Truncated(path)).Empty? && path != []
    ensures var s, q := p.stream.value, AfterCommand(p, files, Play(path));
            && q.Going? && Ready(q.value)
            && var r := AfterDevice(q.value, true, reply);
            && r.Going? && r.value.0.stream.None? && r.value.1.Some? && r.value.1.value.given == s.given
            && (Complete(s.origin, s.title) ==>
                  (s.given == Pcm(s.origin, s.title, OutFrames(s.title)) <==> s.done == OutFrames(s.title)))
  {
    hide StartOf, HeaderAfter, OutFrames, Frames, GivenRight, Truncated, Tractable, Complete, Pcm;
    CommandReady(p, files, Play(path));
    if Complete(p.stream.value.origin, p.stream.value.title) {
      KeptIsPcm(p.stream.value);
    }
  }

  /** A track is without a frame exactly if its data is shorter than one. */
  lemma EmptyIff(w: Wav)
    requires Playable(w)
    ensures OutFrames(w) == 0 <==> w.dataLen < BytesPerFrame(w)
  {
    hide BytesPerFrame;
    DivUnique(Frames(w) * 48000 + w.rate - 1, w.rate, 0);
    DivUnique(w.dataLen, BytesPerFrame(w), 0);
  }

  // ---------------------------------------------------------------------- liveness

  /** A round without messages in which the device is claimed and takes at least one frame. */
  predicate Willing(r: Round) {
    r.commands == [] && r.claimed && r.reply.Takes? && r.reply.frames >= 1
  }

  lemma {:induction false} IdleStays(p: Player, files: Files, rounds: seq<Round>, i: nat)
    requires Ready(p) && i <= |rounds| && p.stream.None? && forall j :: i <= j < |rounds| ==> Willing(rounds[j])
    ensures RoundsFrom(p, files, rounds, i) == Going((p, []))
    decreases |rounds| - i
  {
    if i < |rounds| {
      assert CommandsFrom(p, files, rounds[i].commands, 0) == Going(p);
      IdleStays(p, files, rounds, i + 1);
      NothingEnded(RoundsFrom(p, files, rounds, i + 1));
    }
  }

  lemma SameFrameSize(a: Wav, b: Wav)
    requires SameShape(a, b)
    ensures BytesPerFrame(a) == BytesPerFrame(b)
  {
  }

  lemma CompleteRefill(p: Player)
    requires Ready(p) && p.stream.Some? && p.stream.value.done < p.stream.value.total
    requires Attached(p) && Complete(p.stream.value.origin, p.stream.value.title)
    ensures NextWindow(p).1
  {
    hide SourceIndex, RefillBytes, OutFrames, Frames, Tractable, BytesPerFrame;
    var s := p.stream.value;
    NextWindowReady(p);
    if Refills(p) {
      SameFrameSize(p.format, s.title);
      FrameInFile(s.origin, s.title, FirstFrame(p));
      RefillReaches(s.source, p.format, FirstFrame(p), FirstFrame(p));
    }
  }

  /**
   * A stream of a complete file that the device keeps taking from ends by itself, once, within one round per
   * frame left and one more, and by then the device has been given its whole conversion.
   */
  lemma {:induction false} StreamEnds(p: Player, files: Files, rounds: seq<Round>, i: nat)
    requires Ready(p) && Safe(p) && i <= |rounds| && forall j :: i <= j < |rounds| ==> Willing(rounds[j])
    requires p.stream.Some? && p.stream.value.total > 0 && Attached(p)
    requires Complete(p.stream.value.origin, p.stream.value.title)
    requires |rounds| - i > p.stream.value.total - p.stream.value.done
    ensures var s, o := p.stream.value, RoundsFrom(p, files, rounds, i);
            && o.Going? && o.value.0.stream.None? && |o.value.1| == 1
            && o.value.1[0].origin == s.origin && o.value.1[0].title == s.title
            && o.value.1[0].given == Pcm(s.origin, s.title, OutFrames(s.title))
    decreases |rounds| - i
  {
    hide Safe, SourceIndex, OutFrames, Frames, NextWindow, Samples, AllPlaced, Kept, Complete, Pcm, Tractable;
    var s := p.stream.value;
    var p1 := p.(stream := Some(s.(claimed := true)));
    assert CommandsFrom(p, files, rounds[i].commands, 0) == Going(p);
    DeviceSafe(p, true, rounds[i].reply);
    var (q, ended) := AfterDevice(p, true, rounds[i].reply).value;
    if s.done < s.total {
      CompleteRefill(p1);
      StreamEnds(q, files, rounds, i + 1);
      NothingEnded(RoundsFrom(q, files, rounds, i + 1));
    } else {
      IdleStays(q, files, rounds, i + 1);
      NothingBehind([ended.value], q);
      KeptIsPcm(ended.value);
    }
  }
}
