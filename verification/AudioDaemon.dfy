/**
 * The audio daemon with its fields and buffers: header reading, windowed file access, rate conversion and
 * the streaming loop. Every method does to the state what the machine on values says.
 */
module AudioDaemon {
  import opened AudioMath
  import opened AudioPlayer
  import opened AudioTheory
  import opened Bytes
  import opened WavHeader

  class Daemon {
    const files: Files

    const hdrBuf: array<byte>
    const winBuf: array<byte>
    const outChunk: array<int>

    var srcRate: nat
    var srcChannels: nat
    var srcBits: nat
    var dataOff: nat
    var dataLen: nat
    var curPath: Path

    var outTotal: nat
    var outPos: nat
    var winStart: nat
    var winFrames: nat
    var streaming: bool
    var claimed: bool

    /** The file and format the current stream was started from. */
    ghost var origin: seq<byte>
    ghost var title: Wav

    /** Everything the device has accepted of the current stream, as interleaved 16-bit samples. */
    ghost var played: seq<int>

    constructor (files: Files)
      ensures Tidy() && !streaming && this.files == files
      ensures fresh(hdrBuf) && fresh(winBuf) && fresh(outChunk)
    {
      this.files := files;
      hdrBuf := new byte[65536](_ => 0);
      winBuf := new byte[32768](_ => 0);
      outChunk := new int[8192](_ => 0);
      srcRate, srcChannels, srcBits, dataOff, dataLen := 0, 0, 0, 0, 0;
      curPath := [];
      outTotal, outPos, winStart, winFrames := 0, 0, 0, 0;
      streaming, claimed := false, false;
      origin, title, played := [], Wav(0, 0, 0, 0, 0), [];
    }

    /** The sizes of the buffers, and byte counts of whole frames. */
    ghost predicate Tidy()
      reads this
    {
      && hdrBuf.Length == 65536 && winBuf.Length == 32768 && outChunk.Length == 8192 && hdrBuf != winBuf
      && outTotal % 4 == 0 && outPos % 4 == 0
    }

    /** The track the format fields describe. */
    function Track(): Wav
      reads this
    {
      Wav(srcRate, srcChannels, srcBits, dataOff, dataLen)
    }

    ghost function WindowView(): Window
      reads this, winBuf
      requires Tidy()
    {
      Window(winBuf[..], winStart, winFrames)
    }

    ghost function StreamView(): Option<Stream>
      reads this
      requires Tidy()
    {
      if streaming then
        Some(Stream(origin, title, FileOf(files, curPath), outTotal / 4, outPos / 4, claimed, played))
      else None
    }

    /** What the daemon is doing, as the machine's state. */
    ghost function View(): Player
      reads this, hdrBuf, winBuf
      requires Tidy()
    {
      Player(hdrBuf[..], Track(), WindowView(), StreamView())
    }

    // ------------------------------------------------------------------ reading

    /** Reading a file's beginning into the header buffer: as much as leaves room for the terminator behind it. */
    method ReadFile(path: Path) returns (n: int)
      requires Tidy()
      modifies hdrBuf
      ensures n == if path in files then |HeaderBytes(files[path])| - 1 else -1
      ensures hdrBuf[..] == HeaderAfter(old(hdrBuf[..]), files, path)
    {
      if path !in files {
        return -1;
      }
      var bytes := HeaderBytes(files[path]);
      n := |bytes| - 1;
      forall k | 0 <= k < |bytes| {
        hdrBuf[k] := bytes[k];
      }
    }

    method ReadFileAt(path: Path, off: nat, cap: nat) returns (n: nat)
      requires Tidy() && cap <= 32768
      modifies winBuf
      ensures n == |ReadAt(FileOf(files, path), off, cap)|
      ensures winBuf[..] == Overlay(old(winBuf[..]), ReadAt(FileOf(files, path), off, cap))
    {
      var bytes := ReadAt(FileOf(files, path), off, cap);
      n := |bytes|;
      forall k | 0 <= k < n {
        winBuf[k] := bytes[k];
      }
    }

    /** wav_parse: what it leaves in the format fields, and whether it accepts. */
    method WavParse() returns (ok: bool)
      requires Tidy()
      modifies this`srcRate, this`srcChannels, this`srcBits, this`dataOff, this`dataLen
      ensures ok <==> Accepted(hdrBuf[..], old(dataOff), old(dataLen)).Some?
      ensures ok ==> Some(Track()) == Accepted(hdrBuf[..], old(dataOff), old(dataLen))
      ensures (dataOff, dataLen) == DataFound(hdrBuf[..], old(dataOff), old(dataLen))
      ensures !ok ==> srcRate == old(srcRate) && srcChannels == old(srcChannels) && srcBits == old(srcBits)
    {
      hide ScanFrom, IsTag, FormatAt, U32At, U16At, Skip, Accepted, DataFound;
      ghost var h := hdrBuf[..];
      MagicIs(h);
      NoMagic(h, dataOff, dataLen);
      if !(hdrBuf[0] == 82 && hdrBuf[1] == 73 && hdrBuf[2] == 70 && hdrBuf[3] == 70) {
        return false;
      }
      if !(hdrBuf[8] == 87 && hdrBuf[9] == 65 && hdrBuf[10] == 86 && hdrBuf[11] == 69) {
        return false;
      }
      ghost var end := ScanFrom(h, 12, NO_FORMAT, dataOff, dataLen);
      var pos: nat := 12;
      var rate: nat, channels: nat, bits: nat := 0, 0, 0;
      var found := false;
      while !found && pos + 8 <= 65536
        invariant hdrBuf[..] == h
        invariant !found ==> dataOff == old(dataOff) && dataLen == old(dataLen)
        invariant end == if found then Ended(Format(rate, channels, bits), dataOff, dataLen)
                         else ScanFrom(h, pos, Format(rate, channels, bits), dataOff, dataLen)
        invariant srcRate == old(srcRate) && srcChannels == old(srcChannels) && srcBits == old(srcBits)
        invariant Format(rate, channels, bits) == NO_FORMAT
               || (rate > 0 && 1 <= channels <= 2 && (bits == 8 || bits == 16))
        decreases !found, 65536 - pos
      {
        ScanStep(h, pos, Format(rate, channels, bits), dataOff, dataLen);
        ScanRejects(h, dataOff, dataLen);
        var size := U32At(hdrBuf[..], pos + 4);
        pos := pos + 8;
        if IsTag(hdrBuf[..], pos - 8, FMT_ID) && pos + 16 <= 65536 {
          var f := FormatAt(hdrBuf[..], pos);
          channels, rate, bits := f.channels, f.rate, f.bits;
          if U16At(hdrBuf[..], pos) != 1 {
            return false;
          }
          if channels < 1 || channels > 2 {
            return false;
          }
          if bits != 8 && bits != 16 {
            return false;
          }
          if rate == 0 {
            return false;
          }
        } else if IsTag(hdrBuf[..], pos - 8, DATA_ID) {
          dataOff := pos;
          dataLen := size;
          found := true;
        }
        if !found {
          pos := pos + Skip(size);
        }
      }
      ScanStops(h, pos, Format(rate, channels, bits), dataOff, dataLen);
      ScanAccepts(h, old(dataOff), old(dataLen), Format(rate, channels, bits), dataOff, dataLen);
      if dataLen == 0 || rate == 0 || channels == 0 || bits == 0 {
        return false;
      }
      srcRate, srcChannels, srcBits := rate, channels, bits;
      ok := true;
    }

    // ------------------------------------------------------------------ sampling

    /** The channel loop of win_sample: the frame at byte `p` of the window, mixed down. */
    method MixedFrame(p: nat) returns (s: int)
      requires Tidy() && Playable(Track()) && p + BytesPerFrame(Track()) <= 32768
      ensures s == FrameValue(winBuf[..], p, srcChannels, srcBits)
    {
      hide BytesPerFrame, FrameValue, ChannelValue;
      var width: nat := srcBits / 8;
      FrameSize(Track());
      FrameIsMean(winBuf[..], p, Track());
      var acc := 0;
      for ch := 0 to srcChannels
        invariant ch == 0 ==> acc == 0
        invariant ch == 1 ==> acc == ChannelValue(winBuf[..], p, srcBits)
        invariant ch == 2 ==>
                    acc == ChannelValue(winBuf[..], p, srcBits) + ChannelValue(winBuf[..], p + width, srcBits)
      {
        var q := p + ch * width;
        ChannelPlace(ch, width);
        ChannelIs(winBuf[..], q, srcBits);
        if srcBits == 16 {
          acc := acc + Int16(winBuf[q], winBuf[q + 1]);
        } else {
          acc := acc + (winBuf[q] as int - 128) * 256;
        }
      }
      s := MeanOf(acc, srcChannels);
    }

    /** win_sample: what the window has in place of a source frame, unless that is outside the buffer. */
    method WinSample(frame: nat) returns (s: int, outside: bool)
      requires Tidy() && Playable(Track()) && winStart <= frame
      ensures outside <==> !InBuffer(frame - winStart, BytesPerFrame(Track()))
      ensures s == Sample(WindowView(), Track(), frame)
    {
      hide FrameValue, Playable;
      var idx := frame - winStart;
      var bytesPer := srcBits / 8 * srcChannels;
      s := 0;
      outside := !InBuffer(idx, bytesPer);
      if outside {
        return;
      }
      s := MixedFrame(idx * bytesPer);
    }

    /** window_fill: the window afterwards, and whether it holds anything, is as specified. */
    method WindowFill(frame: nat, needed: nat) returns (ok: bool)
      requires Tidy() && Playable(Track())
      modifies this`winStart, this`winFrames, winBuf
      ensures (WindowView(), ok) == Filled(old(WindowView()), Track(), FileOf(files, curPath), frame, needed)
    {
      hide ReadAt, Overlay, BytesPerFrame, FileOf, Playable;
      if frame >= winStart && Wrap32(frame + needed) <= Wrap32(winStart + winFrames) {
        return true;
      }
      winStart := frame;
      var b := BytesPerFrame(Track());
      var n := ReadFileAt(curPath, dataOff + frame * b, 8192 * b);
      QuotientNat(n, b);
      winFrames := n / b;
      if winFrames == 0 {
        return false;
      }
      ok := true;
    }

    /** The conversion loop of generate_chunk, which stops where a frame has no place in the buffer. */
    method ConvertFrames(done: nat, frames: nat) returns (outside: bool)
      requires Tidy() && Playable(Track()) && frames <= CHUNK_FRAMES && winStart <= SourceIndex(srcRate, done)
      requires frames > 0 ==> SourceIndex(srcRate, done + frames - 1) < U32
      modifies outChunk
      ensures outside <==> !AllPlaced(WindowView(), Track(), done, frames)
      ensures !outside ==> outChunk[..2 * frames] == Samples(WindowView(), Track(), done, frames)
    {
      hide Wrap32, SourceIndex, Sample, Playable, FileOf, InBuffer, BytesPerFrame;
      ghost var w, track := WindowView(), Track();
      outside := false;
      for i := 0 to frames
        invariant WindowView() == w && Track() == track && !outside
        invariant AllPlaced(w, track, done, i)
        invariant outChunk[..2 * i] == Samples(w, track, done, i)
      {
        IndexMono(srcRate, done, done + i);
        IndexMono(srcRate, done + i, done + frames - 1);
        var sf := Wrap32(SourceIndex(srcRate, done + i));
        var s;
        s, outside := WinSample(sf);
        assert outside <==> !Placed(w, track, done + i);
        if outside {
          return;
        }
        SamplesGrow(w, track, done, i);
        outChunk[2 * i] := s;
        outChunk[2 * i + 1] := s;
        assert outChunk[..2 * (i + 1)] == outChunk[..2 * i] + [s, s];
      }
    }

    /** generate_chunk: the next window and, unless it stays empty, the samples it gives. */
    method GenerateChunk() returns (gen: nat, outside: bool)
      requires Tidy() && Ready(View()) && streaming && outPos < outTotal
      modifies this`winStart, this`winFrames, winBuf, outChunk
      ensures Tidy()
      ensures var (w, ok) := NextWindow(old(View()));
              var n := ChunkSize(outTotal / 4 - outPos / 4);
              && WindowView() == w && gen == (if ok then 4 * n else 0)
              && (outside <==> ok && !AllPlaced(w, Track(), outPos / 4, n))
              && (ok && !outside ==> outChunk[..gen / 2] == Samples(w, Track(), outPos / 4, n))
    {
      hide Wrap32, SourceIndex, Playable, Filled, Samples, FileOf, AllPlaced;
      NextWindowReady(View());
      var framesTotal := outTotal / 4;
      var done := outPos / 4;
      var left := framesTotal - done;
      var frames := CHUNK_FRAMES;
      if left < frames {
        frames := left;
      }
      gen, outside := 0, false;
      if frames == 0 {
        return;
      }
      var first := Wrap32(SourceIndex(srcRate, done));
      var needed := Wrap32(Wrap32(SourceIndex(srcRate, done + frames)) - first + 1);
      var filled := WindowFill(first, needed);
      if !filled {
        return;
      }
      IndexMono(srcRate, done + frames - 1, done + frames);
      outside := ConvertFrames(done, frames);
      gen := frames * 4;
    }

    // ------------------------------------------------------------------ playing

    /** The output bytes the declared data makes. */
    method DeclaredOutput() returns (total: nat)
      requires Playable(Track())
      ensures total == 4 * OutFrames(Track())
    {
      var framesTotal := dataLen / BytesPerFrame(Track());
      total := (framesTotal * OUT_RATE + srcRate - 1) / srcRate * 4;
    }

    /** The part of start_play behind the file's read: the stream restarts if the header buffer says so. */
    method BeginTrack() returns (started: bool)
      requires Tidy()
      modifies this`srcRate, this`srcChannels, this`srcBits, this`dataOff, this`dataLen
      modifies this`outTotal, this`outPos, this`winStart, this`winFrames, this`streaming, this`claimed
      modifies this`origin, this`title, this`played
      ensures Tidy()
      ensures var h, track := hdrBuf[..], Accepted(hdrBuf[..], old(dataOff), old(dataLen));
              && (started <==> track.Some? && OutFrames(track.value) > 0)
              && Track() == (if track.Some? then track.value
                             else var (off, len) := DataFound(h, old(dataOff), old(dataLen));
                                  old(Track()).(dataOff := off, dataLen := len))
              && (track.Some? && !started ==> outTotal == 0)
              && (track.None? ==> outTotal == old(outTotal))
      ensures started ==> outPos == winStart == winFrames == 0 && outTotal == 4 * OutFrames(Track())
      ensures started ==>
                StreamView() == Some(Stream(FileOf(files, curPath), Track(), FileOf(files, curPath), OutFrames(Track()), 0, false, []))
      ensures !started ==>
                && streaming == old(streaming) && claimed == old(claimed) && outPos == old(outPos) && played == old(played)
                && origin == old(origin) && title == old(title) && winStart == old(winStart) && winFrames == old(winFrames)
    {
      hide ScanFrom, HasMagic, Accepted, DataFound, OutFrames, FileOf, Playable, Frames, BytesPerFrame;
      started := false;
      var ok := WavParse();
      if !ok {
        return;
      }
      outTotal := DeclaredOutput();
      if outTotal == 0 {
        return;
      }
      claimed := false;
      streaming := true;
      outPos := 0;
      winFrames := 0;
      winStart := 0;
      origin, title, played := FileOf(files, curPath), Track(), [];
      started := true;
    }

    /**
     * start_play. The path is replaced in any case; the stream is restarted exactly when the header
     * read from that path is accepted and declares at least one frame.
     */
    method StartPlay(path: Path) returns (started: bool)
      requires Tidy()
      modifies this, hdrBuf
      ensures Tidy()
      ensures Started(old(View()), files, Truncated(path))
           == if started && !Tractable(Track()) then Halted(TooLong) else Going(View())
    {
      hide HeaderBytes, Overlay, Accepted, DataFound, OutFrames, HeaderAfter, Truncated, Playable, Tractable;
      started := false;
      curPath := Truncated(path);
      var n := ReadFile(curPath);
      if n <= 44 {
        return;
      }
      started := BeginTrack();
    }

    /** The device has taken `acc` bytes, `frames` frames of the chunk. */
    method Advance(acc: nat, ghost frames: nat)
      requires Tidy() && streaming && acc == 4 * frames && frames <= CHUNK_FRAMES
      modifies this`outPos, this`played
      ensures Tidy()
      ensures var s := old(StreamView()).value;
              StreamView() == Some(s.(done := s.done + frames, given := s.given + outChunk[..2 * frames]))
    {
      hide FileOf;
      FourFold(outPos, frames);
      NothingMore(played, outChunk[..]);
      if acc != 0 {
        ghost var taken := outChunk[..2 * frames];
        played := played + taken;
        outPos := outPos + acc;
      }
    }

    /** Offers the device the next chunk and moves on by what it takes; `alive` unless it refuses. */
    method OfferChunk(reply: Reply) returns (alive: bool, halt: Option<Halt>)
      requires Tidy() && Ready(View()) && streaming && outPos < outTotal
      modifies this`winStart, this`winFrames, this`outPos, this`played, winBuf, outChunk
      ensures Tidy()
      ensures AfterOffer(old(View()), reply) == Outcome(halt, (if alive then View() else View().(stream := None), None))
    {
      hide NextWindow, Samples, FileOf, Playable, Ready, AllPlaced, AfterOffer;
      OfferIs(View(), reply);
      alive, halt := false, None;
      var gen, outside := GenerateChunk();
      if outside {
        halt := Some(Outside);
        return;
      }
      if gen == 0 {
        return;
      }
      match reply
      case Refused =>
      case Takes(frames) =>
        alive := true;
        var acc := Least(4 * frames, gen);
        ghost var taken := Least(frames, gen / 4);
        PrefixOfPrefix(outChunk[..], gen / 2, 2 * taken);
        Advance(acc, taken);
    }

    /** The streaming part of one main-loop round, and the stream that ended by itself in it. */
    method StreamStep(claimOk: bool, reply: Reply) returns (halt: Option<Halt>, ghost ended: Option<Stream>)
      requires Tidy() && Ready(View())
      modifies this`winStart, this`winFrames, this`streaming, this`claimed, this`outPos, this`played, winBuf, outChunk
      ensures Tidy() && (halt.None? ==> Ready(View()))
      ensures AfterDevice(old(View()), claimOk, reply) == Outcome(halt, (View(), ended))
    {
      hide NextWindow, Samples, FileOf, Playable, AllPlaced;
      DeviceReady(View(), claimOk, reply);
      halt, ended := None, None;
      if streaming {
        if !claimed {
          if !claimOk {
            streaming := false;
          } else {
            claimed := true;
          }
        }
        if streaming && claimed {
          if outPos >= outTotal {
            ended := StreamView();
            streaming := false;
            claimed := false;
          } else {
            var alive;
            alive, halt := OfferChunk(reply);
            if !alive {
              streaming := false;
              claimed := false;
            }
          }
        }
      }
    }

    /** One message. It halts the run if it begins a track with too many frames for 32-bit numbers. */
    method HandleCommand(c: Command) returns (halt: Option<Halt>)
      requires Tidy() && Ready(View())
      modifies this, hdrBuf
      ensures Tidy() && (halt.None? ==> Ready(View()))
      ensures AfterCommand(old(View()), files, c) == Outcome(halt, View())
    {
      hide Started, Tractable, Ready;
      CommandReady(View(), files, c);
      halt := None;
      match c
      case Stop =>
        streaming := false;
        claimed := false;
      case Play(path) =>
        if path != [] {
          var started := StartPlay(path);
          if started && !Tractable(Track()) {
            halt := Some(TooLong);
          }
        }
    }

    /** The message part of one main-loop round. */
    method HandleCommands(commands: seq<Command>) returns (halt: Option<Halt>)
      requires Tidy() && Ready(View())
      modifies this, hdrBuf
      ensures Tidy() && (halt.None? ==> Ready(View()))
      ensures CommandsFrom(old(View()), files, commands, 0) == Outcome(halt, View())
    {
      hide AfterCommand, Ready;
      halt := None;
      for i := 0 to |commands|
        invariant halt.None? && Tidy() && Ready(View())
        invariant CommandsFrom(View(), files, commands, i) == CommandsFrom(old(View()), files, commands, 0)
      {
        halt := HandleCommand(commands[i]);
        if halt.Some? {
          return;
        }
      }
    }

    /** One round of the main loop, and the streams that ended by themselves in it. */
    method OneRound(round: Round) returns (halt: Option<Halt>, ghost ended: seq<Stream>)
      requires Tidy() && Ready(View())
      modifies this, hdrBuf, winBuf, outChunk
      ensures Tidy() && (halt.None? ==> Ready(View()))
      ensures AfterRound(old(View()), files, round) == Outcome(halt, (View(), ended))
    {
      hide AfterDevice, CommandsFrom, Ready;
      ended := [];
      halt := HandleCommands(round.commands);
      if halt.Some? {
        return;
      }
      ghost var last;
      halt, last := StreamStep(round.claimed, round.reply);
      ended := if last.Some? then [last.value] else [];
    }

    /**
     * The main loop over any rounds of messages and device answers does what the machine does. In a run whose
     * failing starts are calm ones, therefore, the device has been given the beginning of the track's
     * conversion at every point, and all of it once the track has ended by itself.
     */
    method Run(rounds: seq<Round>) returns (halt: Option<Halt>, ghost log: seq<Stream>)
      requires Tidy() && Ready(View())
      modifies this, hdrBuf, winBuf, outChunk
      ensures Tidy() && (halt.None? ==> Ready(View()))
      ensures RoundsFrom(old(View()), files, rounds, 0) == Outcome(halt, (View(), log))
      ensures Safe(old(View())) && CalmRun(old(View()), files, rounds, 0) ==>
                halt != Some(Outside) && (halt.None? ==> Safe(View()) && forall e :: e in log ==> Finished(e))
    {
      hide AfterRound, Ready, Safe, CalmRun, Finished;
      if Safe(View()) && CalmRun(View(), files, rounds, 0) {
        RunSafe(View(), files, rounds, 0);
      }
      log := [];
      halt := None;
      ghost var whole := RoundsFrom(View(), files, rounds, 0);
      NothingEnded(whole);
      for i := 0 to |rounds|
        invariant halt.None? && Tidy() && Ready(View())
        invariant whole == Behind(log, RoundsFrom(View(), files, rounds, i))
      {
        ghost var before := View();
        ghost var ended;
        halt, ended := OneRound(rounds[i]);
        BehindStep(before, files, rounds, i, log);
        if halt.Some? {
          return;
        }
        log := log + ended;
      }
      NothingBehind(log, View());
    }
  }

  lemma MagicIs(h: Header)
    ensures HasMagic(h) <==> h[0] == 82 && h[1] == 73 && h[2] == 70 && h[3] == 70
                             && h[8] == 87 && h[9] == 65 && h[10] == 86 && h[11] == 69
  {
  }

  lemma NoMagic(h: Header, dataOff: nat, dataLen: nat)
    ensures !HasMagic(h) ==> Accepted(h, dataOff, dataLen) == None && DataFound(h, dataOff, dataLen) == (dataOff, dataLen)
  {
    hide HasMagic, ScanFrom;
  }

  /** What the scan does at one chunk. */
  lemma ScanStep(h: Header, pos: nat, fmt: Format, dataOff: nat, dataLen: nat)
    requires pos + 8 <= 65536
    ensures var size, body := U32At(h, pos + 4), pos + 8;
            ScanFrom(h, pos, fmt, dataOff, dataLen)
            == if IsTag(h, pos, FMT_ID) && body + 16 <= 65536 then
                 if GoodFormat(h, body) then ScanFrom(h, body + Skip(size), FormatAt(h, body), dataOff, dataLen) else Rejected
               else if IsTag(h, pos, DATA_ID) then Ended(fmt, body, size)
               else ScanFrom(h, body + Skip(size), fmt, dataOff, dataLen)
  {
    hide IsTag, U32At, Skip, GoodFormat, FormatAt;
  }

  lemma ScanStops(h: Header, pos: nat, fmt: Format, dataOff: nat, dataLen: nat)
    ensures pos + 8 > 65536 ==> ScanFrom(h, pos, fmt, dataOff, dataLen) == Ended(fmt, dataOff, dataLen)
  {
  }

  lemma ScanRejects(h: Header, dataOff: nat, dataLen: nat)
    requires HasMagic(h)
    ensures ScanFrom(h, 12, NO_FORMAT, dataOff, dataLen) == Rejected ==>
              Accepted(h, dataOff, dataLen) == None && DataFound(h, dataOff, dataLen) == (dataOff, dataLen)
  {
    hide HasMagic, ScanFrom;
  }

  lemma ScanAccepts(h: Header, off0: nat, len0: nat, fmt: Format, off: nat, len: nat)
    requires HasMagic(h) && ScanFrom(h, 12, NO_FORMAT, off0, len0) == Ended(fmt, off, len)
    ensures DataFound(h, off0, len0) == (off, len)
    ensures Accepted(h, off0, len0)
         == if len == 0 || fmt == NO_FORMAT then None else Some(Wav(fmt.rate, fmt.channels, fmt.bits, off, len))
  {
    hide HasMagic, ScanFrom;
  }

  lemma FrameSize(w: Wav)
    requires Playable(w)
    ensures w.channels == 1 ==> BytesPerFrame(w) == w.bits / 8
    ensures w.channels == 2 ==> BytesPerFrame(w) == w.bits / 8 + w.bits / 8
  {
  }

  lemma ChannelPlace(ch: nat, width: nat)
    requires ch < 2
    ensures ch * width == if ch == 0 then 0 else width
  {
  }

  lemma ChannelIs(buf: seq<byte>, q: nat, bits: nat)
    requires (bits == 8 || bits == 16) && q + bits / 8 <= |buf|
    ensures ChannelValue(buf, q, bits) == if bits == 16 then Int16(buf[q], buf[q + 1]) else (buf[q] as int - 128) * 256
  {
  }

  /** An offer with something left to give, case by case. */
  lemma OfferIs(p: Player, reply: Reply)
    requires Ready(p) && p.stream.Some? && p.stream.value.done < p.stream.value.total
    ensures var s, (w, ok), r := p.stream.value, NextWindow(p), AfterOffer(p, reply);
            var n, q := ChunkSize(s.total - s.done), p.(window := w);
            && (!ok ==> r == Going((q.(stream := None), None)))
            && (ok && !AllPlaced(w, p.format, s.done, n) ==> r == Halted(Outside))
            && (ok && AllPlaced(w, p.format, s.done, n) && reply.Refused? ==> r == Going((q.(stream := None), None)))
            && (ok && AllPlaced(w, p.format, s.done, n) && reply.Takes? ==>
                  var k := Least(reply.frames, n);
                  r == Going((q.(stream := Some(s.(done := s.done + k,
                                                  given := s.given + Samples(w, p.format, s.done, n)[..2 * k]))), None)))
  {
    hide NextWindow, Samples, AllPlaced;
  }

  lemma FourFold(x: nat, k: nat)
    requires x % 4 == 0
    ensures (x + 4 * k) % 4 == 0 && (x + 4 * k) / 4 == x / 4 + k
  {
  }

  lemma NothingMore(front: seq<int>, chunk: seq<int>)
    ensures front + chunk[..0] == front
  {
  }

  lemma PrefixOfPrefix(a: seq<int>, n: nat, m: nat)
    requires m <= n <= |a|
    ensures a[..n][..m] == a[..m]
  {
  }

  lemma QuotientNat(n: nat, b: nat)
    requires b > 0
    ensures n / b >= 0
  {
  }

  lemma SamplesGrow(w: Window, format: Wav, done: nat, i: nat)
    requires Playable(format)
    ensures var s := Sample(w, format, SourceIndex(format.rate, done + i));
            Samples(w, format, done, i + 1) == Samples(w, format, done, i) + [s, s]
  {
  }
}
