/**
 * The audio daemon as a machine on values: what messages, reads and device answers do to its state. The
 * daemon's methods refine it, and its theory says what the device has been given.
 */
module AudioPlayer {
  import opened Arith
  import opened AudioMath
  import opened Bytes
  import opened WavHeader

  type Path = CString

  type Files = map<Path, seq<byte>>

  /** Why a run is not followed further: frame numbers would wrap, or a sample was read outside the window buffer. */
  datatype Halt = TooLong | Outside

  datatype Progress<+T> = Going(value: T) | Halted(why: Halt)

  function Outcome<T>(halt: Option<Halt>, value: T): Progress<T> {
    if halt.None? then Going(value) else Halted(halt.value)
  }

  /** What the device answers when offered a chunk: it refuses, or takes so many whole frames of it. */
  datatype Reply = Refused | Takes(frames: nat)

  datatype Command = Play(path: Path) | Stop

  /** One round of the daemon's main loop: the messages waiting, and the device's answers. */
  datatype Round = Round(commands: seq<Command>, claimed: bool, reply: Reply)

  /** The contents of the window buffer. */
  type Buffer = b: seq<byte> | |b| == 32768 witness seq(32768, _ => 0)

  /** The buffer, the source frame its first bytes show, and how many whole frames were read into it. */
  datatype Window = Window(buffer: Buffer, start: nat, frames: nat)

  /**
   * A track being streamed. `origin` and `title` are the file it was started from and the format its
   * header declared; `source` is the file the daemon's path now leads to, empty when there is none. The
   * frames are output frames, and `given` is everything the device has accepted.
   */
  datatype Stream = Stream(origin: seq<byte>, title: Wav, source: seq<byte>, total: nat, done: nat, claimed: bool,
                           given: seq<int>)

  /** The header buffer, the format fields and the window outlive a track. */
  datatype Player = Player(header: Header, format: Wav, window: Window, stream: Option<Stream>)

  // -------------------------------------------------------------------- reading files

  /** What a copy into a 128-byte buffer keeps of a path. */
  function Truncated(path: Path): (p: Path)
    ensures |p| <= 127 && p <= path
  {
    if |path| <= 127 then path else path[..127]
  }

  function FileOf(files: Files, path: Path): seq<byte> {
    if path in files then files[path] else []
  }

  /** The bytes a positioned read of at most `cap` bytes returns: none past the end. */
  function ReadAt(file: seq<byte>, off: nat, cap: nat): (bytes: seq<byte>)
    ensures |bytes| <= cap
  {
    if off >= |file| then [] else if |file| - off <= cap then file[off..] else file[off..off + cap]
  }

  /** `buf` with its first bytes replaced by `bytes`. */
  function Overlay(buf: seq<byte>, bytes: seq<byte>): (r: seq<byte>)
    requires |bytes| <= |buf|
    ensures |r| == |buf|
  {
    bytes + buf[|bytes|..]
  }

  /** A whole-file read leaves room for the terminator it puts behind the bytes. */
  function HeaderBytes(file: seq<byte>): (bytes: seq<byte>)
    ensures 0 < |bytes| <= 65536
  {
    (if |file| >= 65536 then file[..65535] else file) + [0]
  }

  function HeaderAfter(header: Header, files: Files, path: Path): Header {
    if path in files then Overlay(header, HeaderBytes(files[path])) else header
  }

  // ------------------------------------------------------------------------- headers

  /** Where the daemon takes the sample data to be after reading a header. */
  function DataFound(h: Header, dataOff: nat, dataLen: nat): (nat, nat) {
    if !HasMagic(h) then (dataOff, dataLen)
    else
      match ScanFrom(h, 12, NO_FORMAT, dataOff, dataLen)
      case Rejected => (dataOff, dataLen)
      case Ended(_, off, len) => (off, len)
  }

  /** The track a header is accepted as, given where the daemon last found sample data. */
  function Accepted(h: Header, dataOff: nat, dataLen: nat): (r: Option<Wav>)
    ensures r.Some? ==> Playable(r.value)
  {
    if !HasMagic(h) then None
    else
      ScanGoodFormat(h, 12, NO_FORMAT, dataOff, dataLen);
      match ScanFrom(h, 12, NO_FORMAT, dataOff, dataLen)
      case Rejected => None
      case Ended(fmt, off, len) =>
        if len == 0 || fmt == NO_FORMAT then None else Some(Wav(fmt.rate, fmt.channels, fmt.bits, off, len))
  }

  lemma {:induction false} ScanGoodFormat(h: Header, pos: nat, fmt: Format, dataOff: nat, dataLen: nat)
    requires fmt == NO_FORMAT || Playable(Wav(fmt.rate, fmt.channels, fmt.bits, dataOff, dataLen))
    ensures var r := ScanFrom(h, pos, fmt, dataOff, dataLen);
            r.Ended? && r.fmt != NO_FORMAT ==> Playable(Wav(r.fmt.rate, r.fmt.channels, r.fmt.bits, r.dataOff, r.dataLen))
    decreases 65536 - pos
  {
    if pos + 8 <= 65536 {
      var body := pos + 8;
      var next := body + Skip(U32At(h, pos + 4));
      if IsTag(h, pos, FMT_ID) && body + 16 <= 65536 {
        if GoodFormat(h, body) {
          ScanGoodFormat(h, next, FormatAt(h, body), dataOff, dataLen);
        }
      } else if !IsTag(h, pos, DATA_ID) {
        ScanGoodFormat(h, next, fmt, dataOff, dataLen);
      }
    }
  }

  /** Every file laid out as chunks with a valid format chunk before its data is accepted as what it says. */
  lemma LaidOutFileAccepted(h: Header, cs: seq<Chunk>, size: nat, dataOff: nat, dataLen: nat)
    requires HasMagic(h) && 0 < size < U32 && ValidChunks(cs)
    requires 12 + |Images(cs)| + 8 <= 65536
    requires h[12..12 + |Images(cs)| + 8] == Images(cs) + DATA_ID + Le32(size)
    requires exists k :: 0 <= k < |cs| && cs[k].tag == FMT_ID
    ensures var f := LastFormat(cs, NO_FORMAT);
            Accepted(h, dataOff, dataLen) == Some(Wav(f.rate, f.channels, f.bits, 20 + |Images(cs)|, size))
            && DataFound(h, dataOff, dataLen) == (20 + |Images(cs)|, size)
  {
    hide ScanFrom, Images, LastFormat, Le32, HasMagic, ValidChunk;
    ScanFindsData(h, 12, cs, size, NO_FORMAT, dataOff, dataLen);
    LastFormatReal(cs, NO_FORMAT);
  }

  lemma {:induction false} LastFormatReal(cs: seq<Chunk>, fmt: Format)
    requires ValidChunks(cs) && ((exists k :: 0 <= k < |cs| && cs[k].tag == FMT_ID) || fmt != NO_FORMAT)
    ensures LastFormat(cs, fmt) != NO_FORMAT
    decreases |cs|
  {
    if cs != [] {
      if cs[0].tag != FMT_ID && fmt == NO_FORMAT {
        var k :| 0 <= k < |cs| && cs[k].tag == FMT_ID;
        assert cs[1..][k - 1] == cs[k];
      }
      LastFormatReal(cs[1..], if cs[0].tag == FMT_ID then FormatAt(cs[0].body, 0) else fmt);
    }
  }

  // ------------------------------------------------------------------------ the window

  /** What a refill from source frame `first` on reads. */
  function RefillBytes(format: Wav, source: seq<byte>, first: nat): (bytes: seq<byte>)
    requires Playable(format)
    ensures |bytes| <= 32768
  {
    var b := BytesPerFrame(format);
    ReadAt(source, format.dataOff + first * b, 8192 * b)
  }

  /** The window after `needed` frames from `first` on were asked for, in 32-bit sums, and whether it holds any. */
  function Filled(w: Window, format: Wav, source: seq<byte>, first: nat, needed: nat): (Window, bool)
    requires Playable(format)
  {
    if first >= w.start && Wrap32(first + needed) <= Wrap32(w.start + w.frames) then (w, true)
    else
      var bytes := RefillBytes(format, source, first);
      var n := |bytes| / BytesPerFrame(format);
      (Window(Overlay(w.buffer, bytes), first, n), n > 0)
  }

  /** The `idx`-th frame of `b` bytes lies inside the window buffer. */
  predicate InBuffer(idx: nat, b: nat) {
    idx * b + b <= 32768
  }

  /** The window buffer has a place for the source frame that output frame `k` shows. */
  predicate Placed(w: Window, format: Wav, k: nat) {
    var frame := SourceIndex(format.rate, k);
    w.start <= frame && InBuffer(frame - w.start, BytesPerFrame(format))
  }

  /** What the window has in place of a source frame, mixed down. */
  function Sample(w: Window, format: Wav, frame: nat): int
    requires Playable(format)
  {
    if w.start <= frame && InBuffer(frame - w.start, BytesPerFrame(format)) then
      FrameValue(w.buffer, (frame - w.start) * BytesPerFrame(format), format.channels, format.bits)
    else 0
  }

  /** `n` output frames from `done` on, both channels alike, through the window. */
  function Samples(w: Window, format: Wav, done: nat, n: nat): (pcm: seq<int>)
    requires Playable(format)
    ensures |pcm| == 2 * n
  {
    seq(2 * n, j requires 0 <= j < 2 * n => Sample(w, format, SourceIndex(format.rate, done + j / 2)))
  }

  /** How many of `left` remaining frames the next chunk holds. */
  function ChunkSize(left: int): int {
    if left < CHUNK_FRAMES then left else CHUNK_FRAMES
  }

  /** The source frames the next chunk starts with and asks for. */
  function FirstFrame(p: Player): nat
    requires p.stream.Some?
  {
    SourceIndex(p.format.rate, p.stream.value.done)
  }

  function FramesNeeded(p: Player): int
    requires p.stream.Some? && p.stream.value.done < p.stream.value.total
  {
    var s := p.stream.value;
    SourceIndex(p.format.rate, s.done + ChunkSize(s.total - s.done)) - FirstFrame(p) + 1
  }

  /** The window the next chunk is made from. */
  function NextWindow(p: Player): (Window, bool)
    requires p.stream.Some? && p.stream.value.done < p.stream.value.total && Playable(p.format)
  {
    IndexMono(p.format.rate, p.stream.value.done,
              p.stream.value.done + ChunkSize(p.stream.value.total - p.stream.value.done));
    Filled(p.window, p.format, p.stream.value.source, FirstFrame(p), FramesNeeded(p))
  }

  // ------------------------------------------------------------------------- the steps

  /** The tracks whose frame numbers fit 32 bits, up to a window past the last frame asked for. */
  predicate Tractable(w: Wav) {
    Playable(w) && Frames(w) + w.rate / OUT_RATE + WIN_FRAMES < U32
  }

  function Redirected(stream: Option<Stream>, source: seq<byte>): Option<Stream> {
    if stream.Some? then Some(stream.value.(source := source)) else None
  }

  function Emptied(stream: Option<Stream>): Option<Stream> {
    if stream.Some? then Some(stream.value.(total := 0)) else None
  }

  /** How starting a file comes out. */
  datatype Start =
    | Unread                        // no such file, or too short to hold a header
    | Unaccepted(off: nat, len: nat) // the header was rejected, after it may have moved the data position
    | Empty(track: Wav)             // accepted, but without a frame
    | Begun(track: Wav)

  function StartOf(p: Player, files: Files, path: Path): (r: Start)
    ensures r.Empty? || r.Begun? ==> Playable(r.track)
    ensures r.Begun? ==> path in files && OutFrames(r.track) > 0
  {
    if path !in files || |HeaderBytes(files[path])| - 1 <= 44 then Unread
    else
      var h := HeaderAfter(p.header, files, path);
      var (off, len) := DataFound(h, p.format.dataOff, p.format.dataLen);
      match Accepted(h, p.format.dataOff, p.format.dataLen)
      case None => Unaccepted(off, len)
      case Some(track) => if OutFrames(track) == 0 then Empty(track) else Begun(track)
  }

  /** The state after a start, whose path is replaced in any case. */
  function Started(p: Player, files: Files, path: Path): Progress<Player> {
    var q := p.(header := HeaderAfter(p.header, files, path), stream := Redirected(p.stream, FileOf(files, path)));
    match StartOf(p, files, path)
    case Unread => Going(q)
    case Unaccepted(off, len) => Going(q.(format := p.format.(dataOff := off, dataLen := len)))
    case Empty(track) => Going(q.(format := track, stream := Emptied(q.stream)))
    case Begun(track) =>
      if Tractable(track) then
        Going(Player(q.header, track, p.window.(start := 0, frames := 0),
                     Some(Stream(files[path], track, files[path], OutFrames(track), 0, false, []))))
      else Halted(TooLong)
  }

  function AfterCommand(p: Player, files: Files, c: Command): Progress<Player> {
    match c
    case Stop => Going(p.(stream := None))
    case Play(path) => if path == [] then Going(p) else Started(p, files, Truncated(path))
  }

  function CommandsFrom(p: Player, files: Files, cs: seq<Command>, i: nat): Progress<Player>
    requires i <= |cs|
    decreases |cs| - i
  {
    if i == |cs| then Going(p)
    else
      var q := AfterCommand(p, files, cs[i]);
      if q.Halted? then q else CommandsFrom(q.value, files, cs, i + 1)
  }

  function Least(a: int, b: int): int {
    if a < b then a else b
  }

  /** One offer of a claimed stream to the device, and the stream that thereby ended by itself, if one did. */
  function AfterOffer(p: Player, reply: Reply): Progress<(Player, Option<Stream>)>
    requires p.stream.Some? && Playable(p.format)
  {
    var s := p.stream.value;
    if s.done >= s.total then Going((p.(stream := None), Some(s)))
    else
      var (w, ok) := NextWindow(p);
      var q := p.(window := w);
      var n := ChunkSize(s.total - s.done);
      if !ok then Going((q.(stream := None), None))
      else if !AllPlaced(w, p.format, s.done, n) then Halted(Outside)
      else
        match reply
        case Refused => Going((q.(stream := None), None))
        case Takes(frames) =>
          var k := Least(frames, n);
          var given := s.given + Samples(w, p.format, s.done, n)[..2 * k];
          Going((q.(stream := Some(s.(done := s.done + k, given := given))), None))
  }

  predicate AllPlaced(w: Window, format: Wav, done: nat, n: nat) {
    forall k: nat :: done <= k < done + n ==> Placed(w, format, k)
  }

  /** The device's part of a round: a stream is claimed first, and ends if it cannot be. */
  function AfterDevice(p: Player, claimOk: bool, reply: Reply): Progress<(Player, Option<Stream>)>
    requires Ready(p)
  {
    if p.stream.None? then Going((p, None))
    else if !p.stream.value.claimed && !claimOk then Going((p.(stream := None), None))
    else AfterOffer(p.(stream := Some(p.stream.value.(claimed := true))), reply)
  }

  /** One round of messages and one offer: where it leads, and the streams that ended by themselves in it. */
  function AfterRound(p: Player, files: Files, round: Round): Progress<(Player, seq<Stream>)>
    requires Ready(p)
  {
    CommandsReady(p, files, round.commands, 0);
    var q := CommandsFrom(p, files, round.commands, 0);
    if q.Halted? then Halted(q.why)
    else
      var r := AfterDevice(q.value, round.claimed, round.reply);
      if r.Halted? then Halted(r.why)
      else Going((r.value.0, if r.value.1.Some? then [r.value.1.value] else []))
  }

  function RoundsFrom(p: Player, files: Files, rounds: seq<Round>, i: nat): Progress<(Player, seq<Stream>)>
    requires Ready(p) && i <= |rounds|
    decreases |rounds| - i
  {
    if i == |rounds| then Going((p, []))
    else
      RoundReady(p, files, rounds[i]);
      var q := AfterRound(p, files, rounds[i]);
      if q.Halted? then q else Behind(q.value.1, RoundsFrom(q.value.0, files, rounds, i + 1))
  }

  function Behind(ended: seq<Stream>, o: Progress<(Player, seq<Stream>)>): Progress<(Player, seq<Stream>)> {
    if o.Halted? then o else Going((o.value.0, ended + o.value.1))
  }

  lemma NothingEnded(o: Progress<(Player, seq<Stream>)>)
    ensures Behind([], o) == o
  {
    if o.Going? {
      assert [] + o.value.1 == o.value.1;
    }
  }

  lemma NothingBehind(ended: seq<Stream>, p: Player)
    ensures Behind(ended, Going((p, []))) == Going((p, ended))
  {
    assert ended + [] == ended;
  }

  lemma BehindStep(p: Player, files: Files, rounds: seq<Round>, i: nat, log: seq<Stream>)
    requires Ready(p) && i < |rounds|
    ensures var q := AfterRound(p, files, rounds[i]);
            && (q.Going? ==> Ready(q.value.0))
            && Behind(log, RoundsFrom(p, files, rounds, i))
            == if q.Halted? then q else Behind(log + q.value.1, RoundsFrom(q.value.0, files, rounds, i + 1))
  {
    RoundReady(p, files, rounds[i]);
    var q := AfterRound(p, files, rounds[i]);
    if q.Going? {
      var rest := RoundsFrom(q.value.0, files, rounds, i + 1);
      if rest.Going? {
        assert log + (q.value.1 + rest.value.1) == log + q.value.1 + rest.value.1;
      }
    }
  }

  // ------------------------------------------------------- what every run keeps of it

  /**
   * What every step keeps: the stream is of a tractable track; unless it has been emptied, the format
   * fields that matter for sampling are the track's, and the window lies where 32 bits reach.
   */
  predicate Ready(p: Player) {
    p.stream.Some? ==>
      var s := p.stream.value;
      && Playable(p.format) && Tractable(s.title) && s.done <= OutFrames(s.title) && 0 < OutFrames(s.title)
      && (s.total == 0 ||
          (&& s.total == OutFrames(s.title) && SameShape(p.format, s.title)
           && p.window.frames <= WIN_FRAMES && p.window.start <= Frames(s.title)))
  }

  /** The same rate, channels and sample size; the data may lie elsewhere. */
  predicate SameShape(a: Wav, b: Wav) {
    a.rate == b.rate && a.channels == b.channels && a.bits == b.bits
  }

  lemma ChunkBounds(w: Wav, done: nat, frames: nat)
    requires Playable(w) && 0 < frames && done + frames <= OutFrames(w)
    ensures SourceIndex(w.rate, done) < Frames(w)
    ensures SourceIndex(w.rate, done) <= SourceIndex(w.rate, done + frames) <= Frames(w) + w.rate / OUT_RATE + 1
  {
    IndexInSource(w, done);
    IndexMono(w.rate, done, done + frames);
    IndexMono(w.rate, done + frames, OutFrames(w));
    var f, r, n := Frames(w), w.rate, OutFrames(w);
    DivUnique(f * 48000 + r - 1, r, n);
    assert n * r == r * n <= f * 48000 + r - 1;
    DivMono(n * r, f * 48000 + r, 48000);
    DivUnique(r, 48000, r / 48000);
    DivUnique(f * 48000 + r, 48000, f + r / 48000);
  }

  /** A refill reads at most a windowful of whole frames. */
  lemma RefillSize(format: Wav, source: seq<byte>, first: nat)
    requires Playable(format)
    ensures 0 <= |RefillBytes(format, source, first)| / BytesPerFrame(format) <= WIN_FRAMES
  {
    var b := BytesPerFrame(format);
    DivMono(|RefillBytes(format, source, first)|, 8192 * b, b);
    DivUnique(8192 * b, b, 8192);
    DivMono(0, |RefillBytes(format, source, first)|, b);
    DivUnique(0, b, 0);
  }

  /** The next chunk is not made from the window as it is. */
  predicate Refills(p: Player)
    requires p.stream.Some? && p.stream.value.done < p.stream.value.total
  {
    !(FirstFrame(p) >= p.window.start && FirstFrame(p) + FramesNeeded(p) <= p.window.start + p.window.frames)
  }

  /** The next window starts at or before the next chunk's frames, and its place stays where 32 bits reach. */
  lemma NextWindowReady(p: Player)
    requires Ready(p) && p.stream.Some? && p.stream.value.done < p.stream.value.total
    ensures Ready(p.(window := NextWindow(p).0)) && NextWindow(p).0.start <= FirstFrame(p)
    ensures var t := p.stream.value.title;
            && FirstFrame(p) < Frames(t) && 0 < FramesNeeded(p)
            && FirstFrame(p) + FramesNeeded(p) <= Frames(t) + t.rate / OUT_RATE + 2
    ensures NextWindow(p)
         == if !Refills(p) then (p.window, true)
            else
              var bytes := RefillBytes(p.format, p.stream.value.source, FirstFrame(p));
              var n := |bytes| / BytesPerFrame(p.format);
              (Window(Overlay(p.window.buffer, bytes), FirstFrame(p), n), n > 0)
  {
    hide RefillBytes, SourceIndex, OutFrames, Frames, Overlay;
    var s := p.stream.value;
    ChunkBounds(s.title, s.done, ChunkSize(s.total - s.done));
    RefillSize(p.format, s.source, FirstFrame(p));
  }

  lemma CommandReady(p: Player, files: Files, c: Command)
    requires Ready(p)
    ensures AfterCommand(p, files, c).Going? ==> Ready(AfterCommand(p, files, c).value)
  {
    hide HeaderAfter, DataFound, Accepted, OutFrames;
  }

  lemma {:induction false} CommandsReady(p: Player, files: Files, cs: seq<Command>, i: nat)
    requires Ready(p) && i <= |cs|
    ensures CommandsFrom(p, files, cs, i).Going? ==> Ready(CommandsFrom(p, files, cs, i).value)
    decreases |cs| - i
  {
    hide AfterCommand, Ready;
    if i < |cs| {
      CommandReady(p, files, cs[i]);
      var q := AfterCommand(p, files, cs[i]);
      if q.Going? {
        CommandsReady(q.value, files, cs, i + 1);
      }
    }
  }

  lemma DeviceReady(p: Player, claimOk: bool, reply: Reply)
    requires Ready(p)
    ensures AfterDevice(p, claimOk, reply).Going? ==> Ready(AfterDevice(p, claimOk, reply).value.0)
  {
    hide NextWindow, Samples, OutFrames, Frames, AllPlaced;
    if p.stream.Some? && p.stream.value.done < p.stream.value.total {
      NextWindowReady(p.(stream := Some(p.stream.value.(claimed := true))));
    }
  }

  lemma RoundReady(p: Player, files: Files, round: Round)
    requires Ready(p)
    ensures AfterRound(p, files, round).Going? ==> Ready(AfterRound(p, files, round).value.0)
  {
    hide CommandsFrom, AfterDevice, Ready;
    CommandsReady(p, files, round.commands, 0);
    var q := CommandsFrom(p, files, round.commands, 0);
    if q.Going? {
      DeviceReady(q.value, round.claimed, round.reply);
    }
  }
}
