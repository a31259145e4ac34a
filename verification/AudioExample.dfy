/** A run of the audio daemon in which a failing start makes it play another file's bytes. */
module AudioExample {
  import opened AudioMath
  import opened AudioPlayer
  import opened AudioTheory
  import opened Bytes
  import opened WavHeader

  /** A chunk named "fmt ": mono, 48000 frames a second, 8 bits. */
  const FORMAT: Chunk := Chunk([102, 109, 116, 32], [1, 0, 1, 0, 128, 187, 0, 0, 128, 187, 0, 0, 1, 0, 8, 0])

  const HEAD: seq<byte> := [82, 73, 70, 70, 0, 0, 0, 0, 87, 65, 86, 69]

  /** A header, and one frame of silence in a chunk named "data". */
  const SILENCE: seq<byte> := HEAD + (Image(FORMAT) + [100, 97, 116, 97] + Le32(1)) + [128]

  /** No header, and 200 where the silence was. */
  const NOISE: seq<byte> := seq(44, _ => 0) + [200]

  const A: Path := [97]
  const B: Path := [98]
  const FILES: Files := map[A := SILENCE, B := NOISE]

  const TITLE: Wav := Wav(48000, 1, 8, 44, 1)

  lemma TitleLength()
    ensures Playable(TITLE) && Tractable(TITLE) && BytesPerFrame(TITLE) == 1 && OutFrames(TITLE) == 1
    ensures Complete(SILENCE, TITLE) && SourceIndex(48000, 0) == 0 && SourceIndex(48000, 1) == 1
  {
  }

  /** A short file stands at the beginning of the header buffer once it is read. */
  lemma ReadHeader(header: Header, file: seq<byte>)
    requires |file| == 45
    ensures |HeaderBytes(file)| == 46 && Overlay(header, HeaderBytes(file))[..45] == file
  {
    assert HeaderBytes(file) == file + [0];
  }

  lemma FormatImage()
    ensures ValidChunks([FORMAT]) && Images([FORMAT]) == Image(FORMAT)
    ensures LastFormat([FORMAT], NO_FORMAT) == Format(48000, 1, 8)
  {
    var cs := [FORMAT];
    assert cs[0] == FORMAT && cs[1..] == [];
    assert FormatAt(FORMAT.body, 0) == Format(48000, 1, 8);
  }

  lemma SilenceAccepted(header: Header, off: nat, len: nat)
    ensures Accepted(Overlay(header, HeaderBytes(SILENCE)), off, len) == Some(TITLE)
  {
    hide Accepted, DataFound, Images, LastFormat, HeaderBytes, Overlay, ValidChunk, Image, Le32;
    var h: Header := Overlay(header, HeaderBytes(SILENCE));
    var s := h[..45];
    ReadHeader(header, SILENCE);
    FormatImage();
    var chunks := Image(FORMAT) + DATA_ID + Le32(1);
    assert SILENCE == HEAD + chunks + [128];
    assert s[..12] == HEAD && s[12..44] == chunks;
    assert h[12..44] == s[12..44];
    assert forall i :: 0 <= i < 12 ==> h[i] == s[i] == s[..12][i];
    assert HEAD[0] == 82 && HEAD[1] == 73 && HEAD[2] == 70 && HEAD[3] == 70;
    assert HEAD[8] == 87 && HEAD[9] == 65 && HEAD[10] == 86 && HEAD[11] == 69;
    assert [FORMAT][0].tag == FMT_ID;
    LaidOutFileAccepted(h, [FORMAT], 1, off, len);
  }

  lemma NoiseRejected(header: Header, off: nat, len: nat)
    ensures Accepted(Overlay(header, HeaderBytes(NOISE)), off, len) == None
    ensures DataFound(Overlay(header, HeaderBytes(NOISE)), off, len) == (off, len)
  {
    hide ScanFrom, HeaderBytes, Overlay;
    var h: Header := Overlay(header, HeaderBytes(NOISE));
    var s := h[..45];
    ReadHeader(header, NOISE);
    assert s[0] == 0;
    assert h[0] == s[0];
  }

  /** Two messages, then two offers. */
  const ROUNDS: seq<Round> := [Round([Play(A), Play(B)], true, Takes(1)), Round([], true, Takes(1))]

  /** After the messages the stream is of the silence, and its path leads to the noise. */
  lemma AfterMessages(p: Player)
    requires Ready(p) && p.stream.None?
    ensures var q := CommandsFrom(p, FILES, ROUNDS[0].commands, 0);
            && q.Going? && Ready(q.value) && q.value.format == TITLE && q.value.window.frames == 0
            && q.value.stream == Some(Stream(SILENCE, TITLE, NOISE, 1, 0, false, []))
  {
    hide Accepted, DataFound, Overlay, HeaderBytes, OutFrames, Tractable;
    var cs := ROUNDS[0].commands;
    SilenceAccepted(p.header, p.format.dataOff, p.format.dataLen);
    TitleLength();
    ReadHeader(p.header, SILENCE);
    ReadHeader(p.header, NOISE);
    var q := AfterCommand(p, FILES, cs[0]).value;
    NoiseRejected(q.header, q.format.dataOff, q.format.dataLen);
    CommandsReady(p, FILES, cs, 0);
    assert CommandsFrom(p, FILES, cs, 0) == CommandsFrom(q, FILES, cs, 1);
    var r := AfterCommand(q, FILES, cs[1]).value;
    assert CommandsFrom(q, FILES, cs, 1) == CommandsFrom(r, FILES, cs, 2) == Going(r);
  }

  lemma NoiseSample(w: Window)
    requires w == Window(Overlay(w.buffer, [200]), 0, 1)
    ensures Sample(w, TITLE, 0) == 18432
  {
  }

  /** The offer is then made from the noise. */
  lemma NoiseOffered(p: Player)
    requires Ready(p) && p.format == TITLE && p.window.frames == 0
    requires p.stream == Some(Stream(SILENCE, TITLE, NOISE, 1, 0, false, []))
    ensures var r := AfterDevice(p, true, Takes(1));
            && r.Going? && r.value.1.None? && Ready(r.value.0)
            && r.value.0.stream == Some(Stream(SILENCE, TITLE, NOISE, 1, 1, true, [18432, 18432]))
  {
    hide OutFrames, Tractable, AllPlaced, Sample;
    TitleLength();
    var q := p.(stream := Some(p.stream.value.(claimed := true)));
    DeviceReady(p, true, Takes(1));
    assert NOISE[44..] == [200];
    assert RefillBytes(TITLE, NOISE, 0) == [200];
    var w := NextWindow(q).0;
    assert NextWindow(q) == (Window(Overlay(p.window.buffer, [200]), 0, 1), true);
    NoiseSample(w);
    SlowTrackStaysInside(q, Takes(1));
    assert Samples(w, TITLE, 0, 1) == [18432, 18432];
    assert [] + Samples(w, TITLE, 0, 1)[..2] == [18432, 18432];
  }

  lemma SilenceIsSilent()
    ensures Pcm(SILENCE, TITLE, 1) == [0, 0]
  {
    TitleLength();
    assert SourceSample(SILENCE, TITLE, 0) == 0;
  }

  /**
   * A track is started; before the first offer a file without a header fails to start. The device is given
   * that file's bytes, and the stream then ends as if the track had been given completely.
   */
  lemma PrefixIsLost(p: Player)
    requires Ready(p) && p.stream.None?
    ensures Pcm(SILENCE, TITLE, 1) == [0, 0]
    ensures var o := RoundsFrom(p, FILES, ROUNDS, 0);
            && o.Going? && o.value.0.stream.None?
            && o.value.1 == [Stream(SILENCE, TITLE, NOISE, 1, 1, true, [18432, 18432])]
            && !Kept(o.value.1[0]) && OutFrames(TITLE) == 1
  {
    hide CommandsFrom, OutFrames, Tractable, NextWindow, Samples, Accepted, Kept, Pcm;
    TitleLength();
    SilenceIsSilent();
    AfterMessages(p);
    var q := CommandsFrom(p, FILES, ROUNDS[0].commands, 0).value;
    NoiseOffered(q);
    var r := AfterDevice(q, true, Takes(1)).value.0;
    assert AfterRound(p, FILES, ROUNDS[0]) == Going((r, []));
    assert CommandsFrom(r, FILES, ROUNDS[1].commands, 0) == Going(r) by {
      NoMessages(r, FILES);
    }
    var t := r.(stream := None);
    var e := r.stream.value;
    assert AfterRound(r, FILES, ROUNDS[1]) == Going((t, [e]));
    assert RoundsFrom(t, FILES, ROUNDS, 2) == Going((t, []));
    NothingBehind([e], t);
    assert RoundsFrom(r, FILES, ROUNDS, 1) == Going((t, [e]));
    NothingEnded(RoundsFrom(r, FILES, ROUNDS, 1));
    KeptIsPcm(e);
  }

  lemma NoMessages(p: Player, files: Files)
    ensures CommandsFrom(p, files, [], 0) == Going(p)
  {
  }
}
