/** The RIFF/WAVE header reader of the audio daemon, over its fixed 64 KiB buffer. */
module WavHeader {
  import opened Bytes

  /** The contents of the header buffer. */
  type Header = h: seq<byte> | |h| == 65536 witness seq(65536, _ => 0)

  /** The fields of the last format chunk read; all zero while none has been. */
  datatype Format = Format(rate: nat, channels: nat, bits: nat)

  datatype Scan =
    | Rejected
    | Ended(fmt: Format, dataOff: nat, dataLen: nat)

  const FMT_ID: seq<byte> := [102, 109, 116, 32]
  const DATA_ID: seq<byte> := [100, 97, 116, 97]

  function FormatAt(h: seq<byte>, pos: nat): Format
    requires pos + 16 <= |h|
  {
    Format(U32At(h, pos + 4), U16At(h, pos + 2), U16At(h, pos + 14))
  }

  function Le16(n: nat): (b: seq<byte>)
    requires n < 65536
    ensures |b| == 2
  {
    [n % 256, n / 256]
  }

  /** The body of a format chunk, as its fields are laid out: tag, channels, rate, bytes per second and frame, bits. */
  function FormatBody(rate: nat, channels: nat, bits: nat): (b: seq<byte>)
    requires rate < U32 && channels < 65536 && bits < 65536 && rate * channels * (bits / 8) < U32 && channels * (bits / 8) < 65536
    ensures |b| == 16
  {
    Le16(1) + Le16(channels) + Le32(rate) + Le32(rate * channels * (bits / 8)) + Le16(channels * (bits / 8)) + Le16(bits)
  }

  /** Reading it gives back what was laid out. */
  lemma FormatReads(rate: nat, channels: nat, bits: nat)
    requires 0 < rate < U32 && 1 <= channels <= 2 && (bits == 8 || bits == 16) && rate * channels * (bits / 8) < U32
    ensures FormatAt(FormatBody(rate, channels, bits), 0) == Format(rate, channels, bits)
    ensures GoodFormat(FormatBody(rate, channels, bits), 0)
  {
    hide Le32;
    var b := FormatBody(rate, channels, bits);
    assert b[4..8] == Le32(rate);
    Le32Reads(b, 4, rate);
  }

  predicate GoodFormat(h: seq<byte>, pos: nat)
    requires pos + 16 <= |h|
  {
    var f := FormatAt(h, pos);
    U16At(h, pos) == 1 && 1 <= f.channels <= 2 && (f.bits == 8 || f.bits == 16) && f.rate != 0
  }

  predicate IsTag(h: seq<byte>, i: nat, tag: seq<byte>)
    requires |tag| == 4 && i + 4 <= |h|
  {
    h[i] == tag[0] && h[i + 1] == tag[1] && h[i + 2] == tag[2] && h[i + 3] == tag[3]
  }

  /** How far the reader moves past a chunk body of `size` bytes, in 32-bit arithmetic. */
  function Skip(size: nat): nat {
    Wrap32(size + size % 2)
  }

  /** Reading chunk after chunk from `pos`, with what has been found so far. */
  function ScanFrom(h: Header, pos: nat, fmt: Format, dataOff: nat, dataLen: nat): Scan
    decreases 65536 - pos
  {
    if pos + 8 > 65536 then Ended(fmt, dataOff, dataLen)
    else
      var size := U32At(h, pos + 4);
      var body := pos + 8;
      if IsTag(h, pos, FMT_ID) && body + 16 <= 65536 then
        if GoodFormat(h, body) then ScanFrom(h, body + Skip(size), FormatAt(h, body), dataOff, dataLen) else Rejected
      else if IsTag(h, pos, DATA_ID) then Ended(fmt, body, size)
      else ScanFrom(h, body + Skip(size), fmt, dataOff, dataLen)
  }

  predicate HasMagic(h: Header) {
    IsTag(h, 0, [82, 73, 70, 70]) && IsTag(h, 8, [87, 65, 86, 69])
  }

  const NO_FORMAT: Format := Format(0, 0, 0)

  // -------------------------------------------------------------- well-laid files

  /** A chunk of a RIFF file. */
  datatype Chunk = Chunk(tag: seq<byte>, body: seq<byte>)

  ghost predicate ValidChunk(c: Chunk) {
    |c.tag| == 4 && |c.body| < 0x8000_0000 && c.tag != DATA_ID
    && (c.tag == FMT_ID ==> |c.body| >= 16 && GoodFormat(c.body, 0))
  }

  function Image(c: Chunk): (b: seq<byte>)
    requires |c.tag| == 4 && |c.body| < U32
    ensures |b| == 8 + |c.body| + |c.body| % 2
  {
    c.tag + Le32(|c.body|) + c.body + (if |c.body| % 2 == 1 then [0] else [])
  }

  ghost predicate ValidChunks(cs: seq<Chunk>) {
    forall k :: 0 <= k < |cs| ==> ValidChunk(cs[k])
  }

  ghost function Images(cs: seq<Chunk>): seq<byte>
    requires ValidChunks(cs)
  {
    if cs == [] then [] else Image(cs[0]) + Images(cs[1..])
  }

  /** The format chunk that counts: the last one. */
  ghost function LastFormat(cs: seq<Chunk>, fmt: Format): Format
    requires ValidChunks(cs)
  {
    if cs == [] then fmt
    else LastFormat(cs[1..], if cs[0].tag == FMT_ID then FormatAt(cs[0].body, 0) else fmt)
  }

  lemma TagReads(h: seq<byte>, i: nat, tag: seq<byte>, other: seq<byte>)
    requires |tag| == 4 && |other| == 4 && i + 4 <= |h| && h[i..i + 4] == tag
    ensures IsTag(h, i, other) <==> tag == other
  {
    var b := h[i..i + 4];
    assert h[i] == b[0] && h[i + 1] == b[1] && h[i + 2] == b[2] && h[i + 3] == b[3];
  }

  lemma BodyReads(h: seq<byte>, i: nat, body: seq<byte>)
    requires |body| >= 16 && i + |body| <= |h| && h[i..i + |body|] == body
    ensures FormatAt(h, i) == FormatAt(body, 0) && (GoodFormat(h, i) <==> GoodFormat(body, 0))
  {
    var b := h[i..i + |body|];
    assert h[i] == b[0] && h[i + 1] == b[1] && h[i + 2] == b[2] && h[i + 3] == b[3] && h[i + 4] == b[4]
        && h[i + 5] == b[5] && h[i + 6] == b[6] && h[i + 7] == b[7] && h[i + 14] == b[14] && h[i + 15] == b[15];
  }

  /** Where the parts of one chunk image land in the buffer. */
  lemma ImageParts(h: Header, pos: nat, c: Chunk)
    requires |c.tag| == 4 && |c.body| < U32 && pos + |Image(c)| <= 65536
    requires h[pos..pos + |Image(c)|] == Image(c)
    ensures h[pos..pos + 4] == c.tag && h[pos + 4..pos + 8] == Le32(|c.body|)
    ensures h[pos + 8..pos + 8 + |c.body|] == c.body
  {
    var b := h[pos..pos + |Image(c)|];
    assert b[0..4] == c.tag && b[4..8] == Le32(|c.body|) && b[8..8 + |c.body|] == c.body;
    SliceOfSlice(h, pos, pos + |b|, 0, 4);
    SliceOfSlice(h, pos, pos + |b|, 4, 8);
    SliceOfSlice(h, pos, pos + |b|, 8, 8 + |c.body|);
  }

  lemma ScanOneChunk(h: Header, pos: nat, c: Chunk, fmt: Format, dataOff: nat, dataLen: nat)
    requires ValidChunk(c) && pos + |Image(c)| <= 65536 && h[pos..pos + |Image(c)|] == Image(c)
    ensures ScanFrom(h, pos, fmt, dataOff, dataLen)
         == ScanFrom(h, pos + |Image(c)|, if c.tag == FMT_ID then FormatAt(c.body, 0) else fmt, dataOff, dataLen)
  {
    ImageParts(h, pos, c);
    TagReads(h, pos, c.tag, FMT_ID);
    TagReads(h, pos, c.tag, DATA_ID);
    Le32Reads(h, pos + 4, |c.body|);
    assert Skip(|c.body|) == |c.body| + |c.body| % 2;
    if c.tag == FMT_ID {
      BodyReads(h, pos + 8, c.body);
    }
  }

  lemma ScanData(h: Header, pos: nat, size: nat, fmt: Format, dataOff: nat, dataLen: nat)
    requires size < U32 && pos + 8 <= 65536 && h[pos..pos + 8] == DATA_ID + Le32(size)
    ensures ScanFrom(h, pos, fmt, dataOff, dataLen) == Ended(fmt, pos + 8, size)
  {
    var all := h[pos..pos + 8];
    assert all[0..4] == DATA_ID && all[4..8] == Le32(size);
    SliceOfSlice(h, pos, pos + 8, 0, 4);
    SliceOfSlice(h, pos, pos + 8, 4, 8);
    TagReads(h, pos, DATA_ID, FMT_ID);
    TagReads(h, pos, DATA_ID, DATA_ID);
    Le32Reads(h, pos + 4, size);
  }

  lemma SliceParts(h: seq<byte>, pos: nat, a: seq<byte>, b: seq<byte>)
    requires pos + |a| + |b| <= |h| && h[pos..pos + |a| + |b|] == a + b
    ensures h[pos..pos + |a|] == a && h[pos + |a|..pos + |a| + |b|] == b
  {
    var all := h[pos..pos + |a| + |b|];
    SliceOfSlice(h, pos, pos + |all|, 0, |a|);
    SliceOfSlice(h, pos, pos + |all|, |a|, |all|);
    assert all[0..|a|] == a && all[|a|..|all|] == b;
  }

  /**
   * Whatever well-formed chunks precede the data chunk, the reader finds the last format chunk,
   * and the offset and declared size of the data.
   */
  lemma {:induction false} ScanFindsData(h: Header, pos: nat, cs: seq<Chunk>, size: nat, fmt: Format, dataOff: nat, dataLen: nat)
    requires size < U32 && ValidChunks(cs)
    requires pos + |Images(cs)| + 8 <= 65536
    requires h[pos..pos + |Images(cs)| + 8] == Images(cs) + DATA_ID + Le32(size)
    ensures ScanFrom(h, pos, fmt, dataOff, dataLen) == Ended(LastFormat(cs, fmt), pos + |Images(cs)| + 8, size)
    decreases |cs|
  {
    hide ScanFrom, FormatAt, GoodFormat, Image, Le32;
    var end := DATA_ID + Le32(size);
    assert Images(cs) + DATA_ID + Le32(size) == Images(cs) + end;
    if cs == [] {
      assert Images(cs) + end == end;
      ScanData(h, pos, size, fmt, dataOff, dataLen);
    } else {
      var im, rest := Image(cs[0]), Images(cs[1..]);
      assert Images(cs) + end == im + (rest + end);
      assert rest + DATA_ID + Le32(size) == rest + end;
      SliceParts(h, pos, im, rest + end);
      ScanOneChunk(h, pos, cs[0], fmt, dataOff, dataLen);
      ScanFindsData(h, pos + |im|, cs[1..], size, if cs[0].tag == FMT_ID then FormatAt(cs[0].body, 0) else fmt, dataOff, dataLen);
    }
  }
}
