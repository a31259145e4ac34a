/** The library's icon decoder: what it chooses, what it writes, and when it reads outside the file. */
module Ico {
  import opened Arith
  import opened Bytes

  datatype Pixel = Pixel(r: byte, g: byte, b: byte, a: byte)

  // ------------------------------------------------------------ reading a directory

  /** A 32-bit word read as a signed number. */
  function ToInt32(u: nat): int {
    if u >= 0x8000_0000 then u - 0x1_0000_0000 else u
  }

  /** Negation of a 32-bit signed number; the least one is its own negation. */
  function Neg32(x: int): int {
    if x == -0x8000_0000 then x else -x
  }

  /** Both are those of two's complement: a word reads as the number it was cut from, and as its negation cut to a word. */
  lemma SignedWords(x: int)
    requires -0x8000_0000 <= x < 0x8000_0000
    ensures ToInt32(Wrap32(x)) == x && Neg32(x) == ToInt32(Wrap32(-x))
  {
  }

  /** The file has the icon magic, and its whole directory is there. */
  predicate HasDirectory(f: seq<byte>) {
    && |f| >= 6 && U16At(f, 0) == 0 && U16At(f, 2) == 1
    && U16At(f, 4) != 0 && 6 + U16At(f, 4) * 16 <= |f|
  }

  function Count(f: seq<byte>): nat
    requires HasDirectory(f)
  {
    U16At(f, 4)
  }

  function EntryBytes(f: seq<byte>, i: nat): nat
    requires HasDirectory(f) && i < Count(f)
  {
    U32At(f, 6 + i * 16 + 8)
  }

  function EntryOff(f: seq<byte>, i: nat): nat
    requires HasDirectory(f) && i < Count(f)
  {
    U32At(f, 6 + i * 16 + 12)
  }

  /** The size the directory claims, a zero byte standing for 256. */
  function Area(f: seq<byte>, i: nat): (a: nat)
    requires HasDirectory(f) && i < Count(f)
    ensures a > 0
  {
    var w := if f[6 + i * 16] == 0 then 256 else f[6 + i * 16] as int;
    var h := if f[6 + i * 16 + 1] == 0 then 256 else f[6 + i * 16 + 1] as int;
    SquarePositive(w, h);
    w * h
  }

  /** Sides of 1 to 256 pixels, each written in one byte, give their product. */
  lemma SidesWritten(f: seq<byte>, i: nat, w: nat, h: nat)
    requires HasDirectory(f) && i < Count(f) && 1 <= w <= 256 && 1 <= h <= 256
    requires f[6 + i * 16] == w % 256 && f[6 + i * 16 + 1] == h % 256
    ensures Area(f, i) == w * h
  {
    hide Count;
    assert (w % 256 == 0 <==> w == 256) && (h % 256 == 0 <==> h == 256);
  }

  lemma SquarePositive(w: int, h: int)
    requires w > 0 && h > 0
    ensures w * h > 0
  {
  }

  /** The size test on an entry, whose sum of offset and size is taken in 32 bits. */
  predicate Admitted(f: seq<byte>, i: nat)
    requires HasDirectory(f) && i < Count(f)
  {
    EntryBytes(f, i) >= 40 && Wrap32(EntryOff(f, i) + EntryBytes(f, i)) <= |f|
  }

  /** The entry's bytes really are in the file. */
  predicate InFile(f: seq<byte>, i: nat)
    requires HasDirectory(f) && i < Count(f)
  {
    EntryBytes(f, i) >= 40 && EntryOff(f, i) + EntryBytes(f, i) <= |f|
  }

  // The fields of a bitmap header, of which the decoder looks at the first twenty bytes.

  function HeaderSize(f: seq<byte>, off: nat): nat
    requires off + 4 <= |f|
  {
    U32At(f, off)
  }

  function DibWidth(f: seq<byte>, off: nat): int
    requires off + 20 <= |f|
  {
    ToInt32(U32At(f, off + 4))
  }

  function DibHeight(f: seq<byte>, off: nat): int
    requires off + 12 <= |f|
  {
    ToInt32(U32At(f, off + 8))
  }

  function Depth(f: seq<byte>, off: nat): nat
    requires off + 16 <= |f|
  {
    U16At(f, off + 14)
  }

  /** How many bytes of the PNG signature are at `off`, up to where the file ends. */
  function PngPrefix(f: seq<byte>, off: nat): (n: nat)
    ensures n <= 4 && (n > 0 ==> off + n <= |f|)
  {
    if At(f, off) != 0x89 || off >= |f| then 0
    else if At(f, off + 1) != 0x50 then 1
    else if At(f, off + 2) != 0x4E then 2
    else if At(f, off + 3) != 0x47 then 3
    else 4
  }

  /** What the scan makes of an entry: passed over, a candidate, or a read outside the file. */
  datatype Verdict = PassedOver | Candidate | ReadsOutside

  /** The tests of the scan in their order, each read only if the ones before it were passed. */
  function Probe(f: seq<byte>, i: nat, max: nat): (v: Verdict)
    requires HasDirectory(f) && i < Count(f)
    ensures v == Candidate ==> Admitted(f, i) && EntryOff(f, i) + 20 <= |f|
  {
    var off := EntryOff(f, i);
    if !Admitted(f, i) then PassedOver
    else if PngPrefix(f, off) == 4 then PassedOver
    else if off + PngPrefix(f, off) >= |f| || off + 4 > |f| then ReadsOutside
    else if HeaderSize(f, off) < 40 || Wrap32(HeaderSize(f, off) + 12) > EntryBytes(f, i) then PassedOver
    else if off + 12 > |f| then ReadsOutside
    else if DibHeight(f, off) == 0 then PassedOver
    else if off + 16 > |f| then ReadsOutside
    else if U16At(f, off + 12) != 1 || (Depth(f, off) != 24 && Depth(f, off) != 32) then PassedOver
    else if off + 20 > |f| then ReadsOutside
    else if U32At(f, off + 16) != 0 || DibWidth(f, off) > max || Height(DibHeight(f, off)) > max then PassedOver
    else Candidate
  }

  /** The entry holds an uncompressed 24- or 32-bit bitmap no larger than `max` a side. */
  predicate Decodable(f: seq<byte>, i: nat, max: nat)
    requires HasDirectory(f) && i < Count(f)
  {
    Probe(f, i, max) == Candidate
  }

  /** Entry `k` is the first of the decodable entries of largest area. */
  ghost predicate IsBest(f: seq<byte>, k: nat, n: nat, max: nat)
    requires HasDirectory(f) && n <= Count(f)
  {
    && k < n && Decodable(f, k, max)
    && forall j :: 0 <= j < n && Decodable(f, j, max) ==> Area(f, j) <= Area(f, k) && (j < k ==> Area(f, j) < Area(f, k))
  }

  // ----------------------------------------------------------------- one bitmap

  /** The rows of the image: half the stored height when it is bottom-up. */
  function Height(dibHeight: int): int {
    if dibHeight > 0 then dibHeight / 2 else Neg32(dibHeight)
  }

  function RowBytes(w: nat, depth: nat): nat {
    (w * depth + 31) / 32 * 4
  }

  /** The bytes of the header and the rows together. */
  function Extent(f: seq<byte>, i: nat): int
    requires HasDirectory(f) && i < Count(f) && EntryOff(f, i) + 20 <= |f|
  {
    var off := EntryOff(f, i);
    var w, h := DibWidth(f, off), Height(DibHeight(f, off));
    (h - 1) * RowBytes(Nat(w), Depth(f, off)) + w * (Depth(f, off) / 8) + HeaderSize(f, off)
  }

  /** The rows and columns fit the limits, and the pixel data the size the entry claims. */
  predicate Fits(f: seq<byte>, i: nat, max: nat, cap: nat)
    requires HasDirectory(f) && i < Count(f) && EntryOff(f, i) + 20 <= |f|
  {
    var off := EntryOff(f, i);
    var w, h := DibWidth(f, off), Height(DibHeight(f, off));
    0 < w <= max && 0 < h <= max && w * h * 4 <= cap && Extent(f, i) <= EntryBytes(f, i)
  }

  /** The pixel data really is in the file. */
  predicate PixelsInFile(f: seq<byte>, i: nat)
    requires HasDirectory(f) && i < Count(f) && EntryOff(f, i) + 20 <= |f|
  {
    EntryOff(f, i) + Extent(f, i) <= |f|
  }

  /** Where the bytes of pixel (x, y) start, top-left origin; bottom-up unless the height is negative. */
  function SourceOffset(f: seq<byte>, off: nat, x: int, y: int): int
    requires off + 20 <= |f|
  {
    var h := Height(DibHeight(f, off));
    var row := if DibHeight(f, off) > 0 then h - 1 - y else y;
    off + HeaderSize(f, off) + row * RowBytes(Nat(DibWidth(f, off)), Depth(f, off)) + x * (Depth(f, off) / 8)
  }

  function Nat(x: int): nat {
    if x < 0 then 0 else x
  }

  /** The image has a pixel at (x, y). */
  predicate HasPixel(f: seq<byte>, i: nat, x: int, y: int)
    requires HasDirectory(f) && i < Count(f) && EntryOff(f, i) + 20 <= |f|
  {
    0 <= x < DibWidth(f, EntryOff(f, i)) && 0 <= y < Height(DibHeight(f, EntryOff(f, i)))
  }

  lemma PixelInExtent(f: seq<byte>, i: nat, max: nat, cap: nat, x: int, y: int)
    requires HasDirectory(f) && i < Count(f) && Decodable(f, i, max) && Fits(f, i, max, cap) && HasPixel(f, i, x, y)
    ensures 0 <= SourceOffset(f, EntryOff(f, i), x, y)
    ensures SourceOffset(f, EntryOff(f, i), x, y) + Depth(f, EntryOff(f, i)) / 8 <= EntryOff(f, i) + Extent(f, i)
  {
    hide Probe, HasDirectory, RowBytes, HeaderSize, DibWidth, DibHeight, Height;
    var off := EntryOff(f, i);
    var w, h, d := DibWidth(f, off), Height(DibHeight(f, off)), Depth(f, off) / 8;
    var row := if DibHeight(f, off) > 0 then h - 1 - y else y;
    CellInBlock(w, h, RowBytes(w, Depth(f, off)), d, x, row);
  }

  /** Every pixel of an entry whose pixel data is in the file is read inside the file. */
  lemma PixelInFile(f: seq<byte>, i: nat, max: nat, cap: nat, x: int, y: int)
    requires HasDirectory(f) && i < Count(f) && Decodable(f, i, max) && Fits(f, i, max, cap) && HasPixel(f, i, x, y)
    requires PixelsInFile(f, i)
    ensures 0 <= SourceOffset(f, EntryOff(f, i), x, y)
    ensures SourceOffset(f, EntryOff(f, i), x, y) + Depth(f, EntryOff(f, i)) / 8 <= |f|
  {
    hide Probe, Fits, Extent;
    PixelInExtent(f, i, max, cap, x, y);
  }

  /** And some pixel ends exactly where the pixel data does. */
  lemma LastPixelEndsExtent(f: seq<byte>, i: nat, max: nat, cap: nat) returns (x: int, y: int)
    requires HasDirectory(f) && i < Count(f) && Decodable(f, i, max) && Fits(f, i, max, cap)
    ensures HasPixel(f, i, x, y)
    ensures SourceOffset(f, EntryOff(f, i), x, y) + Depth(f, EntryOff(f, i)) / 8 == EntryOff(f, i) + Extent(f, i)
  {
    hide Probe, HasDirectory, RowBytes, HeaderSize, DibWidth, DibHeight, Height, Depth;
    FitsBounds(f, i, max, cap);
    var off := EntryOff(f, i);
    x, y := DibWidth(f, off) - 1, if DibHeight(f, off) > 0 then 0 else Height(DibHeight(f, off)) - 1;
    LastCell(DibWidth(f, off), Depth(f, off) / 8);
  }

  lemma LastCell(w: int, d: int)
    ensures (w - 1) * d + d == w * d
  {
  }

  /** What a real size test promises: neither the scan nor the decoding leaves the file. */
  lemma InFileIsSafe(f: seq<byte>, i: nat, max: nat, cap: nat)
    requires HasDirectory(f) && i < Count(f) && InFile(f, i)
    ensures Probe(f, i, max) != ReadsOutside
    ensures Decodable(f, i, max) && Fits(f, i, max, cap) ==> PixelsInFile(f, i)
  {
  }

  /** A read outside needs a sum that wraps, and a header of which not all twenty bytes are in the file. */
  lemma OutsideNeedsWrap(f: seq<byte>, i: nat, max: nat)
    requires HasDirectory(f) && i < Count(f) && Probe(f, i, max) == ReadsOutside
    ensures Admitted(f, i) && EntryOff(f, i) + EntryBytes(f, i) >= U32 && EntryOff(f, i) + 20 > |f|
  {
  }

  /** And if not even four are, it happens. */
  lemma HeaderOutsideIsRead(f: seq<byte>, i: nat, max: nat)
    requires HasDirectory(f) && i < Count(f) && Admitted(f, i) && EntryOff(f, i) + 4 > |f|
    ensures Probe(f, i, max) == ReadsOutside
  {
  }

  lemma CellInBlock(w: int, h: int, rowBytes: nat, d: nat, x: int, row: int)
    requires 0 <= x < w && 0 <= row < h
    ensures 0 <= row * rowBytes && 0 <= x * d
    ensures row * rowBytes + x * d + d <= (h - 1) * rowBytes + w * d
  {
    MulMono(rowBytes, 0, row);
    MulMono(rowBytes, row, h - 1);
    MulMono(d, 0, x);
    MulMono(d, x + 1, w);
    MulStep(d, x);
  }

  /** Blue, green, red, and alpha where there is one. */
  function PixelFrom(f: seq<byte>, at: int, depth: nat): Pixel
    requires 0 <= at && at + depth / 8 <= |f| && (depth == 24 || depth == 32)
  {
    Pixel(f[at + 2], f[at + 1], f[at], if depth == 32 then f[at + 3] else 255)
  }

  function DecodedPixel(f: seq<byte>, i: nat, max: nat, cap: nat, x: int, y: int): Pixel
    requires HasDirectory(f) && i < Count(f) && Decodable(f, i, max) && Fits(f, i, max, cap) && HasPixel(f, i, x, y)
    requires SourceOffset(f, EntryOff(f, i), x, y) + Depth(f, EntryOff(f, i)) / 8 <= |f|
  {
    PixelInExtent(f, i, max, cap, x, y);
    PixelFrom(f, SourceOffset(f, EntryOff(f, i), x, y), Depth(f, EntryOff(f, i)))
  }

  /** The pixel at (x, y) of a row-major RGBA image of width `w`. */
  ghost predicate ShowsPixel(rgba: seq<byte>, w: nat, x: int, y: int, p: Pixel) {
    var at := (y * w + x) * 4;
    0 <= at && at + 4 <= |rgba| && rgba[at] == p.r && rgba[at + 1] == p.g && rgba[at + 2] == p.b && rgba[at + 3] == p.a
  }

  /** Pixel (x, y) of entry `i` is read inside the file, and the image shows it. */
  ghost predicate Copied(rgba: seq<byte>, f: seq<byte>, i: nat, max: nat, cap: nat, x: int, y: int)
    requires HasDirectory(f) && i < Count(f) && Decodable(f, i, max) && Fits(f, i, max, cap) && HasPixel(f, i, x, y)
  {
    && SourceOffset(f, EntryOff(f, i), x, y) + Depth(f, EntryOff(f, i)) / 8 <= |f|
    && ShowsPixel(rgba, DibWidth(f, EntryOff(f, i)), x, y, DecodedPixel(f, i, max, cap, x, y))
  }

  /** So it is for all pixels in reading order up to (x, y). */
  ghost predicate DecodedUpTo(rgba: seq<byte>, f: seq<byte>, i: nat, max: nat, cap: nat, x: int, y: int)
    requires HasDirectory(f) && i < Count(f) && Decodable(f, i, max) && Fits(f, i, max, cap)
  {
    forall c, r :: HasPixel(f, i, c, r) && (r < y || (r == y && c < x)) ==> Copied(rgba, f, i, max, cap, c, r)
  }

  // -------------------------------------------------------------------- decoding

  /** No entry before `n` makes the scan read outside the file. */
  predicate ScanSafe(f: seq<byte>, n: nat, max: nat)
    requires HasDirectory(f) && n <= Count(f)
  {
    forall j :: 0 <= j < n ==> Probe(f, j, max) != ReadsOutside
  }

  /** The tests on one entry, read by read. */
  method ProbeEntry(f: seq<byte>, i: nat, max: nat) returns (v: Verdict)
    requires HasDirectory(f) && i < Count(f)
    ensures v == Probe(f, i, max)
  {
    var bytes := EntryBytes(f, i);
    var off := EntryOff(f, i);
    if bytes < 40 || Wrap32(off + bytes) > |f| {
      return PassedOver;
    }
    var signature: seq<byte> := [0x89, 0x50, 0x4E, 0x47];
    var png: nat := 0;
    while png < 4 && off + png < |f| && f[off + png] == signature[png]
      invariant png <= PngPrefix(f, off)
    {
      png := png + 1;
    }
    if png == 4 {
      return PassedOver;
    }
    if off + png >= |f| || off + 4 > |f| {
      return ReadsOutside;
    }
    var biSize := HeaderSize(f, off);
    if biSize < 40 || Wrap32(biSize + 12) > bytes {
      return PassedOver;
    }
    if off + 12 > |f| {
      return ReadsOutside;
    }
    var dibH := DibHeight(f, off);
    if dibH == 0 {
      return PassedOver;
    }
    if off + 16 > |f| {
      return ReadsOutside;
    }
    var planes := U16At(f, off + 12);
    var bpp := Depth(f, off);
    if planes != 1 || (bpp != 24 && bpp != 32) {
      return PassedOver;
    }
    if off + 20 > |f| {
      return ReadsOutside;
    }
    if U32At(f, off + 16) != 0 || DibWidth(f, off) > max {
      return PassedOver;
    }
    if dibH < 0 && Neg32(dibH) > max {
      return PassedOver;
    }
    if dibH > 0 && dibH / 2 > max {
      return PassedOver;
    }
    v := Candidate;
  }

  /** The directory scan: the first decodable entry of largest area, or -1, unless an entry leads it outside the file. */
  method ChooseEntry(f: seq<byte>, max: nat) returns (best: int, outside: bool)
    requires HasDirectory(f)
    ensures -1 <= best < Count(f)
    ensures outside <==> !ScanSafe(f, Count(f), max)
    ensures !outside && best == -1 ==> forall j :: 0 <= j < Count(f) ==> !Decodable(f, j, max)
    ensures !outside && best >= 0 ==> IsBest(f, best, Count(f), max)
  {
    hide Probe, Area;
    best, outside := -1, false;
    var bestArea := 0;
    for i := 0 to Count(f)
      invariant -1 <= best < i && ScanSafe(f, i, max)
      invariant best == -1 ==> bestArea == 0 && forall j :: 0 <= j < i ==> !Decodable(f, j, max)
      invariant best >= 0 ==> IsBest(f, best, i, max) && bestArea == Area(f, best)
    {
      var v := ProbeEntry(f, i, max);
      if v == ReadsOutside {
        return best, true;
      }
      if v == PassedOver {
        continue;
      }
      var area := Area(f, i);
      if area > bestArea {
        bestArea := area;
        best := i;
      }
    }
  }

  lemma OtherPixelKept(w: nat, x: int, y: int, c: int, r: int)
    requires 0 <= x < w && 0 <= c < w && 0 <= r && 0 <= y && (r < y || (r == y && c < x))
    ensures (r * w + c) * 4 + 4 <= (y * w + x) * 4 && 0 <= r * w + c
  {
    MulMono(w, 0, r);
    if r < y {
      MulMono(w, r + 1, y);
      MulStep(w, r);
    }
    assert w * r == r * w && w * y == y * w;
  }

  lemma PixelInBuffer(w: nat, h: nat, x: int, y: int)
    requires 0 <= x < w && 0 <= y < h
    ensures 0 <= (y * w + x) * 4 && (y * w + x) * 4 + 4 <= w * h * 4
  {
    MulMono(w, 0, y);
    MulMono(w, y + 1, h);
    MulStep(w, y);
    assert w * y == y * w;
  }

  /** Reads and writes one pixel, unless it lies outside the file; those before it in reading order stay. */
  method WritePixel(f: seq<byte>, i: nat, max: nat, x: nat, y: nat, rgba: array<byte>) returns (outside: bool)
    requires HasDirectory(f) && i < Count(f) && Decodable(f, i, max) && Fits(f, i, max, rgba.Length) && HasPixel(f, i, x, y)
    requires DecodedUpTo(rgba[..], f, i, max, rgba.Length, x, y)
    modifies rgba
    ensures outside <==> SourceOffset(f, EntryOff(f, i), x, y) + Depth(f, EntryOff(f, i)) / 8 > |f|
    ensures !outside ==> DecodedUpTo(rgba[..], f, i, max, rgba.Length, x + 1, y)
  {
    hide Probe, Fits, DecodedPixel, PixelFrom, SourceOffset, Height, DibWidth, DibHeight, HasDirectory, Extent;
    FitsBounds(f, i, max, rgba.Length);
    var off := EntryOff(f, i);
    var w, h := DibWidth(f, off), Height(DibHeight(f, off));
    PixelInBuffer(w, h, x, y);
    PixelInExtent(f, i, max, rgba.Length, x, y);
    if SourceOffset(f, off, x, y) + Depth(f, off) / 8 > |f| {
      return true;
    }
    var dst := (y * w + x) * 4;
    ghost var before := rgba[..];
    var p := PixelFrom(f, SourceOffset(f, off, x, y), Depth(f, off));
    assert p == DecodedPixel(f, i, max, rgba.Length, x, y) by {
      PixelIs(f, i, max, rgba.Length, x, y);
    }
    rgba[dst], rgba[dst + 1], rgba[dst + 2], rgba[dst + 3] := p.r, p.g, p.b, p.a;
    forall c, r | HasPixel(f, i, c, r) && (r < y || (r == y && c < x + 1))
      ensures Copied(rgba[..], f, i, max, rgba.Length, c, r)
    {
      if !(r == y && c == x) {
        OtherPixelKept(w, x, y, c, r);
        assert Copied(before, f, i, max, rgba.Length, c, r);
      }
    }
    outside := false;
  }

  lemma PixelIs(f: seq<byte>, i: nat, max: nat, cap: nat, x: int, y: int)
    requires HasDirectory(f) && i < Count(f) && Decodable(f, i, max) && Fits(f, i, max, cap) && HasPixel(f, i, x, y)
    requires SourceOffset(f, EntryOff(f, i), x, y) + Depth(f, EntryOff(f, i)) / 8 <= |f|
    ensures 0 <= SourceOffset(f, EntryOff(f, i), x, y)
    ensures Depth(f, EntryOff(f, i)) == 24 || Depth(f, EntryOff(f, i)) == 32
    ensures PixelFrom(f, SourceOffset(f, EntryOff(f, i), x, y), Depth(f, EntryOff(f, i)))
         == DecodedPixel(f, i, max, cap, x, y)
  {
    PixelInExtent(f, i, max, cap, x, y);
  }

  lemma FitsBounds(f: seq<byte>, i: nat, max: nat, cap: nat)
    requires HasDirectory(f) && i < Count(f) && Decodable(f, i, max) && Fits(f, i, max, cap)
    ensures Depth(f, EntryOff(f, i)) == 24 || Depth(f, EntryOff(f, i)) == 32
    ensures var w, h := DibWidth(f, EntryOff(f, i)), Height(DibHeight(f, EntryOff(f, i)));
            0 < w && 0 < h && w * h * 4 <= cap
  {
  }

  /**
   * The image of the best entry is shown. The reported sides have sixteen bits: they are those of the
   * image exactly if the image's are below 65536.
   */
  ghost predicate Shown(rgba: seq<byte>, f: seq<byte>, k: nat, w: int, h: int, max: nat, cap: nat) {
    && HasDirectory(f) && k < Count(f) && Decodable(f, k, max) && IsBest(f, k, Count(f), max) && Fits(f, k, max, cap)
    && w == DibWidth(f, EntryOff(f, k)) % 65536 && h == Height(DibHeight(f, EntryOff(f, k))) % 65536
    && DecodedUpTo(rgba, f, k, max, cap, 0, Height(DibHeight(f, EntryOff(f, k))))
  }

  /** Nothing can be shown: no directory, no decodable entry, or the best one does not fit. */
  ghost predicate Hopeless(f: seq<byte>, max: nat, cap: nat) {
    HasDirectory(f) ==> forall k :: 0 <= k < Count(f) && IsBest(f, k, Count(f), max) ==> !Fits(f, k, max, cap)
  }

  /** Decoding reads outside the file: at some entry's header, or at a pixel of the entry it shows. */
  ghost predicate LeavesFile(f: seq<byte>, max: nat, cap: nat) {
    HasDirectory(f) &&
    (|| !ScanSafe(f, Count(f), max)
     || exists k :: 0 <= k < Count(f) && IsBest(f, k, Count(f), max) && Fits(f, k, max, cap) && !PixelsInFile(f, k))
  }

  datatype Outcome = Done | Refused | Outside

  /**
   * ic_ico_parse: it reads outside the file exactly for the files named above; otherwise it shows the
   * first largest decodable entry if that fits, and leaves the buffer alone if it does not.
   */
  method IcoParse(f: seq<byte>, max: nat, rgba: array<byte>) returns (rc: Outcome, w: int, h: int, ghost k: nat)
    requires max < 0x400_0000 || rgba.Length < 0x1000_0000
    modifies rgba
    ensures rc == Outside <==> LeavesFile(f, max, rgba.Length)
    ensures rc == Done ==> Shown(rgba[..], f, k, w, h, max, rgba.Length)
    ensures rc == Refused ==> Hopeless(f, max, rgba.Length) && rgba[..] == old(rgba[..])
  {
    hide Probe, Fits, DecodedPixel, Height, DibWidth, DibHeight, Depth, SourceOffset, Extent, Area;
    rc, w, h, k := Refused, 0, 0, 0;
    if |f| < 6 || U16At(f, 0) != 0 || U16At(f, 2) != 1 {
      return;
    }
    if U16At(f, 4) == 0 || 6 + U16At(f, 4) * 16 > |f| {
      return;
    }
    var best, outside := ChooseEntry(f, max);
    if outside {
      rc := Outside;
      return;
    }
    if best == -1 {
      return;
    }
    k := best;
    OneBest(f, best, max);
    var fits := Fits(f, best, max, rgba.Length);
    if !fits {
      return;
    }
    rc, w, h := DecodeEntry(f, best, max, rgba);
  }

  /** The part of ic_ico_parse that copies the chosen entry's pixels. */
  method DecodeEntry(f: seq<byte>, i: nat, max: nat, rgba: array<byte>) returns (rc: Outcome, w: int, h: int)
    requires HasDirectory(f) && i < Count(f) && Decodable(f, i, max) && Fits(f, i, max, rgba.Length)
    modifies rgba
    ensures rc == if PixelsInFile(f, i) then Done else Outside
    ensures rc == Done ==>
              && w == DibWidth(f, EntryOff(f, i)) % 65536 && h == Height(DibHeight(f, EntryOff(f, i))) % 65536
              && DecodedUpTo(rgba[..], f, i, max, rgba.Length, 0, Height(DibHeight(f, EntryOff(f, i))))
  {
    hide Probe, Fits, DecodedPixel, Height, DibWidth, DibHeight, Depth, SourceOffset, Extent, ShowsPixel;
    FitsBounds(f, i, max, rgba.Length);
    var width, height := DibWidth(f, EntryOff(f, i)), Height(DibHeight(f, EntryOff(f, i)));
    for y := 0 to height
      invariant DecodedUpTo(rgba[..], f, i, max, rgba.Length, 0, y)
    {
      for x := 0 to width
        invariant DecodedUpTo(rgba[..], f, i, max, rgba.Length, x, y)
      {
        var outside := WritePixel(f, i, max, x, y, rgba);
        if outside {
          PixelInExtent(f, i, max, rgba.Length, x, y);
          return Outside, 0, 0;
        }
      }
    }
    ghost var lastX, lastY := LastPixelEndsExtent(f, i, max, rgba.Length);
    assert Copied(rgba[..], f, i, max, rgba.Length, lastX, lastY);
    rc, w, h := Done, width % 65536, height % 65536;
  }

  lemma OneBest(f: seq<byte>, k: nat, max: nat)
    requires HasDirectory(f) && IsBest(f, k, Count(f), max)
    ensures forall j :: 0 <= j < Count(f) && IsBest(f, j, Count(f), max) ==> j == k
  {
    hide Decodable, Area;
    forall j | 0 <= j < Count(f) && IsBest(f, j, Count(f), max) ensures j == k {
      assert Decodable(f, j, max) && Decodable(f, k, max);
    }
  }

  // ------------------------------------------------------------------- three witnesses

  const ONE_ENTRY: seq<byte> := [0, 0, 1, 0, 1, 0, 0, 0, 0, 0, 1, 0, 32, 0]

  lemma StartsOneEntry(rest: seq<byte>)
    requires |rest| >= 8
    ensures HasDirectory(ONE_ENTRY + rest) && Count(ONE_ENTRY + rest) == 1
  {
    var f := ONE_ENTRY + rest;
    assert f[0] == 0 && f[1] == 0 && f[2] == 1 && f[3] == 0 && f[4] == 1 && f[5] == 0;
  }

  /** A one-entry file: six bytes of directory, the entry, and a bitmap header with the data behind it. */
  function OneEntry(bytes: nat, off: nat, w: nat, h: nat, data: seq<byte>): (f: seq<byte>)
    requires bytes < U32 && off < U32 && w < U32 && h < U32
    ensures |f| == 62 + |data| && HasDirectory(f) && Count(f) == 1
  {
    var rest := Le32(bytes) + Le32(off) + Le32(40) + Le32(w) + Le32(h) + [1, 0, 32, 0] + Le32(0) + seq(20, _ => 0) + data;
    StartsOneEntry(rest);
    ONE_ENTRY + rest
  }

  lemma OneEntryParts(bytes: nat, off: nat, w: nat, h: nat, data: seq<byte>)
    requires bytes < U32 && off < U32 && w < U32 && h < U32
    ensures var f := OneEntry(bytes, off, w, h, data);
            && f[14..18] == Le32(bytes) && f[18..22] == Le32(off) && f[22..26] == Le32(40) && f[26..30] == Le32(w)
            && f[30..34] == Le32(h) && f[34..38] == [1, 0, 32, 0] && f[38..42] == Le32(0)
  {
    hide Le32, HasDirectory, Count;
  }

  lemma OneEntryReads(bytes: nat, off: nat, w: nat, h: nat, data: seq<byte>)
    requires bytes < U32 && off < U32 && w < U32 && h < U32
    ensures var f := OneEntry(bytes, off, w, h, data);
            && EntryBytes(f, 0) == bytes && EntryOff(f, 0) == off
            && HeaderSize(f, 22) == 40 && DibWidth(f, 22) == ToInt32(w) && DibHeight(f, 22) == ToInt32(h)
            && U16At(f, 34) == 1 && Depth(f, 22) == 32 && U32At(f, 38) == 0 && f[22] == 40
  {
    hide OneEntry, U32At, ToInt32;
    var f := OneEntry(bytes, off, w, h, data);
    OneEntryParts(bytes, off, w, h, data);
    Le32Reads(f, 14, bytes);
    Le32Reads(f, 18, off);
    Le32Reads(f, 22, 40);
    Le32Reads(f, 26, w);
    Le32Reads(f, 30, h);
    Le32Reads(f, 38, 0);
    assert f[34] == f[34..38][0] && f[35] == f[34..38][1] && f[36] == f[34..38][2] && f[37] == f[34..38][3];
    assert f[22] == f[22..26][0];
  }

  /** An entry whose offset plus size wraps to 32 leads the scan far outside a file of 62 bytes. */
  lemma WrappedOffsetLeavesFile(max: nat, cap: nat)
    ensures var f := OneEntry(64, 0xFFFF_FFE0, 1, 2, []);
            |f| == 62 && Probe(f, 0, max) == ReadsOutside && LeavesFile(f, max, cap)
  {
    hide HasDirectory, EntryBytes, EntryOff, Count, OneEntry;
    OneEntryReads(64, 0xFFFF_FFE0, 1, 2, []);
    var f := OneEntry(64, 0xFFFF_FFE0, 1, 2, []);
    assert Wrap32(0xFFFF_FFE0 + 64) == 32;
  }

  /** A header in the file whose claimed size wraps too: the scan stays inside, the first pixel does not. */
  lemma WrappedSizeLeavesFile(max: nat, cap: nat)
    requires 1 <= max && 4 <= cap
    ensures var f := OneEntry(0xFFFF_FFFF, 22, 1, 2, []);
            ScanSafe(f, 1, max) && LeavesFile(f, max, cap)
  {
    hide HasDirectory, EntryBytes, EntryOff, Count, OneEntry, HeaderSize, DibWidth, DibHeight, Depth;
    OneEntryReads(0xFFFF_FFFF, 22, 1, 2, []);
    var f := OneEntry(0xFFFF_FFFF, 22, 1, 2, []);
    assert Wrap32(0xFFFF_FFFF + 22) == 21;
    assert Probe(f, 0, max) == Candidate;
    assert IsBest(f, 0, 1, max) && Fits(f, 0, max, cap) && !PixelsInFile(f, 0);
  }

  /** An image 65536 pixels wide is decoded in full and reported as having no width. */
  lemma WideImageReportsNoWidth(max: nat, cap: nat, data: seq<byte>)
    requires 65536 <= max && 262144 <= cap && |data| == 262144
    ensures var f := OneEntry(262184, 22, 65536, 2, data);
            && !LeavesFile(f, max, cap) && HasDirectory(f) && IsBest(f, 0, Count(f), max) && Fits(f, 0, max, cap)
            && DibWidth(f, EntryOff(f, 0)) == 65536 && DibWidth(f, EntryOff(f, 0)) % 65536 == 0
  {
    hide HasDirectory, EntryBytes, EntryOff, Count, OneEntry, HeaderSize, DibWidth, DibHeight, Depth;
    OneEntryReads(262184, 22, 65536, 2, data);
    var f := OneEntry(262184, 22, 65536, 2, data);
    assert Probe(f, 0, max) == Candidate;
    assert IsBest(f, 0, 1, max) && Fits(f, 0, max, cap) && PixelsInFile(f, 0);
  }
}
