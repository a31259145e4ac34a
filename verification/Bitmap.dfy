/** Bitmaps as an icon file stores them, written out field by field, and what the decoder reads from them. */
module Bitmap {
  import opened Arith
  import opened Bytes
  import opened Ico

  /** The uncompressed bitmap of one icon: its header's size, its sides, its bits a pixel, and which row comes first. */
  datatype Dib = Dib(size: nat, w: nat, h: nat, depth: nat, bottomUp: bool)

  predicate IsDib(d: Dib) {
    40 <= d.size < 0x4000_0000 && 0 < d.w < 0x4000_0000 && 0 < d.h < 0x4000_0000 && (d.depth == 24 || d.depth == 32)
  }

  /** A bottom-up bitmap stores twice its height, for the mask behind it; one that is top-down its negated height. */
  function StoredHeight(d: Dib): nat
    requires IsDib(d)
  {
    if d.bottomUp then 2 * d.h else U32 - d.h
  }

  predicate HasHeader(f: seq<byte>, off: nat, d: Dib)
    requires IsDib(d)
  {
    && off + 20 <= |f| && f[off..off + 4] == Le32(d.size) && f[off + 4..off + 8] == Le32(d.w)
    && f[off + 8..off + 12] == Le32(StoredHeight(d))
    && f[off + 12..off + 16] == [1, 0, d.depth, 0] && f[off + 16..off + 20] == [0, 0, 0, 0]
  }

  /** Rows take the least multiple of four bytes that holds them. */
  predicate IsStride(stride: nat, d: Dib) {
    stride % 4 == 0 && 8 * (stride - 4) < d.w * d.depth <= 8 * stride
  }

  type Picture = (nat, nat) -> Pixel

  /** Where the pixel in column `x` of row `y`, counted from the top, is stored. */
  function PlaceOf(off: nat, d: Dib, stride: nat, x: nat, y: nat): nat
    requires y < d.h
  {
    off + d.size + (if d.bottomUp then d.h - 1 - y else y) * stride + x * (d.depth / 8)
  }

  /** The bytes of one pixel: blue, green, red, and alpha with 32 bits; with 24 it is opaque. */
  predicate StoresPixel(f: seq<byte>, at: nat, depth: nat, p: Pixel) {
    && at + 3 <= |f| && f[at..at + 3] == [p.b, p.g, p.r]
    && (if depth == 32 then at + 4 <= |f| && f[at + 3] == p.a else p.a == 255)
  }

  ghost predicate StoresPicture(f: seq<byte>, off: nat, d: Dib, stride: nat, pic: Picture) {
    forall x: nat, y: nat :: x < d.w && y < d.h ==> StoresPixel(f, PlaceOf(off, d, stride, x, y), d.depth, pic(x, y))
  }

  lemma HeaderReads(f: seq<byte>, off: nat, d: Dib)
    requires IsDib(d) && HasHeader(f, off, d)
    ensures HeaderSize(f, off) == d.size && DibWidth(f, off) == d.w && Depth(f, off) == d.depth
    ensures Height(DibHeight(f, off)) == d.h && DibHeight(f, off) != 0 && (DibHeight(f, off) > 0 <==> d.bottomUp)
    ensures U16At(f, off + 12) == 1 && U32At(f, off + 16) == 0
  {
    hide Le32, U32At;
    Le32Reads(f, off, d.size);
    Le32Reads(f, off + 4, d.w);
    Le32Reads(f, off + 8, StoredHeight(d));
    NoCompression(f, off + 16);
    var g := f[off + 12..off + 16];
    assert f[off + 12] == g[0] && f[off + 13] == g[1] && f[off + 14] == g[2] && f[off + 15] == g[3];
  }

  lemma NoCompression(f: seq<byte>, i: nat)
    requires i + 4 <= |f| && f[i..i + 4] == [0, 0, 0, 0]
    ensures U32At(f, i) == 0
  {
    var g := f[i..i + 4];
    assert f[i] == g[0] && f[i + 1] == g[1] && f[i + 2] == g[2] && f[i + 3] == g[3];
  }

  lemma StrideIsRowBytes(d: Dib, stride: nat)
    requires IsStride(stride, d)
    ensures RowBytes(d.w, d.depth) == stride
  {
    var bits := d.w * d.depth;
    FourBytesEach(bits, stride);
  }

  lemma FourBytesEach(bits: nat, stride: nat)
    requires stride % 4 == 0 && 8 * (stride - 4) < bits <= 8 * stride
    ensures (bits + 31) / 32 * 4 == stride
  {
    var q := stride / 4;
    assert stride == 4 * q;
    assert 32 * (q - 1) < bits <= 32 * q;
  }

  lemma PlaceIsRead(f: seq<byte>, off: nat, d: Dib, stride: nat, x: nat, y: nat)
    requires IsDib(d) && HasHeader(f, off, d) && IsStride(stride, d) && x < d.w && y < d.h
    ensures SourceOffset(f, off, x, y) == PlaceOf(off, d, stride, x, y) && Depth(f, off) == d.depth
    ensures x < DibWidth(f, off) && y < Height(DibHeight(f, off))
  {
    hide HasHeader, HeaderSize, DibWidth, DibHeight, Depth, Height, RowBytes, IsStride;
    HeaderReads(f, off, d);
    StrideIsRowBytes(d, stride);
  }

  lemma PixelIsRead(f: seq<byte>, at: nat, depth: nat, p: Pixel)
    requires (depth == 24 || depth == 32) && StoresPixel(f, at, depth, p)
    ensures at + depth / 8 <= |f| && PixelFrom(f, at, depth) == p
  {
    assert f[at] == f[at..at + 3][0] && f[at + 1] == f[at..at + 3][1] && f[at + 2] == f[at..at + 3][2];
  }

  /** A pixel stored is the pixel decoded, at either depth, whichever row comes first, and however rows are padded. */
  lemma StoredPixelIsDecoded(f: seq<byte>, i: nat, max: nat, cap: nat, d: Dib, stride: nat, pic: Picture, x: nat, y: nat)
    requires HasDirectory(f) && i < Count(f) && Decodable(f, i, max) && Fits(f, i, max, cap)
    requires IsDib(d) && HasHeader(f, EntryOff(f, i), d) && IsStride(stride, d)
    requires StoresPicture(f, EntryOff(f, i), d, stride, pic) && x < d.w && y < d.h
    ensures HasPixel(f, i, x, y) && 0 <= SourceOffset(f, EntryOff(f, i), x, y)
    ensures SourceOffset(f, EntryOff(f, i), x, y) + Depth(f, EntryOff(f, i)) / 8 <= |f|
    ensures DecodedPixel(f, i, max, cap, x, y) == pic(x, y)
  {
    hide HasDirectory, Count, EntryOff, Decodable, Fits, HasHeader, IsStride, SourceOffset, PlaceOf, StoresPixel, PixelFrom,
      DibWidth, DibHeight, Depth, Height;
    PlaceIsRead(f, EntryOff(f, i), d, stride, x, y);
    PixelIsRead(f, PlaceOf(EntryOff(f, i), d, stride, x, y), d.depth, pic(x, y));
  }

  /** Such a bitmap whose bytes the file has is decoded wherever it fits the limits. */
  lemma StoredPictureDecodes(f: seq<byte>, i: nat, max: nat, cap: nat, d: Dib, stride: nat)
    requires HasDirectory(f) && i < Count(f) && InFile(f, i) && IsDib(d) && IsStride(stride, d)
    requires HasHeader(f, EntryOff(f, i), d)
    requires d.size + 12 <= EntryBytes(f, i) && d.size + (d.h - 1) * stride + d.w * (d.depth / 8) <= EntryBytes(f, i)
    requires d.w <= max && d.h <= max && d.w * d.h * 4 <= cap
    ensures Decodable(f, i, max) && Fits(f, i, max, cap) && PixelsInFile(f, i)
  {
    hide HasDirectory, Count, EntryOff, EntryBytes, HasHeader, HeaderSize, DibWidth, DibHeight, Depth, Height, RowBytes,
      IsStride;
    HeaderReads(f, EntryOff(f, i), d);
    StrideIsRowBytes(d, stride);
    NoSignature(f, EntryOff(f, i), d);
  }

  /** What the decoder has shown then is the picture: red, green, blue and alpha of each pixel, row by row from the top. */
  lemma ShownPicture(rgba: seq<byte>, f: seq<byte>, k: nat, w: int, h: int, max: nat, cap: nat,
      d: Dib, stride: nat, pic: Picture, x: nat, y: nat)
    requires Shown(rgba, f, k, w, h, max, cap) && IsDib(d) && IsStride(stride, d) && HasHeader(f, EntryOff(f, k), d)
    requires StoresPicture(f, EntryOff(f, k), d, stride, pic) && x < d.w && y < d.h
    ensures w == d.w % 65536 && h == d.h % 65536
    ensures var at, p := (y * d.w + x) * 4, pic(x, y);
            0 <= at && at + 4 <= |rgba| && rgba[at..at + 4] == [p.r, p.g, p.b, p.a]
  {
    hide HasDirectory, Count, EntryOff, Decodable, Fits, HasHeader, IsStride, SourceOffset, StoresPicture, DibWidth, DibHeight,
      Depth, Height, IsBest, DecodedPixel;
    HeaderReads(f, EntryOff(f, k), d);
    StoredPixelIsDecoded(f, k, max, cap, d, stride, pic, x, y);
    assert Copied(rgba, f, k, max, cap, x, y);
  }

  /** An entry that starts with the PNG signature is passed over. */
  lemma PictureInPngIsPassedOver(f: seq<byte>, i: nat, max: nat)
    requires HasDirectory(f) && i < Count(f) && EntryOff(f, i) + 4 <= |f|
    requires var off := EntryOff(f, i); f[off..off + 4] == [137, 'P' as int, 'N' as int, 'G' as int]
    ensures Probe(f, i, max) == PassedOver
  {
    hide HasDirectory, Count, EntryOff, Admitted, HeaderSize, DibWidth, DibHeight, Depth, Height;
    var off := EntryOff(f, i);
    var g := f[off..off + 4];
    assert f[off] == g[0] && f[off + 1] == g[1] && f[off + 2] == g[2] && f[off + 3] == g[3];
  }

  lemma NoSignature(f: seq<byte>, off: nat, d: Dib)
    requires IsDib(d) && HasHeader(f, off, d)
    ensures PngPrefix(f, off) < 4 && off + 20 <= |f|
  {
    hide Le32, PngPrefix;
    Le32Reads(f, off, d.size);
    SignatureIsLarge(f, off);
  }

  lemma SignatureIsLarge(f: seq<byte>, off: nat)
    requires off + 4 <= |f|
    ensures PngPrefix(f, off) == 4 ==> U32At(f, off) >= 0x4000_0000
  {
  }
}
