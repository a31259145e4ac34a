/** The icon generator's file writer, and that the library's decoder undoes it. */
module IcoWriter {
  import opened Arith
  import opened Bytes
  import opened Ico
  import Bitmap

  /** The bytes of the bitmap header and the pixel rows and the mask of an `n` by `n` icon. */
  function ImageSize(n: nat): nat {
    40 + n * n * 4 + n * n / 8
  }

  lemma SizesSmall(n: nat)
    requires n <= 255
    ensures n * n <= 65025 && ImageSize(n) < 0x10_0000
  {
    MulMono(n, n, 255);
    MulMono(255, n, 255);
  }

  /** File header, directory entry and bitmap header. */
  function Head(n: nat): (b: seq<byte>)
    requires 1 <= n <= 255
    ensures |b| == 62
  {
    SizesSmall(n);
    [0, 0, 1, 0, 1, 0]
    + [n, n, 0, 0, 1, 0, 32, 0] + Le32(ImageSize(n)) + Le32(22)
    + Le32(40) + Le32(n) + Le32(2 * n) + [1, 0, 32, 0] + Le32(0) + Le32(n * n * 4)
    + Le32(0) + Le32(0) + Le32(0) + Le32(0)
  }

  /** Which canvas byte stands at place `k` of the pixel rows: rows bottom-up, blue first. */
  function BodySource(n: nat, k: nat): int
    requires n > 0
  {
    Turned(n, k / 4) * 4 + Swapped(k % 4)
  }

  /** The pixel of the canvas that is pixel `p` of the bottom-up rows. */
  function Turned(n: nat, p: nat): int
    requires n > 0
  {
    (n - 1 - p / n) * n + p % n
  }

  /** Blue and red change places. */
  function Swapped(c: nat): int {
    if c == 0 then 2 else if c == 2 then 0 else c
  }

  lemma TurnedRow(n: nat, x: nat, row: nat)
    requires x < n
    ensures Turned(n, row * n + x) == (n - 1 - row) * n + x
  {
    DivUnique(row * n + x, n, row);
    assert n * row == row * n;
  }

  lemma BodySourceOf(n: nat, x: nat, row: nat, c: nat)
    requires x < n && row < n && c < 4
    ensures var k := (row * n + x) * 4 + c;
            && 0 <= k < n * n * 4
            && BodySource(n, k) == ((n - 1 - row) * n + x) * 4 + Swapped(c)
            && 0 <= BodySource(n, k) < n * n * 4
  {
    hide Turned;
    PixelInBuffer(n, n, x, row);
    PixelInBuffer(n, n, x, n - 1 - row);
    FourParts(row * n + x, c);
    TurnedRow(n, x, row);
  }

  lemma FourParts(p: nat, c: nat)
    requires c < 4
    ensures (p * 4 + c) / 4 == p && (p * 4 + c) % 4 == c
  {
  }

  lemma BodySourceInCanvas(n: nat, k: nat)
    requires n > 0 && k < n * n * 4
    ensures 0 <= BodySource(n, k) < n * n * 4
  {
    hide BodySource;
    PixelOf(n, k);
    BodySourceOf(n, k / 4 % n, k / 4 / n, k % 4);
  }

  /** The column, row and channel of byte `k` of an `n` by `n` image. */
  lemma PixelOf(n: nat, k: nat)
    requires n > 0 && k < n * n * 4
    ensures 0 <= k / 4 / n < n && 0 <= k / 4 % n < n && k == (k / 4 / n * n + k / 4 % n) * 4 + k % 4
  {
    var p := k / 4;
    var q := n * n;
    assert p < q;
    assert p == n * (p / n) + p % n && n * (p / n) == p / n * n;
    MulCancel(n, p / n, n);
  }

  function Body(n: nat, px: seq<byte>): (b: seq<byte>)
    requires n > 0 && |px| == n * n * 4
    ensures |b| == n * n * 4
  {
    seq(n * n * 4, k requires 0 <= k < n * n * 4 => BodySourceInCanvas(n, k); px[BodySource(n, k)])
  }

  /** The icon file of a canvas: one 32-bit bottom-up bitmap with an all-opaque mask. */
  function IconFile(n: nat, px: seq<byte>): (f: seq<byte>)
    requires 1 <= n <= 255 && |px| == n * n * 4
  {
    Head(n) + Body(n, px) + seq(n * n / 8, _ => 0)
  }

  /**
   * The fields of the file: an icon's magic and one entry, the entry's sides, no palette, one plane of 32 bits, its
   * size and place, an uncompressed bottom-up bitmap header, and behind the pixels a mask that hides none.
   */
  lemma FieldsWritten(n: nat, px: seq<byte>)
    requires 1 <= n <= 255 && |px| == n * n * 4
    ensures var f, rows := IconFile(n, px), n * n * 4;
            && |f| == 22 + 40 + rows + n * n / 8
            && f[..14] == [0, 0, 1, 0, 1, 0, n, n, 0, 0, 1, 0, 32, 0]
            && |f| - 22 < U32 && f[14..18] == Le32(|f| - 22) && f[18..22] == Le32(22)
            && Bitmap.HasHeader(f, 22, Bitmap.Dib(40, n, n, 32, true)) && rows < U32 && f[42..46] == Le32(rows)
            && (forall k :: 46 <= k < 62 ==> f[k] == 0) && (forall k :: 62 + rows <= k < |f| ==> f[k] == 0)
  {
    hide Head, Body, Le32;
    SizesSmall(n);
    var f, h := IconFile(n, px), Head(n);
    assert f[..62] == h;
    HeadStarts(n);
    HeadNumbers(n);
    HeadEnds(n);
    PartOfHead(f, h, 0, 14);
    PartOfHead(f, h, 14, 18);
    PartOfHead(f, h, 18, 22);
    PartOfHead(f, h, 22, 26);
    PartOfHead(f, h, 26, 30);
    PartOfHead(f, h, 30, 34);
    PartOfHead(f, h, 34, 38);
    PartOfHead(f, h, 38, 42);
    PartOfHead(f, h, 42, 46);
    NoNumber();
    assert forall k :: 46 <= k < 62 ==> f[k] == h[k];
  }

  lemma PartOfHead(f: seq<byte>, h: seq<byte>, a: nat, b: nat)
    requires a <= b <= |h| == 62 <= |f| && f[..62] == h
    ensures f[a..b] == h[a..b]
  {
  }

  lemma NoNumber()
    ensures Le32(0) == [0, 0, 0, 0]
  {
  }

  lemma HeadStarts(n: nat)
    requires 1 <= n <= 255
    ensures var h := Head(n);
            && h[0..14] == [0, 0, 1, 0, 1, 0, n, n, 0, 0, 1, 0, 32, 0] && ImageSize(n) < U32
            && h[14..18] == Le32(ImageSize(n)) && h[18..22] == Le32(22) && h[34..38] == [1, 0, 32, 0]
  {
    hide Le32, ImageSize;
    SizesSmall(n);
  }

  lemma HeadEnds(n: nat)
    requires 1 <= n <= 255
    ensures var h := Head(n);
            n * n * 4 < U32 && h[42..46] == Le32(n * n * 4) && forall k :: 46 <= k < 62 ==> h[k] == 0
  {
    hide ImageSize;
    SizesSmall(n);
    NoNumber();
    FourNumbers(Head(n)[..46], Le32(0));
  }

  lemma FourNumbers(front: seq<byte>, z: seq<byte>)
    requires |front| == 46 && z == [0, 0, 0, 0]
    ensures forall k :: 46 <= k < 62 ==> (front + z + z + z + z)[k] == 0
  {
  }

  /** write_ico: the file it writes, row after row and pixel after pixel. */
  method WriteIco(n: nat, px: seq<byte>) returns (f: seq<byte>)
    requires 1 <= n <= 255 && |px| == n * n * 4
    ensures f == IconFile(n, px)
  {
    hide Head, BodySource;
    var body: seq<byte> := [];
    var y: int := n - 1;
    while y >= 0
      invariant -1 <= y < n
      invariant 0 <= (n - 1 - y) * n * 4 <= n * n * 4 && body == Body(n, px)[..(n - 1 - y) * n * 4]
    {
      for x := 0 to n
        invariant 0 <= ((n - 1 - y) * n + x) * 4 <= n * n * 4 && body == Body(n, px)[..((n - 1 - y) * n + x) * 4]
      {
        PixelInBuffer(n, n, x, y);
        var o := (y * n + x) * 4;
        PixelBytes(n, px, x, n - 1 - y);
        body := body + [px[o + 2], px[o + 1], px[o], px[o + 3]];
      }
      RowDone(n, n - 1 - y);
      y := y - 1;
    }
    f := Head(n) + body + seq(n * n / 8, _ => 0);
  }

  lemma RowDone(n: nat, row: nat)
    requires row < n
    ensures (row * n + n) * 4 == (row + 1) * n * 4 <= n * n * 4
  {
    assert (row + 1) * n == row * n + n;
    MulMono(n, row + 1, n);
  }

  /** The four bytes of one pixel of the rows, and the prefix of the rows they extend. */
  lemma PixelBytes(n: nat, px: seq<byte>, x: nat, row: nat)
    requires 1 <= n && |px| == n * n * 4 && x < n && row < n
    ensures var k := (row * n + x) * 4;
            var o := ((n - 1 - row) * n + x) * 4;
            && 0 <= k && k + 4 <= n * n * 4 && 0 <= o && o + 4 <= n * n * 4
            && k + 4 == (row * n + (x + 1)) * 4
            && Body(n, px)[..k + 4] == Body(n, px)[..k] + [px[o + 2], px[o + 1], px[o], px[o + 3]]
  {
    BodySourceOf(n, x, row, 0);
    BodySourceOf(n, x, row, 1);
    BodySourceOf(n, x, row, 2);
    BodySourceOf(n, x, row, 3);
  }

  // ------------------------------------------------------------------ round trip

  /** What the decoder reads in the file's directory. */
  lemma DirectoryReads(f: seq<byte>, n: nat)
    requires 1 <= n <= 255 && |f| == 22 + ImageSize(n) && f[..62] == Head(n)
    ensures HasDirectory(f) && Count(f) == 1 && EntryBytes(f, 0) == ImageSize(n) && EntryOff(f, 0) == 22
  {
    hide Head, Le32, U32At;
    SizesSmall(n);
    HeadStarts(n);
    PartOfHead(f, Head(n), 0, 14);
    StartRead(f, n);
    ReadBack(f, n, 14, ImageSize(n));
    ReadBack(f, n, 18, 22);
  }

  lemma StartRead(f: seq<byte>, n: nat)
    requires 1 <= n <= 255 && |f| >= 22 && f[0..14] == [0, 0, 1, 0, 1, 0, n, n, 0, 0, 1, 0, 32, 0]
    ensures HasDirectory(f) && Count(f) == 1
  {
    var h := f[0..14];
    assert f[0] == h[0] && f[1] == h[1] && f[2] == h[2] && f[3] == h[3] && f[4] == h[4] && f[5] == h[5];
  }

  /** What the decoder reads in the bitmap header. */
  lemma BitmapReads(f: seq<byte>, n: nat)
    requires 1 <= n <= 255 && |f| == 22 + ImageSize(n) && f[..62] == Head(n)
    ensures f[22] == 40 && HeaderSize(f, 22) == 40 && DibWidth(f, 22) == n && DibHeight(f, 22) == 2 * n
    ensures U16At(f, 34) == 1 && Depth(f, 22) == 32 && U32At(f, 38) == 0
  {
    hide Head;
    SizesSmall(n);
    BitmapBytes(f, n);
    HeadNumbers(n);
    ReadBack(f, n, 22, 40);
    ReadBack(f, n, 26, n);
    ReadBack(f, n, 30, 2 * n);
    ReadBack(f, n, 38, 0);
  }

  lemma HeadNumbers(n: nat)
    requires 1 <= n <= 255
    ensures var h := Head(n);
            h[22..26] == Le32(40) && h[26..30] == Le32(n) && h[30..34] == Le32(2 * n) && h[38..42] == Le32(0)
  {
  }

  lemma BitmapBytes(f: seq<byte>, n: nat)
    requires 1 <= n <= 255 && |f| >= 62 && f[..62] == Head(n)
    ensures f[22] == 40 && U16At(f, 34) == 1 && U16At(f, 36) == 32
  {
    var h := f[..62];
    assert f[22] == h[22] && f[34] == h[34] && f[35] == h[35] && f[36] == h[36] && f[37] == h[37];
  }

  lemma ReadBack(f: seq<byte>, n: nat, at: nat, v: nat)
    requires 1 <= n <= 255 && |f| >= 62 && f[..62] == Head(n) && at <= 58 && v < U32
    requires Head(n)[at..at + 4] == Le32(v)
    ensures U32At(f, at) == v
  {
    assert f[at..at + 4] == f[..62][at..at + 4];
    Le32Reads(f, at, v);
  }

  /** The written file is decodable in any limits the canvas fits, and each pixel comes back. */
  lemma WrittenIconDecodes(n: nat, px: seq<byte>, max: nat, cap: nat)
    requires 2 <= n <= 255 && |px| == n * n * 4 && n <= max && n * n * 4 <= cap
    ensures var f := IconFile(n, px);
            && HasDirectory(f) && Count(f) == 1 && Decodable(f, 0, max) && Fits(f, 0, max, cap) && PixelsInFile(f, 0)
            && DibWidth(f, EntryOff(f, 0)) == n && Height(DibHeight(f, EntryOff(f, 0))) == n
  {
    hide Head, Body, ImageSize;
    var f := IconFile(n, px);
    SizesSmall(n);
    IconFileParts(n, px);
    DirectoryReads(f, n);
    BitmapReads(f, n);
    HeadersSuffice(f, n, max, cap);
  }

  lemma IconFileParts(n: nat, px: seq<byte>)
    requires 1 <= n <= 255 && |px| == n * n * 4
    ensures var f := IconFile(n, px);
            && |f| == 22 + ImageSize(n) && 62 + n * n * 4 <= |f| && f[..62] == Head(n)
            && forall k :: 0 <= k < n * n * 4 ==> f[62 + k] == Body(n, px)[k]
  {
    hide Head, Body;
  }

  /** Headers with these contents make the only entry decodable and fitting. */
  lemma HeadersSuffice(f: seq<byte>, n: nat, max: nat, cap: nat)
    requires 2 <= n <= 255 && n <= max && n * n * 4 <= cap && |f| == 22 + ImageSize(n)
    requires HasDirectory(f) && Count(f) == 1 && EntryBytes(f, 0) == ImageSize(n) && EntryOff(f, 0) == 22
    requires f[22] == 40 && HeaderSize(f, 22) == 40 && DibWidth(f, 22) == n && DibHeight(f, 22) == 2 * n
    requires U16At(f, 34) == 1 && Depth(f, 22) == 32 && U32At(f, 38) == 0
    ensures Decodable(f, 0, max) && Fits(f, 0, max, cap) && PixelsInFile(f, 0)
    ensures Height(DibHeight(f, EntryOff(f, 0))) == n
  {
    hide HasDirectory, EntryBytes, EntryOff, HeaderSize, DibWidth, DibHeight, Depth, RowBytes, Count;
    SizesSmall(n);
    RowsFillBody(n);
    assert InFile(f, 0);
    MulMono(n, 2, n);
    MulMono(2, 2, n);
    assert 2 * n / 2 == n;
    assert U16At(f, EntryOff(f, 0) + 12) == U16At(f, 34);
    assert U32At(f, EntryOff(f, 0) + 16) == U32At(f, 38);
  }

  lemma RowsFillBody(n: nat)
    requires n > 0
    ensures RowBytes(n, 32) == n * 4
    ensures (n - 1) * RowBytes(n, 32) + n * 4 == n * n * 4
  {
    assert (n * 32 + 31) / 32 == n;
    assert (n - 1) * (n * 4) + n * 4 == n * n * 4;
  }

  lemma WrittenPixel(n: nat, px: seq<byte>, max: nat, cap: nat, x: nat, y: nat)
    requires 2 <= n <= 255 && |px| == n * n * 4 && n <= max && n * n * 4 <= cap && x < n && y < n
    requires var f := IconFile(n, px);
             && HasDirectory(f) && Count(f) == 1 && Decodable(f, 0, max) && Fits(f, 0, max, cap)
             && DibWidth(f, EntryOff(f, 0)) == n && Height(DibHeight(f, EntryOff(f, 0))) == n
    requires PixelsInFile(IconFile(n, px), 0)
    ensures Copied(px, IconFile(n, px), 0, max, cap, x, y)
  {
    hide ImageSize, IconFile, Probe, Fits, Extent, SourceOffset, HasDirectory, HeaderSize, DibWidth, DibHeight, Depth, PixelsInFile;
    hide RowBytes, Height, EntryOff, EntryBytes, Count;
    var f := IconFile(n, px);
    SizesSmall(n);
    IconFileParts(n, px);
    DirectoryReads(f, n);
    BitmapReads(f, n);
    PixelInFile(f, 0, max, cap, x, y);
    SourceOffsetOfWritten(f, n, x, y);
    WrittenBytes(n, px, x, y);
  }

  /** Where the four channels of a pixel of the canvas are in the file. */
  lemma WrittenBytes(n: nat, px: seq<byte>, x: nat, y: nat)
    requires 1 <= n <= 255 && |px| == n * n * 4 && x < n && y < n
    ensures var f, at, o := IconFile(n, px), 62 + ((n - 1 - y) * n + x) * 4, (y * n + x) * 4;
            && 62 <= at && at + 4 <= |f| && 0 <= o && o + 4 <= |px|
            && f[at] == px[o + 2] && f[at + 1] == px[o + 1] && f[at + 2] == px[o] && f[at + 3] == px[o + 3]
  {
    hide Head, Body, ImageSize, IconFile;
    var f := IconFile(n, px);
    IconFileParts(n, px);
    PixelBytes(n, px, x, n - 1 - y);
    var k := ((n - 1 - y) * n + x) * 4;
    var b := Body(n, px);
    var o := (y * n + x) * 4;
    FourMore(b, k, px[o + 2], px[o + 1], px[o], px[o + 3]);
    assert f[62 + k] == b[k] && f[62 + (k + 1)] == b[k + 1] && f[62 + (k + 2)] == b[k + 2] && f[62 + (k + 3)] == b[k + 3];
  }

  lemma FourMore(b: seq<byte>, k: nat, b0: byte, b1: byte, b2: byte, b3: byte)
    requires k + 4 <= |b| && b[..k + 4] == b[..k] + [b0, b1, b2, b3]
    ensures b[k] == b0 && b[k + 1] == b1 && b[k + 2] == b2 && b[k + 3] == b3
  {
    var c := b[..k + 4];
    assert c[k] == b[k] && c[k + 1] == b[k + 1] && c[k + 2] == b[k + 2] && c[k + 3] == b[k + 3];
  }

  lemma SourceOffsetOfWritten(f: seq<byte>, n: nat, x: nat, y: nat)
    requires 1 <= n <= 255 && |f| >= 62 && x < n && y < n
    requires HeaderSize(f, 22) == 40 && DibWidth(f, 22) == n && DibHeight(f, 22) == 2 * n && Depth(f, 22) == 32
    ensures SourceOffset(f, 22, x, y) == 62 + ((n - 1 - y) * n + x) * 4
  {
    hide ImageSize, RowBytes, HeaderSize, DibWidth, DibHeight, Depth;
    RowsFillBody(n);
    FourTimes(n - 1 - y, n);
  }

  lemma FourTimes(q: int, n: int)
    ensures q * (n * 4) == q * n * 4
  {
  }

  /** Two images of the same size that show the same pixels are the same. */
  lemma SameImage(a: seq<byte>, b: seq<byte>, n: nat)
    requires n > 0 && |a| == n * n * 4 <= |b|
    requires forall x, y :: 0 <= x < n && 0 <= y < n ==> SamePixel(a, b, n, x, y)
    ensures b[..n * n * 4] == a
  {
    forall k | 0 <= k < n * n * 4 ensures a[k] == b[k] {
      PixelOf(n, k);
      assert SamePixel(a, b, n, k / 4 % n, k / 4 / n);
    }
  }

  ghost predicate SamePixel(a: seq<byte>, b: seq<byte>, n: nat, x: int, y: int) {
    exists p :: ShowsPixel(a, n, x, y, p) && ShowsPixel(b, n, x, y, p)
  }

  /** Decoding undoes writing: the size and every byte of the canvas come back. */
  method WriteThenParse(n: nat, px: seq<byte>, max: nat, rgba: array<byte>) returns (rc: Outcome, w: int, h: int)
    requires 2 <= n <= 255 && |px| == n * n * 4 && n <= max && n * n * 4 <= rgba.Length
    requires max < 0x400_0000 || rgba.Length < 0x1000_0000
    modifies rgba
    ensures rc == Done && w == n && h == n && rgba[..n * n * 4] == px
  {
    hide IconFile, Decodable, Fits, DecodedPixel, HasDirectory, ShowsPixel, Height, DibWidth, DibHeight, PixelsInFile;
    var f := WriteIco(n, px);
    WrittenIconDecodes(n, px, max, rgba.Length);
    ghost var k;
    rc, w, h, k := IcoParse(f, max, rgba);
    BestOfOne(f, max, rgba.Length);
    forall x, y | 0 <= x < n && 0 <= y < n ensures SamePixel(px, rgba[..], n, x, y) {
      WrittenPixel(n, px, max, rgba.Length, x, y);
      assert Copied(rgba[..], f, 0, max, rgba.Length, x, y);
    }
    SameImage(px, rgba[..], n);
  }

  /** A one-pixel icon is the exception: its entry is too short for the decoder's header test. */
  lemma OnePixelIconIsRejected(px: seq<byte>, max: nat)
    requires |px| == 4
    ensures HasDirectory(IconFile(1, px)) && Count(IconFile(1, px)) == 1 && !Decodable(IconFile(1, px), 0, max)
  {
    var f := IconFile(1, px);
    IconFileParts(1, px);
    DirectoryReads(f, 1);
    BitmapReads(f, 1);
  }

  lemma BestOfOne(f: seq<byte>, max: nat, cap: nat)
    requires HasDirectory(f) && Count(f) == 1 && Decodable(f, 0, max) && Fits(f, 0, max, cap) && PixelsInFile(f, 0)
    ensures IsBest(f, 0, Count(f), max) && !LeavesFile(f, max, cap) && !Hopeless(f, max, cap)
  {
    hide Fits, PixelsInFile, Probe;
    assert IsBest(f, 0, 1, max);
  }
}
