/** Vocabulary shared by every module: bytes, NUL-terminated strings, machine widths. */
module Bytes {
  type byte = x: int | 0 <= x < 256

  /** The bytes of a C string before its terminator. */
  type CString = s: seq<byte> | 0 !in s witness []

  const U32: int := 0x1_0000_0000

  /** 32-bit unsigned arithmetic keeps the low 32 bits. */
  function Wrap32(x: int): (r: nat)
    ensures r < 0x1_0000_0000 && (0 <= x < 0x1_0000_0000 ==> r == x)
  {
    x % 0x1_0000_0000
  }

  /** Reading a NUL-terminated string at index `i`: the terminator sits at `|s|`. */
  function At(s: seq<byte>, i: nat): byte {
    if i < |s| then s[i] else 0
  }

  datatype Option<+T> = None | Some(value: T)

  lemma SliceOfSlice<T>(h: seq<T>, a: nat, b: nat, c: nat, d: nat)
    requires a <= b <= |h| && c <= d <= b - a
    ensures h[a..b][c..d] == h[a + c..a + d]
  {
    var outer := h[a..b];
    forall i | 0 <= i < d - c ensures outer[c..d][i] == h[a + c..a + d][i] {
      assert outer[c..d][i] == outer[c + i] == h[a + (c + i)] == h[a + c + i];
    }
  }

  // ---------------------------------------------------------- little-endian numbers

  function U16At(h: seq<byte>, i: nat): (v: nat)
    requires i + 2 <= |h|
    ensures v < 65536
  {
    h[i] as int + 256 * h[i + 1] as int
  }

  function U32At(h: seq<byte>, i: nat): (v: nat)
    requires i + 4 <= |h|
    ensures v < U32
  {
    h[i] as int + 256 * h[i + 1] as int + 65536 * h[i + 2] as int + 16777216 * h[i + 3] as int
  }

  function Le32(n: nat): (b: seq<byte>)
    requires n < U32
    ensures |b| == 4
  {
    [n % 256, n / 256 % 256, n / 65536 % 256, n / 16777216]
  }

  lemma Le32Reads(h: seq<byte>, i: nat, n: nat)
    requires n < U32 && i + 4 <= |h| && h[i..i + 4] == Le32(n)
    ensures U32At(h, i) == n
  {
    var b := h[i..i + 4];
    assert h[i] == b[0] && h[i + 1] == b[1] && h[i + 2] == b[2] && h[i + 3] == b[3];
    var q := n / 256;
    assert n / 65536 == q / 256 && n / 16777216 == (q / 256) / 256;
  }
}
