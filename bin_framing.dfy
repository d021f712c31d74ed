/*
  The byte framing of `bin_by_img/src/main.rs`: a file is stored as the
  RGBA bytes of an image. `encode` pads the content with zeros to the
  image's byte size, rotates the buffer right by four bytes and writes the
  content's length as a big-endian `u32` into the four bytes that the
  rotation brought to the front. `decode` reads that length back, rotates
  left by four bytes and keeps at most that many bytes.

  The buffers are arrays changed in place the way the source changes its
  `Vec<u8>`; `Framed` and `Unframed` are the reference definitions the
  methods are proved to compute.
*/
module BinFraming {

  /** A `u8`. */
  type Byte = x: int | 0 <= x < 256

  /** `size_of::<u32>()`: the bytes of one RGBA pixel, and the bytes of the length header. */
  const PixelSize: nat := 4
  const HeaderSize: nat := 4

  /** 2^32: `as u32` keeps the length modulo this. */
  const U32Range: nat := 0x1_0000_0000

  /** `u32::to_be_bytes`. */
  function ToBigEndian(x: nat): (b: seq<Byte>)
    requires x < U32Range
    ensures |b| == 4
  {
    [x / 0x100_0000, x / 0x1_0000 % 0x100, x / 0x100 % 0x100, x % 0x100]
  }

  /** `u32::from_be_bytes`. */
  function FromBigEndian(b: seq<Byte>): (x: nat)
    requires |b| == 4
    ensures x < U32Range
  {
    (b[0] as int) * 0x100_0000 + (b[1] as int) * 0x1_0000 + (b[2] as int) * 0x100 + b[3]
  }

  /** Reading back the bytes written gives the number back. */
  lemma FromToBigEndian(x: nat)
    requires x < U32Range
    ensures FromBigEndian(ToBigEndian(x)) == x
  {
    var q1, b3 := x / 0x100, x % 0x100;
    var q2, b2 := q1 / 0x100, q1 % 0x100;
    var b0, b1 := q2 / 0x100, q2 % 0x100;
    assert x == b0 * 0x100_0000 + b1 * 0x1_0000 + b2 * 0x100 + b3;
    DivModOf(b0, b1 * 0x1_0000 + b2 * 0x100 + b3, 0x100_0000);
    DivModOf(b0 * 0x100 + b1, b2 * 0x100 + b3, 0x1_0000);
    DivModOf(b0, b1, 0x100);
    assert ToBigEndian(x) == [b0, b1, b2, b3];
  }

  /** Writing the number read gives the bytes back. */
  lemma ToFromBigEndian(b: seq<Byte>)
    requires |b| == 4
    ensures ToBigEndian(FromBigEndian(b)) == b
  {
    var b0, b1, b2, b3 := b[0] as int, b[1] as int, b[2] as int, b[3] as int;
    DivModOf(b0, b1 * 0x1_0000 + b2 * 0x100 + b3, 0x100_0000);
    DivModOf(b0 * 0x100 + b1, b2 * 0x100 + b3, 0x1_0000);
    DivModOf(b0, b1, 0x100);
    DivModOf(b0 * 0x1_0000 + b1 * 0x100 + b2, b3, 0x100);
    DivModOf(b0 * 0x100 + b1, b2, 0x100);
  }

  /** Division by `d` recovers the quotient and the remainder of `q * d + r`. */
  lemma DivModOf(q: int, r: int, d: int)
    requires d > 0 && 0 <= r < d
    ensures (q * d + r) / d == q && (q * d + r) % d == r
  {
    var x := q * d + r;
    var q', r' := x / d, x % d;
    assert (q' - q) * d == r - r';
    if q' > q {
      MulAtLeast(q' - q, d);
    } else if q' < q {
      MulAtLeast(q - q', d);
    }
  }

  /** A positive multiple of `d` is at least `d`. */
  lemma MulAtLeast(a: int, d: int)
    requires a >= 1 && d > 0
    ensures a * d >= d
  {
  }

  /** `resize_with(n, u8::default)`: cut to `n` bytes, or pad with zeros up to `n`. */
  function Resize(s: seq<Byte>, n: nat): (r: seq<Byte>)
    ensures |r| == n
  {
    if n <= |s| then s[..n] else s + seq(n - |s|, _ => 0)
  }

  /** `rotate_right(k)`: the last `k` bytes move to the front. */
  function RotatedRight(s: seq<Byte>, k: nat): seq<Byte>
    requires k <= |s|
  {
    s[|s| - k..] + s[..|s| - k]
  }

  /** `rotate_left(k)`: the first `k` bytes move to the back. */
  function RotatedLeft(s: seq<Byte>, k: nat): seq<Byte>
    requires k <= |s|
  {
    s[k..] + s[..k]
  }

  /** Where a byte ends up after `rotate_right`. */
  lemma RotatedRightAt(s: seq<Byte>, k: nat, m: nat)
    requires k <= |s| && m < |s|
    ensures RotatedRight(s, k)[m] == if m < k then s[|s| - k + m] else s[m - k]
  {
  }

  /** Where a byte ends up after `rotate_left`. */
  lemma RotatedLeftAt(s: seq<Byte>, k: nat, m: nat)
    requires k <= |s| && m < |s|
    ensures RotatedLeft(s, k)[m] == if m < |s| - k then s[m + k] else s[m - (|s| - k)]
  {
  }

  /** Rotating left undoes rotating right. */
  lemma RotateLeftUndoesRight(s: seq<Byte>, k: nat)
    requires k <= |s|
    ensures RotatedLeft(RotatedRight(s, k), k) == s
  {
    var r := RotatedRight(s, k);
    assert r[k..] == s[..|s| - k];
    assert r[..k] == s[|s| - k..];
  }

  /** The buffer `encode` hands to the image: resized, rotated right by four, with the length header over the first four bytes. */
  function Framed(content: seq<Byte>, size: nat): seq<Byte>
    requires size >= HeaderSize
  {
    var rotated := RotatedRight(Resize(content, size), HeaderSize);
    ToBigEndian(|content| % U32Range) + rotated[HeaderSize..]
  }

  /** The bytes `decode` writes out: after rotating left by four, the first `min(len, |raw| - 4)`. */
  function Unframed(raw: seq<Byte>): seq<Byte>
    requires |raw| >= HeaderSize
  {
    var len := FromBigEndian(raw[..HeaderSize]);
    var n := if len < |raw| - HeaderSize then len else |raw| - HeaderSize;
    RotatedLeft(raw, HeaderSize)[..n]
  }

  /** A pixel count of `ceil((len + 4) / 4)` or more leaves room for the header and the content. */
  lemma PixelsCoverContent(len: nat, pixels: nat)
    requires pixels >= (len + HeaderSize + PixelSize - 1) / PixelSize
    ensures pixels * PixelSize >= len + HeaderSize
  {
  }

  /**
    When the image is large enough, the framed buffer has the image's size,
    starts with the big-endian length of the content, then holds the
    content, then only zeros.
   */
  lemma FramedLayout(content: seq<Byte>, size: nat)
    requires size >= |content| + HeaderSize
    ensures |Framed(content, size)| == size
    ensures Framed(content, size)[..HeaderSize] == ToBigEndian(|content| % U32Range)
    ensures Framed(content, size)[HeaderSize..HeaderSize + |content|] == content
    ensures forall i :: HeaderSize + |content| <= i < size ==> Framed(content, size)[i] == 0
  {
    var resized := Resize(content, size);
    var f := Framed(content, size);
    assert RotatedRight(resized, HeaderSize)[HeaderSize..] == resized[..size - HeaderSize];
    assert f[HeaderSize..] == resized[..size - HeaderSize];
    assert resized[..|content|] == content;
    forall i | HeaderSize + |content| <= i < size ensures f[i] == 0 {
      assert f[i] == resized[i - HeaderSize];
    }
  }

  /** Decoding keeps what follows the header, up to the length it names or the end of the buffer. */
  lemma UnframedReadsAfterHeader(raw: seq<Byte>)
    requires |raw| >= HeaderSize
    ensures var len := FromBigEndian(raw[..HeaderSize]);
      Unframed(raw) == raw[HeaderSize..HeaderSize + if len < |raw| - HeaderSize then len else |raw| - HeaderSize]
  {
  }

  /** The decoded output is never longer than the buffer without its header, nor than the length in the header. */
  lemma UnframedLength(raw: seq<Byte>)
    requires |raw| >= HeaderSize
    ensures |Unframed(raw)| <= |raw| - HeaderSize
    ensures |Unframed(raw)| <= FromBigEndian(raw[..HeaderSize])
  {
  }

  /**
    Decoding an encoded buffer gives back the content, cut to its length
    modulo 2^32, which is the whole content below 4 GiB.
   */
  lemma RoundTrip(content: seq<Byte>, size: nat)
    requires size >= |content| + HeaderSize
    ensures Unframed(Framed(content, size)) == content[..|content| % U32Range]
    ensures |content| < U32Range ==> Unframed(Framed(content, size)) == content
  {
    var f := Framed(content, size);
    FramedLayout(content, size);
    FromToBigEndian(|content| % U32Range);
    UnframedReadsAfterHeader(f);
    assert f[..HeaderSize][..HeaderSize] == f[..HeaderSize];
    assert f[HeaderSize..HeaderSize + |content| % U32Range] == content[..|content| % U32Range];
  }

  /** `Vec::rotate_right` on a buffer, in place: save the last `k` bytes, shift the rest up, put the saved bytes first. */
  method RotateRight(a: array<Byte>, k: nat)
    requires k <= a.Length
    modifies a
    ensures a[..] == RotatedRight(old(a[..]), k)
  {
    ghost var s := a[..];
    var n := a.Length;
    var tail := a[n - k..];
    ShiftUp(a, k);
    for j := 0 to k
      invariant forall m :: 0 <= m < j ==> a[m] == tail[m]
      invariant forall m :: k <= m < n ==> a[m] == s[m - k]
    {
      a[j] := tail[j];
    }
    forall m | 0 <= m < n ensures a[m] == RotatedRight(s, k)[m] {
      RotatedRightAt(s, k, m);
    }
  }

  /** Move every byte but the last `k` up by `k` places, from the top down. */
  method ShiftUp(a: array<Byte>, k: nat)
    requires k <= a.Length
    modifies a
    ensures forall m :: 0 <= m < k ==> a[m] == old(a[m])
    ensures forall m :: k <= m < a.Length ==> a[m] == old(a[m - k])
  {
    ghost var s := a[..];
    var i := a.Length;
    while i > k
      invariant k <= i <= a.Length
      invariant forall j :: 0 <= j < i ==> a[j] == s[j]
      invariant forall j :: i <= j < a.Length ==> a[j] == s[j - k]
    {
      a[i - 1] := a[i - 1 - k];
      i := i - 1;
    }
  }

  /** `Vec::rotate_left` on a buffer, in place: save the first `k` bytes, shift the rest down, put the saved bytes last. */
  method RotateLeft(a: array<Byte>, k: nat)
    requires k <= a.Length
    modifies a
    ensures a[..] == RotatedLeft(old(a[..]), k)
  {
    ghost var s := a[..];
    var n := a.Length;
    var head := a[..k];
    ShiftDown(a, k);
    for j := 0 to k
      invariant forall m :: 0 <= m < n - k ==> a[m] == s[m + k]
      invariant forall m :: n - k <= m < n - k + j ==> a[m] == head[m - (n - k)]
    {
      a[n - k + j] := head[j];
    }
    forall m | 0 <= m < n ensures a[m] == RotatedLeft(s, k)[m] {
      RotatedLeftAt(s, k, m);
    }
  }

  /** Move every byte but the first `k` down by `k` places, from the bottom up. */
  method ShiftDown(a: array<Byte>, k: nat)
    requires k <= a.Length
    modifies a
    ensures forall m :: 0 <= m < a.Length - k ==> a[m] == old(a[m + k])
    ensures forall m :: a.Length - k <= m < a.Length ==> a[m] == old(a[m])
  {
    ghost var s := a[..];
    for i := 0 to a.Length - k
      invariant forall m :: 0 <= m < i ==> a[m] == s[m + k]
      invariant forall m :: i <= m < a.Length ==> a[m] == s[m]
    {
      a[i] := a[i + k];
    }
  }

  /**
    The buffer logic of `encode`: `content.resize_with(width * height * 4, 0)`,
    `rotate_right(4)`, then the big-endian `u32` length over the first four
    bytes. The image must have at least one pixel, or the rotation would panic.
   */
  method EncodeFrame(content: seq<Byte>, width: nat, height: nat) returns (out: seq<Byte>)
    requires width * height >= 1
    ensures out == Framed(content, width * height * PixelSize)
  {
    var size := width * height * PixelSize;
    ghost var resized := Resize(content, size);
    var buf := new Byte[size];
    for i := 0 to size
      invariant forall m :: 0 <= m < i ==> buf[m] == resized[m]
    {
      buf[i] := if i < |content| then content[i] else 0;
    }
    assert buf[..] == resized;
    RotateRight(buf, HeaderSize);
    var header := ToBigEndian(|content| % U32Range);
    ghost var rotated := buf[..];
    for j := 0 to HeaderSize
      invariant forall m :: 0 <= m < j ==> buf[m] == header[m]
      invariant forall m :: HeaderSize <= m < size ==> buf[m] == rotated[m]
    {
      buf[j] := header[j];
    }
    out := buf[..];
    assert forall m :: 0 <= m < size ==> out[m] == Framed(content, size)[m];
  }

  /**
    The buffer logic of `decode`: copy the header out of the first four
    bytes, rotate a clone of the pixels left by four, and keep
    `min(len, |raw| - 4)` bytes. The header copy panics on fewer than four
    bytes.
   */
  method DecodeFrame(raw: seq<Byte>) returns (out: seq<Byte>)
    requires |raw| >= HeaderSize
    ensures out == Unframed(raw)
  {
    var header := raw[..HeaderSize];
    var len := FromBigEndian(header);
    var buf := new Byte[|raw|](i requires 0 <= i < |raw| => raw[i]);
    assert buf[..] == raw;
    RotateLeft(buf, HeaderSize);
    var available := buf.Length - HeaderSize;
    var n := if len < available then len else available;
    out := buf[..n];
  }
}
