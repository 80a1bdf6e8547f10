/**
 * Screenshots (`PrintScree`): the last video frame, in the core's pixel
 * format and with its row pitch, converted to packed 8-bit RGB. Saving the
 * image file is not modelled; the result is the RGB buffer handed to it.
 */
module PrintScreen {
  import opened Wrappers
  import AvInfo

  /** `RawTextureData`: the frame's bytes, its size in pixels and the byte distance between rows. */
  datatype Texture = Texture(data: seq<bv8>, width: nat, height: nat, pitch: nat)

  /** Bytes per pixel of a supported format. */
  function BytesPerPixel(format: nat): nat
  {
    if format == AvInfo.PIXEL_FORMAT_XRGB8888 then 4 else 2
  }

  /** Every row the converter reads lies inside the frame's bytes. */
  predicate Covers(t: Texture, bpp: nat)
  {
    t.height == 0 || (t.height - 1) * t.pitch + t.width * bpp <= |t.data|
  }

  predicate Supported(format: nat)
  {
    format == AvInfo.PIXEL_FORMAT_XRGB8888 || format == AvInfo.PIXEL_FORMAT_0RGB1555
    || format == AvInfo.PIXEL_FORMAT_RGB565
  }

  /** A 5-bit channel widened to 8 bits by repeating its top bits: `(v << 3) | (v >> 2)`. */
  function Expand5(v: bv8): bv8
  {
    (v << 3) | (v >> 2)
  }

  /** A 6-bit channel widened to 8 bits: `(v << 2) | (v >> 4)`. */
  function Expand6(v: bv8): bv8
  {
    (v << 2) | (v >> 4)
  }

  /** On 5-bit values the expansion spans the whole byte range, keeps order and keeps `v` as its top bits. */
  lemma Expand5Properties(v: bv8, w: bv8)
    requires v < 32 && w < 32
    ensures Expand5(0) == 0 && Expand5(31) == 255
    ensures v < w ==> Expand5(v) < Expand5(w)
    ensures Expand5(v) >> 3 == v
    ensures Expand5(v) as int == 8 * v as int + v as int / 4
  {
  }

  /** On 6-bit values the expansion spans the whole byte range, keeps order and keeps `v` as its top bits. */
  lemma Expand6Properties(v: bv8, w: bv8)
    requires v < 64 && w < 64
    ensures Expand6(0) == 0 && Expand6(63) == 255
    ensures v < w ==> Expand6(v) < Expand6(w)
    ensures Expand6(v) >> 2 == v
    ensures Expand6(v) as int == 4 * v as int + v as int / 16
  {
  }

  /** The channels of one 0RGB1555 pixel: red from bits 14-10, green from 9-5, blue from 4-0. */
  function From1555(p: bv16): seq<bv8>
  {
    [Expand5(((p >> 10) & 0x1F) as bv8),
     Expand5(((p >> 5) & 0x1F) as bv8),
     Expand5((p & 0x1F) as bv8)]
  }

  /** The channels of one RGB565 pixel: red from bits 15-11, green from 10-5, blue from 4-0. */
  function From565(p: bv16): seq<bv8>
  {
    [Expand5(((p >> 11) & 0x1F) as bv8),
     Expand6(((p >> 5) & 0x3F) as bv8),
     Expand5((p & 0x1F) as bv8)]
  }

  /** Bit 15 of a 0RGB1555 pixel never shows. */
  lemma From1555IgnoresTopBit(p: bv16)
    ensures From1555(p | 0x8000) == From1555(p & 0x7FFF)
    ensures From1555(p) == From1555(p & 0x7FFF)
  {
    assert ((p | 0x8000) >> 10) & 0x1F == ((p & 0x7FFF) >> 10) & 0x1F == (p >> 10) & 0x1F;
    assert ((p | 0x8000) >> 5) & 0x1F == ((p & 0x7FFF) >> 5) & 0x1F == (p >> 5) & 0x1F;
    assert (p | 0x8000) & 0x1F == (p & 0x7FFF) & 0x1F == p & 0x1F;
  }

  /** Pure black and pure white map to black and white in both 16-bit formats. */
  lemma BlackAndWhite()
    ensures From1555(0) == [0, 0, 0] && From1555(0x7FFF) == [255, 255, 255]
    ensures From565(0) == [0, 0, 0] && From565(0xFFFF) == [255, 255, 255]
  {
  }

  /** The little-endian 16-bit value of two bytes. */
  function LittleEndian16(lo: bv8, hi: bv8): bv16
  {
    (lo as bv16) | ((hi as bv16) << 8)
  }

  /** The RGB bytes of pixel (x, y): XRGB8888 is stored B, G, R, X; the 16-bit formats little-endian. */
  function PixelRgb(t: Texture, format: nat, x: nat, y: nat): (rgb: seq<bv8>)
    requires Supported(format) && Covers(t, BytesPerPixel(format)) && x < t.width && y < t.height
    ensures |rgb| == 3
  {
    RowBound(t, BytesPerPixel(format), y);
    var off := y * t.pitch + x * BytesPerPixel(format);
    if format == AvInfo.PIXEL_FORMAT_XRGB8888 then [t.data[off + 2], t.data[off + 1], t.data[off]]
    else
      var p := LittleEndian16(t.data[off], t.data[off + 1]);
      if format == AvInfo.PIXEL_FORMAT_0RGB1555 then From1555(p) else From565(p)
  }

  lemma RowBound(t: Texture, bpp: nat, y: nat)
    requires Covers(t, bpp) && y < t.height
    ensures y * t.pitch + t.width * bpp <= |t.data|
  {
    assert y * t.pitch <= (t.height - 1) * t.pitch by {
      assert y <= t.height - 1;
    }
  }

  /** The first `x` pixels of row `y`, converted. */
  function RowPrefix(t: Texture, format: nat, y: nat, x: nat): (r: seq<bv8>)
    requires Supported(format) && Covers(t, BytesPerPixel(format)) && x <= t.width && y < t.height
    ensures |r| == 3 * x
  {
    if x == 0 then [] else RowPrefix(t, format, y, x - 1) + PixelRgb(t, format, x - 1, y)
  }

  /** The first `y` rows, converted. */
  function Rows(t: Texture, format: nat, y: nat): (r: seq<bv8>)
    requires Supported(format) && Covers(t, BytesPerPixel(format)) && y <= t.height
    ensures |r| == 3 * t.width * y
  {
    if y == 0 then [] else Rows(t, format, y - 1) + RowPrefix(t, format, y - 1, t.width)
  }

  /** The converted frame. */
  function Frame(t: Texture, format: nat): seq<bv8>
    requires Supported(format) && Covers(t, BytesPerPixel(format))
  {
    Rows(t, format, t.height)
  }

  /** Pixel (x, y) of the frame sits at offset 3 * (y * width + x). */
  lemma {:induction false} FrameAt(t: Texture, format: nat, x: nat, y: nat)
    requires Supported(format) && Covers(t, BytesPerPixel(format)) && x < t.width && y < t.height
    ensures 3 * (y * t.width + x) + 3 <= |Frame(t, format)|
    ensures Frame(t, format)[3 * (y * t.width + x)..3 * (y * t.width + x) + 3] == PixelRgb(t, format, x, y)
  {
    RowsAt(t, format, x, y, t.height);
  }

  lemma RowsAt(t: Texture, format: nat, x: nat, y: nat, rows: nat)
    requires Supported(format) && Covers(t, BytesPerPixel(format)) && x < t.width && y < rows <= t.height
    ensures 3 * (y * t.width + x) + 3 <= |Rows(t, format, rows)|
    ensures Rows(t, format, rows)[3 * (y * t.width + x)..3 * (y * t.width + x) + 3] == PixelRgb(t, format, x, y)
  {
    var i := 3 * (y * t.width + x);
    var upTo, all := Rows(t, format, y + 1), Rows(t, format, rows);
    Offset(t.width, x, y, y + 1);
    Offset(t.width, x, y, rows);
    LastRowAt(t, format, x, y);
    RowsPrefix(t, format, y + 1, rows);
    SlicePrefix(upTo, all, i);
  }

  /** The first rows converted are a prefix of any more rows converted. */
  lemma {:induction false} RowsPrefix(t: Texture, format: nat, a: nat, b: nat)
    requires Supported(format) && Covers(t, BytesPerPixel(format)) && a <= b <= t.height
    ensures Rows(t, format, a) <= Rows(t, format, b)
    decreases b
  {
    if a < b {
      RowsPrefix(t, format, a, b - 1);
    }
  }

  lemma SlicePrefix(a: seq<bv8>, b: seq<bv8>, i: nat)
    requires a <= b && i + 3 <= |a|
    ensures b[i..i + 3] == a[i..i + 3]
  {
    assert b[..|a|] == a;
  }

  /** Pixel (x, y) of the frame's last row counted so far sits in that row. */
  lemma LastRowAt(t: Texture, format: nat, x: nat, y: nat)
    requires Supported(format) && Covers(t, BytesPerPixel(format)) && x < t.width && y < t.height
    ensures Rows(t, format, y + 1)[3 * (y * t.width + x)..3 * (y * t.width + x) + 3] == PixelRgb(t, format, x, y)
  {
    var before, row := Rows(t, format, y), RowPrefix(t, format, y, t.width);
    var i := 3 * (y * t.width + x);
    assert Rows(t, format, y + 1) == before + row;
    BeforeLength(t.width, y);
    assert |before| == 3 * (y * t.width) && |row| == 3 * t.width;
    assert i == |before| + 3 * x;
    RowPrefixAt(t, format, x, y, t.width);
    SliceRight(before, row, i);
  }

  /** Pixel (x, y) ends inside the first `r` rows. */
  lemma Offset(w: nat, x: nat, y: nat, r: nat)
    requires x < w && y < r
    ensures 0 <= y * w && 3 * (y * w + x) + 3 <= 3 * w * r
  {
    assert y * w + x + 1 <= (y + 1) * w;
    assert (y + 1) * w <= r * w;
  }

  lemma SliceRight(a: seq<bv8>, b: seq<bv8>, i: nat)
    requires |a| <= i && i + 3 <= |a| + |b|
    ensures (a + b)[i..i + 3] == b[i - |a|..i - |a| + 3]
  {
  }

  lemma BeforeLength(w: nat, y: nat)
    ensures 3 * w * y == 3 * (y * w)
  {
  }

  lemma {:induction false} RowPrefixAt(t: Texture, format: nat, x: nat, y: nat, n: nat)
    requires Supported(format) && Covers(t, BytesPerPixel(format)) && x < n <= t.width && y < t.height
    ensures RowPrefix(t, format, y, n)[3 * x..3 * x + 3] == PixelRgb(t, format, x, y)
    decreases n
  {
    var before := RowPrefix(t, format, y, n - 1);
    if x < n - 1 {
      RowPrefixAt(t, format, x, y, n - 1);
      assert (before + PixelRgb(t, format, n - 1, y))[3 * x..3 * x + 3] == before[3 * x..3 * x + 3];
    } else {
      assert (before + PixelRgb(t, format, n - 1, y))[3 * x..3 * x + 3] == PixelRgb(t, format, n - 1, y);
    }
  }

  /** Two frames that agree on every pixel agree as converted frames: padding bytes past a row never count. */
  lemma {:induction false} PaddingIgnored(t: Texture, u: Texture, format: nat, rows: nat)
    requires Supported(format) && Covers(t, BytesPerPixel(format)) && Covers(u, BytesPerPixel(format))
    requires t.width == u.width && t.height == u.height && t.pitch == u.pitch && rows <= t.height
    requires forall y, k :: 0 <= y < t.height && 0 <= k < t.width * BytesPerPixel(format) ==>
      RowByte(t, format, y, k) == RowByte(u, format, y, k)
    ensures Rows(t, format, rows) == Rows(u, format, rows)
    decreases rows
  {
    if rows > 0 {
      PaddingIgnored(t, u, format, rows - 1);
      RowPrefixSame(t, u, format, rows - 1, t.width);
    }
  }

  /** Byte `k` of row `y`. */
  function RowByte(t: Texture, format: nat, y: nat, k: nat): bv8
    requires Covers(t, BytesPerPixel(format)) && y < t.height && k < t.width * BytesPerPixel(format)
  {
    RowBound(t, BytesPerPixel(format), y);
    t.data[y * t.pitch + k]
  }

  lemma {:induction false} RowPrefixSame(t: Texture, u: Texture, format: nat, y: nat, n: nat)
    requires Supported(format) && Covers(t, BytesPerPixel(format)) && Covers(u, BytesPerPixel(format))
    requires t.width == u.width && t.height == u.height && t.pitch == u.pitch && y < t.height && n <= t.width
    requires forall k :: 0 <= k < t.width * BytesPerPixel(format) ==>
      RowByte(t, format, y, k) == RowByte(u, format, y, k)
    ensures RowPrefix(t, format, y, n) == RowPrefix(u, format, y, n)
    decreases n
  {
    if n > 0 {
      RowPrefixSame(t, u, format, y, n - 1);
      PixelSame(t, u, format, n - 1, y);
    }
  }

  lemma PixelSame(t: Texture, u: Texture, format: nat, x: nat, y: nat)
    requires Supported(format) && Covers(t, BytesPerPixel(format)) && Covers(u, BytesPerPixel(format))
    requires t.width == u.width && t.height == u.height && t.pitch == u.pitch && y < t.height && x < t.width
    requires forall k :: 0 <= k < t.width * BytesPerPixel(format) ==>
      RowByte(t, format, y, k) == RowByte(u, format, y, k)
    ensures PixelRgb(t, format, x, y) == PixelRgb(u, format, x, y)
  {
    var b := BytesPerPixel(format);
    assert x * b + b <= t.width * b by {
      assert (x + 1) * b <= t.width * b;
    }
    assert RowByte(t, format, y, x * b) == RowByte(u, format, y, x * b);
    assert RowByte(t, format, y, x * b + 1) == RowByte(u, format, y, x * b + 1);
    if b == 4 {
      assert RowByte(t, format, y, x * b + 2) == RowByte(u, format, y, x * b + 2);
    }
  }

  /**
   * The conversion loops of `_from_xrgb8888`, `_from_0rgb1555` and
   * `_from_rgb565`: rows top to bottom, each row's pixels left to right,
   * three bytes pushed per pixel.
   */
  method Convert(t: Texture, format: nat) returns (img: seq<bv8>)
    requires Supported(format) && Covers(t, BytesPerPixel(format))
    ensures img == Frame(t, format)
  {
    img := [];
    var y := 0;
    while y < t.height
      invariant 0 <= y <= t.height
      invariant img == Rows(t, format, y)
    {
      img := ConvertRow(t, format, y, img);
      y := y + 1;
    }
  }

  /** The inner loop: the pixels of row `y`, left to right, pushed after what `img` holds. */
  method ConvertRow(t: Texture, format: nat, y: nat, img0: seq<bv8>) returns (img: seq<bv8>)
    requires Supported(format) && Covers(t, BytesPerPixel(format)) && y < t.height
    ensures img == img0 + RowPrefix(t, format, y, t.width)
  {
    img := img0;
    var x := 0;
    while x < t.width
      invariant 0 <= x <= t.width
      invariant img == img0 + RowPrefix(t, format, y, x)
    {
      img := img + PixelRgb(t, format, x, y);
      x := x + 1;
    }
  }

  /** `PrintScree::take`: converts the frame in the current pixel format; an unknown format is an error. */
  method Take(t: Texture, pixelFormat: nat) returns (r: Result<seq<bv8>>)
    requires Supported(pixelFormat) ==> Covers(t, BytesPerPixel(pixelFormat))
    ensures r.Ok? <==> Supported(pixelFormat)
    ensures r.Ok? ==> r.value == Frame(t, pixelFormat) && |r.value| == 3 * t.width * t.height
  {
    if !Supported(pixelFormat) {
      return Err("Formato de pixel desconhecido");
    }
    var img := Convert(t, pixelFormat);
    r := Ok(img);
  }
}
