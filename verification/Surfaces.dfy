/** Pixels of a surface as bytes of a buffer, and what drawing means. */
module Surfaces {
  import Bits
  import SectorCache

  type Byte = SectorCache.Byte
  const WORD: nat := 0x1_0000_0000

  datatype Format = Indexed8 | Rgb565 | Rgb888 | Xrgb8888
  datatype Surface = Surface(width: nat, height: nat, pitch: nat, depth: nat, format: Format)

  /** Bytes per pixel. */
  function Size(s: Surface): (r: nat)
  {
    (s.depth + 7) / 8
  }

  /** `graphics_surface_is_valid` */
  predicate IsValid(s: Surface)
  {
    && s.width != 0 && s.height != 0 && s.pitch >= s.width * Size(s) % WORD
    && (s.depth == 8 || s.depth == 16 || s.depth == 24 || s.depth == 32)
  }

  /** Unless a row's length wraps, a surface is valid exactly when its rows hold its pixels at a known depth. */
  lemma ValidExact(s: Surface)
    requires s.width * 4 < WORD
    ensures IsValid(s) <==>
              && s.width > 0 && s.height > 0 && s.depth in {8, 16, 24, 32} && s.width * s.depth <= s.pitch * 8
  {
    if s.depth in {8, 16, 24, 32} {
      assert s.width * s.depth == s.width * Size(s) * 8;
    }
  }

  /** The rows of a valid surface lie in a buffer of `n` bytes, and no row length wraps. */
  predicate Fits(s: Surface, n: nat)
  {
    IsValid(s) ==> s.width * Size(s) < WORD && s.height * s.pitch <= n < WORD
  }

  predicate Inside(s: Surface, x: nat, y: nat)
  {
    x < s.width && y < s.height
  }

  /** Where pixel (x, y) starts. */
  function At(s: Surface, x: nat, y: nat): (r: nat)
  {
    y * s.pitch + x * Size(s)
  }

  // ---------------------------------------------------------------- positions

  lemma Times(a: nat, b: nat, n: nat)
    requires a <= b
    ensures a * n <= b * n
  {
  }

  lemma AtBound(s: Surface, n: nat, x: nat, y: nat, count: nat)
    requires IsValid(s) && Fits(s, n) && x + count <= s.width && y < s.height
    ensures At(s, x, y) + count * Size(s) <= y * s.pitch + s.pitch <= s.height * s.pitch <= n
  {
    Times(x + count, s.width, Size(s));
    Times(y + 1, s.height, s.pitch);
    assert (x + count) * Size(s) == x * Size(s) + count * Size(s);
    assert (y + 1) * s.pitch == y * s.pitch + s.pitch;
  }

  /** Different pixels use different bytes. */
  lemma AtApart(s: Surface, n: nat, x: nat, y: nat, c: nat, r: nat)
    requires IsValid(s) && Fits(s, n) && Inside(s, x, y) && Inside(s, c, r) && (x != c || y != r)
    ensures At(s, x, y) + Size(s) <= At(s, c, r) || At(s, c, r) + Size(s) <= At(s, x, y)
  {
    AtBound(s, n, x, y, 1);
    AtBound(s, n, c, r, 1);
    if y == r {
      if x < c { Step(x, c, Size(s)); } else { Step(c, x, Size(s)); }
    } else {
      if y < r { Step(y, r, s.pitch); } else { Step(r, y, s.pitch); }
    }
  }

  lemma Step(a: nat, b: nat, n: nat)
    requires a < b
    ensures a * n + n <= b * n
  {
    Times(a + 1, b, n);
    assert (a + 1) * n == a * n + n;
  }

  lemma Next(s: Surface, x: nat, y: nat, c: nat)
    ensures At(s, x + c, y) == At(s, x, y) + c * Size(s)
  {
  }

  // ---------------------------------------------------------------- colours

  const PALETTE: seq<nat> := [
    0x000000, 0x0000AA, 0x00AA00, 0x00AAAA, 0xAA0000, 0xAA00AA, 0xAA5500, 0xAAAAAA,
    0x555555, 0x5555FF, 0x55FF55, 0x55FFFF, 0xFF5555, 0xFF55FF, 0xFFFF55, 0xFFFFFF]

  /** `palette_color` */
  function Mapped(color: nat): (r: nat)
    requires color < WORD
    ensures r < WORD
  {
    if color < 16 then PALETTE[color] else color
  }

  /** `color_to_rgb565`: five bits of red, six of green, five of blue. */
  function Rgb565Of(color: nat): (r: nat)
    requires color < WORD
    ensures r < 0x1_0000
  {
    var c := Mapped(color);
    High(c / 0x1_0000, 8) * 2048 + High(c / 0x100, 4) * 32 + High(c, 8)
  }

  /** Each of the sixteen colours: bits 0, 1 and 2 of its number switch blue, green and red, and bit 3 adds intensity;
      only brown has half its green. */
  lemma PaletteRule(i: nat)
    requires i < 16
    ensures PALETTE[i] == 0x1_0000 * Channel(i / 4, i / 8) + 0x100 * (if i == 6 then 0x55 else Channel(i / 2, i / 8))
                          + Channel(i, i / 8)
  {
  }

  function Channel(on: nat, bright: nat): (r: nat)
    ensures r < 256
  {
    (if on % 2 == 1 then 0xAA else 0) + (if bright % 2 == 1 then 0x55 else 0)
  }

  /** The channels of a 16-bit pixel are the high bits of those of the colour: red on top, blue at the bottom. */
  lemma Rgb565Channels(color: nat)
    requires color < WORD
    ensures Rgb565Of(color) / 2048 == Mapped(color) / 0x1_0000 % 256 / 8
    ensures Rgb565Of(color) / 32 % 64 == Mapped(color) / 0x100 % 256 / 4
    ensures Rgb565Of(color) % 32 == Mapped(color) % 256 / 8
  {
    hide Mapped;
    var c := Mapped(color);
    Packed(High(c / 0x1_0000, 8), High(c / 0x100, 4), High(c, 8));
  }

  lemma Packed(r: nat, g: nat, b: nat)
    requires r < 32 && g < 64 && b < 32
    ensures var v := r * 2048 + g * 32 + b; v / 2048 == r && v / 32 % 64 == g && v % 32 == b
  {
  }

  /** The high bits of the low byte. */
  function High(v: nat, step: nat): (r: nat)
    requires step == 4 || step == 8
    ensures r < 256 / step
  {
    if step == 4 then v % 256 / 4 else v % 256 / 8
  }

  /** `v` in `n` little-endian bytes; higher bits are dropped. */
  function Le(v: nat, n: nat): (b: seq<Byte>)
    ensures |b| == n
  {
    if n == 0 then [] else [v % 256] + Le(v / 256, n - 1)
  }

  /** Byte `i` is the `i`-th from the low end. */
  lemma {:induction false} LeByte(v: nat, n: nat, i: nat)
    requires i < n
    ensures Le(v, n)[i] == v / Pow256(i) % 256
    decreases n
  {
    if i > 0 {
      LeByte(v / 256, n - 1, i - 1);
      Divided(v, Pow256(i - 1));
    }
  }

  lemma Divided(v: nat, d: nat)
    requires d > 0
    ensures v / 256 / d == v / (256 * d)
  {
    var q := v / 256 / d;
    assert q * d <= v / 256 < q * d + d;
    assert 256 * (q * d) <= v < 256 * (q * d) + 256 * d;
    Bits.Quotient(v, q, 256 * d);
  }

  function ValueOf(b: seq<Byte>): (v: nat)
  {
    if b == [] then 0 else b[0] + 256 * ValueOf(b[1..])
  }

  function Pow256(n: nat): (r: nat)
    ensures r > 0
  {
    if n == 0 then 1 else 256 * Pow256(n - 1)
  }

  lemma {:induction false} LeRoundTrip(v: nat, n: nat)
    ensures v < Pow256(n) ==> ValueOf(Le(v, n)) == v
  {
    if n > 0 {
      LeRoundTrip(v / 256, n - 1);
      assert Le(v, n)[1..] == Le(v / 256, n - 1);
    }
  }

  /** The value a pixel of this surface holds for a colour. */
  function PixelValue(s: Surface, color: nat): (v: nat)
    requires color < WORD
  {
    if s.depth == 32 then Mapped(color)
    else if s.depth == 24 then Mapped(color) % 0x100_0000
    else if s.depth == 16 then Rgb565Of(color)
    else color % 256
  }

  /** The word that a store of a pixel takes its low bytes from. */
  function PixelWord(s: Surface, color: nat): (v: nat)
    requires color < WORD
    ensures v < WORD
  {
    if s.depth == 32 || s.depth == 24 then Mapped(color)
    else if s.depth == 16 then Rgb565Of(color)
    else color
  }

  function PixelBytes(s: Surface, color: nat): (b: seq<Byte>)
    requires IsValid(s) && color < WORD
    ensures |b| == Size(s)
  {
    Le(PixelWord(s, color), Size(s))
  }

  // ---------------------------------------------------------------- one pixel

  function Put(buf: seq<Byte>, at: nat, b: seq<Byte>): (r: seq<Byte>)
    requires at + |b| <= |buf|
    ensures |r| == |buf|
  {
    buf[..at] + b + buf[at + |b|..]
  }

  lemma PutByte(buf: seq<Byte>, at: nat, b: seq<Byte>, p: nat)
    requires at + |b| <= |buf| && p < |buf|
    ensures Put(buf, at, b)[p] == if at <= p < at + |b| then b[p - at] else buf[p]
  {
  }

  /** `graphics_put_pixel` on bytes */
  function PutPixel(buf: seq<Byte>, s: Surface, x: nat, y: nat, color: nat): (r: seq<Byte>)
    requires Fits(s, |buf|) && color < WORD
    ensures |r| == |buf|
  {
    if IsValid(s) && Inside(s, x, y) then
      AtBound(s, |buf|, x, y, 1);
      Put(buf, At(s, x, y), PixelBytes(s, color))
    else buf
  }

  /** `graphics_get_pixel` on bytes */
  function GetPixel(buf: seq<Byte>, s: Surface, x: nat, y: nat): (v: nat)
    requires Fits(s, |buf|)
  {
    if IsValid(s) && Inside(s, x, y) then
      AtBound(s, |buf|, x, y, 1);
      ValueOf(buf[At(s, x, y)..At(s, x, y) + Size(s)])
    else 0
  }

  lemma PixelFits(s: Surface, color: nat)
    requires IsValid(s) && color < WORD
    ensures ValueOf(PixelBytes(s, color)) == PixelValue(s, color)
  {
    hide Le, ValueOf, Pow256, Mapped, Rgb565Of;
    var v := PixelWord(s, color);
    Powers();
    if s.depth == 8 {
      OneByte(v);
    } else if s.depth == 24 {
      ThreeBytes(v);
    } else {
      LeRoundTrip(v, Size(s));
    }
  }

  lemma Powers()
    ensures Pow256(2) == 0x1_0000 && Pow256(4) == WORD
  {
  }

  lemma OneByte(v: nat)
    ensures ValueOf(Le(v, 1)) == v % 256
  {
  }

  lemma ThreeBytes(v: nat)
    ensures ValueOf(Le(v, 3)) == v % 0x100_0000
  {
    var a, b := v / 256, v / 256 / 256;
    assert Le(v, 3)[1..] == Le(a, 2);
    assert Le(a, 2)[1..] == Le(b, 1);
    OneByte(b);
    assert b == v / 0x1_0000;
  }

  /** A pixel reads back what was put, and every other pixel reads as before. */
  lemma PutGet(buf: seq<Byte>, s: Surface, x: nat, y: nat, color: nat, c: nat, r: nat)
    requires Fits(s, |buf|) && color < WORD
    ensures GetPixel(PutPixel(buf, s, x, y, color), s, c, r) ==
            if IsValid(s) && Inside(s, x, y) && c == x && r == y then PixelValue(s, color) else GetPixel(buf, s, c, r)
  {
    hide Fits, At, Size, Put, GetPixel, PixelBytes, PixelValue;
    if IsValid(s) && Inside(s, x, y) {
      if Inside(s, c, r) {
        PutGetInside(buf, s, x, y, color, c, r);
      } else {
        GetOutside(buf, s, c, r);
        GetOutside(PutPixel(buf, s, x, y, color), s, c, r);
      }
    }
  }

  lemma PutGetInside(buf: seq<Byte>, s: Surface, x: nat, y: nat, color: nat, c: nat, r: nat)
    requires Fits(s, |buf|) && color < WORD && IsValid(s) && Inside(s, x, y) && Inside(s, c, r)
    ensures GetPixel(PutPixel(buf, s, x, y, color), s, c, r) ==
              if c == x && r == y then PixelValue(s, color) else GetPixel(buf, s, c, r)
  {
    hide Fits, At, Size, Put, GetPixel, PixelBytes, PixelValue, IsValid;
    AtBound(s, |buf|, x, y, 1);
    PixelSlice(buf, s, c, r);
    PixelSlice(PutPixel(buf, s, x, y, color), s, c, r);
    PutSlice(buf, At(s, x, y), PixelBytes(s, color), At(s, c, r), Size(s));
    if c == x && r == y {
      assert PixelBytes(s, color)[0..Size(s)] == PixelBytes(s, color);
      PixelFits(s, color);
    } else {
      AtApart(s, |buf|, x, y, c, r);
    }
  }

  lemma GetOutside(buf: seq<Byte>, s: Surface, c: nat, r: nat)
    requires Fits(s, |buf|) && !Inside(s, c, r)
    ensures GetPixel(buf, s, c, r) == 0
  {
  }

  // ---------------------------------------------------------------- rectangles, one pixel at a time

  function PutRow(buf: seq<Byte>, s: Surface, x: nat, y: nat, color: nat, n: nat): (r: seq<Byte>)
    requires Fits(s, |buf|) && color < WORD
    ensures |r| == |buf|
  {
    if n == 0 then buf else PutPixel(PutRow(buf, s, x, y, color, n - 1), s, x + n - 1, y, color)
  }

  /** The pixel loop over `h` rows of `w` pixels. */
  function PutRect(buf: seq<Byte>, s: Surface, x: nat, y: nat, w: nat, h: nat, color: nat): (r: seq<Byte>)
    requires Fits(s, |buf|) && color < WORD
    ensures |r| == |buf|
  {
    if h == 0 then buf else PutRow(PutRect(buf, s, x, y, w, h - 1, color), s, x, y + h - 1, color, w)
  }

  predicate InRect(x: nat, y: nat, w: nat, h: nat, c: nat, r: nat)
  {
    x <= c < x + w && y <= r < y + h
  }

  lemma {:induction false} RowPixels(buf: seq<Byte>, s: Surface, x: nat, y: nat, color: nat, n: nat, c: nat, r: nat)
    requires Fits(s, |buf|) && color < WORD && IsValid(s) && Inside(s, c, r)
    ensures GetPixel(PutRow(buf, s, x, y, color, n), s, c, r) ==
            if InRect(x, y, n, 1, c, r) then PixelValue(s, color) else GetPixel(buf, s, c, r)
  {
    if n > 0 {
      RowPixels(buf, s, x, y, color, n - 1, c, r);
      PutGet(PutRow(buf, s, x, y, color, n - 1), s, x + n - 1, y, color, c, r);
    }
  }

  /** After the loop every pixel of the rectangle has the colour and every other pixel is as it was. */
  lemma {:induction false} RectPixels(buf: seq<Byte>, s: Surface, x: nat, y: nat, w: nat, h: nat, color: nat, c: nat,
                                      r: nat)
    requires Fits(s, |buf|) && color < WORD && IsValid(s) && Inside(s, c, r)
    ensures GetPixel(PutRect(buf, s, x, y, w, h, color), s, c, r) ==
            if InRect(x, y, w, h, c, r) then PixelValue(s, color) else GetPixel(buf, s, c, r)
  {
    if h > 0 {
      RectPixels(buf, s, x, y, w, h - 1, color, c, r);
      RowPixels(PutRect(buf, s, x, y, w, h - 1, color), s, x, y + h - 1, color, w, c, r);
    }
  }

  /** A byte of no pixel: row padding, or beyond the last row. */
  ghost predicate Padding(s: Surface, p: nat)
  {
    forall c, r :: Inside(s, c, r) ==> !(At(s, c, r) <= p < At(s, c, r) + Size(s))
  }

  lemma {:induction false} RowPadding(buf: seq<Byte>, s: Surface, x: nat, y: nat, color: nat, n: nat, p: nat)
    requires Fits(s, |buf|) && color < WORD && p < |buf| && Padding(s, p)
    ensures PutRow(buf, s, x, y, color, n)[p] == buf[p]
  {
    hide Fits, IsValid, PutPixel, Padding;
    if n > 0 {
      RowPadding(buf, s, x, y, color, n - 1, p);
      PixelPadding(PutRow(buf, s, x, y, color, n - 1), s, x + n - 1, y, color, p);
    }
  }

  lemma PixelPadding(buf: seq<Byte>, s: Surface, x: nat, y: nat, color: nat, p: nat)
    requires Fits(s, |buf|) && color < WORD && p < |buf| && Padding(s, p)
    ensures PutPixel(buf, s, x, y, color)[p] == buf[p]
  {
    hide Fits, IsValid, At, Size, Put, PixelBytes;
    if IsValid(s) && Inside(s, x, y) {
      AtBound(s, |buf|, x, y, 1);
      PutByte(buf, At(s, x, y), PixelBytes(s, color), p);
    }
  }

  lemma {:induction false} RectPadding(buf: seq<Byte>, s: Surface, x: nat, y: nat, w: nat, h: nat, color: nat, p: nat)
    requires Fits(s, |buf|) && color < WORD && p < |buf| && Padding(s, p)
    ensures PutRect(buf, s, x, y, w, h, color)[p] == buf[p]
  {
    if h > 0 {
      RectPadding(buf, s, x, y, w, h - 1, color, p);
      RowPadding(PutRect(buf, s, x, y, w, h - 1, color), s, x, y + h - 1, color, w, p);
    }
  }

  // ---------------------------------------------------------------- copies between surfaces of one format

  ghost predicate Copyable(d: Surface, n: nat, s: Surface, m: nat, x: nat, y: nat, w: nat, h: nat)
  {
    && IsValid(d) && IsValid(s) && Fits(d, n) && Fits(s, m) && d.depth == s.depth
    && x + w <= d.width && x + w <= s.width && y + h <= d.height && y + h <= s.height
  }

  /** One row of the rectangle. */
  ghost function CopyRow(dst: seq<Byte>, d: Surface, src: seq<Byte>, s: Surface, x: nat, y: nat, w: nat): (r: seq<Byte>)
    requires Copyable(d, |dst|, s, |src|, x, y, w, 1)
    ensures |r| == |dst|
  {
    RowInside(d, |dst|, s, |src|, x, y, w);
    Put(dst, At(d, x, y), src[At(s, x, y)..At(s, x, y) + w * Size(s)])
  }

  lemma RowInside(d: Surface, n: nat, s: Surface, m: nat, x: nat, y: nat, w: nat)
    requires Copyable(d, n, s, m, x, y, w, 1)
    ensures Size(d) == Size(s) && At(d, x, y) + w * Size(s) <= n && At(s, x, y) + w * Size(s) <= m
  {
    hide IsValid, Fits, At;
    AtBound(d, n, x, y, w);
    AtBound(s, m, x, y, w);
  }

  /** The first `h` rows of the rectangle, copied row by row. */
  ghost function CopyRows(dst: seq<Byte>, d: Surface, src: seq<Byte>, s: Surface, x: nat, y: nat, w: nat,
      h: nat): (r: seq<Byte>)
    requires Copyable(d, |dst|, s, |src|, x, y, w, h)
    ensures |r| == |dst|
  {
    if h == 0 then dst
    else
      FewerRows(d, |dst|, s, |src|, x, y, w, h);
      CopyRow(CopyRows(dst, d, src, s, x, y, w, h - 1), d, src, s, x, y + h - 1, w)
  }

  lemma FewerRows(d: Surface, n: nat, s: Surface, m: nat, x: nat, y: nat, w: nat, h: nat)
    requires Copyable(d, n, s, m, x, y, w, h) && h > 0
    ensures Copyable(d, n, s, m, x, y, w, h - 1) && Copyable(d, n, s, m, x, y + h - 1, w, 1)
  {
  }

  /** Inside the rectangle the destination reads as the source; outside it is as it was. */
  lemma {:induction false} CopyPixels(dst: seq<Byte>, d: Surface, src: seq<Byte>, s: Surface, x: nat, y: nat, w: nat,
                                      h: nat, c: nat, r: nat)
    requires Copyable(d, |dst|, s, |src|, x, y, w, h) && Inside(d, c, r)
    ensures Fits(d, |dst|) && Fits(s, |src|)
    ensures GetPixel(CopyRows(dst, d, src, s, x, y, w, h), d, c, r) ==
            if InRect(x, y, w, h, c, r) then GetPixel(src, s, c, r) else GetPixel(dst, d, c, r)
  {
    hide IsValid, Fits, GetPixel, CopyRow;
    if h > 0 {
      FewerRows(d, |dst|, s, |src|, x, y, w, h);
      CopyPixels(dst, d, src, s, x, y, w, h - 1, c, r);
      CopyRowPixels(CopyRows(dst, d, src, s, x, y, w, h - 1), d, src, s, x, y + h - 1, w, c, r);
    }
  }

  lemma CopyRowPixels(dst: seq<Byte>, d: Surface, src: seq<Byte>, s: Surface, x: nat, y: nat, w: nat, c: nat, r: nat)
    requires Copyable(d, |dst|, s, |src|, x, y, w, 1) && Inside(d, c, r)
    ensures GetPixel(CopyRow(dst, d, src, s, x, y, w), d, c, r) ==
            if InRect(x, y, w, 1, c, r) then GetPixel(src, s, c, r) else GetPixel(dst, d, c, r)
  {
    hide IsValid, Fits, At, Size, GetPixel, Put;
    var n := Size(s);
    RowInside(d, |dst|, s, |src|, x, y, w);
    var b := src[At(s, x, y)..At(s, x, y) + w * n];
    PixelSlice(Put(dst, At(d, x, y), b), d, c, r);
    if InRect(x, y, w, 1, c, r) {
      PixelSlice(src, s, c, r);
      Next(d, x, y, c - x);
      Next(s, x, y, c - x);
      Step(c - x, w, n);
      RowSlice(dst, At(d, x, y), src, At(s, x, y), w * n, (c - x) * n, n);
    } else {
      PixelSlice(dst, d, c, r);
      RowApart(d, |dst|, x, y, w, c, r);
      PutSlice(dst, At(d, x, y), b, At(d, c, r), n);
    }
  }

  lemma PixelSlice(buf: seq<Byte>, s: Surface, c: nat, r: nat)
    requires IsValid(s) && Fits(s, |buf|) && Inside(s, c, r)
    ensures At(s, c, r) + Size(s) <= |buf| && GetPixel(buf, s, c, r) == ValueOf(buf[At(s, c, r)..At(s, c, r) + Size(s)])
  {
    AtBound(s, |buf|, c, r, 1);
  }

  /** A slice of a buffer after a store: from the store, or as before. */
  lemma PutSlice(buf: seq<Byte>, at: nat, b: seq<Byte>, a: nat, n: nat)
    requires at + |b| <= |buf| && a + n <= |buf|
    ensures at <= a && a + n <= at + |b| ==> Put(buf, at, b)[a..a + n] == b[a - at..a - at + n]
    ensures a + n <= at || at + |b| <= a ==> Put(buf, at, b)[a..a + n] == buf[a..a + n]
  {
    var r := Put(buf, at, b);
    forall i | a <= i < a + n ensures r[i] == if at <= i < at + |b| then b[i - at] else buf[i] {
    }
  }

  lemma RowSlice(dst: seq<Byte>, at: nat, src: seq<Byte>, from: nat, length: nat, offset: nat, n: nat)
    requires at + length <= |dst| && from + length <= |src| && offset + n <= length
    ensures Put(dst, at, src[from..from + length])[at + offset..at + offset + n] ==
              src[from + offset..from + offset + n]
  {
  }

  /** A pixel outside a stretch of a row shares no byte with it. */
  lemma RowApart(s: Surface, n: nat, x: nat, y: nat, w: nat, c: nat, r: nat)
    requires IsValid(s) && Fits(s, n) && x + w <= s.width && y < s.height && Inside(s, c, r)
    requires !InRect(x, y, w, 1, c, r)
    ensures At(s, c, r) + Size(s) <= At(s, x, y) || At(s, x, y) + w * Size(s) <= At(s, c, r)
  {
    hide IsValid, Fits, Size, At;
    AtBound(s, n, c, r, 1);
    AtBound(s, n, x, y, w);
    AtLow(s, c, r);
    AtLow(s, x, y);
    if r == y && c < x {
      RowAfter(s, c, y, 1, x);
    } else if r == y {
      RowAfter(s, x, y, w, c);
    } else if y < r {
      Step(y, r, s.pitch);
    } else {
      Step(r, y, s.pitch);
    }
  }

  lemma AtLow(s: Surface, x: nat, y: nat)
    ensures y * s.pitch <= At(s, x, y)
  {
  }

  lemma RowAfter(s: Surface, x: nat, y: nat, w: nat, c: nat)
    requires x + w <= c
    ensures At(s, x, y) + w * Size(s) <= At(s, c, y)
  {
  }

  lemma {:induction false} CopyPadding(dst: seq<Byte>, d: Surface, src: seq<Byte>, s: Surface, x: nat, y: nat, w: nat,
                                       h: nat, p: nat)
    requires Copyable(d, |dst|, s, |src|, x, y, w, h) && p < |dst| && Padding(d, p)
    ensures CopyRows(dst, d, src, s, x, y, w, h)[p] == dst[p]
  {
    hide IsValid, Fits, Padding, CopyRow, Copyable;
    if h > 0 {
      FewerRows(d, |dst|, s, |src|, x, y, w, h);
      CopyPadding(dst, d, src, s, x, y, w, h - 1, p);
      CopyRowPadding(CopyRows(dst, d, src, s, x, y, w, h - 1), d, src, s, x, y + h - 1, w, p);
    }
  }

  lemma CopyRowPadding(dst: seq<Byte>, d: Surface, src: seq<Byte>, s: Surface, x: nat, y: nat, w: nat, p: nat)
    requires Copyable(d, |dst|, s, |src|, x, y, w, 1) && p < |dst| && Padding(d, p)
    ensures CopyRow(dst, d, src, s, x, y, w)[p] == dst[p]
  {
    hide IsValid, Fits, Padding, At, Size, Put;
    RowInside(d, |dst|, s, |src|, x, y, w);
    PaddingOffRow(d, |dst|, x, y, w, p);
    PutByte(dst, At(d, x, y), src[At(s, x, y)..At(s, x, y) + w * Size(s)], p);
  }

  /** A stretch of pixels holds no padding. */
  lemma {:induction false} PaddingOffRow(s: Surface, n: nat, x: nat, y: nat, w: nat, p: nat)
    requires IsValid(s) && Fits(s, n) && x + w <= s.width && y < s.height && Padding(s, p)
    ensures !(At(s, x, y) <= p < At(s, x, y) + w * Size(s))
  {
    if w > 0 {
      PaddingOffRow(s, n, x, y, w - 1, p);
      Next(s, x, y, w - 1);
      assert Inside(s, x + w - 1, y);
      assert (w - 1) * Size(s) + Size(s) == w * Size(s);
    }
  }
}
