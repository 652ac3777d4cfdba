/** Drawing in place: pixels, filled rectangles and blits. Surfaces are drawn on separate buffers. */
module Graphics {
  import opened Surfaces

  // ---------------------------------------------------------------- clipping

  /** `x + count > limit ? limit - x : count`, in 32 bits. */
  function Clip(x: nat, count: nat, limit: nat): (r: nat)
    requires x < limit
  {
    if (x + count) % WORD > limit then limit - x else count
  }

  function Least(a: nat, b: nat): (r: nat)
    ensures r <= a && r <= b && (r == a || r == b)
  {
    if a < b then a else b
  }

  /** The clipped count is the part inside the surface exactly when the sum does not wrap to something that fits. */
  lemma ClipExact(x: nat, count: nat, limit: nat)
    requires x < limit < WORD && count < WORD
    ensures Clip(x, count, limit) == Least(count, limit - x) <==> x + count < WORD || (x + count) % WORD > limit
  {
  }

  /** A count that wraps leaves the surface. */
  lemma ClipFooled()
    ensures Clip(1, 0xFFFF_FFFF, 320) == 0xFFFF_FFFF
  {
  }

  // ---------------------------------------------------------------- stores

  /** The low `n` bytes of `v`, lowest first. */
  method Store(pixels: array<Byte>, at: nat, v: nat, n: nat)
    requires at + n <= pixels.Length
    modifies pixels
    ensures pixels[..] == Put(old(pixels[..]), at, Le(v, n))
  {
    ghost var buf, b := pixels[..], Le(v, n);
    var w := v;
    for k := 0 to n
      invariant b[k..] == Le(w, n - k)
      invariant forall p :: 0 <= p < pixels.Length ==> pixels[p] == if at <= p < at + k then b[p - at] else buf[p]
    {
      assert b[k] == b[k..][0] && b[k + 1..] == b[k..][1..];
      assert Le(w, n - k)[1..] == Le(w / 256, n - k - 1);
      pixels[at + k] := w % 256;
      w := w / 256;
    }
    assert pixels[..] == buf[..at] + b + buf[at + n..];
  }

  /** `graphics_put_pixel` */
  method DrawPixel(pixels: array<Byte>, s: Surface, x: nat, y: nat, color: nat)
    requires Fits(s, pixels.Length) && color < WORD
    modifies pixels
    ensures pixels[..] == PutPixel(old(pixels[..]), s, x, y, color)
    ensures IsValid(s) && Inside(s, x, y) ==>
              && y * s.pitch + x * Size(s) + Size(s) <= pixels.Length
              && pixels[y * s.pitch + x * Size(s)..y * s.pitch + x * Size(s) + Size(s)] == PixelBytes(s, color)
  {
    hide Fits, Put, Le, Mapped, Rgb565Of;
    if !IsValid(s) || !Inside(s, x, y) {
      return;
    }
    AtBound(s, pixels.Length, x, y, 1);
    var at := y * s.pitch + x * Size(s);
    PutSlice(pixels[..], at, PixelBytes(s, color), at, Size(s));
    if s.depth == 32 {
      Store(pixels, at, Mapped(color), 4);
    } else if s.depth == 24 {
      Store(pixels, at, Mapped(color), 3);
    } else if s.depth == 16 {
      Store(pixels, at, Rgb565Of(color), 2);
    } else {
      Store(pixels, at, color, 1);
    }
  }

  /** `graphics_get_pixel` */
  method ReadPixel(pixels: array<Byte>, s: Surface, x: nat, y: nat) returns (v: nat)
    requires Fits(s, pixels.Length)
    ensures v == GetPixel(pixels[..], s, x, y)
  {
    hide Fits;
    if !IsValid(s) || !Inside(s, x, y) {
      return 0;
    }
    AtBound(s, pixels.Length, x, y, 1);
    var at := y * s.pitch + x * Size(s);
    assert pixels[..][at..at + Size(s)] == pixels[at..at + Size(s)];
    v := Load(pixels, at, Size(s));
  }

  /** `n` little-endian bytes. */
  method Load(pixels: array<Byte>, at: nat, n: nat) returns (v: nat)
    requires at + n <= pixels.Length
    ensures v == ValueOf(pixels[at..at + n])
  {
    v := 0;
    var k := n;
    assert pixels[at + n..at + n] == [];
    while k > 0
      invariant 0 <= k <= n && v == ValueOf(pixels[at + k..at + n])
    {
      k := k - 1;
      assert pixels[at + k..at + n] == [pixels[at + k]] + pixels[at + k + 1..at + n];
      v := pixels[at + k] + 256 * v;
    }
  }

  // ---------------------------------------------------------------- filled rectangles

  /** One row of the fill: `n` low bytes of `v`, over and over. */
  method FillRow(pixels: array<Byte>, s: Surface, x: nat, y: nat, width: nat, color: nat, v: nat, n: nat)
    requires IsValid(s) && Fits(s, pixels.Length) && color < WORD && x + width <= s.width && y < s.height
    requires v == PixelWord(s, color) && n == Size(s)
    modifies pixels
    ensures pixels[..] == PutRow(old(pixels[..]), s, x, y, color, width)
  {
    hide Fits, IsValid, Put, Le, At, PixelWord, Size;
    ghost var buf := pixels[..];
    var start := At(s, x, y);
    for col := 0 to width
      invariant pixels[..] == PutRow(buf, s, x, y, color, col)
    {
      AtBound(s, pixels.Length, x + col, y, 1);
      Next(s, x, y, col);
      Store(pixels, start + col * n, v, n);
    }
  }

  /** `graphics_fill_rect`: the same bytes as the pixel loop over the clipped rectangle. */
  method FillRect(pixels: array<Byte>, s: Surface, x: nat, y: nat, width: nat, height: nat, color: nat)
    requires Fits(s, pixels.Length) && color < WORD && x + width < WORD && y + height < WORD
    modifies pixels
    ensures pixels[..] == if IsValid(s) && Inside(s, x, y)
                          then PutRect(old(pixels[..]), s, x, y, Least(width, s.width - x),
                              Least(height, s.height - y), color)
                          else old(pixels[..])
  {
    hide Fits, Put, Le, At, Mapped, Rgb565Of, PutRow;
    if !IsValid(s) || !Inside(s, x, y) {
      return;
    }
    ghost var buf := pixels[..];
    var w, h := Clip(x, width, s.width), Clip(y, height, s.height);
    for row := 0 to h
      invariant pixels[..] == PutRect(buf, s, x, y, w, row, color)
    {
      if s.depth == 32 {
        FillRow(pixels, s, x, y + row, w, color, Mapped(color), 4);
      } else if s.depth == 16 {
        FillRow(pixels, s, x, y + row, w, color, Rgb565Of(color), 2);
      } else if s.depth == 8 {
        FillRow(pixels, s, x, y + row, w, color, color, 1);
      } else {
        FillRow(pixels, s, x, y + row, w, color, Mapped(color), 3);
      }
    }
  }

  /** `graphics_clear` */
  method Clear(pixels: array<Byte>, s: Surface, color: nat)
    requires Fits(s, pixels.Length) && color < WORD && s.width < WORD && s.height < WORD
    modifies pixels
    ensures forall c, r :: IsValid(s) && Inside(s, c, r) ==> GetPixel(pixels[..], s, c, r) == PixelValue(s, color)
    ensures forall p :: 0 <= p < pixels.Length && Padding(s, p) ==> pixels[p] == old(pixels[p])
  {
    hide Fits, IsValid, PutRect, GetPixel, PixelValue, Padding;
    ghost var buf := pixels[..];
    if !IsValid(s) {
      return;
    }
    FillRect(pixels, s, 0, 0, s.width, s.height, color);
    ValidSize(s);
    forall c, r | Inside(s, c, r) ensures GetPixel(pixels[..], s, c, r) == PixelValue(s, color) {
      RectPixels(buf, s, 0, 0, s.width, s.height, color, c, r);
    }
    forall p | 0 <= p < pixels.Length && Padding(s, p) ensures pixels[p] == buf[p] {
      RectPadding(buf, s, 0, 0, s.width, s.height, color, p);
    }
  }

  lemma ValidSize(s: Surface)
    requires IsValid(s)
    ensures s.width > 0 && s.height > 0
  {
  }

  // ---------------------------------------------------------------- blits

  /** `graphics_copy_bytes`: words first, then the bytes that are left. */
  method CopyBytes(dst: array<Byte>, to: nat, src: array<Byte>, from: nat, count: nat)
    requires to + count <= dst.Length && from + count <= src.Length && dst != src
    modifies dst
    ensures dst[..] == Put(old(dst[..]), to, src[from..from + count])
  {
    ghost var buf := dst[..];
    var i := 0;
    while i + 4 <= count
      invariant i <= count
      invariant forall p :: 0 <= p < dst.Length ==> dst[p] == if to <= p < to + i then src[from + (p - to)] else buf[p]
    {
      dst[to + i], dst[to + i + 1], dst[to + i + 2], dst[to + i + 3] :=
          src[from + i], src[from + i + 1], src[from + i + 2], src[from + i + 3];
      i := i + 4;
    }
    while i < count
      invariant i <= count
      invariant forall p :: 0 <= p < dst.Length ==> dst[p] == if to <= p < to + i then src[from + (p - to)] else buf[p]
    {
      dst[to + i] := src[from + i];
      i := i + 1;
    }
    assert dst[..] == buf[..to] + src[from..from + count] + buf[to + count..];
  }

  /** The row loop of a blit between surfaces of one format. */
  method CopyRect(dst: array<Byte>, d: Surface, src: array<Byte>, s: Surface, x: nat, y: nat, w: nat, h: nat)
    requires dst != src && Copyable(d, dst.Length, s, src.Length, x, y, w, h)
    modifies dst
    ensures dst[..] == CopyRows(old(dst[..]), d, src[..], s, x, y, w, h)
  {
    hide Fits, IsValid, Put, At, Copyable;
    ghost var buf, from := dst[..], src[..];
    SomeRows(d, dst.Length, s, src.Length, x, y, w, h, 0);
    for row := 0 to h
      invariant Copyable(d, dst.Length, s, src.Length, x, y, w, row)
      invariant dst[..] == CopyRows(buf, d, from, s, x, y, w, row)
    {
      SomeRows(d, dst.Length, s, src.Length, x, y, w, h, row + 1);
      FewerRows(d, dst.Length, s, src.Length, x, y, w, row + 1);
      RowInside(d, dst.Length, s, src.Length, x, y + row, w);
      var at := At(s, x, y + row);
      assert src[..][at..at + w * Size(s)] == src[at..at + w * Size(s)];
      CopyBytes(dst, At(d, x, y + row), src, at, w * Size(d));
    }
  }

  lemma SomeRows(d: Surface, n: nat, s: Surface, m: nat, x: nat, y: nat, w: nat, h: nat, row: nat)
    requires Copyable(d, n, s, m, x, y, w, h) && row <= h
    ensures Copyable(d, n, s, m, x, y, w, row)
  {
  }

  predicate SameKind(d: Surface, s: Surface)
  {
    d.depth == s.depth && d.format == s.format
  }

  /** What a pixel of `d` reads after the value `v` of `s` was copied to it. */
  function Shown(d: Surface, s: Surface, v: nat): (r: nat)
    requires v < WORD
  {
    if d.depth == s.depth && d.format == s.format then v else PixelValue(d, v)
  }

  /** The rectangle shows the source; the other pixels and the bytes of no pixel are as they were. */
  ghost predicate Blitted(before: seq<Byte>, after: seq<Byte>, d: Surface, src: seq<Byte>, s: Surface, x: nat, y: nat,
                          w: nat, h: nat)
  {
    && |after| == |before| && Fits(d, |before|) && Fits(s, |src|)
    && (forall c, r :: Inside(d, c, r) && InRect(x, y, w, h, c, r) ==>
          GetPixel(src, s, c, r) < WORD && GetPixel(after, d, c, r) == Shown(d, s, GetPixel(src, s, c, r)))
    && (forall c, r :: Inside(d, c, r) && !InRect(x, y, w, h, c, r) ==>
          GetPixel(after, d, c, r) == GetPixel(before, d, c, r))
    && (forall p :: 0 <= p < |before| && Padding(d, p) ==> after[p] == before[p])
  }

  lemma CopyIsBlit(dst: seq<Byte>, d: Surface, src: seq<Byte>, s: Surface, x: nat, y: nat, w: nat, h: nat)
    requires Copyable(d, |dst|, s, |src|, x, y, w, h) && SameKind(d, s)
    ensures Blitted(dst, CopyRows(dst, d, src, s, x, y, w, h), d, src, s, x, y, w, h)
  {
    hide Fits, IsValid, CopyRows, GetPixel, Padding;
    forall c, r | Inside(d, c, r)
      ensures GetPixel(src, s, c, r) < WORD
      ensures GetPixel(CopyRows(dst, d, src, s, x, y, w, h), d, c, r) ==
              if InRect(x, y, w, h, c, r) then GetPixel(src, s, c, r) else GetPixel(dst, d, c, r)
    {
      PixelBound(src, s, c, r);
      CopyPixels(dst, d, src, s, x, y, w, h, c, r);
    }
    forall p | 0 <= p < |dst| && Padding(d, p) ensures CopyRows(dst, d, src, s, x, y, w, h)[p] == dst[p] {
      CopyPadding(dst, d, src, s, x, y, w, h, p);
    }
  }

  lemma {:induction false} ValueBound(b: seq<Byte>)
    ensures ValueOf(b) < Pow256(|b|)
  {
    if b != [] {
      ValueBound(b[1..]);
    }
  }

  lemma PixelBound(buf: seq<Byte>, s: Surface, c: nat, r: nat)
    requires Fits(s, |buf|)
    ensures GetPixel(buf, s, c, r) < WORD
  {
    if IsValid(s) && Inside(s, c, r) {
      PixelSlice(buf, s, c, r);
      ValueBound(buf[At(s, c, r)..At(s, c, r) + Size(s)]);
      Powers();
      PowerUp(Size(s));
    }
  }

  lemma PowerUp(n: nat)
    requires 1 <= n <= 4
    ensures Pow256(n) <= Pow256(4)
  {
  }

  /** The pixel loop of a blit between surfaces of different formats, over `w` pixels of one row. */
  method ConvertRow(dst: array<Byte>, d: Surface, src: array<Byte>, s: Surface, x: nat, y: nat, w: nat)
    requires dst != src && Fits(d, dst.Length) && Fits(s, src.Length) && IsValid(d) && !SameKind(d, s)
    requires x + w <= d.width && y < d.height
    modifies dst
    ensures Blitted(old(dst[..]), dst[..], d, src[..], s, x, y, w, 1)
  {
    hide Fits, IsValid, GetPixel, PutPixel, PixelValue, Padding;
    ghost var buf, from := dst[..], src[..];
    for col := 0 to w
      invariant Blitted(buf, dst[..], d, from, s, x, y, col, 1)
    {
      ghost var was := dst[..];
      var v := ReadPixel(src, s, x + col, y);
      PixelBound(from, s, x + col, y);
      DrawPixel(dst, d, x + col, y, v);
      ConvertStep(buf, was, d, from, s, x, y, col, v);
    }
  }

  lemma ConvertStep(buf: seq<Byte>, was: seq<Byte>, d: Surface, src: seq<Byte>, s: Surface, x: nat, y: nat, col: nat,
                    v: nat)
    requires Blitted(buf, was, d, src, s, x, y, col, 1) && IsValid(d) && !SameKind(d, s) && Inside(d, x + col, y)
    requires v < WORD
    requires v == GetPixel(src, s, x + col, y)
    ensures Blitted(buf, PutPixel(was, d, x + col, y, v), d, src, s, x, y, col + 1, 1)
  {
    hide Fits, IsValid, GetPixel, PutPixel, PixelValue, Padding;
    forall c, r | Inside(d, c, r)
      ensures GetPixel(PutPixel(was, d, x + col, y, v), d, c, r) ==
              if c == x + col && r == y then PixelValue(d, v) else GetPixel(was, d, c, r)
    {
      PutGet(was, d, x + col, y, v, c, r);
    }
    forall p | 0 <= p < |was| && Padding(d, p) ensures PutPixel(was, d, x + col, y, v)[p] == was[p] {
      PixelPadding(was, d, x + col, y, v, p);
    }
  }

  method ConvertRect(dst: array<Byte>, d: Surface, src: array<Byte>, s: Surface, x: nat, y: nat, w: nat, h: nat)
    requires dst != src && Fits(d, dst.Length) && Fits(s, src.Length) && IsValid(d) && !SameKind(d, s)
    requires x + w <= d.width && y + h <= d.height
    modifies dst
    ensures Blitted(old(dst[..]), dst[..], d, src[..], s, x, y, w, h)
  {
    hide Fits, IsValid, GetPixel, PixelValue, Padding, Blitted;
    ghost var buf, from := dst[..], src[..];
    BlittedNone(buf, d, from, s, x, y, w);
    for row := 0 to h
      invariant Blitted(buf, dst[..], d, from, s, x, y, w, row)
    {
      ghost var was := dst[..];
      ConvertRow(dst, d, src, s, x, y + row, w);
      BlittedMore(buf, was, dst[..], d, from, s, x, y, w, row);
    }
  }

  lemma BlittedNone(buf: seq<Byte>, d: Surface, src: seq<Byte>, s: Surface, x: nat, y: nat, w: nat)
    requires Fits(d, |buf|) && Fits(s, |src|)
    ensures Blitted(buf, buf, d, src, s, x, y, w, 0)
  {
  }

  lemma BlittedMore(buf: seq<Byte>, was: seq<Byte>, now: seq<Byte>, d: Surface, src: seq<Byte>, s: Surface, x: nat,
                    y: nat, w: nat, row: nat)
    requires Blitted(buf, was, d, src, s, x, y, w, row) && Blitted(was, now, d, src, s, x, y + row, w, 1)
    ensures Blitted(buf, now, d, src, s, x, y, w, row + 1)
  {
  }

  /** `graphics_blit_rect` */
  method BlitRect(dst: array<Byte>, d: Surface, src: array<Byte>, s: Surface, x: nat, y: nat, width: nat, height: nat)
    requires dst != src && Fits(d, dst.Length) && Fits(s, src.Length) && x + width < WORD && y + height < WORD
    modifies dst
    ensures !(IsValid(d) && IsValid(s) && Inside(d, x, y) && Inside(s, x, y)) ==> dst[..] == old(dst[..])
    ensures IsValid(d) && IsValid(s) && Inside(d, x, y) && Inside(s, x, y) ==>
              Blitted(old(dst[..]), dst[..], d, src[..], s, x, y, Least(width, Least(d.width, s.width) - x),
                  Least(height, Least(d.height, s.height) - y))
  {
    hide Fits, IsValid, Blitted;
    if !IsValid(d) || !IsValid(s) || !Inside(d, x, y) || !Inside(s, x, y) {
      return;
    }
    var w, h := Clip(x, width, Least(d.width, s.width)), Clip(y, height, Least(d.height, s.height));
    Transfer(dst, d, src, s, x, y, w, h);
  }

  /** Copy rows when the formats agree, and pixel by pixel when they do not. */
  method Transfer(dst: array<Byte>, d: Surface, src: array<Byte>, s: Surface, x: nat, y: nat, w: nat, h: nat)
    requires dst != src && Fits(d, dst.Length) && Fits(s, src.Length) && IsValid(d) && IsValid(s)
    requires x + w <= d.width && x + w <= s.width && y + h <= d.height && y + h <= s.height
    modifies dst
    ensures Blitted(old(dst[..]), dst[..], d, src[..], s, x, y, w, h)
  {
    hide Fits, IsValid, Blitted, CopyRows;
    if SameKind(d, s) {
      CopyIsBlit(dst[..], d, src[..], s, x, y, w, h);
      CopyRect(dst, d, src, s, x, y, w, h);
    } else {
      ConvertRect(dst, d, src, s, x, y, w, h);
    }
  }

  /** `graphics_blit` */
  method Blit(dst: array<Byte>, d: Surface, src: array<Byte>, s: Surface)
    requires dst != src && Fits(d, dst.Length) && Fits(s, src.Length)
    modifies dst
    ensures !(IsValid(d) && IsValid(s)) ==> dst[..] == old(dst[..])
    ensures IsValid(d) && IsValid(s) ==>
              Blitted(old(dst[..]), dst[..], d, src[..], s, 0, 0, Least(d.width, s.width), Least(d.height, s.height))
  {
    hide Fits, IsValid, Blitted;
    if !IsValid(d) || !IsValid(s) {
      return;
    }
    Transfer(dst, d, src, s, 0, 0, Least(d.width, s.width), Least(d.height, s.height));
  }
}
