/** The linear framebuffer and the console's drawing primitives (kernel/fbcon.c), pixel by pixel over bytes. */
module Framebuffer {
  import opened Bytes

  const GLYPH_W := 8
  const GLYPH_H := 8

  /** Size in pixels, bytes from one scanline to the next, and bits per pixel. */
  datatype Geometry = Geometry(width: nat, height: nat, pitch: nat, bpp: nat)

  predicate GoodGeometry(g: Geometry) {
    g.bpp in {16, 24, 32} && g.width * (g.bpp / 8) <= g.pitch && g.pitch * g.height < 0x1_0000_0000
    && g.width < 0x1_0000_0000 && g.height < 0x1_0000_0000
  }

  function Depth(g: Geometry): nat {
    g.bpp / 8
  }

  predicate OnScreen(g: Geometry, x: nat, y: nat) {
    x < g.width && y < g.height
  }

  /** The byte offset of a pixel. */
  function Offset(g: Geometry, x: nat, y: nat): nat {
    y * g.pitch + x * Depth(g)
  }

  lemma PixelInside(g: Geometry, x: nat, y: nat)
    requires GoodGeometry(g) && OnScreen(g, x, y)
    ensures y * g.pitch <= Offset(g, x, y)
    ensures Offset(g, x, y) + Depth(g) <= (y + 1) * g.pitch <= g.pitch * g.height
    ensures 2 <= Depth(g) <= 4
  {
    MulMonotone(x + 1, g.width, Depth(g));
    MulMonotone(y + 1, g.height, g.pitch);
  }

  lemma RowsApart(g: Geometry, x: nat, y: nat, u: nat, v: nat)
    requires GoodGeometry(g) && OnScreen(g, x, y) && OnScreen(g, u, v) && y < v
    ensures Offset(g, x, y) + Depth(g) <= Offset(g, u, v)
  {
    hide Offset, Depth, GoodGeometry;
    PixelInside(g, x, y);
    PixelInside(g, u, v);
    MulMonotone(y + 1, v, g.pitch);
  }

  lemma ColumnsApart(g: Geometry, x: nat, u: nat, y: nat)
    requires x < u
    ensures Offset(g, x, y) + Depth(g) <= Offset(g, u, y)
  {
    MulMonotone(x + 1, u, Depth(g));
    hide Depth;
  }

  /** Two pixels share no byte. */
  lemma PixelsApart(g: Geometry, x: nat, y: nat, u: nat, v: nat)
    requires GoodGeometry(g) && OnScreen(g, x, y) && OnScreen(g, u, v) && (x != u || y != v)
    ensures Offset(g, u, v) + Depth(g) <= Offset(g, x, y) || Offset(g, x, y) + Depth(g) <= Offset(g, u, v)
  {
    hide Offset, Depth, GoodGeometry;
    if y < v {
      RowsApart(g, x, y, u, v);
    } else if v < y {
      RowsApart(g, u, v, x, y);
    } else if x < u {
      ColumnsApart(g, x, u, y);
    } else {
      ColumnsApart(g, u, x, y);
    }
  }

  predicate Fits(s: seq<byte>, g: Geometry) {
    GoodGeometry(g) && |s| == g.pitch * g.height
  }

  /** The packed colour of a pixel, lowest byte first. */
  function Px(s: seq<byte>, g: Geometry, x: nat, y: nat): nat
    requires Fits(s, g) && OnScreen(g, x, y)
  {
    PixelInside(g, x, y);
    Word(s, Offset(g, x, y), Depth(g))
  }

  function Word(s: seq<byte>, o: nat, n: nat): nat
    requires 2 <= n <= 4 && o + n <= |s|
  {
    var low: int := s[o] as int + 0x100 * (s[o + 1] as int);
    var mid: int := if n >= 3 then 0x1_0000 * (s[o + 2] as int) else 0;
    var high: int := if n == 4 then 0x100_0000 * (s[o + 3] as int) else 0;
    low + mid + high
  }

  /** pack_pixel: a 24-bit colour in the framebuffer's format. */
  function Pack(g: Geometry, rgb: uint32): (p: nat)
    ensures g.bpp == 16 ==> p < 0x1_0000
    ensures p < 0x100_0000
  {
    var r, gr, b := rgb / 0x1_0000 % 0x100, rgb / 0x100 % 0x100, rgb % 0x100;
    if g.bpp == 16 then r / 8 * 0x800 + gr / 4 * 0x20 + b / 8 else r * 0x1_0000 + gr * 0x100 + b
  }

  /** A pixel's bytes in memory: at y * pitch + x * (bpp / 8), lowest first; the fourth of 32 bits is 0 for any
      colour. */
  lemma PixelBytes(s: seq<byte>, g: Geometry, x: nat, y: nat)
    requires Fits(s, g) && OnScreen(g, x, y)
    ensures var o := y * g.pitch + x * (g.bpp / 8);
            && o + g.bpp / 8 <= |s|
            && s[o] == Px(s, g, x, y) % 0x100 && s[o + 1] == Px(s, g, x, y) / 0x100 % 0x100
            && (g.bpp >= 24 ==> s[o + 2] == Px(s, g, x, y) / 0x1_0000 % 0x100)
            && (g.bpp == 32 ==> s[o + 3] == Px(s, g, x, y) / 0x100_0000)
  {
    PixelInside(g, x, y);
    var o, n := Offset(g, x, y), Depth(g);
    if n == 2 {
      Digits(s[o], s[o + 1], 0, 0);
    } else if n == 3 {
      Digits(s[o], s[o + 1], s[o + 2], 0);
    } else {
      Digits(s[o], s[o + 1], s[o + 2], s[o + 3]);
    }
  }

  lemma Digits(a: byte, b: byte, c: byte, d: byte)
    ensures var x: int := a as int + 0x100 * (b as int) + 0x1_0000 * (c as int) + 0x100_0000 * (d as int);
            x % 0x100 == a && x / 0x100 % 0x100 == b && x / 0x1_0000 % 0x100 == c && x / 0x100_0000 == d
  {
    var y: nat := c as int + 0x100 * (d as int);
    var x: nat := a as int + 0x100 * (b as int) + 0x1_0000 * y;
    DivModUnique(x, 0x100, b as int + 0x100 * y, a);
    DivModUnique(b as int + 0x100 * y, 0x100, y, b);
    DivModUnique(y, 0x100, d, c);
    DivModUnique(x, 0x1_0000, y, a as int + 0x100 * (b as int));
    DivModUnique(x, 0x100_0000, d, a as int + 0x100 * (b as int) + 0x1_0000 * (c as int));
  }

  /** The channels of a packed colour: red, green and blue from bit 16, 8 and 0 of the 24-bit colour come out in
      the same places, or, in 16 bits, cut to 5, 6 and 5 bits from bit 11, 5 and 0. */
  lemma ChannelsReadBack(g: Geometry, red: byte, green: byte, blue: byte)
    ensures var p := Pack(g, red * 0x1_0000 + green * 0x100 + blue);
            if g.bpp == 16 then p / 0x800 == red / 8 && p / 0x20 % 0x40 == green / 4 && p % 0x20 == blue / 8
            else p / 0x1_0000 == red && p / 0x100 % 0x100 == green && p % 0x100 == blue
  {
    Digits(blue, green, red, 0);
    var r5: nat, g6: nat, b5: nat := red / 8, green / 4, blue / 8;
    DivModUnique(r5 * 0x800 + g6 * 0x20 + b5, 0x800, r5, g6 * 0x20 + b5);
    DivModUnique(r5 * 0x800 + g6 * 0x20 + b5, 0x20, r5 * 0x40 + g6, b5);
    DivModUnique(r5 * 0x40 + g6, 0x40, r5, g6);
    var low: nat := green * 0x100 + blue;
    DivModUnique(red * 0x1_0000 + low, 0x1_0000, red, low);
    PackIs(g, red * 0x1_0000 + green * 0x100 + blue, red, green, blue);
    hide Pack;
  }

  lemma PackIs(g: Geometry, rgb: uint32, red: byte, green: byte, blue: byte)
    requires red == rgb / 0x1_0000 && green == rgb / 0x100 % 0x100 && blue == rgb % 0x100
    ensures Pack(g, rgb) == if g.bpp == 16 then red / 8 * 0x800 + green / 4 * 0x20 + blue / 8
                            else red * 0x1_0000 + green * 0x100 + blue
  {
  }

  // ---- what a drawing step leaves ----------------------------------------------------------

  /** `b` is `a` with the pixels of a rectangle set to `pix`. */
  ghost predicate RectPainted(g: Geometry, a: seq<byte>, b: seq<byte>, x0: nat, y0: nat, x1: nat, y1: nat, pix: nat)
    requires Fits(a, g) && Fits(b, g)
  {
    forall x: nat, y: nat {:trigger Px(b, g, x, y)} :: OnScreen(g, x, y) ==>
      Px(b, g, x, y) == if x0 <= x < x1 && y0 <= y < y1 then pix else Px(a, g, x, y)
  }

  /** `b` is `a` with the first `n` scanlines replaced by those GLYPH_H further down. */
  ghost predicate LinesShifted(g: Geometry, a: seq<byte>, b: seq<byte>, n: nat)
    requires Fits(a, g) && Fits(b, g)
  {
    forall x: nat, y: nat {:trigger Px(b, g, x, y)} :: OnScreen(g, x, y) ==>
      Px(b, g, x, y) == if y < n && y + GLYPH_H < g.height then Px(a, g, x, y + GLYPH_H) else Px(a, g, x, y)
  }

  /** Bit `k` of a glyph row; bit 0 is the leftmost pixel. */
  function Bit(b: nat, k: nat): bool {
    if k == 0 then b % 2 == 1 else Bit(b / 2, k - 1)
  }

  function Power2(k: nat): (p: nat)
    ensures p >= 1
  {
    if k == 0 then 1 else 2 * Power2(k - 1)
  }

  lemma HalfFirst(b: nat, p: nat)
    requires p >= 1
    ensures b / 2 / p == b / (2 * p)
  {
    var q, r := b / 2 / p, b / 2 % p;
    assert b == 2 * (q * p + r) + b % 2;
    assert q * (2 * p) == 2 * (q * p);
    DivModUnique(b, 2 * p, q, 2 * r + b % 2);
  }

  lemma {:induction false} BitIsDigit(b: nat, k: nat)
    ensures Bit(b, k) <==> b / Power2(k) % 2 == 1
  {
    if k > 0 {
      BitIsDigit(b / 2, k - 1);
      HalfFirst(b, Power2(k - 1));
    }
  }

  /** That is, bit `k` of a byte counted from the lowest. */
  lemma BitIs(b: byte, k: nat)
    requires k < 8
    ensures Bit(b, k) <==> b / [1, 2, 4, 8, 16, 32, 64, 128][k] % 2 == 1
  {
    BitIsDigit(b, k);
    hide Bit;
    assert Power2(0) == 1 && Power2(1) == 2 && Power2(2) == 4 && Power2(3) == 8;
    assert Power2(4) == 16 && Power2(5) == 32 && Power2(6) == 64 && Power2(7) == 128;
    assert Power2(k) == [1, 2, 4, 8, 16, 32, 64, 128][k];
  }

  /** `b` is `a` with the first `n` rows of a glyph drawn at (px, py). */
  ghost predicate GlyphPainted(g: Geometry, a: seq<byte>, b: seq<byte>, px: nat, py: nat, n: nat, glyph: seq<byte>,
                               fg: nat, bg: nat)
    requires Fits(a, g) && Fits(b, g) && n <= |glyph|
  {
    forall x: nat, y: nat {:trigger Px(b, g, x, y)} :: OnScreen(g, x, y) ==>
      Px(b, g, x, y) ==
      if px <= x < px + GLYPH_W && py <= y < py + n then (if Bit(glyph[y - py], x - px) then fg else bg)
      else Px(a, g, x, y)
  }

  // ---- one pixel ---------------------------------------------------------------------------

  lemma StoredPixel(g: Geometry, a: seq<byte>, b: seq<byte>, x: nat, y: nat, pix: nat)
    requires Fits(a, g) && Fits(b, g) && OnScreen(g, x, y)
    requires Offset(g, x, y) + Depth(g) <= |a| && 2 <= Depth(g) <= 4
    requires Word(b, Offset(g, x, y), Depth(g)) == pix
    requires forall i :: 0 <= i < |a| && !(Offset(g, x, y) <= i < Offset(g, x, y) + Depth(g)) ==> b[i] == a[i]
    ensures RectPainted(g, a, b, x, y, x + 1, y + 1, pix)
  {
    forall u: nat, v: nat | OnScreen(g, u, v) && (u != x || v != y) ensures Px(b, g, u, v) == Px(a, g, u, v) {
      PixelsApart(g, x, y, u, v);
      PixelInside(g, u, v);
      hide Offset;
    }
  }

  /** The three stores of put_pixel: 4, 3 or 2 bytes. */
  method StoreWord(fb: array<byte>, o: nat, n: nat, pix: nat)
    requires 2 <= n <= 4 && o + n <= fb.Length && pix < 0x100_0000 && (n == 2 ==> pix < 0x1_0000)
    modifies fb
    ensures Word(fb[..], o, n) == pix
    ensures forall i :: 0 <= i < fb.Length && !(o <= i < o + n) ==> fb[i] == old(fb[i])
  {
    if n == 4 {
      fb[o], fb[o + 1], fb[o + 2], fb[o + 3] := pix % 0x100, pix / 0x100 % 0x100, pix / 0x1_0000, 0;
    } else if n == 3 {
      fb[o], fb[o + 1], fb[o + 2] := pix % 0x100, pix / 0x100 % 0x100, pix / 0x1_0000;
    } else {
      fb[o], fb[o + 1] := pix % 0x100, pix / 0x100;
    }
  }

  /** put_pixel: a pixel off the screen is dropped. */
  method PutPixel(fb: array<byte>, g: Geometry, x: nat, y: nat, pix: nat)
    requires Fits(fb[..], g) && pix < 0x100_0000 && (g.bpp == 16 ==> pix < 0x1_0000)
    modifies fb
    ensures Fits(fb[..], g) && RectPainted(g, old(fb[..]), fb[..], x, y, x + 1, y + 1, pix)
  {
    if x >= g.width || y >= g.height { return; }
    PixelInside(g, x, y);
    ghost var was := fb[..];
    StoreWord(fb, Offset(g, x, y), Depth(g), pix);
    hide Offset, Word, RectPainted;
    StoredPixel(g, was, fb[..], x, y, pix);
  }

  // ---- rectangles --------------------------------------------------------------------------

  lemma RectNone(g: Geometry, a: seq<byte>, x0: nat, y0: nat, x1: nat, y1: nat, pix: nat)
    requires Fits(a, g) && (x1 <= x0 || y1 <= y0 || g.width <= x0 || g.height <= y0)
    ensures RectPainted(g, a, a, x0, y0, x1, y1, pix)
  {
  }

  /** Rectangles side by side. */
  lemma RectWider(g: Geometry, a: seq<byte>, b: seq<byte>, c: seq<byte>, x0: nat, x1: nat, x2: nat, y0: nat, y1: nat,
                  pix: nat)
    requires Fits(a, g) && Fits(b, g) && Fits(c, g) && x0 <= x1 <= x2
    requires RectPainted(g, a, b, x0, y0, x1, y1, pix) && RectPainted(g, b, c, x1, y0, x2, y1, pix)
    ensures RectPainted(g, a, c, x0, y0, x2, y1, pix)
  {
    hide Px, Fits;
  }

  /** Rectangles one below the other. */
  lemma RectTaller(g: Geometry, a: seq<byte>, b: seq<byte>, c: seq<byte>, x0: nat, x1: nat, y0: nat, y1: nat,
                   y2: nat, pix: nat)
    requires Fits(a, g) && Fits(b, g) && Fits(c, g) && y0 <= y1 <= y2
    requires RectPainted(g, a, b, x0, y0, x1, y1, pix) && RectPainted(g, b, c, x0, y1, x1, y2, pix)
    ensures RectPainted(g, a, c, x0, y0, x1, y2, pix)
  {
    hide Px, Fits;
  }

  /** The inner loop of fbcon_fill_rect: `w` pixels of one scanline. */
  method FillSpan(fb: array<byte>, g: Geometry, x: nat, y: nat, w: nat, pix: nat)
    requires Fits(fb[..], g) && pix < 0x100_0000 && (g.bpp == 16 ==> pix < 0x1_0000)
    modifies fb
    ensures Fits(fb[..], g) && RectPainted(g, old(fb[..]), fb[..], x, y, x + w, y + 1, pix)
  {
    hide RectPainted, Fits;
    ghost var was := fb[..];
    RectNone(g, was, x, y, x, y + 1, pix);
    for xx := 0 to w
      invariant Fits(fb[..], g) && RectPainted(g, was, fb[..], x, y, x + xx, y + 1, pix)
    {
      ghost var mid := fb[..];
      PutPixel(fb, g, x + xx, y, pix);
      RectWider(g, was, mid, fb[..], x, x + xx, x + xx + 1, y, y + 1, pix);
    }
  }

  method FillSpans(fb: array<byte>, g: Geometry, x: nat, y: nat, w: nat, h: nat, pix: nat)
    requires Fits(fb[..], g) && pix < 0x100_0000 && (g.bpp == 16 ==> pix < 0x1_0000)
    modifies fb
    ensures Fits(fb[..], g) && RectPainted(g, old(fb[..]), fb[..], x, y, x + w, y + h, pix)
  {
    hide RectPainted, Fits;
    ghost var was := fb[..];
    RectNone(g, was, x, y, x + w, y, pix);
    for yy := 0 to h
      invariant Fits(fb[..], g) && RectPainted(g, was, fb[..], x, y, x + w, y + yy, pix)
    {
      ghost var mid := fb[..];
      FillSpan(fb, g, x, y + yy, w, pix);
      RectTaller(g, was, mid, fb[..], x, x + w, y, y + yy, y + yy + 1, pix);
    }
  }

  /** fbcon_fill_rect: the rectangle is cut to the screen. */
  method FillRect(fb: array<byte>, g: Geometry, x: nat, y: nat, w: nat, h: nat, color: uint32)
    requires Fits(fb[..], g) && x + w < 0x1_0000_0000 && y + h < 0x1_0000_0000
    modifies fb
    ensures Fits(fb[..], g) && RectPainted(g, old(fb[..]), fb[..], x, y, x + w, y + h, Pack(g, color))
  {
    ghost var was := fb[..];
    if x >= g.width || y >= g.height { return; }
    var w1, h1 := w, h;
    if x + w > g.width { w1 := g.width - x; }
    if y + h > g.height { h1 := g.height - y; }
    var pix := Pack(g, color);
    hide Px, Fits, Pack;
    FillSpans(fb, g, x, y, w1, h1, pix);
  }

  // ---- glyphs ------------------------------------------------------------------------------

  /** `b` is `a` with the first `n` pixels of one glyph row drawn at (px, py). */
  ghost predicate RowPainted(g: Geometry, a: seq<byte>, b: seq<byte>, px: nat, py: nat, n: nat, bits: byte, fg: nat,
                             bg: nat)
    requires Fits(a, g) && Fits(b, g)
  {
    forall x: nat, y: nat {:trigger Px(b, g, x, y)} :: OnScreen(g, x, y) ==>
      Px(b, g, x, y) == if px <= x < px + n && y == py then (if Bit(bits, x - px) then fg else bg) else Px(a, g, x, y)
  }

  lemma RowMore(g: Geometry, a: seq<byte>, b: seq<byte>, c: seq<byte>, px: nat, py: nat, n: nat, bits: byte, fg: nat,
                bg: nat)
    requires Fits(a, g) && Fits(b, g) && Fits(c, g) && RowPainted(g, a, b, px, py, n, bits, fg, bg)
    requires RectPainted(g, b, c, px + n, py, px + n + 1, py + 1, if Bit(bits, n) then fg else bg)
    ensures RowPainted(g, a, c, px, py, n + 1, bits, fg, bg)
  {
    hide Px, Fits, Bit;
  }

  lemma RowNone(g: Geometry, a: seq<byte>, px: nat, py: nat, bits: byte, fg: nat, bg: nat)
    requires Fits(a, g)
    ensures RowPainted(g, a, a, px, py, 0, bits, fg, bg)
  {
  }

  method DrawRow(fb: array<byte>, g: Geometry, px: nat, py: nat, bits: byte, fg: nat, bg: nat)
    requires Fits(fb[..], g) && fg < 0x100_0000 && bg < 0x100_0000 && (g.bpp == 16 ==> fg < 0x1_0000 && bg < 0x1_0000)
    modifies fb
    ensures Fits(fb[..], g) && RowPainted(g, old(fb[..]), fb[..], px, py, GLYPH_W, bits, fg, bg)
  {
    hide RowPainted, RectPainted, Fits, Bit;
    ghost var was := fb[..];
    RowNone(g, was, px, py, bits, fg, bg);
    for x := 0 to GLYPH_W
      invariant Fits(fb[..], g) && RowPainted(g, was, fb[..], px, py, x, bits, fg, bg)
    {
      ghost var mid := fb[..];
      PutPixel(fb, g, px + x, py, if Bit(bits, x) then fg else bg);
      RowMore(g, was, mid, fb[..], px, py, x, bits, fg, bg);
    }
  }

  lemma GlyphMore(g: Geometry, a: seq<byte>, b: seq<byte>, c: seq<byte>, px: nat, py: nat, n: nat, glyph: seq<byte>,
                  fg: nat, bg: nat)
    requires Fits(a, g) && Fits(b, g) && Fits(c, g) && n < |glyph| && GlyphPainted(g, a, b, px, py, n, glyph, fg, bg)
    requires RowPainted(g, b, c, px, py + n, GLYPH_W, glyph[n], fg, bg)
    ensures GlyphPainted(g, a, c, px, py, n + 1, glyph, fg, bg)
  {
    hide Px, Fits, Bit;
  }

  lemma GlyphNone(g: Geometry, a: seq<byte>, px: nat, py: nat, glyph: seq<byte>, fg: nat, bg: nat)
    requires Fits(a, g)
    ensures GlyphPainted(g, a, a, px, py, 0, glyph, fg, bg)
  {
  }

  /** The pixel loops of draw_glyph. */
  method DrawGlyph(fb: array<byte>, g: Geometry, px: nat, py: nat, glyph: seq<byte>, fg: nat, bg: nat)
    requires |glyph| == GLYPH_H
    requires Fits(fb[..], g) && fg < 0x100_0000 && bg < 0x100_0000 && (g.bpp == 16 ==> fg < 0x1_0000 && bg < 0x1_0000)
    modifies fb
    ensures Fits(fb[..], g) && GlyphPainted(g, old(fb[..]), fb[..], px, py, GLYPH_H, glyph, fg, bg)
  {
    hide GlyphPainted, RowPainted, Fits;
    ghost var was := fb[..];
    GlyphNone(g, was, px, py, glyph, fg, bg);
    for r := 0 to GLYPH_H
      invariant Fits(fb[..], g) && GlyphPainted(g, was, fb[..], px, py, r, glyph, fg, bg)
    {
      ghost var mid := fb[..];
      DrawRow(fb, g, px, py + r, glyph[r], fg, bg);
      GlyphMore(g, was, mid, fb[..], px, py, r, glyph, fg, bg);
    }
  }

  // ---- scrolling ---------------------------------------------------------------------------

  /** `b` is `a` with scanline `y` replaced by the one GLYPH_H further down. */
  ghost predicate LineCopied(g: Geometry, a: seq<byte>, b: seq<byte>, y: nat)
    requires Fits(a, g) && Fits(b, g) && y + GLYPH_H < g.height
  {
    forall u: nat, v: nat {:trigger Px(b, g, u, v)} :: OnScreen(g, u, v) ==>
      Px(b, g, u, v) == Px(a, g, u, if v == y then y + GLYPH_H else v)
  }

  lemma LineStart(g: Geometry, y: nat)
    requires GoodGeometry(g) && y < g.height
    ensures y * g.pitch + g.width * Depth(g) <= (y + 1) * g.pitch <= g.pitch * g.height
  {
    MulMonotone(y + 1, g.height, g.pitch);
  }

  /** `b` is `a` with `n` bytes at `d` overwritten by those at `s`. */
  ghost predicate BytesMoved(a: seq<byte>, b: seq<byte>, d: nat, s: nat, n: nat) {
    |a| == |b| && d + n <= |a| && s + n <= |a| &&
    forall i {:trigger b[i]} :: 0 <= i < |a| ==> b[i] == if d <= i < d + n then a[i - d + s] else a[i]
  }

  lemma WordMoved(a: seq<byte>, b: seq<byte>, d: nat, s: nat, n: nat, o: nat, k: nat)
    requires BytesMoved(a, b, d, s, n) && 2 <= k <= 4 && o + k <= |a|
    requires d <= o && o + k <= d + n
    ensures Word(b, o, k) == Word(a, o - d + s, k)
  {
    assert b[o] == a[o - d + s];
    assert b[o + 1] == a[o + 1 - d + s];
    if k >= 3 { assert b[o + 2] == a[o + 2 - d + s]; }
    if k == 4 { assert b[o + 3] == a[o + 3 - d + s]; }
  }

  lemma WordKept(a: seq<byte>, b: seq<byte>, d: nat, s: nat, n: nat, o: nat, k: nat)
    requires BytesMoved(a, b, d, s, n) && 2 <= k <= 4 && o + k <= |a|
    requires o + k <= d || d + n <= o
    ensures Word(b, o, k) == Word(a, o, k)
  {
    assert b[o] == a[o];
    assert b[o + 1] == a[o + 1];
    if k >= 3 { assert b[o + 2] == a[o + 2]; }
    if k == 4 { assert b[o + 3] == a[o + 3]; }
  }

  lemma OffsetInLine(g: Geometry, u: nat, y: nat)
    requires u < g.width
    ensures Offset(g, u, y) == y * g.pitch + u * Depth(g)
    ensures u * Depth(g) + Depth(g) <= g.width * Depth(g)
  {
    MulMonotone(u + 1, g.width, Depth(g));
  }

  lemma PixelCopied(g: Geometry, a: seq<byte>, b: seq<byte>, y: nat, u: nat, d: nat, s: nat, n: nat)
    requires Fits(a, g) && Fits(b, g) && OnScreen(g, u, y) && y + GLYPH_H < g.height
    requires d == y * g.pitch && s == (y + GLYPH_H) * g.pitch && n == g.width * Depth(g) && BytesMoved(a, b, d, s, n)
    ensures Px(b, g, u, y) == Px(a, g, u, y + GLYPH_H)
  {
    hide BytesMoved, Word, Depth, Offset, GoodGeometry;
    PixelInside(g, u, y);
    PixelInside(g, u, y + GLYPH_H);
    OffsetInLine(g, u, y);
    OffsetInLine(g, u, y + GLYPH_H);
    WordMoved(a, b, d, s, n, Offset(g, u, y), Depth(g));
  }

  lemma PixelKept(g: Geometry, a: seq<byte>, b: seq<byte>, y: nat, u: nat, v: nat, d: nat, s: nat, n: nat)
    requires Fits(a, g) && Fits(b, g) && OnScreen(g, u, v) && y + GLYPH_H < g.height && v != y
    requires d == y * g.pitch && n == g.width * Depth(g) && BytesMoved(a, b, d, s, n)
    ensures Px(b, g, u, v) == Px(a, g, u, v)
  {
    hide BytesMoved, Word, Depth, Offset, GoodGeometry;
    PixelInside(g, u, v);
    PixelOutside(g, y, u, v);
    WordKept(a, b, d, s, n, Offset(g, u, v), Depth(g));
  }

  lemma LineMoved(g: Geometry, a: seq<byte>, b: seq<byte>, y: nat)
    requires Fits(a, g) && Fits(b, g) && y + GLYPH_H < g.height
    requires BytesMoved(a, b, y * g.pitch, (y + GLYPH_H) * g.pitch, g.width * Depth(g))
    ensures LineCopied(g, a, b, y)
  {
    hide BytesMoved, Fits, Px;
    forall u: nat, v: nat | OnScreen(g, u, v) ensures Px(b, g, u, v) == Px(a, g, u, if v == y then y + GLYPH_H else v) {
      var d, s, n := y * g.pitch, (y + GLYPH_H) * g.pitch, g.width * Depth(g);
      if v == y { PixelCopied(g, a, b, y, u, d, s, n); } else { PixelKept(g, a, b, y, u, v, d, s, n); }
    }
  }

  lemma PixelOutside(g: Geometry, y: nat, u: nat, v: nat)
    requires GoodGeometry(g) && y < g.height && OnScreen(g, u, v) && v != y
    ensures Offset(g, u, v) + Depth(g) <= y * g.pitch || y * g.pitch + g.width * Depth(g) <= Offset(g, u, v)
  {
    PixelInside(g, u, v);
    LineStart(g, y);
    if v < y { MulMonotone(v + 1, y, g.pitch); } else { MulMonotone(y + 1, v, g.pitch); }
  }

  lemma LinesApart(g: Geometry, y: nat)
    requires GoodGeometry(g) && y + GLYPH_H < g.height
    ensures y * g.pitch + g.width * Depth(g) <= (y + GLYPH_H) * g.pitch
    ensures (y + GLYPH_H) * g.pitch + g.width * Depth(g) <= g.pitch * g.height
  {
    LineStart(g, y);
    LineStart(g, y + GLYPH_H);
    MulMonotone(y + 1, y + GLYPH_H, g.pitch);
  }

  /** One memcpy of scroll_up_one. */
  method CopyLine(fb: array<byte>, g: Geometry, y: nat)
    requires Fits(fb[..], g) && y + GLYPH_H < g.height
    modifies fb
    ensures Fits(fb[..], g) && LineCopied(g, old(fb[..]), fb[..], y)
  {
    hide BytesMoved, LineCopied, Px, OnScreen, Depth, Word;
    ghost var was := fb[..];
    LinesApart(g, y);
    var d, s, n := y * g.pitch, (y + GLYPH_H) * g.pitch, g.width * Depth(g);
    hide GoodGeometry;
    CopyBytes(fb, d, s, n);
    LineMoved(g, was, fb[..], y);
  }

  /** memcpy from a higher to a lower, separate place. */
  method CopyBytes(fb: array<byte>, d: nat, s: nat, n: nat)
    requires d + n <= s && s + n <= fb.Length
    modifies fb
    ensures BytesMoved(old(fb[..]), fb[..], d, s, n)
  {
    ghost var was := fb[..];
    for i := 0 to n
      invariant forall j {:trigger fb[j]} :: 0 <= j < fb.Length ==>
                  fb[j] == if d <= j < d + i then was[j - d + s] else was[j]
    {
      fb[d + i] := fb[s + i];
    }
  }

  lemma LinesMore(g: Geometry, a: seq<byte>, b: seq<byte>, c: seq<byte>, y: nat)
    requires Fits(a, g) && Fits(b, g) && Fits(c, g) && y + GLYPH_H < g.height
    requires LinesShifted(g, a, b, y) && LineCopied(g, b, c, y)
    ensures LinesShifted(g, a, c, y + 1)
  {
    hide Px;
    forall u: nat, v: nat | OnScreen(g, u, v)
      ensures Px(c, g, u, v) == if v < y + 1 && v + GLYPH_H < g.height then Px(a, g, u, v + GLYPH_H) else Px(a, g, u, v)
    {
      if v == y {
        assert Px(c, g, u, v) == Px(b, g, u, y + GLYPH_H);
        assert Px(b, g, u, y + GLYPH_H) == Px(a, g, u, y + GLYPH_H);
      } else {
        assert Px(c, g, u, v) == Px(b, g, u, v);
      }
    }
  }

  lemma LinesNone(g: Geometry, a: seq<byte>)
    requires Fits(a, g)
    ensures LinesShifted(g, a, a, 0)
  {
  }

  /** The copying loop of scroll_up_one. */
  method ShiftLines(fb: array<byte>, g: Geometry, n: nat)
    requires Fits(fb[..], g) && n + GLYPH_H <= g.height
    modifies fb
    ensures Fits(fb[..], g) && LinesShifted(g, old(fb[..]), fb[..], n)
  {
    hide LinesShifted, LineCopied, Fits;
    ghost var was := fb[..];
    LinesNone(g, was);
    for y := 0 to n
      invariant Fits(fb[..], g) && LinesShifted(g, was, fb[..], y)
    {
      ghost var mid := fb[..];
      CopyLine(fb, g, y);
      LinesMore(g, was, mid, fb[..], y);
    }
  }
}
