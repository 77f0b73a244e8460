/** Drawing a glyph from its packed bits, pixel after pixel and bit after bit. */
module TextRenderer {
  import opened Bits
  import opened FontPack
  import opened MatrixFonts
  import opened Gif
  import opened Canvases
  import opened PodBuffers

  /** Whether a record's bits light column `i` of its row `j`. */
  ghost predicate Lit(blob: seq<byte>, e: Entry, i: int, j: int) {
    && 0 <= i < e.width && 0 <= j < e.height
    && e.offset + BitIndex(e.width, i, j) / 8 < |blob| && Pixel(blob, e, i, j)
  }

  // ----- a byte shifted out at the top -----

  /** A byte after `k` shifts. */
  function Shifted(b: byte, k: nat): byte
    requires k < 8
  {
    if k == 0 then b else 2 * Shifted(b, k - 1) % 256
  }

  lemma ShiftedIs(b: byte, k: nat)
    requires k < 8
    ensures Shifted(b, k) == Pow2(k) * b % 256
  {
    if k > 0 {
      ShiftedIs(b, k - 1);
      DoubleProduct(Pow2(k - 1), b);
      Doubled(Pow2(k - 1) * b);
    }
  }

  lemma Doubled(v: nat)
    ensures 2 * (v % 256) % 256 == 2 * v % 256
  {
    var q := v / 256;
    assert 2 * v == 256 * (2 * q) + 2 * (v % 256);
  }

  /** The top bit after `k` shifts is the pixel's. */
  lemma TopBit(b: byte, k: nat)
    requires k < 8
    ensures Shifted(b, k) >= 0x80 <==> Bit(b, k)
  {
    ShiftedIs(b, k);
    Powers(k, 7);
    assert Pow2(7) == 128;
    hide Pow2, Shifted;
    Topmost(b, Pow2(k), Pow2(7 - k));
  }

  lemma {:induction false} Powers(a: nat, n: nat)
    requires a <= n
    ensures Pow2(a) * Pow2(n - a) == Pow2(n)
  {
    if a > 0 {
      Powers(a - 1, n - 1);
      DoubleProduct(Pow2(a - 1), Pow2(n - a));
    }
  }

  lemma Topmost(b: byte, p: nat, q: nat)
    requires p * q == 128 && q > 0
    ensures p * b % 256 >= 128 <==> b / q % 2 == 1
  {
    var d, r := b / q, b % q;
    assert b == q * d + r;
    Products(p, q, d, r);
    DivMod(p * b, 256, d / 2, 128 * (d % 2) + p * r);
  }

  lemma Products(p: nat, q: nat, d: nat, r: nat)
    requires p * q == 128 && r < q
    ensures p * (q * d + r) == 128 * d + p * r && 0 <= p * r < 128
  {
    assert p * (q * d + r) == p * (q * d) + p * r;
    assert p * (q * d) == (p * q) * d;
    DifferenceOfProducts(q, r + 1, p);
    Commutes(q, p);
    Commutes(r + 1, p);
    Positive(p, q);
  }

  lemma Positive(p: nat, q: nat)
    requires p * q == 128
    ensures p > 0
  {
  }

  // ----- the glyph -----

  /** The pixel of the canvas at (a, b), once the first `n` bits of a glyph at (left, top) are drawn in `colour`. */
  ghost function Inked(blob: seq<byte>, e: Entry, left: int, top: int, n: nat, colour: rgb, a: int, b: int, under: rgb): rgb {
    if Lit(blob, e, a - left, b - top) && BitIndex(e.width, a - left, b - top) < n then colour else under
  }

  /** A bit's place tells its column and row. */
  lemma OnePlace(w: nat, i: nat, j: nat, x: nat, y: nat)
    requires i < w && x < w
    ensures BitIndex(w, i, j) == BitIndex(w, x, y) <==> i == x && j == y
  {
    FlatIndex(i, j, w, j + 1);
    FlatIndex(x, y, w, y + 1);
  }

  lemma NextInked(blob: seq<byte>, e: Entry, left: int, top: int, x: nat, y: nat, colour: rgb, a: int, b: int, under: rgb)
    requires x < e.width && y < e.height && e.offset + BitIndex(e.width, x, y) / 8 < |blob|
    ensures var n := BitIndex(e.width, x, y);
            Inked(blob, e, left, top, n + 1, colour, a, b, under) ==
            if a == left + x && b == top + y && Pixel(blob, e, x, y) then colour
            else Inked(blob, e, left, top, n, colour, a, b, under)
  {
    if Lit(blob, e, a - left, b - top) { OnePlace(e.width, a - left, b - top, x, y); }
    hide BitIndex, Pixel;
  }

  lemma NothingInked(blob: seq<byte>, e: Entry, left: int, top: int, colour: rgb)
    ensures forall b, a, under {:trigger Inked(blob, e, left, top, 0, colour, a, b, under)} ::
              Inked(blob, e, left, top, 0, colour, a, b, under) == under
  {
  }

  lemma AllInked(blob: seq<byte>, e: Entry, left: int, top: int, colour: rgb)
    ensures forall b, a, under {:trigger Inked(blob, e, left, top, e.height * e.width, colour, a, b, under)} ::
              Inked(blob, e, left, top, e.height * e.width, colour, a, b, under) ==
              if Lit(blob, e, a - left, b - top) then colour else under
  {
    forall b, a, under: rgb
      ensures Inked(blob, e, left, top, e.height * e.width, colour, a, b, under) ==
              if Lit(blob, e, a - left, b - top) then colour else under
    {
      if Lit(blob, e, a - left, b - top) { FlatIndex(a - left, b - top, e.width, e.height); }
    }
  }

  /** The bytes of all its pixels are in the blob. */
  ghost predicate Present(blob: seq<byte>, e: Entry) {
    forall j, i {:trigger BitIndex(e.width, i, j)} :: 0 <= j < e.height && 0 <= i < e.width ==>
      e.offset + BitIndex(e.width, i, j) / 8 < |blob|
  }

  /** One counter runs over the bits of all rows; every eighth loads a byte. */
  method DrawGlyph(canvas: Canvas, blob: seq<byte>, e: Entry, x: int, y: int, colour: rgb) returns (advance: int)
    requires canvas.Valid() && Present(blob, e)
    modifies canvas.px
    ensures advance == e.advance
    ensures forall b, a :: 0 <= b < canvas.h && 0 <= a < canvas.w ==>
              canvas.px[b, a] ==
              if Lit(blob, e, a - (x + e.xOffset), b - (y + e.yOffset)) then colour else old(canvas.px[b, a])
  {
    var left, top := x + e.xOffset, y + e.yOffset;
    NothingInked(blob, e, left, top, colour);
    AllInked(blob, e, left, top, colour);
    hide Inked;
    var bit, cur: byte := 0, 0;
    for yy := 0 to e.height
      invariant bit == yy * e.width && (bit % 8 != 0 ==> InByte(blob, e, bit, cur))
      invariant forall b, a :: 0 <= b < canvas.h && 0 <= a < canvas.w ==>
                  canvas.px[b, a] == Inked(blob, e, left, top, bit, colour, a, b, old(canvas.px[b, a]))
    {
      bit, cur := DrawRow(canvas, blob, e, left, top, yy, colour, bit, cur);
    }
    return e.advance;
  }

  /** The byte being shifted out, at this bit. */
  ghost predicate InByte(blob: seq<byte>, e: Entry, bit: nat, cur: byte) {
    e.offset + bit / 8 < |blob| && cur == Shifted(blob[e.offset + bit / 8], bit % 8)
  }

  lemma OnToNext(blob: seq<byte>, e: Entry, bit: nat, cur: byte)
    requires InByte(blob, e, bit, cur)
    ensures (bit + 1) % 8 != 0 ==> InByte(blob, e, bit + 1, 2 * cur % 256)
  {
  }

  lemma TopIsPixel(blob: seq<byte>, e: Entry, bit: nat, cur: byte, x: nat, y: nat)
    requires InByte(blob, e, bit, cur) && bit == BitIndex(e.width, x, y)
    ensures cur >= 0x80 <==> Pixel(blob, e, x, y)
  {
    TopBit(blob[e.offset + bit / 8], bit % 8);
  }

  method DrawRow(canvas: Canvas, blob: seq<byte>, e: Entry, left: int, top: int, yy: nat, colour: rgb, bit0: nat, cur0: byte)
    returns (bit: nat, cur: byte)
    requires canvas.Valid() && Present(blob, e) && yy < e.height
    requires bit0 == yy * e.width && (bit0 % 8 != 0 ==> InByte(blob, e, bit0, cur0))
    modifies canvas.px
    ensures bit == (yy + 1) * e.width && (bit % 8 != 0 ==> InByte(blob, e, bit, cur))
    ensures forall b, a, under: rgb ::
              (0 <= b < canvas.h && 0 <= a < canvas.w &&
               old(canvas.px[b, a]) == Inked(blob, e, left, top, bit0, colour, a, b, under)) ==>
              canvas.px[b, a] == Inked(blob, e, left, top, bit, colour, a, b, under)
  {
    bit, cur := bit0, cur0;
    hide Inked, InByte, Pixel;
    for xx := 0 to e.width
      invariant bit == BitIndex(e.width, xx, yy) && (bit % 8 != 0 ==> InByte(blob, e, bit, cur))
      invariant forall b, a, under: rgb ::
                  (0 <= b < canvas.h && 0 <= a < canvas.w &&
                   old(canvas.px[b, a]) == Inked(blob, e, left, top, bit0, colour, a, b, under)) ==>
                  canvas.px[b, a] == Inked(blob, e, left, top, bit, colour, a, b, under)
    {
      if bit % 8 == 0 {
        cur := blob[e.offset + bit / 8];
        Loaded(blob, e, bit);
      }
      TopIsPixel(blob, e, bit, cur, xx, yy);
      OnToNext(blob, e, bit, cur);
      forall b, a, under: rgb
        ensures Inked(blob, e, left, top, bit + 1, colour, a, b, under) ==
                if a == left + xx && b == top + yy && Pixel(blob, e, xx, yy) then colour
                else Inked(blob, e, left, top, bit, colour, a, b, under)
      {
        NextInked(blob, e, left, top, xx, yy, colour, a, b, under);
      }
      bit := bit + 1;
      if cur >= 0x80 { canvas.SetPixel(left + xx, top + yy, colour); }
      cur := 2 * cur % 256;
    }
  }

  lemma Loaded(blob: seq<byte>, e: Entry, bit: nat)
    requires bit % 8 == 0 && e.offset + bit / 8 < |blob|
    ensures InByte(blob, e, bit, blob[e.offset + bit / 8])
  {
  }

  // ----- what the packers have laid out -----

  lemma PackedIsLit(blob: seq<byte>, e: Entry, g: Glyph)
    requires Draws(blob, e, g)
    ensures Present(blob, e) && e.xOffset == 0 && e.yOffset == -g.top && e.advance == g.advance
    ensures forall j, i :: Lit(blob, e, i, j) <==> 0 <= j < |g.rows| && 0 <= i < |g.rows[j].px| && g.rows[j].px[i]
  {
    hide BitIndex, Pixel, Widest;
    forall j, i | 0 <= j < e.height && 0 <= i < e.width
      ensures e.offset + BitIndex(e.width, i, j) / 8 < |blob| && (Pixel(blob, e, i, j) <==> On(g.rows[j], i))
    {
      assert Shows(blob, e, g, i, j);
    }
    forall j | 0 <= j < |g.rows| ensures |g.rows[j].px| <= e.width { assert g.rows[j] in g.rows; }
  }

  /** A glyph of a panel font comes out as it was drawn, its rows from `top` above the baseline down. */
  method DrawPacked(canvas: Canvas, blob: seq<byte>, e: Entry, ghost g: Glyph, x: int, y: int, colour: rgb) returns (advance: int)
    requires canvas.Valid() && Draws(blob, e, g)
    modifies canvas.px
    ensures advance == g.advance
    ensures forall b, a :: 0 <= b < canvas.h && 0 <= a < canvas.w ==>
              var (i, j) := (a - x, b - (y - g.top));
              canvas.px[b, a] ==
              if 0 <= j < |g.rows| && 0 <= i < |g.rows[j].px| && g.rows[j].px[i] then colour else old(canvas.px[b, a])
  {
    PackedIsLit(blob, e, g);
    hide Lit, Draws, Present;
    advance := DrawGlyph(canvas, blob, e, x, y, colour);
  }

  lemma BoxIsLit(blob: seq<byte>, e: Entry, g: BoxGlyph)
    requires BoxDraws(blob, e, g)
    ensures Present(blob, e) && e.xOffset == g.x && e.yOffset == -g.y - g.h && e.advance == g.advance
    ensures forall j, i :: Lit(blob, e, i, j) <==> 0 <= j < |g.rows| && 0 <= i < g.w && i < |g.rows[j].px| && g.rows[j].px[i]
  {
    hide BitIndex, Pixel;
    forall j, i | 0 <= j < e.height && 0 <= i < e.width
      ensures e.offset + BitIndex(e.width, i, j) / 8 < |blob| && (Pixel(blob, e, i, j) <==> On(g.rows[j], i))
    {
      assert BoxShows(blob, e, g, i, j);
    }
  }

  /** And one of the matrix set in its box, the box's bottom `y` above the baseline. */
  method DrawBox(canvas: Canvas, blob: seq<byte>, e: Entry, ghost g: BoxGlyph, x: int, y: int, colour: rgb) returns (advance: int)
    requires canvas.Valid() && BoxDraws(blob, e, g)
    modifies canvas.px
    ensures advance == g.advance
    ensures forall b, a :: 0 <= b < canvas.h && 0 <= a < canvas.w ==>
              var (i, j) := (a - (x + g.x), b - (y - g.y - g.h));
              canvas.px[b, a] ==
              if 0 <= j < |g.rows| && 0 <= i < g.w && i < |g.rows[j].px| && g.rows[j].px[i] then colour
              else old(canvas.px[b, a])
  {
    BoxIsLit(blob, e, g);
    hide Lit, BoxDraws, Present;
    advance := DrawGlyph(canvas, blob, e, x, y, colour);
  }
}
