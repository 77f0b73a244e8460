/**
 Bitmaps of many fonts in a common blob. Rows take a whole byte each, two in a glyph of more than eight
 pixels, and equal bitmaps are stored once.
 */
module FontPack {
  import opened Bits
  import opened Options

  /** A row's pixels from the left. */
  datatype Row = Row(px: seq<bool>)

  /** Pixel rows, the first of them `top` rows above the baseline. */
  datatype Glyph = Glyph(rows: seq<Row>, advance: int, top: int)

  /** A glyph's record in a font's table. */
  datatype Entry = Entry(offset: nat, width: nat, height: nat, advance: int, xOffset: int, yOffset: int)

  predicate On(row: Row, x: nat) { x < |row.px| && row.px[x] }

  function Widest(rows: seq<Row>): (w: nat)
    ensures forall r :: r in rows ==> |r.px| <= w
  {
    if rows == [] then 0
    else
      var w, last := Widest(rows[..|rows| - 1]), |rows[|rows| - 1].px|;
      assert rows == rows[..|rows| - 1] + [rows[|rows| - 1]];
      if last > w then last else w
  }

  lemma {:induction false} WidestFits(rows: seq<Row>, most: nat)
    ensures Widest(rows) <= most <==> forall y :: 0 <= y < |rows| ==> |rows[y].px| <= most
  {
    if rows != [] { WidestFits(rows[..|rows| - 1], most); }
  }

  predicate Representable(g: Glyph) { Widest(g.rows) <= 16 && |g.rows| <= 15 && 0 <= g.advance <= 15 }

  // ----- a row in bytes -----

  /** The number the `n` pixels from `from` on make, the leftmost highest. */
  function Value(row: Row, from: nat, n: nat): (v: nat)
    ensures v < Pow2(n)
  {
    if n == 0 then 0 else 2 * Value(row, from, n - 1) + if On(row, from + n - 1) then 1 else 0
  }

  lemma {:induction false} ValueSplit(row: Row, from: nat, m: nat, n: nat)
    ensures Value(row, from, m + n) == Value(row, from, m) * Pow2(n) + Value(row, from + m, n)
    decreases n
  {
    if n > 0 {
      ValueSplit(row, from, m, n - 1);
      var a, p := Value(row, from, m), Pow2(n - 1);
      DoubleProduct(a, p);
    }
  }

  lemma {:induction false} Blank(row: Row, from: nat, n: nat)
    requires |row.px| <= from
    ensures Value(row, from, n) == 0
    decreases n
  {
    if n > 0 { Blank(row, from, n - 1); }
  }

  predicate Bit(b: nat, x: nat)
    requires x < 8
  {
    (b / Pow2(7 - x)) % 2 == 1
  }

  /** Every pixel can be read back from the number. */
  lemma {:induction false} ValueBit(row: Row, from: nat, n: nat, x: nat)
    requires x < n
    ensures (Value(row, from, n) / Pow2(n - 1 - x)) % 2 == 1 <==> On(row, from + x)
    decreases n
  {
    if x < n - 1 {
      ValueBit(row, from, n - 1, x);
      HalfFirst(Value(row, from, n), Pow2(n - 2 - x));
      assert Value(row, from, n) / 2 == Value(row, from, n - 1);
    } else {
      assert Pow2(0) == 1;
    }
  }

  lemma HalfFirst(v: nat, p: nat)
    requires p > 0
    ensures v / (2 * p) == (v / 2) / p
  {
    var q, r := (v / 2) / p, (v / 2) % p;
    assert v / 2 == p * q + r;
    var r' := 2 * r + v % 2;
    assert v == (2 * p) * q + r' by { DoubleProduct(p, q); }
    DivMod(v, 2 * p, q, r');
  }

  function RowBytes(row: Row, width: nat): (b: seq<byte>)
    requires width == 8 || width == 16
    ensures |b| == width / 8
  {
    assert Pow2(8) == 256;
    if width == 8 then [Value(row, 0, 8)] else [Value(row, 0, 8), Value(row, 8, 8)]
  }

  lemma RowBit(row: Row, width: nat, x: nat)
    requires (width == 8 || width == 16) && x < width
    ensures Bit(RowBytes(row, width)[x / 8], x % 8) <==> On(row, x)
  {
    if x < 8 { ValueBit(row, 0, 8, x); } else { ValueBit(row, 8, 8, x - 8); }
  }

  /** Sets one bit a pixel. */
  method RowNumber(row: Row, width: nat) returns (value: nat)
    requires |row.px| <= width
    ensures value == Value(row, 0, width)
  {
    value := 0;
    ValueNone(row);
    for i := 0 to |row.px|
      invariant value == Value(row, 0, i) * Pow2(width - i)
    {
      NextPixel(row, i, width);
      if row.px[i] { value := value + Pow2(width - 1 - i); }
    }
    ValueSplit(row, 0, |row.px|, width - |row.px|);
    Blank(row, |row.px|, width - |row.px|);
  }

  lemma ValueNone(row: Row)
    ensures Value(row, 0, 0) == 0
  {
  }

  lemma NextPixel(row: Row, i: nat, width: nat)
    requires i < |row.px| <= width
    ensures Value(row, 0, i + 1) * Pow2(width - i - 1) ==
              Value(row, 0, i) * Pow2(width - i) + if row.px[i] then Pow2(width - 1 - i) else 0
  {
    var v, p := Value(row, 0, i), Pow2(width - i - 1);
    assert Pow2(width - i) == 2 * p;
    assert Value(row, 0, i + 1) == if row.px[i] then 2 * v + 1 else 2 * v;
    DoubleProduct(v, p);
    Distribute(2 * v, p);
    hide *;
  }

  /** Cuts the number into bytes, the highest first. */
  method PackRow(row: Row, width: nat) returns (bytes: seq<byte>)
    requires (width == 8 || width == 16) && |row.px| <= width
    ensures bytes == RowBytes(row, width)
  {
    var value := RowNumber(row, width);
    assert Pow2(8) == 256;
    if width == 8 { return [value]; }
    ValueSplit(row, 0, 8, 8);
    DivMod(value, 256, Value(row, 0, 8), Value(row, 8, 8));
    bytes := [value / 256, value % 256];
  }

  lemma Distribute(a: nat, p: nat)
    ensures (a + 1) * p == a * p + p
  {
  }

  // ----- a bitmap -----

  function Bitmap(rows: seq<Row>, width: nat): (b: seq<byte>)
    requires width == 8 || width == 16
    ensures |b| == |rows| * (width / 8)
  {
    if rows == [] then [] else Bitmap(rows[..|rows| - 1], width) + RowBytes(rows[|rows| - 1], width)
  }

  /** Where byte `k` of row `y` is, and where the bit of a pixel is. */
  function ByteIndex(width: nat, y: nat, k: nat): nat { y * (width / 8) + k }

  function BitIndex(width: nat, x: nat, y: nat): nat { y * width + x }

  lemma {:induction false} RowInBitmap(rows: seq<Row>, width: nat, y: nat, k: nat)
    requires (width == 8 || width == 16) && y < |rows| && k < width / 8
    ensures ByteIndex(width, y, k) < |Bitmap(rows, width)|
    ensures Bitmap(rows, width)[ByteIndex(width, y, k)] == RowBytes(rows[y], width)[k]
    decreases |rows|
  {
    if y < |rows| - 1 { RowInBitmap(rows[..|rows| - 1], width, y, k); }
  }

  /** The renderer's reading of a glyph: bit after bit from its offset, row after row. */
  predicate Pixel(blob: seq<byte>, e: Entry, x: nat, y: nat)
    requires e.offset + BitIndex(e.width, x, y) / 8 < |blob|
  {
    Bit(blob[e.offset + BitIndex(e.width, x, y) / 8], BitIndex(e.width, x, y) % 8)
  }

  /** An entry's record gives back exactly this glyph. */
  ghost predicate Draws(blob: seq<byte>, e: Entry, g: Glyph) {
    && (e.width == 8 || e.width == 16) && Widest(g.rows) <= e.width
    && e.height == |g.rows| && e.advance == g.advance && e.xOffset == 0 && e.yOffset == -g.top
    && e.offset + e.height * (e.width / 8) <= |blob|
    && forall y, x :: 0 <= y < e.height && 0 <= x < e.width ==> Shows(blob, e, g, x, y)
  }

  ghost predicate Shows(blob: seq<byte>, e: Entry, g: Glyph, x: nat, y: nat)
    requires y < |g.rows|
  {
    e.offset + BitIndex(e.width, x, y) / 8 < |blob| && (Pixel(blob, e, x, y) <==> On(g.rows[y], x))
  }

  lemma StoredDraws(blob: seq<byte>, e: Entry, g: Glyph)
    requires (e.width == 8 || e.width == 16) && Widest(g.rows) <= e.width
    requires e.height == |g.rows| && e.advance == g.advance && e.xOffset == 0 && e.yOffset == -g.top
    requires e.offset + |Bitmap(g.rows, e.width)| <= |blob|
    requires blob[e.offset..e.offset + |Bitmap(g.rows, e.width)|] == Bitmap(g.rows, e.width)
    ensures Draws(blob, e, g)
  {
    forall y, x | 0 <= y < e.height && 0 <= x < e.width ensures Shows(blob, e, g, x, y) {
      StoredPixel(blob, e, g, x, y);
    }
    hide Shows, Bitmap, Widest;
  }

  lemma StoredPixel(blob: seq<byte>, e: Entry, g: Glyph, x: nat, y: nat)
    requires (e.width == 8 || e.width == 16) && y < |g.rows| && x < e.width
    requires e.offset + |Bitmap(g.rows, e.width)| <= |blob|
    requires blob[e.offset..e.offset + |Bitmap(g.rows, e.width)|] == Bitmap(g.rows, e.width)
    ensures Shows(blob, e, g, x, y)
  {
    var b := Bitmap(g.rows, e.width);
    var at := ByteIndex(e.width, y, x / 8);
    RowInBitmap(g.rows, e.width, y, x / 8);
    RowBit(g.rows[y], e.width, x);
    BitPlace(e.width, x, y);
    hide *;
    assert blob[e.offset + at] == b[at];
    ShowsFrom(blob, e, g, x, y, at);
  }

  lemma ShowsFrom(blob: seq<byte>, e: Entry, g: Glyph, x: nat, y: nat, at: nat)
    requires y < |g.rows| && BitIndex(e.width, x, y) / 8 == at && BitIndex(e.width, x, y) % 8 == x % 8
    requires e.offset + at < |blob| && (Bit(blob[e.offset + at], x % 8) <==> On(g.rows[y], x))
    ensures Shows(blob, e, g, x, y)
  {
    hide Bit, On, BitIndex;
  }

  lemma BitPlace(width: nat, x: nat, y: nat)
    requires (width == 8 || width == 16) && x < width
    ensures BitIndex(width, x, y) / 8 == ByteIndex(width, y, x / 8) && BitIndex(width, x, y) % 8 == x % 8
  {
  }

  /** More bitmaps behind it change no glyph. */
  lemma DrawsKept(blob: seq<byte>, blob': seq<byte>, e: Entry, g: Glyph)
    requires Draws(blob, e, g) && blob <= blob'
    ensures Draws(blob', e, g)
  {
    forall y, x | 0 <= y < e.height && 0 <= x < e.width ensures Shows(blob', e, g, x, y) {
      assert Shows(blob, e, g, x, y);
    }
  }

  // ----- the packer -----

  datatype Shape = Shape(rows: seq<Row>, width: nat)

  /** What is stored once: the rows, at one or two bytes each. */
  function Shaped(g: Glyph): Shape { Shape(g.rows, if Widest(g.rows) <= 8 then 8 else 16) }

  ghost predicate Stored(blob: seq<byte>, s: Shape, offset: nat) {
    && (s.width == 8 || s.width == 16) && offset + |Bitmap(s.rows, s.width)| <= |blob|
    && blob[offset..offset + |Bitmap(s.rows, s.width)|] == Bitmap(s.rows, s.width)
  }

  lemma ShapeDraws(blob: seq<byte>, e: Entry, g: Glyph)
    requires Representable(g) && Stored(blob, Shaped(g), e.offset)
    requires e == Entry(e.offset, Shaped(g).width, |g.rows|, g.advance, 0, -g.top)
    ensures Draws(blob, e, g)
  {
    StoredDraws(blob, e, g);
    hide Draws, Bitmap;
  }

  lemma StoredKept(blob: seq<byte>, more: seq<byte>, s: Shape, offset: nat)
    requires Stored(blob, s, offset)
    ensures Stored(blob + more, s, offset)
  {
  }

  class Packer {
    var blob: seq<byte>
    var seen: map<Shape, nat>

    constructor ()
      ensures Valid() && blob == []
    {
      blob, seen := [], map[];
    }

    ghost predicate Valid()
      reads this
    {
      forall s :: s in seen ==> Stored(blob, s, seen[s])
    }

    /** Adds a glyph; one that does not fit a record is refused, one drawn before costs nothing. */
    method Add(g: Glyph) returns (r: Option<Entry>)
      requires Valid()
      modifies this
      ensures Valid() && old(blob) <= blob
      ensures r.Some? <==> Representable(g)
      ensures r.Some? <==>
                (forall y :: 0 <= y < |g.rows| ==> |g.rows[y].px| <= 16) && |g.rows| <= 15 && 0 <= g.advance <= 15
      ensures r.Some? ==> Draws(blob, r.value, g)
      ensures r.None? || Shaped(g) in old(seen) ==> blob == old(blob) && seen == old(seen)
      ensures r.Some? ==> seen.Keys == old(seen).Keys + {Shaped(g)}
    {
      WidestFits(g.rows, 16);
      if !Representable(g) { return None; }
      var shape := Shaped(g);
      var offset := Place(shape);
      hide Stored, Draws, Bitmap, Widest;
      var e := Entry(offset, shape.width, |g.rows|, g.advance, 0, -g.top);
      ShapeDraws(blob, e, g);
      return Some(e);
    }

    method Place(shape: Shape) returns (offset: nat)
      requires Valid() && (shape.width == 8 || shape.width == 16) && Widest(shape.rows) <= shape.width
      modifies this
      ensures Valid() && old(blob) <= blob && Stored(blob, shape, offset)
      ensures shape in old(seen) ==> blob == old(blob) && seen == old(seen)
      ensures seen.Keys == old(seen).Keys + {shape}
    {
      if shape in seen { return seen[shape]; }
      offset := |blob|;
      var bits := PackRows(shape);
      forall s | s in seen ensures Stored(blob + bits, s, seen[s]) { StoredKept(blob, bits, s, seen[s]); }
      blob := blob + bits;
      seen := seen[shape := offset];
    }

    method PackRows(shape: Shape) returns (bits: seq<byte>)
      requires (shape.width == 8 || shape.width == 16) && Widest(shape.rows) <= shape.width
      ensures bits == Bitmap(shape.rows, shape.width)
    {
      bits := [];
      for y := 0 to |shape.rows|
        invariant bits == Bitmap(shape.rows[..y], shape.width)
      {
        assert shape.rows[..y + 1][..y] == shape.rows[..y];
        assert shape.rows[y] in shape.rows;
        var row := PackRow(shape.rows[y], shape.width);
        bits := bits + row;
      }
      assert shape.rows[..|shape.rows|] == shape.rows;
    }
  }
}
