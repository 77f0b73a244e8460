/**
 The fonts of the matrix set: bitmaps of any width packed without a gap between rows into a blob all fonts
 share, and tables built from whatever code points a font has.
 */
module MatrixFonts {
  import opened Bits
  import opened FontPack
  import opened FontTables
  import opened Options

  /** Pixel rows in a box `w` wide and `h` high, `x` right of and `y` above the origin. */
  datatype BoxGlyph = BoxGlyph(rows: seq<Row>, w: nat, h: nat, advance: int, x: int, y: int)

  const MAX_BLOB := 65535
  const MAX_RANGES := 255
  const NO_BREAK_SPACE: nat := 0xA0

  // ----- a bitmap without gaps -----

  /** The first `y` rows' pixels, one after another. */
  function PixelsOf(g: BoxGlyph, y: nat): (px: seq<bool>)
    requires y <= |g.rows|
    ensures |px| == y * g.w
  {
    if y == 0 then [] else PixelsOf(g, y - 1) + seq(g.w, x requires 0 <= x < g.w => On(g.rows[y - 1], x))
  }

  lemma {:induction false} PixelAt(g: BoxGlyph, n: nat, x: nat, y: nat)
    requires n <= |g.rows| && y < n && x < g.w
    ensures BitIndex(g.w, x, y) < |PixelsOf(g, n)|
    ensures PixelsOf(g, n)[BitIndex(g.w, x, y)] == On(g.rows[y], x)
    decreases n
  {
    if y < n - 1 {
      PixelAt(g, n - 1, x, y);
    } else {
      Distribute(y, g.w);
    }
  }

  /** The bytes of a row of pixels, the first pixel highest, the last byte filled up with blanks. */
  function PackedBits(px: seq<bool>): (b: seq<byte>)
    ensures |b| == (|px| + 7) / 8
  {
    assert Pow2(8) == 256;
    seq((|px| + 7) / 8, k requires 0 <= k => Value(Row(px), 8 * k, 8))
  }

  lemma PackedBit(px: seq<bool>, i: nat)
    requires i < |px|
    ensures Bit(PackedBits(px)[i / 8], i % 8) <==> px[i]
  {
    ValueBit(Row(px), 8 * (i / 8), 8, i % 8);
    hide Value;
  }

  /** One more pixel sets its bit in its byte and none elsewhere. */
  lemma {:induction false} OneMore(px: seq<bool>, i: nat, from: nat, n: nat)
    requires i < |px|
    ensures Value(Row(px[..i + 1]), from, n) ==
              Value(Row(px[..i]), from, n) + if from <= i < from + n && px[i] then Pow2(from + n - 1 - i) else 0
    decreases n
  {
    if n > 0 {
      OneMore(px, i, from, n - 1);
      var at := from + n - 1;
      assert On(Row(px[..i + 1]), at) == (On(Row(px[..i]), at) || (at == i && px[i]));
      if from <= i < at { assert Pow2(from + n - 1 - i) == 2 * Pow2(from + n - 2 - i); }
    }
  }

  /** Sets the pixels' bits one by one in a zeroed buffer. */
  method PackBits(px: seq<bool>) returns (bytes: seq<byte>)
    ensures bytes == PackedBits(px)
  {
    var data := new byte[(|px| + 7) / 8](_ => 0);
    forall k | 0 <= k < data.Length ensures Value(Row([]), 8 * k, 8) == 0 { Blank(Row([]), 8 * k, 8); }
    assert px[..0] == [];
    for i := 0 to |px|
      invariant forall k :: 0 <= k < data.Length ==> data[k] == Value(Row(px[..i]), 8 * k, 8)
    {
      forall k | 0 <= k < data.Length
        ensures Value(Row(px[..i + 1]), 8 * k, 8) ==
                  Value(Row(px[..i]), 8 * k, 8) + if k == i / 8 && px[i] then Pow2(7 - i % 8) else 0
      {
        OneMore(px, i, 8 * k, 8);
      }
      BelowByte(px, i);
      hide *;
      if px[i] { data[i / 8] := data[i / 8] + Pow2(7 - i % 8); }
    }
    assert px[..|px|] == px;
    bytes := data[..];
  }

  lemma BelowByte(px: seq<bool>, i: nat)
    requires i < |px|
    ensures Value(Row(px[..i + 1]), 8 * (i / 8), 8) < 256
  {
    assert Pow2(8) == 256;
  }

  // ----- the blob -----

  predicate Fits(g: BoxGlyph) {
    && |g.rows| == g.h && g.w <= 255 && g.h <= 15 && 0 <= g.advance <= 15
    && -128 <= g.x <= 127 && -128 <= -g.y - g.h <= 127
  }

  /** The record gives back exactly the glyph's pixels and metrics. */
  ghost predicate BoxDraws(blob: seq<byte>, e: Entry, g: BoxGlyph) {
    && |g.rows| == g.h && e.width == g.w && e.height == g.h && e.advance == g.advance
    && e.xOffset == g.x && e.yOffset == -g.y - g.h
    && forall y, x :: 0 <= y < g.h && 0 <= x < g.w ==> BoxShows(blob, e, g, x, y)
  }

  ghost predicate BoxShows(blob: seq<byte>, e: Entry, g: BoxGlyph, x: nat, y: nat)
    requires y < |g.rows|
  {
    e.offset + BitIndex(e.width, x, y) / 8 < |blob| && (Pixel(blob, e, x, y) <==> On(g.rows[y], x))
  }

  ghost predicate Stands(blob: seq<byte>, bits: seq<byte>, offset: nat) {
    offset + |bits| <= |blob| && blob[offset..offset + |bits|] == bits
  }

  lemma HeldDraws(blob: seq<byte>, e: Entry, g: BoxGlyph)
    requires |g.rows| == g.h && e == Entry(e.offset, g.w, g.h, g.advance, g.x, -g.y - g.h)
    requires Stands(blob, PackedBits(PixelsOf(g, g.h)), e.offset)
    ensures BoxDraws(blob, e, g)
  {
    forall y, x | 0 <= y < g.h && 0 <= x < g.w ensures BoxShows(blob, e, g, x, y) {
      var px, i := PixelsOf(g, g.h), BitIndex(g.w, x, y);
      PixelAt(g, g.h, x, y);
      PackedBit(px, i);
      ByteBelow(i, |px|);
      hide PixelsOf, PackedBits, Bit, On, BitIndex;
      assert blob[e.offset + i / 8] == PackedBits(px)[i / 8];
    }
    hide BoxShows, Stands;
  }

  lemma ByteBelow(i: nat, n: nat)
    requires i < n
    ensures i / 8 < (n + 7) / 8
  {
  }

  lemma BoxDrawsKept(blob: seq<byte>, blob': seq<byte>, e: Entry, g: BoxGlyph)
    requires BoxDraws(blob, e, g) && blob <= blob'
    ensures BoxDraws(blob', e, g)
  {
    forall y, x | 0 <= y < g.h && 0 <= x < g.w ensures BoxShows(blob', e, g, x, y) {
      assert BoxShows(blob, e, g, x, y);
    }
  }

  datatype Packed = Packed(bytes: seq<byte>)

  /** One blob for all fonts; a bitmap two glyphs share is stored once. */
  class SharedBlob {
    var blob: seq<byte>
    var offsets: map<Packed, nat>

    constructor ()
      ensures Valid() && blob == []
    {
      blob, offsets := [], map[];
    }

    ghost predicate Valid()
      reads this
    {
      forall b :: b in offsets ==> Stands(blob, b.bytes, offsets[b])
    }

    /** Packs a glyph; one the renderer's record cannot hold is refused. */
    method Add(g: BoxGlyph) returns (r: Option<Entry>)
      requires Valid()
      modifies this
      ensures Valid() && old(blob) <= blob
      ensures r.Some? <==> Fits(g) && |blob| <= MAX_BLOB
      ensures r.Some? <==>
                && |g.rows| == g.h && g.w <= 255 && g.h <= 15 && 0 <= g.advance <= 15
                && -128 <= g.x <= 127 && -128 <= -g.y - g.h <= 127 && |blob| <= 65535
      ensures r.Some? ==> BoxDraws(blob, r.value, g)
    {
      if |g.rows| != g.h { return None; }
      var px := AllPixels(g);
      var bits := PackBits(px);
      var offset := Place(Packed(bits));
      hide PackedBits, PixelsOf, BoxDraws, Stands;
      if |blob| > MAX_BLOB || !Fits(g) { return None; }
      var e := Entry(offset, g.w, g.h, g.advance, g.x, -g.y - g.h);
      HeldDraws(blob, e, g);
      return Some(e);
    }

    method AllPixels(g: BoxGlyph) returns (px: seq<bool>)
      requires |g.rows| == g.h
      ensures px == PixelsOf(g, g.h)
    {
      px := [];
      for y := 0 to g.h
        invariant px == PixelsOf(g, y)
      {
        px := px + seq(g.w, x requires 0 <= x < g.w => On(g.rows[y], x));
      }
    }

    method Place(b: Packed) returns (offset: nat)
      requires Valid()
      modifies this
      ensures Valid() && old(blob) <= blob && Stands(blob, b.bytes, offset)
      ensures b in old(offsets) ==> blob == old(blob)
    {
      if b in offsets { return offsets[b]; }
      offset := |blob|;
      blob := blob + b.bytes;
      offsets := offsets[b := offset];
    }
  }

  // ----- the code points of one font -----

  type BoxGlyphs = map<nat, BoxGlyph>

  /** A font without a no-break space draws it as its space. */
  function Completed(glyphs: BoxGlyphs): BoxGlyphs {
    if NO_BREAK_SPACE in glyphs || DENSE_FIRST !in glyphs then glyphs else glyphs[NO_BREAK_SPACE := glyphs[DENSE_FIRST]]
  }

  ghost predicate Rising(s: seq<nat>) { forall i, j :: 0 <= i < j < |s| ==> s[i] < s[j] }

  lemma RisingOn(s: seq<nat>, cp: nat)
    requires Rising(s) && forall c :: c in s ==> c < cp
    ensures Rising(s + [cp])
  {
    forall i | 0 <= i < |s| ensures s[i] < cp { assert s[i] in s; }
  }

  /** `rest` holds the least of these in order, `left` the others. */
  ghost predicate Sorting(want: set<nat>, rest: seq<nat>, left: set<nat>) {
    && Rising(rest) && (forall cp :: cp in rest || cp in left <==> cp in want)
    && forall a, b :: a in rest && b in left ==> a < b
  }

  lemma SortStep(want: set<nat>, rest: seq<nat>, left: set<nat>, cp: nat)
    requires Sorting(want, rest, left) && cp in left && forall c :: c in left ==> cp <= c
    ensures Sorting(want, rest + [cp], left - {cp})
  {
    RisingOn(rest, cp);
    hide Rising;
  }

  lemma SortEnds(want: set<nat>, rest: seq<nat>, left: set<nat>)
    ensures left == {} && Sorting(want, rest, left) ==> Rising(rest) && forall cp :: cp in rest <==> cp in want
    ensures Sorting(want, [], want)
  {
  }

  /** The code points outside the dense span, in order. */
  method Sparse(keys: set<nat>) returns (rest: seq<nat>)
    ensures Rising(rest) && forall cp :: cp in rest <==> cp in keys && !InDense(cp)
  {
    rest := [];
    var want := set cp | cp in keys && !InDense(cp);
    hide *;
    var left := want;
    SortEnds(want, [], want);
    while left != {}
      invariant Sorting(want, rest, left)
      decreases |left|
    {
      var cp := Least(left);
      SortStep(want, rest, left, cp);
      rest, left := rest + [cp], left - {cp};
    }
    SortEnds(want, rest, left);
  }

  method Least(s: set<nat>) returns (cp: nat)
    requires s != {}
    ensures cp in s && forall c :: c in s ==> cp <= c
  {
    ghost var some :| some in s;
    HasLeast(s, some);
    cp :| cp in s && forall c :: c in s ==> cp <= c;
  }

  lemma {:induction false} HasLeast(s: set<nat>, x: nat)
    requires x in s
    ensures exists cp :: cp in s && forall c :: c in s ==> cp <= c
    decreases x
  {
    if c :| c in s && c < x { HasLeast(s, c); }
  }

  ghost predicate EndsIn(rest: seq<nat>, spans: seq<Run>) {
    forall i :: 0 <= i < |spans| ==> spans[i].first in rest && spans[i].last in rest
  }

  ghost predicate AllIn(rest: seq<nat>, spans: seq<Run>) { forall cp :: cp in rest ==> Covered(spans, cp) }

  /** Nowhere inside a span is more than the gap skipped. */
  ghost predicate Gapless(rest: seq<nat>, r: Run) { forall cp: nat :: r.first < cp <= r.last ==> Close(rest, r, cp) }

  ghost predicate Close(rest: seq<nat>, r: Run, cp: nat) {
    exists c :: c in rest && r.first <= c < cp <= c + SPARSE_GAP
  }

  ghost predicate AllGapless(rest: seq<nat>, spans: seq<Run>) {
    forall i :: 0 <= i < |spans| ==> Gapless(rest, spans[i])
  }

  /** Spans in order that hold every code point of the list, begin and end with one of it and skip no more than the gap. */
  ghost predicate Spans(rest: seq<nat>, spans: seq<Run>) {
    Apart(spans) && EndsIn(rest, spans) && AllIn(rest, spans) && AllGapless(rest, spans)
  }

  /** Joins nearby code points. */
  method Join(rest: seq<nat>) returns (spans: seq<Run>)
    requires Rising(rest)
    ensures Spans(rest, spans)
  {
    hide *;
    spans := [];
    NoSpans();
    for k := 0 to |rest|
      invariant Spans(rest[..k], spans) && (k > 0 ==> |spans| > 0 && spans[|spans| - 1].last == rest[k - 1])
    {
      var cp, n := rest[k], |spans|;
      assert rest[..k + 1] == rest[..k] + [cp];
      if k > 0 { RisingAt(rest, k); }
      if n > 0 && cp - spans[n - 1].last <= SPARSE_GAP {
        SpansFrom(rest[..k], spans);
        Lengthened(rest[..k], spans, cp);
        spans := spans[n - 1 := Run(spans[n - 1].first, cp)];
      } else {
        SpansFrom(rest[..k], spans);
        Started(rest[..k], spans, cp);
        spans := spans + [Run(cp, cp)];
      }
    }
    assert rest[..|rest|] == rest;
  }

  /** The code points outside the dense span with none close before them: each begins a range of its own. */
  ghost function Starts(keys: set<nat>): set<nat> {
    set cp | cp in keys && !InDense(cp) && forall c :: c in keys && !InDense(c) && c < cp ==> c + SPARSE_GAP < cp
  }

  ghost function Firsts(spans: seq<Run>): set<nat> { set i | 0 <= i < |spans| :: spans[i].first }

  ghost predicate RestOf(keys: set<nat>, rest: seq<nat>) { forall cp :: cp in rest <==> cp in keys && !InDense(cp) }

  /** So there are as many spans as such code points, and no choice of where they begin. */
  lemma SpansBegin(keys: set<nat>, rest: seq<nat>, spans: seq<Run>)
    requires Spans(rest, spans) && RestOf(keys, rest)
    ensures Firsts(spans) == Starts(keys) && |spans| == |Starts(keys)|
  {
    forall i | 0 <= i < |spans| ensures spans[i].first in Starts(keys) { FirstStarts(keys, rest, spans, i); }
    forall cp | cp in Starts(keys) ensures cp in Firsts(spans) { StartIsFirst(keys, rest, spans, cp); }
    hide Spans, Starts, RestOf;
    FirstsCount(spans);
  }

  lemma FirstStarts(keys: set<nat>, rest: seq<nat>, spans: seq<Run>, i: nat)
    requires Spans(rest, spans) && RestOf(keys, rest) && i < |spans|
    ensures spans[i].first in Starts(keys)
  {
    SpansParts(rest, spans);
    var first := spans[i].first;
    assert first in rest;
    hide Spans, AllGapless, AllIn, EndsIn, Apart, InDense;
    forall c | c in keys && !InDense(c) && c < first ensures c + SPARSE_GAP < first {
      assert c in rest;
      FarBefore(rest, spans, i, c);
    }
  }

  lemma FarBefore(rest: seq<nat>, spans: seq<Run>, i: nat, c: nat)
    requires Apart(spans) && AllIn(rest, spans) && i < |spans| && c in rest && c < spans[i].first
    ensures c + SPARSE_GAP < spans[i].first
  {
    assert Covered(spans, c);
    var k :| 0 <= k < |spans| && FontTables.Holds(spans[k], c);
    hide AllIn, Covered;
  }

  lemma StartIsFirst(keys: set<nat>, rest: seq<nat>, spans: seq<Run>, cp: nat)
    requires Spans(rest, spans) && RestOf(keys, rest) && cp in Starts(keys)
    ensures cp in Firsts(spans)
  {
    SpansParts(rest, spans);
    assert cp in rest && Covered(spans, cp);
    var i :| 0 <= i < |spans| && FontTables.Holds(spans[i], cp);
    assert Gapless(rest, spans[i]);
    hide Spans, AllGapless, AllIn, EndsIn, Apart, InDense, Covered;
    if spans[i].first < cp {
      var c := CloseBefore(rest, spans[i], cp);
      assert false;
    }
  }

  lemma CloseBefore(rest: seq<nat>, r: Run, cp: nat) returns (c: nat)
    requires Gapless(rest, r) && r.first < cp <= r.last
    ensures c in rest && c < cp <= c + SPARSE_GAP
  {
    assert Close(rest, r, cp);
    c :| c in rest && r.first <= c < cp <= c + SPARSE_GAP;
  }

  lemma {:induction false} FirstsCount(spans: seq<Run>)
    requires Apart(spans)
    ensures |Firsts(spans)| == |spans|
  {
    if spans == [] {
      assert Firsts(spans) == {};
    } else {
      hide *;
      var front, last := spans[..|spans| - 1], spans[|spans| - 1];
      assert spans == front + [last];
      FirstsOn(front, last);
      FirstsCount(front);
    }
  }

  lemma FirstsOn(spans: seq<Run>, r: Run)
    requires Apart(spans + [r])
    ensures Apart(spans)
    ensures Firsts(spans + [r]) == Firsts(spans) + {r.first} && r.first !in Firsts(spans)
  {
    var more := spans + [r];
    assert more[|spans|] == r;
    forall i | 0 <= i < |spans|
      ensures spans[i].first <= spans[i].last && spans[i].first < r.first
      ensures forall j :: i < j < |spans| ==> spans[i].last + SPARSE_GAP < spans[j].first
    {
      assert more[i] == spans[i];
      assert forall j :: i < j < |spans| ==> more[j] == spans[j];
    }
    assert forall i :: 0 <= i < |spans| ==> more[i] == spans[i];
  }

  lemma RisingAt(rest: seq<nat>, k: nat)
    requires Rising(rest) && 0 < k < |rest|
    ensures rest[k - 1] < rest[k]
  {
  }

  lemma NoSpans()
    ensures Spans([], [])
  {
  }

  /** Without code points there is no span. */
  lemma SpansFrom(rest: seq<nat>, spans: seq<Run>)
    requires Spans(rest, spans)
    ensures |rest| == 0 ==> |spans| == 0
  {
    if |spans| > 0 { assert spans[0].first in rest; }
  }

  lemma Lengthened(rest: seq<nat>, spans: seq<Run>, cp: nat)
    requires Spans(rest, spans) && spans != [] && spans[|spans| - 1].last < cp <= spans[|spans| - 1].last + SPARSE_GAP
    ensures Spans(rest + [cp], spans[|spans| - 1 := Run(spans[|spans| - 1].first, cp)])
  {
    hide *;
    SpansParts(rest, spans);
    var n := |spans| - 1;
    var spans' := spans[n := Run(spans[n].first, cp)];
    ApartWidened(spans, cp);
    LastCovers(spans', cp);
    AllInKept(rest, spans, spans', cp);
    EndsKept(rest, spans, cp);
    GaplessKept(rest, spans, cp);
    SpansPut(rest + [cp], spans');
  }

  lemma Started(rest: seq<nat>, spans: seq<Run>, cp: nat)
    requires Spans(rest, spans) && (spans != [] ==> cp - spans[|spans| - 1].last > SPARSE_GAP)
    ensures Spans(rest + [cp], spans + [Run(cp, cp)])
  {
    hide *;
    SpansParts(rest, spans);
    var spans' := spans + [Run(cp, cp)];
    ApartOn(spans, cp);
    LastCovers(spans', cp);
    AllInKept(rest, spans, spans', cp);
    EndsKept(rest, spans, cp);
    GaplessKept(rest, spans, cp);
    SpansPut(rest + [cp], spans');
  }

  lemma LastCovers(spans: seq<Run>, cp: nat)
    requires |spans| > 0 && spans[|spans| - 1].first <= cp == spans[|spans| - 1].last
    ensures Covered(spans, cp)
  {
    Reaches(spans, cp);
  }

  lemma SpansParts(rest: seq<nat>, spans: seq<Run>)
    requires Spans(rest, spans)
    ensures Apart(spans) && EndsIn(rest, spans) && AllIn(rest, spans) && AllGapless(rest, spans)
  {
  }

  lemma SpansPut(rest: seq<nat>, spans: seq<Run>)
    requires Apart(spans) && EndsIn(rest, spans) && AllIn(rest, spans) && AllGapless(rest, spans)
    ensures Spans(rest, spans)
  {
  }

  lemma AllInKept(rest: seq<nat>, spans: seq<Run>, spans': seq<Run>, cp: nat)
    requires AllIn(rest, spans) && |spans| <= |spans'| && Covered(spans', cp)
    requires forall i :: 0 <= i < |spans| ==> spans'[i].first == spans[i].first && spans[i].last <= spans'[i].last
    ensures AllIn(rest + [cp], spans')
  {
    hide Covered;
    forall c | c in rest + [cp] ensures Covered(spans', c) {
      if c in rest { CoveredKept(spans, spans', c); }
    }
  }

  lemma GaplessKept(rest: seq<nat>, spans: seq<Run>, cp: nat)
    requires AllGapless(rest, spans) && EndsIn(rest, spans)
    ensures AllGapless(rest + [cp], spans + [Run(cp, cp)])
    ensures spans != [] && spans[|spans| - 1].first <= spans[|spans| - 1].last < cp <= spans[|spans| - 1].last + SPARSE_GAP ==>
              AllGapless(rest + [cp], spans[|spans| - 1 := Run(spans[|spans| - 1].first, cp)])
  {
    forall i | 0 <= i < |spans| ensures Gapless(rest + [cp], spans[i]) { GaplessOn(rest, spans[i], cp); }
    if spans != [] {
      var r := spans[|spans| - 1];
      if r.first <= r.last < cp <= r.last + SPARSE_GAP { GaplessLonger(rest, r, cp); }
    }
    hide Gapless, EndsIn;
  }

  lemma GaplessOn(rest: seq<nat>, r: Run, more: nat)
    requires Gapless(rest, r)
    ensures Gapless(rest + [more], r)
  {
    forall cp: nat | r.first < cp <= r.last ensures Close(rest + [more], r, cp) {
      assert Close(rest, r, cp);
      var c :| c in rest && r.first <= c < cp <= c + SPARSE_GAP;
      assert c in rest + [more];
    }
  }

  lemma GaplessLonger(rest: seq<nat>, r: Run, cp: nat)
    requires Gapless(rest, r) && r.last in rest && r.first <= r.last < cp <= r.last + SPARSE_GAP
    ensures Gapless(rest + [cp], Run(r.first, cp))
  {
    forall k: nat | r.first < k <= cp ensures Close(rest + [cp], Run(r.first, cp), k) {
      if k <= r.last {
        assert Close(rest, r, k);
        var c :| c in rest && r.first <= c < k <= c + SPARSE_GAP;
        assert c in rest + [cp];
      } else {
        assert r.last in rest + [cp];
      }
    }
  }

  lemma EndsKept(rest: seq<nat>, spans: seq<Run>, cp: nat)
    requires EndsIn(rest, spans)
    ensures EndsIn(rest + [cp], spans + [Run(cp, cp)])
    ensures spans != [] ==> EndsIn(rest + [cp], spans[|spans| - 1 := Run(spans[|spans| - 1].first, cp)])
  {
    var more := rest + [cp];
    assert more[|rest|] == cp;
    assert forall c :: c in rest ==> c in more;
  }

  // ----- the tables of one font -----

  /** Every slot remembered for a code point is the record that draws its glyph. */
  ghost predicate Slotted(blob: seq<byte>, glyphs: BoxGlyphs, table: seq<Entry>, slots: map<nat, nat>) {
    forall cp :: cp in slots ==> cp in glyphs && 1 <= slots[cp] <= |table| && BoxDraws(blob, table[slots[cp] - 1], glyphs[cp])
  }

  lemma SlottedKept(blob: seq<byte>, blob': seq<byte>, glyphs: BoxGlyphs, table: seq<Entry>, more: seq<Entry>,
                    slots: map<nat, nat>)
    requires Slotted(blob, glyphs, table, slots) && blob <= blob'
    ensures Slotted(blob', glyphs, table + more, slots)
  {
    hide BoxDraws;
    forall cp | cp in slots ensures BoxDraws(blob', (table + more)[slots[cp] - 1], glyphs[cp]) {
      BoxDrawsKept(blob, blob', table[slots[cp] - 1], glyphs[cp]);
    }
  }

  /** The order of the table: the dense span, then the rest. */
  ghost predicate Listed(glyphs: BoxGlyphs, order: seq<nat>) {
    && |order| >= DENSE && (forall i :: 0 <= i < DENSE ==> order[i] == DENSE_FIRST + i)
    && (forall cp :: cp in order ==> cp in glyphs)
    && (forall i, j :: 0 <= i < j < |order| ==> order[i] != order[j])
  }

  lemma BehindDense(glyphs: BoxGlyphs, order: seq<nat>, i: nat)
    requires Listed(glyphs, order) && i < |order|
    ensures if i < DENSE then order[i] == DENSE_FIRST + i else !InDense(order[i])
  {
    if i >= DENSE {
      forall cp: nat | InDense(cp) ensures order[i] != cp { assert order[cp - DENSE_FIRST] == cp; }
    }
  }

  /** The dense glyphs come first, each in its own place. */
  ghost predicate Placed(i: nat, table: seq<Entry>, slots: map<nat, nat>) {
    && (if i <= DENSE then |table| == i else |table| >= DENSE)
    && forall cp: nat :: InDense(cp) && cp - DENSE_FIRST < i ==> cp in slots && slots[cp] == cp - DENSE_FIRST + 1
  }

  /** Table and slots once these code points are done. */
  ghost predicate Filled(blob: seq<byte>, glyphs: BoxGlyphs, done: seq<nat>, table: seq<Entry>, slots: map<nat, nat>) {
    Slotted(blob, glyphs, table, slots) && (forall cp :: cp in slots <==> cp in done) && Placed(|done|, table, slots)
  }

  /** A record of its own for the next code point. */
  lemma FilledOn(blob: seq<byte>, blob': seq<byte>, glyphs: BoxGlyphs, order: seq<nat>, i: nat, table: seq<Entry>,
                 slots: map<nat, nat>, e: Entry)
    requires Listed(glyphs, order) && i < |order| && blob <= blob'
    requires Filled(blob, glyphs, order[..i], table, slots) && BoxDraws(blob', e, glyphs[order[i]])
    ensures Filled(blob', glyphs, order[..i + 1], table + [e], slots[order[i] := |table| + 1])
  {
    BehindDense(glyphs, order, i);
    SlottedKept(blob, blob', glyphs, table, [e], slots);
    hide BoxDraws, Listed;
    assert order[..i + 1] == order[..i] + [order[i]];
  }

  /** The slot of the space for the no-break space. */
  lemma FilledAlias(blob: seq<byte>, blob': seq<byte>, glyphs: BoxGlyphs, order: seq<nat>, i: nat, table: seq<Entry>,
                    slots: map<nat, nat>)
    requires Listed(glyphs, order) && i < |order| && order[i] == NO_BREAK_SPACE && blob <= blob'
    requires DENSE_FIRST in glyphs && glyphs[NO_BREAK_SPACE] == glyphs[DENSE_FIRST]
    requires Filled(blob, glyphs, order[..i], table, slots)
    ensures DENSE_FIRST in slots && Filled(blob', glyphs, order[..i + 1], table, slots[NO_BREAK_SPACE := slots[DENSE_FIRST]])
  {
    BehindDense(glyphs, order, i);
    SlottedKept(blob, blob', glyphs, table, [], slots);
    hide BoxDraws, Listed;
    assert table + [] == table;
    assert InDense(DENSE_FIRST);
    assert order[..i + 1] == order[..i] + [order[i]];
  }

  lemma NothingFilled(blob: seq<byte>, glyphs: BoxGlyphs)
    ensures Filled(blob, glyphs, [], [], map[])
  {
  }

  /** Fills table and slots in order; an aliased no-break space shares the space's slot. */
  method FillTable(glyphs: BoxGlyphs, order: seq<nat>, aliased: bool, shared: SharedBlob)
    returns (filled: Option<(seq<Entry>, map<nat, nat>)>)
    requires shared.Valid() && Listed(glyphs, order)
    requires aliased ==> NO_BREAK_SPACE in glyphs && DENSE_FIRST in glyphs
                         && glyphs[NO_BREAK_SPACE] == glyphs[DENSE_FIRST]
    modifies shared
    ensures shared.Valid() && old(shared.blob) <= shared.blob
    ensures filled.Some? ==> Filled(shared.blob, glyphs, order, filled.value.0, filled.value.1)
    ensures filled.Some? <==> |shared.blob| <= MAX_BLOB && forall cp :: cp in order && cp in glyphs ==> Fits(glyphs[cp])
  {
    hide *;
    var table: seq<Entry>, slots: map<nat, nat> := [], map[];
    NothingFilled(shared.blob, glyphs);
    AllListed(glyphs, order);
    for i := 0 to |order|
      invariant shared.Valid() && old(shared.blob) <= shared.blob
      invariant Filled(shared.blob, glyphs, order[..i], table, slots)
      invariant (i > 0 ==> |shared.blob| <= MAX_BLOB) && forall k :: 0 <= k < i ==> Fits(glyphs[order[k]])
    {
      var cp := order[i];
      ghost var before := shared.blob;
      var e := shared.Add(glyphs[cp]);
      if e.None? { return None; }
      if cp == NO_BREAK_SPACE && aliased {
        FilledAlias(before, shared.blob, glyphs, order, i, table, slots);
        slots := slots[cp := slots[DENSE_FIRST]];
      } else {
        FilledOn(before, shared.blob, glyphs, order, i, table, slots, e.value);
        table := table + [e.value];
        slots := slots[cp := |table|];
      }
    }
    assert order[..|order|] == order;
    return Some((table, slots));
  }

  lemma AllListed(glyphs: BoxGlyphs, order: seq<nat>)
    requires Listed(glyphs, order)
    ensures order != [] && forall i :: 0 <= i < |order| ==> order[i] in glyphs
  {
  }

  function SlotOf(slots: map<nat, nat>, cp: nat): nat { if cp in slots then slots[cp] else 0 }

  function SlotList(slots: map<nat, nat>, first: nat, n: nat): (r: seq<nat>)
    ensures |r| == n && forall k :: 0 <= k < n ==> r[k] == SlotOf(slots, first + k)
  {
    if n == 0 then [] else SlotList(slots, first, n - 1) + [SlotOf(slots, first + n - 1)]
  }

  /** The ranges are the spans, each with the slots of its code points. */
  ghost predicate Tabled(slots: map<nat, nat>, spans: seq<Run>, ranges: seq<Range>) {
    && |ranges| == |spans|
    && forall i :: 0 <= i < |spans| ==>
         && ranges[i].first == spans[i].first <= ranges[i].last == spans[i].last
         && |ranges[i].index| == spans[i].last - spans[i].first + 1
         && SlotsOf(slots, ranges[i])
  }

  ghost predicate SlotsOf(slots: map<nat, nat>, r: Range) {
    forall k :: 0 <= k < |r.index| ==> r.index[k] == SlotOf(slots, r.first + k)
  }

  method IndexSpans(spans: seq<Run>, slots: map<nat, nat>) returns (ranges: seq<Range>)
    requires Apart(spans)
    ensures Tabled(slots, spans, ranges)
  {
    ranges := [];
    for i := 0 to |spans|
      invariant Tabled(slots, spans[..i], ranges)
    {
      var first, last := spans[i].first, spans[i].last;
      ranges := ranges + [Range(first, last, SlotList(slots, first, last - first + 1))];
      hide SlotOf;
    }
  }

  lemma TabledFinds(slots: map<nat, nat>, spans: seq<Run>, ranges: seq<Range>, cp: nat)
    requires Tabled(slots, spans, ranges)
    ensures Found(ranges, cp) <==> Covered(spans, cp)
  {
    hide SlotsOf;
    if Found(ranges, cp) {
      var i :| 0 <= i < |ranges| && In(ranges[i], cp);
      assert FontTables.Holds(spans[i], cp);
    }
    if Covered(spans, cp) {
      var i :| 0 <= i < |spans| && FontTables.Holds(spans[i], cp);
      assert In(ranges[i], cp);
    }
  }

  lemma TabledWellformed(blob: seq<byte>, glyphs: BoxGlyphs, slots: map<nat, nat>, spans: seq<Run>, font: Font)
    requires Tabled(slots, spans, font.ranges) && Apart(spans)
    requires Slotted(blob, glyphs, font.table, slots) && |font.table| >= DENSE
    ensures Wellformed(font)
  {
    hide BoxDraws;
    forall i, k | 0 <= i < |font.ranges| && 0 <= k < |font.ranges[i].index|
      ensures font.ranges[i].index[k] <= |font.table|
    {
      assert SlotsOf(slots, font.ranges[i]);
      assert font.ranges[i].index[k] == SlotOf(slots, font.ranges[i].first + k);
    }
  }

  /** A code point's record draws its glyph; without a glyph there is no record. */
  ghost predicate BoxRight(blob: seq<byte>, glyphs: BoxGlyphs, cp: nat, g: Option<Entry>) {
    if cp in glyphs then g.Some? && BoxDraws(blob, g.value, glyphs[cp]) else g == None
  }

  lemma SlotDraws(blob: seq<byte>, glyphs: BoxGlyphs, table: seq<Entry>, slots: map<nat, nat>, cp: nat)
    requires Slotted(blob, glyphs, table, slots) && (cp in slots <==> cp in glyphs)
    ensures SlotOf(slots, cp) <= |table|
    ensures BoxRight(blob, glyphs, cp, if SlotOf(slots, cp) == 0 then None else Some(table[SlotOf(slots, cp) - 1]))
  {
    hide BoxDraws;
  }

  /** What the lookup finds for a code point is its slot, wherever it lies. */
  lemma LeadsToSlot(slots: map<nat, nat>, rest: seq<nat>, spans: seq<Run>, font: Font, n: nat, cp: nat,
                    g: Option<Entry>)
    requires Wellformed(font) && Tabled(slots, spans, font.ranges) && AllIn(rest, spans) && Placed(n, font.table, slots)
    requires n >= DENSE && (!InDense(cp) && cp in slots ==> cp in rest) && SlotOf(slots, cp) <= |font.table|
    requires Leads(font, cp, g)
    ensures g == if SlotOf(slots, cp) == 0 then None else Some(font.table[SlotOf(slots, cp) - 1])
  {
    if InDense(cp) {
      assert SlotOf(slots, cp) == cp - DENSE_FIRST + 1;
    } else {
      SparseSlot(slots, rest, spans, font, cp, g);
      hide SlotOf;
    }
  }

  lemma SparseSlot(slots: map<nat, nat>, rest: seq<nat>, spans: seq<Run>, font: Font, cp: nat, g: Option<Entry>)
    requires Wellformed(font) && Tabled(slots, spans, font.ranges) && AllIn(rest, spans) && !InDense(cp)
    requires (cp in slots ==> cp in rest) && SlotOf(slots, cp) <= |font.table| && Leads(font, cp, g)
    ensures g == if SlotOf(slots, cp) == 0 then None else Some(font.table[SlotOf(slots, cp) - 1])
  {
    TabledFinds(slots, spans, font.ranges, cp);
    if Found(font.ranges, cp) {
      var i :| 0 <= i < |font.ranges| && In(font.ranges[i], cp);
      TabledSlot(slots, spans, font.ranges, i, cp);
      hide SlotOf, Ordered, Found, Tabled, AllIn;
    } else {
      hide Ordered, Found, Tabled, Covered;
    }
  }

  lemma TabledSlot(slots: map<nat, nat>, spans: seq<Run>, ranges: seq<Range>, i: nat, cp: nat)
    requires Tabled(slots, spans, ranges) && i < |ranges| && In(ranges[i], cp)
    ensures cp - ranges[i].first < |ranges[i].index| && ranges[i].index[cp - ranges[i].first] == SlotOf(slots, cp)
  {
    var r := ranges[i];
    assert SlotsOf(slots, r);
    assert r.index[cp - r.first] == SlotOf(slots, r.first + (cp - r.first));
  }

  /** Lays a font out into the blob all fonts share, unless it or the blob exceeds what the renderer can hold. */
  method BuildFont(glyphs: BoxGlyphs, shared: SharedBlob) returns (font: Option<Font>)
    requires shared.Valid() && forall cp :: InDense(cp) ==> cp in glyphs
    modifies shared
    ensures shared.Valid() && old(shared.blob) <= shared.blob
    ensures font.Some? ==> Wellformed(font.value) && |font.value.ranges| <= MAX_RANGES
    ensures font.Some? ==> forall cp: nat, g: Option<Entry> :: Leads(font.value, cp, g) ==>
              BoxRight(shared.blob, Completed(glyphs), cp, g)
    ensures font.Some? <==>
              && |shared.blob| <= MAX_BLOB && |Starts(Completed(glyphs).Keys)| <= MAX_RANGES
              && forall cp :: cp in Completed(glyphs) ==> Fits(Completed(glyphs)[cp])
  {
    assert InDense(DENSE_FIRST);
    var all := Completed(glyphs);
    var rest := Sparse(all.Keys);
    var dense := seq(DENSE, i requires 0 <= i < DENSE => DENSE_FIRST + i);
    var order := dense + rest;
    InListOrder(all, dense, rest);
    var filled := FillTable(all, order, NO_BREAK_SPACE !in glyphs, shared);
    if filled.None? { return None; }
    var (table, slots) := filled.value;
    var spans := Join(rest);
    SpansBegin(all.Keys, rest, spans);
    if |spans| > MAX_RANGES { return None; }
    var ranges := IndexSpans(spans, slots);
    var f := Font(table, ranges);
    FontRight(shared.blob, all, order, rest, slots, spans, f);
    return Some(f);
  }

  lemma InListOrder(glyphs: BoxGlyphs, dense: seq<nat>, rest: seq<nat>)
    requires |dense| == DENSE && forall i :: 0 <= i < DENSE ==> dense[i] == DENSE_FIRST + i
    requires forall cp :: InDense(cp) ==> cp in glyphs
    requires Rising(rest) && forall cp :: cp in rest <==> cp in glyphs && !InDense(cp)
    ensures Listed(glyphs, dense + rest)
    ensures forall cp: nat :: cp in dense + rest <==> cp in glyphs
  {
    var order := dense + rest;
    forall cp: nat ensures cp in order <==> cp in glyphs {
      if InDense(cp) { assert order[cp - DENSE_FIRST] == cp; }
    }
    forall i, j | 0 <= i < j < |order| ensures order[i] != order[j] {
      if j >= DENSE { assert order[j] in rest; }
      if i >= DENSE { assert order[i] == rest[i - DENSE] && order[j] == rest[j - DENSE]; }
    }
  }

  lemma FontRight(blob: seq<byte>, glyphs: BoxGlyphs, order: seq<nat>, rest: seq<nat>, slots: map<nat, nat>,
                  spans: seq<Run>, font: Font)
    requires Filled(blob, glyphs, order, font.table, slots) && Tabled(slots, spans, font.ranges) && Spans(rest, spans)
    requires |order| >= DENSE && forall cp: nat :: cp in order <==> cp in glyphs
    requires forall cp :: cp in rest <==> cp in glyphs && !InDense(cp)
    ensures Wellformed(font)
    ensures forall cp: nat, g: Option<Entry> :: Leads(font, cp, g) ==> BoxRight(blob, glyphs, cp, g)
  {
    TabledWellformed(blob, glyphs, slots, spans, font);
    forall cp: nat, g: Option<Entry> | Leads(font, cp, g) ensures BoxRight(blob, glyphs, cp, g) {
      SlotDraws(blob, glyphs, font.table, slots, cp);
      LeadsToSlot(slots, rest, spans, font, |order|, cp, g);
    }
  }
}
