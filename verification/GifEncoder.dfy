/**
 GIF files as the format lays them out, byte by byte, and what a viewer shows of them, pixel by pixel:
 both written without reference to the decoder, which must show exactly that.
 */
module GifEncoder {
  import opened Bits
  import opened Lzw
  import opened LzwEncoder
  import opened Interlace
  import opened Gif
  import opened PodBuffers
  import opened Options
  import GifLaws

  // ----- pictures -----

  datatype Colour = Colour(red: byte, green: byte, blue: byte)

  /** What a graphic control extension says of the picture behind it; delays count in hundredths of a second. */
  datatype Handling = Handling(disposal: nat, delay: nat, hasClear: bool, clear: byte, waits: bool, reserved: nat)

  /** Any other extension. */
  datatype Note = Note(kind: byte, blocks: seq<seq<byte>>)

  /**
   A picture, its rows from top to bottom, with the colours it brings along, and one way to encode them.
   `spare` is the packed field's sort flag, its reserved bits and the size it gives for a colour table;
   only the first `sent` pixels are in the stream.
   */
  datatype Picture = Picture(notes: seq<Note>, handling: Option<Handling>, left: nat, top: nat, width: nat,
                             rows: seq<seq<byte>>, interlaced: bool, own: Option<seq<Colour>>, spare: nat,
                             m: nat, tokens: seq<Token>, sent: nat, blocks: seq<seq<byte>>) {
    ghost predicate Valid() {
      && Notes(notes)
      && (handling.Some? ==> handling.value.disposal < 8 && handling.value.delay < 0x1_0000 && handling.value.reserved < 8)
      && left < 0x1_0000 && top < 0x1_0000 && 0 < width < 0x1_0000 && 0 < |rows| < 0x1_0000
      && (forall y :: 0 <= y < |rows| ==> |rows[y]| == width)
      && spare < 64 && (own.Some? ==> |own.value| == Pow2(spare % 8 + 1))
      && 2 <= m <= 8 && Blocks(blocks) && Encoded(m, tokens, sent, blocks, Flatten(Stored(rows, interlaced)))
    }
  }

  ghost predicate Notes(notes: seq<Note>) {
    forall i :: 0 <= i < |notes| ==> notes[i].kind != 0xF9 && Blocks(notes[i].blocks)
  }

  /** The sub-blocks hold a stream of codes for these pixels, or for the first of them and an end code, and perhaps padding. */
  ghost predicate Encoded(m: nat, tokens: seq<Token>, sent: nat, blocks: seq<seq<byte>>, pixels: seq<byte>) {
    && TableOk(m, []) && sent <= |pixels| && Encodes(m, [], tokens, pixels[..sent])
    && EncodedBits(m, [], tokens, pixels[..sent]) <= BitsOf(Flatten(blocks))
    && (sent < |pixels| ==>
          && EndsInCode(tokens)
          && EncodedBits(m, [], tokens, pixels[..sent]) + EndBits(m, [], tokens, pixels[..sent], true) <= BitsOf(Flatten(blocks)))
  }

  function Every(rows: seq<seq<byte>>, start: nat, step: nat): seq<seq<byte>>
    requires step > 0
    decreases |rows| - start
  {
    if start >= |rows| then [] else [rows[start]] + Every(rows, start + step, step)
  }

  /** Interlaced rows are stored in four passes, Appendix E of GIF89a. */
  function Stored(rows: seq<seq<byte>>, interlaced: bool): seq<seq<byte>> {
    if interlaced then Every(rows, 0, 8) + Every(rows, 4, 8) + Every(rows, 2, 4) + Every(rows, 1, 2) else rows
  }

  // ----- their bytes -----

  function Table(colours: seq<Colour>): (s: seq<byte>)
    ensures |s| == 3 * |colours|
  {
    if colours == [] then [] else [colours[0].red, colours[0].green, colours[0].blue] + Table(colours[1..])
  }

  ghost function NoteBytes(notes: seq<Note>): seq<byte>
    requires Notes(notes)
  {
    if notes == [] then [] else [0x21, notes[0].kind] + Chain(notes[0].blocks) + NoteBytes(notes[1..])
  }

  function HandlingBytes(h: Handling): seq<byte>
    requires h.disposal < 8 && h.delay < 0x1_0000 && h.reserved < 8
  {
    [0x21, 0xF9, 4,
     32 * h.reserved + 4 * h.disposal + (if h.waits then 2 else 0) + (if h.hasClear then 1 else 0),
     h.delay % 256, h.delay / 256, h.clear, 0]
  }

  /** A word, its low byte first. */
  function Little(v: nat): (s: seq<byte>)
    requires v < 0x1_0000
    ensures |s| == 2
  {
    [v % 256, v / 256]
  }

  ghost function PackedByte(p: Picture): byte
    requires p.Valid()
  {
    (if p.own.Some? then 0x80 else 0) + (if p.interlaced then 0x40 else 0) + p.spare
  }

  ghost function PlaceBytes(p: Picture): (s: seq<byte>)
    requires p.Valid()
    ensures |s| == 9
  {
    Little(p.left) + (Little(p.top) + (Little(p.width) + (Little(|p.rows|) + [PackedByte(p)])))
  }

  ghost function TableBytes(p: Picture): seq<byte> {
    if p.own.Some? then Table(p.own.value) else []
  }

  ghost function ChainBytes(p: Picture): seq<byte>
    requires p.Valid()
  {
    Chain(p.blocks)
  }

  ghost function ImageBytes(p: Picture): seq<byte>
    requires p.Valid()
  {
    PlaceBytes(p) + (TableBytes(p) + ([p.m] + ChainBytes(p)))
  }

  ghost function ControlBytes(p: Picture): seq<byte>
    requires p.Valid()
  {
    if p.handling.Some? then HandlingBytes(p.handling.value) else []
  }

  ghost function Bytes(p: Picture): seq<byte>
    requires p.Valid()
  {
    NoteBytes(p.notes) + (ControlBytes(p) + ([0x2C] + ImageBytes(p)))
  }

  // ----- what a viewer shows -----

  predicate Covers(p: Picture, x: int, y: int) {
    p.left <= x < p.left + p.width && p.top <= y < p.top + |p.rows|
  }

  function Mixed(c: Colour): rgb {
    var (red: int, green: int, blue: int) := (c.red, c.green, c.blue);
    0x1_0000 * red + 0x100 * green + blue
  }

  function Colours(p: Picture, shared: seq<Colour>): seq<Colour> {
    if p.own.Some? then p.own.value else shared
  }

  /** The pixel put down at (x, y) of the screen: the ground stays where the picture is clear or has no colour. */
  function Laid(p: Picture, shared: seq<Colour>, x: int, y: int, ground: rgb): rgb
    requires forall y :: 0 <= y < |p.rows| ==> |p.rows[y]| == p.width
  {
    if !Covers(p, x, y) then ground
    else
      var index := p.rows[y - p.top][x - p.left];
      var colours := Colours(p, shared);
      if p.handling.Some? && p.handling.value.hasClear && p.handling.value.clear == index then ground
      else if index >= |colours| then ground
      else Mixed(colours[index])
  }

  /** A picture on its ground. Pixels beyond a screen of `w` by `h` are left alone. */
  function Over(p: Picture, shared: seq<Colour>, w: nat, h: nat, ground: Image): (r: Image)
    requires ground.Valid() && forall y :: 0 <= y < |p.rows| ==> |p.rows[y]| == p.width
    ensures r.Valid() && r.w == ground.w && r.h == ground.h
  {
    Image(ground.w, ground.h, seq(ground.h, y requires 0 <= y < ground.h =>
      seq(ground.w, x requires 0 <= x < ground.w =>
        if x < w && y < h then Laid(p, shared, x, y, ground.rows[y][x]) else ground.rows[y][x])))
  }

  /** What is left of it for the next picture: all, its place blanked, or the ground it lay on. */
  function Behind(p: Picture, w: nat, h: nat, ground: Image, shown: Image): (r: Image)
    requires ground.Valid() && shown.Valid() && ground.w == shown.w && ground.h == shown.h
    ensures r.Valid() && r.w == ground.w && r.h == ground.h
  {
    if p.handling.Some? && p.handling.value.disposal == 2 then
      Image(shown.w, shown.h, seq(shown.h, y requires 0 <= y < shown.h =>
        seq(shown.w, x requires 0 <= x < shown.w =>
          if x < w && y < h && Covers(p, x, y) then 0 else shown.rows[y][x])))
    else if p.handling.Some? && p.handling.value.disposal == 3 then ground
    else shown
  }

  // ----- any image can be laid out -----

  /** Sub-blocks of at most 255 bytes. */
  function Cut(s: seq<byte>): (blocks: seq<seq<byte>>)
    ensures Blocks(blocks)
    decreases |s|
  {
    if s == [] then []
    else
      var n := if |s| < 255 then |s| else 255;
      [s[..n]] + Cut(s[n..])
  }

  lemma {:induction false} CutJoins(s: seq<byte>)
    ensures Flatten(Cut(s)) == s
    decreases |s|
  {
    if s != [] {
      var n := if |s| < 255 then |s| else 255;
      CutJoins(s[n..]);
      assert Cut(s)[1..] == Cut(s[n..]);
      assert s == s[..n] + s[n..];
    }
  }

  /** Whatever the rows, there is a stream for them. */
  lemma EveryImageIsEncoded(m: nat, pixels: seq<byte>)
    requires 2 <= m <= 8 && forall i :: 0 <= i < |pixels| ==> pixels[i] < Pow2(m)
    ensures var tokens := Greedy(m, [], pixels);
            && TableOk(m, []) && Encodes(m, [], tokens, pixels)
            && Encoded(m, tokens, |pixels|, Cut(Pack(EncodedBits(m, [], tokens, pixels))), pixels)
  {
    EveryImageHasAStream(m, pixels);
    assert pixels[..|pixels|] == pixels;
    CutJoins(Pack(EncodedBits(m, [], Greedy(m, [], pixels), pixels)));
    hide Greedy, Encodes, EncodedBits, Pack, Cut, Flatten, BitsOf;
  }

  // ----- reading them back -----

  lemma ByteAt(data: seq<byte>, pos: nat, part: seq<byte>, k: nat)
    requires LzwEncoder.At(data, pos, part) && k < |part|
    ensures pos + k < |data| && data[pos + k] == part[k]
  {
    assert data[pos..pos + |part|][k] == data[pos + k];
  }

  lemma {:induction false} SkipChain(data: seq<byte>, pos: nat, blocks: seq<seq<byte>>)
    requires Blocks(blocks) && LzwEncoder.At(data, pos, Chain(blocks))
    ensures Skip(data, pos) == Some(pos + |Chain(blocks)|)
    decreases |blocks|
  {
    if blocks == [] {
      assert data[pos..pos + 1][0] == data[pos];
    } else {
      ChainParts(data, pos, blocks);
      SkipChain(data, pos + 1 + |blocks[0]|, blocks[1..]);
    }
  }

  /** The i-th colour of a table that stands in the data. */
  lemma {:induction false} ColourAt(data: seq<byte>, pos: nat, colours: seq<Colour>, i: nat)
    requires LzwEncoder.At(data, pos, Table(colours)) && i < |colours|
    ensures pos + 3 * i + 3 <= |data|
    ensures data[pos + 3 * i] == colours[i].red && data[pos + 3 * i + 1] == colours[i].green && data[pos + 3 * i + 2] == colours[i].blue
    decreases i
  {
    var first := [colours[0].red, colours[0].green, colours[0].blue];
    AtParts(data, pos, first, Table(colours[1..]));
    if i == 0 {
      ByteAt(data, pos, first, 0);
      ByteAt(data, pos, first, 1);
      ByteAt(data, pos, first, 2);
    } else {
      ColourAt(data, pos + 3, colours[1..], i - 1);
    }
  }

  // ----- rows -----

  lemma {:induction false} EveryIsPass(rows: seq<seq<byte>>, start: nat, step: nat)
    requires step > 0
    ensures |Every(rows, start, step)| == |Pass(start, step, |rows|)|
    ensures forall k :: 0 <= k < |Every(rows, start, step)| ==>
              Pass(start, step, |rows|)[k] < |rows| && Every(rows, start, step)[k] == rows[Pass(start, step, |rows|)[k]]
    decreases |rows| - start
  {
    if start < |rows| { EveryIsPass(rows, start + step, step); }
  }

  /** Row `y` is found where the stored order has put it. */
  lemma RowStoredAt(rows: seq<seq<byte>>, interlaced: bool, y: nat)
    requires y < |rows|
    ensures |Stored(rows, interlaced)| == |rows|
    ensures var r := if interlaced then StoredAt(y, |rows|) else y;
            r < |rows| && Stored(rows, interlaced)[r] == rows[y]
  {
    if interlaced {
      EveryIsPass(rows, 0, 8);
      EveryIsPass(rows, 4, 8);
      EveryIsPass(rows, 2, 4);
      EveryIsPass(rows, 1, 2);
      StoredOrderIsPermutation(|rows|);
      hide Every, Pass, StoredAt;
    }
  }

  lemma {:induction false} RowsOfWidth(rows: seq<seq<byte>>, start: nat, step: nat, w: nat)
    requires step > 0 && forall y :: 0 <= y < |rows| ==> |rows[y]| == w
    ensures forall k :: 0 <= k < |Every(rows, start, step)| ==> |Every(rows, start, step)[k]| == w
    decreases |rows| - start
  {
    if start < |rows| { RowsOfWidth(rows, start + step, step, w); }
  }

  lemma {:induction false} PixelOfRow(rows: seq<seq<byte>>, w: nat, r: nat, x: nat)
    requires forall y :: 0 <= y < |rows| ==> |rows[y]| == w
    ensures |Flatten(rows)| == |rows| * w
    ensures r < |rows| && x < w ==> r * w + x < |rows| * w && Flatten(rows)[r * w + x] == rows[r][x]
    decreases |rows|
  {
    if rows != [] {
      var rest := rows[1..];
      PixelOfRow(rest, w, if r > 0 then r - 1 else 0, x);
      OneRowMore(|rest|, r, w);
      assert Flatten(rows) == rows[0] + Flatten(rest);
    }
  }

  lemma OneRowMore(n: nat, r: nat, w: nat)
    ensures (n + 1) * w == n * w + w
    ensures r > 0 ==> r * w == (r - 1) * w + w && (r - 1) * w >= 0
    ensures r == 0 ==> r * w == 0
  {
  }

  lemma StoredWidths(rows: seq<seq<byte>>, interlaced: bool, w: nat)
    requires forall y :: 0 <= y < |rows| ==> |rows[y]| == w
    ensures forall r :: 0 <= r < |Stored(rows, interlaced)| ==> |Stored(rows, interlaced)[r]| == w
  {
    if interlaced {
      RowsOfWidth(rows, 0, 8, w);
      RowsOfWidth(rows, 4, 8, w);
      RowsOfWidth(rows, 2, 4, w);
      RowsOfWidth(rows, 1, 2, w);
      hide Every;
    }
  }

  /** As many pixels are stored as the picture has, those of each row where the stored order has put it. */
  lemma PixelsStored(p: Picture, r: nat, x: nat)
    requires p.Valid() && r < |p.rows| && x < p.width
    ensures var pixels := Flatten(Stored(p.rows, p.interlaced));
            && |Stored(p.rows, p.interlaced)| == |p.rows| && |Stored(p.rows, p.interlaced)[r]| == p.width
            && |pixels| == |p.rows| * p.width && r * p.width + x < |pixels|
            && pixels[r * p.width + x] == Stored(p.rows, p.interlaced)[r][x]
  {
    hide Stored, Flatten, Encoded;
    RowStoredAt(p.rows, p.interlaced, 0);
    StoredWidths(p.rows, p.interlaced, p.width);
    PixelOfRow(Stored(p.rows, p.interlaced), p.width, r, x);
  }

  // ----- the image -----

  /** The colours all pictures share stand where the header says. */
  ghost predicate Shares(hd: Header, shared: seq<Colour>) {
    hd.colors == |shared| && LzwEncoder.At(hd.data, hd.palette, Table(shared))
  }

  /** A picture no larger than the decoder takes. */
  predicate Takes(hd: Header, p: Picture) {
    && p.width <= hd.maxW && |p.rows| <= hd.maxH && |p.rows| * p.width <= 0x3FFF_FFFF
    && RestIs(p, if p.handling.Some? && p.handling.value.hasClear then p.handling.value.clear else hd.bg)
  }

  /** Pixels that are not in the stream are clear or, where no index is, of the background's. */
  predicate RestIs(p: Picture, index: byte) {
    var pixels := Flatten(Stored(p.rows, p.interlaced));
    forall k :: p.sent <= k < |pixels| ==> pixels[k] == index
  }

  lemma TakesFits(w: nat, h: nat)
    requires 0 < w && 0 < h && h * w <= 0x3FFF_FFFF
    ensures Fits(w, h)
  {
    Quotient(w, INT_MAX, h);
    Quotient(w, SIZE_MAX / 4, h);
  }

  lemma Quotient(a: nat, n: nat, b: nat)
    requires b > 0 && b * a <= n
    ensures a <= n / b
  {
    if n / b < a { Exceeds(a, n, b); }
  }

  lemma Exceeds(a: nat, n: nat, b: nat)
    requires b > 0 && n / b < a
    ensures n < b * a
  {
    var q := n / b;
    GifLaws.MulMonotone(b, q + 1, b, a);
    assert b * (q + 1) == b * q + b;
    assert n == b * q + n % b;
  }

  /** Its descriptor as the decoder reads it. */
  ghost function AsDescribed(hd: Header, pos: nat, p: Picture): Descriptor {
    var at := pos + 9 + (if p.own.Some? then 3 * |p.own.value| else 0) + 1;
    Descriptor(p.left, p.top, p.width, |p.rows|, p.interlaced, if p.own.Some? then |p.own.value| else hd.colors,
               if p.own.Some? then pos + 9 else hd.palette, p.m, at)
  }

  lemma ImageBytesAre(p: Picture, size: seq<byte>)
    requires p.Valid() && size == [p.m]
    ensures ImageBytes(p) == PlaceBytes(p) + (TableBytes(p) + (size + ChainBytes(p)))
  {
    hide Picture.Valid, PlaceBytes, TableBytes, ChainBytes;
  }

  /** Four parts, the third a single byte. */
  lemma FourParts(data: seq<byte>, pos: nat, a: seq<byte>, b: seq<byte>, c: seq<byte>, d: seq<byte>)
    requires LzwEncoder.At(data, pos, a + (b + (c + d))) && |c| == 1
    ensures var at := pos + |a| + |b| + 1;
            && LzwEncoder.At(data, pos, a) && LzwEncoder.At(data, pos + |a|, b)
            && at <= |data| && data[at - 1] == c[0] && LzwEncoder.At(data, at, d)
            && pos + |a + (b + (c + d))| == at + |d|
  {
    hide *;
    AtParts(data, pos, a, b + (c + d));
    AtParts(data, pos + |a|, b, c + d);
    AtParts(data, pos + |a| + |b|, c, d);
    ByteAt(data, pos + |a| + |b|, c, 0);
  }

  /** The parts of an image behind its introducer. */
  lemma ImageParts(data: seq<byte>, pos: nat, p: Picture, at: nat)
    requires p.Valid() && LzwEncoder.At(data, pos, ImageBytes(p)) && at == pos + 9 + |TableBytes(p)| + 1
    ensures LzwEncoder.At(data, pos, PlaceBytes(p)) && LzwEncoder.At(data, pos + 9, TableBytes(p))
    ensures at <= |data| && data[at - 1] == p.m && LzwEncoder.At(data, at, ChainBytes(p))
    ensures pos + |ImageBytes(p)| == at + |ChainBytes(p)|
  {
    var size: seq<byte> := [p.m];
    hide *;
    ImageBytesAre(p, size);
    FourParts(data, pos, PlaceBytes(p), TableBytes(p), size, ChainBytes(p));
  }

  lemma Place(data: seq<byte>, pos: nat, p: Picture)
    requires p.Valid() && LzwEncoder.At(data, pos, PlaceBytes(p))
    ensures pos + 9 <= |data|
    ensures Word(data, pos) == p.left && Word(data, pos + 2) == p.top
    ensures Word(data, pos + 4) == p.width && Word(data, pos + 6) == |p.rows|
    ensures data[pos + 8] == PackedByte(p)
  {
    var packed := [PackedByte(p)];
    var (a, b, c, d) := (Little(p.left), Little(p.top), Little(p.width), Little(|p.rows|));
    hide PackedByte, Little, LzwEncoder.At, Word, Picture.Valid;
    AtParts(data, pos, a, b + (c + (d + packed)));
    AtParts(data, pos + 2, b, c + (d + packed));
    AtParts(data, pos + 4, c, d + packed);
    AtParts(data, pos + 6, d, packed);
    WordAt(data, pos, p.left);
    WordAt(data, pos + 2, p.top);
    WordAt(data, pos + 4, p.width);
    WordAt(data, pos + 6, |p.rows|);
    ByteAt(data, pos + 8, packed, 0);
  }

  lemma WordAt(data: seq<byte>, at: nat, v: nat)
    requires v < 0x1_0000 && LzwEncoder.At(data, at, Little(v))
    ensures at + 2 <= |data| && Word(data, at) == v
  {
    ByteAt(data, at, Little(v), 0);
    ByteAt(data, at, Little(v), 1);
  }

  lemma Packed(p: Picture)
    requires p.Valid()
    ensures var packed := PackedByte(p);
            && (packed >= 0x80 <==> p.own.Some?) && (packed / 0x40 % 2 == 1 <==> p.interlaced)
            && TableColors(packed) == if p.own.Some? then |p.own.value| else 0
  {
    hide Pow2;
    LowBits(if p.own.Some? then 0x80 else 0, if p.interlaced then 0x40 else 0, p.spare);
  }

  lemma LowBits(high: nat, middle: nat, low: nat)
    requires high in {0, 0x80} && middle in {0, 0x40} && low < 64
    ensures (high + middle + low) % 8 == low % 8 && (high + middle + low) / 0x40 % 2 == middle / 0x40
  {
  }

  lemma ReadAs(hd: Header, pos: nat, own: nat, d: Descriptor)
    requires hd.Valid() && pos + 9 <= |hd.data| && d.at == pos + 9 + 3 * own + 1 <= |hd.data|
    requires Word(hd.data, pos) == d.x && Word(hd.data, pos + 2) == d.y
    requires Word(hd.data, pos + 4) == d.w <= hd.maxW && Word(hd.data, pos + 6) == d.h <= hd.maxH && Fits(d.w, d.h)
    requires TableColors(hd.data[pos + 8]) == own && (hd.data[pos + 8] / 0x40 % 2 == 1 <==> d.interlaced)
    requires d.colors == if hd.data[pos + 8] >= 0x80 then own else hd.colors
    requires d.palette == if hd.data[pos + 8] >= 0x80 then pos + 9 else hd.palette
    requires hd.data[d.at - 1] == d.codeSize && CodeSize(d.codeSize)
    ensures Describe(hd, pos) == Some(d)
  {
    hide Word, Fits, TableColors;
  }

  lemma Described(hd: Header, pos: nat, p: Picture)
    requires hd.Valid() && p.Valid() && Takes(hd, p) && LzwEncoder.At(hd.data, pos, ImageBytes(p))
    ensures Describe(hd, pos) == Some(AsDescribed(hd, pos, p))
  {
    ImageParts(hd.data, pos, p, AsDescribed(hd, pos, p).at);
    Place(hd.data, pos, p);
    Packed(p);
    TakesFits(p.width, |p.rows|);
    hide Describe, Header.Valid, ImageBytes, PlaceBytes, PackedByte, LzwEncoder.At, Word, Fits, TableColors, Table, Chain;
    ReadAs(hd, pos, if p.own.Some? then |p.own.value| else 0, AsDescribed(hd, pos, p));
  }

  /** The pixels come back from the stream, and reading ends behind the picture. */
  lemma PixelsRead(data: seq<byte>, at: nat, p: Picture, fill: byte)
    requires p.Valid() && LzwEncoder.At(data, at, ChainBytes(p)) && RestIs(p, fill)
    ensures Lzw.Frame(data, at, p.m, |p.rows| * p.width, fill) == Pixels(Flatten(Stored(p.rows, p.interlaced)))
    ensures ChainEnd(data, at, 0) == at + |ChainBytes(p)|
  {
    hide Lzw.Frame, ChainEnd, LzwEncoder.At, Stored, Flatten, Encodes, EncodedBits, EndBits, EndsInCode, Chain, BitsOf, Notes;
    PixelsStored(p, 0, 0);
    var pixels := Flatten(Stored(p.rows, p.interlaced));
    var sent := pixels[..p.sent];
    if p.sent == |pixels| {
      assert sent == pixels;
      FrameRoundTrip(data, at, p.m, p.tokens, pixels, p.blocks, fill);
    } else {
      FrameCutShort(data, at, p.m, p.tokens, sent, |pixels|, p.blocks, fill);
      assert Lzw.Frame(data, at, p.m, |pixels|, fill).out == pixels;
    }
  }

  function ClearIndex(handling: Option<Handling>): int {
    if handling.Some? && handling.value.hasClear then handling.value.clear else -1
  }

  /** The colour the decoder finds for an index is the one the table holds. */
  lemma ShadeIs(hd: Header, d: Descriptor, colours: seq<Colour>, transparent: int, index: byte, under: rgb)
    requires d.colors == |colours| && LzwEncoder.At(hd.data, d.palette, Table(colours))
    ensures d.palette + 3 * d.colors <= |hd.data|
    ensures Shade(hd, d, transparent, index, under) ==
            if index == transparent || index >= |colours| then under else Mixed(colours[index])
  {
    hide Table, LzwEncoder.At, Mixed, Pack24;
    TableEnds(hd.data, d.palette, colours);
    if index < |colours| { MixedAt(hd.data, d.palette, colours, index); }
  }

  lemma TableEnds(data: seq<byte>, pos: nat, colours: seq<Colour>)
    requires LzwEncoder.At(data, pos, Table(colours))
    ensures pos + 3 * |colours| <= |data|
  {
  }

  lemma MixedAt(data: seq<byte>, pos: nat, colours: seq<Colour>, i: nat)
    requires LzwEncoder.At(data, pos, Table(colours)) && i < |colours|
    ensures pos + 3 * i + 3 <= |data| && Pack24(data, pos + 3 * i) == Mixed(colours[i])
  {
    hide *;
    ColourAt(data, pos, colours, i);
    Mixing(data, pos + 3 * i, colours[i]);
  }

  lemma Mixing(data: seq<byte>, at: nat, c: Colour)
    requires at + 3 <= |data| && data[at] == c.red && data[at + 1] == c.green && data[at + 2] == c.blue
    ensures Pack24(data, at) == Mixed(c)
  {
  }

  lemma LaidIs(p: Picture, shared: seq<Colour>, x: nat, y: nat, under: rgb)
    requires p.Valid() && x < p.width && y < |p.rows|
    ensures var index := p.rows[y][x];
            Laid(p, shared, p.left + x, p.top + y, under) ==
            if index == ClearIndex(p.handling) || index >= |Colours(p, shared)| then under else Mixed(Colours(p, shared)[index])
  {
    hide Mixed;
  }

  lemma PaintedShade(hd: Header, d: Descriptor, transparent: int, pixels: seq<byte>, x: nat, y: nat, under: rgb, index: byte)
    requires x < d.w && y < d.h && |pixels| == d.h * d.w && d.palette + 3 * d.colors <= |hd.data|
    requires 0 <= RowIndex(d, y) * d.w + x < |pixels| && pixels[RowIndex(d, y) * d.w + x] == index
    ensures Painted(hd, d, transparent, pixels, x, y, under) == Shade(hd, d, transparent, index, under)
  {
    hide RowIndex, Shade;
  }

  lemma ColoursAt(hd: Header, pos: nat, p: Picture, shared: seq<Colour>)
    requires p.Valid() && Shares(hd, shared) && LzwEncoder.At(hd.data, pos, ImageBytes(p))
    ensures var d := AsDescribed(hd, pos, p);
            d.colors == |Colours(p, shared)| && LzwEncoder.At(hd.data, d.palette, Table(Colours(p, shared)))
  {
    ImageParts(hd.data, pos, p, AsDescribed(hd, pos, p).at);
    hide LzwEncoder.At, ImageBytes, Picture.Valid, Table;
  }

  lemma RowFound(hd: Header, pos: nat, p: Picture, y: nat)
    requires p.Valid() && y < |p.rows|
    ensures var d := AsDescribed(hd, pos, p);
            && d.w == p.width && d.h == |p.rows| && RowIndex(d, y) < |p.rows| == |Stored(p.rows, p.interlaced)|
            && Stored(p.rows, p.interlaced)[RowIndex(d, y)] == p.rows[y]
  {
    hide Stored, StoredAt, Encoded;
    RowStoredAt(p.rows, p.interlaced, y);
  }

  /** Wherever a picture lies on the screen, the decoder puts its pixels there. */
  lemma PaintedIs(hd: Header, pos: nat, p: Picture, shared: seq<Colour>, x: nat, y: nat, under: rgb)
    requires p.Valid() && Shares(hd, shared) && LzwEncoder.At(hd.data, pos, ImageBytes(p)) && x < p.width && y < |p.rows|
    ensures var d := AsDescribed(hd, pos, p);
            && |Flatten(Stored(p.rows, p.interlaced))| == d.h * d.w && d.palette + 3 * d.colors <= |hd.data|
            && Painted(hd, d, ClearIndex(p.handling), Flatten(Stored(p.rows, p.interlaced)), x, y, under)
               == Laid(p, shared, p.left + x, p.top + y, under)
  {
    hide Flatten, Shade, RowIndex, Stored, AsDescribed, Painted, Laid, ClearIndex, Colours, Shares, LzwEncoder.At, ImageBytes,
         Encoded, Mixed;
    RowFound(hd, pos, p, y);
    ColoursAt(hd, pos, p, shared);
    LaidIs(p, shared, x, y, under);
    var d := AsDescribed(hd, pos, p);
    PixelsStored(p, RowIndex(d, y), x);
    var index := p.rows[y][x];
    ShadeIs(hd, d, Colours(p, shared), ClearIndex(p.handling), index, under);
    PaintedShade(hd, d, ClearIndex(p.handling), Flatten(Stored(p.rows, p.interlaced)), x, y, under, index);
  }

  lemma DrawnIsOver(hd: Header, pos: nat, p: Picture, shared: seq<Colour>, ground: Image)
    requires hd.Valid() && p.Valid() && Shares(hd, shared) && LzwEncoder.At(hd.data, pos, ImageBytes(p)) && ground.Valid()
    ensures var d := AsDescribed(hd, pos, p);
            var pixels := Flatten(Stored(p.rows, p.interlaced));
            var (vw, vh) := (Visible(hd.w, ground.w, d.x, d.w), Visible(hd.h, ground.h, d.y, d.h));
            && |pixels| == d.h * d.w && d.palette + 3 * d.colors <= |hd.data|
            && Drawn(hd, d, ClearIndex(p.handling), pixels, vw, vh, ground) == Over(p, shared, hd.w, hd.h, ground)
  {
    PaintedIs(hd, pos, p, shared, 0, 0, 0);
    var d := AsDescribed(hd, pos, p);
    var pixels := Flatten(Stored(p.rows, p.interlaced));
    var (vw, vh) := (Visible(hd.w, ground.w, d.x, d.w), Visible(hd.h, ground.h, d.y, d.h));
    var over := Over(p, shared, hd.w, hd.h, ground);
    var drawn := Drawn(hd, d, ClearIndex(p.handling), pixels, vw, vh, ground);
    hide *;
    forall y, x | 0 <= y < ground.h && 0 <= x < ground.w ensures drawn.rows[y][x] == over.rows[y][x] {
      PixelDrawn(hd, pos, p, shared, ground, pixels, x, y);
    }
    SamePixels(drawn, over);
  }

  lemma PixelDrawn(hd: Header, pos: nat, p: Picture, shared: seq<Colour>, ground: Image, pixels: seq<byte>, x: nat, y: nat)
    requires hd.Valid() && p.Valid() && Shares(hd, shared) && LzwEncoder.At(hd.data, pos, ImageBytes(p)) && ground.Valid()
    requires x < ground.w && y < ground.h && pixels == Flatten(Stored(p.rows, p.interlaced))
    ensures var d := AsDescribed(hd, pos, p);
            var (vw, vh) := (Visible(hd.w, ground.w, d.x, d.w), Visible(hd.h, ground.h, d.y, d.h));
            && |pixels| == d.h * d.w && d.palette + 3 * d.colors <= |hd.data|
            && Drawn(hd, d, ClearIndex(p.handling), pixels, vw, vh, ground).rows[y][x]
               == Over(p, shared, hd.w, hd.h, ground).rows[y][x]
  {
    hide LzwEncoder.At, ImageBytes, Stored, Flatten, Shares, Painted, Encoded, Header.Valid, ClearIndex;
    PaintedIs(hd, pos, p, shared, 0, 0, 0);
    if Covers(p, x, y) { PaintedIs(hd, pos, p, shared, x - p.left, y - p.top, ground.rows[y][x]); }
  }

  lemma SamePixels(a: Image, b: Image)
    requires a.Valid() && b.Valid() && a.w == b.w && a.h == b.h
    requires forall y, x :: 0 <= y < a.h && 0 <= x < a.w ==> a.rows[y][x] == b.rows[y][x]
    ensures a == b
  {
    forall y | 0 <= y < a.h ensures a.rows[y] == b.rows[y] {
      assert forall x :: 0 <= x < a.w ==> a.rows[y][x] == b.rows[y][x];
    }
  }

  // ----- a call for the next frame -----

  const GRANTED := Grants(true, true)

  function ControlOf(handling: Option<Handling>): Control {
    match handling
    case None => NO_CONTROL
    case Some(h) => Control(ClearIndex(handling), if h.disposal <= 3 then h.disposal else 0, 10 * h.delay)
  }

  /** At `pos` the decoder reads this descriptor, and these pixels behind it. */
  ghost predicate IsRead(hd: Header, pos: nat, d: Descriptor, pixels: seq<byte>, fill: byte)
    requires hd.Valid()
  {
    Describe(hd, pos) == Some(d) && Lzw.Frame(hd.data, d.at, d.codeSize, d.h * d.w, fill) == Pixels(pixels)
  }

  /** A described image is decoded and drawn when there is memory for it. */
  lemma Decoded(hd: Header, st: State, img: Image, clearFirst: bool, d: Descriptor, pixels: seq<byte>)
    requires hd.Valid() && st.Valid() && img.Valid() && IsRead(hd, st.pos, d, pixels, FillIndex(hd, st.control))
    ensures var (vw, vh) := (Visible(hd.w, img.w, d.x, d.w), Visible(hd.h, img.h, d.y, d.h));
            var r := DecodeImage(hd, st, img, clearFirst, GRANTED);
            && r.Frame_? && |pixels| == d.h * d.w && d.palette + 3 * d.colors <= |hd.data|
            && r.img == Drawn(hd, d, st.control.transparent, pixels, vw, vh, Disposed(st, Cleared(hd, img, clearFirst)))
            && r.st.prev == Shown(st.control.disposal, d.x, d.y, vw, vh) && r.st.control == NO_CONTROL
            && r.st.pos == ChainEnd(hd.data, d.at, 0) && r.delay == st.control.delay
  {
    hide Describe, Drawn, Disposed, Cleared, Snapshot, Lzw.Frame, ChainEnd, CanResize, ResizedCap, Fits;
    GifLaws.ComposedIfGranted(hd, st, img, clearFirst);
  }

  /** A picture is on the screen, over its ground, with nothing but its disposal left to do, and reading goes on at `end`. */
  ghost predicate Displays(r: Outcome, hd: Header, p: Picture, shared: seq<Colour>, ground: Image, end: nat)
    requires p.Valid() && ground.Valid()
  {
    && r.Frame_? && r.img == Over(p, shared, hd.w, hd.h, ground)
    && r.st.Valid() && r.st.pos == end && r.st.control == NO_CONTROL && r.delay == ControlOf(p.handling).delay
    && Disposed(r.st, r.img) == Behind(p, hd.w, hd.h, ground, r.img)
  }

  lemma ImageRead(hd: Header, pos: nat, p: Picture, fill: byte)
    requires hd.Valid() && p.Valid() && Takes(hd, p) && RestIs(p, fill) && LzwEncoder.At(hd.data, pos, ImageBytes(p))
    ensures IsRead(hd, pos, AsDescribed(hd, pos, p), Flatten(Stored(p.rows, p.interlaced)), fill)
    ensures ChainEnd(hd.data, AsDescribed(hd, pos, p).at, 0) == pos + |ImageBytes(p)|
  {
    hide Flatten, Stored, Describe, Lzw.Frame, ChainEnd, ImageBytes, ChainBytes, PlaceBytes, LzwEncoder.At, Header.Valid, Takes,
         Encoded;
    Described(hd, pos, p);
    ImageParts(hd.data, pos, p, AsDescribed(hd, pos, p).at);
    PixelsRead(hd.data, AsDescribed(hd, pos, p).at, p, fill);
  }

  lemma FilledWithRest(hd: Header, p: Picture, control: Control)
    requires Takes(hd, p) && control == ControlOf(p.handling)
    ensures -1 <= control.transparent < 256 && RestIs(p, FillIndex(hd, control))
  {
    hide RestIs;
  }

  lemma ImageShown(hd: Header, st: State, img: Image, clearFirst: bool, p: Picture, shared: seq<Colour>)
    requires hd.Valid() && st.Valid() && img.Valid() && p.Valid() && Takes(hd, p) && Shares(hd, shared)
    requires LzwEncoder.At(hd.data, st.pos, ImageBytes(p)) && st.control == ControlOf(p.handling)
    ensures Displays(DecodeImage(hd, st, img, clearFirst, GRANTED), hd, p, shared, Disposed(st, Cleared(hd, img, clearFirst)),
                     st.pos + |ImageBytes(p)|)
  {
    var ground := Disposed(st, Cleared(hd, img, clearFirst));
    var d := AsDescribed(hd, st.pos, p);
    FilledWithRest(hd, p, st.control);
    ImageRead(hd, st.pos, p, FillIndex(hd, st.control));
    hide Over, Behind, Drawn, Disposed, Cleared, Flatten, Stored, Describe, DecodeImage, Lzw.Frame, ChainEnd, Shares, ImageBytes,
         LzwEncoder.At, Picture.Valid, Header.Valid, Visible, Takes, IsRead;
    Decoded(hd, st, img, clearFirst, d, Flatten(Stored(p.rows, p.interlaced)));
    DrawnIsOver(hd, st.pos, p, shared, ground);
    var r := DecodeImage(hd, st, img, clearFirst, GRANTED);
    if st.control.disposal == 3 { GifLaws.RestoreIsExactUndo(hd, st, img, clearFirst, GRANTED); }
    Leaves(hd, p, d, st.control.disposal, r.st, r.img, ground);
  }

  /** Disposing of a picture leaves what the format says. */
  lemma Leaves(hd: Header, p: Picture, d: Descriptor, disposal: nat, st: State, shown: Image, ground: Image)
    requires shown.Valid() && ground.Valid() && shown.w == ground.w && shown.h == ground.h
    requires d.x == p.left && d.y == p.top && d.w == p.width && d.h == |p.rows| && disposal == ControlOf(p.handling).disposal
    requires st.prev == Shown(disposal, d.x, d.y, Visible(hd.w, shown.w, d.x, d.w), Visible(hd.h, shown.h, d.y, d.h))
    requires disposal == 3 ==> Disposed(st, shown) == ground
    ensures Disposed(st, shown) == Behind(p, hd.w, hd.h, ground, shown)
  {
    if disposal == 2 { SamePixels(Disposed(st, shown), Behind(p, hd.w, hd.h, ground, shown)); }
  }

  // ----- the extensions in front -----

  lemma NoteParts(data: seq<byte>, pos: nat, notes: seq<Note>)
    requires notes != [] && Notes(notes)
    requires LzwEncoder.At(data, pos, NoteBytes(notes))
    ensures pos + 2 <= |data| && data[pos] == 0x21 && data[pos + 1] == notes[0].kind != 0xF9 && Notes(notes[1..])
    ensures var e := pos + 2 + |Chain(notes[0].blocks)|;
            && Skip(data, pos + 2) == Some(e) && LzwEncoder.At(data, e, NoteBytes(notes[1..]))
            && pos + |NoteBytes(notes)| == e + |NoteBytes(notes[1..])|
  {
    var head: seq<byte>, chain, rest := [0x21, notes[0].kind], Chain(notes[0].blocks), NoteBytes(notes[1..]);
    assert NoteBytes(notes) == head + chain + rest;
    hide NoteBytes, Chain;
    AtParts(data, pos, head + chain, rest);
    AtParts(data, pos, head, chain);
    ByteAt(data, pos, head, 0);
    ByteAt(data, pos, head, 1);
    SkipChain(data, pos + 2, notes[0].blocks);
  }

  lemma NoteSkipped(hd: Header, st: State, img: Image, clearFirst: bool, e: nat)
    requires hd.Valid() && st.Valid() && img.Valid() && st.pos + 2 <= |hd.data| && hd.data[st.pos] == 0x21
    requires hd.data[st.pos + 1] != 0xF9 && Skip(hd.data, st.pos + 2) == Some(e)
    ensures NextFrame(hd, st, img, clearFirst, GRANTED) == NextFrame(hd, st.(pos := e), img, clearFirst, GRANTED)
    ensures Count(hd, st.pos) == Count(hd, e)
  {
    hide ImageBlock, ParseControl, Describe, Skip;
    assert Extended(hd, st.(pos := st.pos + 1)) == Some(st.(pos := e));
    hide Extended;
  }

  /** Other extensions are stepped over. */
  lemma {:induction false} NotesSkipped(hd: Header, st: State, img: Image, clearFirst: bool, notes: seq<Note>)
    requires hd.Valid() && st.Valid() && img.Valid()
    requires Notes(notes)
    requires LzwEncoder.At(hd.data, st.pos, NoteBytes(notes))
    ensures NextFrame(hd, st, img, clearFirst, GRANTED) ==
            NextFrame(hd, st.(pos := st.pos + |NoteBytes(notes)|), img, clearFirst, GRANTED)
    ensures Count(hd, st.pos) == Count(hd, st.pos + |NoteBytes(notes)|)
    decreases |notes|
  {
    hide NextFrame, Count, Skip, LzwEncoder.At, Chain;
    if notes != [] {
      NoteParts(hd.data, st.pos, notes);
      var e := st.pos + 2 + |Chain(notes[0].blocks)|;
      NoteSkipped(hd, st, img, clearFirst, e);
      NotesSkipped(hd, st.(pos := e), img, clearFirst, notes[1..]);
    }
  }

  lemma HandlingRead(data: seq<byte>, pos: nat, h: Handling)
    requires h.disposal < 8 && h.delay < 0x1_0000 && h.reserved < 8
    requires LzwEncoder.At(data, pos, HandlingBytes(h))
    ensures pos + 8 <= |data| && data[pos] == 0x21 && data[pos + 1] == 0xF9
    ensures ParseControl(data, pos + 2) == Some((ControlOf(Some(h)), pos + 8))
  {
    var s := HandlingBytes(h);
    forall k | 0 <= k < |s| ensures pos + k < |data| && data[pos + k] == s[k] {
      ByteAt(data, pos, s, k);
    }
    assert |s| == 8 && s[0] == 0x21 && s[1] == 0xF9 && s[2] == 4 && s[4] == h.delay % 256 && s[5] == h.delay / 256
           && s[6] == h.clear && s[7] == 0;
    ControlRead(data, pos + 2, h, s[3]);
  }

  lemma ControlRead(data: seq<byte>, pos: nat, h: Handling, packed: byte)
    requires h.disposal < 8 && h.delay < 0x1_0000 && h.reserved < 8
    requires packed == 32 * h.reserved + 4 * h.disposal + (if h.waits then 2 else 0) + (if h.hasClear then 1 else 0)
    requires pos + 6 <= |data| && data[pos] == 4 && data[pos + 1] == packed && data[pos + 2] == h.delay % 256
    requires data[pos + 3] == h.delay / 256 && data[pos + 4] == h.clear && data[pos + 5] == 0
    ensures ParseControl(data, pos) == Some((ControlOf(Some(h)), pos + 6))
  {
    PackedFields(h.reserved, h.disposal, if h.waits then 1 else 0, if h.hasClear then 1 else 0);
    assert Skip(data, pos + 5) == Some(pos + 6);
    hide Word, Skip;
    DelayRead(data, pos + 2, h.delay);
  }

  lemma PackedFields(reserved: nat, disposal: nat, waits: nat, clear: nat)
    requires disposal < 8 && waits < 2 && clear < 2
    ensures var packed := 32 * reserved + 4 * disposal + 2 * waits + clear;
            packed / 4 % 8 == disposal && packed % 2 == clear
  {
    DivMod(32 * reserved + 4 * disposal + 2 * waits + clear, 4, 8 * reserved + disposal, 2 * waits + clear);
    DivMod(8 * reserved + disposal, 8, reserved, disposal);
    DivMod(32 * reserved + 4 * disposal + 2 * waits + clear, 2, 16 * reserved + 2 * disposal + waits, clear);
  }

  lemma DelayRead(data: seq<byte>, at: nat, v: nat)
    requires at + 2 <= |data| && v < 0x1_0000 && data[at] == v % 256 && data[at + 1] == v / 256
    ensures Word(data, at) == v
  {
  }

  /** A control is taken for the image behind it. */
  lemma HandlingTaken(hd: Header, st: State, img: Image, clearFirst: bool, h: Handling)
    requires hd.Valid() && st.Valid() && img.Valid() && h.disposal < 8 && h.delay < 0x1_0000 && h.reserved < 8
    requires LzwEncoder.At(hd.data, st.pos, HandlingBytes(h))
    ensures NextFrame(hd, st, img, clearFirst, GRANTED) ==
            NextFrame(hd, st.(pos := st.pos + 8, control := ControlOf(Some(h))), img, clearFirst, GRANTED)
    ensures Count(hd, st.pos) == Count(hd, st.pos + 8)
  {
    HandlingRead(hd.data, st.pos, h);
    hide ImageBlock, ParseControl, Describe, Skip, LzwEncoder.At, HandlingBytes, ControlOf;
    assert Extended(hd, st.(pos := st.pos + 1)) == Some(st.(pos := st.pos + 8, control := ControlOf(Some(h))));
    hide Extended;
  }

  lemma BytesAre(p: Picture, intro: seq<byte>)
    requires p.Valid() && intro == [0x2C]
    ensures Bytes(p) == NoteBytes(p.notes) + (ControlBytes(p) + (intro + ImageBytes(p)))
  {
    hide NoteBytes, ControlBytes, ImageBytes, Picture.Valid;
  }

  lemma PictureParts(data: seq<byte>, pos: nat, p: Picture, at: nat)
    requires p.Valid() && LzwEncoder.At(data, pos, Bytes(p)) && at == pos + |NoteBytes(p.notes)| + |ControlBytes(p)|
    ensures LzwEncoder.At(data, pos, NoteBytes(p.notes)) && LzwEncoder.At(data, pos + |NoteBytes(p.notes)|, ControlBytes(p))
    ensures at < |data| && data[at] == 0x2C && LzwEncoder.At(data, at + 1, ImageBytes(p))
    ensures at + 1 + |ImageBytes(p)| == pos + |Bytes(p)|
  {
    var intro: seq<byte> := [0x2C];
    hide Bytes, ImageBytes, NoteBytes, ControlBytes, LzwEncoder.At, Encoded, Notes;
    BytesAre(p, intro);
    FourParts(data, pos, NoteBytes(p.notes), ControlBytes(p), intro, ImageBytes(p));
  }

  /** What stands in front of the image has been read. */
  lemma ToImage(hd: Header, st: State, img: Image, clearFirst: bool, p: Picture) returns (at: nat)
    requires hd.Valid() && st.Valid() && img.Valid() && p.Valid() && st.control == NO_CONTROL
    requires LzwEncoder.At(hd.data, st.pos, Bytes(p))
    ensures at < |hd.data| && hd.data[at] == 0x2C && LzwEncoder.At(hd.data, at + 1, ImageBytes(p))
    ensures at + 1 + |ImageBytes(p)| == st.pos + |Bytes(p)|
    ensures ControlOf(p.handling).disposal <= 3 && -1 <= ControlOf(p.handling).transparent < 256
    ensures NextFrame(hd, st, img, clearFirst, GRANTED) ==
            NextFrame(hd, st.(pos := at, control := ControlOf(p.handling)), img, clearFirst, GRANTED)
    ensures Count(hd, st.pos) == Count(hd, at)
  {
    hide NextFrame, Count, ImageBytes, NoteBytes, LzwEncoder.At, Bytes;
    at := st.pos + |NoteBytes(p.notes)| + |ControlBytes(p)|;
    PictureParts(hd.data, st.pos, p, at);
    NotesSkipped(hd, st, img, clearFirst, p.notes);
    var noted := st.(pos := st.pos + |NoteBytes(p.notes)|);
    if p.handling.Some? {
      HandlingTaken(hd, noted, img, clearFirst, p.handling.value);
    } else {
      assert noted.(control := NO_CONTROL) == noted;
    }
  }

  lemma NextPicture(hd: Header, st: State, img: Image, clearFirst: bool, p: Picture, shared: seq<Colour>)
    requires hd.Valid() && st.Valid() && img.Valid() && p.Valid() && Takes(hd, p) && Shares(hd, shared)
    requires LzwEncoder.At(hd.data, st.pos, Bytes(p)) && st.control == NO_CONTROL
    ensures Displays(NextFrame(hd, st, img, clearFirst, GRANTED), hd, p, shared, Disposed(st, Cleared(hd, img, clearFirst)),
                     st.pos + |Bytes(p)|)
  {
    hide Over, Behind, Disposed, Bytes, ImageBytes, LzwEncoder.At, Count, Shares, Takes, Picture.Valid, ControlOf, DecodeImage;
    var at := ToImage(hd, st, img, clearFirst, p);
    var on := st.(pos := at + 1, control := ControlOf(p.handling));
    assert st.(pos := at, control := ControlOf(p.handling)).(pos := at + 1) == on;
    ImageShown(hd, on, img, clearFirst, p, shared);
    SameGround(hd, st, on, img, clearFirst);
  }

  lemma SameGround(hd: Header, st: State, on: State, img: Image, clearFirst: bool)
    requires img.Valid() && on.(pos := st.pos, control := st.control) == st
    ensures Disposed(st, Cleared(hd, img, clearFirst)) == Disposed(on, Cleared(hd, img, clearFirst))
  {
    hide Cleared;
  }

  /** The ground a picture is drawn on, pixel by pixel: the screen, blanked if asked for, with the frame before taken off. */
  ghost predicate IsGround(hd: Header, st: State, img: Image, clearFirst: bool, ground: Image)
    requires img.Valid()
  {
    && ground.Valid() && ground.w == img.w && ground.h == img.h
    && forall y, x {:trigger ground.rows[y][x]} :: 0 <= y < img.h && 0 <= x < img.w ==>
         ground.rows[y][x] ==
         if st.prev.disposal == 2 && st.prev.x <= x < st.prev.x + st.prev.w && st.prev.y <= y < st.prev.y + st.prev.h then 0
         else if st.prev.disposal == 3 && |st.saved| == st.prev.h * st.prev.w
                 && st.prev.x <= x < st.prev.x + st.prev.w && st.prev.y <= y < st.prev.y + st.prev.h then
           FlatIndex(x - st.prev.x, y - st.prev.y, st.prev.w, st.prev.h);
           st.saved[(y - st.prev.y) * st.prev.w + (x - st.prev.x)]
         else if clearFirst && x < hd.w && y < hd.h then 0
         else img.rows[y][x]
  }

  lemma GroundIs(hd: Header, st: State, img: Image, clearFirst: bool, ground: Image)
    requires img.Valid() && IsGround(hd, st, img, clearFirst, ground)
    ensures Disposed(st, Cleared(hd, img, clearFirst)) == ground
  {
    SamePixels(Disposed(st, Cleared(hd, img, clearFirst)), ground);
  }

  lemma OverIs(p: Picture, shared: seq<Colour>, w: nat, h: nat, ground: Image)
    requires p.Valid() && ground.Valid()
    ensures var over := Over(p, shared, w, h, ground);
            forall y, x {:trigger over.rows[y][x]} :: 0 <= y < ground.h && 0 <= x < ground.w ==>
              over.rows[y][x] ==
              if x < w && y < h && p.left <= x < p.left + p.width && p.top <= y < p.top + |p.rows| then
                var index := p.rows[y - p.top][x - p.left];
                var colours := if p.own.Some? then p.own.value else shared;
                if (p.handling.Some? && p.handling.value.hasClear && p.handling.value.clear == index) || index >= |colours| then
                  ground.rows[y][x]
                else 0x1_0000 * (colours[index].red as int) + 0x100 * (colours[index].green as int) + (colours[index].blue as int)
              else ground.rows[y][x]
  {
    hide Encoded, Notes;
  }

  /**
   A picture laid out in bytes, with anything in front of it and behind it, is shown by the next call:
   every pixel it covers has its colour, red highest, except where it is clear or has none; all else is ground.
   */
  lemma PictureShown(hd: Header, st: State, img: Image, clearFirst: bool, p: Picture, shared: seq<Colour>, ground: Image)
    requires hd.Valid() && st.Valid() && img.Valid() && p.Valid() && Takes(hd, p) && Shares(hd, shared)
    requires LzwEncoder.At(hd.data, st.pos, Bytes(p)) && st.control == NO_CONTROL
    requires IsGround(hd, st, img, clearFirst, ground)
    ensures var r := NextFrame(hd, st, img, clearFirst, Grants(true, true));
            && r.Frame_? && r.st.pos == st.pos + |Bytes(p)| && r.st.control == NO_CONTROL
            && r.delay == (if p.handling.Some? then 10 * p.handling.value.delay else 0)
            && forall y, x {:trigger r.img.rows[y][x]} :: 0 <= y < img.h && 0 <= x < img.w ==>
                 r.img.rows[y][x] ==
                 if x < hd.w && y < hd.h && p.left <= x < p.left + p.width && p.top <= y < p.top + |p.rows| then
                   var index := p.rows[y - p.top][x - p.left];
                   var colours := if p.own.Some? then p.own.value else shared;
                   if (p.handling.Some? && p.handling.value.hasClear && p.handling.value.clear == index) || index >= |colours| then
                     ground.rows[y][x]
                   else 0x1_0000 * (colours[index].red as int) + 0x100 * (colours[index].green as int) + (colours[index].blue as int)
                 else ground.rows[y][x]
  {
    assert GRANTED == Grants(true, true);
    hide *;
    GroundIs(hd, st, img, clearFirst, ground);
    NextPicture(hd, st, img, clearFirst, p, shared);
    OverIs(p, shared, hd.w, hd.h, ground);
    Displayed(NextFrame(hd, st, img, clearFirst, GRANTED), hd, p, shared, ground, st.pos + |Bytes(p)|);
  }

  lemma Displayed(r: Outcome, hd: Header, p: Picture, shared: seq<Colour>, ground: Image, end: nat)
    requires p.Valid() && ground.Valid() && Displays(r, hd, p, shared, ground, end)
    ensures r.Frame_? && r.img == Over(p, shared, hd.w, hd.h, ground) && r.st.pos == end && r.st.control == NO_CONTROL
    ensures r.delay == if p.handling.Some? then 10 * p.handling.value.delay else 0
  {
    hide Over, Behind, Disposed, Encoded, Notes;
  }

  // ----- any number of pictures -----

  /** What one canvas shows after each picture. */
  function Reel(pictures: seq<Picture>, shared: seq<Colour>, w: nat, h: nat, ground: Image): (images: seq<Image>)
    requires ground.Valid() && forall p :: p in pictures ==> forall y :: 0 <= y < |p.rows| ==> |p.rows[y]| == p.width
    ensures |images| == |pictures|
  {
    if pictures == [] then []
    else
      var shown := Over(pictures[0], shared, w, h, ground);
      [shown] + Reel(pictures[1..], shared, w, h, Behind(pictures[0], w, h, ground, shown))
  }

  /** The outcomes of calls in a row, up to the first that shows nothing. */
  ghost function Run(hd: Header, st: State, img: Image, clearFirst: bool, calls: nat): seq<Outcome>
    requires hd.Valid() && st.Valid() && img.Valid()
    decreases calls
  {
    if calls == 0 then []
    else
      var r := NextFrame(hd, st, img, clearFirst, GRANTED);
      [r] + if r.Frame_? then Run(hd, r.st, r.img, false, calls - 1) else []
  }

  ghost function ReelBytes(pictures: seq<Picture>): seq<byte>
    requires forall p :: p in pictures ==> p.Valid()
  {
    if pictures == [] then [] else Bytes(pictures[0]) + ReelBytes(pictures[1..])
  }

  /** Picture by picture the run shows the reel, for as long as each says, and then it ends. */
  ghost predicate Plays(run: seq<Outcome>, reel: seq<Image>, pictures: seq<Picture>) {
    && |reel| == |pictures| && |run| == |pictures| + 1 && run[|pictures|].End?
    && forall i :: 0 <= i < |pictures| ==>
         && run[i].Frame_? && run[i].img == reel[i]
         && run[i].delay == if pictures[i].handling.Some? then 10 * pictures[i].handling.value.delay else 0
  }

  lemma PlaysOn(r: Outcome, run: seq<Outcome>, shown: Image, reel: seq<Image>, pictures: seq<Picture>)
    requires pictures != [] && Plays(run, reel, pictures[1..]) && r.Frame_? && r.img == shown
    requires r.delay == ControlOf(pictures[0].handling).delay
    ensures Plays([r] + run, [shown] + reel, pictures)
  {
  }

  lemma NotCleared(hd: Header, img: Image)
    requires img.Valid()
    ensures Cleared(hd, img, false) == img
  {
  }

  lemma Trailer(hd: Header, st: State, img: Image, clearFirst: bool)
    requires hd.Valid() && st.Valid() && img.Valid() && LzwEncoder.At(hd.data, st.pos, [0x3B])
    ensures NextFrame(hd, st, img, clearFirst, GRANTED).End? && Count(hd, st.pos) == 0
  {
    ByteAt(hd.data, st.pos, [0x3B], 0);
  }

  lemma NoPictures(pictures: seq<Picture>, trailer: seq<byte>)
    requires pictures == []
    ensures ReelBytes(pictures) + trailer == trailer
  {
  }

  lemma FirstPicture(data: seq<byte>, pos: nat, pictures: seq<Picture>, trailer: seq<byte>)
    requires pictures != [] && trailer == [0x3B] && forall p :: p in pictures ==> p.Valid()
    requires LzwEncoder.At(data, pos, ReelBytes(pictures) + trailer)
    ensures LzwEncoder.At(data, pos, Bytes(pictures[0]))
    ensures LzwEncoder.At(data, pos + |Bytes(pictures[0])|, ReelBytes(pictures[1..]) + trailer)
  {
    hide ReelBytes, Bytes, Picture.Valid, LzwEncoder.At;
    ReelBytesAre(pictures, trailer);
    AtParts(data, pos, Bytes(pictures[0]), ReelBytes(pictures[1..]) + trailer);
  }

  lemma ReelBytesAre(pictures: seq<Picture>, trailer: seq<byte>)
    requires pictures != [] && forall p :: p in pictures ==> p.Valid()
    ensures ReelBytes(pictures) + trailer == Bytes(pictures[0]) + (ReelBytes(pictures[1..]) + trailer)
  {
    hide Bytes, Picture.Valid;
    Grouped(Bytes(pictures[0]), ReelBytes(pictures[1..]), trailer);
  }

  /** Any number of pictures laid out one behind the other, with anything behind their trailer. */
  lemma {:induction false} Animation(hd: Header, st: State, img: Image, clearFirst: bool, pictures: seq<Picture>,
                                     shared: seq<Colour>, ground: Image)
    requires hd.Valid() && st.Valid() && img.Valid() && Shares(hd, shared) && st.control == NO_CONTROL
    requires forall p :: p in pictures ==> p.Valid() && Takes(hd, p)
    requires LzwEncoder.At(hd.data, st.pos, ReelBytes(pictures) + [0x3B])
    requires ground.Valid() && ground == Disposed(st, Cleared(hd, img, clearFirst))
    ensures Plays(Run(hd, st, img, clearFirst, |pictures| + 1), Reel(pictures, shared, hd.w, hd.h, ground), pictures)
    decreases |pictures|
  {
    hide Over, Behind, Disposed, Bytes, ReelBytes, Shares, Takes, Header.Valid, Cleared, NextFrame, LzwEncoder.At, ControlOf,
         Encoded, Notes;
    if pictures == [] {
      NoPictures(pictures, [0x3B]);
      Trailer(hd, st, img, clearFirst);
    } else {
      var p, rest := pictures[0], pictures[1..];
      FirstPicture(hd.data, st.pos, pictures, [0x3B]);
      NextPicture(hd, st, img, clearFirst, p, shared);
      var r := NextFrame(hd, st, img, clearFirst, GRANTED);
      var left := Behind(p, hd.w, hd.h, ground, r.img);
      NotCleared(hd, r.img);
      Animation(hd, r.st, r.img, false, rest, shared, left);
      hide Plays;
      PlaysOn(r, Run(hd, r.st, r.img, false, |rest| + 1), r.img, Reel(rest, shared, hd.w, hd.h, left), pictures);
    }
  }

  /** And the count made before decoding is theirs. */
  lemma {:induction false} PicturesCounted(hd: Header, pos: nat, pictures: seq<Picture>)
    requires hd.Valid() && forall p :: p in pictures ==> p.Valid() && Takes(hd, p)
    requires LzwEncoder.At(hd.data, pos, ReelBytes(pictures) + [0x3B])
    ensures Count(hd, pos) == |pictures|
    decreases |pictures|
  {
    var st, img := State(pos, NO_CONTROL, NOTHING_SHOWN, [], 0), Image(0, 0, []);
    hide Bytes, ReelBytes, Takes, Header.Valid, LzwEncoder.At, Encoded, Notes, NextFrame, Describe, ImageBytes;
    if pictures == [] {
      NoPictures(pictures, [0x3B]);
      Trailer(hd, st, img, false);
    } else {
      var p := pictures[0];
      FirstPicture(hd.data, pos, pictures, [0x3B]);
      var at := ToImage(hd, st, img, false, p);
      ImageCounted(hd, at, p);
      PicturesCounted(hd, pos + |Bytes(p)|, pictures[1..]);
    }
  }

  lemma ImageCounted(hd: Header, at: nat, p: Picture)
    requires hd.Valid() && p.Valid() && Takes(hd, p) && at < |hd.data| && hd.data[at] == 0x2C
    requires LzwEncoder.At(hd.data, at + 1, ImageBytes(p))
    ensures Count(hd, at) == 1 + Count(hd, at + 1 + |ImageBytes(p)|)
  {
    hide *;
    var d := AsDescribed(hd, at + 1, p);
    TableInFront(hd, at + 1, p);
    Described(hd, at + 1, p);
    ImageParts(hd.data, at + 1, p, d.at);
    ChainSkipped(hd.data, d.at, p);
    CountsOne(hd, at, d, d.at + |ChainBytes(p)|);
  }

  lemma TableInFront(hd: Header, pos: nat, p: Picture)
    ensures AsDescribed(hd, pos, p).at == pos + 9 + |TableBytes(p)| + 1
  {
  }

  lemma ChainSkipped(data: seq<byte>, at: nat, p: Picture)
    requires p.Valid() && LzwEncoder.At(data, at, ChainBytes(p))
    ensures Skip(data, at) == Some(at + |ChainBytes(p)|)
  {
    hide Skip, LzwEncoder.At, Chain, Encoded, Notes;
    SkipChain(data, at, p.blocks);
  }

  lemma CountsOne(hd: Header, at: nat, d: Descriptor, e: nat)
    requires hd.Valid() && at < |hd.data| && hd.data[at] == 0x2C && Describe(hd, at + 1) == Some(d) && Skip(hd.data, d.at) == Some(e)
    ensures Count(hd, at) == 1 + Count(hd, e)
  {
    hide Describe, Skip;
  }

  // ----- whole files -----

  /** The logical screen and the colours all pictures share; `spare` is the packed field without its flag for them. */
  datatype Screen = Screen(newer: bool, width: nat, height: nat, shared: Option<seq<Colour>>, spare: nat, bg: byte, aspect: byte) {
    ghost predicate Valid() {
      && 0 < width < 0x1_0000 && 0 < height < 0x1_0000
      && spare < 128 && (shared.Some? ==> |shared.value| == Pow2(spare % 8 + 1))
    }

    function Colours(): seq<Colour> { if shared.Some? then shared.value else [] }
  }

  /** "GIF87a" or "GIF89a". */
  function SignatureBytes(s: Screen): (bytes: seq<byte>)
    ensures |bytes| == 6
  {
    if s.newer then [0x47, 0x49, 0x46, 0x38, 0x39, 0x61] else [0x47, 0x49, 0x46, 0x38, 0x37, 0x61]
  }

  ghost function FlagBytes(s: Screen): (bytes: seq<byte>)
    requires s.Valid()
    ensures |bytes| == 3
  {
    [(if s.shared.Some? then 0x80 else 0) + s.spare, s.bg, s.aspect]
  }

  ghost function ScreenBytes(s: Screen): seq<byte>
    requires s.Valid()
  {
    SignatureBytes(s) + (Little(s.width) + (Little(s.height) + (FlagBytes(s) + Table(s.Colours()))))
  }

  lemma ScreenParts(data: seq<byte>, s: Screen)
    requires s.Valid() && LzwEncoder.At(data, 0, ScreenBytes(s))
    ensures 13 + 3 * |s.Colours()| == |ScreenBytes(s)| <= |data| && data[..6] == SignatureBytes(s)
    ensures Word(data, 6) == s.width && Word(data, 8) == s.height
    ensures data[10] == FlagBytes(s)[0] && data[11] == s.bg && LzwEncoder.At(data, 13, Table(s.Colours()))
  {
    var (a, b, c, d, e) := (SignatureBytes(s), Little(s.width), Little(s.height), FlagBytes(s), Table(s.Colours()));
    assert ScreenBytes(s) == a + (b + (c + (d + e))) && d[1] == s.bg;
    AtIs(data, 0, ScreenBytes(s));
    hide ScreenBytes, SignatureBytes, Little, FlagBytes, Table, LzwEncoder.At, Word;
    AtParts(data, 0, a, b + (c + (d + e)));
    AtParts(data, 6, b, c + (d + e));
    AtParts(data, 8, c, d + e);
    AtParts(data, 10, d, e);
    AtIs(data, 0, a);
    WordAt(data, 6, s.width);
    WordAt(data, 8, s.height);
    ByteAt(data, 10, d, 0);
    ByteAt(data, 10, d, 1);
  }

  /** The decoder takes a screen of any size, as far as its limits go. */
  lemma ScreenRead(data: seq<byte>, s: Screen, maxWidth: nat, maxHeight: nat)
    requires s.Valid() && LzwEncoder.At(data, 0, ScreenBytes(s)) && 0 < maxWidth && 0 < maxHeight
    requires Min(s.height, maxHeight) * Min(s.width, maxWidth) <= 0x3FFF_FFFF
    ensures var r := ParseHeader(data, maxWidth, maxHeight);
            && r.Some? && Shares(r.value, s.Colours()) && r.value.first == |ScreenBytes(s)| && r.value.bg == s.bg
            && r.value.w == Min(s.width, maxWidth) && r.value.h == Min(s.height, maxHeight)
            && r.value.maxW == Min(maxWidth, 0xFFFF) && r.value.maxH == Min(maxHeight, 0xFFFF)
  {
    ScreenParts(data, s);
    SharedCount(s);
    TakesFits(Min(s.width, maxWidth), Min(s.height, maxHeight));
    assert Signed(data);
    hide Signed, Word, Fits, TableColors, ScreenBytes, FlagBytes, SignatureBytes, LzwEncoder.At, Table, Screen.Colours;
  }

  lemma SharedCount(s: Screen)
    requires s.Valid()
    ensures TableColors(FlagBytes(s)[0]) == |s.Colours()|
  {
    hide Pow2;
    Flagged(if s.shared.Some? then 0x80 else 0, s.spare);
  }

  lemma Flagged(high: nat, low: nat)
    requires high in {0, 0x80}
    ensures (high + low) % 8 == low % 8
  {
  }

  /** A screen as it is before the first picture. */
  ghost predicate IsStart(img: Image, w: nat, h: nat, clearFirst: bool, ground: Image)
    requires img.Valid()
  {
    && ground.Valid() && ground.w == img.w && ground.h == img.h
    && forall y, x {:trigger ground.rows[y][x]} :: 0 <= y < img.h && 0 <= x < img.w ==>
         ground.rows[y][x] == if clearFirst && x < w && y < h then 0 else img.rows[y][x]
  }

  /**
   A whole file: a screen, pictures and the trailer, with anything behind it. Opened and run on any canvas, the decoder
   shows the pictures one after the other as the format says and counts exactly as many beforehand.
   */
  lemma FileShown(data: seq<byte>, s: Screen, pictures: seq<Picture>, maxWidth: nat, maxHeight: nat, cap: nat, img: Image,
                  clearFirst: bool, ground: Image)
    requires s.Valid() && 0 < maxWidth && 0 < maxHeight && Min(s.height, maxHeight) * Min(s.width, maxWidth) <= 0x3FFF_FFFF
    requires forall p :: p in pictures ==>
               && p.Valid() && p.width <= maxWidth && |p.rows| <= maxHeight && |p.rows| * p.width <= 0x3FFF_FFFF
               && RestIs(p, if p.handling.Some? && p.handling.value.hasClear then p.handling.value.clear else s.bg)
    requires LzwEncoder.At(data, 0, ScreenBytes(s) + (ReelBytes(pictures) + [0x3B]))
    requires img.Valid() && IsStart(img, Min(s.width, maxWidth), Min(s.height, maxHeight), clearFirst, ground)
    ensures var r := ParseHeader(data, maxWidth, maxHeight);
            && r.Some? && Count(r.value, r.value.first) == |pictures|
            && Plays(Run(r.value, Rewound(r.value, cap), img, clearFirst, |pictures| + 1),
                     Reel(pictures, s.Colours(), Min(s.width, maxWidth), Min(s.height, maxHeight), ground), pictures)
  {
    hide ParseHeader, Count, Run, Reel, Plays, ScreenBytes, ReelBytes, Screen.Colours, RestIs, Encoded, LzwEncoder.At, Shares;
    AtParts(data, 0, ScreenBytes(s), ReelBytes(pictures) + [0x3B]);
    ScreenRead(data, s, maxWidth, maxHeight);
    var hd := ParseHeader(data, maxWidth, maxHeight).value;
    PicturesCounted(hd, hd.first, pictures);
    StartIs(hd, cap, img, clearFirst, ground);
    Animation(hd, Rewound(hd, cap), img, clearFirst, pictures, s.Colours(), ground);
  }

  lemma StartIs(hd: Header, cap: nat, img: Image, clearFirst: bool, ground: Image)
    requires img.Valid() && IsStart(img, hd.w, hd.h, clearFirst, ground)
    ensures Disposed(Rewound(hd, cap), Cleared(hd, img, clearFirst)) == ground
  {
    SamePixels(Disposed(Rewound(hd, cap), Cleared(hd, img, clearFirst)), ground);
  }
}
