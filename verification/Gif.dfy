/**
 What a GIF file means, as functions of its bytes: header, image descriptors, extensions, the pixels
 a frame leaves behind and the outcome of one call for the next frame. The decoder's methods are
 proved against these.
 */
module Gif {
  import opened Bits
  import opened Lzw
  import opened Interlace
  import opened PodBuffers
  import opened Options

  type rgb = x: int | 0 <= x < 0x100_0000

  const INT_MAX := 0x7FFF_FFFF

  // ----- images -----

  datatype Image = Image(w: nat, h: nat, rows: seq<seq<rgb>>) {
    ghost predicate Valid() {
      |rows| == h && forall y :: 0 <= y < h ==> |rows[y]| == w
    }
  }

  predicate Inside(x: int, y: int, x0: int, y0: int, w: int, h: int) {
    x0 <= x < x0 + w && y0 <= y < y0 + h
  }

  function Filled(img: Image, x0: int, y0: int, w: int, h: int, c: rgb): (r: Image)
    requires img.Valid()
    ensures r.Valid() && r.w == img.w && r.h == img.h
  {
    Image(img.w, img.h, seq(img.h, y requires 0 <= y < img.h =>
      seq(img.w, x requires 0 <= x < img.w => if Inside(x, y, x0, y0, w, h) then c else img.rows[y][x])))
  }

  /** Row-major position of (x, y) in a block `w` wide. */
  lemma FlatIndex(x: nat, y: nat, w: nat, h: nat)
    requires x < w && y < h
    ensures y * w + x < h * w
    ensures (y * w + x) / w == y && (y * w + x) % w == x
  {
    RowsBelow(y, w, h);
    var k := y * w + x;
    assert k == w * y + x;
    DivMod(k, w, y, x);
  }

  lemma RowsBelow(y: nat, w: nat, h: nat)
    requires y < h
    ensures y * w + w <= h * w
  {
    DifferenceOfProducts(h, y + 1, w);
    NotNegative(h - (y + 1), w);
    assert (y + 1) * w == y * w + w;
  }

  lemma NotNegative(a: nat, b: nat)
    ensures a * b >= 0
  {
  }

  function Pasted(img: Image, x0: int, y0: int, w: nat, h: nat, saved: seq<rgb>): (r: Image)
    requires img.Valid() && |saved| == h * w
    ensures r.Valid() && r.w == img.w && r.h == img.h
  {
    Image(img.w, img.h, seq(img.h, y requires 0 <= y < img.h =>
      seq(img.w, x requires 0 <= x < img.w =>
        if Inside(x, y, x0, y0, w, h) then
          FlatIndex(x - x0, y - y0, w, h);
          saved[(y - y0) * w + (x - x0)]
        else img.rows[y][x])))
  }

  function At(img: Image, x: int, y: int): rgb
    requires img.Valid()
  {
    if 0 <= x < img.w && 0 <= y < img.h then img.rows[y][x] else 0
  }

  function Snapshot(img: Image, x0: int, y0: int, w: nat, h: nat): (s: seq<rgb>)
    requires img.Valid()
    ensures |s| == h * w
  {
    if w == 0 then [] else seq(h * w, k requires 0 <= k < h * w => At(img, x0 + k % w, y0 + k / w))
  }

  // ----- the header -----

  datatype Header = Header(data: seq<byte>, first: nat, w: nat, h: nat, maxW: nat, maxH: nat,
                           bg: byte, colors: nat, palette: nat) {
    ghost predicate Valid() {
      && 0 < w <= maxW && 0 < h <= maxH && maxW <= 65535 && maxH <= 65535 && Fits(w, h)
      && first <= |data| && palette + 3 * colors <= |data|
    }
  }

  predicate Fits(w: int, h: int) {
    w > 0 && h > 0 && w <= INT_MAX / h && w <= SIZE_MAX / 4 / h
  }

  function Word(data: seq<byte>, at: nat): nat
    requires at + 2 <= |data|
  {
    var high: int := data[at + 1];
    data[at] + 256 * high
  }

  /** Colour tables hold 2^(n+1) entries, n in the low three bits of the packed field. */
  function TableColors(packed: byte): nat { if packed >= 0x80 then Pow2(packed % 8 + 1) else 0 }

  const SIGNATURE_87: seq<byte> := [0x47, 0x49, 0x46, 0x38, 0x37, 0x61]
  const SIGNATURE_89: seq<byte> := [0x47, 0x49, 0x46, 0x38, 0x39, 0x61]

  predicate Signed(data: seq<byte>)
    requires |data| >= 6
  {
    data[..6] == SIGNATURE_87 || data[..6] == SIGNATURE_89
  }

  function ParseHeader(data: seq<byte>, maxWidth: int, maxHeight: int): (r: Option<Header>)
    ensures r.Some? ==> r.value.Valid() && r.value.data == data
  {
    if |data| < 13 || maxWidth <= 0 || maxHeight <= 0 then None
    else if !Signed(data) then None
    else
      var (lw, lh, packed) := (Word(data, 6), Word(data, 8), data[10]);
      var (maxW, maxH) := (Min(maxWidth, 65535), Min(maxHeight, 65535));
      var (w, h) := (Min(lw, maxW), Min(lh, maxH));
      if lw == 0 || lh == 0 || !Fits(w, h) then None
      else
        var colors := TableColors(packed);
        if 13 + 3 * colors > |data| then None
        else Some(Header(data, 13 + 3 * colors, w, h, maxW, maxH, data[11], colors, 13))
  }

  // ----- blocks -----

  /** Steps over a sub-block chain that must be complete. */
  function Skip(data: seq<byte>, pos: nat): (r: Option<nat>)
    ensures r.Some? ==> pos < r.value <= |data|
    decreases |data| - pos
  {
    if pos >= |data| then None
    else if data[pos] == 0 then Some(pos + 1)
    else if pos + 1 + data[pos] > |data| then None
    else Skip(data, pos + 1 + data[pos])
  }

  /** A complete chain ends where a forgiving reader stops; an incomplete one takes it to the end. */
  lemma {:induction false} SkipEnd(data: seq<byte>, pos: nat)
    ensures ChainEnd(data, pos, 0) == match Skip(data, pos) case Some(e) => e case None => |data|
    decreases |data| - pos
  {
    if pos < |data| && data[pos] != 0 {
      ChainEndSkips(data, pos + 1, data[pos]);
      if pos + 1 + data[pos] <= |data| { SkipEnd(data, pos + 1 + data[pos]); }
    }
  }

  datatype Descriptor = Descriptor(x: nat, y: nat, w: nat, h: nat, interlaced: bool,
                                   colors: nat, palette: nat, codeSize: nat, at: nat)

  ghost predicate Admits(hd: Header, d: Descriptor) {
    && CodeSize(d.codeSize) && d.at <= |hd.data| && d.palette + 3 * d.colors <= |hd.data|
    && 0 < d.w <= hd.maxW && 0 < d.h <= hd.maxH && Fits(d.w, d.h)
  }

  /** The image descriptor, local colour table and code size that start at `pos`. */
  function Describe(hd: Header, pos: nat): (r: Option<Descriptor>)
    requires hd.Valid()
    ensures r.Some? ==> Admits(hd, r.value) && pos < r.value.at
  {
    if pos + 9 > |hd.data| then None
    else
      var (w, h, packed) := (Word(hd.data, pos + 4), Word(hd.data, pos + 6), hd.data[pos + 8]);
      if w > hd.maxW || h > hd.maxH || !Fits(w, h) then None
      else
        var own := TableColors(packed);
        var size := pos + 9 + 3 * own;
        if size >= |hd.data| || hd.data[size] < 1 || hd.data[size] > 8 then None
        else
          Some(Descriptor(Word(hd.data, pos), Word(hd.data, pos + 2), w, h, packed / 0x40 % 2 == 1,
                          if packed >= 0x80 then own else hd.colors, if packed >= 0x80 then pos + 9 else hd.palette,
                          hd.data[size], size + 1))
  }

  /** Structurally valid frame descriptors from `pos` on, up to the first fault. */
  function Count(hd: Header, pos: nat): (n: nat)
    requires hd.Valid()
    decreases |hd.data| - pos
  {
    if pos >= |hd.data| then 0
    else if hd.data[pos] == 0x21 then
      if pos + 1 == |hd.data| then 0
      else match Skip(hd.data, pos + 2)
           case None => 0
           case Some(e) => Count(hd, e)
    else if hd.data[pos] == 0x2C then
      match Describe(hd, pos + 1)
      case None => 0
      case Some(d) => 1 + match Skip(hd.data, d.at) case None => 0 case Some(e) => Count(hd, e)
    else 0
  }

  datatype Control = Control(transparent: int, disposal: nat, delay: nat)

  const NO_CONTROL := Control(-1, 0, 0)

  /** A graphic control extension behind its label, section 23 of GIF89a. */
  function ParseControl(data: seq<byte>, pos: nat): (r: Option<(Control, nat)>)
    ensures r.Some? ==> r.value.0.disposal <= 3 && -1 <= r.value.0.transparent < 256 && Skip(data, pos) == Some(r.value.1)
  {
    if pos >= |data| || data[pos] < 4 || pos + 5 > |data| || pos + 1 + data[pos] > |data| then None
    else
      var packed := data[pos + 1];
      var method_ := packed / 4 % 8;
      match Skip(data, pos + 1 + data[pos])
      case None => None
      case Some(e) =>
        Some((Control(if packed % 2 == 1 then data[pos + 4] else -1, if method_ > 3 then 0 else method_,
                      10 * Word(data, pos + 2)), e))
  }

  // ----- one call for the next frame -----

  /** How the frame on screen is to be disposed of, and its visible rectangle. */
  datatype Shown = Shown(disposal: nat, x: nat, y: nat, w: nat, h: nat)

  const NOTHING_SHOWN := Shown(0, 0, 0, 0, 0)

  /** `saved` is what the restore buffer holds, `cap` its capacity. */
  datatype State = State(pos: nat, control: Control, prev: Shown, saved: seq<rgb>, cap: nat) {
    ghost predicate Valid() {
      control.disposal <= 3 && -1 <= control.transparent < 256 && |saved| <= cap
    }
  }

  function Rewound(hd: Header, cap: nat): State {
    State(hd.first, NO_CONTROL, NOTHING_SHOWN, [], cap)
  }

  /** What the heap answers to the two allocations of a frame. */
  datatype Grants = Grants(scratch: bool, restore: bool)

  datatype Outcome =
    | Frame_(st: State, img: Image, delay: nat)
    | End(st: State)
    | Error
    | Oom(st: State)

  function Visible(limit: nat, size: nat, offset: nat, extent: nat): (v: nat)
    ensures v <= extent && (v > 0 ==> offset + v <= Min(limit, size))
  {
    var v := Min(limit, size) - offset;
    if v < 0 then 0 else Min(v, extent)
  }

  /** The canvas once the frame before has been disposed of. */
  function Disposed(st: State, img: Image): (r: Image)
    requires img.Valid()
    ensures r.Valid() && r.w == img.w && r.h == img.h
  {
    if st.prev.disposal == 2 then Filled(img, st.prev.x, st.prev.y, st.prev.w, st.prev.h, 0)
    else if st.prev.disposal == 3 && |st.saved| == st.prev.h * st.prev.w then
      Pasted(img, st.prev.x, st.prev.y, st.prev.w, st.prev.h, st.saved)
    else img
  }

  function Cleared(hd: Header, img: Image, clearFirst: bool): (r: Image)
    requires img.Valid()
    ensures r.Valid() && r.w == img.w && r.h == img.h
  {
    if clearFirst then Filled(img, 0, 0, hd.w, hd.h, 0) else img
  }

  /** The decode row that holds row `y` of a frame. */
  function RowIndex(d: Descriptor, y: nat): (r: nat)
    requires y < d.h
    ensures r < d.h
  {
    if d.interlaced then StoredOrderIsPermutation(d.h); StoredAt(y, d.h) else y
  }

  function Pack24(data: seq<byte>, at: nat): rgb
    requires at + 3 <= |data|
  {
    var (red: int, green: int) := (data[at], data[at + 1]);
    red * 0x10000 + green * 0x100 + data[at + 2]
  }

  /** The pixel a colour index puts down: none where it is transparent or outside the colour table. */
  function Shade(hd: Header, d: Descriptor, transparent: int, index: byte, under: rgb): rgb
    requires d.palette + 3 * d.colors <= |hd.data|
  {
    if index == transparent || index >= d.colors then under else Pack24(hd.data, d.palette + 3 * index)
  }

  /** The pixel at (x, y) of the frame's visible part. */
  function Painted(hd: Header, d: Descriptor, transparent: int, indices: seq<byte>, x: nat, y: nat, under: rgb): rgb
    requires x < d.w && y < d.h && |indices| == d.h * d.w && d.palette + 3 * d.colors <= |hd.data|
  {
    var row := RowIndex(d, y);
    FlatIndex(x, row, d.w, d.h);
    Shade(hd, d, transparent, indices[row * d.w + x], under)
  }

  function Drawn(hd: Header, d: Descriptor, transparent: int, indices: seq<byte>, vw: nat, vh: nat, img: Image): (r: Image)
    requires img.Valid() && |indices| == d.h * d.w && vw <= d.w && vh <= d.h
    requires d.palette + 3 * d.colors <= |hd.data|
    ensures r.Valid() && r.w == img.w && r.h == img.h
  {
    Image(img.w, img.h, seq(img.h, y requires 0 <= y < img.h =>
      seq(img.w, x requires 0 <= x < img.w =>
        if Inside(x, y, d.x, d.y, vw, vh) then
          Painted(hd, d, transparent, indices, x - d.x, y - d.y, img.rows[y][x])
        else img.rows[y][x])))
  }

  function FillIndex(hd: Header, control: Control): byte
    requires -1 <= control.transparent < 256
  {
    if control.transparent >= 0 then control.transparent else hd.bg
  }

  function Area(w: nat, h: nat): nat { w * h }

  /** Drawing a decoded frame: the one before is disposed of, the ground saved if it must come back. */
  function Composed(hd: Header, st: State, img: Image, clearFirst: bool, grant: bool, d: Descriptor,
                    indices: seq<byte>): (r: Outcome)
    requires hd.Valid() && st.Valid() && img.Valid() && Admits(hd, d) && |indices| == d.h * d.w
    ensures r.Frame_? || r.Oom?
    ensures r.Frame_? ==> r.st.Valid() && r.img.Valid() && r.img.w == img.w && r.img.h == img.h
    ensures r.Oom? ==> r.st == st
  {
    var vw := Visible(hd.w, img.w, d.x, d.w);
    var vh := Visible(hd.h, img.h, d.y, d.h);
    var size := Area(vh, vw);
    var keep := st.control.disposal == 3;
    if keep && !CanResize(st.cap, size, Limit(4), grant) then Oom(st)
    else
      var before := Disposed(st, Cleared(hd, img, clearFirst));
      var saved := if keep then Snapshot(before, d.x, d.y, vw, vh) else [];
      var cap := if keep then ResizedCap(st.cap, size, Limit(4)) else st.cap;
      Frame_(State(ChainEnd(hd.data, d.at, 0), NO_CONTROL, Shown(st.control.disposal, d.x, d.y, vw, vh), saved, cap),
             Drawn(hd, d, st.control.transparent, indices, vw, vh, before), st.control.delay)
  }

  /** Decoding the image whose descriptor starts at `st.pos`; `Oom` leaves everything as it was. */
  function DecodeImage(hd: Header, st: State, img: Image, clearFirst: bool, grants: Grants): (r: Outcome)
    requires hd.Valid() && st.Valid() && img.Valid()
    ensures !r.End?
    ensures r.Frame_? ==> r.st.Valid() && r.img.Valid() && r.img.w == img.w && r.img.h == img.h
    ensures r.Oom? ==> r.st == st
  {
    match Describe(hd, st.pos)
    case None => Error
    case Some(d) =>
      if !grants.scratch then Oom(st)
      else
        match Frame(hd.data, d.at, d.codeSize, d.h * d.w, FillIndex(hd, st.control))
        case Corrupt => Error
        case Pixels(indices) => Composed(hd, st, img, clearFirst, grants.restore, d, indices)
  }

  /** An image block: refused, it is left for the next call to begin again. */
  function ImageBlock(hd: Header, st: State, img: Image, clearFirst: bool, grants: Grants): (r: Outcome)
    requires hd.Valid() && st.Valid() && img.Valid()
    ensures !r.End?
    ensures r.Frame_? ==> r.st.Valid() && r.img.Valid() && r.img.w == img.w && r.img.h == img.h
    ensures r.Oom? ==> r.st == st
  {
    var r := DecodeImage(hd, st.(pos := st.pos + 1), img, clearFirst, grants);
    if r.Oom? then Oom(st) else r
  }

  /** An extension whose label stands at `st.pos`: only the graphic control one leaves something behind. */
  function Extended(hd: Header, st: State): (r: Option<State>)
    requires st.Valid()
    ensures r.Some? ==> r.value.Valid() && st.pos < r.value.pos <= |hd.data|
    ensures r.Some? ==> r.value.(pos := st.pos, control := st.control) == st
    ensures r.Some? ==> Skip(hd.data, st.pos + 1) == Some(r.value.pos)
  {
    if st.pos >= |hd.data| then None
    else if hd.data[st.pos] == 0xF9 then
      match ParseControl(hd.data, st.pos + 1)
      case None => None
      case Some((c, e)) => Some(st.(control := c, pos := e))
    else
      match Skip(hd.data, st.pos + 1)
      case None => None
      case Some(e) => Some(st.(pos := e))
  }

  /** The image a call would decode, behind any extensions. */
  function Upcoming(hd: Header, st: State): (r: Option<Descriptor>)
    requires hd.Valid() && st.Valid()
    ensures r.Some? ==> Admits(hd, r.value)
    decreases |hd.data| - st.pos
  {
    if st.pos >= |hd.data| then None
    else if hd.data[st.pos] == 0x2C then Describe(hd, st.pos + 1)
    else if hd.data[st.pos] == 0x21 then
      match Extended(hd, st.(pos := st.pos + 1))
      case None => None
      case Some(st') => Upcoming(hd, st')
    else None
  }

  function NextFrame(hd: Header, st: State, img: Image, clearFirst: bool, grants: Grants): (r: Outcome)
    requires hd.Valid() && st.Valid() && img.Valid()
    ensures r.Frame_? ==> r.st.Valid() && r.img.Valid() && r.img.w == img.w && r.img.h == img.h
    ensures r.End? || r.Oom? ==> r.st.Valid()
    decreases |hd.data| - st.pos
  {
    if st.pos >= |hd.data| then End(st)
    else
      var b := hd.data[st.pos];
      if b == 0x3B then End(st.(pos := st.pos + 1))
      else if b == 0x2C then
        ImageBlock(hd, st, img, clearFirst, grants)
      else if b == 0x21 then
        match Extended(hd, st.(pos := st.pos + 1))
        case None => Error
        case Some(st') => NextFrame(hd, st', img, clearFirst, grants)
      else Error
  }
}
