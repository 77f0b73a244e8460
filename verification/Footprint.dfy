/**
 The memory of a GIF shown on a page: what the player holds at every moment between admission and
 closing, including the moments when an old and a new block are both alive, against the cost it was
 admitted with.
 */
module Footprint {
  import opened Bits
  import opened Lzw
  import opened PodBuffers
  import opened Gif
  import opened Canvases
  import opened GifLaws
  import opened GifDecoder
  import opened ScratchPools
  import opened Options

  // ----- admission -----

  const GIF_FIXED := 512
  const GIF_PER_PIXEL := 21

  /** What admission reserves for a GIF of this size. */
  function ResidentCost(compressed: nat, width: nat, height: nat): Option<nat> {
    var count := width * height;
    if count > (SIZE_MAX - GIF_FIXED) / GIF_PER_PIXEL || compressed > SIZE_MAX - GIF_FIXED - count * GIF_PER_PIXEL then None
    else Some(compressed + count * GIF_PER_PIXEL + GIF_FIXED)
  }

  /** Bytes that pass the native image check as a GIF within the limits and the memory allowed. */
  predicate Admitted(data: seq<byte>, maxWidth: int, maxHeight: int, limit: nat) {
    && |data| >= 13 && Signed(data) && Word(data, 6) > 0 && Word(data, 8) > 0
    && Word(data, 6) <= maxWidth && Word(data, 8) <= maxHeight
    && match ResidentCost(|data|, Word(data, 6), Word(data, 8)) case None => false case Some(cost) => cost <= limit
  }

  /** Admission in numbers: 21 bytes a pixel and 512 beside the compressed bytes, within the limit and 32 bits. */
  lemma AdmittedMeans(data: seq<byte>, maxWidth: int, maxHeight: int, limit: nat)
    requires |data| >= 13
    ensures var (width: int, height: int) := (data[6] + 256 * (data[7] as int), data[8] + 256 * (data[9] as int));
            Admitted(data, maxWidth, maxHeight, limit) <==>
              && (data[..6] == [0x47, 0x49, 0x46, 0x38, 0x37, 0x61] || data[..6] == [0x47, 0x49, 0x46, 0x38, 0x39, 0x61])
              && 0 < width <= maxWidth && 0 < height <= maxHeight
              && |data| + 21 * (width * height) + 512 <= limit && |data| + 21 * (width * height) + 512 <= 0xFFFF_FFFF
  {
    CostIs(|data|, Word(data, 6), Word(data, 8));
    hide ResidentCost;
  }

  lemma CostIs(compressed: nat, width: nat, height: nat)
    ensures ResidentCost(compressed, width, height) ==
            var cost := compressed + 21 * (width * height) + 512;
            if cost <= 0xFFFF_FFFF then Some(cost) else None
  {
  }

  lemma CostOf(compressed: nat, width: nat, height: nat)
    ensures match ResidentCost(compressed, width, height)
            case None => true
            case Some(cost) => cost == Cost(compressed, Area(width, height))
  {
  }

  /** Opened with its own size as limits, a GIF's canvas and its largest frame are exactly that size. */
  lemma OwnLimits(data: seq<byte>, maxWidth: int, maxHeight: int, limit: nat)
    requires Admitted(data, maxWidth, maxHeight, limit)
    ensures var r := ParseHeader(data, Word(data, 6), Word(data, 8));
            r.Some? ==> r.value.w == r.value.maxW == Word(data, 6) && r.value.h == r.value.maxH == Word(data, 8)
  {
  }

  /** A file that says this is its size. */
  predicate OfSize(data: seq<byte>, width: int, height: int) {
    |data| >= 13 && Word(data, 6) == width && Word(data, 8) == height
  }

  lemma SizeFromHeader(data: seq<byte>, width: nat, height: nat)
    requires OfSize(data, width, height)
    ensures var r := ParseHeader(data, width, height);
            r.Some? ==> r.value.w == r.value.maxW == width && r.value.h == r.value.maxH == height && Px(r.value) == Area(width, height)
  {
  }

  // ----- scratch -----

  /** The four tables lie side by side, in this order, and fit; five bytes a pixel always suffice. */
  lemma ScratchLayout(npix: nat, m: nat)
    requires CodeSize(m) && npix > 0
    ensures var e := Entries(npix, m);
            var suffix := 2 * e;
            var stack := suffix + e;
            var index := stack + Min(npix, MAX_SLOTS);
            index + npix <= 2 * ScratchWords(npix, m) <= 5 * npix + 1
    ensures 0 < ScratchWords(npix, m)
  {
  }

  /** The decoder's tables take exactly these parts of it. */
  lemma ScratchFits(s: LzwScratch, m: nat, npix: nat)
    requires npix > 0 && s.For(m, npix)
    ensures s.prefix.Length == s.suffix.Length == Entries(npix, m)
    ensures 2 * s.prefix.Length + s.suffix.Length + s.stack.Length + s.index.Length <= 2 * ScratchWords(npix, m)
  {
    ScratchLayout(npix, m);
  }

  /** Pixels of the canvas. */
  function Px(hd: Header): nat { hd.h * hd.w }

  // ----- one call -----

  /** It is the image a call decodes: no other is decoded, and without the memory for it the call is refused. */
  lemma {:induction false} UpcomingIsDecoded(hd: Header, st: State, img: Image, clearFirst: bool, grants: Grants)
    requires hd.Valid() && st.Valid() && img.Valid()
    ensures var r := NextFrame(hd, st, img, clearFirst, grants);
            match Upcoming(hd, st)
            case None => !r.Frame_? && !r.Oom?
            case Some(d) => !r.End? && (!grants.scratch ==> r.Oom?) && (r.Frame_? ==> r.st.pos == ChainEnd(hd.data, d.at, 0))
    decreases |hd.data| - st.pos
  {
    if st.pos < |hd.data| && hd.data[st.pos] == 0x21 {
      var e := Extended(hd, st.(pos := st.pos + 1));
      if e.Some? { UpcomingIsDecoded(hd, e.value, img, clearFirst, grants); }
      hide Extended, Describe, DecodeImage;
    } else {
      hide Extended, Describe, Drawn, Disposed, Snapshot, Cleared, Frame, CanResize, ResizedCap;
    }
  }

  /** The decoder behind a call: an end or an error makes the player rewind. */
  ghost function Played(hd: Header, st: State, img: Image, clearFirst: bool, grants: Grants): (r: State)
    requires hd.Valid() && st.Valid() && img.Valid()
    ensures r.Valid()
  {
    match NextFrame(hd, st, img, clearFirst, grants)
    case Frame_(next, _, _) => next
    case Oom(next) => next
    case End(_) => Rewound(hd, st.cap)
    case Error => Rewound(hd, st.cap)
  }

  /** A restore buffer that grows was smaller than the canvas, so old and new block stay within three canvases. */
  lemma {:induction false} RestoreGrowth(hd: Header, st: State, img: Image, clearFirst: bool, grants: Grants)
    requires hd.Valid() && st.Valid() && img.Valid()
    ensures var r := NextFrame(hd, st, img, clearFirst, grants);
            r.Frame_? && r.st.cap != st.cap ==>
              && st.cap < Px(hd)
              && r.st.cap <= Max(16, 2 * Px(hd))
              && st.cap + r.st.cap <= Max(16, 3 * Px(hd))
    decreases |hd.data| - st.pos
  {
    hide Extended, Describe, Frame, Disposed, Cleared, Drawn, Snapshot;
    if st.pos < |hd.data| {
      if hd.data[st.pos] == 0x2C {
        GrowthInImage(hd, st.(pos := st.pos + 1), img, clearFirst, grants);
      } else if hd.data[st.pos] == 0x21 {
        var e := Extended(hd, st.(pos := st.pos + 1));
        if e.Some? { RestoreGrowth(hd, e.value, img, clearFirst, grants); }
      }
    }
  }

  lemma GrowthInImage(hd: Header, st: State, img: Image, clearFirst: bool, grants: Grants)
    requires hd.Valid() && st.Valid() && img.Valid()
    ensures var r := DecodeImage(hd, st, img, clearFirst, grants);
            r.Frame_? && r.st.cap != st.cap ==>
              && st.cap < Px(hd)
              && r.st.cap <= Max(16, 2 * Px(hd))
              && st.cap + r.st.cap <= Max(16, 3 * Px(hd))
  {
    hide Describe, Frame, Composed, Fits, Px;
    var d := Describe(hd, st.pos);
    if d.Some? {
      var v := Frame(hd.data, d.value.at, d.value.codeSize, d.value.h * d.value.w, FillIndex(hd, st.control));
      if v.Pixels? { GrowthInFrame(hd, st, img, clearFirst, grants.restore, d.value, v.out); }
    }
  }

  lemma GrowthInFrame(hd: Header, st: State, img: Image, clearFirst: bool, grant: bool, d: Descriptor, indices: seq<byte>)
    requires hd.Valid() && st.Valid() && img.Valid() && Admits(hd, d) && |indices| == d.h * d.w
    ensures var r := Composed(hd, st, img, clearFirst, grant, d, indices);
            r.Frame_? && r.st.cap != st.cap ==>
              && st.cap < Px(hd)
              && r.st.cap <= Max(16, 2 * Px(hd))
              && st.cap + r.st.cap <= Max(16, 3 * Px(hd))
  {
    hide Disposed, Cleared, Drawn, Snapshot, Visible, Fits, Px, NewCap, ChainEnd;
    VisibleWithin(hd, img, d);
    CapBounds(st.cap, Visible(hd.h, img.h, d.y, d.h) * Visible(hd.w, img.w, d.x, d.w), Px(hd));
  }

  lemma VisibleWithin(hd: Header, img: Image, d: Descriptor)
    requires hd.Valid()
    ensures 0 <= Visible(hd.h, img.h, d.y, d.h) * Visible(hd.w, img.w, d.x, d.w) <= Px(hd)
  {
    MulMonotone(Visible(hd.h, img.h, d.y, d.h), Visible(hd.w, img.w, d.x, d.w), hd.h, hd.w);
  }

  lemma CapBounds(cap: nat, n: nat, px: nat)
    ensures cap < n <= Limit(4) && n <= px ==>
              var c := NewCap(cap, n, Limit(4)); c <= Max(16, 2 * px) && cap + c <= Max(16, 3 * px)
  {
  }

  lemma UpcomingFits(hd: Header, st: State)
    requires hd.Valid() && st.Valid() && hd.w == hd.maxW && hd.h == hd.maxH && Upcoming(hd, st).Some?
    ensures var d := Upcoming(hd, st).value;
            0 < d.h * d.w <= Px(hd) && ScratchWords(d.h * d.w, d.codeSize) <= (5 * Px(hd) + 1) / 2
  {
    hide Upcoming, Fits, ScratchWords, Entries;
    var d := Upcoming(hd, st).value;
    MulMonotone(d.h, d.w, hd.h, hd.w);
    MulMonotone(1, 1, d.h, d.w);
    var npix := d.h * d.w;
    ScratchLayout(npix, d.codeSize);
  }

  /** A refused call keeps the restore buffer as it is. */
  lemma CapKept(hd: Header, st: State, img: Image, clearFirst: bool, grants: Grants)
    requires hd.Valid() && st.Valid() && img.Valid()
    ensures var r := NextFrame(hd, st, img, clearFirst, grants); r.Oom? ==> r.st.cap == st.cap
  {
    if NextFrame(hd, st, img, clearFirst, grants).Oom? {
      RetryIsTransparent(hd, st, img, clearFirst, grants, grants);
    }
  }

  /** The restore buffer behind a call: as before, or grown beside its old block. */
  lemma RestoreModest(hd: Header, st: State, img: Image, clearFirst: bool, grants: Grants)
    requires hd.Valid() && st.Valid() && img.Valid()
    ensures var cap := Played(hd, st, img, clearFirst, grants).cap;
            cap != st.cap ==> cap <= Max(16, 2 * Px(hd)) && st.cap + cap <= Max(16, 3 * Px(hd))
  {
    hide NextFrame, Px;
    RestoreGrowth(hd, st, img, clearFirst, grants);
    CapKept(hd, st, img, clearFirst, grants);
  }

  /** The workspace behind a call: no larger than before, or than this GIF needs. */
  lemma ClaimModest(hd: Header, st: State, size: nat, grants: Grants)
    requires hd.Valid() && st.Valid() && hd.w == hd.maxW && hd.h == hd.maxH
    ensures var behind := SizeBehind(Upcoming(hd, st), size, grants);
            Block(behind) <= Max(Block(size), Max(16, (5 * Px(hd) + 1) / 2))
  {
    hide Upcoming, Px, Fits, ScratchWords;
    if Upcoming(hd, st).Some? { UpcomingFits(hd, st); }
  }

  // ----- the player and its heap -----

  /** The cost of so many compressed bytes and pixels. */
  function Cost(compressed: nat, px: nat): nat { compressed + GIF_PER_PIXEL * px + GIF_FIXED }

  /** What is held stays within the cost as long as each block does; `blocks` are the restore buffer's, old and new. */
  lemma BlocksBounded(compressed: nat, data: nat, frame: nat, delays: nat, ws: nat, blocks: nat, px: nat, grown: nat)
    requires data <= Max(16, compressed) && frame <= Max(16, px) && delays <= 1 && blocks <= Max(16, 3 * px)
    requires ws <= Max(grown, Max(16, (5 * px + 1) / 2))
    ensures data + 4 * frame + 2 * delays + 2 * ws + 4 * blocks <= Cost(compressed, px) + 2 * grown
  {
  }

  /** What an exchange of the workspace's and the restore buffer's block does to the heap. */
  lemma Sums(others: int, compressed: nat, data: nat, frame: nat, delays: nat, ws: nat, cap: nat,
             ws': nat, cap': nat, live: int, live': int, peak: int, peak': int, px: nat, grown: nat)
    requires live == others + data + 4 * frame + 2 * delays + 4 * cap + 2 * ws
    requires live' == live + (ws' - ws) * 2 + (cap' - cap) * 4
    requires peak' <= Max(peak, live + (ws' - ws) * 2 + if cap' == cap then 0 else cap' * 4)
    requires data <= Max(16, compressed) && frame <= Max(16, px) && delays <= 1 && ws' <= Max(grown, Max(16, (5 * px + 1) / 2))
    requires cap <= Max(16, 2 * px) && (cap' != cap ==> cap + cap' <= Max(16, 3 * px))
    ensures live' == others + data + 4 * frame + 2 * delays + 4 * cap' + 2 * ws'
    ensures peak' <= Max(peak, others + Cost(compressed, px) + 2 * grown)
  {
    BlocksBounded(compressed, data, frame, delays, ws', if cap' == cap then cap else cap + cap', px, grown);
    hide Cost;
  }

  datatype Ledger = Ledger(others: int, peak: int, hd: Header)

  ghost predicate WithinCost(was: Ledger, now: Ledger, grown: nat) {
    && now.others == was.others && now.hd == was.hd
    && now.peak <= Max(was.peak, now.others + Cost(|now.hd.data|, Px(now.hd)) + 2 * grown)
  }

  lemma NothingSpent(was: Ledger, grown: nat)
    ensures WithinCost(was, was, grown)
  {
    hide Px;
  }

  lemma StillWithin(was: Ledger, then_: Ledger, now: Ledger, grown: nat)
    requires WithinCost(was, then_, grown) && WithinCost(then_, now, grown)
    ensures WithinCost(was, now, grown)
  {
    hide Px, Cost;
  }

  datatype Opened = Good | Missing | OutOfMemory

  /**
   The player of one GIF: the compressed bytes, the decoder with its claim on the workspace, the frame it
   shows and that frame's delay, all on one heap.
   */
  class GifPlayer {
    const gif: MicroGif
    const data: PodBuffer<byte>
    const frames: PodBuffer<rgb>
    const delays: PodBuffer<nat>

    constructor (pool: ScratchPool)
      requires pool.Valid()
      modifies pool`live
      ensures Valid() && Closed() && fresh(gif) && gif.pool == pool && fresh(data) && fresh(frames) && fresh(delays)
    {
      gif := new MicroGif(pool);
      data := new PodBuffer<byte>(pool.workspace.heap, 1);
      frames := new PodBuffer<rgb>(pool.workspace.heap, 4);
      delays := new PodBuffer<nat>(pool.workspace.heap, 2);
    }

    ghost predicate Valid()
      reads gif, gif.restore, gif.pool, gif.pool.live, gif.pool.workspace, data, frames, delays
    {
      && gif.Valid() && gif.Pooled() && data.Valid() && frames.Valid() && delays.Valid()
      && data.elem == 1 && frames.elem == 4 && delays.elem == 2 && frames != gif.restore && gif.Valid()
      && data.heap == frames.heap == delays.heap == gif.restore.heap
    }

    /** It holds nothing. */
    ghost predicate Closed()
      reads gif, gif.restore, data, frames, delays
    {
      && !gif.loaded && data.data.Length == 0 && frames.data.Length == 0 && delays.data.Length == 0
      && gif.restore.data.Length == 0
    }

    /** The bytes on the heap that are neither this player's nor the workspace's. */
    ghost function Others(): int
      reads gif, gif.restore, gif.restore.heap, gif.pool.workspace, data, frames, delays
    {
      gif.restore.heap.live - data.data.Length - 4 * frames.data.Length - 2 * delays.data.Length
        - 4 * gif.restore.data.Length - 2 * gif.pool.workspace.data.Length
    }

    /** A GIF that is open, with a workspace that may have been `grown` by other decoders. */
    ghost predicate Playing(grown: nat)
      reads gif, gif.restore, gif.pool.workspace, data, frames, delays
    {
      && gif.loaded && gif.hd.w == gif.hd.maxW && gif.hd.h == gif.hd.maxH
      && data.data.Length <= Max(16, |gif.hd.data|)
      && frames.data.Length <= Max(16, Px(gif.hd)) && delays.data.Length <= 1
      && gif.restore.data.Length <= Max(16, 2 * Px(gif.hd))
      && gif.pool.workspace.data.Length <= Max(grown, Max(16, (5 * Px(gif.hd) + 1) / 2))
    }

    ghost function Now(): Ledger
      reads gif, gif.restore, gif.restore.heap, gif.pool.workspace, data, frames, delays
    {
      Ledger(Others(), gif.restore.heap.peak, gif.hd)
    }

    /** Nobody else's bytes are touched, and on the way never more is held than the cost. */
    twostate predicate Kept(grown: nat)
      reads gif, gif.restore, gif.restore.heap, gif.pool.workspace, data, frames, delays
    {
      WithinCost(old(Now()), Now(), grown)
    }

    /** Its buffers are those from before, or new. */
    twostate predicate Carried()
      reads gif.restore, gif.pool
    {
      gif.pool.live == old(gif.pool.live) && (gif.restore.data == old(gif.restore.data) || fresh(gif.restore.data))
    }

    /** The call for the next frame, and the rewind behind an end or an error. */
    method PlayOn(dst: Canvas, clearFirst: bool, grants: Grants) returns (step: Steps, delayMs: nat)
      requires gif.Valid() && gif.Pooled() && gif.loaded && dst.Valid()
      modifies gif`pos, gif`control, gif`prev, gif.restore, gif.restore.heap, gif.restore.data, dst.px
      modifies gif.pool`head, gif.pool`claims, gif.pool.live, gif.pool.workspace
      ensures gif.Valid() && gif.Pooled() && Carried()
      ensures gif.St() == old(Played(gif.hd, gif.St(), dst.Img(), clearFirst,
                                     Served(Upcoming(gif.hd, gif.St()), gif.pool.workspace.size, grants)))
      ensures gif.pool.workspace.size == old(SizeBehind(Upcoming(gif.hd, gif.St()), gif.pool.workspace.size, grants))
      ensures gif.AllAccounted()
    {
      hide Gif.NextFrame, Upcoming, Served, SizeBehind, ScratchPool.Valid;
      step, delayMs := gif.NextFrame(dst, clearFirst, grants);
      if step == KEnd || step == KError { gif.Rewind(); }
    }

    /** What that call makes of the two blocks it may exchange. */
    method PlayModestly(dst: Canvas, clearFirst: bool, grants: Grants) returns (step: Steps, delayMs: nat)
      requires gif.Valid() && gif.Pooled() && gif.loaded && dst.Valid() && gif.hd.w == gif.hd.maxW && gif.hd.h == gif.hd.maxH
      modifies gif`pos, gif`control, gif`prev, gif.restore, gif.restore.heap, gif.restore.data, dst.px
      modifies gif.pool`head, gif.pool`claims, gif.pool.live, gif.pool.workspace
      ensures gif.Valid() && gif.Pooled() && Carried()
      ensures gif.pool.workspace.data.Length <= Max(old(gif.pool.workspace.data.Length), Max(16, (5 * Px(gif.hd) + 1) / 2))
      ensures var (was, now) := (old(gif.restore.data.Length), gif.restore.data.Length);
              now != was ==> now <= Max(16, 2 * Px(gif.hd)) && was + now <= Max(16, 3 * Px(gif.hd))
      ensures gif.AllAccounted()
    {
      ghost var st, size := gif.St(), gif.pool.workspace.size;
      ClaimModest(gif.hd, st, size, grants);
      RestoreModest(gif.hd, st, dst.Img(), clearFirst, Served(Upcoming(gif.hd, st), size, grants));
      hide Played, Upcoming, Served, SizeBehind, Px, Block, ScratchPool.Linked;
      step, delayMs := PlayOn(dst, clearFirst, grants);
    }

    /** So neither then nor on the way is more on the heap than the GIF was admitted with. */
    method Advance(dst: Canvas, clearFirst: bool, grants: Grants, ghost grown: nat) returns (step: Steps, delayMs: nat)
      requires Valid() && Playing(grown) && dst.Valid()
      modifies gif`pos, gif`control, gif`prev, gif.restore, gif.restore.heap, gif.restore.data, dst.px
      modifies gif.pool`head, gif.pool`claims, gif.pool.live, gif.pool.workspace
      ensures Valid() && Playing(grown) && Kept(grown) && Carried()
    {
      hide Px, Cost, MicroGif.Pooled, MicroGif.Valid, MicroGif.AllAccounted, Kept, Carried;
      step, delayMs := PlayModestly(dst, clearFirst, grants);
      Advanced(grown);
    }

    twostate lemma Advanced(grown: nat)
      requires old(Valid() && Playing(grown)) && gif.Valid() && gif.Pooled() && gif.loaded && gif.hd == old(gif.hd)
      requires Untouched() && gif.AllAccounted()
      requires gif.pool.workspace.data.Length <= Max(old(gif.pool.workspace.data.Length), Max(16, (5 * Px(gif.hd) + 1) / 2))
      requires var (was, now) := (old(gif.restore.data.Length), gif.restore.data.Length);
               now != was ==> now <= Max(16, 2 * Px(gif.hd)) && was + now <= Max(16, 3 * Px(gif.hd))
      ensures Valid() && Playing(grown) && Kept(grown)
    {
      hide Px, Cost, MicroGif.Pooled, MicroGif.Valid;
      Sums(old(Others()), |gif.hd.data|, data.data.Length, frames.data.Length, delays.data.Length, old(gif.pool.workspace.data.Length),
           old(gif.restore.data.Length), gif.pool.workspace.data.Length, gif.restore.data.Length,
           old(gif.restore.heap.live), gif.restore.heap.live, old(gif.restore.heap.peak), gif.restore.heap.peak, Px(gif.hd), grown);
    }

    twostate predicate Untouched()
      reads data, frames, delays
    {
      unchanged(data) && unchanged(frames) && unchanged(delays)
    }

    /** Gives everything back. */
    method Close()
      requires Valid()
      modifies gif, gif.restore, gif.restore.heap, gif.pool`head, gif.pool`claims, gif.pool.live, gif.pool.workspace
      modifies data, frames, delays
      ensures Valid() && Closed() && Others() == old(Others()) && gif.restore.heap.peak == old(gif.restore.heap.peak)
      ensures gif.hd == old(gif.hd) && fresh(gif.restore.data)
      ensures gif.pool.workspace.data.Length <= old(gif.pool.workspace.data.Length)
    {
      hide MicroGif.Valid, MicroGif.Pooled;
      gif.Unload();
      data.Clear();
      frames.Clear();
      delays.Clear();
    }

    /** Reads the header of the bytes it holds. */
    method Start(width: int, height: int) returns (ok: bool)
      requires Valid()
      requires frames.data.Length == 0 && delays.data.Length == 0
      modifies gif, gif.restore, gif.restore.heap, gif.pool`head, gif.pool`claims, gif.pool.live, gif.pool.workspace, data
      ensures Valid() && frames.data.Length == 0 && delays.data.Length == 0 && gif.restore.data.Length == 0
      ensures Others() == old(Others()) && gif.restore.heap.peak == old(gif.restore.heap.peak)
      ensures gif.pool.workspace.data.Length <= old(gif.pool.workspace.data.Length)
      ensures ok == ParseHeader(old(data.Contents()), width, height).Some?
      ensures ok ==> gif.loaded && Some(gif.hd) == ParseHeader(old(data.Contents()), width, height)
      ensures ok ==> data.data == old(data.data) && |gif.hd.data| == data.size
      ensures !ok ==> Closed()
      ensures fresh(gif.restore.data)
    {
      hide ParseHeader, MicroGif.Valid, MicroGif.Pooled, Removed;
      ok := gif.Begin(data.data[..data.size], width, height);
      if !ok { data.Clear(); }
    }

    /** The buffer the frame is drawn in: of the canvas' size or, at the most, a single block's least. */
    method HoldFrame(n: nat, most: nat, grant: bool, ghost grown: nat) returns (ok: bool)
      requires Valid() && Playing(grown) && n <= Px(gif.hd) && (most == n || most == SIZE_MAX)
      requires frames.data.Length == 0 && delays.data.Length == 0
      modifies frames, frames.heap
      ensures Valid() && Playing(grown) && Kept(grown)
      ensures ok ==> frames.size == n
    {
      hide Px, MicroGif.Pooled, MicroGif.Valid;
      ok := frames.Resize(n, most, grant);
      BlocksBounded(|gif.hd.data|, data.data.Length, frames.data.Length, 0, gif.pool.workspace.data.Length,
                    gif.restore.data.Length, Px(gif.hd), grown);
    }

    method HoldDelay(grant: bool, ghost grown: nat) returns (ok: bool)
      requires Valid() && Playing(grown) && delays.data.Length == 0
      modifies delays, delays.heap
      ensures Valid() && Playing(grown) && Kept(grown)
    {
      hide Px, MicroGif.Pooled, MicroGif.Valid;
      ok := delays.Resize(1, 1, grant);
      BlocksBounded(|gif.hd.data|, data.data.Length, frames.data.Length, delays.data.Length, gif.pool.workspace.data.Length,
                    gif.restore.data.Length, Px(gif.hd), grown);
    }

    method FirstFrame(first: Canvas, clearFirst: bool, grants: Grants, ghost grown: nat) returns (r: Opened)
      requires Valid() && Playing(grown) && first.Valid()
      modifies gif`pos, gif`control, gif`prev, gif.restore, gif.restore.heap, gif.restore.data, first.px
      modifies gif.pool`head, gif.pool`claims, gif.pool.live, gif.pool.workspace
      ensures Valid() && Playing(grown) && Kept(grown)
      ensures Carried()
    {
      hide *;
      var step, _ := Advance(first, clearFirst, grants, grown);
      r := if step == KFrame then Good else if step == KOom then OutOfMemory else Missing;
    }

    /** A buffer for the frame, if asked for another for its delay, and the first frame in it. */
    method Show(first: Canvas, still: bool, grantFrame: bool, grantDelay: bool, grants: Grants, ghost grown: nat)
      returns (r: Opened)
      requires Valid() && Playing(grown) && first.Valid() && frames.data.Length == 0 && delays.data.Length == 0
      modifies gif`pos, gif`control, gif`prev, gif.restore, gif.restore.heap, gif.restore.data, first.px
      modifies gif.pool`head, gif.pool`claims, gif.pool.live, gif.pool.workspace, frames, delays
      ensures Valid() && Playing(grown) && Kept(grown)
      ensures Carried()
    {
      SameHeap();
      ghost var was := Now();
      hide Valid, Playing, Now, WithinCost;
      var ok := Hold(still, grantFrame, grantDelay, grown);
      if !ok { return OutOfMemory; }
      ghost var held := Now();
      r := FirstFrame(first, !still, grants, grown);
      StillWithin(was, held, Now(), grown);
    }

    method Hold(still: bool, grantFrame: bool, grantDelay: bool, ghost grown: nat) returns (ok: bool)
      requires Valid() && Playing(grown) && frames.data.Length == 0 && delays.data.Length == 0
      modifies gif.restore.heap, frames, delays
      ensures Valid() && Playing(grown) && Kept(grown)
    {
      SameHeap();
      var n := gif.hd.h * gif.hd.w;
      ghost var was := Now();
      hide Valid, Playing, Now, WithinCost;
      ok := HoldFrame(n, if still then n else SIZE_MAX, grantFrame, grown);
      if !ok || !still { return; }
      ghost var held := Now();
      ok := HoldDelay(grantDelay, grown);
      StillWithin(was, held, Now(), grown);
    }

    lemma SameHeap()
      requires Valid()
      ensures frames.heap == delays.heap == data.heap == gif.restore.heap && frames != gif.restore && gif.Valid()
    {
    }

    /** A GIF of one frame: that frame and its delay are kept, everything else goes. */
    method KeepStill()
      requires Valid()
      modifies gif, gif.restore, gif.restore.heap, gif.pool`head, gif.pool`claims, gif.pool.live, gif.pool.workspace, data
      ensures Valid() && !gif.loaded && gif.hd == old(gif.hd) && data.data.Length == 0 && gif.restore.data.Length == 0
      ensures Others() == old(Others()) && gif.restore.heap.peak == old(gif.restore.heap.peak)
      ensures Carried()
    {
      hide MicroGif.Valid, MicroGif.Pooled;
      gif.Unload();
      data.Clear();
    }

    /** Several frames are streamed, a single one is kept, and a GIF without one is none. */
    /** The frames a GIF of this kind is opened with, if it has any. */
    method ShowFound(found: nat, first: Canvas, grantFrame: bool, grantDelay: bool, grants: Grants, ghost grown: nat)
      returns (r: Opened)
      requires Valid() && Playing(grown) && first.Valid() && frames.data.Length == 0 && delays.data.Length == 0
      modifies gif`pos, gif`control, gif`prev, gif.restore, gif.restore.heap, gif.restore.data, first.px
      modifies gif.pool`head, gif.pool`claims, gif.pool.live, gif.pool.workspace, frames, delays
      ensures Valid() && Playing(grown) && Kept(grown)
      ensures Carried()
    {
      NothingSpent(Now(), grown);
      r := Missing;
      hide Valid, Playing, Now, WithinCost;
      if found > 0 { r := Show(first, found == 1, grantFrame, grantDelay, grants, grown); }
    }

    method Load(found: nat, first: Canvas, grantFrame: bool, grantDelay: bool, grants: Grants, ghost grown: nat) returns (r: Opened)
      requires Valid() && Playing(grown) && first.Valid() && frames.data.Length == 0 && delays.data.Length == 0
      modifies gif, gif.restore, gif.restore.heap, gif.restore.data, first.px
      modifies gif.pool`head, gif.pool`claims, gif.pool.live, gif.pool.workspace, data, frames, delays
      ensures Valid() && Kept(grown) && (r != Good ==> Closed())
      ensures r == Good ==> Playing(grown) || (!gif.loaded && data.data.Length == 0)
      ensures Carried()
    {
      hide Valid, Playing, Closed, Now, WithinCost;
      r := ShowFound(found, first, grantFrame, grantDelay, grants, grown);
      Settle(r, found, grown);
    }

    /** What is left open of it. */
    method Settle(r: Opened, found: nat, ghost grown: nat)
      requires Valid() && Playing(grown)
      modifies gif, gif.restore, gif.restore.heap, gif.pool`head, gif.pool`claims, gif.pool.live, gif.pool.workspace
      modifies data, frames, delays
      ensures Valid() && Now() == old(Now())
      ensures r != Good ==> Closed()
      ensures r == Good ==> Playing(grown) || (!gif.loaded && data.data.Length == 0)
      ensures Carried()
    {
      hide Valid, Playing, Closed, Others;
      if r != Good {
        Close();
      } else if found == 1 {
        KeepStill();
      }
    }

    /** Bytes to open, in a block of their own beside whatever the player holds. */
    ghost predicate Offered(bytes: PodBuffer<byte>)
      reads bytes, bytes.data
    {
      && bytes.Valid() && bytes.elem == 1 && bytes.heap == data.heap && bytes != data
      && bytes.data.Length <= Max(16, bytes.size)
    }

    /** The block becomes the player's. */
    method Take(bytes: PodBuffer<byte>)
      requires Valid() && Offered(bytes)
      modifies gif, gif.restore, gif.restore.heap, gif.pool`head, gif.pool`claims, gif.pool.live, gif.pool.workspace
      modifies data, frames, delays, bytes
      ensures Valid() && !gif.loaded && frames.data.Length == 0 && delays.data.Length == 0 && gif.restore.data.Length == 0
      ensures bytes.Valid() && bytes.data.Length == 0 && fresh(gif.restore.data)
      ensures data.data.Length == old(bytes.data.Length) && data.Contents() == old(bytes.Contents())
      ensures Others() == old(Others()) - old(bytes.data.Length) && gif.restore.heap.peak == old(gif.restore.heap.peak)
      ensures gif.pool.workspace.data.Length <= old(gif.pool.workspace.data.Length)
    {
      hide MicroGif.Valid, MicroGif.Pooled, ScratchPool.Valid;
      Close();
      data.MoveFrom(bytes);
    }

    /** And the decoder's, if a header is found in it. */
    method Adopt(bytes: PodBuffer<byte>, width: nat, height: nat, ghost grown: nat) returns (ok: bool)
      requires Valid() && Offered(bytes) && OfSize(bytes.Contents(), width, height)
      requires gif.pool.workspace.data.Length <= grown
      modifies gif, gif.restore, gif.restore.heap, gif.pool`head, gif.pool`claims, gif.pool.live, gif.pool.workspace
      modifies data, frames, delays, bytes
      ensures Valid() && bytes.Valid() && bytes.data.Length == 0 && fresh(gif.restore.data)
      ensures Others() == old(Others()) - old(bytes.data.Length) && gif.restore.heap.peak == old(gif.restore.heap.peak)
      ensures if ok then Playing(grown) && frames.data.Length == 0 && delays.data.Length == 0 else Closed()
      ensures ok ==> gif.hd.data == old(bytes.Contents()) && Px(gif.hd) == Area(width, height)
    {
      SizeFromHeader(bytes.Contents(), width, height);
      ghost var contents := bytes.Contents();
      Take(bytes);
      hide Valid, Closed, Others, Offered, ParseHeader, MicroGif.Valid, MicroGif.Pooled, ScratchPool.Valid, Px, OfSize,
           Header.Valid, Word;
      ok := Start(width, height);
    }

    method OpenBytes(bytes: PodBuffer<byte>, width: nat, height: nat, first: Canvas, grantFrame: bool, grantDelay: bool,
                     grants: Grants, ghost grown: nat)
      returns (r: Opened)
      requires Valid() && Offered(bytes) && OfSize(bytes.Contents(), width, height) && first.Valid()
      requires gif.pool.workspace.data.Length <= grown
      modifies gif, gif.restore, gif.restore.heap, gif.restore.data, first.px
      modifies gif.pool`head, gif.pool`claims, gif.pool.live, gif.pool.workspace, data, frames, delays, bytes
      ensures Valid() && bytes.Valid() && bytes.data.Length == 0
      ensures Others() == old(Others()) - old(bytes.data.Length)
      ensures gif.restore.heap.peak <=
              Max(old(gif.restore.heap.peak), Others() + Cost(old(bytes.size), Area(width, height)) + 2 * grown)
      ensures (r != Good ==> Closed()) && (r == Good ==> Playing(grown) || (!gif.loaded && data.data.Length == 0))
      ensures r == Good && gif.loaded ==> |gif.hd.data| == old(bytes.size) && Px(gif.hd) == Area(width, height)
      ensures Carried()
    {
      hide Valid, Playing, Closed, Others, Cost, Px, MicroGif.Valid, MicroGif.Pooled, ScratchPool.Valid, Count;
      var ok := Adopt(bytes, width, height, grown);
      r := Missing;
      if !ok { return; }
      SameHeap();
      var found := gif.CountFrames(1);
      r := Load(found, first, grantFrame, grantDelay, grants, grown);
    }

    /** The file's bytes if it is a GIF that may be shown, and otherwise none. */
    ghost predicate Tells(r: Opened, bytes: PodBuffer<byte>, width: nat, height: nat, file: seq<byte>, maxWidth: int,
                          maxHeight: int, limit: nat)
      requires bytes.Valid()
      reads bytes, bytes.data
    {
      if r != Good then bytes.data.Length == 0
      else
        && bytes.Contents() == file && Admitted(file, maxWidth, maxHeight, limit)
        && OfSize(file, width, height) && Cost(|file|, Area(width, height)) <= limit
    }

    /** Reads a file whole into a block of its own, and keeps it if it is a GIF that may be shown. */
    method ReadNative(bytes: PodBuffer<byte>, file: seq<byte>, maxWidth: int, maxHeight: int, limit: nat, grant: bool)
      returns (r: Opened, width: nat, height: nat)
      requires bytes.Valid() && bytes.elem == 1 && bytes.heap == data.heap && bytes != data && bytes.data.Length == 0
      modifies bytes, data.heap
      ensures Offered(bytes) && data.heap.live == old(data.heap.live) + bytes.data.Length
      ensures data.heap.peak <= Max(old(data.heap.peak), old(data.heap.live) + limit)
      ensures Tells(r, bytes, width, height, file, maxWidth, maxHeight, limit)
    {
      hide ResidentCost, Signed, Cost, Area;
      r, width, height := Missing, 0, 0;
      if file == [] || |file| > limit { return; }
      var ok := bytes.Resize(|file|, if limit < SIZE_MAX then |file| else SIZE_MAX, grant);
      if !ok { return OutOfMemory, 0, 0; }
      forall i | 0 <= i < |file| { bytes.data[i] := file[i]; }
      assert bytes.data[..bytes.size] == file;
      if Admitted(file, maxWidth, maxHeight, limit) {
        CostOf(|file|, Word(file, 6), Word(file, 8));
        return Good, Word(file, 6), Word(file, 8);
      }
      bytes.Clear();
    }

    /** A closed player, and the file's bytes beside it. */
    method Prepare(file: seq<byte>, maxWidth: int, maxHeight: int, limit: nat, grant: bool)
      returns (r: Opened, bytes: PodBuffer<byte>, width: nat, height: nat)
      requires Valid()
      modifies gif, gif.restore, gif.restore.heap, gif.pool`head, gif.pool`claims, gif.pool.live, gif.pool.workspace
      modifies data, frames, delays
      ensures Valid() && Closed() && fresh(gif.restore.data) && fresh(bytes) && Offered(bytes)
      ensures Others() == old(Others()) + bytes.data.Length
      ensures gif.restore.heap.peak <=
              Max(old(gif.restore.heap.peak), old(Others()) + limit + 2 * old(gif.pool.workspace.data.Length))
      ensures gif.pool.workspace.data.Length <= old(gif.pool.workspace.data.Length) && gif.pool.live == old(gif.pool.live)
      ensures Tells(r, bytes, width, height, file, maxWidth, maxHeight, limit)
    {
      SameHeap();
      hide Valid, Closed, Tells, MicroGif.Valid, MicroGif.Pooled, ScratchPool.Valid;
      Close();
      bytes := new PodBuffer<byte>(data.heap, 1);
      r, width, height := ReadNative(bytes, file, maxWidth, maxHeight, limit, grant);
    }

    /** Opens a file as a page icon that may take `limit` bytes; beside them only the workspace it found counts. */
    method OpenNative(file: seq<byte>, maxWidth: int, maxHeight: int, limit: nat, first: Canvas, grantBytes: bool,
                      grantFrame: bool, grantDelay: bool, grants: Grants)
      returns (r: Opened)
      requires Valid() && first.Valid()
      modifies gif, gif.restore, gif.restore.heap, gif.restore.data, first.px
      modifies gif.pool`head, gif.pool`claims, gif.pool.live, gif.pool.workspace, data, frames, delays
      ensures Valid() && Others() == old(Others())
      ensures gif.restore.heap.peak <=
              Max(old(gif.restore.heap.peak), old(Others()) + limit + 2 * old(gif.pool.workspace.data.Length))
      ensures r != Good ==> Closed()
      ensures r == Good ==> Admitted(file, maxWidth, maxHeight, limit)
      ensures r == Good ==> Playing(old(gif.pool.workspace.data.Length)) || (!gif.loaded && data.data.Length == 0)
      ensures r == Good && gif.loaded ==> Cost(|gif.hd.data|, Px(gif.hd)) <= limit
      ensures Carried()
    {
      hide Valid, Closed, Others, Playing, Cost, Px, MicroGif.Valid, MicroGif.Pooled, ScratchPool.Valid, Admitted, OfSize;
      ghost var grown := gif.pool.workspace.data.Length;
      var bytes, width, height;
      r, bytes, width, height := Prepare(file, maxWidth, maxHeight, limit, grantBytes);
      if r != Good { return; }
      r := OpenBytes(bytes, width, height, first, grantFrame, grantDelay, grants, grown);
    }

    /** Any run of calls. */
    method Play(dst: Canvas, turns: seq<(bool, Grants)>, ghost grown: nat)
      requires Valid() && Playing(grown) && dst.Valid()
      modifies gif`pos, gif`control, gif`prev, gif.restore, gif.restore.heap, gif.restore.data, dst.px
      modifies gif.pool`head, gif.pool`claims, gif.pool.live, gif.pool.workspace
      ensures Valid() && Playing(grown) && Kept(grown)
    {
      hide Valid, Playing, Closed, Now, WithinCost;
      ghost var was := Now();
      NothingSpent(was, grown);
      for k := 0 to |turns|
        invariant Valid() && Playing(grown) && WithinCost(was, Now(), grown)
        invariant Carried()
      {
        ghost var then_ := Now();
        var _, _ := Advance(dst, turns[k].0, turns[k].1, grown);
        StillWithin(was, then_, Now(), grown);
      }
    }

    /**
     From the file to any number of frames: neither while it is opened nor in any run of calls behind that is more on
     the heap than the icon was admitted with; a workspace other decoders have grown before counts beside it.
     */
    method ShowNative(file: seq<byte>, maxWidth: int, maxHeight: int, limit: nat, dst: Canvas, grantBytes: bool,
                      grantFrame: bool, grantDelay: bool, grants: Grants, turns: seq<(bool, Grants)>)
      returns (r: Opened)
      requires Valid() && dst.Valid()
      modifies gif, gif.restore, gif.restore.heap, gif.restore.data, dst.px
      modifies gif.pool`head, gif.pool`claims, gif.pool.live, gif.pool.workspace, data, frames, delays
      ensures Valid() && Others() == old(Others())
      ensures gif.restore.heap.peak <=
              Max(old(gif.restore.heap.peak), old(Others()) + limit + 2 * old(gif.pool.workspace.data.Length))
      ensures r == Good ==> Admitted(file, maxWidth, maxHeight, limit)
    {
      hide Valid, Closed, Others, Playing, Cost, Px, MicroGif.Valid, MicroGif.Pooled, ScratchPool.Valid, Admitted;
      ghost var grown := gif.pool.workspace.data.Length;
      r := OpenNative(file, maxWidth, maxHeight, limit, dst, grantBytes, grantFrame, grantDelay, grants);
      if r != Good || !gif.loaded { return; }
      StillOpen(grown);
      Play(dst, turns, grown);
    }

    lemma StillOpen(grown: nat)
      requires Playing(grown) || !gif.loaded
      ensures gif.loaded ==> Playing(grown)
    {
    }
  }
}
