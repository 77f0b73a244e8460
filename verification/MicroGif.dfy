/** The streaming GIF decoder and the canvas it draws on. */
module GifDecoder {
  import opened Bits
  import opened Lzw
  import opened LzwTables
  import opened Interlace
  import opened PodBuffers
  import opened Gif
  import opened Canvases
  import opened ScratchPools
  import opened Options

  function Entries(npix: nat, m: nat): nat
    requires CodeSize(m)
  {
    CodeSizeBounds(m);
    if npix < MAX_SLOTS - Initial(m) then npix else MAX_SLOTS - Initial(m)
  }

  /** Two-byte words of one allocation for prefixes, suffixes, stack and indices. */
  function ScratchWords(npix: nat, m: nat): nat
    requires CodeSize(m)
  {
    (3 * Entries(npix, m) + Min(npix, MAX_SLOTS) + npix + 1) / 2
  }

  /** What the pool answers to the call that would decode this image. */
  function Served(up: Option<Descriptor>, size: nat, grants: Grants): Grants
    requires up.Some? ==> CodeSize(up.value.codeSize)
  {
    if up.Some? then Grants(Serves(size, WordsFor(up.value), grants.scratch), grants.restore) else Grants(true, grants.restore)
  }

  function WordsFor(d: Descriptor): nat
    requires CodeSize(d.codeSize)
  {
    ScratchWords(d.h * d.w, d.codeSize)
  }

  /** The workspace's size behind that call. */
  function SizeBehind(up: Option<Descriptor>, size: nat, grants: Grants): nat
    requires up.Some? ==> CodeSize(up.value.codeSize)
  {
    if up.Some? then SizeAfter(size, WordsFor(up.value), grants.scratch) else size
  }

  /**
   The tables of one frame's decoding, no larger than the frame needs: a pixel adds at most one entry,
   and the format has no more than 4096 codes.
   */
  class LzwScratch {
    const initial: nat
    const slots: nat
    const stackSize: nat
    const prefix: array<int>
    const suffix: array<byte>
    const stack: array<byte>
    const index: array<byte>

    /** The tables lie side by side in `words` two-byte words. */
    constructor (npix: nat, m: nat, words: nat)
      requires CodeSize(m) && ScratchWords(npix, m) <= words
      ensures For(m, npix) && 2 * prefix.Length + suffix.Length + stack.Length + index.Length <= 2 * words
      ensures fresh(prefix) && fresh(suffix) && fresh(stack) && fresh(index)
    {
      CodeSizeBounds(m);
      initial := Initial(m);
      slots := if npix < MAX_SLOTS - Initial(m) then npix + Initial(m) else MAX_SLOTS;
      stackSize := if npix < MAX_SLOTS then npix else MAX_SLOTS;
      var entries := (if npix < MAX_SLOTS - Initial(m) then npix + Initial(m) else MAX_SLOTS) - Initial(m);
      prefix := new int[entries];
      suffix := new byte[entries];
      stack := new byte[if npix < MAX_SLOTS then npix else MAX_SLOTS];
      index := new byte[npix];
    }

    ghost predicate For(m: nat, npix: nat) {
      && CodeSize(m) && initial == Initial(m)
      && slots == (if npix < MAX_SLOTS - Initial(m) then npix + Initial(m) else MAX_SLOTS)
      && stackSize == Min(npix, MAX_SLOTS)
      && prefix.Length == suffix.Length == slots - initial && stack.Length == stackSize && index.Length == npix
      && suffix != stack && suffix != index && stack != index
    }
  }

  /** The code bytes still to come and where the reader ends up, whatever is left of the sub-block. */
  ghost function Rest(data: seq<byte>, pos: nat, left: nat, terminated: bool): seq<byte> {
    if terminated then [] else Payload(data, pos, left)
  }

  ghost function Final(data: seq<byte>, pos: nat, left: nat, terminated: bool): nat {
    if terminated then pos else ChainEnd(data, pos, left)
  }

  /** The bit buffer holds exactly these bits, and they fit its 32 bits. */
  ghost predicate Buffered(bitBuf: nat, bitCnt: nat, bits: seq<bool>) {
    |bits| == bitCnt && bitBuf == Val(bits)
  }

  class MicroGif {
    // The input and what its header says; valid while `loaded`.
    var loaded: bool
    var hd: Header
    var pos: nat
    var control: Control
    // The frame on screen: how, and over which rectangle, the next call must undo it.
    var prev: Shown
    const restore: PodBuffer<rgb>
    // The workspace all decoders share, and this one's claim on it.
    const pool: ScratchPool
    const claim: ScratchClaim

    constructor (pool: ScratchPool)
      requires pool.Valid()
      modifies pool`live
      ensures Valid() && Pooled() && !loaded && this.pool == pool && fresh(claim) && pool.live == old(pool.live) + {claim}
      ensures fresh(restore) && restore.heap == pool.workspace.heap && restore.data.Length == 0 && fresh(restore.data)
      ensures pool.claims == old(pool.claims) && claim.words == 0
    {
      this.pool := pool;
      claim := new ScratchClaim();
      loaded, hd := false, Header([], 0, 0, 0, 0, 0, 0, 0, 0);
      pos, control, prev := 0, NO_CONTROL, NOTHING_SHOWN;
      restore := new PodBuffer<rgb>(pool.workspace.heap, 4);
      new;
      pool.Register(claim);
    }

    ghost predicate Pooled()
      reads pool, pool.live, pool.workspace
    {
      pool.Valid() && claim in pool.live && pool.workspace.heap == restore.heap
    }

    ghost predicate Valid()
      reads this, restore
    {
      && restore.Valid() && restore.elem == 4
      && (loaded ==> hd.Valid() && control.disposal <= 3 && -1 <= control.transparent < 256)
    }

    ghost function St(): State
      requires restore.Valid()
      reads this, restore, restore.data
    {
      State(pos, control, prev, restore.Contents(), restore.data.Length)
    }

    /** The restore buffer's growth is what the heap saw: at its peak the old block and the new one. */
    twostate predicate Accounted()
      reads this, restore, restore.heap
    {
      && restore.heap.live == old(restore.heap.live) + (restore.data.Length - old(restore.data.Length)) * 4
      && restore.heap.peak <= (if restore.data.Length == old(restore.data.Length) then old(restore.heap.peak)
                               else Max(old(restore.heap.peak), old(restore.heap.live) + restore.data.Length * 4))
    }

    /** With the workspace: its block is exchanged first, then the restore buffer's. */
    twostate predicate AllAccounted()
      reads this, restore, restore.heap, pool.workspace
    {
      var claimed := old(restore.heap.live) + (pool.workspace.data.Length - old(pool.workspace.data.Length)) * 2;
      && restore.heap.live == claimed + (restore.data.Length - old(restore.data.Length)) * 4
      && restore.heap.peak <= Max(old(restore.heap.peak),
                                  if restore.data.Length == old(restore.data.Length) then claimed
                                  else claimed + restore.data.Length * 4)
    }

    method ReadByte() returns (b: int)
      modifies this`pos
      ensures if old(pos) < |hd.data| then b == hd.data[old(pos)] && pos == old(pos) + 1 else b == -1 && pos == old(pos)
    {
      if pos >= |hd.data| { return -1; }
      b := hd.data[pos];
      pos := pos + 1;
    }

    method ReadWord() returns (v: int)
      modifies this`pos
      ensures old(pos) + 2 <= |hd.data| ==> v == Word(hd.data, old(pos)) && pos == old(pos) + 2
      ensures old(pos) + 2 > |hd.data| ==> v == -1 && old(pos) <= pos && (old(pos) <= |hd.data| ==> pos == |hd.data|)
    {
      var b0 := ReadByte();
      var b1 := ReadByte();
      v := if b0 < 0 || b1 < 0 then -1 else b1 * 256 + b0;
    }

    method SkipSubBlocks() returns (ok: bool)
      modifies this`pos
      ensures ok <==> Skip(hd.data, old(pos)).Some?
      ensures ok ==> Skip(hd.data, old(pos)) == Some(pos)
    {
      ghost var target := Skip(hd.data, pos);
      while true
        invariant Skip(hd.data, pos) == target
        decreases |hd.data| - pos
      {
        var size := ReadByte();
        if size < 0 { return false; }
        if size == 0 { return true; }
        pos := pos + size;
        if pos > |hd.data| { return false; }
      }
    }

    /** Reads the header; a later fault leaves the decoder unloaded. */
    method Begin(bytes: seq<byte>, maxWidth: int, maxHeight: int) returns (ok: bool)
      requires Valid() && Pooled()
      modifies this, restore, restore.heap, pool`head, pool`claims, pool.live, pool.workspace
      ensures Valid() && Pooled() && ok == loaded == ParseHeader(bytes, maxWidth, maxHeight).Some?
      ensures ok ==> ParseHeader(bytes, maxWidth, maxHeight) == Some(hd) && St() == Rewound(hd, 0)
      ensures restore.data.Length == 0 && fresh(restore.data) && claim.words == 0 && pool.live == old(pool.live)
      ensures pool.claims == Removed(old(pool.claims), claim)
      ensures pool.workspace.size == old(pool.workspace.size) || pool.workspace.size == 0
      ensures pool.workspace.data.Length <= old(pool.workspace.data.Length)
      ensures restore.heap.live == old(restore.heap.live) - old(restore.data.Length) * 4
                                   + (pool.workspace.data.Length - old(pool.workspace.data.Length)) * 2
      ensures restore.heap.peak == old(restore.heap.peak)
    {
      hide ParseHeader, NewCap, ResizedCap, CanResize, Limit, Pooled, Removed;
      Unload();
      ok := LoadHeader(bytes, maxWidth, maxHeight);
      if ok {
        loaded := true;
        Rewind();
      }
    }

    /** As it was constructed: without a buffer, without a claim. */
    method Unload()
      requires Valid() && Pooled()
      modifies this, restore, restore.heap, pool`head, pool`claims, pool.live, pool.workspace
      ensures hd == old(hd)
      ensures Valid() && Pooled() && !loaded && pos == 0 && control == NO_CONTROL && prev == NOTHING_SHOWN
      ensures restore.data.Length == 0 && fresh(restore.data) && claim.words == 0 && pool.live == old(pool.live)
      ensures pool.claims == Removed(old(pool.claims), claim)
      ensures pool.workspace.size == old(pool.workspace.size) || pool.workspace.size == 0
      ensures pool.workspace.data.Length <= old(pool.workspace.data.Length)
      ensures restore.heap.live == old(restore.heap.live) - old(restore.data.Length) * 4
                                   + (pool.workspace.data.Length - old(pool.workspace.data.Length)) * 2
      ensures restore.heap.peak == old(restore.heap.peak)
    {
      hide Removed;
      restore.Clear();
      pool.Release(claim);
      loaded := false;
      Reset(0);
    }

    method LoadHeader(bytes: seq<byte>, maxWidth: int, maxHeight: int) returns (ok: bool)
      modifies this`hd, this`pos
      ensures ok <==> ParseHeader(bytes, maxWidth, maxHeight).Some?
      ensures ok ==> ParseHeader(bytes, maxWidth, maxHeight) == Some(hd)
    {
      hide Fits, Word, TableColors, Pow2, Signed;
      if |bytes| < 13 || maxWidth <= 0 || maxHeight <= 0 { return false; }
      if !Signed(bytes) { return false; }
      hd := hd.(data := bytes);
      var lw, lh, packed, bg := ReadScreen();
      if lw <= 0 || lh <= 0 || packed < 0 { return false; }
      var maxW := if maxWidth < 65535 then maxWidth else 65535;
      var maxH := if maxHeight < 65535 then maxHeight else 65535;
      var w := if lw < maxW then lw else maxW;
      var h := if lh < maxH then lh else maxH;
      if !Fits(w, h) { return false; }
      var colors, palette;
      ok, colors, palette := TakePalette(packed);
      if ok { hd := Header(bytes, pos, w, h, maxW, maxH, bg, colors, palette); }
    }

    /** The logical screen descriptor behind the signature. */
    method ReadScreen() returns (lw: int, lh: int, packed: int, bg: int)
      requires |hd.data| >= 13
      modifies this`pos
      ensures lw == Word(hd.data, 6) && lh == Word(hd.data, 8) && packed == hd.data[10] && bg == hd.data[11] && pos == 13
    {
      pos := 6;
      lw := ReadWord();
      lh := ReadWord();
      packed := ReadByte();
      bg := ReadByte();
      var _ := ReadByte();
    }

    /** Steps over the colour table the packed field announces, if any. */
    method TakePalette(packed: byte) returns (fits: bool, colors: nat, palette: nat)
      requires pos <= |hd.data|
      modifies this`pos
      ensures colors == TableColors(packed) && palette == old(pos)
      ensures fits <==> old(pos) + 3 * colors <= |hd.data|
      ensures fits ==> pos == old(pos) + 3 * colors
    {
      fits, colors, palette := true, 0, pos;
      if packed >= 0x80 {
        colors := Pow2(packed % 8 + 1);
        if pos + colors * 3 > |hd.data| { return false, colors, palette; }
        pos := pos + colors * 3;
      }
    }

    method Reset(at: nat)
      modifies this`pos, this`control, this`prev
      ensures pos == at && control == NO_CONTROL && prev == NOTHING_SHOWN
    {
      pos, control, prev := at, NO_CONTROL, NOTHING_SHOWN;
    }

    method Rewind()
      requires Valid() && loaded
      modifies this`pos, this`control, this`prev, restore, restore.heap
      ensures Valid() && restore.data == old(restore.data) && St() == Rewound(hd, restore.data.Length)
      ensures restore.heap.live == old(restore.heap.live) && restore.heap.peak == old(restore.heap.peak)
    {
      Reset(hd.first);
      var _ := restore.Resize(0, SIZE_MAX, false);
    }

    /** Takes the next frame's control from the extension's first four bytes and steps over what follows them. */
    method ParseGce() returns (ok: bool)
      requires Valid() && loaded
      modifies this`pos, this`control
      ensures Valid() && (ok <==> ParseControl(hd.data, old(pos)).Some?)
      ensures ok ==> ParseControl(hd.data, old(pos)) == Some((control, pos))
    {
      hide Skip, Word, Fits;
      var size := ReadByte();
      if size < 4 { return false; }
      var body := pos;
      var packed := ReadByte();
      var delay := ReadWord();
      var tci := ReadByte();
      if packed < 0 || delay < 0 || tci < 0 { return false; }
      var disposal := packed / 4 % 8;
      if disposal > 3 { disposal := 0; }
      control := Control(if packed % 2 == 1 then tci else -1, disposal, delay * 10);
      pos := body + size;
      if pos > |hd.data| { return false; }
      ok := SkipSubBlocks();
    }

    /** Steps over a chain from `at`, as `CountFrames` does without moving the decoder. */
    method SkipBlocks(start: nat) returns (ok: bool, at: nat)
      requires start <= |hd.data|
      ensures ok <==> Skip(hd.data, start).Some?
      ensures ok ==> Skip(hd.data, start) == Some(at)
      ensures start <= at <= |hd.data|
    {
      ok, at := false, start;
      while at < |hd.data|
        invariant start <= at <= |hd.data| && Skip(hd.data, at) == Skip(hd.data, start) && !ok
        decreases |hd.data| - at
      {
        var n := hd.data[at];
        at := at + 1;
        if n == 0 {
          ok := true;
          return;
        }
        if n > |hd.data| - at { return; }
        at := at + n;
      }
    }

    /** Frame descriptors that are structurally valid, counted without decoding and no further than needed. */
    method CountFrames(limit: int) returns (count: nat)
      requires Valid()
      ensures count == if loaded then Min(Count(hd, hd.first), Max(limit, 0) + 1) else 0
    {
      count := 0;
      var at := hd.first;
      if !loaded { return; }
      hide Count, AfterChain, Skip, Describe, Fits;
      var going := true;
      while at < |hd.data| && going
        invariant at <= |hd.data| && (count == 0 || count <= limit)
        invariant going ==> count + Count(hd, at) == Count(hd, hd.first)
        invariant !going ==> count == Count(hd, hd.first)
        decreases |hd.data| - at, going
      {
        var head;
        head, at := BlockHead(at);
        if head == Fault { break; }
        if head == ImageBlock {
          count := count + 1;
          if count > limit { break; }
        }
        ChainCounts(hd, at);
        going, at := SkipBlocks(at);
      }
      if at >= |hd.data| && going { CountsNothing(hd, at); }
    }

    /** The front of a block up to its sub-block chain. */
    method BlockHead(start: nat) returns (head: BlockHeads, at: nat)
      requires Valid() && loaded && start < |hd.data|
      ensures start < at <= |hd.data|
      ensures Count(hd, start) == match head
                                    case Fault => 0
                                    case Extension => AfterChain(hd, at)
                                    case ImageBlock => 1 + AfterChain(hd, at)
    {
      hide Skip, Describe;
      var tag := hd.data[start];
      at := start + 1;
      head := Fault;
      if tag == 0x21 {
        if at == |hd.data| { return; }
        at := at + 1;
        head := Extension;
      } else if tag == 0x2C {
        var valid, size := ScanDescriptor(at);
        if !valid { return; }
        at := size + 1;
        head := ImageBlock;
      }
    }

    /** The checks on one image descriptor; `size` is where its minimum code size stands. */
    method ScanDescriptor(start: nat) returns (valid: bool, size: nat)
      requires Valid() && loaded && start <= |hd.data|
      ensures valid <==> Describe(hd, start).Some?
      ensures valid ==> size + 1 == Describe(hd, start).value.at
    {
      size := start;
      if |hd.data| - size < 9 { return false, size; }
      var fw, fh, packed := Word(hd.data, size + 4), Word(hd.data, size + 6), hd.data[size + 8];
      if fw > hd.maxW || fh > hd.maxH || !Fits(fw, fh) { return false, size; }
      hide Fits, Pow2, Word;
      size := size + 9;
      if packed >= 0x80 {
        var bytes := Pow2(packed % 8 + 1) * 3;
        if bytes > |hd.data| - size { return false, size; }
        size := size + bytes;
      }
      valid := !(size == |hd.data| || hd.data[size] < 1 || hd.data[size] > 8);
    }

    /** Reads the image descriptor, a local colour table and the minimum code size. */
    method ReadDescriptor() returns (ok: bool, d: Descriptor)
      requires Valid() && loaded
      modifies this`pos
      ensures ok <==> Describe(hd, old(pos)).Some?
      ensures ok ==> Describe(hd, old(pos)) == Some(d) && pos == d.at
    {
      hide Fits, Pow2, Word;
      ok, d := false, Descriptor(0, 0, 0, 0, false, 0, 0, 0, 0);
      var fx := ReadWord();
      var fy := ReadWord();
      var fw := ReadWord();
      var fh := ReadWord();
      var packed := ReadByte();
      if fx < 0 || fy < 0 || fw <= 0 || fh <= 0 || packed < 0 { return; }
      if fw > hd.maxW || fh > hd.maxH || !Fits(fw, fh) { return; }
      var pal, colors := hd.palette, hd.colors;
      if packed >= 0x80 {
        colors := Pow2(packed % 8 + 1);
        if pos + colors * 3 > |hd.data| { return; }
        pal := pos;
        pos := pos + colors * 3;
      }
      var minCodeSize := ReadByte();
      if minCodeSize < 1 || minCodeSize > 8 { return; }
      ok, d := true, Descriptor(fx, fy, fw, fh, packed / 0x40 % 2 == 1, colors, pal, minCodeSize, pos);
    }

    /** One byte of the chain's payload, whichever sub-block holds it; -1 behind the last. */
    method NextByte(blockLeft: nat, ended: bool) returns (b: int, left: nat, terminated: bool)
      requires pos <= |hd.data|
      modifies this`pos
      ensures pos <= |hd.data|
      ensures var rest := old(Rest(hd.data, pos, blockLeft, ended));
              if rest == [] then b == -1 && terminated
              else b == rest[0] && !terminated && Rest(hd.data, pos, left, terminated) == rest[1..]
      ensures Final(hd.data, pos, left, terminated) == old(Final(hd.data, pos, blockLeft, ended))
    {
      left, terminated := blockLeft, ended;
      if terminated { return -1, left, terminated; }
      while left == 0
        invariant pos <= |hd.data| && !terminated
        invariant Payload(hd.data, pos, left) == old(Payload(hd.data, pos, blockLeft))
        invariant ChainEnd(hd.data, pos, left) == old(ChainEnd(hd.data, pos, blockLeft))
        decreases |hd.data| - pos
      {
        if pos >= |hd.data| { return -1, left, true; }
        left := hd.data[pos];
        pos := pos + 1;
        if left == 0 { return -1, left, true; }
      }
      if pos >= |hd.data| { return -1, left, true; }
      left := left - 1;
      b := hd.data[pos];
      pos := pos + 1;
    }

    /** Fills the bit buffer up to one code; `enough` is false when the stream ends first. */
    method PullBits(codeSize: nat, buf: nat, cnt: nat, blockLeft: nat, ended: bool, ghost held: seq<bool>)
      returns (enough: bool, bitBuf: nat, bitCnt: nat, left: nat, terminated: bool, ghost bits: seq<bool>)
      requires pos <= |hd.data| && 0 < codeSize <= MAX_WIDTH && Buffered(buf, cnt, held)
      modifies this`pos
      ensures pos <= |hd.data| && Buffered(bitBuf, bitCnt, bits)
      ensures bitCnt <= cnt || bitCnt <= codeSize + 7
      ensures bits + BitsOf(Rest(hd.data, pos, left, terminated)) == held + BitsOf(old(Rest(hd.data, pos, blockLeft, ended)))
      ensures Final(hd.data, pos, left, terminated) == old(Final(hd.data, pos, blockLeft, ended))
      ensures enough <==> bitCnt >= codeSize
      ensures enough <==> |held + BitsOf(old(Rest(hd.data, pos, blockLeft, ended)))| >= codeSize
      ensures !enough ==> terminated
    {
      bitBuf, bitCnt, left, terminated, bits := buf, cnt, blockLeft, ended, held;
      while bitCnt < codeSize
        invariant pos <= |hd.data| && Buffered(bitBuf, bitCnt, bits)
        invariant bitCnt <= cnt || bitCnt <= codeSize + 7
        invariant bits + BitsOf(Rest(hd.data, pos, left, terminated)) == held + BitsOf(old(Rest(hd.data, pos, blockLeft, ended)))
        invariant Final(hd.data, pos, left, terminated) == old(Final(hd.data, pos, blockLeft, ended))
        decreases codeSize - bitCnt
      {
        ghost var rest := Rest(hd.data, pos, left, terminated);
        var b;
        b, left, terminated := NextByte(left, terminated);
        if b < 0 {
          assert BitsOf(rest) == [] && bits + [] == bits;
          return false, bitBuf, bitCnt, left, terminated, bits;
        }
        AddByte(bits, rest);
        bitBuf := bitBuf + b * Pow2(bitCnt);
        bitCnt := bitCnt + 8;
        bits := bits + ByteBits(b);
      }
      enough := true;
    }

    /** Follows the links of a known code down to its literal, pushing one pixel a link. */
    static method Unwind(s: LzwScratch, m: nat, ghost npix: nat, ghost dict: seq<seq<byte>>, code: int, nextSlot: nat,
                         height: nat, ghost text: seq<byte>)
      returns (good: bool, top: nat, first: int)
      requires s.For(m, npix) && Linked(m, s.prefix[..], s.suffix[..], dict)
      requires nextSlot == Initial(m) + |dict| <= s.slots && PointsBack(m, code, |dict|)
      requires height < |text| <= s.stackSize && StringOf(m, dict, code) == text[..|text| - height]
      requires forall i :: 0 <= i < height ==> s.stack[i] == text[|text| - 1 - i]
      requires forall k :: 0 <= k < |dict| ==> dict[k] != []
      modifies s.stack
      ensures good && Stacked(s.stack[..], top, text) && first == text[0]
    {
      CodeSizeBounds(m);
      var clearCode, endCode := Pow2(m), Pow2(m) + 1;
      var c := code;
      good, top, first := true, height, code;
      ghost var prefix, suffix, rest := s.prefix[..], s.suffix[..], text[..|text| - height];
      assert s.prefix.Length == s.suffix.Length == s.slots - s.initial && s.stack.Length == s.stackSize;
      assert clearCode == ClearCode(m) && endCode + 1 == Initial(m) == s.initial;
      assert Unwound(s.stack[..], top, rest, text);
      hide *;
      while good && c >= endCode + 1
        invariant good && top + |rest| == |text| && PointsBack(m, c, |dict|)
        invariant StringOf(m, dict, c) == rest && Unwound(s.stack[..], top, rest, text)
        decreases c
      {
        Link(m, prefix, suffix, dict, c, rest);
        if c >= nextSlot || c >= s.slots || top >= s.stackSize {
          good := false;
        } else {
          UnwindStep(s.stack[..], top, rest, text);
          s.stack[top] := s.suffix[c - s.initial];
          top := top + 1;
          c := s.prefix[c - s.initial];
          rest := rest[..|rest| - 1];
        }
      }
      Literal(m, dict, c);
      if c >= clearCode || top >= s.stackSize {
        good := false;
      } else {
        UnwindStep(s.stack[..], top, rest, text);
        AllUnwound(s.stack[..][top := c as byte], text);
        first := c;
        s.stack[top] := c;
        top := top + 1;
      }
    }

    /** Expands a code onto the stack, last pixel first. Its guards refuse nothing the format allows. */
    static method Expand(s: LzwScratch, m: nat, ghost npix: nat, ghost st: Reference, code: nat, nextSlot: nat,
                         prev: int, lastFirst: byte)
      returns (good: bool, top: nat, first: int)
      requires s.For(m, npix) && Linked(m, s.prefix[..], s.suffix[..], st.dict)
      requires WellFormed(m, st) && Bounded(m, st) && |st.out| < npix
      requires nextSlot == Initial(m) + |st.dict| && Remembers(m, st, prev, lastFirst)
      requires code < MAX_SLOTS && code != ClearCode(m) && code != EndCode(m)
      modifies s.stack
      ensures good <==> Apply(m, npix, st, code).Next?
      ensures good ==> Stacked(s.stack[..], top, TextOf(m, st, code)) && first == TextOf(m, st, code)[0]
    {
      if code > nextSlot || (code == nextSlot && prev < 0) { return false, 0, 0; }
      ghost var text := TextOf(m, st, code);
      TextFits(m, npix, st, code);
      SlotFree(m, npix, st);
      hide Apply, Linked;
      if code == nextSlot {
        // The code about to be defined: the last string, and its own first pixel behind it.
        s.stack[0] := lastFirst;
        assert text[..|text| - 1] == st.prev;
        good, top, first := Unwind(s, m, npix, st.dict, prev, nextSlot, 1, text);
      } else {
        assert text[..|text| - 0] == text;
        good, top, first := Unwind(s, m, npix, st.dict, code, nextSlot, 0, text);
      }
    }

    /** Pops the stack into the frame, dropping what the frame has no room for. */
    static method Pop(s: LzwScratch, m: nat, npix: nat, height: nat, done: nat, ghost out: seq<byte>, ghost text: seq<byte>)
      returns (produced: nat)
      requires s.For(m, npix) && Stacked(s.stack[..], height, text)
      requires done == |out| <= npix && s.index[..done] == out
      modifies s.index
      ensures produced <= npix && s.index[..produced] == Emit(out, text, npix)
    {
      var sp := height;
      produced := done;
      while sp > 0 && produced < npix
        invariant 0 <= sp <= height && done <= produced <= npix && produced - done == height - sp
        invariant s.index[..done] == out
        invariant forall i :: 0 <= i < height - sp ==> s.index[done + i] == text[i]
        decreases sp
      {
        sp := sp - 1;
        s.index[produced] := s.stack[sp];
        produced := produced + 1;
      }
      assert s.index[..produced] == out + text[..produced - done];
      assert text[..|text|] == text;
    }

    /** One code: expand it, define the next entry, put the pixels out. */
    static method TakeCode(s: LzwScratch, m: nat, npix: nat, ghost st: Reference, code: nat, codeSize0: nat,
                           nextSlot0: nat, prev: int, first0: byte, done: nat)
      returns (good: bool, codeSize: nat, nextSlot: nat, first: int, produced: nat)
      requires s.For(m, npix) && WellFormed(m, st) && Bounded(m, st) && |st.out| < npix
      requires Holds(s, m, st, codeSize0, nextSlot0, prev, first0, done)
      requires code < MAX_SLOTS && code != ClearCode(m) && code != EndCode(m)
      modifies s.stack, s.prefix, s.suffix, s.index
      ensures good <==> Apply(m, npix, st, code).Next?
      ensures good ==> 0 <= first < 256
      ensures good ==> Holds(s, m, Apply(m, npix, st, code).st, codeSize, nextSlot, code, first, produced)
    {
      var top;
      codeSize, nextSlot, produced := codeSize0, nextSlot0, done;
      good, top, first := Expand(s, m, npix, st, code, nextSlot, prev, first0);
      if !good { return; }
      ghost var text := TextOf(m, st, code);
      TextFits(m, npix, st, code);
      SlotFree(m, npix, st);
      ghost var st' := Apply(m, npix, st, code).st;
      ghost var prefix, suffix := s.prefix[..], s.suffix[..];
      if prev >= 0 && nextSlot < s.slots {
        s.prefix[nextSlot - s.initial] := prev;
        s.suffix[nextSlot - s.initial] := first;
        assert s.prefix[..] == prefix[|st.dict| := prev] && s.suffix[..] == suffix[|st.dict| := text[0]];
        LinkedGrows(m, prefix, suffix, st.dict, s.prefix[..], s.suffix[..], prev, text[0]);
        nextSlot := nextSlot + 1;
        if nextSlot == Pow2(codeSize) && codeSize < 12 {
          codeSize := codeSize + 1;
        }
      }
      produced := Pop(s, m, npix, top, done, st.out, text);
      LastString(m, npix, st, code);
    }

    /** Walks out the sub-blocks that were not read, to the next block header or the end of the data. */
    method SkipRest(left: nat, terminated: bool)
      requires pos <= |hd.data|
      modifies this`pos
      ensures pos == old(Final(hd.data, pos, left, terminated)) <= |hd.data|
    {
      if !terminated {
        ChainEndSkips(hd.data, pos, left);
        ghost var end := ChainEnd(hd.data, pos, left);
        pos := pos + left;
        while pos < |hd.data|
          invariant ChainEnd(hd.data, pos, 0) == end && (pos < |hd.data| || end == |hd.data|)
          decreases |hd.data| - pos
        {
          var size := hd.data[pos];
          pos := pos + 1;
          if size == 0 { break; }
          ChainEndSkips(hd.data, pos, size);
          pos := pos + size;
        }
      }
      if pos > |hd.data| { pos := |hd.data|; }
    }

    /** The missing tail of a truncated frame. */
    static method FillTail(s: LzwScratch, npix: nat, produced: nat, fill: byte, ghost out: seq<byte>)
      requires produced == |out| <= npix == s.index.Length && s.index[..produced] == out
      modifies s.index
      ensures s.index[..] == Lzw.Fill(out, npix, fill)
    {
      forall i | produced <= i < npix { s.index[i] := fill; }
    }

    /** What a code does to the tables and the frame. */
    static method ActOn(m: nat, s: LzwScratch, npix: nat, code: nat, c: Cursor, ghost st: Reference)
      returns (go: Progress, c': Cursor, ghost st': Reference)
      requires s.For(m, npix) && WellFormed(m, st) && Bounded(m, st) && |st.out| < npix && code < Pow2(c.codeSize)
      requires Holds(s, m, st, c.codeSize, c.nextSlot, c.prev, c.first, c.produced)
      modifies s.stack, s.prefix, s.suffix, s.index
      ensures c'.bitBuf == c.bitBuf && c'.bitCnt == c.bitCnt && c'.left == c.left && c'.terminated == c.terminated
      ensures Apply(m, npix, st, code) == match go case Impossible => Bad case Finished => Stop case More => Next(st')
      ensures go != Impossible ==>
                && WellFormed(m, st') && |st'.out| <= npix && (|st'.out| < npix ==> Bounded(m, st'))
                && Holds(s, m, st', c'.codeSize, c'.nextSlot, c'.prev, c'.first, c'.produced)
      ensures go == Finished ==> st' == st
    {
      CodeSizeBounds(m);
      var clearCode, endCode := Pow2(m), Pow2(m) + 1;
      c', st' := c, st;
      CodeBelow4096(c.codeSize, code);
      FreshHolds(s, m, npix, st, c.first);
      hide Apply, Linked, Bounded, Pow2, Remembers;
      if code == clearCode {
        c' := c.(codeSize := m + 1, nextSlot := endCode + 1, prev := -1);
        st' := Fresh(m, st.out);
        go := More;
      } else if code == endCode {
        go := Finished;
      } else {
        var good, codeSize, nextSlot, first, produced :=
          TakeCode(s, m, npix, st, code, c.codeSize, c.nextSlot, c.prev, c.first, c.produced);
        if !good {
          NeverStops(m, npix, st, code);
          return Impossible, c', st';
        }
        c' := c.(codeSize := codeSize, nextSlot := nextSlot, prev := code, first := first, produced := produced);
        st' := Apply(m, npix, st, code).st;
        if |st'.out| < npix { BoundedKept(m, npix, st, code); }
        go := More;
      }
    }

    /** One round of the decoding loop: read a code and act on it. */
    method ReadCode(m: nat, s: LzwScratch, npix: nat, c: Cursor, ghost st: Reference, ghost bits: seq<bool>)
      returns (go: Progress, c': Cursor, ghost st': Reference, ghost bits': seq<bool>)
      requires pos <= |hd.data| && s.For(m, npix) && Tracks(s, m, npix, c, st, bits) && c.produced < npix
      modifies this`pos, s.stack, s.prefix, s.suffix, s.index
      ensures pos <= |hd.data|
      ensures Final(hd.data, pos, c'.left, c'.terminated) == old(Final(hd.data, pos, c.left, c.terminated))
      ensures go != Impossible ==> Tracks(s, m, npix, c', st', bits')
      ensures go == More ==> |Ahead(hd.data, pos, c', bits')| < |old(Ahead(hd.data, pos, c, bits))|
      ensures Decode(m, npix, st, old(Ahead(hd.data, pos, c, bits))) ==
              match go
              case Impossible => Corrupt
              case Finished => Pixels(st'.out)
              case More => Decode(m, npix, st', Ahead(hd.data, pos, c', bits'))
    {
      hide *;
      c', st', bits' := c, st, bits;
      TracksOpens(s, m, npix, c, st, bits);
      ghost var ahead := Ahead(hd.data, pos, c, bits);
      AheadIs(hd.data, pos, c, bits);
      var enough, bitBuf, bitCnt, left, terminated;
      enough, bitBuf, bitCnt, left, terminated, bits' := PullBits(c.codeSize, c.bitBuf, c.bitCnt, c.left, c.terminated, bits);
      c' := c.(bitBuf := bitBuf, bitCnt := bitCnt, left := left, terminated := terminated);
      ghost var rest := BitsOf(Rest(hd.data, pos, left, terminated));
      TracksCloses(s, m, npix, c', st, bits');
      if !enough {
        DecodeEnds(m, npix, st, bits' + rest);
        return Finished, c', st', bits';
      }
      NextCode(m, npix, st, bits', rest);
      var code := bitBuf % Pow2(c.codeSize);
      c' := c'.(bitBuf := bitBuf / Pow2(c.codeSize), bitCnt := bitCnt - c.codeSize);
      bits' := bits'[c.codeSize..];
      go, c', st' := ActOn(m, s, npix, code, c', st);
      if go != Impossible { TracksCloses(s, m, npix, c', st', bits'); }
      AheadIs(hd.data, pos, c', bits');
    }

    /**
     Decodes one frame's indices. On every byte string the verdict, the pixels and the place to read on
     from are those of the reference with its full dictionary of whole strings.
     */
    method LzwDecode(m: nat, s: LzwScratch, npix: nat, fill: byte) returns (ok: bool)
      requires pos <= |hd.data| && s.For(m, npix)
      modifies this`pos, s.stack, s.prefix, s.suffix, s.index
      ensures pos <= |hd.data|
      ensures ok <==> old(Frame(hd.data, pos, m, npix, fill)).Pixels?
      ensures ok ==> s.index[..] == old(Frame(hd.data, pos, m, npix, fill)).out && pos == old(ChainEnd(hd.data, pos, 0))
    {
      CodeSizeBounds(m);
      var c := Cursor(m + 1, Initial(m), -1, 0, 0, 0, 0, 0, false);
      ghost var st, bits: seq<bool> := Fresh(m, []), [];
      ghost var total := Decode(m, npix, st, BitsOf(Payload(hd.data, pos, 0)));
      assert Ahead(hd.data, pos, c, bits) == BitsOf(Payload(hd.data, pos, 0));
      assert s.index[..0] == [];
      FreshHolds(s, m, npix, st, 0);
      assert Tracks(s, m, npix, c, st, bits) && Final(hd.data, pos, c.left, c.terminated) == ChainEnd(hd.data, pos, 0);
      hide *;
      var go := More;
      while c.produced < npix && go == More
        invariant pos <= |hd.data| && go != Impossible && Tracks(s, m, npix, c, st, bits)
        invariant WellFormed(m, st) && |st.out| <= npix
        invariant total == if go == Finished then Pixels(st.out) else Decode(m, npix, st, Ahead(hd.data, pos, c, bits))
        invariant Final(hd.data, pos, c.left, c.terminated) == old(ChainEnd(hd.data, pos, 0))
        decreases go == More, |Ahead(hd.data, pos, c, bits)|
      {
        go, c, st, bits := ReadCode(m, s, npix, c, st, bits);
        if go == Impossible { return false; }
        TracksOutput(s, m, npix, c, st, bits);
      }
      TracksOutput(s, m, npix, c, st, bits);
      if go == More { DecodeEnds(m, npix, st, Ahead(hd.data, pos, c, bits)); }
      FillTail(s, npix, c.produced, fill, st.out);
      SkipRest(c.left, c.terminated);
      ok := true;
    }

    /** Makes room for the new snapshot before anything is drawn. The old one stays readable. */
    method Reserve(size: nat, grant: bool) returns (ok: bool)
      requires Valid()
      modifies restore, restore.heap
      ensures Valid() && ok == (control.disposal != 3 || CanResize(old(restore.data.Length), size, Limit(4), grant))
      ensures !ok ==> restore.data == old(restore.data) && restore.size == old(restore.size)
      ensures ok && control.disposal != 3 ==> restore.data == old(restore.data)
      ensures ok && control.disposal == 3 ==>
                restore.size == size && restore.data.Length == ResizedCap(old(restore.data.Length), size, Limit(4))
      ensures ok ==> restore.data.Length >= old(restore.data.Length)
      ensures ok ==> restore.data[..old(restore.size)] == old(restore.data[..restore.size])
      ensures restore.data == old(restore.data) || fresh(restore.data)
      ensures Accounted()
    {
      ok := true;
      if control.disposal == 3 { ok := restore.Resize(size, SIZE_MAX, grant); }
    }

    /** Clears the canvas if asked to, then undoes the frame before as its disposal method says. */
    method DisposePrevious(dst: Canvas, clearFirst: bool, haveRestore: bool, ghost st: State)
      requires Valid() && dst.Valid() && st.prev == prev
      requires haveRestore <==> |st.saved| == prev.h * prev.w
      requires haveRestore ==> |st.saved| <= restore.data.Length && restore.data[..|st.saved|] == st.saved
      modifies this`prev, dst.px
      ensures dst.Img() == Disposed(st, Cleared(hd, old(dst.Img()), clearFirst)) && prev == old(prev).(disposal := 0)
    {
      if clearFirst { dst.FillRect(0, 0, hd.w, hd.h, 0); }
      if prev.disposal == 2 {
        dst.FillRect(prev.x, prev.y, prev.w, prev.h, 0);
      } else if prev.disposal == 3 {
        if haveRestore { dst.PutBlock(prev.x, prev.y, prev.w, prev.h, restore.data); }
      }
      prev := prev.(disposal := 0);
    }

    /** Keeps the ground under a frame that must be undone, and nothing otherwise. */
    method SaveGround(dst: Canvas, x: nat, y: nat, vw: nat, vh: nat)
      requires Valid() && dst.Valid() && (control.disposal == 3 ==> restore.size == vh * vw)
      modifies restore, restore.heap, restore.data
      ensures Valid() && restore.data == old(restore.data)
      ensures restore.Contents() == if control.disposal == 3 then Snapshot(dst.Img(), x, y, vw, vh) else []
      ensures restore.heap.live == old(restore.heap.live) && restore.heap.peak == old(restore.heap.peak)
    {
      if control.disposal == 3 {
        dst.GetBlock(x, y, vw, vh, restore.data);
      } else {
        var _ := restore.Resize(0, SIZE_MAX, false);
      }
    }

    /** Draws the decoded rows where they belong; transparent and unknown colours leave the ground. */
    method DrawRows(dst: Canvas, d: Descriptor, index: array<byte>, vw: nat, vh: nat)
      requires Valid() && loaded && dst.Valid() && Admits(hd, d) && index.Length == d.h * d.w && vw <= d.w && vh <= d.h
      modifies dst.px
      ensures dst.Img() == Drawn(hd, d, control.transparent, index[..], vw, vh, old(dst.Img()))
    {
      ghost var ground, indices := dst.Img(), index[..];
      ghost var target := Drawn(hd, d, control.transparent, indices, vw, vh, ground);
      Undrawn(hd, d, control.transparent, indices, vw, vh, ground);
      hide Drawn, Admits, Fits, RowIndex;
      for r := 0 to d.h
        invariant RowsDrawn(dst.Img(), d, vw, vh, r, ground, target)
      {
        DrawNextRow(dst, d, index, vw, vh, r, ground, target);
      }
      dst.Pixels();
      dst.Shows(target);
    }

    /** The next decoded row goes where it belongs, if that is on the canvas. */
    method DrawNextRow(dst: Canvas, d: Descriptor, index: array<byte>, vw: nat, vh: nat, r: nat,
                       ghost ground: Image, ghost target: Image)
      requires Valid() && loaded && dst.Valid() && Admits(hd, d) && index.Length == d.h * d.w && vw <= d.w && vh <= d.h
      requires r < d.h && ground.Valid() && ground.w == dst.w && ground.h == dst.h
      requires target == Drawn(hd, d, control.transparent, index[..], vw, vh, ground)
      requires RowsDrawn(dst.Img(), d, vw, vh, r, ground, target)
      modifies dst.px
      ensures RowsDrawn(dst.Img(), d, vw, vh, r + 1, ground, target)
    {
      var y := r;
      if d.interlaced { y := InterlacedRow(r, d.h); }
      RowOfDecoded(d, r, y);
      Undrawn(hd, d, control.transparent, index[..], vw, vh, ground);
      RowAdded(dst.Img(), d, vw, vh, r, y, ground, target);
      if y < vh { DrawnRow(hd, d, control.transparent, index[..], vw, vh, ground, r, y); }
      hide Drawn, Admits, Fits, StoredOrder, RowIndex, RowsDrawn, RowPainted;
      if y < vh { DrawRow(dst, d, index, vw, r, y, ground, target); }
    }

    /** One decoded row. */
    method DrawRow(dst: Canvas, d: Descriptor, index: array<byte>, vw: nat, r: nat, y: nat,
                   ghost ground: Image, ghost target: Image)
      requires dst.Valid() && Alike(ground, dst.Img()) && Alike(target, dst.Img())
      requires RowPainted(hd, d, control.transparent, index[..], vw, r, y, ground, target)
      requires d.y + y < dst.h ==> dst.Img().rows[d.y + y] == ground.rows[d.y + y]
      modifies dst.px
      ensures dst.Img() == WithRow(old(dst.Img()), d.y + y, target)
    {
      dst.Pixels();
      var src, row := r * d.w, d.y + y;
      hide Pack24;
      for x := 0 to vw
        invariant forall b, a :: 0 <= b < dst.h && 0 <= a < dst.w ==>
                    dst.px[b, a] == if b == row && d.x <= a < d.x + x then target.rows[b][a] else old(dst.px[b, a])
      {
        var idx := index[src + x];
        if idx != control.transparent && idx < d.colors {
          dst.SetPixel(d.x + x, row, Pack24(hd.data, d.palette + 3 * idx));
        }
      }
      dst.Shows(WithRow(old(dst.Img()), row, target));
    }

    /** Composites a decoded frame. Refused memory is noticed before the canvas is touched. */
    method Compose(dst: Canvas, clearFirst: bool, grant: bool, d: Descriptor, index: array<byte>, ghost st: State)
      returns (ok: bool)
      requires Valid() && loaded && dst.Valid() && Admits(hd, d) && index.Length == d.h * d.w
      requires St() == st.(pos := pos) && st.Valid() && pos == ChainEnd(hd.data, d.at, 0)
      modifies this`prev, restore, restore.heap, restore.data, dst.px
      ensures Valid() && (restore.data == old(restore.data) || fresh(restore.data))
      ensures var r := old(Composed(hd, st, dst.Img(), clearFirst, grant, d, index[..]));
              if ok then r.Frame_? && St() == r.st.(control := st.control) && dst.Img() == r.img && r.delay == control.delay
              else r.Oom? && St() == st.(pos := pos) && dst.Img() == old(dst.Img())
      ensures Accounted()
    {
      ghost var img := dst.Img();
      ComposedParts(hd, st, img, clearFirst, grant, d, index[..]);
      hide Composed, Visible, Fits, ChainEnd, Snapshot, Drawn, Disposed, Cleared, CanResize, ResizedCap, Limit, NewCap, Admits;
      var vw := Visible(hd.w, dst.w, d.x, d.w);
      var vh := Visible(hd.h, dst.h, d.y, d.h);
      var haveRestore := restore.size == prev.h * prev.w;
      ok := Reserve(vh * vw, grant);
      if !ok { return; }
      assert restore.data[..|st.saved|] == st.saved;
      DisposePrevious(dst, clearFirst, haveRestore, st);
      SaveGround(dst, d.x, d.y, vw, vh);
      DrawRows(dst, d, index, vw, vh);
      prev := Shown(control.disposal, d.x, d.y, vw, vh);
    }

    /** The colour indices of an image, in tables of its size. */
    method Indices(d: Descriptor, fill: byte) returns (ok: bool, index: array<byte>)
      requires Valid() && loaded && CodeSize(d.codeSize) && pos == d.at <= |hd.data| && WordsFor(d) <= pool.workspace.size
      modifies this`pos
      ensures Valid() && (ok <==> Frame(hd.data, d.at, d.codeSize, d.h * d.w, fill).Pixels?)
      ensures fresh(index) && index.Length == d.h * d.w
      ensures ok ==> index[..] == Frame(hd.data, d.at, d.codeSize, d.h * d.w, fill).out && pos == ChainEnd(hd.data, d.at, 0)
    {
      hide Frame, ChainEnd, Header.Valid;
      var scratch := new LzwScratch(d.h * d.w, d.codeSize, pool.workspace.size);
      ok := LzwDecode(d.codeSize, scratch, d.h * d.w, fill);
      index := scratch.index;
    }

    /** Decodes and composites an image whose descriptor is read and whose workspace is there. */
    method DecodeInto(dst: Canvas, clearFirst: bool, grant: bool, d: Descriptor, ghost st: State) returns (step: Steps)
      requires Valid() && loaded && dst.Valid() && st.Valid() && Describe(hd, st.pos) == Some(d) && St() == st.(pos := d.at)
      requires WordsFor(d) <= pool.workspace.size
      modifies this`pos, this`prev, restore, restore.heap, restore.data, dst.px
      ensures Valid() && (restore.data == old(restore.data) || fresh(restore.data))
      ensures Decoded(old(Gif.DecodeImage(hd, st, dst.Img(), clearFirst, Grants(true, grant))), step, St(), st, dst.Img(),
                      old(dst.Img()))
      ensures Accounted()
    {
      ghost var img := dst.Img();
      Pictured(hd, st, img, clearFirst, grant, d);
      var fill: byte := if control.transparent >= 0 then control.transparent else hd.bg;
      assert fill == FillIndex(hd, st.control);
      hide *;
      var ok, index := Indices(d, fill);
      if !ok {
        Faulty(st.(pos := pos), st, img);
        return KError;
      }
      ghost var r := Composed(hd, st, img, clearFirst, grant, d, index[..]);
      ok := Compose(dst, clearFirst, grant, d, index, st);
      step := if ok then KFrame else KOom;
      Composited(r, ok, St(), st, dst.Img(), img, control);
    }

    /** The tables' memory: everything else stays as it is. */
    method ClaimWorkspace(d: Descriptor, grant: bool) returns (ok: bool)
      requires Valid() && Pooled() && CodeSize(d.codeSize) && WordsFor(d) > 0
      modifies restore.heap, pool`head, pool`claims, pool.live, pool.workspace
      ensures Valid() && Pooled() && pool.live == old(pool.live) && St() == old(St())
      ensures ok == Serves(old(pool.workspace.size), WordsFor(d), grant) && (ok ==> WordsFor(d) <= pool.workspace.size)
      ensures pool.workspace.size == SizeAfter(old(pool.workspace.size), WordsFor(d), grant)
      ensures restore.heap.live == old(restore.heap.live) + (pool.workspace.data.Length - old(pool.workspace.data.Length)) * 2
      ensures restore.heap.peak <= Max(old(restore.heap.peak), restore.heap.live)
    {
      ok := pool.Acquire(claim, WordsFor(d), grant);
    }

    /** Decodes an image whose descriptor is read, if the pool has the workspace for it. */
    method ClaimAndDecode(dst: Canvas, clearFirst: bool, grants: Grants, d: Descriptor, ghost st: State) returns (step: Steps)
      requires Valid() && Pooled() && loaded && dst.Valid() && st.Valid()
      requires Describe(hd, st.pos) == Some(d) && St() == st.(pos := d.at) && WordsFor(d) > 0
      modifies this`pos, this`prev, restore, restore.heap, restore.data, dst.px
      modifies pool`head, pool`claims, pool.live, pool.workspace
      ensures Valid() && Pooled() && (restore.data == old(restore.data) || fresh(restore.data)) && pool.live == old(pool.live)
      ensures var ok := Serves(old(pool.workspace.size), WordsFor(d), grants.scratch);
              Decoded(if ok then old(Gif.DecodeImage(hd, st, dst.Img(), clearFirst, Grants(true, grants.restore))) else Oom(st),
                      step, St(), st, dst.Img(), old(dst.Img()))
      ensures pool.workspace.size == SizeAfter(old(pool.workspace.size), WordsFor(d), grants.scratch)
      ensures AllAccounted()
    {
      hide Describe, Gif.DecodeImage, ScratchWords, Fits, Pooled;
      var ok := ClaimWorkspace(d, grants.scratch);
      if !ok { return KOom; }
      hide *;
      step := DecodeInto(dst, clearFirst, grants.restore, d, st);
    }

    /** `asked` is what the pool will answer, `behind` the size of its workspace then. */
    method DecodeImage(dst: Canvas, clearFirst: bool, grants: Grants, ghost asked: Grants, ghost behind: nat) returns (step: Steps)
      requires Valid() && Pooled() && loaded && dst.Valid()
      requires asked == Served(Describe(hd, pos), pool.workspace.size, grants)
      requires behind == SizeBehind(Describe(hd, pos), pool.workspace.size, grants)
      modifies this`pos, this`prev, restore, restore.heap, restore.data, dst.px
      modifies pool`head, pool`claims, pool.live, pool.workspace
      ensures Valid() && Pooled() && (restore.data == old(restore.data) || fresh(restore.data)) && pool.live == old(pool.live)
      ensures Decoded(old(Gif.DecodeImage(hd, St(), dst.Img(), clearFirst, asked)), step, St(), old(St()), dst.Img(),
                      old(dst.Img()))
      ensures pool.workspace.size == behind
      ensures AllAccounted()
    {
      ghost var st := St();
      StateIs();
      hide *;
      var ok, d := ReadDescriptor();
      step := DecodeDescribed(dst, clearFirst, grants, asked, behind, if ok then Some(d) else None, st);
    }

    method DecodeDescribed(dst: Canvas, clearFirst: bool, grants: Grants, ghost asked: Grants, ghost behind: nat,
                           up: Option<Descriptor>, ghost st: State)
      returns (step: Steps)
      requires Valid() && Pooled() && loaded && dst.Valid() && st.Valid() && Describe(hd, st.pos) == up
      requires St() == st.(pos := pos) && (up.Some? ==> pos == up.value.at)
      requires asked == Served(up, pool.workspace.size, grants) && behind == SizeBehind(up, pool.workspace.size, grants)
      modifies this`pos, this`prev, restore, restore.heap, restore.data, dst.px
      modifies pool`head, pool`claims, pool.live, pool.workspace
      ensures Valid() && Pooled() && (restore.data == old(restore.data) || fresh(restore.data)) && pool.live == old(pool.live)
      ensures Decoded(old(Gif.DecodeImage(hd, st, dst.Img(), clearFirst, asked)), step, St(), st, dst.Img(), old(dst.Img()))
      ensures pool.workspace.size == behind
      ensures AllAccounted()
    {
      ghost var img := dst.Img();
      Asked(hd, st, img, clearFirst, grants, pool.workspace.size);
      if up.None? {
        Failed(hd, st, img, clearFirst, asked, pos);
        return KError;
      }
      hide *;
      step := ClaimAndDecode(dst, clearFirst, grants, up.value, st);
    }

    /**
     The next frame, the clean end, an error, or refused memory: then this very call can be repeated.
     */
    method NextFrame(dst: Canvas, clearFirst: bool, grants: Grants) returns (step: Steps, delayMs: nat)
      requires Valid() && Pooled() && dst.Valid()
      modifies this`pos, this`control, this`prev, restore, restore.heap, restore.data, dst.px
      modifies pool`head, pool`claims, pool.live, pool.workspace
      ensures Valid() && Pooled() && (restore.data == old(restore.data) || fresh(restore.data)) && pool.live == old(pool.live)
      ensures !loaded ==> step == KError && delayMs == 0 && dst.Img() == old(dst.Img())
      ensures !loaded ==> pool.workspace.size == old(pool.workspace.size)
      ensures loaded ==>
                var up := old(Upcoming(hd, St()));
                && Answers(old(Gif.NextFrame(hd, St(), dst.Img(), clearFirst,
                                             Served(Upcoming(hd, St()), pool.workspace.size, grants))),
                           step, St(), dst.Img(), old(dst.Img()), delayMs)
                && pool.workspace.size == SizeBehind(up, old(pool.workspace.size), grants)
      ensures step == KError || step == KEnd ==> St() == old(St()).(pos := pos, control := control)
      ensures AllAccounted()
    {
      delayMs := 0;
      if !loaded { return KError, 0; }
      ghost var asked := Served(Upcoming(hd, St()), pool.workspace.size, grants);
      ghost var behind := SizeBehind(Upcoming(hd, St()), pool.workspace.size, grants);
      hide *;
      step, delayMs := NextLoaded(dst, clearFirst, grants, asked, behind);
    }

    method NextLoaded(dst: Canvas, clearFirst: bool, grants: Grants, ghost asked: Grants, ghost behind: nat)
      returns (step: Steps, delayMs: nat)
      requires Valid() && Pooled() && loaded && dst.Valid()
      requires asked == Served(Upcoming(hd, St()), pool.workspace.size, grants)
      requires behind == SizeBehind(Upcoming(hd, St()), pool.workspace.size, grants)
      modifies this`pos, this`control, this`prev, restore, restore.heap, restore.data, dst.px
      modifies pool`head, pool`claims, pool.live, pool.workspace
      ensures Valid() && Pooled() && (restore.data == old(restore.data) || fresh(restore.data)) && pool.live == old(pool.live)
      ensures Answers(old(Gif.NextFrame(hd, St(), dst.Img(), clearFirst, asked)), step, St(), dst.Img(), old(dst.Img()), delayMs)
      ensures pool.workspace.size == behind
      ensures step == KError || step == KEnd ==> St() == old(St()).(pos := pos, control := control)
      ensures AllAccounted()
    {
      hide Gif.NextFrame, Gif.ImageBlock, Upcoming, Describe, ScratchPool.Valid, Header.Valid;
      delayMs := 0;
      var found;
      ghost var target := Gif.NextFrame(hd, St(), dst.Img(), clearFirst, asked);
      found, step := NextImage(dst.Img(), clearFirst, asked, target, Upcoming(hd, St()));
      if !found { return; }
      hide *;
      step, delayMs := TakeImage(dst, clearFirst, grants, asked, behind, target);
    }

    /** Steps over extensions to the next image's introducer, or to the end or an error. */
    method NextImage(ghost img: Image, ghost clearFirst: bool, ghost grants: Grants, ghost target: Outcome,
                     ghost up: Option<Descriptor>)
      returns (found: bool, step: Steps)
      requires Valid() && loaded && img.Valid()
      requires target == Gif.NextFrame(hd, St(), img, clearFirst, grants) && up == Upcoming(hd, St())
      modifies this`pos, this`control
      ensures Valid() && (found ==> pos > 0)
      ensures up == if found then Describe(hd, pos) else None
      ensures if found then target == Gif.ImageBlock(hd, St().(pos := pos - 1), img, clearFirst, grants)
              else if step == KEnd then target == End(St()) else step == KError && target == Error
    {
      hide Gif.NextFrame, Gif.ImageBlock, Upcoming, Extended, Describe, Header.Valid, Image.Valid;
      StateIs();
      assert restore.Valid();
      hide *;
      while true
        invariant Valid() && loaded && Gif.NextFrame(hd, St(), img, clearFirst, grants) == target && Upcoming(hd, St()) == up
        decreases |hd.data| - pos
      {
        StateIs();
        NextByteDecides(hd, St(), img, clearFirst, grants);
        var b := ReadByte();
        if b < 0 || b == 0x3B { return false, KEnd; }
        if b == 0x2C { return true, KEnd; }
        if b != 0x21 { return false, KError; }
        var ok := Extend();
        if !ok { return false, KError; }
      }
    }

    lemma StateIs()
      requires Valid() && loaded
      ensures hd.Valid() && St().Valid() && St().pos == pos
      ensures St().(pos := pos + 1) == State(pos + 1, control, prev, St().saved, St().cap)
    {
    }

    /** An image block behind its introducer: a refusal steps back in front of it with its control kept. */
    method TakeImage(dst: Canvas, clearFirst: bool, grants: Grants, ghost asked: Grants, ghost behind: nat, ghost target: Outcome)
      returns (step: Steps, delayMs: nat)
      requires Valid() && Pooled() && loaded && dst.Valid() && pos > 0
      requires asked == Served(Describe(hd, pos), pool.workspace.size, grants)
      requires behind == SizeBehind(Describe(hd, pos), pool.workspace.size, grants)
      requires target == Gif.ImageBlock(hd, St().(pos := pos - 1), dst.Img(), clearFirst, asked)
      modifies this`pos, this`control, this`prev, restore, restore.heap, restore.data, dst.px
      modifies pool`head, pool`claims, pool.live, pool.workspace
      ensures Valid() && Pooled() && (restore.data == old(restore.data) || fresh(restore.data)) && pool.live == old(pool.live)
      ensures Answers(target, step, St(), dst.Img(), old(dst.Img()), delayMs)
      ensures pool.workspace.size == behind
      ensures step != KEnd && (step == KError ==> St() == old(St()).(pos := pos, control := control))
      ensures AllAccounted()
    {
      hide Describe, Gif.ImageBlock, Gif.DecodeImage, Served, SizeBehind, WordsFor, ScratchPool.Valid, Header.Valid, Image.Valid;
      ghost var was, before := St(), dst.Img();
      StateIs();
      var imagePos := pos - 1;
      hide *;
      step := DecodeImage(dst, clearFirst, grants, asked, behind);
      Answered(hd, was, before, clearFirst, asked, step, St(), dst.Img());
      delayMs := Conclude(step, imagePos);
    }

    /** A refused image is left to be begun again; otherwise its control is used up. */
    method Conclude(step: Steps, imagePos: nat) returns (delayMs: nat)
      requires Valid() && loaded
      modifies this`pos, this`control
      ensures Valid() && delayMs == if step == KFrame then old(control).delay else 0
      ensures St() == if step == KOom then old(St()).(pos := imagePos) else old(St()).(control := NO_CONTROL)
    {
      delayMs := 0;
      if step == KOom {
        pos := imagePos;
        return;
      }
      if step == KFrame { delayMs := control.delay; }
      control := NO_CONTROL;
    }

    /** An extension behind its introducer. */
    method Extend() returns (ok: bool)
      requires Valid() && loaded
      modifies this`pos, this`control
      ensures Valid() && (ok <==> old(Extended(hd, St())).Some?)
      ensures ok ==> old(Extended(hd, St())) == Some(St())
    {
      hide Skip, ParseControl, Fits;
      var ext := ReadByte();
      if ext < 0 { return false; }
      if ext == 0xF9 { ok := ParseGce(); } else { ok := SkipSubBlocks(); }
    }
  }

  /** What decoding an image left behind, before the caller has looked at the outcome. */
  ghost predicate Decoded(r: Outcome, step: Steps, now: State, was: State, img: Image, before: Image) {
    match r
    case Frame_(st, img', delay) => step == KFrame && now == st.(control := was.control) && img == img' && delay == was.control.delay
    case Oom(_) => step == KOom && now == was.(pos := now.pos) && img == before
    case Error => step == KError && now == was.(pos := now.pos) && img == before
    case End(_) => false
  }

  /** What the pool's answer makes of an image. */
  lemma Asked(hd: Header, st: State, img: Image, clearFirst: bool, grants: Grants, size: nat)
    requires hd.Valid() && st.Valid() && img.Valid()
    ensures var up := Describe(hd, st.pos);
            var r := Gif.DecodeImage(hd, st, img, clearFirst, Served(up, size, grants));
            if up.None? then r == Error && SizeBehind(up, size, grants) == size
            else
              && WordsFor(up.value) > 0 && SizeBehind(up, size, grants) == SizeAfter(size, WordsFor(up.value), grants.scratch)
              && r == if Serves(size, WordsFor(up.value), grants.scratch)
                      then Gif.DecodeImage(hd, st, img, clearFirst, Grants(true, grants.restore)) else Oom(st)
  {
    hide Describe, Composed, Frame, ScratchWords;
    var up := Describe(hd, st.pos);
    if up.Some? { PixelsOf(up.value); }
  }

  lemma Failed(hd: Header, st: State, img: Image, clearFirst: bool, grants: Grants, pos: nat)
    requires hd.Valid() && st.Valid() && img.Valid() && Describe(hd, st.pos).None?
    ensures Decoded(Gif.DecodeImage(hd, st, img, clearFirst, grants), KError, st.(pos := pos), st, img, img)
  {
  }

  lemma Faulty(now: State, was: State, img: Image)
    requires now == was.(pos := now.pos)
    ensures Decoded(Error, KError, now, was, img, img)
  {
  }

  lemma Composited(r: Outcome, ok: bool, now: State, was: State, img: Image, before: Image, control: Control)
    requires control == was.control
    requires if ok then r.Frame_? && now == r.st.(control := was.control) && img == r.img && r.delay == control.delay
             else r.Oom? && now == was.(pos := now.pos) && img == before
    ensures Decoded(r, if ok then KFrame else KOom, now, was, img, before)
  {
  }

  /** A described image: its pixels, composited, or its fault. */
  lemma Pictured(hd: Header, st: State, img: Image, clearFirst: bool, grant: bool, d: Descriptor)
    requires hd.Valid() && st.Valid() && img.Valid() && Describe(hd, st.pos) == Some(d)
    ensures Admits(hd, d)
    ensures Gif.DecodeImage(hd, st, img, clearFirst, Grants(true, grant)) ==
            match Frame(hd.data, d.at, d.codeSize, d.h * d.w, FillIndex(hd, st.control))
            case Corrupt => Error
            case Pixels(indices) => Composed(hd, st, img, clearFirst, grant, d, indices)
  {
    hide Describe, Frame, Composed;
  }

  lemma PixelsOf(d: Descriptor)
    requires CodeSize(d.codeSize) && 0 < d.w && 0 < d.h
    ensures WordsFor(d) > 0
  {
    assert d.h * d.w > 0;
  }

  /** Clearing the control, or stepping back in front of a refused image, completes the call. */
  lemma Answered(hd: Header, was: State, before: Image, clearFirst: bool, grants: Grants, step: Steps, now: State, img: Image)
    requires hd.Valid() && was.Valid() && before.Valid() && was.pos > 0
    requires Decoded(Gif.DecodeImage(hd, was, before, clearFirst, grants), step, now, was, img, before)
    ensures step != KEnd && (step == KError ==> now == was.(pos := now.pos))
    ensures Answers(Gif.ImageBlock(hd, was.(pos := was.pos - 1), before, clearFirst, grants), step,
                    if step == KOom then now.(pos := was.pos - 1) else now.(control := NO_CONTROL), img, before,
                    if step == KFrame then now.control.delay else 0)
  {
    var r := Gif.DecodeImage(hd, was, before, clearFirst, grants);
    assert r.Frame_? ==> r.st.control == NO_CONTROL;
    assert was.(pos := was.pos - 1).(pos := was.pos) == was;
    hide Gif.DecodeImage;
  }

  /** Compositing, spelled out step by step. */
  lemma ComposedParts(hd: Header, st: State, img: Image, clearFirst: bool, grant: bool, d: Descriptor, indices: seq<byte>)
    requires hd.Valid() && st.Valid() && img.Valid() && Admits(hd, d) && |indices| == d.h * d.w
    ensures var (vw, vh) := (Visible(hd.w, img.w, d.x, d.w), Visible(hd.h, img.h, d.y, d.h));
            var r := Composed(hd, st, img, clearFirst, grant, d, indices);
            && vw <= d.w && vh <= d.h && 0 <= vh * vw && d.palette + 3 * d.colors <= |hd.data|
            && (r.Oom? <==> !(st.control.disposal != 3 || CanResize(st.cap, vh * vw, Limit(4), grant)))
            && (r.Frame_? ==>
                  var ground := Disposed(st, Cleared(hd, img, clearFirst));
                  && r.img == Drawn(hd, d, st.control.transparent, indices, vw, vh, ground)
                  && r.st.pos == ChainEnd(hd.data, d.at, 0) && r.st.control == NO_CONTROL && r.delay == st.control.delay
                  && r.st.prev == Shown(st.control.disposal, d.x, d.y, vw, vh)
                  && r.st.saved == (if st.control.disposal == 3 then Snapshot(ground, d.x, d.y, vw, vh) else [])
                  && (st.control.disposal != 3 ==> r.st.cap == st.cap)
                  && (st.control.disposal == 3 ==> vh * vw <= Limit(4) && r.st.cap == ResizedCap(st.cap, vh * vw, Limit(4))))
  {
  }

  /** What the next byte decides. */
  lemma NextByteDecides(hd: Header, st: State, img: Image, clearFirst: bool, grants: Grants)
    requires hd.Valid() && st.Valid() && img.Valid()
    ensures var r, on := Gif.NextFrame(hd, st, img, clearFirst, grants), st.(pos := st.pos + 1);
            if st.pos >= |hd.data| then r == End(st)
            else if hd.data[st.pos] == 0x3B then r == End(on)
            else if hd.data[st.pos] == 0x2C then r == Gif.ImageBlock(hd, st, img, clearFirst, grants)
            else if hd.data[st.pos] == 0x21 && Extended(hd, on).Some? then
              r == Gif.NextFrame(hd, Extended(hd, on).value, img, clearFirst, grants)
            else r == Error
    ensures Upcoming(hd, st) ==
            if st.pos >= |hd.data| then None
            else if hd.data[st.pos] == 0x2C then Describe(hd, st.pos + 1)
            else if hd.data[st.pos] == 0x21 && Extended(hd, st.(pos := st.pos + 1)).Some? then
              Upcoming(hd, Extended(hd, st.(pos := st.pos + 1)).value)
            else None
  {
    hide Gif.ImageBlock, Extended, Describe;
  }

  /** What a call returned, and left in the decoder and on the canvas, is this outcome. */
  ghost predicate Answers(r: Outcome, step: Steps, st: State, img: Image, before: Image, delay: nat) {
    match r
    case Frame_(st', img', delay') => step == KFrame && st == st' && img == img' && delay == delay'
    case Oom(st') => step == KOom && st == st' && img == before && delay == 0
    case End(st') => step == KEnd && st == st' && img == before && delay == 0
    case Error => step == KError && img == before && delay == 0
  }

  datatype Steps = KFrame | KEnd | KError | KOom

  ghost predicate Alike(img: Image, other: Image) {
    img.Valid() && other.Valid() && img.w == other.w && img.h == other.h
  }

  ghost function WithRow(img: Image, row: nat, from: Image): Image
    requires Alike(img, from)
  {
    if row < img.h then img.(rows := img.rows[row := from.rows[row]]) else img
  }

  /** The rows decoded first are drawn, all else is ground. */
  ghost predicate RowsDrawn(img: Image, d: Descriptor, vw: nat, vh: nat, r: nat, ground: Image, target: Image)
    requires Alike(ground, img) && Alike(target, img) && vh <= d.h
  {
    forall b, a :: 0 <= b < img.h && 0 <= a < img.w ==>
      img.rows[b][a] == if Inside(a, b, d.x, d.y, vw, vh) && RowIndex(d, b - d.y) < r
                        then target.rows[b][a] else ground.rows[b][a]
  }

  lemma RowAdded(img: Image, d: Descriptor, vw: nat, vh: nat, r: nat, y: nat, ground: Image, target: Image)
    requires Alike(ground, img) && Alike(target, img) && vh <= d.h && RowsDrawn(img, d, vw, vh, r, ground, target)
    requires y < d.h && RowIndex(d, y) == r && forall b: nat :: b < d.h && RowIndex(d, b) == r ==> b == y
    requires forall b, a :: 0 <= b < ground.h && 0 <= a < ground.w && !Inside(a, b, d.x, d.y, vw, vh) ==>
               target.rows[b][a] == ground.rows[b][a]
    ensures d.y + y < img.h ==> img.rows[d.y + y] == ground.rows[d.y + y]
    ensures RowsDrawn(if y < vh then WithRow(img, d.y + y, target) else img, d, vw, vh, r + 1, ground, target)
  {
    hide RowIndex;
  }

  /** In the row of `target` a decoded row goes to, its visible pixels are painted over the ground, and no others. */
  ghost predicate RowPainted(hd: Header, d: Descriptor, transparent: int, indices: seq<byte>, vw: nat, r: nat, y: nat,
                             ground: Image, target: Image)
    requires Alike(ground, target)
  {
    && r * d.w + vw <= |indices| && d.palette + 3 * d.colors <= |hd.data|
    && forall b, a :: 0 <= b < ground.h && 0 <= a < ground.w && b == d.y + y ==>
         target.rows[b][a] ==
         if d.x <= a < d.x + vw then Shade(hd, d, transparent, indices[r * d.w + (a - d.x)], ground.rows[b][a])
         else ground.rows[b][a]
  }

  lemma DrawnRow(hd: Header, d: Descriptor, transparent: int, indices: seq<byte>, vw: nat, vh: nat, ground: Image,
                 r: nat, y: nat)
    requires ground.Valid() && Admits(hd, d) && |indices| == d.h * d.w && vw <= d.w && y < vh <= d.h
    requires r < d.h && RowIndex(d, y) == r
    ensures RowPainted(hd, d, transparent, indices, vw, r, y, ground,
                       Drawn(hd, d, transparent, indices, vw, vh, ground))
  {
    RowsBelow(r, d.w, d.h);
  }

  lemma Undrawn(hd: Header, d: Descriptor, transparent: int, indices: seq<byte>, vw: nat, vh: nat, ground: Image)
    requires ground.Valid() && Admits(hd, d) && |indices| == d.h * d.w && vw <= d.w && vh <= d.h
    ensures forall b, a :: 0 <= b < ground.h && 0 <= a < ground.w && !Inside(a, b, d.x, d.y, vw, vh) ==>
              Drawn(hd, d, transparent, indices, vw, vh, ground).rows[b][a] == ground.rows[b][a]
  {
  }

  /** Rows are decoded in stored order, so a row's place in it is the step that draws it. */
  lemma RowOfDecoded(d: Descriptor, r: nat, y: int)
    requires r < d.h
    requires if d.interlaced then r < |StoredOrder(d.h)| && y == StoredOrder(d.h)[r] else y == r
    ensures 0 <= y < d.h && RowIndex(d, y) == r
    ensures forall b: nat :: b < d.h && RowIndex(d, b) == r ==> b == y
  {
    if d.interlaced { StoredOrderIsPermutation(d.h); }
  }

  /** The decoding loop's variables. */
  datatype Cursor = Cursor(codeSize: nat, nextSlot: nat, prev: int, first: int, produced: nat,
                           bitBuf: nat, bitCnt: nat, left: nat, terminated: bool)

  datatype Progress = More | Finished | Impossible

  /** The bits held and still to come. */
  ghost function Ahead(data: seq<byte>, pos: nat, c: Cursor, bits: seq<bool>): seq<bool> {
    bits + BitsOf(Rest(data, pos, c.left, c.terminated))
  }

  ghost predicate Tracks(s: LzwScratch, m: nat, npix: nat, c: Cursor, st: Reference, bits: seq<bool>)
    reads s.prefix, s.suffix, s.index
  {
    && WellFormed(m, st) && |st.out| <= npix && (|st.out| < npix ==> Bounded(m, st))
    && Holds(s, m, st, c.codeSize, c.nextSlot, c.prev, c.first, c.produced)
    && Buffered(c.bitBuf, c.bitCnt, bits) && c.bitCnt <= MAX_WIDTH + 7
  }

  lemma TracksOutput(s: LzwScratch, m: nat, npix: nat, c: Cursor, st: Reference, bits: seq<bool>)
    requires Tracks(s, m, npix, c, st, bits)
    ensures WellFormed(m, st) && c.produced == |st.out| <= npix && |st.out| <= s.index.Length && s.index[..|st.out|] == st.out
  {
  }

  lemma NeverStops(m: nat, npix: nat, st: Reference, code: nat)
    requires WellFormed(m, st) && |st.out| <= npix && code != EndCode(m)
    ensures !Apply(m, npix, st, code).Stop?
  {
  }

  lemma TracksOpens(s: LzwScratch, m: nat, npix: nat, c: Cursor, st: Reference, bits: seq<bool>)
    requires Tracks(s, m, npix, c, st, bits) && c.produced < npix
    ensures WellFormed(m, st) && Bounded(m, st) && |st.out| < npix && 0 < c.codeSize == st.width <= MAX_WIDTH
    ensures Holds(s, m, st, c.codeSize, c.nextSlot, c.prev, c.first, c.produced)
    ensures Buffered(c.bitBuf, c.bitCnt, bits) && c.bitCnt <= MAX_WIDTH + 7
  {
  }

  lemma TracksCloses(s: LzwScratch, m: nat, npix: nat, c: Cursor, st: Reference, bits: seq<bool>)
    requires WellFormed(m, st) && |st.out| <= npix && (|st.out| < npix ==> Bounded(m, st))
    requires Holds(s, m, st, c.codeSize, c.nextSlot, c.prev, c.first, c.produced)
    requires Buffered(c.bitBuf, c.bitCnt, bits) && c.bitCnt <= MAX_WIDTH + 7
    ensures Tracks(s, m, npix, c, st, bits)
  {
  }

  lemma AheadIs(data: seq<byte>, pos: nat, c: Cursor, bits: seq<bool>)
    ensures Ahead(data, pos, c, bits) == bits + BitsOf(Rest(data, pos, c.left, c.terminated))
  {
  }

  lemma DecodeEnds(m: nat, npix: nat, st: Reference, bits: seq<bool>)
    requires WellFormed(m, st) && |st.out| <= npix && (|st.out| == npix || |bits| < st.width)
    ensures Decode(m, npix, st, bits) == Pixels(st.out)
  {
  }

  /** The buffer's low bits are the next code of the stream. */
  lemma NextCode(m: nat, npix: nat, st: Reference, bits: seq<bool>, rest: seq<bool>)
    requires WellFormed(m, st) && |st.out| < npix && st.width <= |bits|
    ensures Val(bits) % Pow2(st.width) == Val(bits[..st.width])
    ensures Val(bits) / Pow2(st.width) == Val(bits[st.width..])
    ensures Decode(m, npix, st, bits + rest) ==
            match Apply(m, npix, st, Val(bits[..st.width]))
            case Bad => Corrupt
            case Stop => Pixels(st.out)
            case Next(st') => Decode(m, npix, st', bits[st.width..] + rest)
  {
    hide Val, Pow2, Apply;
    ValSplit(bits, st.width);
    assert (bits + rest)[..st.width] == bits[..st.width];
    assert (bits + rest)[st.width..] == bits[st.width..] + rest;
  }

  /** A clear code starts over; an end code stops. */
  lemma FreshHolds(s: LzwScratch, m: nat, npix: nat, st: Reference, first: int)
    requires s.For(m, npix) && WellFormed(m, st) && |st.out| <= npix && s.index[..|st.out|] == st.out && 0 <= first < 256
    ensures Apply(m, npix, st, ClearCode(m)) == Next(Fresh(m, st.out)) && Apply(m, npix, st, EndCode(m)) == Stop
    ensures Holds(s, m, Fresh(m, st.out), m + 1, EndCode(m) + 1, -1, first, |st.out|)
    ensures WellFormed(m, Fresh(m, st.out)) && Bounded(m, Fresh(m, st.out))
  {
    CodeSizeBounds(m);
  }

  lemma CodeBelow4096(w: nat, code: nat)
    requires w <= MAX_WIDTH && code < Pow2(w)
    ensures code < MAX_SLOTS
  {
    Pow2Twelve();
    Pow2Monotone(w, 12);
  }

  /** The decoder's variables and tables stand for this state of the reference. */
  ghost predicate Holds(s: LzwScratch, m: nat, st: Reference, codeSize: nat, nextSlot: nat, prev: int, first: int, done: nat)
    requires CodeSize(m)
    reads s.prefix, s.suffix, s.index
  {
    && Linked(m, s.prefix[..], s.suffix[..], st.dict)
    && nextSlot == Initial(m) + |st.dict| && codeSize == st.width
    && 0 <= first < 256 && Remembers(m, st, prev, first)
    && done == |st.out| <= s.index.Length && s.index[..done] == st.out
  }

  /** After a code, its number stands for its string in the grown table. */
  lemma LastString(m: nat, npix: nat, st: Reference, code: nat)
    requires WellFormed(m, st) && Bounded(m, st) && |st.out| < npix
    requires code < MAX_SLOTS && code != ClearCode(m) && code != EndCode(m)
    requires Apply(m, npix, st, code).Next?
    ensures var st' := Apply(m, npix, st, code).st;
            && st'.prev == TextOf(m, st, code) && st'.prev != []
            && PointsBack(m, code, |st'.dict|) && StringOf(m, st'.dict, code) == st'.prev
            && st'.out == Emit(st.out, TextOf(m, st, code), npix)
  {
    CodeSizeBounds(m);
    TextFits(m, npix, st, code);
  }

  /** One link back: a smaller code, and one pixel less. */
  lemma Link(m: nat, prefix: seq<int>, suffix: seq<byte>, dict: seq<seq<byte>>, c: int, text: seq<byte>)
    requires Linked(m, prefix, suffix, dict) && PointsBack(m, c, |dict|) && c >= Initial(m)
    requires text == StringOf(m, dict, c)
    requires forall k :: 0 <= k < |dict| ==> dict[k] != []
    ensures c < Initial(m) + |dict| <= Initial(m) + |prefix|
    ensures var (link, last) := (prefix[c - Initial(m)], suffix[c - Initial(m)]);
            && link < c && PointsBack(m, link, |dict|)
            && |text| >= 2 && text[|text| - 1] == last && StringOf(m, dict, link) == text[..|text| - 1]
  {
    LinkedStrings(m, prefix, suffix, dict, c);
    CodeSizeBounds(m);
  }

  /** Below the first free code only literals are ever linked to. */
  lemma Literal(m: nat, dict: seq<seq<byte>>, c: int)
    requires CodeSize(m) && PointsBack(m, c, |dict|) && c < Initial(m)
    ensures 0 <= c < ClearCode(m) <= 256 && StringOf(m, dict, c) == [c]
  {
    CodeSizeBounds(m);
  }

  /** The concrete memory of the last code: its number and its string's first pixel. */
  ghost predicate Remembers(m: nat, st: Reference, prev: int, first: byte)
    requires CodeSize(m)
  {
    && (prev < 0 <==> st.prev == [])
    && (prev >= 0 ==> PointsBack(m, prev, |st.dict|) && StringOf(m, st.dict, prev) == st.prev && first == st.prev[0])
  }

  ghost predicate Stacked(stack: seq<byte>, top: nat, text: seq<byte>) {
    top == |text| <= |stack| && forall i :: 0 <= i < top ==> stack[i] == text[top - 1 - i]
  }

  /** Half-way: `rest` is still to be spelled, the end of `text` is on the stack. */
  ghost predicate Unwound(stack: seq<byte>, top: nat, rest: seq<byte>, text: seq<byte>) {
    && top + |rest| == |text| <= |stack| && rest == text[..|rest|]
    && forall i :: 0 <= i < top ==> stack[i] == text[|text| - 1 - i]
  }

  lemma UnwindStep(stack: seq<byte>, top: nat, rest: seq<byte>, text: seq<byte>)
    requires Unwound(stack, top, rest, text) && rest != []
    ensures top < |stack| && rest[0] == text[0]
    ensures Unwound(stack[top := rest[|rest| - 1]], top + 1, rest[..|rest| - 1], text)
  {
  }

  lemma AllUnwound(stack: seq<byte>, text: seq<byte>)
    requires Unwound(stack, |text|, [], text)
    ensures Stacked(stack, |text|, text)
  {
  }

  datatype BlockHeads = Fault | Extension | ImageBlock

  ghost function AfterChain(hd: Header, at: nat): nat
    requires hd.Valid()
  {
    match Skip(hd.data, at) case None => 0 case Some(e) => Count(hd, e)
  }

  lemma ChainCounts(hd: Header, at: nat)
    requires hd.Valid()
    ensures AfterChain(hd, at) == match Skip(hd.data, at) case None => 0 case Some(e) => Count(hd, e)
  {
  }

  lemma CountsNothing(hd: Header, at: nat)
    requires hd.Valid() && at >= |hd.data|
    ensures Count(hd, at) == 0
  {
  }

  lemma AddByte(bits: seq<bool>, rest: seq<byte>)
    requires rest != []
    ensures Val(bits + ByteBits(rest[0])) == Val(bits) + rest[0] * Pow2(|bits|)
    ensures bits + BitsOf(rest) == (bits + ByteBits(rest[0])) + BitsOf(rest[1..])
  {
    hide ToBits, ByteBits, Val, Pow2;
    assert bits + BitsOf(rest) == (bits + ByteBits(rest[0])) + BitsOf(rest[1..]);
    hide BitsOf;
    ValAppend(bits, rest[0]);
  }
}
