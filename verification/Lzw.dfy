/**
 GIF's variable-width LZW, Appendix F of GIF89a, over plain strings: a reference decoder that keeps
 every dictionary string whole in a dictionary of the full 4096 codes, without any expansion stack,
 and the sub-block chain that carries the code bytes.
 */
module Lzw {
  import opened Bits

  const MAX_SLOTS := 4096
  const MAX_WIDTH := 12

  function ClearCode(m: nat): nat { Pow2(m) }
  function EndCode(m: nat): nat { Pow2(m) + 1 }
  /** The first code that stands for a dictionary entry. */
  function Initial(m: nat): nat { Pow2(m) + 2 }

  predicate CodeSize(m: int) { 1 <= m <= 8 }

  lemma CodeSizeBounds(m: nat)
    requires CodeSize(m)
    ensures 2 <= Pow2(m) <= 256
    ensures 4 <= Initial(m) <= 258
  {
    assert Pow2(1) == 2;
    assert Pow2(8) == 256;
    Pow2Monotone(1, m);
    Pow2Monotone(m, 8);
  }

  lemma Pow2Twelve()
    ensures Pow2(12) == 4096
  {
    assert Pow2(6) == 64;
    assert Pow2(12) == 64 * Pow2(6);
  }

  /** `prev` is the string of the last code, empty right after a clear; `out` the pixels so far. */
  datatype Reference = Reference(width: nat, dict: seq<seq<byte>>, prev: seq<byte>, out: seq<byte>)

  function Fresh(m: nat, out: seq<byte>): Reference { Reference(m + 1, [], [], out) }

  ghost predicate WellFormed(m: nat, st: Reference) {
    && CodeSize(m)
    && m < st.width <= MAX_WIDTH
    && Initial(m) + |st.dict| <= MAX_SLOTS
    && (forall k :: 0 <= k < |st.dict| ==> st.dict[k] != [])
  }

  predicate Known(m: nat, dict: seq<seq<byte>>, code: nat) {
    code < ClearCode(m) || Initial(m) <= code < Initial(m) + |dict|
  }

  /** The pixels a known code stands for. */
  function Text(m: nat, dict: seq<seq<byte>>, code: nat): (s: seq<byte>)
    requires CodeSize(m) && Known(m, dict, code)
  {
    CodeSizeBounds(m);
    if code < ClearCode(m) then [code] else dict[code - Initial(m)]
  }

  datatype Step = Next(st: Reference) | Stop | Bad

  /** What one code does. Only the code about to be defined may be used before its definition. */
  function Apply(m: nat, npix: nat, st: Reference, code: nat): (s: Step)
    requires WellFormed(m, st) && |st.out| <= npix
    ensures s.Next? ==> WellFormed(m, s.st) && |s.st.out| <= npix && st.out <= s.st.out
  {
    CodeSizeBounds(m);
    var next := Initial(m) + |st.dict|;
    if code == ClearCode(m) then Next(Fresh(m, st.out))
    else if code == EndCode(m) then Stop
    else if code > next || (code == next && st.prev == []) then Bad
    else
      var text := if code == next then st.prev + [st.prev[0]] else Text(m, st.dict, code);
      var adds := st.prev != [] && next < MAX_SLOTS;
      var dict := if adds then st.dict + [st.prev + [text[0]]] else st.dict;
      var width := if adds && next + 1 == Pow2(st.width) && st.width < MAX_WIDTH then st.width + 1 else st.width;
      Next(Reference(width, dict, text, Emit(st.out, text, npix)))
  }

  /** Pixels beyond the frame are dropped. */
  function Emit(out: seq<byte>, text: seq<byte>, npix: nat): (r: seq<byte>)
    requires |out| <= npix
    ensures |r| <= npix && out <= r
    ensures |out| + |text| <= npix ==> r == out + text
  {
    if |text| <= npix - |out| then out + text else out + text[..npix - |out|]
  }

  datatype Verdict = Corrupt | Pixels(out: seq<byte>)

  /** Runs over the code bits until the frame is full, the stream ends or a code is impossible. */
  function Decode(m: nat, npix: nat, st: Reference, bits: seq<bool>): (v: Verdict)
    requires WellFormed(m, st) && |st.out| <= npix
    ensures v.Pixels? ==> |v.out| <= npix && st.out <= v.out
    decreases |bits|
  {
    if |st.out| == npix || |bits| < st.width then Pixels(st.out)
    else
      match Apply(m, npix, st, Val(bits[..st.width]))
      case Bad => Corrupt
      case Stop => Pixels(st.out)
      case Next(st') => Decode(m, npix, st', bits[st.width..])
  }

  /** A stream that ends early leaves the rest of the frame at the fill index. */
  function Fill(out: seq<byte>, npix: nat, index: byte): (r: seq<byte>)
    requires |out| <= npix
    ensures |r| == npix && out <= r
  {
    out + seq(npix - |out|, i => index)
  }

  // ----- sub-block chains, section 15 of GIF89a -----

  /** The code bytes still to be read when `left` bytes of the current sub-block remain at `pos`. */
  function Payload(data: seq<byte>, pos: nat, left: nat): (s: seq<byte>)
    decreases |data| - pos
  {
    if pos >= |data| then []
    else if left > 0 then [data[pos]] + Payload(data, pos + 1, left - 1)
    else if data[pos] == 0 then []
    else Payload(data, pos + 1, data[pos])
  }

  /** Where the chain ends: behind its terminator, or at the end of the data when it is cut off. */
  function ChainEnd(data: seq<byte>, pos: nat, left: nat): (end: nat)
    ensures pos <= |data| ==> pos <= end <= |data|
    decreases |data| - pos
  {
    if pos >= |data| then |data|
    else if left > 0 then ChainEnd(data, pos + 1, left - 1)
    else if data[pos] == 0 then pos + 1
    else ChainEnd(data, pos + 1, data[pos])
  }

  /** Stepping over the rest of a sub-block ends where reading it would. */
  lemma {:induction false} ChainEndSkips(data: seq<byte>, pos: nat, left: nat)
    ensures ChainEnd(data, pos, left) == ChainEnd(data, pos + left, 0)
    decreases left
  {
    if pos < |data| && left > 0 { ChainEndSkips(data, pos + 1, left - 1); }
  }

  /** A whole frame: verdict and indices for the chain at `pos`. */
  function Frame(data: seq<byte>, pos: nat, m: nat, npix: nat, index: byte): (v: Verdict)
    requires CodeSize(m)
    ensures v.Pixels? ==> |v.out| == npix
  {
    CodeSizeBounds(m);
    match Decode(m, npix, Fresh(m, []), BitsOf(Payload(data, pos, 0)))
    case Corrupt => Corrupt
    case Pixels(out) => Pixels(Fill(out, npix, index))
  }
}
