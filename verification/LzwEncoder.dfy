/**
 The encoder's side of Appendix F of GIF89a, written without reference to the decoder: its own
 table, its own width rule, any choice of matches and of clear codes, LSB-first packing and any cut
 into sub-blocks. The decoder must give back the pixels of every stream it can produce.
 */
module LzwEncoder {
  import opened Bits
  import opened Lzw

  datatype Token = Clear | Code(code: nat)

  /** After a match the encoder defines the match extended by the pixel that follows it. */
  function Learn(m: nat, table: seq<seq<byte>>, pixels: seq<byte>, n: nat): (t: seq<seq<byte>>)
    requires 0 < n <= |pixels|
  {
    if n < |pixels| && Initial(m) + |table| < MAX_SLOTS then table + [pixels[..n + 1]] else table
  }

  ghost predicate TableOk(m: nat, table: seq<seq<byte>>) {
    && CodeSize(m)
    && Initial(m) + |table| <= MAX_SLOTS
    && (forall k :: 0 <= k < |table| ==> table[k] != [])
  }

  /** Each code stands for the next pixels; a clear may come before any of them. */
  ghost predicate Encodes(m: nat, table: seq<seq<byte>>, tokens: seq<Token>, pixels: seq<byte>)
    requires TableOk(m, table)
    decreases |tokens|
  {
    if tokens == [] then pixels == []
    else if tokens[0].Clear? then
      CodeSizeBounds(m);
      Encodes(m, [], tokens[1..], pixels)
    else
      && Known(m, table, tokens[0].code)
      && var text := Text(m, table, tokens[0].code);
      && text <= pixels && text != []
      && Encodes(m, Learn(m, table, pixels, |text|), tokens[1..], pixels[|text|..])
  }

  /** The least width, from `w` up to 12, that holds every code defined so far. */
  function Width(codes: nat, w: nat): (r: nat)
    ensures w <= MAX_WIDTH ==> w <= r <= MAX_WIDTH
    decreases MAX_WIDTH - w
  {
    if w >= MAX_WIDTH || codes <= Pow2(w) then w else Width(codes, w + 1)
  }

  function TokenCode(m: nat, token: Token): nat { if token.Clear? then ClearCode(m) else token.code }

  ghost function EncodedBits(m: nat, table: seq<seq<byte>>, tokens: seq<Token>, pixels: seq<byte>): (bits: seq<bool>)
    requires TableOk(m, table) && Encodes(m, table, tokens, pixels)
    decreases |tokens|
  {
    if tokens == [] then []
    else
      CodeSizeBounds(m);
      ToBits(TokenCode(m, tokens[0]), Width(Initial(m) + |table|, m + 1)) +
      if tokens[0].Clear? then EncodedBits(m, [], tokens[1..], pixels)
      else
        var n := |Text(m, table, tokens[0].code)|;
        EncodedBits(m, Learn(m, table, pixels, n), tokens[1..], pixels[n..])
  }

  // ----- the decoder follows the encoder one entry behind -----

  /** The entry the encoder already has and the decoder defines with the next code. */
  function Pending(m: nat, st: Reference, pixels: seq<byte>): seq<seq<byte>>
  {
    if st.prev != [] && pixels != [] && Initial(m) + |st.dict| < MAX_SLOTS then [st.prev + [pixels[0]]] else []
  }

  ghost predicate Follows(m: nat, st: Reference, table: seq<seq<byte>>, pixels: seq<byte>) {
    && table == st.dict + Pending(m, st, pixels)
    && (st.prev == [] ==> st.dict == [])
    && st.width == Width(Initial(m) + |st.dict| + (if st.prev == [] then 0 else 1), m + 1)
  }

  lemma {:induction false} WidthHolds(codes: nat, w: nat)
    requires w <= MAX_WIDTH && codes <= MAX_SLOTS
    ensures codes <= Pow2(Width(codes, w))
    decreases MAX_WIDTH - w
  {
    Pow2Twelve();
    if w < MAX_WIDTH && codes > Pow2(w) { WidthHolds(codes, w + 1); }
  }

  /** One more code needs at most one more bit, and needs it exactly when the width is full. */
  lemma {:induction false} WidthStep(codes: nat, w: nat)
    requires w <= MAX_WIDTH && codes <= MAX_SLOTS && 0 < codes
    ensures Width(codes + 1, w) ==
              if codes == Pow2(Width(codes, w)) && Width(codes, w) < MAX_WIDTH then Width(codes, w) + 1
              else Width(codes, w)
    decreases MAX_WIDTH - w
  {
    if w < MAX_WIDTH {
      if codes > Pow2(w) {
        WidthStep(codes, w + 1);
      } else {
        Pow2Monotone(w, w + 1);
      }
    }
  }

  lemma FullWidth(m: nat, dict: nat)
    requires CodeSize(m) && Initial(m) + dict >= MAX_SLOTS
    ensures Width(Initial(m) + dict, m + 1) == Width(Initial(m) + dict + 1, m + 1) == MAX_WIDTH
  {
    TopWidth(Initial(m) + dict, m + 1);
    TopWidth(Initial(m) + dict + 1, m + 1);
  }

  lemma {:induction false} TopWidth(codes: nat, w: nat)
    requires w <= MAX_WIDTH && codes >= MAX_SLOTS
    ensures Width(codes, w) == MAX_WIDTH
    decreases MAX_WIDTH - w
  {
    if w < MAX_WIDTH {
      Pow2Twelve();
      Pow2Monotone(w, 12);
      TopWidth(codes, w + 1);
    }
  }

  /** The encoder writes each code at the width the decoder reads it at. */
  lemma SameWidth(m: nat, st: Reference, table: seq<seq<byte>>, pixels: seq<byte>)
    requires WellFormed(m, st) && Follows(m, st, table, pixels) && pixels != []
    ensures Width(Initial(m) + |table|, m + 1) == st.width
  {
    hide Width, Pow2;
    if st.prev != [] && Initial(m) + |st.dict| == MAX_SLOTS { FullWidth(m, |st.dict|); }
  }

  lemma FreshFollows(m: nat, out: seq<byte>, pixels: seq<byte>)
    requires CodeSize(m)
    ensures Follows(m, Fresh(m, out), [], pixels)
  {
    CodeSizeBounds(m);
    assert Pow2(m + 1) == 2 * Pow2(m);
  }

  /** A code of the encoder is legal for the decoder, means the same pixels and keeps them in step. */
  lemma CodeFollows(m: nat, npix: nat, st: Reference, table: seq<seq<byte>>, code: nat, pixels: seq<byte>)
    requires 2 <= m && WellFormed(m, st) && TableOk(m, table) && Follows(m, st, table, pixels)
    requires |st.out| + |pixels| <= npix
    requires Known(m, table, code)
    requires var text := Text(m, table, code); text != [] && text <= pixels
    ensures var text := Text(m, table, code);
            var s := Apply(m, npix, st, code);
            && s.Next? && s.st.out == st.out + text && s.st.prev == text
            && Follows(m, s.st, Learn(m, table, pixels, |text|), pixels[|text|..])
  {
    hide Apply, Text, WellFormed, Width, Pow2, Initial;
    CodeMeans(m, npix, st, table, code, pixels);
    var text := Text(m, table, code);
    WidthFollows(m, npix, st, code);
    var rest := pixels[|text|..];
    if rest != [] && Initial(m) + |table| < MAX_SLOTS {
      assert pixels[..|text| + 1] == text + [rest[0]];
    }
  }

  lemma CodeMeans(m: nat, npix: nat, st: Reference, table: seq<seq<byte>>, code: nat, pixels: seq<byte>)
    requires WellFormed(m, st) && TableOk(m, table) && Follows(m, st, table, pixels)
    requires |st.out| + |pixels| <= npix
    requires Known(m, table, code)
    requires var text := Text(m, table, code); text != [] && text <= pixels
    ensures code != ClearCode(m)
    ensures var text := Text(m, table, code);
            var s := Apply(m, npix, st, code);
            s.Next? && s.st.out == st.out + text && s.st.prev == text && s.st.dict == table
  {
    CodeSizeBounds(m);
    hide Width;
    var text := Text(m, table, code);
    var next := Initial(m) + |st.dict|;
    assert text[0] == pixels[0];
    if Initial(m) <= code < next {
      assert table[code - Initial(m)] == st.dict[code - Initial(m)];
    } else if code >= next {
      assert code == next && text == st.prev + [pixels[0]];
      assert text[0] == st.prev[0];
    }
  }

  lemma WidthFollows(m: nat, npix: nat, st: Reference, code: nat)
    requires 2 <= m && WellFormed(m, st) && |st.out| <= npix
    requires (st.prev == [] ==> st.dict == [])
    requires st.width == Width(Initial(m) + |st.dict| + (if st.prev == [] then 0 else 1), m + 1)
    requires code != ClearCode(m) && Apply(m, npix, st, code).Next?
    ensures var st' := Apply(m, npix, st, code).st;
            st'.width == Width(Initial(m) + |st'.dict| + 1, m + 1)
  {
    hide *;
    ApplyWidth(m, npix, st, code);
    if st.prev == [] {
      FirstWidth(m);
    } else if Initial(m) + |st.dict| < MAX_SLOTS {
      WidthStep(Initial(m) + |st.dict| + 1, m + 1);
    }
  }

  lemma ApplyWidth(m: nat, npix: nat, st: Reference, code: nat)
    requires WellFormed(m, st) && |st.out| <= npix
    requires code != ClearCode(m) && Apply(m, npix, st, code).Next?
    ensures CodeSize(m) && m + 1 <= MAX_WIDTH && 0 < Initial(m) && Initial(m) + |st.dict| <= MAX_SLOTS
    ensures var (st', next) := (Apply(m, npix, st, code).st, Initial(m) + |st.dict|);
            if st.prev != [] && next < MAX_SLOTS then
              && |st'.dict| == |st.dict| + 1
              && st'.width == if next + 1 == Pow2(st.width) && st.width < MAX_WIDTH then st.width + 1 else st.width
            else |st'.dict| == |st.dict| && st'.width == st.width
  {
    CodeSizeBounds(m);
  }

  /** Only here does the least code size matter: 2^m + 3 codes must fit m + 1 bits. */
  lemma FirstWidth(m: nat)
    requires 2 <= m && CodeSize(m)
    ensures Width(Initial(m), m + 1) == Width(Initial(m) + 1, m + 1) == m + 1
  {
    assert Pow2(m + 1) == 2 * Pow2(m);
    Pow2Monotone(2, m);
    assert Pow2(2) == 4;
  }

  /**
   For every minimum code size from 2 up, every stream the encoder can write decodes to its pixels,
   whatever bits follow it.
   */
  lemma {:induction false} RoundTrip(m: nat, npix: nat, st: Reference, table: seq<seq<byte>>, tokens: seq<Token>,
                                     pixels: seq<byte>, tail: seq<bool>)
    requires 2 <= m && WellFormed(m, st) && TableOk(m, table) && Follows(m, st, table, pixels)
    requires Encodes(m, table, tokens, pixels)
    requires npix == |st.out| + |pixels|
    ensures Decode(m, npix, st, EncodedBits(m, table, tokens, pixels) + tail) == Pixels(st.out + pixels)
    decreases |tokens|, 1
  {
    if pixels == [] {
      assert st.out + pixels == st.out;
    } else if tokens[0].Clear? {
      ClearRoundTrip(m, npix, st, table, tokens, pixels, tail);
    } else {
      CodeRoundTrip(m, npix, st, table, tokens, pixels, tail);
    }
  }

  lemma {:induction false} ClearRoundTrip(m: nat, npix: nat, st: Reference, table: seq<seq<byte>>,
                                          tokens: seq<Token>, pixels: seq<byte>, tail: seq<bool>)
    requires 2 <= m && WellFormed(m, st) && TableOk(m, table) && Follows(m, st, table, pixels)
    requires tokens != [] && tokens[0].Clear? && Encodes(m, table, tokens, pixels)
    requires npix == |st.out| + |pixels| && pixels != []
    ensures Decode(m, npix, st, EncodedBits(m, table, tokens, pixels) + tail) == Pixels(st.out + pixels)
    decreases |tokens|, 0
  {
    hide *;
    ClearUnfolds(m, npix, st, table, tokens, pixels);
    var rest, code, st' := EncodedBits(m, [], tokens[1..], pixels), ClearCode(m), Fresh(m, st.out);
    FirstBits(m, st, table, tokens, pixels, code, rest);
    DecodeOne(m, npix, st, code, st', EncodedBits(m, table, tokens, pixels), rest, tail);
    RoundTrip(m, npix, st', [], tokens[1..], pixels, tail);
  }

  lemma ClearUnfolds(m: nat, npix: nat, st: Reference, table: seq<seq<byte>>, tokens: seq<Token>, pixels: seq<byte>)
    requires WellFormed(m, st) && TableOk(m, table) && |st.out| <= npix
    requires tokens != [] && tokens[0].Clear? && Encodes(m, table, tokens, pixels)
    ensures TokenCode(m, tokens[0]) == ClearCode(m)
    ensures TableOk(m, []) && Encodes(m, [], tokens[1..], pixels)
    ensures EncodedBits(m, table, tokens, pixels) ==
            ToBits(ClearCode(m), Width(Initial(m) + |table|, m + 1)) + EncodedBits(m, [], tokens[1..], pixels)
    ensures var st' := Fresh(m, st.out);
            && Apply(m, npix, st, ClearCode(m)) == Next(st') && WellFormed(m, st')
            && st'.out == st.out && Follows(m, st', [], pixels)
  {
    CodeSizeBounds(m);
    FreshFollows(m, st.out, pixels);
  }

  lemma {:induction false} CodeRoundTrip(m: nat, npix: nat, st: Reference, table: seq<seq<byte>>,
                                         tokens: seq<Token>, pixels: seq<byte>, tail: seq<bool>)
    requires 2 <= m && WellFormed(m, st) && TableOk(m, table) && Follows(m, st, table, pixels)
    requires tokens != [] && tokens[0].Code? && Encodes(m, table, tokens, pixels)
    requires npix == |st.out| + |pixels| && pixels != []
    ensures Decode(m, npix, st, EncodedBits(m, table, tokens, pixels) + tail) == Pixels(st.out + pixels)
    decreases |tokens|, 0
  {
    hide *;
    var code := tokens[0].code;
    CodeUnfolds(m, table, tokens, pixels);
    var text := Text(m, table, code);
    var table', pixels' := Learn(m, table, pixels, |text|), pixels[|text|..];
    var rest := EncodedBits(m, table', tokens[1..], pixels');
    FirstBits(m, st, table, tokens, pixels, code, rest);
    CodeFollows(m, npix, st, table, code, pixels);
    var st' := Apply(m, npix, st, code).st;
    DecodeOne(m, npix, st, code, st', EncodedBits(m, table, tokens, pixels), rest, tail);
    RoundTrip(m, npix, st', table', tokens[1..], pixels', tail);
    assert st'.out + pixels' == st.out + pixels;
  }

  lemma CodeUnfolds(m: nat, table: seq<seq<byte>>, tokens: seq<Token>, pixels: seq<byte>)
    requires TableOk(m, table)
    requires tokens != [] && tokens[0].Code? && Encodes(m, table, tokens, pixels)
    ensures CodeSize(m) && TokenCode(m, tokens[0]) == tokens[0].code && Known(m, table, tokens[0].code)
    ensures var text := Text(m, table, tokens[0].code);
            && text != [] && text <= pixels
            && var table' := Learn(m, table, pixels, |text|);
            && TableOk(m, table') && Encodes(m, table', tokens[1..], pixels[|text|..])
            && EncodedBits(m, table, tokens, pixels) ==
               ToBits(tokens[0].code, Width(Initial(m) + |table|, m + 1)) +
               EncodedBits(m, table', tokens[1..], pixels[|text|..])
  {
  }

  /** The first token's bits are its code, at the decoder's width. */
  lemma FirstBits(m: nat, st: Reference, table: seq<seq<byte>>, tokens: seq<Token>, pixels: seq<byte>,
                  code: nat, rest: seq<bool>)
    requires WellFormed(m, st) && TableOk(m, table) && Follows(m, st, table, pixels) && pixels != []
    requires tokens != [] && Encodes(m, table, tokens, pixels) && code == TokenCode(m, tokens[0])
    requires EncodedBits(m, table, tokens, pixels)
             == ToBits(code, Width(Initial(m) + |table|, m + 1)) + rest
    ensures code < Pow2(st.width)
    ensures EncodedBits(m, table, tokens, pixels) == ToBits(code, st.width) + rest
  {
    SameWidth(m, st, table, pixels);
    CodeFits(m, table, code);
  }

  /** Reading one code off the front of the bits. */
  lemma DecodeOne(m: nat, npix: nat, st: Reference, code: nat, st': Reference,
                  bits: seq<bool>, rest: seq<bool>, tail: seq<bool>)
    requires WellFormed(m, st) && |st.out| < npix && code < Pow2(st.width)
    requires Apply(m, npix, st, code) == Next(st')
    requires bits == ToBits(code, st.width) + rest
    ensures Decode(m, npix, st, bits + tail) == Decode(m, npix, st', rest + tail)
  {
    hide Apply, ToBits, Val, Pow2;
    ValToBits(code, st.width);
    assert (bits + tail)[..st.width] == ToBits(code, st.width);
    assert (bits + tail)[st.width..] == rest + tail;
  }

  lemma CodeFits(m: nat, table: seq<seq<byte>>, code: nat)
    requires TableOk(m, table) && (code == ClearCode(m) || Known(m, table, code))
    ensures code < Pow2(Width(Initial(m) + |table|, m + 1))
  {
    WidthHolds(Initial(m) + |table|, m + 1);
  }

  // ----- streams that stop early -----

  /** A stream that ends in a code that stands for pixels. */
  predicate EndsInCode(tokens: seq<Token>) { tokens == [] || tokens[|tokens| - 1].Code? }

  /** The width of an end code: behind every code but the first the encoder counts one more entry. */
  ghost function EndWidth(m: nat, table: seq<seq<byte>>, tokens: seq<Token>, pixels: seq<byte>, cleared: bool): nat
    requires TableOk(m, table) && Encodes(m, table, tokens, pixels)
    decreases |tokens|
  {
    if tokens == [] then Width(Initial(m) + |table| + (if cleared then 0 else 1), m + 1)
    else if tokens[0].Clear? then
      CodeSizeBounds(m);
      EndWidth(m, [], tokens[1..], pixels, true)
    else
      var n := |Text(m, table, tokens[0].code)|;
      EndWidth(m, Learn(m, table, pixels, n), tokens[1..], pixels[n..], false)
  }

  ghost function EndBits(m: nat, table: seq<seq<byte>>, tokens: seq<Token>, pixels: seq<byte>, cleared: bool): seq<bool>
    requires TableOk(m, table) && Encodes(m, table, tokens, pixels)
  {
    ToBits(EndCode(m), EndWidth(m, table, tokens, pixels, cleared))
  }

  /** With an end code behind them, fewer pixels than the frame has decode to themselves and no more. */
  lemma {:induction false} StopsEarly(m: nat, npix: nat, st: Reference, table: seq<seq<byte>>, tokens: seq<Token>,
                                      pixels: seq<byte>, tail: seq<bool>)
    requires 2 <= m && WellFormed(m, st) && TableOk(m, table) && Follows(m, st, table, pixels)
    requires Encodes(m, table, tokens, pixels) && EndsInCode(tokens) && |st.out| + |pixels| <= npix
    ensures Decode(m, npix, st, EncodedBits(m, table, tokens, pixels) +
                                (EndBits(m, table, tokens, pixels, st.prev == []) + tail)) == Pixels(st.out + pixels)
    decreases |tokens|
  {
    hide *;
    if tokens == [] {
      NothingSent(m, npix, st, table, tokens, pixels, tail);
    } else if tokens[0].Clear? {
      EndBehind(m, table, tokens, pixels, st.prev == []);
      ClearUnfolds(m, npix, st, table, tokens, pixels);
      var rest, code, st' := EncodedBits(m, [], tokens[1..], pixels), ClearCode(m), Fresh(m, st.out);
      FirstBits(m, st, table, tokens, pixels, code, rest);
      DecodeOne(m, npix, st, code, st', EncodedBits(m, table, tokens, pixels), rest,
                EndBits(m, table, tokens, pixels, st.prev == []) + tail);
      StartsEmpty(m, st.out);
      StopsEarly(m, npix, st', [], tokens[1..], pixels, tail);
    } else {
      var code := tokens[0].code;
      CodeUnfolds(m, table, tokens, pixels);
      EndBehind(m, table, tokens, pixels, st.prev == []);
      var text := Text(m, table, code);
      var table', pixels' := Learn(m, table, pixels, |text|), pixels[|text|..];
      var rest := EncodedBits(m, table', tokens[1..], pixels');
      FirstBits(m, st, table, tokens, pixels, code, rest);
      CodeFollows(m, npix, st, table, code, pixels);
      var st' := Apply(m, npix, st, code).st;
      DecodeOne(m, npix, st, code, st', EncodedBits(m, table, tokens, pixels), rest,
                EndBits(m, table, tokens, pixels, st.prev == []) + tail);
      StopsEarly(m, npix, st', table', tokens[1..], pixels', tail);
      assert st'.out + pixels' == st.out + pixels;
    }
  }

  lemma StartsEmpty(m: nat, out: seq<byte>)
    ensures Fresh(m, out).prev == [] && Fresh(m, out).out == out
  {
  }

  lemma EndBehind(m: nat, table: seq<seq<byte>>, tokens: seq<Token>, pixels: seq<byte>, cleared: bool)
    requires TableOk(m, table) && Encodes(m, table, tokens, pixels) && tokens != [] && EndsInCode(tokens)
    ensures pixels != [] && EndsInCode(tokens[1..])
    ensures tokens[0].Clear? ==>
              && TableOk(m, []) && Encodes(m, [], tokens[1..], pixels)
              && EndBits(m, table, tokens, pixels, cleared) == EndBits(m, [], tokens[1..], pixels, true)
    ensures tokens[0].Code? ==>
              && CodeSize(m) && Known(m, table, tokens[0].code)
              && var n := |Text(m, table, tokens[0].code)|;
              && 0 < n <= |pixels|
              && var table' := Learn(m, table, pixels, n);
              && TableOk(m, table') && Encodes(m, table', tokens[1..], pixels[n..])
              && EndBits(m, table, tokens, pixels, cleared) == EndBits(m, table', tokens[1..], pixels[n..], false)
  {
    SomePixel(m, table, tokens, pixels);
  }

  lemma {:induction false} SomePixel(m: nat, table: seq<seq<byte>>, tokens: seq<Token>, pixels: seq<byte>)
    requires TableOk(m, table) && Encodes(m, table, tokens, pixels) && tokens != [] && EndsInCode(tokens)
    ensures pixels != []
    decreases |tokens|
  {
    if tokens[0].Clear? { SomePixel(m, [], tokens[1..], pixels); }
  }

  lemma NothingSent(m: nat, npix: nat, st: Reference, table: seq<seq<byte>>, tokens: seq<Token>, pixels: seq<byte>,
                    tail: seq<bool>)
    requires 2 <= m && WellFormed(m, st) && TableOk(m, table) && Follows(m, st, table, pixels)
    requires tokens == [] && Encodes(m, table, tokens, pixels) && |st.out| <= npix
    ensures Decode(m, npix, st, EncodedBits(m, table, tokens, pixels) +
                                (EndBits(m, table, tokens, pixels, st.prev == []) + tail)) == Pixels(st.out + pixels)
  {
    var bits := EndBits(m, table, tokens, pixels, st.prev == []);
    assert EncodedBits(m, table, tokens, pixels) + (bits + tail) == bits + tail;
    assert st.out + pixels == st.out;
    assert bits == ToBits(EndCode(m), st.width);
    hide *;
    EndEnds(m, npix, st, bits, tail);
  }

  lemma EndEnds(m: nat, npix: nat, st: Reference, bits: seq<bool>, tail: seq<bool>)
    requires WellFormed(m, st) && |st.out| <= npix && bits == ToBits(EndCode(m), st.width)
    ensures Decode(m, npix, st, bits + tail) == Pixels(st.out)
  {
    hide Apply, ToBits, Val, Pow2;
    EndFits(m, st);
    ValToBits(EndCode(m), st.width);
    assert (bits + tail)[..st.width] == bits;
    if |st.out| < npix { EndStops(m, npix, st); }
  }

  lemma EndStops(m: nat, npix: nat, st: Reference)
    requires WellFormed(m, st) && |st.out| <= npix
    ensures Apply(m, npix, st, EndCode(m)) == Stop
  {
    CodeSizeBounds(m);
  }

  lemma EndFits(m: nat, st: Reference)
    requires WellFormed(m, st)
    ensures EndCode(m) < Pow2(st.width)
  {
    CodeSizeBounds(m);
    Pow2Monotone(m + 1, st.width);
  }

  // ----- exactly which minimum code sizes are safe -----

  ghost predicate Inverts(m: nat, tokens: seq<Token>, pixels: seq<byte>, tail: seq<bool>)
    requires CodeSize(m) && TableOk(m, []) && Encodes(m, [], tokens, pixels)
    requires WellFormed(m, Fresh(m, []))
  {
    Decode(m, |pixels|, Fresh(m, []), EncodedBits(m, [], tokens, pixels) + tail) == Pixels(pixels)
  }

  lemma StartsClean(m: nat)
    requires CodeSize(m)
    ensures TableOk(m, []) && WellFormed(m, Fresh(m, []))
  {
    CodeSizeBounds(m);
  }

  ghost predicate InvertsAll(m: nat)
    requires CodeSize(m)
  {
    StartsClean(m);
    forall tokens, pixels, tail :: Encodes(m, [], tokens, pixels) ==> Inverts(m, tokens, pixels, tail)
  }

  /**
   The decoder inverts every encoder exactly for minimum code sizes of at least 2. With size 1 the
   first free code already equals the first width's limit, so the test for "just reached the limit"
   never succeeds and the width stays at 2 bits.
   */
  lemma RoundTripExactly(m: nat)
    requires CodeSize(m)
    ensures InvertsAll(m) <==> m >= 2
  {
    StartsClean(m);
    if m >= 2 {
      hide *;
      forall tokens, pixels, tail | Encodes(m, [], tokens, pixels) ensures Inverts(m, tokens, pixels, tail) {
        InvertsFrom2(m, tokens, pixels, tail);
      }
      AllInverted(m);
    } else {
      FailsAtOne();
    }
  }

  lemma AllInverted(m: nat)
    requires CodeSize(m) && TableOk(m, []) && WellFormed(m, Fresh(m, []))
    requires forall tokens, pixels, tail :: Encodes(m, [], tokens, pixels) ==> Inverts(m, tokens, pixels, tail)
    ensures InvertsAll(m)
  {
  }

  lemma InvertsFrom2(m: nat, tokens: seq<Token>, pixels: seq<byte>, tail: seq<bool>)
    requires 2 <= m && CodeSize(m) && TableOk(m, []) && WellFormed(m, Fresh(m, []))
    requires Encodes(m, [], tokens, pixels)
    ensures Inverts(m, tokens, pixels, tail)
  {
    hide Decode, Encodes, EncodedBits;
    FreshFollows(m, [], pixels);
    RoundTrip(m, |pixels|, Fresh(m, []), [], tokens, pixels, tail);
    assert [] + pixels == pixels;
  }

  lemma FailsAtOne()
    ensures CodeSize(1) && !InvertsAll(1)
  {
    hide Decode, Encodes, EncodedBits;
    OneBitStream();
    var pixels: seq<byte>, wrong: seq<byte> := [0, 1, 1], [0, 1, 0];
    assert pixels[2] != wrong[2];
    assert !Inverts(1, [Code(0), Code(1), Code(1)], pixels, []);
  }

  /** The concrete stream: three pixels 0, 1, 1 sent as three literals come back as 0, 1, 0. */
  lemma OneBitStream()
    ensures TableOk(1, []) && Encodes(1, [], [Code(0), Code(1), Code(1)], [0, 1, 1])
    ensures WellFormed(1, Fresh(1, []))
    ensures Decode(1, 3, Fresh(1, []), EncodedBits(1, [], [Code(0), Code(1), Code(1)], [0, 1, 1]) + []) == Pixels([0, 1, 0])
  {
    var t1: seq<seq<byte>> := [[0, 1]];
    var t2: seq<seq<byte>> := [[0, 1], [1, 1]];
    assert Pow2(1) == 2 && Pow2(2) == 4 && Pow2(3) == 8;
    var p3: seq<byte>, p2: seq<byte> := [0, 1, 1], [1, 1];
    assert p3[..2] == [0, 1] && p3[1..] == p2 && p2[..2] == [1, 1] && p2[1..] == [1];
    assert [Code(1), Code(1)][1..] == [Code(1)] && [Code(0), Code(1), Code(1)][1..] == [Code(1), Code(1)];
    assert Learn(1, [], p3, 1) == t1 && Learn(1, t1, p2, 1) == t2;
    OneBitTail(t1, t2);
    var bits := [false, false, true, false, false, true, false, false];
    assert EncodedBits(1, [], [Code(0), Code(1), Code(1)], p3) + [] == bits;
    OneBitDecode(bits);
  }

  lemma OneBitTail(t1: seq<seq<byte>>, t2: seq<seq<byte>>)
    requires t1 == [[0, 1]] && t2 == [[0, 1], [1, 1]]
    ensures TableOk(1, t1) && TableOk(1, t2)
    ensures Encodes(1, t1, [Code(1), Code(1)], [1, 1])
    ensures EncodedBits(1, t1, [Code(1), Code(1)], [1, 1]) == [true, false, false, true, false, false]
  {
    assert Pow2(1) == 2 && Pow2(2) == 4 && Pow2(3) == 8;
    var p2: seq<byte> := [1, 1];
    assert p2[..2] == [1, 1] && p2[1..] == [1] && [Code(1), Code(1)][1..] == [Code(1)];
    assert Learn(1, t1, p2, 1) == t2;
    assert Encodes(1, t2, [Code(1)], [1]);
    assert EncodedBits(1, t2, [Code(1)], [1]) == [true, false, false];
  }

  lemma OneBitDecode(bits: seq<bool>)
    requires bits == [false, false, true, false, false, true, false, false]
    ensures WellFormed(1, Fresh(1, [])) && Decode(1, 3, Fresh(1, []), bits) == Pixels([0, 1, 0])
  {
    OneBitSteps();
    var (s1, s2) := (Reference(2, [], [0], [0]), Reference(2, [[0, 1]], [1], [0, 1]));
    var (s3, s4) := (Fresh(1, [0, 1]), Reference(2, [], [0], [0, 1, 0]));
    hide Apply, Val;
    assert bits[..2] == [false, false] && bits[2..][..2] == [true, false];
    assert bits[4..][..2] == [false, true] && bits[6..][..2] == [false, false];
    assert bits[2..][2..] == bits[4..] && bits[4..][2..] == bits[6..];
    assert Decode(1, 3, s4, bits[6..][2..]) == Pixels([0, 1, 0]);
    assert Decode(1, 3, s3, bits[6..]) == Pixels([0, 1, 0]);
    assert Decode(1, 3, s2, bits[4..]) == Pixels([0, 1, 0]);
    assert Decode(1, 3, s1, bits[2..]) == Pixels([0, 1, 0]);
  }

  lemma OneBitSteps()
    ensures WellFormed(1, Fresh(1, [])) && WellFormed(1, Fresh(1, [0, 1]))
    ensures Val([false, false]) == 0 && Val([true, false]) == 1 && Val([false, true]) == 2
    ensures var (s1, s2) := (Reference(2, [], [0], [0]), Reference(2, [[0, 1]], [1], [0, 1]));
            var (s3, s4) := (Fresh(1, [0, 1]), Reference(2, [], [0], [0, 1, 0]));
            && WellFormed(1, s1) && WellFormed(1, s2) && WellFormed(1, s4)
            && Apply(1, 3, Fresh(1, []), 0) == Next(s1) && Apply(1, 3, s1, 1) == Next(s2)
            && Apply(1, 3, s2, 2) == Next(s3) && Apply(1, 3, s3, 0) == Next(s4)
  {
    assert Pow2(1) == 2 && Pow2(2) == 4;
    var s1 := Reference(2, [], [0], [0]);
    var dict: seq<seq<byte>> := [[0, 1]];
    assert s1.dict + [s1.prev + [1]] == dict by { assert s1.prev + [1] == [0, 1]; }
  }

  // ----- a longest-match encoder is one of them, so every image has a stream -----

  function Longest(m: nat, table: seq<seq<byte>>, pixels: seq<byte>, k: nat): (code: nat)
    requires CodeSize(m) && k <= |table| && pixels != [] && pixels[0] < ClearCode(m)
    ensures Known(m, table, code) && Text(m, table, code) != [] && Text(m, table, code) <= pixels
    ensures forall i :: 0 <= i < k && table[i] <= pixels ==> |table[i]| <= |Text(m, table, code)|
  {
    if k == 0 then pixels[0]
    else
      var best := Longest(m, table, pixels, k - 1);
      if table[k - 1] <= pixels && |table[k - 1]| > |Text(m, table, best)| then Initial(m) + k - 1 else best
  }

  function Greedy(m: nat, table: seq<seq<byte>>, pixels: seq<byte>): (tokens: seq<Token>)
    requires CodeSize(m) && forall i :: 0 <= i < |pixels| ==> pixels[i] < ClearCode(m)
    decreases |pixels|
  {
    if pixels == [] then []
    else
      var code := Longest(m, table, pixels, |table|);
      var n := |Text(m, table, code)|;
      [Code(code)] + Greedy(m, Learn(m, table, pixels, n), pixels[n..])
  }

  lemma {:induction false} GreedyEncodes(m: nat, table: seq<seq<byte>>, pixels: seq<byte>)
    requires TableOk(m, table) && forall i :: 0 <= i < |pixels| ==> pixels[i] < ClearCode(m)
    ensures Encodes(m, table, Greedy(m, table, pixels), pixels)
    decreases |pixels|
  {
    if pixels != [] {
      var code := Longest(m, table, pixels, |table|);
      var n := |Text(m, table, code)|;
      GreedyEncodes(m, Learn(m, table, pixels, n), pixels[n..]);
      assert Greedy(m, table, pixels)[1..] == Greedy(m, Learn(m, table, pixels, n), pixels[n..]);
    }
  }

  // ----- cut into sub-blocks anywhere -----

  predicate Blocks(blocks: seq<seq<byte>>) { forall i :: 0 <= i < |blocks| ==> 1 <= |blocks[i]| <= 255 }

  function Flatten(blocks: seq<seq<byte>>): seq<byte> {
    if blocks == [] then [] else blocks[0] + Flatten(blocks[1..])
  }

  function Chain(blocks: seq<seq<byte>>): seq<byte>
    requires Blocks(blocks)
  {
    if blocks == [] then [0] else [|blocks[0]|] + blocks[0] + Chain(blocks[1..])
  }

  lemma {:induction false} PayloadOfBlock(data: seq<byte>, pos: nat, left: nat)
    requires pos + left <= |data|
    ensures Payload(data, pos, left) == data[pos..pos + left] + Payload(data, pos + left, 0)
    ensures ChainEnd(data, pos, left) == ChainEnd(data, pos + left, 0)
    decreases left
  {
    if left > 0 {
      PayloadOfBlock(data, pos + 1, left - 1);
      assert data[pos..pos + left] == [data[pos]] + data[pos + 1..pos + left];
    }
  }

  lemma OneBlock(data: seq<byte>, pos: nat, n: nat)
    requires n > 0 && pos + 1 + n <= |data| && data[pos] == n
    ensures Payload(data, pos, 0) == data[pos + 1..pos + 1 + n] + Payload(data, pos + 1 + n, 0)
    ensures ChainEnd(data, pos, 0) == ChainEnd(data, pos + 1 + n, 0)
  {
    PayloadOfBlock(data, pos + 1, n);
  }

  /** `part` stands in the data at `pos`. */
  predicate At(data: seq<byte>, pos: nat, part: seq<byte>) {
    pos + |part| <= |data| && data[pos..pos + |part|] == part
  }

  lemma AtParts(data: seq<byte>, pos: nat, a: seq<byte>, b: seq<byte>)
    requires At(data, pos, a + b)
    ensures At(data, pos, a) && At(data, pos + |a|, b)
  {
    var n := |a| + |b|;
    SubSlice(data, pos, pos + n, 0, |a|);
    SubSlice(data, pos, pos + n, |a|, n);
    assert (a + b)[..|a|] == a && (a + b)[|a|..] == b;
  }

  /** Reading a chain gives back its blocks joined, and ends right behind it. */
  lemma {:induction false} ChainRoundTrip(data: seq<byte>, pos: nat, blocks: seq<seq<byte>>)
    requires Blocks(blocks) && At(data, pos, Chain(blocks))
    ensures Payload(data, pos, 0) == Flatten(blocks)
    ensures ChainEnd(data, pos, 0) == pos + |Chain(blocks)|
    decreases |blocks|
  {
    if blocks == [] {
      assert data[pos..pos + 1][0] == data[pos];
    } else {
      hide *;
      ChainParts(data, pos, blocks);
      OneBlock(data, pos, |blocks[0]|);
      ChainRoundTrip(data, pos + 1 + |blocks[0]|, blocks[1..]);
    }
  }

  lemma ChainParts(data: seq<byte>, pos: nat, blocks: seq<seq<byte>>)
    requires Blocks(blocks) && At(data, pos, Chain(blocks)) && blocks != []
    ensures var (n, rest) := (|blocks[0]|, blocks[1..]);
            && n > 0 && pos + 1 + n <= |data| && data[pos] == n && data[pos + 1..pos + 1 + n] == blocks[0]
            && Blocks(rest) && At(data, pos + 1 + n, Chain(rest)) && |Chain(blocks)| == 1 + n + |Chain(rest)|
            && Flatten(blocks) == blocks[0] + Flatten(rest)
  {
    var block, rest, size: seq<byte> := blocks[0], Chain(blocks[1..]), [|blocks[0]|];
    assert Chain(blocks) == size + (block + rest);
    hide Chain, Flatten, At;
    AtParts(data, pos, size, block + rest);
    AtParts(data, pos + 1, block, rest);
    AtIs(data, pos, size);
    AtIs(data, pos + 1, block);
    assert Flatten(blocks) == block + Flatten(blocks[1..]) by { FlattenIs(blocks); }
  }

  lemma AtIs(data: seq<byte>, pos: nat, part: seq<byte>)
    requires At(data, pos, part)
    ensures pos + |part| <= |data| && data[pos..pos + |part|] == part
    ensures part != [] ==> data[pos] == part[0]
  {
    if part != [] { assert data[pos..pos + |part|][0] == data[pos]; }
  }

  lemma FlattenIs(blocks: seq<seq<byte>>)
    requires blocks != []
    ensures Flatten(blocks) == blocks[0] + Flatten(blocks[1..])
  {
  }

  /**
   The whole way: pixels encoded, packed and cut into sub-blocks in any way, with anything behind
   them, decode to exactly those pixels and leave the reader behind the chain.
   */
  lemma FrameRoundTrip(data: seq<byte>, pos: nat, m: nat, tokens: seq<Token>, pixels: seq<byte>,
                       blocks: seq<seq<byte>>, index: byte)
    requires 2 <= m && CodeSize(m) && TableOk(m, []) && Encodes(m, [], tokens, pixels)
    requires Blocks(blocks) && At(data, pos, Chain(blocks))
    requires EncodedBits(m, [], tokens, pixels) <= BitsOf(Flatten(blocks))
    ensures Frame(data, pos, m, |pixels|, index) == Pixels(pixels)
    ensures ChainEnd(data, pos, 0) == pos + |Chain(blocks)|
  {
    ChainRoundTrip(data, pos, blocks);
    var sent, bits := EncodedBits(m, [], tokens, pixels), BitsOf(Flatten(blocks));
    assert bits == sent + bits[|sent|..];
    RoundTripExactly(m);
    StartsClean(m);
    assert Inverts(m, tokens, pixels, bits[|sent|..]);
  }

  /** Fewer pixels with an end code behind them: the rest of the frame has the fill index. */
  lemma FrameCutShort(data: seq<byte>, pos: nat, m: nat, tokens: seq<Token>, pixels: seq<byte>, npix: nat,
                      blocks: seq<seq<byte>>, index: byte)
    requires 2 <= m && CodeSize(m) && TableOk(m, []) && Encodes(m, [], tokens, pixels) && EndsInCode(tokens) && |pixels| <= npix
    requires Blocks(blocks) && At(data, pos, Chain(blocks))
    requires EncodedBits(m, [], tokens, pixels) + EndBits(m, [], tokens, pixels, true) <= BitsOf(Flatten(blocks))
    ensures var v := Frame(data, pos, m, npix, index);
            v.Pixels? && pixels <= v.out && forall k :: |pixels| <= k < npix ==> v.out[k] == index
    ensures ChainEnd(data, pos, 0) == pos + |Chain(blocks)|
  {
    hide *;
    ChainRoundTrip(data, pos, blocks);
    StartsClean(m);
    StartsEmpty(m, []);
    FreshFollows(m, [], pixels);
    var sent, end := EncodedBits(m, [], tokens, pixels), EndBits(m, [], tokens, pixels, true);
    var tail := Behind(sent, end, BitsOf(Flatten(blocks)));
    StopsEarly(m, npix, Fresh(m, []), [], tokens, pixels, tail);
    assert [] + pixels == pixels;
    FrameIs(data, pos, m, npix, index, pixels);
  }

  lemma Behind(a: seq<bool>, b: seq<bool>, s: seq<bool>) returns (tail: seq<bool>)
    requires a + b <= s
    ensures s == a + (b + tail)
  {
    tail := s[|a + b|..];
    Grouped(a, b, tail);
  }

  lemma FrameIs(data: seq<byte>, pos: nat, m: nat, npix: nat, index: byte, out: seq<byte>)
    requires CodeSize(m) && WellFormed(m, Fresh(m, [])) && |out| <= npix
    requires Decode(m, npix, Fresh(m, []), BitsOf(Payload(data, pos, 0))) == Pixels(out)
    ensures var v := Frame(data, pos, m, npix, index);
            v.Pixels? && out <= v.out && forall k :: |out| <= k < npix ==> v.out[k] == index
  {
    hide Decode, BitsOf, Payload;
  }

  /** Packing into bytes gives such a stream for every image. */
  lemma EveryImageHasAStream(m: nat, pixels: seq<byte>)
    requires CodeSize(m) && forall i :: 0 <= i < |pixels| ==> pixels[i] < ClearCode(m)
    ensures TableOk(m, []) && Encodes(m, [], Greedy(m, [], pixels), pixels)
    ensures var bits := EncodedBits(m, [], Greedy(m, [], pixels), pixels); bits <= BitsOf(Pack(bits))
  {
    StartsClean(m);
    GreedyEncodes(m, [], pixels);
    PackUnpack(EncodedBits(m, [], Greedy(m, [], pixels), pixels));
  }
}
