/**
 The linked dictionary of the decoder against the strings of the reference: entries point back to
 earlier codes only, and no string is longer than the pixels already produced. Both bounds together
 are why tables sized to the frame lose nothing.
 */
module LzwTables {
  import opened Bits
  import opened Lzw

  /** Entry k is the string of the code it points back to, plus one pixel. */
  ghost predicate Linked(m: nat, prefix: seq<int>, suffix: seq<byte>, dict: seq<seq<byte>>) {
    && CodeSize(m)
    && |dict| <= |prefix| == |suffix|
    && (forall k :: 0 <= k < |dict| ==> PointsBack(m, prefix[k], k))
    && (forall k :: 0 <= k < |dict| ==> dict[k] == StringOf(m, dict, prefix[k]) + [suffix[k]])
  }

  predicate PointsBack(m: nat, code: int, k: nat) {
    0 <= code < ClearCode(m) || Initial(m) <= code < Initial(m) + k
  }

  ghost function StringOf(m: nat, dict: seq<seq<byte>>, code: int): seq<byte>
    requires CodeSize(m)
  {
    if 0 <= code && Known(m, dict, code) then Text(m, dict, code) else []
  }

  /** How far strings have grown, as long as the frame is not full. */
  ghost predicate Bounded(m: nat, st: Reference) {
    && (forall k :: 0 <= k < |st.dict| ==> 0 < |st.dict[k]| <= k + 2 && |st.dict[k]| <= |st.out|)
    && (st.prev == [] ==> st.dict == [])
    && (st.prev != [] ==> |st.prev| <= |st.out| && |st.prev| <= |st.dict| + 1 && |st.dict| < |st.out|)
  }

  ghost function TextOf(m: nat, st: Reference, code: nat): seq<byte>
    requires CodeSize(m)
  {
    if code == Initial(m) + |st.dict| && st.prev != [] then st.prev + [st.prev[0]] else StringOf(m, st.dict, code)
  }

  /** Neither the format's dictionary nor the frame is ever outgrown by one more string. */
  lemma TextFits(m: nat, npix: nat, st: Reference, code: nat)
    requires WellFormed(m, st) && Bounded(m, st) && |st.out| < npix
    requires code < MAX_SLOTS && code != ClearCode(m) && code != EndCode(m)
    requires code < Initial(m) + |st.dict| || (code == Initial(m) + |st.dict| && st.prev != [])
    ensures 0 < |TextOf(m, st, code)| <= |st.out| + 1
    ensures |TextOf(m, st, code)| <= |st.dict| + 2 <= MAX_SLOTS
    ensures code < Initial(m) + |st.dict| ==> |TextOf(m, st, code)| <= |st.dict| + 1
    ensures Apply(m, npix, st, code).Next?
    ensures Apply(m, npix, st, code).st.prev == TextOf(m, st, code)
  {
    CodeSizeBounds(m);
  }

  lemma BoundedKept(m: nat, npix: nat, st: Reference, code: nat)
    requires WellFormed(m, st) && Bounded(m, st) && |st.out| < npix && code < MAX_SLOTS
    requires Apply(m, npix, st, code).Next?
    requires |Apply(m, npix, st, code).st.out| < npix
    ensures Bounded(m, Apply(m, npix, st, code).st)
  {
    CodeSizeBounds(m);
    if code != ClearCode(m) {
      TextFits(m, npix, st, code);
      var st' := Apply(m, npix, st, code).st;
      assert |st'.out| == |st.out| + |st'.prev|;
    }
  }

  /** A slot is free whenever the reference has one: the frame-sized table never fills up first. */
  lemma SlotFree(m: nat, npix: nat, st: Reference)
    requires WellFormed(m, st) && Bounded(m, st) && |st.out| < npix
    ensures st.prev != [] ==> Initial(m) + |st.dict| < Initial(m) + npix
    ensures |st.dict| <= npix
  {
  }

  lemma LinkedStrings(m: nat, prefix: seq<int>, suffix: seq<byte>, dict: seq<seq<byte>>, code: int)
    requires Linked(m, prefix, suffix, dict)
    requires Initial(m) <= code < Initial(m) + |dict|
    ensures var k := code - Initial(m);
            && StringOf(m, dict, code) == StringOf(m, dict, prefix[k]) + [suffix[k]]
            && prefix[k] < code && PointsBack(m, prefix[k], |dict|) && PointsBack(m, prefix[k], k)
  {
    CodeSizeBounds(m);
  }

  /** Adding an entry keeps every string. */
  lemma LinkedGrows(m: nat, prefix: seq<int>, suffix: seq<byte>, dict: seq<seq<byte>>,
                    prefix': seq<int>, suffix': seq<byte>, prev: int, last: byte)
    requires Linked(m, prefix, suffix, dict) && |dict| < |prefix|
    requires PointsBack(m, prev, |dict|)
    requires prefix' == prefix[|dict| := prev] && suffix' == suffix[|dict| := last]
    ensures Linked(m, prefix', suffix', dict + [StringOf(m, dict, prev) + [last]])
  {
    CodeSizeBounds(m);
    var dict' := dict + [StringOf(m, dict, prev) + [last]];
    forall k | 0 <= k < |dict'| ensures PointsBack(m, prefix'[k], k) {
      if k < |dict| { assert PointsBack(m, prefix[k], k); }
    }
    forall k | 0 <= k < |dict'| ensures dict'[k] == StringOf(m, dict', prefix'[k]) + [suffix'[k]] {
      if k < |dict| {
        assert PointsBack(m, prefix[k], k);
        assert dict[k] == StringOf(m, dict, prefix[k]) + [suffix[k]];
        assert StringOf(m, dict', prefix[k]) == StringOf(m, dict, prefix[k]);
      } else {
        assert StringOf(m, dict', prev) == StringOf(m, dict, prev);
      }
    }
  }
}
