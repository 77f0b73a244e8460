/** What every run of the GIF decoder keeps. */
module GifLaws {
  import opened Bits
  import opened Lzw
  import opened PodBuffers
  import opened Gif
  import opened Options

  // ----- counting bounds decoding -----

  datatype Call = Call(img: Image, clearFirst: bool, grants: Grants)

  ghost predicate ValidCalls(calls: seq<Call>) { forall i :: 0 <= i < |calls| ==> calls[i].img.Valid() }

  /**
   Frames decoded by a run of calls up to the first end or error. Every call may bring a canvas and
   memory of its own; a call refused for memory is simply followed by the next one.
   */
  ghost function FramesDecoded(hd: Header, st: State, calls: seq<Call>): nat
    requires hd.Valid() && st.Valid() && ValidCalls(calls)
    decreases |calls|
  {
    if calls == [] then 0
    else
      match NextFrame(hd, st, calls[0].img, calls[0].clearFirst, calls[0].grants)
      case Frame_(st', _, _) => 1 + FramesDecoded(hd, st', calls[1..])
      case Oom(st') => FramesDecoded(hd, st', calls[1..])
      case End(_) => 0
      case Error => 0
  }

  /** One call uses up the descriptor it decodes and never goes back before one it has passed. */
  lemma {:induction false} CountDrops(hd: Header, st: State, img: Image, clearFirst: bool, grants: Grants)
    requires hd.Valid() && st.Valid() && img.Valid()
    ensures var r := NextFrame(hd, st, img, clearFirst, grants);
            && (r.Frame_? ==> Count(hd, r.st.pos) + 1 <= Count(hd, st.pos))
            && (r.Oom? ==> Count(hd, r.st.pos) <= Count(hd, st.pos))
    decreases |hd.data| - st.pos
  {
    if st.pos < |hd.data| {
      var b := hd.data[st.pos];
      if b == 0x2C {
        ImageCount(hd, st, img, clearFirst, grants);
      } else if b == 0x21 {
        ExtensionCount(hd, st, img, clearFirst, grants);
      }
    }
  }

  /** However early decoding stops, it goes on where stepping over the whole chain would. */
  lemma ImageCount(hd: Header, st: State, img: Image, clearFirst: bool, grants: Grants)
    requires hd.Valid() && st.Valid() && img.Valid()
    requires st.pos < |hd.data| && hd.data[st.pos] == 0x2C
    ensures var r := NextFrame(hd, st, img, clearFirst, grants);
            && (r.Frame_? ==> Count(hd, r.st.pos) + 1 <= Count(hd, st.pos))
            && (r.Oom? ==> r.st == st)
  {
    hide Disposed, Drawn, Snapshot, Frame, ChainEnd, Skip, Describe, Cleared;
    var d := Describe(hd, st.pos + 1);
    if d.Some? { SkipEnd(hd.data, d.value.at); }
  }

  lemma {:induction false} ExtensionCount(hd: Header, st: State, img: Image, clearFirst: bool, grants: Grants)
    requires hd.Valid() && st.Valid() && img.Valid()
    requires st.pos < |hd.data| && hd.data[st.pos] == 0x21
    ensures var r := NextFrame(hd, st, img, clearFirst, grants);
            && (r.Frame_? ==> Count(hd, r.st.pos) + 1 <= Count(hd, st.pos))
            && (r.Oom? ==> Count(hd, r.st.pos) <= Count(hd, st.pos))
    decreases |hd.data| - st.pos, 0
  {
    hide DecodeImage, Skip, Extended;
    var e := Extended(hd, st.(pos := st.pos + 1));
    if e.Some? { CountDrops(hd, e.value, img, clearFirst, grants); }
  }

  lemma {:induction false} FramesBounded(hd: Header, st: State, calls: seq<Call>)
    requires hd.Valid() && st.Valid() && ValidCalls(calls)
    ensures FramesDecoded(hd, st, calls) <= Count(hd, st.pos)
    decreases |calls|
  {
    if calls != [] {
      var call := calls[0];
      hide NextFrame, Count;
      CountDrops(hd, st, call.img, call.clearFirst, call.grants);
      var r := NextFrame(hd, st, call.img, call.clearFirst, call.grants);
      if r.Frame_? || r.Oom? { FramesBounded(hd, r.st, calls[1..]); }
    }
  }

  // ----- a refused allocation loses nothing -----

  /** Retrying after a refusal gives what the refused call would have given with that memory. */
  lemma {:induction false} RetryIsTransparent(hd: Header, st: State, img: Image, clearFirst: bool, refused: Grants, granted: Grants)
    requires hd.Valid() && st.Valid() && img.Valid()
    requires NextFrame(hd, st, img, clearFirst, refused).Oom?
    ensures var st' := NextFrame(hd, st, img, clearFirst, refused).st;
            && st'.(pos := st.pos, control := st.control) == st
            && NextFrame(hd, st', img, clearFirst, granted) == NextFrame(hd, st, img, clearFirst, granted)
    decreases |hd.data| - st.pos
  {
    hide DecodeImage, Extended;
    if hd.data[st.pos] == 0x21 {
      RetryIsTransparent(hd, Extended(hd, st.(pos := st.pos + 1)).value, img, clearFirst, refused, granted);
    }
  }

  /** With the memory there, a call is never refused. */
  lemma {:induction false} GrantedIsNeverRefused(hd: Header, st: State, img: Image, clearFirst: bool)
    requires hd.Valid() && st.Valid() && img.Valid()
    ensures !NextFrame(hd, st, img, clearFirst, Grants(true, true)).Oom?
    decreases |hd.data| - st.pos
  {
    hide Extended, Composed, Frame;
    if st.pos < |hd.data| {
      var b := hd.data[st.pos];
      if b == 0x2C {
        if Describe(hd, st.pos + 1).Some? { ComposedIfGranted(hd, st.(pos := st.pos + 1), img, clearFirst); }
      } else if b == 0x21 {
        var e := Extended(hd, st.(pos := st.pos + 1));
        if e.Some? { GrantedIsNeverRefused(hd, e.value, img, clearFirst); }
      }
    }
  }

  lemma ComposedIfGranted(hd: Header, st: State, img: Image, clearFirst: bool)
    requires hd.Valid() && st.Valid() && img.Valid() && Describe(hd, st.pos).Some?
    ensures var d := Describe(hd, st.pos).value;
            forall indices: seq<byte> :: |indices| == d.h * d.w ==>
              Composed(hd, st, img, clearFirst, true, d, indices).Frame_?
  {
    hide Describe, Disposed, Cleared, Drawn, Snapshot, Fits, ResizedCap;
    VisibleFits(hd, st, img);
  }

  /** The visible part of an admitted frame never exceeds what a buffer may hold. */
  lemma VisibleFits(hd: Header, st: State, img: Image)
    requires hd.Valid() && st.Valid() && img.Valid() && Describe(hd, st.pos).Some?
    ensures var d := Describe(hd, st.pos).value;
            Visible(hd.h, img.h, d.y, d.h) * Visible(hd.w, img.w, d.x, d.w) <= d.h * d.w <= Limit(4)
  {
    var d := Describe(hd, st.pos).value;
    hide Describe;
    var (vw, vh) := (Visible(hd.w, img.w, d.x, d.w), Visible(hd.h, img.h, d.y, d.h));
    MulMonotone(vh, vw, d.h, d.w);
    QuotientBound(d.w, SIZE_MAX / 4, d.h);
  }

  lemma MulMonotone(a: nat, b: nat, c: nat, d: nat)
    requires a <= c && b <= d
    ensures a * b <= c * d
  {
    assert a * b <= c * b by { assert (c - a) * b >= 0; }
    assert c * b <= c * d by { assert c * (d - b) >= 0; }
  }

  lemma QuotientBound(a: nat, n: nat, b: nat)
    requires b > 0 && a <= n / b
    ensures b * a <= n
  {
    MulMonotone(b, a, b, n / b);
    assert b * (n / b) <= n;
  }

  // ----- restore to previous, section 23 of GIF89a -----

  /** Disposing of the frame gives back, pixel for pixel, the canvas from before it was drawn. */
  lemma RestoreIsExactUndo(hd: Header, st: State, img: Image, clearFirst: bool, grants: Grants)
    requires hd.Valid() && st.Valid() && img.Valid()
    requires DecodeImage(hd, st, img, clearFirst, grants).Frame_? && st.control.disposal == 3
    ensures var r := DecodeImage(hd, st, img, clearFirst, grants);
            Disposed(r.st, r.img) == Disposed(st, Cleared(hd, img, clearFirst))
  {
    var d := Describe(hd, st.pos).value;
    var before := Disposed(st, Cleared(hd, img, clearFirst));
    var (vw, vh) := (Visible(hd.w, img.w, d.x, d.w), Visible(hd.h, img.h, d.y, d.h));
    var indices := Frame(hd.data, d.at, d.codeSize, d.h * d.w, FillIndex(hd, st.control)).out;
    var after := Drawn(hd, d, st.control.transparent, indices, vw, vh, before);
    var saved := Snapshot(before, d.x, d.y, vw, vh);
    var r := DecodeImage(hd, st, img, clearFirst, grants);
    assert r.img == after && r.st.saved == saved;
    assert Disposed(r.st, r.img) == Pasted(after, d.x, d.y, vw, vh, saved);
    hide Disposed, DecodeImage, Describe, Frame, Cleared, Visible;
    PasteUndoesDraw(hd, d, st.control.transparent, indices, vw, vh, before);
  }

  lemma PasteUndoesDraw(hd: Header, d: Descriptor, transparent: int, indices: seq<byte>, vw: nat, vh: nat, before: Image)
    requires before.Valid() && |indices| == d.h * d.w && vw <= d.w && vh <= d.h
    requires d.palette + 3 * d.colors <= |hd.data|
    requires vw > 0 ==> d.x + vw <= before.w
    requires vh > 0 ==> d.y + vh <= before.h
    ensures Pasted(Drawn(hd, d, transparent, indices, vw, vh, before), d.x, d.y, vw, vh,
                   Snapshot(before, d.x, d.y, vw, vh)) == before
  {
    var after := Drawn(hd, d, transparent, indices, vw, vh, before);
    var saved := Snapshot(before, d.x, d.y, vw, vh);
    var back := Pasted(after, d.x, d.y, vw, vh, saved);
    forall y | 0 <= y < before.h ensures back.rows[y] == before.rows[y] {
      forall x | 0 <= x < before.w ensures back.rows[y][x] == before.rows[y][x] {
        if Inside(x, y, d.x, d.y, vw, vh) {
          FlatIndex(x - d.x, y - d.y, vw, vh);
        }
      }
      assert back.rows[y] == before.rows[y];
    }
  }

  /**
   Behind a restore-to-previous frame a call answers as if on a canvas without that
   frame on it: the same picture and the same state to go on from.
   */
  lemma {:induction false} RestoredFrameLeavesNoTrace(hd: Header, st: State, img: Image, before: Image, grants: Grants)
    requires hd.Valid() && st.Valid() && img.Valid() && before.Valid()
    requires Disposed(st, img) == before
    ensures SameCall(NextFrame(hd, st, img, false, grants), NextFrame(hd, Undisposed(st), before, false, grants))
    decreases |hd.data| - st.pos
  {
    hide Disposed, DecodeImage, Extended;
    if st.pos < |hd.data| {
      var b := hd.data[st.pos];
      if b == 0x2C {
        DisposedOnce(hd, st.(pos := st.pos + 1), img, before, grants);
      } else if b == 0x21 {
        SameExtension(hd, st.(pos := st.pos + 1));
        var e := Extended(hd, st.(pos := st.pos + 1));
        if e.Some? { NoTraceAfter(hd, st, e.value, img, before, grants); }
      }
    }
  }

  lemma SameExtension(hd: Header, st: State)
    requires st.Valid()
    ensures Extended(hd, Undisposed(st)) ==
            match Extended(hd, st) case None => None case Some(st') => Some(Undisposed(st'))
  {
  }

  lemma {:induction false} NoTraceAfter(hd: Header, st: State, st': State, img: Image, before: Image, grants: Grants)
    requires hd.Valid() && st.Valid() && st'.Valid() && img.Valid() && before.Valid()
    requires Disposed(st, img) == before && st.pos < st'.pos <= |hd.data|
    requires st'.(pos := st.pos, control := st.control) == st
    ensures SameCall(NextFrame(hd, st', img, false, grants), NextFrame(hd, Undisposed(st'), before, false, grants))
    decreases |hd.data| - st.pos, 0
  {
    SameDisposal(st, st', img);
    RestoredFrameLeavesNoTrace(hd, st', img, before, grants);
  }

  ghost predicate SameCall(a: Outcome, b: Outcome) {
    && (a.Frame_? <==> b.Frame_?) && (a.Frame_? ==> a == b)
    && (a.Oom? <==> b.Oom?) && (a.End? <==> b.End?)
  }

  /** The state with no frame left to dispose of. */
  function Undisposed(st: State): State { st.(prev := st.prev.(disposal := 0)) }

  lemma SameDisposal(st: State, st': State, img: Image)
    requires img.Valid() && st'.(pos := st.pos, control := st.control) == st
    ensures Disposed(st', img) == Disposed(st, img)
  {
  }

  lemma DisposedOnce(hd: Header, st: State, img: Image, before: Image, grants: Grants)
    requires hd.Valid() && st.Valid() && img.Valid() && before.Valid()
    requires st.pos > 0 && Disposed(st.(pos := st.pos - 1), img) == before
    ensures SameCall(DecodeImage(hd, st, img, false, grants),
                     DecodeImage(hd, Undisposed(st), before, false, grants))
  {
    SameDisposal(st, st.(pos := st.pos - 1), img);
    assert before.w == img.w && before.h == img.h;
    assert Disposed(Undisposed(st), before) == before;
    hide Disposed, Describe, Frame, Visible, Drawn, Snapshot, CanResize, ResizedCap;
  }

  /** The canvas a call draws its frame on. */
  function Ground(hd: Header, st: State, img: Image, clearFirst: bool): (r: Image)
    requires img.Valid()
    ensures r.Valid() && r.w == img.w && r.h == img.h
  {
    Disposed(st, Cleared(hd, img, clearFirst))
  }

  /**
   Two calls in a row: after a frame to be restored, the second call, on the canvas as the first left
   it, does exactly what it would have done on the canvas from before the first.
   */
  lemma {:induction false} RestoredInRun(hd: Header, st: State, img: Image, clearFirst: bool, g1: Grants, g2: Grants)
    requires hd.Valid() && st.Valid() && img.Valid()
    requires var r := NextFrame(hd, st, img, clearFirst, g1); r.Frame_? && r.st.prev.disposal == 3
    ensures var r := NextFrame(hd, st, img, clearFirst, g1);
            && Disposed(r.st, r.img) == Ground(hd, st, img, clearFirst)
            && SameCall(NextFrame(hd, r.st, r.img, false, g2),
                        NextFrame(hd, Undisposed(r.st), Ground(hd, st, img, clearFirst), false, g2))
    decreases |hd.data| - st.pos
  {
    hide Extended, Disposed, Drawn, Snapshot, Frame, Cleared, Describe;
    var b := hd.data[st.pos];
    var r := NextFrame(hd, st, img, clearFirst, g1);
    if b == 0x2C {
      var at := st.(pos := st.pos + 1);
      RestoreIsExactUndo(hd, at, img, clearFirst, g1);
      SameDisposal(st, at, Cleared(hd, img, clearFirst));
    } else {
      hide DecodeImage;
      var st' := Extended(hd, st.(pos := st.pos + 1)).value;
      SameDisposal(st, st', Cleared(hd, img, clearFirst));
      RestoredInRun(hd, st', img, clearFirst, g1, g2);
    }
    hide NextFrame;
    RestoredFrameLeavesNoTrace(hd, r.st, r.img, Ground(hd, st, img, clearFirst), g2);
  }
}
