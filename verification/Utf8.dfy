/** The repair a log line goes through before it is stored, against section 4 of RFC 3629. */
module Utf8 {
  import opened Bits

  // ----- the grammar -----

  predicate Tail(b: byte) { 0x80 <= b <= 0xBF }

  predicate Char1(s: seq<byte>) { |s| == 1 && 0 < s[0] <= 0x7F }

  predicate Char2(s: seq<byte>) { |s| == 2 && 0xC2 <= s[0] <= 0xDF && Tail(s[1]) }

  predicate Char3(s: seq<byte>) {
    && |s| == 3 && Tail(s[2])
    && (|| (s[0] == 0xE0 && 0xA0 <= s[1] <= 0xBF)
        || (0xE1 <= s[0] <= 0xEC && Tail(s[1]))
        || (s[0] == 0xED && 0x80 <= s[1] <= 0x9F)
        || (0xEE <= s[0] <= 0xEF && Tail(s[1])))
  }

  predicate Char4(s: seq<byte>) {
    && |s| == 4 && Tail(s[2]) && Tail(s[3])
    && (|| (s[0] == 0xF0 && 0x90 <= s[1] <= 0xBF)
        || (0xF1 <= s[0] <= 0xF3 && Tail(s[1]))
        || (s[0] == 0xF4 && 0x80 <= s[1] <= 0x8F))
  }

  /** One character of a NUL-free text. */
  predicate Char(s: seq<byte>) { Char1(s) || Char2(s) || Char3(s) || Char4(s) }

  /** A text is a sequence of characters. */
  ghost predicate WellFormed(s: seq<byte>)
    decreases |s|
  {
    s == [] || exists n :: 0 < n <= |s| && Char(s[..n]) && WellFormed(s[n..])
  }

  /** The beginning of a character that ends too early. */
  ghost predicate Incomplete(s: seq<byte>) {
    s != [] && exists more: seq<byte> :: more != [] && Char(s + more)
  }

  predicate NoNul(s: seq<byte>) { forall i :: 0 <= i < |s| ==> s[i] != 0 }

  // ----- what the repair makes of a text -----

  /** What stands at the front: a character of some bytes, one cut off by the end, or a stray byte. */
  datatype Front = Whole(size: nat) | CutOff | Stray

  const QUESTION: byte := 0x3F

  function FrontOf(s: seq<byte>): (f: Front)
    requires s != []
    ensures f.Whole? ==> 0 < f.size <= |s|
  {
    var lead := s[0];
    if lead < 0x80 then Whole(1)
    else if lead < 0xC2 || lead > 0xF4 then Stray
    else
      var size := if lead < 0xE0 then 2 else if lead < 0xF0 then 3 else 4;
      var low := if lead == 0xE0 then 0xA0 else if lead == 0xF0 then 0x90 else 0x80;
      var high := if lead == 0xED then 0x9F else if lead == 0xF4 then 0x8F else 0xBF;
      if |s| < 2 then CutOff
      else if !(low <= s[1] <= high) then Stray
      else TailsFrom(s, 2, size)
  }

  /** The bytes from the third on. */
  function TailsFrom(s: seq<byte>, i: nat, size: nat): (f: Front)
    requires i <= |s| && i <= size
    ensures f.Whole? ==> f.size == size <= |s|
    decreases size - i
  {
    if i == size then Whole(size)
    else if i == |s| then CutOff
    else if !Tail(s[i]) then Stray
    else TailsFrom(s, i + 1, size)
  }

  function Repair(s: seq<byte>): (r: seq<byte>)
    decreases |s|
  {
    if s == [] then []
    else
      match FrontOf(s)
      case Whole(n) => s[..n] + Repair(s[n..])
      case CutOff => []
      case Stray => [QUESTION] + Repair(s[1..])
  }

  // ----- its laws -----

  lemma FrontIsChar(s: seq<byte>, n: nat)
    requires s != [] && NoNul(s) && 0 < n <= |s|
    ensures Char(s[..n]) <==> FrontOf(s) == Whole(n)
  {
    if n >= 2 && |s| >= 2 { assert s[..n][1] == s[1]; }
    if n >= 3 { assert s[..n][2] == s[2]; }
    if n >= 4 { assert s[..n][3] == s[3]; }
  }

  lemma CutIsIncomplete(s: seq<byte>)
    requires s != [] && NoNul(s) && FrontOf(s) == CutOff
    ensures Incomplete(s) && |s| <= 3
  {
    var lead := s[0];
    var second: byte := if lead == 0xE0 then 0xA0 else if lead == 0xF0 then 0x90 else 0x80;
    var more: seq<byte> := if |s| == 1 then
                            (if lead < 0xE0 then [second] else if lead < 0xF0 then [second, 0x80] else [second, 0x80, 0x80])
                           else if |s| == 2 then (if lead < 0xF0 then [0x80] else [0x80, 0x80])
                           else [0x80];
    assert Char(s + more);
  }

  lemma IncompleteIsCut(s: seq<byte>)
    requires Incomplete(s)
    ensures NoNul(s) && FrontOf(s) == CutOff && !Tail(s[0])
  {
    var more: seq<byte> :| more != [] && Char(s + more);
    var c := s + more;
    assert forall i :: 0 <= i < |s| ==> c[i] == s[i];
  }

  /**
   The repair in the grammar's words alone: a character is kept, the text ends before one that is cut off,
   and a byte that begins neither becomes a question mark.
   */
  lemma RepairMeans(s: seq<byte>)
    requires s != [] && NoNul(s)
    ensures forall n :: 0 < n <= |s| && Char(s[..n]) ==> Repair(s) == s[..n] + Repair(s[n..])
    ensures Incomplete(s) ==> Repair(s) == []
    ensures !Incomplete(s) && (forall n :: 0 < n <= |s| ==> !Char(s[..n])) ==> Repair(s) == [0x3F] + Repair(s[1..])
  {
    RepairUnfolds(s);
    forall n | 0 < n <= |s| ensures Char(s[..n]) <==> FrontOf(s) == Whole(n) { FrontIsChar(s, n); }
    if Incomplete(s) { IncompleteIsCut(s); }
    if FrontOf(s) == CutOff { CutIsIncomplete(s); }
    hide Repair, FrontOf, Char, Incomplete;
  }

  /** The result is well-formed and NUL-free, whatever went in. */
  lemma {:induction false} RepairedIsWellFormed(s: seq<byte>)
    requires NoNul(s)
    ensures WellFormed(Repair(s)) && NoNul(Repair(s))
    decreases |s|
  {
    if s != [] {
      var f := FrontOf(s);
      if f.Whole? {
        FrontIsChar(s, f.size);
        RepairedIsWellFormed(s[f.size..]);
        CharThenText(s[..f.size], Repair(s[f.size..]));
      } else if f.Stray? {
        RepairedIsWellFormed(s[1..]);
        CharThenText([QUESTION], Repair(s[1..]));
      }
    }
  }

  lemma CharThenText(c: seq<byte>, text: seq<byte>)
    requires Char(c) && WellFormed(text) && NoNul(c) && NoNul(text)
    ensures WellFormed(c + text) && NoNul(c + text)
  {
    var s := c + text;
    assert s[..|c|] == c && s[|c|..] == text;
  }

  /** Characters in front are left alone; in particular well-formed text does not change. */
  lemma {:induction false} WellFormedIsKept(p: seq<byte>, s: seq<byte>)
    requires WellFormed(p) && NoNul(p) && NoNul(s)
    ensures Repair(p + s) == p + Repair(s)
    decreases |p|
  {
    if p == [] {
      assert p + s == s && [] + Repair(s) == Repair(s);
    } else {
      hide *;
      var n := FirstChar(p);
      CharIsKept(p, s, n);
      WellFormedIsKept(p[n..], s);
      Rejoin(p, n, Repair(s));
    }
  }

  lemma Rejoin(p: seq<byte>, n: nat, t: seq<byte>)
    requires n <= |p|
    ensures p[..n] + (p[n..] + t) == p + t
  {
  }

  lemma FirstChar(p: seq<byte>) returns (n: nat)
    requires WellFormed(p) && p != []
    ensures 0 < n <= |p| && Char(p[..n]) && WellFormed(p[n..])
  {
    n :| 0 < n <= |p| && Char(p[..n]) && WellFormed(p[n..]);
  }

  lemma CharIsKept(p: seq<byte>, s: seq<byte>, n: nat)
    requires NoNul(p) && NoNul(s) && 0 < n <= |p| && Char(p[..n])
    ensures Repair(p + s) == p[..n] + Repair(p[n..] + s)
    ensures NoNul(p[n..])
  {
    var t := p + s;
    assert t[..n] == p[..n] && t[n..] == p[n..] + s;
    hide Char, FrontOf;
    FrontIsChar(t, n);
    RepairUnfolds(t);
  }

  /** Exactly the well-formed texts are left as they are. */
  lemma {:induction false} UnchangedIffWellFormed(s: seq<byte>)
    requires NoNul(s)
    ensures Repair(s) == s <==> WellFormed(s)
  {
    RepairedIsWellFormed(s);
    if WellFormed(s) {
      WellFormedIsKept(s, []);
      assert s + [] == s;
    }
  }

  /** So repairing twice is repairing once. */
  lemma RepairIsIdempotent(s: seq<byte>)
    requires NoNul(s)
    ensures Repair(Repair(s)) == Repair(s)
  {
    RepairedIsWellFormed(s);
    WellFormedIsKept(Repair(s), []);
    assert Repair(s) + [] == Repair(s);
  }

  lemma OneFront(s: seq<byte>, n: nat, r: seq<byte>, rest: seq<byte>)
    requires n <= |s| && |rest| <= |s| - n && (r == s[..n] + rest || (n == 1 && r == [QUESTION] + rest))
    requires forall i :: 0 <= i < |rest| ==> rest[i] == s[n..][i] || rest[i] == QUESTION
    ensures |r| == n + |rest| <= |s| && s[|r|..] == s[n..][|rest|..]
    ensures forall i :: 0 <= i < |r| ==> r[i] == s[i] || r[i] == QUESTION
  {
    forall i | n <= i < |r| ensures r[i] == s[i] || r[i] == QUESTION {
      assert r[i] == rest[i - n] && s[n..][i - n] == s[i];
    }
  }

  /**
   Nothing is lost but an incomplete character at the very end, and every other byte stays where it is,
   as itself or as one question mark.
   */
  lemma {:induction false} OnlyAnIncompleteTailGoes(s: seq<byte>)
    requires NoNul(s)
    ensures |Repair(s)| <= |s|
    ensures |Repair(s)| < |s| ==> Incomplete(s[|Repair(s)|..])
    ensures forall i :: 0 <= i < |Repair(s)| ==> Repair(s)[i] == s[i] || Repair(s)[i] == QUESTION
    decreases |s|
  {
    if s != [] {
      var f := FrontOf(s);
      RepairUnfolds(s);
      if f.CutOff? {
        CutIsIncomplete(s);
        assert s[0..] == s;
      } else {
        hide *;
        var n := if f.Whole? then f.size else 1;
        NoNulTail(s, n);
        OnlyAnIncompleteTailGoes(s[n..]);
        OneFront(s, n, Repair(s), Repair(s[n..]));
      }
    }
  }

  /** A character's first byte continues no other character. */
  lemma FrontEndsBefore(a: seq<byte>, c: seq<byte>, b: seq<byte>)
    requires a != [] && c != [] && !Tail(c[0])
    ensures var f := FrontOf(a + c + b); !f.CutOff? && (f.Whole? ==> f.size <= |a|)
  {
    var s := a + c + b;
    assert s[|a|] == c[0] && |s| > |a|;
    if |a| >= 2 && |s| >= 3 { assert |a| == 2 ==> !Tail(s[2]); }
    if |a| >= 3 && |s| >= 4 { assert |a| == 3 ==> !Tail(s[3]); }
  }

  /** Whatever stands before it, a whole character is kept, at its place, and the text behind it repaired on its own. */
  lemma {:induction false} WholeCharStays(a: seq<byte>, c: seq<byte>, b: seq<byte>)
    requires NoNul(a) && NoNul(c) && NoNul(b) && Char(c)
    ensures |a| + |c| <= |Repair(a + c + b)|
    ensures Repair(a + c + b)[|a|..] == c + Repair(b)
    decreases |a|
  {
    var s := a + c + b;
    if a == [] {
      FrontCharStays(a, c, b);
    } else {
      FrontEndsBefore(a, c, b);
      RepairUnfolds(s);
      hide *;
      var f := FrontOf(s);
      var n := if f.Whole? then f.size else 1;
      Behind(a, c + b, n);
      Behind(a, c, n);
      Grouped(a, c, b);
      Grouped(a[n..], c, b);
      NoNulTail(a, n);
      WholeCharStays(a[n..], c, b);
      Shifted(s, n, Repair(s), Repair(s[n..]), |a|);
    }
  }

  lemma FrontCharStays(a: seq<byte>, c: seq<byte>, b: seq<byte>)
    requires a == [] && NoNul(c) && NoNul(b) && Char(c)
    ensures Repair(a + c + b) == c + Repair(b)
    ensures Repair(a + c + b)[|a|..] == c + Repair(b)
  {
    assert |c| > 0;
    hide Repair, Char;
    assert a + c + b == c + b && c[..|c|] == c && c[|c|..] + b == b;
    CharIsKept(c, b, |c|);
  }

  /** A character the text ends inside of goes whole, at whichever of its bytes it is cut, and nothing else does. */
  lemma {:induction false} IncompleteTailGoes(a: seq<byte>, c: seq<byte>)
    requires NoNul(a) && Incomplete(c)
    ensures |Repair(a + c)| == |a|
    ensures WellFormed(a) ==> Repair(a + c) == a
    decreases |a|
  {
    IncompleteIsCut(c);
    if a == [] {
      assert a + c == c;
    } else {
      FrontEndsBefore(a, c, []);
      assert a + c + [] == a + c;
      RepairUnfolds(a + c);
      if WellFormed(a) { WellFormedIsKept(a, c); }
      hide *;
      var f := FrontOf(a + c);
      var n := if f.Whole? then f.size else 1;
      Behind(a, c, n);
      NoNulTail(a, n);
      IncompleteTailGoes(a[n..], c);
    }
  }

  lemma Behind(a: seq<byte>, more: seq<byte>, n: nat)
    requires n <= |a|
    ensures (a + more)[n..] == a[n..] + more
  {
  }

  lemma NoNulTail(a: seq<byte>, n: nat)
    requires NoNul(a) && n <= |a|
    ensures NoNul(a[n..])
  {
  }

  lemma Shifted(s: seq<byte>, n: nat, r: seq<byte>, rest: seq<byte>, k: nat)
    requires n <= k <= n + |rest| && n <= |s|
    requires r == s[..n] + rest || (n == 1 && r == [QUESTION] + rest)
    ensures k <= |r| && r[k..] == rest[k - n..]
  {
  }

  // ----- the repair in place -----

  /** A NUL-terminated text in a buffer. */
  ghost predicate Text(buf: seq<byte>, len: nat) {
    len < |buf| && buf[len] == 0 && NoNul(buf[..len])
  }

  /** Looks at the bytes after a lead byte: a whole character, one the text ends inside of, or neither. */
  method Scan(buf: array<byte>, at: nat, ghost len: nat) returns (f: Front)
    requires Text(buf[..], len) && at < len && buf[at] >= 0x80
    ensures f == FrontOf(buf[at..len])
  {
    ghost var s := buf[at..len];
    var lead := buf[at];
    var size := if lead < 0xE0 then 2 else if lead < 0xF0 then 3 else 4;
    var whole := 0xC2 <= lead <= 0xF4;
    // Narrower for four leads, whose other second bytes would make a code point too small, a surrogate or too large.
    var low := if lead == 0xE0 then 0xA0 else if lead == 0xF0 then 0x90 else 0x80;
    var high := if lead == 0xED then 0x9F else if lead == 0xF4 then 0x8F else 0xBF;
    ghost var low1, high1 := low, high;
    var i := 1;
    while whole && i < size
      invariant 1 <= i <= size && (whole ==> at + i <= len)
      invariant !whole ==> FrontOf(s) == Stray
      invariant whole && i == 1 ==> low == low1 && high == high1
      invariant whole && i > 1 ==> low == 0x80 && high == 0xBF && FrontOf(s) == TailsFrom(s, i, size)
      decreases size - i, whole
    {
      assert |s| == len - at && forall k :: 0 <= k < |s| ==> s[k] == buf[at + k];
      if buf[at + i] == 0 {
        assert i == |s|;
        return CutOff;
      }
      whole := low <= buf[at + i] <= high;
      low, high := 0x80, 0xBF;
      i := i + 1;
    }
    f := if whole then Whole(size) else Stray;
  }

  /** Behind `at` the text is as it was, in front of it as it will be. */
  ghost predicate RepairedTo(buf: seq<byte>, len: nat, at: nat, was: seq<byte>) {
    && Text(buf, len) && at <= len == |was| && buf[at..len] == was[at..]
    && buf[..at] + Repair(was[at..]) == Repair(was)
  }

  lemma StillText(buf: seq<byte>, len: nat, at: nat, was: seq<byte>)
    requires RepairedTo(buf, len, at, was)
    ensures Text(buf, len) && at <= len == |was| && len < |buf| && buf[at..len] == was[at..]
    ensures buf[at] == 0 <==> at == len
    ensures at == len ==> buf[..len] == Repair(was)
  {
    hide Repair;
    if at < len {
      assert buf[at] == buf[..len][at];
    } else {
      assert Repair(was[at..]) == [] by { assert was[at..] == []; Nothing(); }
    }
  }

  lemma Nothing()
    ensures Repair([]) == []
  {
  }

  lemma Advances(buf: seq<byte>, len: nat, at: nat, was: seq<byte>)
    requires RepairedTo(buf, len, at, was) && at < len
    ensures was[at..] != [] && buf[at] == was[at..][0]
    ensures match FrontOf(was[at..])
            case Whole(n) => at + n <= len && RepairedTo(buf, len, at + n, was)
            case CutOff => Text(buf[at := 0], at) && buf[at := 0][..at] == Repair(was)
            case Stray => RepairedTo(buf[at := QUESTION], len, at + 1, was)
  {
    AtFront(buf, len, at, was);
    var s := was[at..];
    var f := FrontOf(s);
    hide *;
    if f.Whole? {
      SubSlice(buf, at, len, 0, f.size);
      MovesOn(buf, buf, len, at, f.size, was, s[..f.size]);
    } else if f.CutOff? {
      CutsOff(buf, len, at, was);
    } else {
      Marks(buf, len, at, was);
    }
  }

  lemma Marks(buf: seq<byte>, len: nat, at: nat, was: seq<byte>)
    requires RepairedTo(buf, len, at, was) && at < len && Repair(was[at..]) == [QUESTION] + Repair(was[at..][1..])
    ensures RepairedTo(buf[at := QUESTION], len, at + 1, was)
  {
    var now := buf[at := QUESTION];
    assert now[at..at + 1] == [QUESTION];
    hide *;
    MovesOn(buf, now, len, at, 1, was, [QUESTION]);
  }

  lemma AtFront(buf: seq<byte>, len: nat, at: nat, was: seq<byte>)
    requires RepairedTo(buf, len, at, was) && at < len
    ensures len < |buf| && |was[at..]| == len - at && buf[at..len] == was[at..] && buf[at] == was[at..][0]
    ensures Repair(was[at..]) == match FrontOf(was[at..])
                                 case Whole(n) => was[at..][..n] + Repair(was[at..][n..])
                                 case CutOff => []
                                 case Stray => [QUESTION] + Repair(was[at..][1..])
    ensures FrontOf(was[at..]).Whole? ==> 0 < FrontOf(was[at..]).size <= len - at
  {
    StillText(buf, len, at, was);
    RepairUnfolds(was[at..]);
    assert buf[at..len][0] == buf[at];
    hide Repair, FrontOf, RepairedTo;
  }

  lemma CutsOff(buf: seq<byte>, len: nat, at: nat, was: seq<byte>)
    requires RepairedTo(buf, len, at, was) && at < len && Repair(was[at..]) == []
    ensures Text(buf[at := 0], at) && buf[at := 0][..at] == Repair(was)
  {
    hide Repair;
    assert buf[at := 0][..at] == buf[..at];
    assert forall i :: 0 <= i < at ==> buf[..len][i] == buf[i];
  }

  lemma MovesOn(buf: seq<byte>, now: seq<byte>, len: nat, at: nat, n: nat, was: seq<byte>, put: seq<byte>)
    requires RepairedTo(buf, len, at, was) && 0 < n && at + n <= len && |put| == n
    requires now == buf || (n == 1 && now == buf[at := QUESTION])
    requires now[at..at + n] == put && Repair(was[at..]) == put + Repair(was[at..][n..])
    ensures RepairedTo(now, len, at + n, was)
  {
    hide Repair;
    assert was[at..][n..] == was[at + n..];
    assert now[at + n..len] == was[at + n..] by {
      SubSlice(buf, at, len, n, len - at);
      SubSlice(was, at, len, n, len - at);
    }
    assert now[..at + n] == buf[..at] + put;
    Grouped(buf[..at], put, Repair(was[at + n..]));
  }

  /** Rewrites the text through a moving pointer; `len'` is where it ends afterwards. */
  method KeepUtf8(buf: array<byte>, ghost len: nat) returns (ghost len': nat)
    requires Text(buf[..], len)
    modifies buf
    ensures len' <= len && Text(buf[..], len') && buf[..len'] == Repair(old(buf[..len]))
  {
    var at := 0;
    ghost var was := buf[..len];
    assert buf[..0] + Repair(was[0..]) == Repair(was);
    StillText(buf[..], len, at, was);
    hide *;
    while buf[at] != 0
      invariant at <= len < buf.Length && (at == len ==> buf[at] == 0)
      invariant RepairedTo(buf[..], len, at, was)
      decreases len - at
    {
      ghost var before := buf[..];
      StillText(before, len, at, was);
      Advances(before, len, at, was);
      var f := Whole(1);
      if buf[at] >= 0x80 { f := Scan(buf, at, len); } else { AsciiFront(was[at..]); }
      match f {
        case Whole(n) =>
          at := at + n;
        case CutOff =>
          buf[at] := 0;
          assert buf[..] == before[at := 0];
          return at;
        case Stray =>
          buf[at] := QUESTION;
          assert buf[..] == before[at := QUESTION];
          at := at + 1;
      }
      StillText(buf[..], len, at, was);
    }
    StillText(buf[..], len, at, was);
    len' := len;
  }

  lemma AsciiFront(s: seq<byte>)
    requires s != [] && s[0] < 0x80
    ensures FrontOf(s) == Whole(1)
  {
  }

  lemma RepairUnfolds(s: seq<byte>)
    requires s != []
    ensures Repair(s) == match FrontOf(s)
                         case Whole(n) => s[..n] + Repair(s[n..])
                         case CutOff => []
                         case Stray => [QUESTION] + Repair(s[1..])
    ensures FrontOf(s).Whole? ==> 0 < FrontOf(s).size <= |s|
  {
  }
}
