/**
 The natural order of names: a name is a list of tokens, each a whole number or one character in lower
 case, and its bytes are looked at only where the token lists agree.
 */
module AlphaOrder {
  import opened Bits

  // ----- lexicographic order, from an order of the elements -----

  ghost predicate StrictTotal<T(!new)>(less: (T, T) -> bool) {
    && (forall x :: !less(x, x))
    && (forall x, y, z :: less(x, y) && less(y, z) ==> less(x, z))
    && (forall x, y :: less(x, y) || x == y || less(y, x))
  }

  predicate Before<T(==)>(less: (T, T) -> bool, a: seq<T>, b: seq<T>) {
    b != [] && (a == [] || less(a[0], b[0]) || (a[0] == b[0] && Before(less, a[1..], b[1..])))
  }

  lemma {:induction false} BeforeIrreflexive<T(!new)>(less: (T, T) -> bool, a: seq<T>)
    requires StrictTotal(less)
    ensures !Before(less, a, a)
  {
    if a != [] { BeforeIrreflexive(less, a[1..]); }
  }

  lemma {:induction false} BeforeTransitive<T(!new)>(less: (T, T) -> bool, a: seq<T>, b: seq<T>, c: seq<T>)
    requires StrictTotal(less) && Before(less, a, b) && Before(less, b, c)
    ensures Before(less, a, c)
  {
    if a != [] && a[0] == b[0] == c[0] { BeforeTransitive(less, a[1..], b[1..], c[1..]); }
  }

  lemma {:induction false} BeforeTrichotomy<T(!new)>(less: (T, T) -> bool, a: seq<T>, b: seq<T>)
    requires StrictTotal(less)
    ensures Before(less, a, b) || a == b || Before(less, b, a)
  {
    if a != [] && b != [] && a[0] == b[0] {
      BeforeTrichotomy(less, a[1..], b[1..]);
      assert a == [a[0]] + a[1..] && b == [b[0]] + b[1..];
    }
  }

  // ----- tokens -----

  const ZERO: byte := 48

  predicate Digit(c: byte) { 48 <= c <= 57 }

  function Lower(c: byte): byte { if 65 <= c <= 90 then c + 32 else c }

  /** A digit run's number, whatever zeros lead it, or one other character without its case. */
  datatype AnyToken = Number(value: nat) | Letter(c: byte)

  type Token = t: AnyToken | t.Letter? ==> !Digit(t.c) witness Number(0)

  /** Numbers stand where the digits do among the characters. */
  predicate TokenLess(s: Token, t: Token) {
    match (s, t)
    case (Number(v), Number(w)) => v < w
    case (Letter(c), Letter(d)) => c < d
    case (Number(_), Letter(d)) => ZERO < d
    case (Letter(c), Number(_)) => c < ZERO
  }

  predicate ByteLess(c: byte, d: byte) { c < d }

  /** How many digits a text begins with. */
  function Run(s: seq<byte>): (n: nat)
    ensures n <= |s| && (forall k :: 0 <= k < n ==> Digit(s[k])) && (n < |s| ==> !Digit(s[n]))
  {
    if s == [] || !Digit(s[0]) then 0 else 1 + Run(s[1..])
  }

  predicate Digits(d: seq<byte>) { forall k :: 0 <= k < |d| ==> Digit(d[k]) }

  function Value(d: seq<byte>): nat
    requires Digits(d)
  {
    if d == [] then 0
    else
      var last: int := d[|d| - 1];
      10 * Value(d[..|d| - 1]) + (last - 48)
  }

  function Tokens(s: seq<byte>): (r: seq<Token>)
    ensures s != [] <==> r != []
  {
    if s == [] then []
    else if Digit(s[0]) then [Number(Value(s[..Run(s)]))] + Tokens(s[Run(s)..])
    else [Letter(Lower(s[0]))] + Tokens(s[1..])
  }

  /** The order as people read it. */
  predicate AlphaBefore(a: seq<byte>, b: seq<byte>) {
    Before(TokenLess, Tokens(a), Tokens(b)) || (Tokens(a) == Tokens(b) && Before(ByteLess, a, b))
  }

  // ----- it is a strict total order -----

  lemma TokensTotal()
    ensures StrictTotal(TokenLess) && StrictTotal(ByteLess)
  {
  }

  /** Irreflexive, transitive, and of two different texts exactly one comes first. */
  lemma AlphaIsStrictTotal(a: seq<byte>, b: seq<byte>, c: seq<byte>)
    ensures !AlphaBefore(a, a)
    ensures AlphaBefore(a, b) && AlphaBefore(b, c) ==> AlphaBefore(a, c)
    ensures AlphaBefore(a, b) || a == b || AlphaBefore(b, a)
    ensures !(AlphaBefore(a, b) && AlphaBefore(b, a))
  {
    TokensTotal();
    AlphaIrreflexive(a);
    if AlphaBefore(a, b) && AlphaBefore(b, c) { AlphaTransitive(a, b, c); }
    if AlphaBefore(a, b) && AlphaBefore(b, a) { AlphaTransitive(a, b, a); }
    BeforeTrichotomy(TokenLess, Tokens(a), Tokens(b));
    BeforeTrichotomy(ByteLess, a, b);
  }

  lemma AlphaIrreflexive(a: seq<byte>)
    ensures !AlphaBefore(a, a)
  {
    TokensTotal();
    BeforeIrreflexive(TokenLess, Tokens(a));
    BeforeIrreflexive(ByteLess, a);
  }

  lemma AlphaTransitive(a: seq<byte>, b: seq<byte>, c: seq<byte>)
    requires AlphaBefore(a, b) && AlphaBefore(b, c)
    ensures AlphaBefore(a, c)
  {
    TokensTotal();
    if Before(TokenLess, Tokens(a), Tokens(b)) && Before(TokenLess, Tokens(b), Tokens(c)) {
      BeforeTransitive(TokenLess, Tokens(a), Tokens(b), Tokens(c));
    } else if Tokens(a) == Tokens(b) == Tokens(c) {
      BeforeTransitive(ByteLess, a, b, c);
    }
  }

  // ----- the order in terms of the texts -----

  /** The same letter, in whatever case. */
  predicate SameLetter(c: byte, d: byte) { c == d || (65 <= c <= 90 && d == c + 32) || (65 <= d <= 90 && c == d + 32) }

  predicate SameButCase(a: seq<byte>, b: seq<byte>) {
    |a| == |b| && forall i :: 0 <= i < |a| ==> SameLetter(a[i], b[i])
  }

  /** Texts that differ in nothing but the case of letters are the same tokens. */
  lemma {:induction false} CaseIgnored(a: seq<byte>, b: seq<byte>)
    requires SameButCase(a, b)
    ensures Tokens(a) == Tokens(b)
    decreases |a|
  {
    if a != [] {
      hide *;
      var n := SameFront(a, b);
      CaseIgnored(a[n..], b[n..]);
    }
  }

  lemma SameFront(a: seq<byte>, b: seq<byte>) returns (n: nat)
    requires SameButCase(a, b) && a != []
    ensures 1 <= n <= |a| && SameButCase(a[n..], b[n..])
    ensures Tokens(a[n..]) == Tokens(b[n..]) ==> Tokens(a) == Tokens(b)
  {
    n := Front(a);
    TokensUnfold(a);
    TokensUnfold(b);
    if Digit(a[0]) { SameRun(a, b); }
    hide Tokens, Run, Value;
    assert forall i :: n <= i < |a| ==> SameLetter(a[i], b[i]);
  }

  lemma {:induction false} SameRun(a: seq<byte>, b: seq<byte>)
    requires SameButCase(a, b)
    ensures Run(a) == Run(b) && a[..Run(a)] == b[..Run(b)]
    decreases |a|
  {
    if a != [] && Digit(a[0]) {
      assert forall i :: 1 <= i < |a| ==> SameLetter(a[i], b[i]);
      SameRun(a[1..], b[1..]);
      assert a[..Run(a)] == [a[0]] + a[1..][..Run(a[1..])] && b[..Run(b)] == [b[0]] + b[1..][..Run(b[1..])];
    }
  }

  /** No digit run goes over from one text into the other. */
  predicate Apart(p: seq<byte>, s: seq<byte>) { p == [] || s == [] || !Digit(p[|p| - 1]) || !Digit(s[0]) }

  lemma {:induction false} TokensJoined(p: seq<byte>, s: seq<byte>)
    requires Apart(p, s)
    ensures Tokens(p + s) == Tokens(p) + Tokens(s)
    decreases |p|
  {
    if p == [] {
      assert p + s == s && Tokens(p) == [];
    } else {
      hide *;
      var n := FrontJoined(p, s);
      TokensJoined(p[n..], s);
      Grouped(Tokens(p)[..1], Tokens(p[n..]), Tokens(s));
    }
  }

  /** The first token is the same with more text behind it. */
  lemma FrontJoined(p: seq<byte>, s: seq<byte>) returns (n: nat)
    requires p != [] && Apart(p, s)
    ensures 1 <= n <= |p| && Apart(p[n..], s) && |Tokens(p)| > 0
    ensures Tokens(p) == Tokens(p)[..1] + Tokens(p[n..]) && Tokens(p + s) == Tokens(p)[..1] + Tokens(p[n..] + s)
  {
    n := Front(p);
    TokensUnfold(p);
    TokensUnfold(p + s);
    if Digit(p[0]) { RunJoined(p, s); }
    hide Tokens, Run, Value;
    BehindFront(p, s, n);
  }

  /** The length of the first token. */
  function Front(s: seq<byte>): (n: nat)
    requires s != []
    ensures 1 <= n <= |s|
  {
    if Digit(s[0]) then Run(s) else 1
  }

  lemma TokensUnfold(s: seq<byte>)
    requires s != []
    ensures Tokens(s) == [if Digit(s[0]) then Number(Value(s[..Front(s)])) else Letter(Lower(s[0]))] + Tokens(s[Front(s)..])
  {
  }

  lemma BehindFront(p: seq<byte>, s: seq<byte>, n: nat)
    requires n <= |p| && Apart(p, s)
    ensures (p + s)[n..] == p[n..] + s && (p + s)[..n] == p[..n] && Apart(p[n..], s)
    ensures p != [] ==> (p + s)[0] == p[0]
  {
    if n < |p| { assert p[n..][|p| - n - 1] == p[|p| - 1]; }
  }

  lemma {:induction false} RunJoined(p: seq<byte>, s: seq<byte>)
    requires p != [] && Apart(p, s)
    ensures Run(p + s) == Run(p)
    decreases |p|
  {
    assert (p + s)[0] == p[0] && (p + s)[1..] == p[1..] + s;
    if Digit(p[0]) {
      if |p| > 1 { RunJoined(p[1..], s); } else { assert p[1..] + s == s; }
    }
  }

  lemma {:induction false} BeforeBehind<T(!new)>(less: (T, T) -> bool, t: seq<T>, u: seq<T>, v: seq<T>)
    requires StrictTotal(less)
    ensures Before(less, t + u, t + v) <==> Before(less, u, v)
  {
    if t == [] {
      assert t + u == u && t + v == v;
    } else {
      assert (t + u)[1..] == t[1..] + u && (t + v)[1..] == t[1..] + v;
      BeforeBehind(less, t[1..], u, v);
    }
  }

  /** Behind what reads alike, the lower number comes first, however many digits and zeros it is written with. */
  lemma NumbersDecide(p: seq<byte>, q: seq<byte>, d: seq<byte>, e: seq<byte>, x: seq<byte>, y: seq<byte>)
    requires Tokens(p) == Tokens(q) && d != [] && e != [] && Digits(d) && Digits(e)
    requires Apart(p, d) && Apart(q, e) && Apart(d, x) && Apart(e, y)
    requires Value(d) < Value(e)
    ensures AlphaBefore(p + (d + x), q + (e + y)) && !AlphaBefore(q + (e + y), p + (d + x))
  {
    RunIsToken(d);
    RunIsToken(e);
    assert (d + x)[0] == d[0] && (e + y)[0] == e[0];
    TokensJoined(d, x);
    TokensJoined(e, y);
    TokensJoined(p, d + x);
    TokensJoined(q, e + y);
    TokensTotal();
    hide Tokens, Digits, Value, Run, Apart;
    BeforeBehind(TokenLess, Tokens(p), Tokens(d + x), Tokens(e + y));
    AlphaIsStrictTotal(p + (d + x), q + (e + y), []);
  }

  lemma RunIsToken(d: seq<byte>)
    requires d != [] && Digits(d)
    ensures Tokens(d) == [Number(Value(d))]
  {
    assert Run(d) == |d| && d[..|d|] == d;
  }

  /** Behind what reads alike, of two lower-case characters that are not both digits the lower byte comes first. */
  lemma CharactersDecide(p: seq<byte>, q: seq<byte>, c: byte, d: byte, x: seq<byte>, y: seq<byte>)
    requires Tokens(p) == Tokens(q) && Apart(p, [c]) && Apart(q, [d])
    requires c < d && !(65 <= c <= 90) && !(65 <= d <= 90) && !(Digit(c) && Digit(d))
    ensures AlphaBefore(p + ([c] + x), q + ([d] + y)) && !AlphaBefore(q + ([d] + y), p + ([c] + x))
  {
    var s, n := FrontToken([c] + x);
    var t, m := FrontToken([d] + y);
    assert TokenLess(s, t);
    TokensJoined(p, [c] + x);
    TokensJoined(q, [d] + y);
    TokensTotal();
    FrontDecides([c] + x, [d] + y, s, t, ([c] + x)[n..], ([d] + y)[m..]);
    hide Tokens, Run, Apart;
    BeforeBehind(TokenLess, Tokens(p), Tokens([c] + x), Tokens([d] + y));
    AlphaIsStrictTotal(p + ([c] + x), q + ([d] + y), []);
  }

  // ----- numbers by their digits -----

  lemma {:induction false} ZerosDoNotCount(d: seq<byte>, z: nat)
    requires Digits(d) && z <= |d| && forall k :: 0 <= k < z ==> d[k] == ZERO
    ensures Value(d) == Value(d[z..])
    decreases |d|
  {
    if z < |d| {
      ZerosDoNotCount(d[..|d| - 1], z);
      assert d[..|d| - 1][z..] == d[z..][..|d| - z - 1];
    } else if d != [] {
      ZerosDoNotCount(d[..|d| - 1], z - 1);
      assert d[..|d| - 1][z - 1..] == [] && d[z..] == [];
    }
  }

  /** A number without leading zeros is less than any with more digits. */
  lemma {:induction false} LongerIsMore(d: seq<byte>, e: seq<byte>)
    requires Digits(d) && Digits(e) && |d| < |e| && e[0] != ZERO
    ensures Value(d) < Value(e)
    decreases |e|
  {
    if d != [] { LongerIsMore(d[..|d| - 1], e[..|e| - 1]); }
    else { Positive(e); }
  }

  lemma {:induction false} Positive(e: seq<byte>)
    requires Digits(e) && e != [] && e[0] != ZERO
    ensures Value(e) > 0
  {
    if |e| > 1 { Positive(e[..|e| - 1]); }
  }

  /** Of two numbers with as many digits the first different digit decides. */
  lemma {:induction false} FirstDifference(d: seq<byte>, e: seq<byte>, k: nat)
    requires Digits(d) && Digits(e) && k < |d| == |e| && d[..k] == e[..k] && d[k] < e[k]
    ensures Value(d) < Value(e)
    decreases |d|
  {
    var n := |d| - 1;
    if k < n {
      assert d[..n][..k] == d[..k] && e[..n][..k] == e[..k];
      FirstDifference(d[..n], e[..n], k);
    } else {
      assert d[..n] == e[..n];
    }
  }

  // ----- the comparison -----

  /** The comparison of `a` and `b` is that of what is left of them. */
  ghost predicate Undecided(a: seq<byte>, b: seq<byte>, i: nat, j: nat)
    requires i <= |a| && j <= |b|
  {
    && (Before(TokenLess, Tokens(a), Tokens(b)) <==> Before(TokenLess, Tokens(a[i..]), Tokens(b[j..])))
    && (Tokens(a) == Tokens(b) <==> Tokens(a[i..]) == Tokens(b[j..]))
  }

  /** Skips a run's leading zeros. */
  method SkipZeros(s: seq<byte>, at: nat) returns (i: nat)
    requires at <= |s|
    ensures at <= i <= |s| && (forall k :: at <= k < i ==> s[k] == ZERO) && (i < |s| ==> s[i] != ZERO)
  {
    i := at;
    while i < |s| && s[i] == ZERO
      invariant at <= i <= |s| && forall k :: at <= k < i ==> s[k] == ZERO
    {
      i := i + 1;
    }
  }

  method SkipDigits(s: seq<byte>, at: nat) returns (i: nat)
    requires at <= |s|
    ensures at <= i <= |s| && (forall k :: at <= k < i ==> Digit(s[k])) && (i < |s| ==> !Digit(s[i]))
  {
    i := at;
    while i < |s| && Digit(s[i])
      invariant at <= i <= |s| && forall k :: at <= k < i ==> Digit(s[k])
    {
      i := i + 1;
    }
  }

  /** A run with its zeros skipped still gives its number. */
  lemma RunToken(s: seq<byte>, at: nat, i: nat, e: nat)
    requires at <= i <= e <= |s| && at < e
    requires (forall k :: at <= k < i ==> s[k] == ZERO) && (forall k :: i <= k < e ==> Digit(s[k]))
    requires e < |s| ==> !Digit(s[e])
    ensures Digits(s[i..e])
    ensures Tokens(s[at..]) == [Number(Value(s[i..e]))] + Tokens(s[e..])
  {
    AllDigits(s, at, i, e);
    hide *;
    Slices(s, at, at, e);
    Slices(s, at, i, e);
    WholeRun(s[at..], e - at);
    ZerosDoNotCount(s[at..e], i - at);
  }

  lemma AllDigits(s: seq<byte>, at: nat, i: nat, e: nat)
    requires at <= i <= e <= |s|
    requires (forall k :: at <= k < i ==> s[k] == ZERO) && (forall k :: i <= k < e ==> Digit(s[k]))
    ensures forall k :: 0 <= k < e - at ==> Digit(s[at..][k])
    ensures Digits(s[at..e]) && Digits(s[i..e])
    ensures forall k :: 0 <= k < i - at ==> s[at..e][k] == ZERO
    ensures e < |s| ==> s[at..][e - at] == s[e]
  {
  }

  lemma Slices<T>(s: seq<T>, at: nat, i: nat, e: nat)
    requires at <= i <= e <= |s|
    ensures s[at..][..e - at] == s[at..e] && s[at..][e - at..] == s[e..] && s[at..e][i - at..] == s[i..e]
  {
  }

  lemma WholeRun(t: seq<byte>, n: nat)
    requires 0 < n <= |t| && (forall k :: 0 <= k < n ==> Digit(t[k])) && (n < |t| ==> !Digit(t[n]))
    ensures Digits(t[..n]) && Tokens(t) == [Number(Value(t[..n]))] + Tokens(t[n..])
  {
    assert Run(t) == n;
    hide Value;
  }

  /** Equal tokens in front decide nothing, different ones everything. */
  lemma FrontDecides(a: seq<byte>, b: seq<byte>, s: Token, t: Token, a': seq<byte>, b': seq<byte>)
    requires Tokens(a) == [s] + Tokens(a') && Tokens(b) == [t] + Tokens(b')
    ensures s == t ==>
              && (Before(TokenLess, Tokens(a), Tokens(b)) <==> Before(TokenLess, Tokens(a'), Tokens(b')))
              && (Tokens(a) == Tokens(b) <==> Tokens(a') == Tokens(b'))
    ensures s != t ==> (Before(TokenLess, Tokens(a), Tokens(b)) <==> TokenLess(s, t)) && Tokens(a) != Tokens(b)
  {
    assert ([s] + Tokens(a'))[1..] == Tokens(a') && ([t] + Tokens(b'))[1..] == Tokens(b');
  }

  /** Compares the numbers two runs stand for: by length, then by the first different digit. */
  method CompareRuns(a: seq<byte>, b: seq<byte>, from: nat, bfrom: nat, ei: nat, ej: nat) returns (order: int)
    requires from <= ei <= |a| && bfrom <= ej <= |b|
    requires Digits(a[from..ei]) && Digits(b[bfrom..ej])
    requires (from < ei ==> a[from] != ZERO) && (bfrom < ej ==> b[bfrom] != ZERO)
    ensures order < 0 <==> Value(a[from..ei]) < Value(b[bfrom..ej])
    ensures order > 0 <==> Value(a[from..ei]) > Value(b[bfrom..ej])
  {
    ghost var d, e := a[from..ei], b[bfrom..ej];
    hide Value;
    if ei - from != ej - bfrom {
      if |d| < |e| { LongerIsMore(d, e); } else { LongerIsMore(e, d); }
      return if ei - from < ej - bfrom then -1 else 1;
    }
    var i, j := from, bfrom;
    while i < ei
      invariant from <= i <= ei && j == bfrom + i - from
      invariant d[..i - from] == e[..i - from]
    {
      if a[i] != b[j] {
        assert d[i - from] == a[i] && e[i - from] == b[j];
        if a[i] < b[j] { FirstDifference(d, e, i - from); } else { FirstDifference(e, d, i - from); }
        return if a[i] < b[j] then -1 else 1;
      }
      assert d[..i + 1 - from] == d[..i - from] + [d[i - from]];
      assert e[..i + 1 - from] == e[..i - from] + [e[i - from]];
      i, j := i + 1, j + 1;
    }
    assert d == d[..i - from] == e[..i - from] == e;
    order := 0;
  }

  /** Two runs decide by their numbers, or decide nothing and are behind the comparison. */
  method CompareNumbers(a: seq<byte>, b: seq<byte>, at: nat, bt: nat) returns (order: int, ei: nat, ej: nat)
    requires at < |a| && bt < |b| && Digit(a[at]) && Digit(b[bt]) && Undecided(a, b, at, bt)
    ensures at < ei <= |a| && bt < ej <= |b|
    ensures order == 0 ==> Undecided(a, b, ei, ej)
    ensures order != 0 ==> (order < 0 <==> AlphaBefore(a, b))
  {
    var i := SkipZeros(a, at);
    var j := SkipZeros(b, bt);
    ei := SkipDigits(a, i);
    ej := SkipDigits(b, j);
    RunToken(a, at, i, ei);
    RunToken(b, bt, j, ej);
    order := CompareRuns(a, b, i, j, ei, ej);
    FrontDecides(a[at..], b[bt..], Number(Value(a[i..ei])), Number(Value(b[j..ej])), a[ei..], b[ej..]);
    hide Value, Tokens, Before;
  }

  /** The token a text begins with, and where the next one begins. */
  lemma FrontToken(s: seq<byte>) returns (t: Token, n: nat)
    requires s != []
    ensures 1 <= n <= |s| && Tokens(s) == [t] + Tokens(s[n..])
    ensures if Digit(s[0]) then t.Number? else n == 1 && t == Letter(Lower(s[0]))
  {
    if Digit(s[0]) {
      n := Run(s);
      t := Number(Value(s[..n]));
    } else {
      n, t := 1, Letter(Lower(s[0]));
    }
  }

  /** Where one of two characters is no digit, they decide, or decide nothing and are alike. */
  lemma CharsDecide(a: seq<byte>, b: seq<byte>, i: nat, j: nat)
    requires i < |a| && j < |b| && !(Digit(a[i]) && Digit(b[j])) && Undecided(a, b, i, j)
    ensures Lower(a[i]) == Lower(b[j]) ==> Undecided(a, b, i + 1, j + 1)
    ensures Lower(a[i]) != Lower(b[j]) ==> (Lower(a[i]) < Lower(b[j]) <==> AlphaBefore(a, b))
  {
    var s, n := FrontToken(a[i..]);
    var t, m := FrontToken(b[j..]);
    FrontDecides(a[i..], b[j..], s, t, a[i..][n..], b[j..][m..]);
    assert a[i..][1..] == a[i + 1..] && b[j..][1..] == b[j + 1..];
    hide Tokens, Before;
  }

  method AlphaLess(a: seq<byte>, b: seq<byte>) returns (less: bool)
    ensures less <==> AlphaBefore(a, b)
  {
    var i, j := 0, 0;
    assert a[0..] == a && b[0..] == b;
    while i < |a| && j < |b|
      invariant i <= |a| && j <= |b| && Undecided(a, b, i, j)
      decreases |a| - i
    {
      if Digit(a[i]) && Digit(b[j]) {
        var order, ei, ej := CompareNumbers(a, b, i, j);
        if order != 0 { return order < 0; }
        i, j := ei, ej;
        continue;
      }
      CharsDecide(a, b, i, j);
      var x, y := Lower(a[i]), Lower(b[j]);
      if x != y { return x < y; }
      i, j := i + 1, j + 1;
    }
    if i < |a| || j < |b| { return j < |b|; }
    less := Before(ByteLess, a, b);
  }
}
