/** MQTT topic filters, level by level: section 4.7 of MQTT 3.1.1. */
module TopicMatch {

  // ----- levels -----

  /** Where the first separator at or behind `from` is, or the length. */
  function Separator(s: string, from: nat): (n: nat)
    requires from <= |s|
    ensures from <= n <= |s|
    decreases |s| - from
  {
    if from == |s| || s[from] == '/' then from else Separator(s, from + 1)
  }

  lemma {:induction false} SeparatorFound(s: string, from: nat)
    requires from <= |s|
    ensures var n := Separator(s, from);
            (forall k :: from <= k < n ==> s[k] != '/') && (n < |s| ==> s[n] == '/')
    decreases |s| - from
  {
    if from < |s| && s[from] != '/' { SeparatorFound(s, from + 1); }
  }

  /** The level that begins at `from`. */
  function Level(s: string, from: nat): string
    requires from <= |s|
  {
    s[from..Separator(s, from)]
  }

  /** The levels from `from` on; an empty text is one empty level. */
  function Levels(s: string, from: nat): (r: seq<string>)
    requires from <= |s|
    ensures |r| > 0
    decreases |s| - from
  {
    var n := Separator(s, from);
    [Level(s, from)] + if n == |s| then [] else Levels(s, n + 1)
  }

  function Join(levels: seq<string>): string
    requires |levels| > 0
  {
    levels[0] + if |levels| == 1 then "" else "/" + Join(levels[1..])
  }

  ghost predicate Unseparated(levels: seq<string>) {
    forall i :: 0 <= i < |levels| ==> '/' !in levels[i]
  }

  lemma LevelsUnfold(s: string, from: nat)
    requires from <= |s|
    ensures var n := Separator(s, from);
            if n == |s| then Levels(s, from) == [Level(s, from)]
            else Levels(s, from) == [Level(s, from)] + Levels(s, n + 1)
  {
  }

  lemma LevelAlone(s: string, from: nat)
    requires from <= |s|
    ensures var n, level := Separator(s, from), Level(s, from);
            s[from..] == if n < |s| then level + "/" + s[n + 1..] else level
  {
    SeparatorFound(s, from);
    hide Separator;
  }

  lemma LevelUnseparated(s: string, from: nat)
    requires from <= |s|
    ensures '/' !in Level(s, from)
  {
    SeparatorFound(s, from);
    hide Separator;
  }

  lemma JoinUnfold(level: string, levels: seq<string>)
    requires |levels| > 0
    ensures Join([level] + levels) == level + "/" + Join(levels)
  {
    assert ([level] + levels)[1..] == levels;
  }

  lemma UnseparatedUnfold(level: string, levels: seq<string>)
    ensures Unseparated([level] + levels) <==> '/' !in level && Unseparated(levels)
  {
    var all := [level] + levels;
    assert all[0] == level && forall i :: 1 <= i < |all| ==> all[i] == levels[i - 1];
    forall i | 0 <= i < |levels| && Unseparated(all) ensures '/' !in levels[i] { assert '/' !in all[i + 1]; }
  }

  lemma JoinStep(s: string, from: nat)
    requires from <= |s| && Separator(s, from) < |s|
    ensures Join(Levels(s, from)) == Level(s, from) + "/" + Join(Levels(s, Separator(s, from) + 1))
  {
    LevelsUnfold(s, from);
    JoinUnfold(Level(s, from), Levels(s, Separator(s, from) + 1));
    hide *;
  }

  lemma JoinLast(level: string)
    requires '/' !in level
    ensures Join([level]) == level && Unseparated([level])
  {
  }

  lemma {:induction false} LevelsUnseparated(s: string, from: nat)
    requires from <= |s|
    ensures Unseparated(Levels(s, from))
    decreases |s| - from
  {
    var n := Separator(s, from);
    LevelUnseparated(s, from);
    LevelsUnfold(s, from);
    hide *;
    if n < |s| {
      LevelsUnseparated(s, n + 1);
      UnseparatedUnfold(Level(s, from), Levels(s, n + 1));
    } else {
      JoinLast(Level(s, from));
    }
  }

  /** The levels are the one way to cut a text at every separator. */
  lemma {:induction false} LevelsJoin(s: string, from: nat)
    requires from <= |s|
    ensures Join(Levels(s, from)) == s[from..] && Unseparated(Levels(s, from))
    decreases |s| - from
  {
    hide *;
    var n := Separator(s, from);
    LevelsUnseparated(s, from);
    LevelAlone(s, from);
    LevelUnseparated(s, from);
    if n < |s| {
      JoinStep(s, from);
      LevelsJoin(s, n + 1);
    } else {
      LevelsUnfold(s, from);
      JoinLast(Level(s, from));
    }
  }

  lemma {:induction false} JoinLevels(level: string, levels: seq<string>, front: string)
    requires Unseparated([level] + levels)
    ensures Levels(front + Join([level] + levels), |front|) == [level] + levels
    decreases |levels|
  {
    hide *;
    if |levels| > 0 { JoinUnfold(level, levels); }
    UnseparatedUnfold(level, levels);
    var s := front + Join([level] + levels);
    if |levels| == 0 {
      assert [level] + levels == [level];
      JoinLast(level);
      Regrouped(front, level, "");
      assert level + "" == level && front + level + "" == front + level;
      assert |s| == |front| + |level|;
      SeparatorAt(front, level, "");
      LevelsUnfold(s, |front|);
    } else {
      assert levels == [levels[0]] + levels[1..];
      JoinLevels(levels[0], levels[1..], front + level + "/");
      Regrouped(front, level, "/" + Join(levels));
      Regrouped(level, "/", Join(levels));
      Regrouped(front + level, "/", Join(levels));
      SeparatorAt(front, level, "/" + Join(levels));
      LevelsUnfold(s, |front|);
    }
  }

  lemma Regrouped(a: string, b: string, c: string)
    ensures a + (b + c) == a + b + c
    ensures (a + b + c)[|a|..|a| + |b|] == b
  {
  }

  lemma SeparatorAt(front: string, level: string, rest: string)
    requires '/' !in level && (rest != "" ==> rest[0] == '/')
    ensures Separator(front + level + rest, |front|) == |front| + |level|
    ensures Level(front + level + rest, |front|) == level
  {
    var s := front + level + rest;
    SeparatorFound(s, |front|);
    assert rest != "" ==> s[|front| + |level|] == rest[0];
    assert forall k :: |front| <= k < |front| + |level| ==> s[k] == level[k - |front|];
  }

  // ----- matching -----

  /** The wildcard for all further levels, and the one for a single level. */
  predicate Multi(level: string) { |level| == 1 && level[0] == '#' }

  predicate Single(level: string) { |level| == 1 && level[0] == '+' }

  predicate LevelFits(f: string, t: string) { Single(f) || f == t }

  /** Level by level: `#` takes what is left, but only as the last level. */
  predicate LevelsMatch(filter: seq<string>, topic: seq<string>)
    requires |filter| > 0
  {
    if Multi(filter[0]) then |filter| == 1
    else if |topic| == 0 || !LevelFits(filter[0], topic[0]) then false
    else if |filter| == 1 then |topic| == 1
    else LevelsMatch(filter[1..], topic[1..])
  }

  /** No level up to `n` is a `#`, and each fits the topic's. */
  ghost predicate Fits(filter: seq<string>, topic: seq<string>, n: nat) {
    n <= |filter| && n <= |topic| && forall k :: 0 <= k < n ==> !Multi(filter[k]) && LevelFits(filter[k], topic[k])
  }

  /**
   So what a filter matches is as many levels that fit, or behind a final `#` any number of further ones,
   none included; a `#` before the last level matches nothing.
   */
  lemma {:induction false} LevelsMatchIff(filter: seq<string>, topic: seq<string>)
    requires |filter| > 0
    ensures LevelsMatch(filter, topic) <==>
              if Multi(filter[|filter| - 1]) then Fits(filter, topic, |filter| - 1)
              else |filter| == |topic| && Fits(filter, topic, |filter|)
    decreases |filter|
  {
    if !Multi(filter[0]) && |topic| > 0 && |filter| > 1 {
      LevelsMatchIff(filter[1..], topic[1..]);
      FitsShift(filter, topic, |filter| - 1);
      FitsShift(filter, topic, |filter| - 2);
    }
  }

  lemma FitsShift(filter: seq<string>, topic: seq<string>, n: nat)
    requires |filter| > 0 && |topic| > 0
    ensures Fits(filter, topic, n + 1) <==>
              !Multi(filter[0]) && LevelFits(filter[0], topic[0]) && Fits(filter[1..], topic[1..], n)
  {
    if Fits(filter[1..], topic[1..], n) {
      forall k | 1 <= k < n + 1
        ensures filter[k] == filter[1..][k - 1] && topic[k] == topic[1..][k - 1]
      {
      }
    }
  }

  /** The server's own topics are not for wildcards. */
  predicate Guarded(filter: string, topic: string)
    requires |filter| > 0 && |topic| > 0
  {
    topic[0] == '$' && (filter[0] == '+' || filter[0] == '#')
  }

  ghost predicate Matches(filter: string, topic: string) {
    |filter| > 0 && |topic| > 0 && !Guarded(filter, topic) && LevelsMatch(Levels(filter, 0), Levels(topic, 0))
  }

  /** Character for character but for its wildcards, whatever the levels are. */
  lemma MatchesMeans(fs: seq<string>, ts: seq<string>)
    requires |fs| > 0 && |ts| > 0 && Join(fs) != "" && Join(ts) != ""
    requires (forall i :: 0 <= i < |fs| ==> '/' !in fs[i]) && (forall i :: 0 <= i < |ts| ==> '/' !in ts[i])
    ensures var n := |fs| - 1;
            Matches(Join(fs), Join(ts)) <==>
              && !(Join(ts)[0] == '$' && (Join(fs)[0] == '+' || Join(fs)[0] == '#'))
              && (if fs[n] == "#" then n <= |ts| && forall k :: 0 <= k < n ==> fs[k] != "#" && (fs[k] == "+" || fs[k] == ts[k])
                  else |fs| == |ts| && forall k :: 0 <= k < |fs| ==> fs[k] != "#" && (fs[k] == "+" || fs[k] == ts[k]))
  {
    LevelsOf(fs);
    LevelsOf(ts);
    LevelsMatchIff(fs, ts);
    FitsMeans(fs, ts);
    hide Levels, Join, LevelsMatch, Fits, Multi;
  }

  lemma FitsMeans(fs: seq<string>, ts: seq<string>)
    ensures forall n: nat :: n <= |fs| && n <= |ts| ==>
              (Fits(fs, ts, n) <==> forall k :: 0 <= k < n ==> fs[k] != "#" && (fs[k] == "+" || fs[k] == ts[k]))
    ensures |fs| > 0 ==> (Multi(fs[|fs| - 1]) <==> fs[|fs| - 1] == "#")
  {
    forall f: string ensures Multi(f) <==> f == "#" ensures Single(f) <==> f == "+" {}
    hide Multi, Single;
  }

  lemma LevelsOf(levels: seq<string>)
    requires |levels| > 0 && forall i :: 0 <= i < |levels| ==> '/' !in levels[i]
    ensures Levels(Join(levels), 0) == levels
  {
    assert Unseparated(levels);
    hide *;
    FirstApart(levels);
    JoinLevels(levels[0], levels[1..], "");
    NothingInFront(Join(levels));
  }

  lemma FirstApart(levels: seq<string>)
    requires |levels| > 0
    ensures [levels[0]] + levels[1..] == levels
  {
  }

  lemma NothingInFront(s: string)
    ensures "" + s == s
  {
  }

  lemma Joins(a: string, b: string, c: string)
    ensures Join([a]) == a && Join([a, b]) == a + "/" + b && Join([a, b, c]) == a + "/" + b + "/" + c
  {
    assert [a, b][1..] == [b] && [a, b, c][1..] == [b, c] && [b, c][1..] == [c];
    assert Join([c]) == c && Join([b]) == b && Join([b, c]) == b + "/" + c;
  }

  /** Filters as they are written. */
  lemma SomeFilters()
    ensures Matches("a/+/c", "a/b/c") && !Matches("a/+", "a/b/c")
    ensures Matches("a/#", "a/b/c") && Matches("a/#", "a")
    ensures !Matches("+/x", "$SYS/x") && Matches("$SYS/#", "$SYS/x")
  {
    hide *;
    Joins("a", "+", "c");
    Joins("a", "#", "c");
    Joins("a", "b", "c");
    Joins("+", "x", "");
    Joins("$SYS", "x", "");
    Joins("$SYS", "#", "");
    assert Join(["a", "+", "c"]) == "a/+/c" && Join(["a", "b", "c"]) == "a/b/c" && Join(["a", "+"]) == "a/+";
    assert Join(["a", "#"]) == "a/#" && Join(["+", "x"]) == "+/x";
    assert Join(["$SYS", "x"]) == "$SYS/x" && Join(["$SYS", "#"]) == "$SYS/#";
    MatchesMeans(["a", "+", "c"], ["a", "b", "c"]);
    MatchesMeans(["a", "+"], ["a", "b", "c"]);
    MatchesMeans(["a", "#"], ["a", "b", "c"]);
    MatchesMeans(["a", "#"], ["a"]);
    MatchesMeans(["+", "x"], ["$SYS", "x"]);
    MatchesMeans(["$SYS", "#"], ["$SYS", "x"]);
  }

  /** The topic's levels from `t` on, or none once it is used up. */
  function Rest(topic: string, t: nat, exhausted: bool): seq<string>
    requires t <= |topic|
  {
    if exhausted then [] else Levels(topic, t)
  }

  lemma RestUnfolds(topic: string, t: nat)
    requires t <= |topic|
    ensures |Rest(topic, t, true)| == 0 && Rest(topic, t, false) == Levels(topic, t)
  {
  }

  lemma MatchCons(f: string, filter: seq<string>, t: string, topic: seq<string>)
    requires !Multi(f)
    ensures LevelsMatch([f] + filter, [t] + topic) <==>
              LevelFits(f, t) && if |filter| == 0 then |topic| == 0 else LevelsMatch(filter, topic)
  {
    assert ([f] + filter)[1..] == filter && ([t] + topic)[1..] == topic;
  }

  /** The levels behind the one at `from`. */
  function Behind(s: string, from: nat): seq<string>
    requires from <= |s|
  {
    Rest(s, if Separator(s, from) == |s| then from else Separator(s, from) + 1, Separator(s, from) == |s|)
  }

  lemma BehindUnfolds(s: string, from: nat)
    requires from <= |s|
    ensures Levels(s, from) == [Level(s, from)] + Behind(s, from)
  {
  }

  lemma BehindIs(s: string, from: nat)
    requires from <= |s|
    ensures var n := Separator(s, from);
            if n == |s| then Behind(s, from) == Rest(s, from, true) && |Behind(s, from)| == 0
            else Behind(s, from) == Rest(s, n + 1, false) == Levels(s, n + 1) && |Behind(s, from)| > 0
  {
  }

  /** One level is taken off both. */
  lemma LevelTaken(filter: string, topic: string, f: nat, t: nat)
    requires f <= |filter| && t <= |topic| && !Multi(Level(filter, f))
    ensures LevelsMatch(Levels(filter, f), Levels(topic, t)) <==>
              && LevelFits(Level(filter, f), Level(topic, t))
              && if |Behind(filter, f)| == 0 then |Behind(topic, t)| == 0
                 else LevelsMatch(Behind(filter, f), Behind(topic, t))
  {
    BehindUnfolds(filter, f);
    BehindUnfolds(topic, t);
    MatchCons(Level(filter, f), Behind(filter, f), Level(topic, t), Behind(topic, t));
    hide *;
  }

  lemma FilterAlone(filter: string, f: nat, topic: seq<string>)
    requires f <= |filter|
    ensures Multi(Level(filter, f)) ==> (LevelsMatch(Levels(filter, f), topic) <==> Separator(filter, f) == |filter|)
    ensures !Multi(Level(filter, f)) && |topic| == 0 ==> !LevelsMatch(Levels(filter, f), topic)
  {
    BehindUnfolds(filter, f);
    hide Separator, Behind, Level;
  }

  // What the loop asks, in places rather than levels.

  ghost predicate Left(filter: string, f: nat, topic: string, t: nat, exhausted: bool)
    requires f <= |filter| && t <= |topic|
  {
    LevelsMatch(Levels(filter, f), Rest(topic, t, exhausted))
  }

  ghost predicate FitsAt(filter: string, f: nat, topic: string, t: nat)
    requires f <= |filter| && t <= |topic|
  {
    LevelFits(Level(filter, f), Level(topic, t))
  }

  /** Whether the level from `from` to `to` is just this character. */
  predicate IsChar(s: string, from: nat, to: nat, c: char)
    requires from <= to <= |s|
  {
    to - from == 1 && s[from] == c
  }

  lemma OneChar(s: string, from: nat)
    requires from <= |s|
    ensures IsChar(s, from, Separator(s, from), '#') <==> Multi(Level(s, from))
    ensures IsChar(s, from, Separator(s, from), '+') <==> Single(Level(s, from))
  {
    hide Separator;
  }

  /** What one round may conclude. */
  lemma Round(filter: string, f: nat, topic: string, t: nat, exhausted: bool)
    requires f <= |filter| && t <= |topic|
    ensures var left, fEnd, tEnd := Left(filter, f, topic, t, exhausted), Separator(filter, f), Separator(topic, t);
            if IsChar(filter, f, fEnd, '#') then left <==> fEnd == |filter|
            else if exhausted || !FitsAt(filter, f, topic, t) then !left
            else if fEnd == |filter| then left <==> tEnd == |topic|
            else if tEnd == |topic| then left <==> Left(filter, fEnd + 1, topic, t, true)
            else left <==> Left(filter, fEnd + 1, topic, tEnd + 1, false)
  {
    hide Levels, LevelsMatch, Separator, Level, LevelFits, Behind, IsChar, Rest, Multi, Single;
    OneChar(filter, f);
    FilterAlone(filter, f, Rest(topic, t, exhausted));
    RestUnfolds(topic, t);
    if !Multi(Level(filter, f)) && !exhausted {
      LevelTaken(filter, topic, f, t);
      BehindIs(filter, f);
      BehindIs(topic, t);
    }
  }

  lemma Begins(filter: string, topic: string)
    ensures if |filter| == 0 || |topic| == 0 || Guarded(filter, topic) then !Matches(filter, topic)
            else Matches(filter, topic) <==> Left(filter, 0, topic, 0, false)
  {
  }

  /** One level against another, byte by byte unless it is the single-level wildcard. */
  method FitsLevel(filter: string, f: nat, fEnd: nat, topic: string, t: nat, tEnd: nat) returns (fits: bool)
    requires f <= |filter| && t <= |topic| && fEnd == Separator(filter, f) && tEnd == Separator(topic, t)
    ensures fits <==> FitsAt(filter, f, topic, t)
  {
    OneChar(filter, f);
    hide Separator;
    if IsChar(filter, f, fEnd, '+') { return true; }
    return fEnd - f == tEnd - t && topic[t..tEnd] == filter[f..fEnd];
  }

  method TopicMatches(filter: string, topic: string) returns (matches: bool)
    ensures matches <==> Matches(filter, topic)
  {
    hide *;
    Begins(filter, topic);
    if |filter| == 0 || |topic| == 0 { return false; }
    if Guarded(filter, topic) { return false; }
    var f: nat, t: nat, topicExhausted := 0, 0, false;
    while true
      invariant f <= |filter| && t <= |topic|
      invariant Matches(filter, topic) <==> Left(filter, f, topic, t, topicExhausted)
      decreases |filter| - f
    {
      var fEnd := Separator(filter, f);
      var lastFilterLevel := fEnd == |filter|;
      Round(filter, f, topic, t, topicExhausted);
      if IsChar(filter, f, fEnd, '#') { return lastFilterLevel; }
      if topicExhausted { return false; }
      var tEnd := Separator(topic, t);
      var lastTopicLevel := tEnd == |topic|;
      var fits := FitsLevel(filter, f, fEnd, topic, t, tEnd);
      if !fits { return false; }
      if lastFilterLevel { return lastTopicLevel; }
      if lastTopicLevel { topicExhausted := true; } else { t := tEnd + 1; }
      f := fEnd + 1;
    }
  }
}
