/** The names an engine orders its apps by, and the list the display rotates through. */
module AppNames {
  import opened AlphaOrder

  /** An app's name; the empty one stands for no app. */
  datatype Name = Name(text: string)

  const NONE := Name("")

  predicate CharLess(c: char, d: char) { c < d }

  /** Byte order. */
  predicate Less(a: Name, b: Name) { Before(CharLess, a.text, b.text) }

  lemma LessTotal()
    ensures StrictTotal(Less)
  {
    assert StrictTotal(CharLess);
    forall a, b: Name ensures !Less(a, a) && (Less(a, b) || a == b || Less(b, a)) {
      BeforeIrreflexive(CharLess, a.text);
      BeforeTrichotomy(CharLess, a.text, b.text);
    }
    forall a, b, c: Name | Less(a, b) && Less(b, c) ensures Less(a, c) {
      BeforeTransitive(CharLess, a.text, b.text, c.text);
    }
  }

  ghost predicate NoDup(s: seq<Name>) { forall i, j :: 0 <= i < j < |s| ==> s[i] != s[j] }

  /** The list without this name. */
  function Without(s: seq<Name>, n: Name): (r: seq<Name>)
    ensures forall m :: m in r <==> m in s && m != n
    ensures n !in s ==> r == s
  {
    if s == [] then []
    else
      var last := |s| - 1;
      assert s == s[..last] + [s[last]];
      Without(s[..last], n) + if s[last] == n then [] else [s[last]]
  }

  lemma {:induction false} WithoutNoDup(s: seq<Name>, n: Name)
    requires NoDup(s)
    ensures NoDup(Without(s, n))
  {
    if s != [] {
      var init := s[..|s| - 1];
      var last := s[|s| - 1];
      WithoutNoDup(init, n);
      if last != n {
        assert last !in init;
        AppendNoDup(Without(init, n), last);
      }
    }
  }

  /** Two names of `s`, the first somewhere before the second. */
  ghost predicate Precedes(s: seq<Name>, a: Name, b: Name) { exists p, q :: 0 <= p < q < |s| && s[p] == a && s[q] == b }

  /** What is left of `s` stands in the order it has there. */
  ghost predicate InOrder(r: seq<Name>, s: seq<Name>) {
    && (forall n :: n in r ==> n in s)
    && forall i, j :: 0 <= i < j < |r| ==> Precedes(s, r[i], r[j])
  }

  /** One more name, kept or left out. */
  lemma InOrderOn(r: seq<Name>, s: seq<Name>, n: Name)
    requires InOrder(r, s)
    ensures InOrder(r, s + [n]) && InOrder(r + [n], s + [n])
  {
    var (s', r') := (s + [n], r + [n]);
    forall i, j | 0 <= i < j < |r| ensures Precedes(s', r[i], r[j]) {
      assert Precedes(s, r[i], r[j]);
      var p, q :| 0 <= p < q < |s| && s[p] == r[i] && s[q] == r[j];
      assert s'[p] == r[i] && s'[q] == r[j];
    }
    forall i, j | 0 <= i < j < |r'| ensures Precedes(s', r'[i], r'[j]) {
      if j == |r| {
        assert r[i] in s;
        var p :| 0 <= p < |s| && s[p] == r[i];
        assert s'[p] == r[i] && s'[|s|] == n;
      }
    }
  }

  /** A list and what is left of it, each with one more name or, on the left, none. */
  lemma InOrderLast(r': seq<Name>, s': seq<Name>, r: seq<Name>, s: seq<Name>, n: Name)
    requires InOrder(r, s) && s' == s + [n] && (r' == r || r' == r + [n])
    ensures InOrder(r', s')
  {
    hide *;
    InOrderOn(r, s, n);
  }

  lemma LastApart(s: seq<Name>)
    requires s != []
    ensures s == s[..|s| - 1] + [s[|s| - 1]]
  {
  }

  lemma AppendNoDup(s: seq<Name>, n: Name)
    requires NoDup(s) && n !in s
    ensures NoDup(s + [n])
  {
  }
}

/** The apps the display rotates through, and which one it shows. */
module AppHosts {
  import opened AppNames

  class AppHost {
    var apps: seq<Name>
    var current: nat
    var target: int   // the app sliding in, or -1

    constructor ()
      ensures Valid() && apps == []
    {
      apps, current, target := [], 0, -1;
    }

    ghost predicate Valid()
      reads this
    {
      (current < |apps| || (apps == [] && current == 0)) && -1 <= target < |apps|
    }

    function CurrentId(): Name
      reads this
    {
      if current < |apps| then apps[current] else NONE
    }

    /** The app sliding in, while a transition runs. */
    function IncomingId(): Name
      reads this
    {
      if 0 <= target < |apps| then apps[target] else NONE
    }

    /** The first place of an app; no app is nowhere. */
    method IndexOf(id: Name) returns (i: int)
      ensures -1 <= i < |apps| && (i < 0 <==> id == NONE || id !in apps)
      ensures i >= 0 ==> apps[i] == id && id !in apps[..i]
    {
      if id == NONE { return -1; }
      i := 0;
      while i < |apps|
        invariant 0 <= i <= |apps| && id !in apps[..i]
      {
        if apps[i] == id { return i; }
        i := i + 1;
      }
      i := -1;
    }

    /**
     A new list. What is shown stays shown if the new list has it, and then a transition goes on if the list
     has its app too; any other transition ends.
     */
    method SetApps(ids: seq<Name>)
      requires Valid()
      modifies this
      ensures Valid() && apps == ids
      ensures old(CurrentId()) != NONE && old(CurrentId()) in ids ==> CurrentId() == old(CurrentId())
      ensures (ids == old(apps) || old(CurrentId()) == NONE || old(CurrentId()) !in ids) && old(current) < |ids| ==>
                current == old(current)
      ensures (old(CurrentId()) == NONE || old(CurrentId()) !in ids) && 0 < |ids| <= old(current) ==> current == |ids| - 1
      ensures ids == old(apps) ==> target == old(target)
      ensures ids != old(apps) ==>
                var going := old(CurrentId()) != NONE && old(CurrentId()) in ids && old(IncomingId()) in ids
                             && old(IncomingId()) != NONE && old(IncomingId()) != old(CurrentId());
                if going then target >= 0 && IncomingId() == old(IncomingId()) else target == -1
    {
      if ids == apps { return; }
      var keep, keepTarget := CurrentId(), IncomingId();
      apps := ids;
      var found := IndexOf(keep);
      if found >= 0 {
        current := found;
      } else if current >= |apps| {
        current := if apps == [] then 0 else |apps| - 1;
      }
      var at := -1;
      if found >= 0 { at := IndexOf(keepTarget); }
      target := if at >= 0 && at != current then at else -1;
    }

    /** Shows an app at once, in place of any transition. */
    method SwitchTo(id: Name) returns (found: bool)
      requires Valid()
      modifies this`current, this`target
      ensures Valid() && (found <==> id in apps)
      ensures if found then CurrentId() == id && target == -1 else current == old(current) && target == old(target)
    {
      var i := 0;
      while i < |apps|
        invariant i <= |apps| && id !in apps[..i] && current == old(current) && target == old(target)
      {
        if apps[i] == id {
          current, target := i, -1;
          return true;
        }
        i := i + 1;
      }
      return false;
    }
  }
}
