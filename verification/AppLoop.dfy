/** The rotation: what the user has placed, in that order, and behind it whatever else there is. */
module AppLoop {
  import opened AppNames
  import opened PushedApps

  /** Apps of the saved order that exist and are switched on. */
  function Arranged(order: seq<Name>, known: seq<Name>, disabled: seq<Name>): (r: seq<Name>)
    ensures forall n :: n in r <==> n in order && n in known && n !in disabled
  {
    if order == [] then []
    else
      var last := order[|order| - 1];
      assert order == order[..|order| - 1] + [last];
      Arranged(order[..|order| - 1], known, disabled) + if last in known && last !in disabled then [last] else []
  }

  /** The existing apps that are switched on and not running yet come behind, each once. */
  function WithNewcomers(running: seq<Name>, known: seq<Name>, disabled: seq<Name>): (r: seq<Name>)
    ensures forall n :: n in r <==> n in running || (n in known && n !in disabled)
    ensures |running| <= |r| && r[..|running|] == running
  {
    if known == [] then running
    else
      var r, last := WithNewcomers(running, known[..|known| - 1], disabled), known[|known| - 1];
      assert known == known[..|known| - 1] + [last];
      if last !in disabled && last !in r then r + [last] else r
  }

  function Loop(known: seq<Name>, order: seq<Name>, disabled: seq<Name>): seq<Name> {
    WithNewcomers(Arranged(order, known, disabled), known, disabled)
  }

  /** What the script service says of its scripts. */
  datatype Answers = Answers(headless: set<Name>, parked: set<Name>)

  function Drawn(running: seq<Name>, told: Answers): (r: seq<Name>)
    ensures forall n :: n in r <==> n in running && n !in told.headless && n !in told.parked
  {
    if running == [] then []
    else
      var last := running[|running| - 1];
      assert running == running[..|running| - 1] + [last];
      Drawn(running[..|running| - 1], told) + if last !in told.headless && last !in told.parked then [last] else []
  }

  // ----- what the loop is like -----

  /** Exactly the existing apps that are switched on, the arranged ones in front. */
  lemma LoopMembers(known: seq<Name>, order: seq<Name>, disabled: seq<Name>, n: Name)
    ensures n in Loop(known, order, disabled) <==> n in known && n !in disabled
    ensures Arranged(order, known, disabled) <= Loop(known, order, disabled)
  {
  }

  /** The arranged apps run in the saved order. */
  lemma {:induction false} ArrangedInOrder(order: seq<Name>, known: seq<Name>, disabled: seq<Name>)
    ensures InOrder(Arranged(order, known, disabled), order)
  {
    if order != [] {
      var init, last := order[..|order| - 1], order[|order| - 1];
      hide *;
      ArrangedUnfold(order, known, disabled);
      ArrangedInOrder(init, known, disabled);
      LastApart(order);
      InOrderLast(Arranged(order, known, disabled), order, Arranged(init, known, disabled), init, last);
    }
  }

  /** Apps that draw nothing are left out, the others stay as they were. */
  lemma {:induction false} DrawnInOrder(running: seq<Name>, told: Answers)
    ensures InOrder(Drawn(running, told), running)
  {
    if running != [] {
      var init, last := running[..|running| - 1], running[|running| - 1];
      hide InOrder;
      DrawnInOrder(init, told);
      LastApart(running);
      InOrderLast(Drawn(running, told), running, Drawn(init, told), init, last);
    }
  }

  /** A newcomer: behind the arranged, once, and among the newcomers where it comes first in `known`. */
  ghost predicate Newcomer(running: seq<Name>, known: seq<Name>, a: Name, b: Name) {
    a != b && (a in running || exists p, q :: 0 <= p < q < |known| && known[p] == a && known[q] == b && b !in known[..q])
  }

  lemma {:induction false} NewcomersInOrder(running: seq<Name>, known: seq<Name>, disabled: seq<Name>, i: nat, j: nat)
    requires i < j && |running| <= j < |WithNewcomers(running, known, disabled)|
    ensures var r := WithNewcomers(running, known, disabled); Newcomer(running, known, r[i], r[j]) && r[j] !in running
    decreases |known|
  {
    var init, last := known[..|known| - 1], known[|known| - 1];
    var before := WithNewcomers(running, init, disabled);
    assert known == init + [last];
    if j < |before| {
      NewcomersInOrder(running, init, disabled, i, j);
      NewcomerStill(running, init, last, before[i], before[j]);
    } else {
      assert before[i] in before && last !in before;
      NewcomerLast(running, init, disabled, before[i], last);
    }
    hide WithNewcomers;
  }

  lemma NewcomerStill(running: seq<Name>, known: seq<Name>, more: Name, a: Name, b: Name)
    requires Newcomer(running, known, a, b)
    ensures Newcomer(running, known + [more], a, b)
  {
    if a !in running {
      var p, q :| 0 <= p < q < |known| && known[p] == a && known[q] == b && b !in known[..q];
      var k := known + [more];
      assert k[p] == a && k[q] == b && k[..q] == known[..q];
    }
  }

  lemma NewcomerLast(running: seq<Name>, known: seq<Name>, disabled: seq<Name>, a: Name, b: Name)
    requires a in WithNewcomers(running, known, disabled) && b !in WithNewcomers(running, known, disabled) && b !in disabled
    ensures Newcomer(running, known + [b], a, b) && b !in running
  {
    assert b !in known;
    if a !in running {
      var p :| 0 <= p < |known| && known[p] == a;
      var k := known + [b];
      assert k[p] == a && k[|known|] == b && k[..|known|] == known;
    }
  }

  /** Every app has one place, unless the saved order itself names it twice. */
  lemma LoopNoDup(known: seq<Name>, order: seq<Name>, disabled: seq<Name>)
    requires NoDup(order)
    ensures NoDup(Loop(known, order, disabled))
  {
    ArrangedNoDup(order, known, disabled);
    NewcomersNoDup(Arranged(order, known, disabled), known, disabled);
  }

  lemma {:induction false} ArrangedNoDup(order: seq<Name>, known: seq<Name>, disabled: seq<Name>)
    requires NoDup(order)
    ensures NoDup(Arranged(order, known, disabled))
  {
    if order != [] {
      var init, last := order[..|order| - 1], order[|order| - 1];
      ArrangedNoDup(init, known, disabled);
      assert last !in init;
      AppendNoDup(Arranged(init, known, disabled), last);
    }
  }

  lemma {:induction false} NewcomersNoDup(running: seq<Name>, known: seq<Name>, disabled: seq<Name>)
    requires NoDup(running)
    ensures NoDup(WithNewcomers(running, known, disabled))
    decreases |known|
  {
    if known != [] {
      var init, last := known[..|known| - 1], known[|known| - 1];
      NewcomersNoDup(running, init, disabled);
      if last !in WithNewcomers(running, init, disabled) {
        AppendNoDup(WithNewcomers(running, init, disabled), last);
      }
    }
  }

  /** Switching an app off takes it out of the loop and leaves the rest as it was. */
  lemma HidingTakesOneOut(known: seq<Name>, order: seq<Name>, disabled: seq<Name>, n: Name)
    ensures Loop(known, order, disabled + [n]) == Without(Loop(known, order, disabled), n)
  {
    ArrangedWithout(order, known, disabled, n);
    NewcomersWithout(Arranged(order, known, disabled), known, disabled, n);
  }

  lemma {:induction false} ArrangedWithout(order: seq<Name>, known: seq<Name>, disabled: seq<Name>, n: Name)
    ensures Arranged(order, known, disabled + [n]) == Without(Arranged(order, known, disabled), n)
  {
    if order != [] {
      var init, last := order[..|order| - 1], order[|order| - 1];
      ArrangedWithout(init, known, disabled, n);
      ArrangedUnfold(order, known, disabled);
      ArrangedUnfold(order, known, disabled + [n]);
      WithoutAppend(Arranged(init, known, disabled), last, n);
      hide *;
      assert last in disabled + [n] <==> last in disabled || last == n;
    }
  }

  lemma ArrangedUnfold(order: seq<Name>, known: seq<Name>, disabled: seq<Name>)
    requires order != []
    ensures var last, r := order[|order| - 1], Arranged(order[..|order| - 1], known, disabled);
            Arranged(order, known, disabled) == if last in known && last !in disabled then r + [last] else r
  {
  }

  lemma WithoutAppend(s: seq<Name>, last: Name, n: Name)
    ensures Without(s + [last], n) == Without(s, n) + if last == n then [] else [last]
  {
    assert (s + [last])[..|s|] == s;
  }

  lemma {:induction false} NewcomersWithout(running: seq<Name>, known: seq<Name>, disabled: seq<Name>, n: Name)
    ensures WithNewcomers(Without(running, n), known, disabled + [n]) == Without(WithNewcomers(running, known, disabled), n)
    decreases |known|
  {
    if known != [] {
      var init, last := known[..|known| - 1], known[|known| - 1];
      NewcomersWithout(running, init, disabled, n);
      if last !in disabled { WithoutAppend(WithNewcomers(running, init, disabled), last, n); }
    }
  }

  /** Erasing the name again gives back the list, so the loop too. */
  lemma HidingUndone(known: seq<Name>, order: seq<Name>, disabled: seq<Name>, n: Name)
    ensures Without(disabled + [n], n) == disabled <==> n !in disabled
    ensures n !in disabled ==> Loop(known, order, Without(disabled + [n], n)) == Loop(known, order, disabled)
  {
    WithoutAppend(disabled, n, n);
  }

  // ----- which apps exist -----

  function Existing(builtins: seq<Name>, absent: set<Name>, es: seq<Entry>): (r: seq<Name>)
    ensures forall n :: n in r <==> n in builtins && n !in absent && Find(es, n).None?
  {
    if builtins == [] then []
    else
      var last := builtins[|builtins| - 1];
      assert builtins == builtins[..|builtins| - 1] + [last];
      Existing(builtins[..|builtins| - 1], absent, es)
        + if last !in absent && Find(es, last).None? then [last] else []
  }

  function NamesOf(es: seq<Entry>): (r: seq<Name>)
    ensures |r| == |es| && forall i :: 0 <= i < |es| ==> r[i] == es[i].name
  {
    seq(|es|, i requires 0 <= i < |es| => es[i].name)
  }

  /** Built-ins the hardware can fill and no pushed app replaces, pushed apps as they arrived, then scripts. */
  function Known(builtins: seq<Name>, absent: set<Name>, es: seq<Entry>, scripts: seq<Name>): seq<Name> {
    Existing(builtins, absent, es) + NamesOf(ByArrival(es)) + scripts
  }

  ghost predicate HasApp(es: seq<Entry>, n: Name) { exists e :: e in es && e.name == n }

  /** A built-in that the hardware can fill and no pushed app replaces. */
  ghost predicate Shown(builtins: seq<Name>, absent: set<Name>, es: seq<Entry>, n: Name) {
    n in builtins && n !in absent && !HasApp(es, n)
  }

  lemma FoundIffHas(es: seq<Entry>, n: Name)
    requires Sorted(es)
    ensures Find(es, n).Some? <==> HasApp(es, n)
  {
    FindsEntry(es, Entry(n, Spec(0, 0, false, false), 0, n, 0));
    if Find(es, n).Some? { FindsEntry(es, Find(es, n).value); }
    hide Find;
  }

  /** The apps there are: such built-ins, the pushed apps and the scripts. */
  lemma KnownMembers(builtins: seq<Name>, absent: set<Name>, es: seq<Entry>, scripts: seq<Name>, n: Name)
    requires Sorted(es)
    ensures n in Known(builtins, absent, es, scripts) <==> (n in builtins && n !in absent) || HasApp(es, n) || n in scripts
  {
    FoundIffHas(es, n);
    NamesByArrival(es, n);
    hide Find, HasApp, NamesOf, ByArrival;
  }

  lemma NamesByArrival(es: seq<Entry>, n: Name)
    ensures n in NamesOf(ByArrival(es)) <==> HasApp(es, n)
  {
    ArrivalOrder(es);
    hide ByArrival;
    if HasApp(es, n) {
      var e :| e in es && e.name == n;
      var i :| 0 <= i < |ByArrival(es)| && ByArrival(es)[i] == e;
      assert NamesOf(ByArrival(es))[i] == n;
    }
    if n in NamesOf(ByArrival(es)) {
      var i :| 0 <= i < |ByArrival(es)| && NamesOf(ByArrival(es))[i] == n;
      assert ByArrival(es)[i] in es;
    }
  }

  ghost predicate ArrivedBefore(es: seq<Entry>, a: Name, b: Name) {
    exists e, f :: e in es && f in es && e.name == a && f.name == b && e.arrival < f.arrival
  }

  /** Which of two apps nobody arranged comes first: built-ins, then pushed apps by arrival, then scripts. */
  ghost predicate ComesBefore(builtins: seq<Name>, absent: set<Name>, es: seq<Entry>, scripts: seq<Name>, a: Name, b: Name) {
    if Shown(builtins, absent, es, b) then Shown(builtins, absent, es, a) && Precedes(builtins, a, b)
    else if HasApp(es, b) then Shown(builtins, absent, es, a) || ArrivedBefore(es, a, b)
    else Shown(builtins, absent, es, a) || HasApp(es, a) || Precedes(scripts, a, b)
  }

  lemma {:induction false} ExistingInOrder(builtins: seq<Name>, absent: set<Name>, es: seq<Entry>)
    ensures InOrder(Existing(builtins, absent, es), builtins)
  {
    if builtins != [] {
      var init, last := builtins[..|builtins| - 1], builtins[|builtins| - 1];
      hide InOrder, Find;
      ExistingInOrder(init, absent, es);
      LastApart(builtins);
      InOrderLast(Existing(builtins, absent, es), builtins, Existing(init, absent, es), init, last);
    }
  }

  lemma KnownInOrder(builtins: seq<Name>, absent: set<Name>, es: seq<Entry>, scripts: seq<Name>, next: nat, p: nat, q: nat)
    requires Sorted(es) && Numbered(es, next)
    requires var k := Known(builtins, absent, es, scripts); p < q < |k| && k[p] != k[q] && k[q] !in k[..q]
    ensures var k := Known(builtins, absent, es, scripts); ComesBefore(builtins, absent, es, scripts, k[p], k[q])
  {
    var x, y := Existing(builtins, absent, es), NamesOf(ByArrival(es));
    var k := Known(builtins, absent, es, scripts);
    var a, b := k[p], k[q];
    FoundIffHas(es, a);
    FoundIffHas(es, b);
    NamesByArrival(es, a);
    NamesByArrival(es, b);
    ExistingInOrder(builtins, absent, es);
    hide Existing, NamesOf, ByArrival, Find, HasApp, Numbered, Sorted;
    Parts(x, y, scripts, p, q);
    if q < |x| {
      assert Precedes(builtins, x[p], x[q]);
    } else if q < |x| + |y| {
      if p >= |x| { NamesArrived(es, next, p - |x|, q - |x|); }
    }
  }

  /** Where a name stands that is nowhere before. */
  lemma Parts(x: seq<Name>, y: seq<Name>, z: seq<Name>, p: nat, q: nat)
    requires p < q < |x + y + z| && (x + y + z)[q] !in (x + y + z)[..q]
    ensures var k := x + y + z;
            if q < |x| then k[p] == x[p] && k[q] == x[q] && k[q] in x && k[p] in x
            else k[q] !in x && if q < |x| + |y| then
              k[q] == y[q - |x|] && k[q] in y && if p < |x| then k[p] in x else k[p] == y[p - |x|]
            else k[q] !in y && (k[p] in x || k[p] in y || Precedes(z, k[p], k[q]))
  {
    var k := x + y + z;
    if q >= |x| { assert forall i :: 0 <= i < |x| ==> k[..q][i] == x[i]; }
    if q >= |x| + |y| {
      assert forall i :: 0 <= i < |y| ==> k[..q][|x| + i] == y[i];
      if p >= |x| + |y| { assert z[p - |x| - |y|] == k[p] && z[q - |x| - |y|] == k[q]; }
    }
  }

  lemma NamesArrived(es: seq<Entry>, next: nat, i: nat, j: nat)
    requires Sorted(es) && Numbered(es, next) && i < j < |ByArrival(es)|
    requires NamesOf(ByArrival(es))[i] != NamesOf(ByArrival(es))[j]
    ensures ArrivedBefore(es, NamesOf(ByArrival(es))[i], NamesOf(ByArrival(es))[j])
  {
    ArrivalOrder(es);
    var e, f := ByArrival(es)[i], ByArrival(es)[j];
    assert e in es && f in es && e.arrival <= f.arrival;
    var m :| 0 <= m < |es| && es[m] == e;
    var n :| 0 <= n < |es| && es[n] == f;
    hide ByArrival, Sorted;
  }

  // ----- marking an app changes nothing of this -----

  ghost predicate Alike(es: seq<Entry>, es': seq<Entry>) {
    |es| == |es'| && forall i :: 0 <= i < |es| ==> es[i].name == es'[i].name && es[i].arrival == es'[i].arrival
  }

  lemma {:induction false} AlikeFound(es: seq<Entry>, es': seq<Entry>, n: Name)
    requires Alike(es, es')
    ensures LowerBound(es, n) == LowerBound(es', n) && (Find(es, n).None? <==> Find(es', n).None?)
  {
    if es != [] {
      assert forall i :: 0 <= i < |es| - 1 ==> es[1..][i] == es[i + 1] && es'[1..][i] == es'[i + 1];
      AlikeFound(es[1..], es'[1..], n);
    }
  }

  lemma {:induction false} AlikeExisting(builtins: seq<Name>, absent: set<Name>, es: seq<Entry>, es': seq<Entry>)
    requires Alike(es, es')
    ensures Existing(builtins, absent, es) == Existing(builtins, absent, es')
  {
    if builtins != [] {
      AlikeExisting(builtins[..|builtins| - 1], absent, es, es');
      AlikeFound(es, es', builtins[|builtins| - 1]);
    }
  }

  lemma {:induction false} AlikeInsert(e: Entry, e': Entry, es: seq<Entry>, es': seq<Entry>)
    requires e.name == e'.name && e.arrival == e'.arrival && Alike(es, es')
    ensures Alike(InsertByArrival(e, es), InsertByArrival(e', es'))
  {
    if es != [] && e.arrival > es[0].arrival {
      assert Alike(es[1..], es'[1..]);
      AlikeInsert(e, e', es[1..], es'[1..]);
    }
  }

  lemma {:induction false} AlikeByArrival(es: seq<Entry>, es': seq<Entry>)
    requires Alike(es, es')
    ensures Alike(ByArrival(es), ByArrival(es'))
  {
    if es != [] {
      assert Alike(es[1..], es'[1..]);
      AlikeByArrival(es[1..], es'[1..]);
      AlikeInsert(es[0], es'[0], ByArrival(es[1..]), ByArrival(es'[1..]));
    }
  }

  lemma MarkedKnown(builtins: seq<Name>, absent: set<Name>, es: seq<Entry>, scripts: seq<Name>, now: int)
    ensures Known(builtins, absent, MarkedAll(es, now), scripts) == Known(builtins, absent, es, scripts)
  {
    AlikeExisting(builtins, absent, es, MarkedAll(es, now));
    AlikeByArrival(es, MarkedAll(es, now));
    assert NamesOf(ByArrival(es)) == NamesOf(ByArrival(MarkedAll(es, now)));
  }
}
