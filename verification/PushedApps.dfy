/** The pushed apps, kept sorted by name, with the order they first arrived in. */
module PushedApps {
  import opened AppNames
  import opened Options

  const MAX_PUSHED_APPS := 50

  /** What an app shows, and how long it lives; no lifetime is forever. */
  datatype Spec = Spec(body: nat, lifetime: int, removedAtEnd: bool, ended: bool)

  /** One app of a parsed payload. */
  datatype Push = Push(key: Name, base: Name, spec: Spec)

  datatype Entry = Entry(name: Name, spec: Spec, receivedAt: int, arrayBase: Name, arrival: nat)

  ghost predicate Sorted(es: seq<Entry>) {
    forall i, j :: 0 <= i < j < |es| ==> Less(es[i].name, es[j].name)
  }

  /** Every app has an arrival number of its own, below the next to be given. */
  ghost predicate Numbered(es: seq<Entry>, next: nat) {
    && (forall i :: 0 <= i < |es| ==> es[i].arrival < next)
    && (forall i, j :: 0 <= i < j < |es| ==> es[i].arrival != es[j].arrival)
  }

  function LowerBound(es: seq<Entry>, name: Name): (at: nat)
    ensures at <= |es|
  {
    if es == [] || !Less(es[0].name, name) then 0 else 1 + LowerBound(es[1..], name)
  }

  lemma {:induction false} LowerBoundSplits(es: seq<Entry>, name: Name)
    requires Sorted(es)
    ensures var at := LowerBound(es, name);
            && (forall i :: 0 <= i < at ==> Less(es[i].name, name) && es[i].name != name)
            && (forall i :: at <= i < |es| ==> es[i].name == name || Less(name, es[i].name))
            && (forall i :: at < i < |es| ==> es[i].name != name)
  {
    LessTotal();
    if es != [] && Less(es[0].name, name) {
      LowerBoundSplits(es[1..], name);
      assert forall i :: 1 <= i < |es| ==> es[i] == es[1..][i - 1];
    }
  }

  function Find(es: seq<Entry>, name: Name): Option<Entry> {
    var at := LowerBound(es, name);
    if at < |es| && es[at].name == name then Some(es[at]) else None
  }

  /**
   The search finds exactly the entry of that name. It is written as a scan from the front: in a sorted list
   that ends at the same place as a bisection.
   */
  lemma FindsEntry(es: seq<Entry>, e: Entry)
    requires Sorted(es)
    ensures Find(es, e.name) == Some(e) <==> e in es
    ensures Find(es, e.name) == None <==> forall i :: 0 <= i < |es| ==> es[i].name != e.name
  {
    LowerBoundSplits(es, e.name);
    LessTotal();
  }

  /** Overwrites an app or inserts it at its place. */
  function Upsert(es: seq<Entry>, p: Push, now: int, arrival: nat): seq<Entry> {
    var at := LowerBound(es, p.key);
    if at < |es| && es[at].name == p.key then es[at := Entry(p.key, p.spec, now, p.base, es[at].arrival)]
    else es[..at] + [Entry(p.key, p.spec, now, p.base, arrival)] + es[at..]
  }

  /** The entry an upsert leaves. */
  function Put(es: seq<Entry>, p: Push, now: int, arrival: nat): Entry {
    Entry(p.key, p.spec, now, p.base, if Find(es, p.key).Some? then Find(es, p.key).value.arrival else arrival)
  }

  lemma UpsertSorted(es: seq<Entry>, p: Push, now: int, arrival: nat)
    requires Sorted(es)
    ensures Sorted(Upsert(es, p, now, arrival))
    ensures |Upsert(es, p, now, arrival)| == |es| + if Find(es, p.key).Some? then 0 else 1
  {
    LowerBoundSplits(es, p.key);
    LessTotal();
    hide LowerBound, Less;
  }

  lemma UpsertNumbered(es: seq<Entry>, p: Push, now: int, next: nat)
    requires Numbered(es, next)
    ensures Numbered(Upsert(es, p, now, next), if Find(es, p.key).Some? then next else next + 1)
  {
    hide LowerBound;
  }

  /** Nothing but that one app changes. */
  lemma UpsertMembers(es: seq<Entry>, p: Push, now: int, arrival: nat, e: Entry)
    requires Sorted(es)
    ensures e in Upsert(es, p, now, arrival) <==> e == Put(es, p, now, arrival) || (e in es && e.name != p.key)
  {
    var at := LowerBound(es, p.key);
    LowerBoundSplits(es, p.key);
    hide LowerBound, Less, Sorted;
    if at < |es| && es[at].name == p.key {
      Replaced(es, at, Put(es, p, now, arrival), e);
    } else {
      Inserted(es, at, Put(es, p, now, arrival), e);
    }
  }

  lemma Replaced(es: seq<Entry>, at: nat, put: Entry, e: Entry)
    requires at < |es|
    requires forall i :: 0 <= i < |es| && i != at ==> es[i].name != es[at].name
    ensures e in es[at := put] <==> e == put || (e in es && e.name != es[at].name)
  {
    var es' := es[at := put];
    assert es'[at] == put && forall i :: 0 <= i < |es| && i != at ==> es'[i] == es[i];
  }

  lemma Inserted(es: seq<Entry>, at: nat, put: Entry, e: Entry)
    requires at <= |es| && forall i :: 0 <= i < |es| ==> es[i].name != put.name
    ensures e in es[..at] + [put] + es[at..] <==> e == put || (e in es && e.name != put.name)
  {
    assert es == es[..at] + es[at..];
  }

  // ----- a batch -----

  /** Names of a batch that are not held yet. */
  function Needed(es: seq<Entry>, batch: seq<Push>): nat {
    if batch == [] then 0
    else Needed(es, batch[..|batch| - 1]) + if Find(es, batch[|batch| - 1].key).Some? then 0 else 1
  }

  /** The places in a batch whose names are not held yet, a name that is there twice counted twice. */
  ghost function NewAmong(es: seq<Entry>, batch: seq<Push>): set<nat> {
    set i: nat | i < |batch| && forall e :: e in es ==> e.name != batch[i].key
  }

  lemma {:induction false} NeededCounts(es: seq<Entry>, batch: seq<Push>)
    requires Sorted(es)
    ensures Needed(es, batch) == |NewAmong(es, batch)|
  {
    if batch == [] {
      assert NewAmong(es, batch) == {};
    } else {
      var n := |batch| - 1;
      NeededCounts(es, batch[..n]);
      FindsEntry(es, Entry(batch[n].key, batch[n].spec, 0, batch[n].base, 0));
      hide Find;
      assert NewAmong(es, batch) == NewAmong(es, batch[..n]) + if n in NewAmong(es, batch) then {n} else {};
      assert n in NewAmong(es, batch) <==> forall e :: e in es ==> e.name != batch[n].key;
    }
  }

  datatype Store = Store(apps: seq<Entry>, nextArrival: nat)

  function Applied(st: Store, batch: seq<Push>, now: int): Store {
    if batch == [] then st
    else
      var s, p := Applied(st, batch[..|batch| - 1], now), batch[|batch| - 1];
      Store(Upsert(s.apps, p, now, s.nextArrival), if Find(s.apps, p.key).Some? then s.nextArrival else s.nextArrival + 1)
  }

  ghost predicate Good(st: Store) {
    Sorted(st.apps) && Numbered(st.apps, st.nextArrival) && |st.apps| <= MAX_PUSHED_APPS
  }

  /** The payload a batch ends with for a name. */
  function Last(batch: seq<Push>, n: Name): (r: Option<Push>)
    ensures r.Some? ==> r.value in batch && r.value.key == n
    ensures r.None? ==> forall p :: p in batch ==> p.key != n
  {
    if batch == [] then None
    else
      assert batch == batch[..|batch| - 1] + [batch[|batch| - 1]];
      if batch[|batch| - 1].key == n then Some(batch[|batch| - 1]) else Last(batch[..|batch| - 1], n)
  }

  /** A batch makes at most as many new apps as it has new names. */
  lemma {:induction false} AppliedGood(st: Store, batch: seq<Push>, now: int)
    requires Sorted(st.apps) && Numbered(st.apps, st.nextArrival)
    ensures var s := Applied(st, batch, now);
            && Sorted(s.apps) && Numbered(s.apps, s.nextArrival)
            && |s.apps| <= |st.apps| + Needed(st.apps, batch)
            && st.nextArrival <= s.nextArrival
            && (forall e :: e in st.apps ==> Find(s.apps, e.name).Some?)
    decreases |batch|
  {
    if batch == [] {
      forall e | e in st.apps ensures Find(st.apps, e.name).Some? { FindsEntry(st.apps, e); }
    } else {
      var init, p := batch[..|batch| - 1], batch[|batch| - 1];
      AppliedGood(st, init, now);
      var s := Applied(st, init, now);
      UpsertSorted(s.apps, p, now, s.nextArrival);
      UpsertNumbered(s.apps, p, now, s.nextArrival);
      if Find(st.apps, p.key).Some? { FindsEntry(st.apps, Find(st.apps, p.key).value); }
      forall e | e in st.apps ensures Find(Applied(st, batch, now).apps, e.name).Some? {
        StillFound(s.apps, p, now, s.nextArrival, e.name);
      }
    }
  }

  lemma StillFound(es: seq<Entry>, p: Push, now: int, arrival: nat, n: Name)
    requires Sorted(es)
    ensures Find(Upsert(es, p, now, arrival), n) ==
              if n == p.key then Some(Put(es, p, now, arrival)) else Find(es, n)
  {
    UpsertSorted(es, p, now, arrival);
    var es' := Upsert(es, p, now, arrival);
    var put := Put(es, p, now, arrival);
    if n == p.key {
      UpsertMembers(es, p, now, arrival, put);
      FindsEntry(es', put);
    } else if Find(es, n).Some? {
      var e := Find(es, n).value;
      FindsEntry(es, e);
      UpsertMembers(es, p, now, arrival, e);
      FindsEntry(es', e);
    } else if Find(es', n).Some? {
      var e := Find(es', n).value;
      FindsEntry(es', e);
      UpsertMembers(es, p, now, arrival, e);
      FindsEntry(es, e);
    }
  }

  /**
   What a batch leaves of an app: untouched if the batch does not name it; otherwise the last of its
   payloads, with its arrival number kept if it was there and a new one if it was not.
   */
  lemma {:induction false} AppliedFinds(st: Store, batch: seq<Push>, now: int, n: Name)
    requires Sorted(st.apps) && Numbered(st.apps, st.nextArrival)
    ensures var was, left := Find(st.apps, n), Find(Applied(st, batch, now).apps, n);
            match Last(batch, n)
            case None => left == was
            case Some(p) =>
              && left.Some? && left.value.(arrival := 0) == Entry(n, p.spec, now, p.base, 0)
              && if was.Some? then left.value.arrival == was.value.arrival else left.value.arrival >= st.nextArrival
    decreases |batch|
  {
    if batch != [] {
      var init, p := batch[..|batch| - 1], batch[|batch| - 1];
      AppliedFinds(st, init, now, n);
      AppliedGood(st, init, now);
      var s := Applied(st, init, now);
      StillFound(s.apps, p, now, s.nextArrival, n);
      hide Find, Upsert;
    }
  }

  // ----- apps that go -----

  /** Gone by its own name or with the array it came in. */
  predicate Named(e: Entry, n: Name) { e.name == n || e.arrayBase == n }

  predicate Dead(e: Entry, now: int) {
    e.spec.lifetime > 0 && e.spec.removedAtEnd && now - e.receivedAt >= e.spec.lifetime
  }

  /** Past its lifetime, but to stay on with a mark. */
  predicate Overdue(e: Entry, now: int) {
    e.spec.lifetime > 0 && !e.spec.removedAtEnd && now - e.receivedAt >= e.spec.lifetime
  }

  function Marked(e: Entry, now: int): Entry {
    if Overdue(e, now) then e.(spec := e.spec.(ended := true)) else e
  }

  /** The apps that stay, in the order they were. */
  function Remaining(es: seq<Entry>, gone: Entry -> bool): (r: seq<Entry>)
    ensures forall e :: e in r <==> e in es && !gone(e)
    ensures |r| <= |es| && (|r| == |es| ==> r == es)
  {
    if es == [] then []
    else
      var last := es[|es| - 1];
      assert es == es[..|es| - 1] + [last];
      Remaining(es[..|es| - 1], gone) + if gone(last) then [] else [last]
  }

  lemma {:induction false} RemainingGood(es: seq<Entry>, gone: Entry -> bool, next: nat)
    requires Sorted(es) && Numbered(es, next)
    ensures Sorted(Remaining(es, gone)) && Numbered(Remaining(es, gone), next)
  {
    if es == [] {
      assert Remaining(es, gone) == [];
    } else {
      var init, last := es[..|es| - 1], es[|es| - 1];
      RemainingUnfold(es, gone);
      LastIsMore(es, next);
      hide *;
      RemainingGood(init, gone, next);
      var r := Remaining(init, gone);
      forall i | 0 <= i < |r| ensures Less(r[i].name, last.name) && r[i].arrival != last.arrival {
        assert r[i] in init;
      }
      AppendGood(r, last, next);
    }
  }

  lemma RemainingUnfold(es: seq<Entry>, gone: Entry -> bool)
    requires es != []
    ensures var r, last := Remaining(es[..|es| - 1], gone), es[|es| - 1];
            Remaining(es, gone) == if gone(last) then r else r + [last]
  {
  }

  lemma LastIsMore(es: seq<Entry>, next: nat)
    requires Sorted(es) && Numbered(es, next) && es != []
    ensures var init, last := es[..|es| - 1], es[|es| - 1];
            && Sorted(init) && Numbered(init, next) && last.arrival < next
            && forall e :: e in init ==> Less(e.name, last.name) && e.arrival != last.arrival
  {
    hide Less;
  }

  lemma AppendGood(es: seq<Entry>, last: Entry, next: nat)
    requires Sorted(es) && Numbered(es, next) && last.arrival < next
    requires forall i :: 0 <= i < |es| ==> Less(es[i].name, last.name) && es[i].arrival != last.arrival
    ensures Sorted(es + [last]) && Numbered(es + [last], next)
  {
    hide Less;
  }

  function MarkedAll(es: seq<Entry>, now: int): (r: seq<Entry>)
    ensures |r| == |es| && forall i :: 0 <= i < |es| ==> r[i] == Marked(es[i], now)
  {
    seq(|es|, i requires 0 <= i < |es| => Marked(es[i], now))
  }

  function Survivors(es: seq<Entry>, now: int): seq<Entry> { Remaining(es, e => Dead(e, now)) }

  function Unnamed(es: seq<Entry>, n: Name): seq<Entry> { Remaining(es, e => Named(e, n)) }

  /** Deleting a name leaves no app of that name, none of that array, and all others. */
  lemma UnnamedMembers(es: seq<Entry>, n: Name)
    ensures forall e :: e in Unnamed(es, n) <==> e in es && e.name != n && e.arrayBase != n
  {
  }

  /** What the end of their lifetimes makes of the apps: marks first, then removals. */
  function Expired(es: seq<Entry>, now: int): seq<Entry> { Survivors(MarkedAll(es, now), now) }

  lemma FewerGood(st: Store, now: int, n: Name)
    requires Good(st)
    ensures Good(st.(apps := Survivors(st.apps, now))) && Good(st.(apps := Unnamed(st.apps, n)))
  {
    RemainingGood(st.apps, e => Dead(e, now), st.nextArrival);
    RemainingGood(st.apps, e => Named(e, n), st.nextArrival);
  }

  lemma ExpiredUnfold(es: seq<Entry>, now: int)
    ensures Expired(es, now) == Survivors(MarkedAll(es, now), now)
  {
  }

  ghost predicate AnyDead(es: seq<Entry>, now: int) { exists e :: e in es && Dead(e, now) }

  lemma NoneDead(es: seq<Entry>, now: int)
    ensures !AnyDead(es, now) ==> Survivors(es, now) == es
  {
    NoneGone(es, e => Dead(e, now));
  }

  lemma {:induction false} NoneGone(es: seq<Entry>, gone: Entry -> bool)
    ensures (forall e :: e in es ==> !gone(e)) ==> Remaining(es, gone) == es
  {
    if es != [] { NoneGone(es[..|es| - 1], gone); }
  }

  /** The list afterwards is what was in it and is not dead, marked if it is overdue, and nothing else. */
  lemma ExpiredMembers(es: seq<Entry>, now: int, x: Entry)
    ensures x in Expired(es, now) <==>
              exists e :: e in es &&
                var over := e.spec.lifetime > 0 && now - e.receivedAt >= e.spec.lifetime;
                !(over && e.spec.removedAtEnd) && x == if over then e.(spec := e.spec.(ended := true)) else e
    ensures x in es && (x.spec.lifetime <= 0 || now - x.receivedAt < x.spec.lifetime) ==> x in Expired(es, now)
  {
    var marked := MarkedAll(es, now);
    if x in Expired(es, now) {
      var i :| 0 <= i < |marked| && marked[i] == x;
      assert es[i] in es && x == Marked(es[i], now) && !Dead(es[i], now);
    }
    forall e | e in es ensures Marked(e, now) in marked {
      var i :| 0 <= i < |es| && es[i] == e;
      assert marked[i] == Marked(e, now);
    }
  }

  /** Marking changes neither names nor arrivals. */
  lemma MarkedGood(es: seq<Entry>, es': seq<Entry>, now: int, next: nat)
    requires Sorted(es) && Numbered(es, next)
    requires |es'| == |es| && forall i :: 0 <= i < |es| ==> es'[i] == Marked(es[i], now) || es'[i] == es[i]
    ensures Sorted(es') && Numbered(es', next)
  {
  }

  // ----- the order of arrival -----

  ghost predicate InArrivalOrder(es: seq<Entry>) {
    forall i, j :: 0 <= i < j < |es| ==> es[i].arrival <= es[j].arrival
  }

  function InsertByArrival(e: Entry, es: seq<Entry>): seq<Entry> {
    if es == [] || e.arrival <= es[0].arrival then [e] + es else [es[0]] + InsertByArrival(e, es[1..])
  }

  /** The apps as they first arrived. */
  function ByArrival(es: seq<Entry>): seq<Entry> {
    if es == [] then [] else InsertByArrival(es[0], ByArrival(es[1..]))
  }

  lemma {:induction false} InsertKeeps(e: Entry, es: seq<Entry>)
    ensures multiset(InsertByArrival(e, es)) == multiset(es) + multiset{e}
  {
    if es != [] && e.arrival > es[0].arrival {
      InsertKeeps(e, es[1..]);
      assert es == [es[0]] + es[1..];
    }
  }

  lemma {:induction false} InsertOrdered(e: Entry, es: seq<Entry>)
    requires InArrivalOrder(es)
    ensures InArrivalOrder(InsertByArrival(e, es))
  {
    if es != [] && e.arrival > es[0].arrival {
      var first, rest := es[0], es[1..];
      assert InArrivalOrder(rest) && forall x :: x in rest ==> first.arrival <= x.arrival;
      InsertOrdered(e, rest);
      InsertKeeps(e, rest);
      FirstStays(first, e, rest, InsertByArrival(e, rest));
    }
  }

  lemma FirstStays(first: Entry, e: Entry, rest: seq<Entry>, r: seq<Entry>)
    requires multiset(r) == multiset(rest) + multiset{e} && InArrivalOrder(r)
    requires first.arrival <= e.arrival && forall x :: x in rest ==> first.arrival <= x.arrival
    ensures InArrivalOrder([first] + r)
  {
    forall i | 0 <= i < |r| ensures first.arrival <= r[i].arrival {
      assert r[i] in multiset(r);
    }
  }

  /** A reordering of the apps by arrival. */
  lemma {:induction false} ArrivalOrder(es: seq<Entry>)
    ensures InArrivalOrder(ByArrival(es)) && multiset(ByArrival(es)) == multiset(es)
    ensures forall e :: e in ByArrival(es) <==> e in es
  {
    if es != [] {
      ArrivalOrder(es[1..]);
      InsertOrdered(es[0], ByArrival(es[1..]));
      InsertKeeps(es[0], ByArrival(es[1..]));
      assert es == [es[0]] + es[1..];
    }
    hide *;
    SameMembers(ByArrival(es), es);
  }

  lemma SameMembers(a: seq<Entry>, b: seq<Entry>)
    requires multiset(a) == multiset(b)
    ensures forall e :: e in a <==> e in b
  {
    forall e ensures e in a <==> e in b {
      assert e in multiset(a) <==> e in multiset(b);
    }
  }
}
