/** The engine's apps: what exists, what the user arranged, and who has the panel. */
module Engines {
  import opened AppNames
  import opened AppHosts
  import opened PushedApps
  import opened AppLoop
  import opened Options

  datatype Result = Ok | NotFound | Refused | Capacity

  /** Installed scripts: those in the rotation, and those that run only as a session. */
  datatype Scripts = Scripts(rotation: seq<Name>, onDemand: seq<Name>)

  /** The session's script, the app to go back to, and whether the script asked to end. */
  datatype Session = Session(app: Name, back: Name, endRequested: bool)

  const NO_SESSION := Session(NONE, NONE, false)

  /** The user's arrangement. Both lists may name apps that are away at the moment. */
  datatype Arrangement = Arrangement(order: seq<Name>, disabled: seq<Name>)

  /** The arrangement with one app switched off or on; a retired name is not switched. */
  function Switched(a: Arrangement, name: Name, enabled: bool, isRetired: bool): Arrangement {
    if isRetired then a
    else if enabled then a.(disabled := Without(a.disabled, name))
    else if name in a.disabled then a else a.(disabled := a.disabled + [name])
  }

  lemma SwitchedBack(a: Arrangement, name: Name, isRetired: bool)
    ensures Switched(Switched(a, name, false, isRetired), name, true, isRetired) == a <==> name !in a.disabled || isRetired
  {
    HidingUndone([], [], a.disabled, name);
  }

  ghost predicate Filed(s: Scripts) {
    && NoDup(s.rotation) && NoDup(s.onDemand) && NONE !in s.onDemand && NONE !in s.rotation
    && forall n :: n in s.rotation ==> n !in s.onDemand
  }

  /** Only an on-demand script has a session, and nothing of one is left behind it. */
  ghost predicate Held(session: Session, scripts: Scripts) {
    if session.app == NONE then session == NO_SESSION else session.app in scripts.onDemand
  }

  function Joined(into: seq<Name>, name: Name): (r: seq<Name>)
    ensures forall n :: n in r <==> n in into || n == name
  {
    if name in into then into else into + [name]
  }

  lemma JoinedNoDup(into: seq<Name>, name: Name)
    requires NoDup(into)
    ensures NoDup(Joined(into, name))
  {
    if name !in into { AppendNoDup(into, name); }
    hide NoDup;
  }

  /** Files a script under one of the lists and takes it off the other. */
  function File(s: Scripts, name: Name, onDemand: bool): Scripts {
    if onDemand then Scripts(Without(s.rotation, name), Joined(s.onDemand, name))
    else Scripts(Joined(s.rotation, name), Without(s.onDemand, name))
  }

  lemma FileKeeps(s: Scripts, name: Name, onDemand: bool)
    requires Filed(s) && name != NONE
    ensures Filed(File(s, name, onDemand))
    ensures var f := File(s, name, onDemand);
            && (name in f.onDemand <==> onDemand) && (name in f.rotation <==> !onDemand)
            && forall n :: n != name ==> (n in f.onDemand <==> n in s.onDemand) && (n in f.rotation <==> n in s.rotation)
  {
    WithoutNoDup(s.rotation, name);
    WithoutNoDup(s.onDemand, name);
    JoinedNoDup(s.rotation, name);
    JoinedNoDup(s.onDemand, name);
    hide Without, Joined, NoDup;
  }

  /** A removed script is in neither list. */
  lemma UnfileKeeps(s: Scripts, name: Name)
    requires Filed(s)
    ensures Filed(Scripts(Without(s.rotation, name), Without(s.onDemand, name)))
    ensures Filed(Scripts(Without(s.rotation, name), s.onDemand)) && Filed(Scripts(s.rotation, Without(s.onDemand, name)))
  {
    WithoutNoDup(s.rotation, name);
    WithoutNoDup(s.onDemand, name);
    hide Without, NoDup;
  }

  lemma NotBoth(s: Scripts, name: Name)
    requires Filed(s)
    ensures name in s.onDemand ==> name !in s.rotation && Without(s.rotation, name) == s.rotation && name != NONE
    ensures name !in s.onDemand ==> Without(s.onDemand, name) == s.onDemand
    ensures name !in s.rotation ==> Without(s.rotation, name) == s.rotation
  {
  }

  /** Names of built-ins this device no longer has are dropped, unless another app took the name. */
  predicate Retired(n: Name, retired: set<Name>, es: seq<Entry>, rotation: seq<Name>) {
    n in retired && Find(es, n).None? && n !in rotation
  }

  function DropRetired(names: seq<Name>, retired: set<Name>, es: seq<Entry>, rotation: seq<Name>): (r: seq<Name>)
    ensures forall n :: n in r <==> n in names && !Retired(n, retired, es, rotation)
    ensures NoDup(names) ==> NoDup(r)
  {
    if names == [] then []
    else
      var init, last := names[..|names| - 1], names[|names| - 1];
      assert names == init + [last];
      var r := DropRetired(init, retired, es, rotation);
      assert NoDup(names) ==> last !in init;
      if Retired(last, retired, es, rotation) then r else r + [last]
  }

  lemma {:induction false} PresentInOrder(names: seq<Name>, retired: set<Name>, es: seq<Entry>, rotation: seq<Name>)
    ensures InOrder(DropRetired(names, retired, es, rotation), names)
  {
    if names != [] {
      var init, last := names[..|names| - 1], names[|names| - 1];
      PresentInOrder(init, retired, es, rotation);
      InOrderOn(DropRetired(init, retired, es, rotation), init, last);
      assert names == init + [last];
      hide InOrder, Retired, NoDup;
    }
  }

  class Engine {
    const host: AppHost
    const builtins: seq<Name>
    const retired: set<Name>
    var absent: set<Name>       // built-ins whose sensor is missing
    var attached: bool          // whether there is a script service
    var store: Store
    var scripts: Scripts
    var session: Session
    var arr: Arrangement
    var now: int
    ghost var told: Answers     // what the service said at the last rebuild

    constructor (builtins_: seq<Name>, retired_: set<Name>, absent_: set<Name>)
      ensures Valid() && fresh(host)
      ensures session == NO_SESSION && store == Store([], 0) && scripts == Scripts([], []) && arr == Arrangement([], [])
    {
      host := new AppHost();
      builtins, retired, absent, attached := builtins_, retired_, absent_, false;
      store, scripts, session, arr, now := Store([], 0), Scripts([], []), NO_SESSION, Arrangement([], []), 0;
      told := Answers({}, {});
      new;
      Rebuild(Answers({}, {}));
    }

    ghost predicate Inv()
      reads this
    {
      Good(store) && Filed(scripts) && Held(session, scripts) && NoDup(arr.disabled)
    }

    function KnownApps(): seq<Name>
      reads this
    {
      Known(builtins, absent, store.apps, scripts.rotation)
    }

    function Running(): seq<Name>
      reads this
    {
      Loop(KnownApps(), arr.order, arr.disabled)
    }

    /** What the display is to rotate through: the session alone, or the loop's apps with something to draw. */
    ghost function Showing(): seq<Name>
      reads this
    {
      if session.app != NONE then [session.app] else Drawn(Running(), told)
    }

    ghost predicate Valid()
      reads this, host
    {
      Inv() && host.Valid() && host.apps == Showing()
    }

    /** Without a service nothing is headless or parked. */
    function Heard(env: Answers): Answers
      reads this
    {
      if attached then env else Answers({}, {})
    }

    // ----- which apps are displayed, and in which order -----

    /** What there is and is not switched off. */
    ghost predicate Runs(n: Name)
      reads this
    {
      && n !in arr.disabled
      && ((n in builtins && n !in absent) || (exists e :: e in store.apps && e.name == n) || n in scripts.rotation)
    }

    lemma RunningMembers(n: Name)
      requires Inv()
      ensures n in Running() <==>
                && n !in arr.disabled
                && ((n in builtins && n !in absent) || (exists e :: e in store.apps && e.name == n) || n in scripts.rotation)
    {
      KnownMembers(builtins, absent, store.apps, scripts.rotation, n);
      LoopMembers(KnownApps(), arr.order, arr.disabled, n);
      hide Known, Loop, Filed, NoDup, Held;
    }

    /**
     Of two apps in the loop the one the user arranged first comes first; one nobody arranged has one place,
     behind all arranged ones.
     */
    lemma RunningInOrder(i: nat, j: nat)
      requires Inv() && i < j < |Running()|
      ensures var a, b := Running()[i], Running()[j];
              if b in arr.order then Precedes(arr.order, a, b)
              else a != b && (a in arr.order || ComesBefore(builtins, absent, store.apps, scripts.rotation, a, b))
    {
      var known, r := KnownApps(), Running();
      var arranged := Arranged(arr.order, known, arr.disabled);
      var a, b := r[i], r[j];
      assert b in r && a in r;
      ArrangedInOrder(arr.order, known, arr.disabled);
      LoopMembers(known, arr.order, arr.disabled, b);
      if j < |arranged| {
        assert a == arranged[i] && b == arranged[j];
      } else {
        NewcomersInOrder(arranged, known, arr.disabled, i, j);
        hide WithNewcomers, Known, Filed, NoDup, Held;
        if a !in arranged { FirstKnown(a, b); }
      }
    }

    lemma FirstKnown(a: Name, b: Name)
      requires Inv() && a != b
      requires var k := KnownApps(); exists p, q :: 0 <= p < q < |k| && k[p] == a && k[q] == b && b !in k[..q]
      ensures ComesBefore(builtins, absent, store.apps, scripts.rotation, a, b)
    {
      var k := KnownApps();
      var p: nat, q: nat :| p < q < |k| && k[p] == a && k[q] == b && b !in k[..q];
      hide Filed, NoDup, Held, Sorted, Numbered, ComesBefore;
      KnownInOrder(builtins, absent, store.apps, scripts.rotation, store.nextArrival, p, q);
    }

    /** The display has what runs and draws, in the loop's order, unless a session has it alone. */
    lemma Displayed()
      requires Valid()
      ensures session.app != NONE ==> host.apps == [session.app]
      ensures session.app == NONE ==> InOrder(host.apps, Running())
      ensures session.app == NONE ==>
                forall n :: n in host.apps <==> Runs(n) && n !in told.headless && n !in told.parked
    {
      DrawnInOrder(Running(), told);
      forall n ensures n in Running() <==> Runs(n) { RunningMembers(n); }
      hide Loop, Known, Filed, NoDup, Held, Good, Runs, InOrder;
    }

    // ----- the loop -----

    /** The loop, computed as it is displayed: two passes, then the filter. */
    method Rebuild(env: Answers)
      requires Inv() && host.Valid()
      modifies this`told, host
      ensures Valid() && told == Heard(env) && told == if attached then env else Answers({}, {})
      ensures old(host.CurrentId()) != NONE && old(host.CurrentId()) in host.apps ==> host.CurrentId() == old(host.CurrentId())
      ensures session.app == NONE ==> InOrder(host.apps, Running())
      ensures session.app == NONE ==>
                forall n :: n in host.apps <==> Runs(n) && n !in told.headless && n !in told.parked
    {
      var known := KnownApps();
      var running := ArrangedApps(known);
      running := AddNewcomers(running, known);
      var answers := Heard(env);
      told := answers;
      var drawn := Visible(running, answers);
      if session.app != NONE { drawn := [session.app]; }
      host.SetApps(drawn);
      Displayed();
    }

    method ArrangedApps(known: seq<Name>) returns (running: seq<Name>)
      ensures running == Arranged(arr.order, known, arr.disabled)
    {
      running := [];
      assert Arranged([], known, arr.disabled) == [];
      hide *;
      for i := 0 to |arr.order|
        invariant running == Arranged(arr.order[..i], known, arr.disabled)
      {
        var n := arr.order[i];
        ArrangedUnfold(arr.order[..i + 1], known, arr.disabled);
        assert arr.order[..i + 1][..i] == arr.order[..i];
        if n in known && n !in arr.disabled { running := running + [n]; }
      }
      assert arr.order[..|arr.order|] == arr.order;
    }

    method AddNewcomers(arranged: seq<Name>, known: seq<Name>) returns (running: seq<Name>)
      ensures running == WithNewcomers(arranged, known, arr.disabled)
    {
      running := arranged;
      for i := 0 to |known|
        invariant running == WithNewcomers(arranged, known[..i], arr.disabled)
      {
        var n := known[i];
        assert known[..i + 1][..i] == known[..i];
        if n !in arr.disabled && n !in running { running := running + [n]; }
      }
      assert known[..|known|] == known;
    }

    method Visible(running: seq<Name>, env: Answers) returns (drawn: seq<Name>)
      ensures drawn == Drawn(running, env)
    {
      drawn := [];
      for i := 0 to |running|
        invariant drawn == Drawn(running[..i], env)
      {
        var n := running[i];
        assert running[..i + 1][..i] == running[..i];
        if n !in env.headless && n !in env.parked { drawn := drawn + [n]; }
      }
      assert running[..|running|] == running;
    }

    // ----- scripts -----

    /** A script was installed or saved; `onDemand` is what the service says of it. */
    method SyncScript(name: Name, onDemand: bool, env: Answers)
      requires Valid()
      modifies this`scripts, this`session, this`arr, this`told, host
      ensures Valid() && (name != NONE ==> told == Heard(env))
      ensures name == NONE ==> scripts == old(scripts) && session == old(session) && arr == old(arr) && told == old(told)
      ensures var od := attached && onDemand;
              name != NONE ==>
                && scripts == File(old(scripts), name, od)
                && session == (if !od && old(session).app == name then NO_SESSION else old(session))
                && arr == (if od then Forgotten(old(arr), name) else old(arr))
                && (!od ==> scripts.rotation == if name in old(scripts).rotation then old(scripts).rotation
                                                else old(scripts).rotation + [name])
      ensures name != NONE && !(attached && onDemand) && session.app == NONE && name !in arr.disabled ==>
                (name in host.apps <==> name !in told.headless && name !in told.parked)
    {
      hide *;
      if name == NONE { return; }
      ValidParts();
      FileScript(name, attached && onDemand);
      Rebuild(env);
      FiledRuns(old(scripts), name);
    }

    /** A rotation script that is not switched off runs; a new one is the last in the list. */
    lemma FiledRuns(was: Scripts, name: Name)
      requires name != NONE
      ensures name !in arr.disabled && scripts == File(was, name, false) ==> Runs(name)
      ensures File(was, name, false).rotation == if name in was.rotation then was.rotation else was.rotation + [name]
    {
      hide Without;
    }

    lemma ValidParts()
      requires Valid()
      ensures Inv() && host.Valid() && Filed(scripts)
      ensures session.app != NONE ==> session.app in scripts.onDemand
    {
    }

    /** Moves a script to its list; one that is no longer on demand simply stays on, out of its session. */
    method FileScript(name: Name, od: bool)
      requires Inv() && name != NONE
      modifies this`scripts, this`session, this`arr
      ensures Inv() && scripts == File(old(scripts), name, od)
      ensures session == if !od && old(session).app == name then NO_SESSION else old(session)
      ensures arr == if od then Forgotten(old(arr), name) else old(arr)
    {
      FileKeeps(scripts, name, od);
      hide Filed, NoDup, File, Good;
      scripts := File(scripts, name, od);
      if !od && session.app == name { session := NO_SESSION; }
      if od { ForgetArrangement(name); }
    }

    function Forgotten(a: Arrangement, name: Name): Arrangement {
      Arrangement(Without(a.order, name), Without(a.disabled, name))
    }

    method ForgetArrangement(name: Name)
      requires NoDup(arr.disabled)
      modifies this`arr
      ensures arr == Forgotten(old(arr), name) && NoDup(arr.disabled)
    {
      WithoutNoDup(arr.disabled, name);
      arr := Forgotten(arr, name);
    }

    method RemoveScript(name: Name, env: Answers)
      requires Valid()
      modifies this`scripts, this`session, this`arr, this`told, host
      ensures Valid()
      ensures scripts == Scripts(Without(old(scripts).rotation, name), Without(old(scripts).onDemand, name))
      ensures name in old(scripts).rotation || (name != NONE && name == old(session).app) ==> told == Heard(env)
      ensures session == if old(session).app == name then NO_SESSION else old(session)
      ensures arr == if name in old(scripts).rotation then Forgotten(old(arr), name) else old(arr)
    {
      ValidParts();
      NotBoth(scripts, name);
      hide *;
      if name in scripts.onDemand {
        RemoveOnDemand(name, env);
        return;
      }
      if name !in scripts.rotation { return; }
      RemoveRotating(name);
      Rebuild(env);
    }

    method RemoveOnDemand(name: Name, env: Answers)
      requires Valid() && name in scripts.onDemand
      modifies this`scripts, this`session, this`told, host
      ensures Valid() && scripts == old(scripts).(onDemand := Without(old(scripts).onDemand, name))
      ensures session == if old(session).app == name then NO_SESSION else old(session)
      ensures old(session).app == name ==> told == Heard(env)
    {
      hide *;
      DropOnDemand(name);
      if session.app == name { LeaveSession(env); }
    }

    method DropOnDemand(name: Name)
      requires Valid() && name in scripts.onDemand
      modifies this`scripts
      ensures scripts == old(scripts).(onDemand := Without(old(scripts).onDemand, name))
      ensures Good(store) && Filed(scripts) && NoDup(arr.disabled) && host.Valid()
      ensures session.app != name ==> Valid()
    {
      UnfileKeeps(scripts, name);
      NotBoth(scripts, name);
      hide Filed, Good, NoDup, Known, Loop, Drawn;
      scripts := scripts.(onDemand := Without(scripts.onDemand, name));
    }

    method RemoveRotating(name: Name)
      requires Inv() && name in scripts.rotation
      modifies this`scripts, this`arr
      ensures Inv() && scripts == old(scripts).(rotation := Without(old(scripts).rotation, name))
      ensures arr == Forgotten(old(arr), name)
    {
      hide Filed, NoDup, Without, Good, Forgotten;
      UnfileKeeps(scripts, name);
      scripts := scripts.(rotation := Without(scripts.rotation, name));
      ForgetArrangement(name);
    }

    // ----- the session -----

    /** No session any more: the loop is displayed again, at the app noted at the session's start if it is in it. */
    method LeaveSession(env: Answers)
      requires Good(store) && Filed(scripts) && NoDup(arr.disabled) && host.Valid()
      modifies this`session, this`told, host
      ensures Valid() && session == NO_SESSION && told == Heard(env)
      ensures old(session).back in host.apps ==> host.CurrentId() == old(session).back
    {
      var back := session.back;
      session := NO_SESSION;
      Rebuild(env);
      var _ := host.SwitchTo(back);
    }

    method EndSession(env: Answers)
      requires Valid()
      modifies this`session, this`told, host
      ensures Valid() && session == NO_SESSION
      ensures old(session).app != NONE ==> told == Heard(env)
      ensures old(session).app != NONE && old(session).back in host.apps ==> host.CurrentId() == old(session).back
      ensures old(session) == NO_SESSION ==> host.apps == old(host.apps) && host.CurrentId() == old(host.CurrentId())
    {
      if session.app == NONE { return; }
      LeaveSession(env);
    }

    /** The script may ask from inside a call of its own; the session ends with the next tick. */
    method RequestSessionEnd(name: Name) returns (asked: bool)
      requires Valid()
      modifies this`session
      ensures Valid() && (asked <==> name != NONE && name == session.app)
      ensures session == if asked then old(session).(endRequested := true) else old(session)
    {
      if name == NONE || name != session.app { return false; }
      session := session.(endRequested := true);
      return true;
    }

    /**
     Starts a script's session. It is the session already while it is launched, so it may ask to end
     there (`asks`); `launched` says whether the launch went well.
     */
    method StartSession(name: Name, launched: bool, asks: bool, env: Answers) returns (r: Result)
      requires Valid()
      modifies this`session, this`told, host
      ensures Valid()
      ensures r == if !attached || name !in scripts.onDemand then NotFound
                   else if launched || old(session).app == name then Ok else Refused
      ensures r == NotFound || old(session).app == name ==> session == old(session) && host.apps == old(host.apps)
      ensures r == Ok && old(session).app != name ==>
                && session.app == name && host.apps == [name] && host.CurrentId() == name && session.endRequested == asks
                && told == Heard(env)
                && (old(session) == NO_SESSION ==> session.back == old(host.CurrentId()))
                && (old(session) != NO_SESSION && old(session).back in Drawn(Running(), told) ==>
                      session.back == old(session).back)
      ensures r == Refused ==> session == NO_SESSION
      ensures r == Refused && old(session) == NO_SESSION ==>
                host.apps == old(host.apps) && host.CurrentId() == old(host.CurrentId())
    {
      if !attached || name !in scripts.onDemand { return NotFound; }
      hide Good, Filed, NoDup, Known, Loop, Drawn;
      if session.app == name { return Ok; }
      EndSession(env);
      session := Session(name, host.CurrentId(), false);
      if asks { session := session.(endRequested := true); }
      if !launched {
        session := NO_SESSION;
        return Refused;
      }
      Rebuild(env);
      var _ := host.SwitchTo(name);
      return Ok;
    }

    // ----- the arrangement -----

    /** Reads a list of names, each once; an empty name is refused. */
    method ReadNames(list: seq<Name>, once: bool) returns (ok: bool, names: seq<Name>)
      ensures ok <==> NONE !in list
      ensures ok ==> names == if once then WithNewcomers([], list, []) else list
    {
      names := [];
      for i := 0 to |list|
        invariant NONE !in list[..i]
        invariant names == if once then WithNewcomers([], list[..i], []) else list[..i]
      {
        assert list[..i + 1][..i] == list[..i] && list[..i + 1] == list[..i] + [list[i]];
        if list[i] == NONE { return false, names; }
        if !once || list[i] !in names { names := names + [list[i]]; }
      }
      assert list[..|list|] == list;
      ok := true;
    }

    /** Replaces the arrangement as a whole; leaving out the order keeps it. A bad list changes nothing. */
    method SetOrder(order: Option<seq<Name>>, disabled: seq<Name>, env: Answers) returns (ok: bool)
      requires Valid()
      modifies this`arr, this`told, host
      ensures Valid()
      ensures ok <==> NONE !in disabled && (order.Some? ==> NONE !in order.value)
      ensures !ok ==> arr == old(arr) && host.apps == old(host.apps) && host.CurrentId() == old(host.CurrentId())
      ensures ok ==>
                && told == Heard(env)
                && arr.order == Present(if order.Some? then order.value else old(arr).order)
                && arr.disabled == Present(WithNewcomers([], disabled, []))
                && InOrder(arr.order, if order.Some? then order.value else old(arr).order)
      ensures ok ==>
                forall n :: !(n in retired && n !in scripts.rotation && !HasApp(store.apps, n)) ==>
                  && (n in arr.order <==> n in if order.Some? then order.value else old(arr).order)
                  && (n in arr.disabled <==> n in disabled)
      ensures ok ==>
                forall n :: n in retired && n !in scripts.rotation && !HasApp(store.apps, n) ==>
                  n !in arr.order && n !in arr.disabled
    {
      var on := arr.order;
      if order.Some? {
        ok, on := ReadNames(order.value, false);
        if !ok { return; }
      }
      var off;
      ok, off := ReadNames(disabled, true);
      if !ok { return; }
      NewcomersNoDup([], disabled, []);
      PresentInOrder(on, retired, store.apps, scripts.rotation);
      forall n ensures Retired(n, retired, store.apps, scripts.rotation) <==>
                         n in retired && n !in scripts.rotation && !HasApp(store.apps, n)
      {
        FoundIffHas(store.apps, n);
      }
      hide Good, Filed, NoDup, Known, Loop, Drawn, Retired, HasApp, InOrder;
      arr := Arrangement(Present(on), Present(off));
      Rebuild(env);
    }

    function Present(names: seq<Name>): (r: seq<Name>)
      reads this
      ensures NoDup(names) ==> NoDup(r)
    {
      DropRetired(names, retired, store.apps, scripts.rotation)
    }

    /** Puts a name on the list of hidden apps or takes it off. */
    method SetEnabled(name: Name, enabled: bool, env: Answers)
      requires Valid()
      modifies this`arr, this`told, host
      ensures Valid() && arr.order == old(arr).order && (arr != old(arr) ==> told == Heard(env))
      ensures arr == Switched(old(arr), name, enabled, Retired(name, retired, store.apps, scripts.rotation))
      ensures forall n :: n != name ==> (n in arr.disabled <==> n in old(arr).disabled)
      ensures name !in retired || name in scripts.rotation || HasApp(store.apps, name) ==> (name in arr.disabled <==> !enabled)
    {
      FoundIffHas(store.apps, name);
      if Retired(name, retired, store.apps, scripts.rotation) { return; }
      if (name !in arr.disabled) == enabled { return; }
      if enabled {
        WithoutNoDup(arr.disabled, name);
        arr := arr.(disabled := Without(arr.disabled, name));
      } else {
        AppendNoDup(arr.disabled, name);
        arr := arr.(disabled := arr.disabled + [name]);
      }
      Rebuild(env);
    }

    /** Off and on again: the arrangement and the loop are as before exactly if the app was on, or is no app here. */
    method SwitchOffAndOn(name: Name, env: Answers, env': Answers)
      requires Valid()
      modifies this`arr, this`told, host
      ensures Valid()
      ensures arr == old(arr) <==> name !in old(arr).disabled || Retired(name, retired, store.apps, scripts.rotation)
      ensures arr == old(arr) ==> Running() == old(Running())
      ensures arr == old(arr) && session == NO_SESSION ==> host.apps == Drawn(old(Running()), told)
    {
      SwitchedBack(arr, name, Retired(name, retired, store.apps, scripts.rotation));
      hide Filed, Good, NoDup, Known, Loop, Drawn, Switched, Retired, Held;
      SetEnabled(name, false, env);
      SetEnabled(name, true, env');
    }

    // ----- pushed apps -----

    /** Stores a parsed payload, all of it or none. */
    method SetPushed(batch: seq<Push>, env: Answers) returns (r: Result)
      requires Valid()
      modifies this`store, this`told, host
      ensures Valid()
      ensures r == if |old(store).apps| + |NewAmong(old(store).apps, batch)| > 50 then Capacity else Ok
      ensures r == Capacity ==> store == old(store) && host.apps == old(host.apps) && host.CurrentId() == old(host.CurrentId())
      ensures r == Ok ==> store == Applied(old(store), batch, now) && told == Heard(env)
    {
      var free := if |store.apps| >= MAX_PUSHED_APPS then 0 else MAX_PUSHED_APPS - |store.apps|;
      var needed := CountNeeded(batch);
      NeededCounts(store.apps, batch);
      hide NewAmong;
      if needed > free { return Capacity; }
      StoreBatch(batch);
      Rebuild(env);
      return Ok;
    }

    method CountNeeded(batch: seq<Push>) returns (needed: nat)
      ensures needed == Needed(store.apps, batch)
    {
      needed := 0;
      for i := 0 to |batch|
        invariant needed == Needed(store.apps, batch[..i])
      {
        assert batch[..i + 1][..i] == batch[..i];
        if Find(store.apps, batch[i].key).None? { needed := needed + 1; }
      }
      assert batch[..|batch|] == batch;
    }

    method StoreBatch(batch: seq<Push>)
      requires Good(store) && |store.apps| + Needed(store.apps, batch) <= MAX_PUSHED_APPS
      modifies this`store
      ensures Good(store) && store == Applied(old(store), batch, now)
    {
      AppliedGood(store, batch, now);
      for i := 0 to |batch|
        invariant store == Applied(old(store), batch[..i], now)
      {
        assert batch[..i + 1][..i] == batch[..i];
        StoreOne(batch[i]);
      }
      assert batch[..|batch|] == batch;
    }

    /** Finds the place by its name and overwrites the app there or inserts it. */
    method StoreOne(p: Push)
      modifies this`store
      ensures store == Store(Upsert(old(store).apps, p, now, old(store).nextArrival),
                             old(store).nextArrival + if Find(old(store).apps, p.key).Some? then 0 else 1)
    {
      var es, at := store.apps, LowerBound(store.apps, p.key);
      if at < |es| && es[at].name == p.key {
        store := store.(apps := es[at := Entry(p.key, p.spec, now, p.base, es[at].arrival)]);
      } else {
        store := Store(es[..at] + [Entry(p.key, p.spec, now, p.base, store.nextArrival)] + es[at..], store.nextArrival + 1);
      }
    }

    /** An app goes, or all apps of an array. */
    method DeletePushed(name: Name, env: Answers)
      requires Valid()
      modifies this`store, this`told, host
      ensures Valid() && store == old(store).(apps := Unnamed(old(store).apps, name)) && told == Heard(env)
      ensures forall e :: e in store.apps <==> e in old(store).apps && e.name != name && e.arrayBase != name
    {
      UnnamedMembers(store.apps, name);
      FewerGood(store, now, name);
      hide Good, Filed, NoDup, Known, Loop, Drawn, Unnamed;
      store := store.(apps := Unnamed(store.apps, name));
      Rebuild(env);
    }

    /** Marks the overdue apps that stay, and says whether any must go. */
    method MarkOverdue() returns (anyDead: bool)
      requires Good(store)
      modifies this`store
      ensures Good(store) && store == old(store).(apps := MarkedAll(old(store).apps, now))
      ensures anyDead <==> AnyDead(store.apps, now)
    {
      anyDead := false;
      ghost var was := store.apps;
      for i := 0 to |store.apps|
        invariant |store.apps| == |was| && store.nextArrival == old(store).nextArrival
        invariant forall k :: 0 <= k < |was| ==> store.apps[k] == if k < i then Marked(was[k], now) else was[k]
        invariant anyDead <==> exists k :: 0 <= k < i && Dead(store.apps[k], now)
      {
        var e := store.apps[i];
        if e.spec.lifetime > 0 && now - e.receivedAt >= e.spec.lifetime {
          if e.spec.removedAtEnd {
            anyDead := true;
          } else {
            store := store.(apps := store.apps[i := e.(spec := e.spec.(ended := true))]);
          }
        }
      }
      if AnyDead(store.apps, now) {
        var e :| e in store.apps && Dead(e, now);
        var k :| 0 <= k < |was| && store.apps[k] == e;
      }
      MarkedGood(was, store.apps, now, store.nextArrival);
      assert store.apps == MarkedAll(was, now);
    }

    /** Ends a session whose script asked for it, then the apps whose time is up. */
    method Tick(nowMs: int, env: Answers)
      requires Valid()
      modifies this`now, this`store, this`session, this`told, host
      ensures Valid() && now == nowMs
      ensures session == if old(session).endRequested then NO_SESSION else old(session)
      ensures store == old(store).(apps := Expired(old(store).apps, nowMs))
    {
      now := nowMs;
      if session.endRequested { EndSession(env); }
      ExpireApps(env);
    }

    method ExpireApps(env: Answers)
      requires Valid()
      modifies this`store, this`told, host
      ensures Valid() && store == old(store).(apps := Expired(old(store).apps, now))
    {
      hide *;
      var anyDead := MarkApps();
      NoneDead(store.apps, now);
      ExpiredUnfold(old(store).apps, now);
      if anyDead { RemoveDead(env); }
    }

    method MarkApps() returns (anyDead: bool)
      requires Valid()
      modifies this`store
      ensures Valid() && store == old(store).(apps := MarkedAll(old(store).apps, now))
      ensures anyDead <==> AnyDead(store.apps, now)
    {
      MarkedKnown(builtins, absent, store.apps, scripts.rotation, now);
      hide Known, Good, Filed, NoDup, Loop, Drawn, MarkedAll, AnyDead;
      anyDead := MarkOverdue();
    }

    method RemoveDead(env: Answers)
      requires Valid()
      modifies this`store, this`told, host
      ensures Valid() && store == old(store).(apps := Survivors(old(store).apps, now)) && told == Heard(env)
    {
      FewerGood(store, now, NONE);
      hide Known, Good, Filed, NoDup, Loop, Drawn, Survivors;
      store := store.(apps := Survivors(store.apps, now));
      Rebuild(env);
    }

    // ----- what the device has -----

    method SetSensors(missing: set<Name>, env: Answers)
      requires Valid()
      modifies this`absent, this`told, host
      ensures Valid() && absent == missing && told == Heard(env)
    {
      absent := missing;
      Rebuild(env);
    }

    method SetScriptService(service: bool, env: Answers)
      requires Valid()
      modifies this`attached, this`told, host
      ensures Valid() && attached == service && told == Heard(env)
    {
      attached := service;
      Rebuild(env);
    }
  }
}
