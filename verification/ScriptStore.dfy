/**
 The write-back store of script states: updates collect in memory and reach the disk at a flush, whose
 writes may be refused, fail or leave a torn file.
 */
module ScriptStores {
  import opened Options

  /** Room the store never fills. */
  const FS_MARGIN_BYTES := 32 * 1024
  const FLUSH_INTERVAL_MS := 5000
  const MAX_NAME := 64

  predicate FitsWithMargin(freeBytes: nat, bytes: nat) {
    freeBytes > FS_MARGIN_BYTES && bytes <= freeBytes - FS_MARGIN_BYTES
  }

  // ----- names and paths -----

  predicate Forbidden(c: char) { c == '\0' || c == '/' || c == '\\' || c == ':' }

  /** A file name that stays inside its directory. */
  ghost predicate NameIsSafe(name: string) {
    && 1 <= |name| <= MAX_NAME
    && (forall i :: 0 <= i < |name| ==> !Forbidden(name[i]))
    && (forall i :: 1 <= i < |name| ==> !(name[i - 1] == '.' && name[i] == '.'))
  }

  method IsSafe(name: string) returns (safe: bool)
    ensures safe <==> NameIsSafe(name)
    ensures safe <==>
              && 1 <= |name| <= 64
              && (forall i :: 0 <= i < |name| ==> name[i] != '\0' && name[i] != '/' && name[i] != '\\' && name[i] != ':')
              && (forall i :: 1 <= i < |name| ==> !(name[i - 1] == '.' && name[i] == '.'))
  {
    if name == "" || |name| > MAX_NAME { return false; }
    var previous := '\0';
    for i := 0 to |name|
      invariant previous == if i == 0 then '\0' else name[i - 1]
      invariant forall k :: 0 <= k < i ==> !Forbidden(name[k])
      invariant forall k :: 1 <= k < i ==> !(name[k - 1] == '.' && name[k] == '.')
    {
      var c := name[i];
      if Forbidden(c) || (c == '.' && previous == '.') { return false; }
      previous := c;
    }
    return true;
  }

  function SourcePath(name: string): string { "/SCRIPTS/" + name + ".ax" }

  function StorePath(name: string): string { "/SCRIPTS/" + name + ".store.json" }

  predicate IsSourceFile(path: string) { |path| > 0 && path[|path| - 1] == 'x' }

  /** Every name has a file of its own for its state, and none of them is a source. */
  lemma PathsApart(a: string, b: string)
    ensures StorePath(a) == StorePath(b) <==> a == b
    ensures StorePath(a) != SourcePath(b)
    ensures IsSourceFile(SourcePath(b)) && !IsSourceFile(StorePath(a))
  {
    var p := StorePath(a);
    assert |p| == 9 + |a| + 11;
    assert p[|p| - 1] == 'n' && SourcePath(b)[|SourcePath(b)| - 1] == 'x';
    assert p[9..9 + |a|] == a;
    assert StorePath(b)[9..9 + |b|] == b;
  }

  // ----- the room that is left -----

  /** A cached reading of the room left, asked for again only when marked stale. */
  class FreeSpace {
    var free: nat
    var known: bool

    constructor ()
      ensures !known
    {
      free, known := 0, false;
    }

    /** The figure a question would get now, if a new reading gave `reading`. */
    function Figure(reading: nat): nat
      reads this
    {
      if known then free else reading
    }

    method Bytes(reading: nat) returns (bytes: nat)
      modifies this
      ensures known && bytes == free == old(Figure(reading))
    {
      if !known { free, known := reading, true; }
      return free;
    }

    method Stale()
      modifies this
      ensures !known && free == old(free)
    {
      known := false;
    }
  }

  // ----- the answers of the file system -----

  /** The file of this script's state holds exactly this. */
  ghost predicate Has(disk: map<string, string>, name: string, body: string) {
    StorePath(name) in disk && disk[StorePath(name)] == body
  }

  /** How a write ended. One that did not complete leaves any file, or none. */
  datatype Written = Complete | Torn(left: Option<string>)

  /** The readings before and after, whether the backend has this entry wait, and how its write ends. */
  datatype Answer = Answer(room: nat, waits: bool, written: Written, roomAfter: nat)

  /**
   How a source was saved: the write of its temporary file, whether that could be read back, whether the
   rename over the old source worked, and whether the temporary file could be removed.
   */
  datatype Saved = Saved(written: Written, readsBack: bool, renamed: bool, cleaned: bool) {
    predicate Replaces() { written.Complete? && readsBack && renamed }
  }

  function After(disk: map<string, string>, path: string, body: string, written: Written): map<string, string> {
    match written
    case Complete => disk[path := body]
    case Torn(None) => disk - {path}
    case Torn(Some(left)) => disk[path := left]
  }

  /** Every file of `disk` but this one is as it was. */
  lemma AfterElsewhere(disk: map<string, string>, path: string, body: string, written: Written, other: string)
    requires other != path
    ensures other in After(disk, path, body, written) <==> other in disk
    ensures other in disk ==> After(disk, path, body, written)[other] == disk[other]
  {
  }

  function Read(disk: map<string, string>, path: string): string { if path in disk then disk[path] else "" }

  /** The sources on the disk are these, whatever else is on it. */
  ghost predicate SameSources(disk: map<string, string>, these: map<string, string>) {
    forall p :: IsSourceFile(p) ==> Read(disk, p) == Read(these, p)
  }

  lemma SameSourcesStill(a: map<string, string>, b: map<string, string>, c: map<string, string>)
    requires SameSources(a, b) && SameSources(b, c)
    ensures SameSources(a, c)
  {
  }

  lemma SameSourcesPut(a: map<string, string>, b: map<string, string>, path: string, source: string)
    requires SameSources(a, b)
    ensures SameSources(a[path := source], b[path := source])
  {
  }

  /** The disk behind the sources that a flush writes first, if there is anything to flush. */
  function Sourced(disk: map<string, string>, dirty: map<string, string>, elsewhere: bool, sources: map<string, string>)
    : map<string, string>
  {
    if dirty != map[] || elsewhere then disk + sources else disk
  }

  /** Nothing stands in the way of any entry, at any reading. */
  ghost predicate Smooth(dirty: map<string, string>, answers: string -> Answer) {
    forall n, m :: n in dirty && m in dirty ==>
      && !answers(n).waits && answers(n).written.Complete?
      && FitsWithMargin(answers(n).room, |dirty[m]|) && FitsWithMargin(answers(n).roomAfter, |dirty[m]|)
  }

  /** A figure the file system gives in the course of a flush of `was`. */
  ghost predicate Given(was: map<string, string>, answers: string -> Answer, room: nat) {
    exists m :: m in was && (answers(m).room == room || answers(m).roomAfter == room)
  }

  /** An entry that stays has a reason of its own: it has to wait, its write was torn, or it did not fit. */
  ghost predicate HeldBack(was: map<string, string>, n: string, answers: string -> Answer)
    requires n in was
  {
    || answers(n).waits || answers(n).written.Torn?
    || exists room: nat :: Given(was, answers, room) && !FitsWithMargin(room, |was[n]|)
  }

  // ----- how much is pending -----

  /** Bytes of all entries. */
  ghost function Total(m: map<string, string>): nat
    decreases |m.Keys|
  {
    if m == map[] then 0
    else
      var k :| k in m;
      assert (m - {k}).Keys == m.Keys - {k};
      |m[k]| + Total(m - {k})
  }

  lemma {:induction false} TotalWithout(m: map<string, string>, k: string)
    requires k in m
    ensures Total(m) == |m[k]| + Total(m - {k})
    decreases |m.Keys|
  {
    var j :| j in m && Total(m) == |m[j]| + Total(m - {j});
    if j != k {
      assert (m - {j}).Keys == m.Keys - {j};
      assert (m - {k}).Keys == m.Keys - {k};
      TotalWithout(m - {j}, k);
      TotalWithout(m - {k}, j);
      assert m - {j} - {k} == m - {k} - {j};
    }
  }

  method PendingBytesExcept(dirty: map<string, string>, except: string, elsewhere: nat) returns (bytes: nat)
    ensures bytes == elsewhere + Total(dirty - {except})
  {
    bytes := elsewhere;
    var rest := dirty.Keys;
    ghost var left := dirty - {except};
    TotalNothing();
    hide Total;
    while rest != {}
      invariant rest <= dirty.Keys && left.Keys == rest - {except}
      invariant forall k :: k in left ==> left[k] == dirty[k]
      invariant bytes + Total(left) == elsewhere + Total(dirty - {except})
      decreases |rest|
    {
      var n :| n in rest;
      if n != except {
        TotalWithout(left, n);
        bytes := bytes + |dirty[n]|;
        left := left - {n};
      }
      rest := rest - {n};
    }
    assert left == map[];
  }

  lemma TotalNothing()
    ensures Total(map[]) == 0
  {
  }

  // ----- the store -----

  /** The disk after a removal. */
  function Without(disk: map<string, string>, name: string, goneSource: bool, gone: bool): map<string, string> {
    disk - (if goneSource then {SourcePath(name)} else {}) - (if gone then {StorePath(name)} else {})
  }

  ghost function Survivors(survived: map<string, string>, disk: map<string, string>, name: string, gone: bool)
    : map<string, string>
  {
    var left := if gone then "" else Read(disk, StorePath(name));
    if left == "" then survived - {name} else survived[name := left]
  }

  lemma WithoutKeeps(disk: map<string, string>, name: string, goneSource: bool, gone: bool)
    ensures forall n :: n != name ==> Read(Without(disk, name, goneSource, gone), StorePath(n)) == Read(disk, StorePath(n))
  {
    forall n | n != name
      ensures Read(Without(disk, name, goneSource, gone), StorePath(n)) == Read(disk, StorePath(n))
    {
      PathsApart(n, name);
    }
  }

  /** A removed state reads as nothing exactly if its file could be removed, was not there or was empty. */
  lemma WithoutReads(disk: map<string, string>, name: string, goneSource: bool, gone: bool)
    ensures Read(Without(disk, name, goneSource, gone), StorePath(name)) ==
              if gone then "" else Read(disk, StorePath(name))
    ensures Read(Without(disk, name, goneSource, gone), StorePath(name)) == "" <==>
              gone || Read(disk, StorePath(name)) == ""
  {
    PathsApart(name, name);
  }

  function Lookup(m: map<string, string>, name: string): Option<string> { if name in m then Some(m[name]) else None }

  /** What is pending, what the file holds, what was accepted last, and what a removal could not remove. */
  datatype Record = Record(pending: Option<string>, file: string, accepted: string, survivor: Option<string>) {
    /** What a reader sees. */
    function View(): string { if pending.Some? then pending.value else file }

    /** The last accepted state, unless an unremovable file brings back an old one. */
    function Expected(): string { if survivor.Some? then survivor.value else accepted }
  }

  ghost predicate Sound(name: string, r: Record) {
    && (r.pending.Some? ==> NameIsSafe(name) && r.survivor == None)
    && (r.survivor.Some? ==> NameIsSafe(name) && r.survivor.value != "" && r.accepted == "")
    && (NameIsSafe(name) ==> r.View() == r.Expected())
  }

  /** Saving a source leaves every state's file alone, and of the sources changes this one at most. */
  lemma Replaced(was: map<string, string>, now: map<string, string>, name: string, source: string, saved: Saved)
    requires forall p :: p != SourcePath(name) && p != SourcePath(name) + ".tmp" ==>
               (p in now <==> p in was) && (p in was ==> now[p] == was[p])
    requires Read(now, SourcePath(name)) == if saved.Replaces() then source else Read(was, SourcePath(name))
    ensures SameSources(now, if saved.Replaces() then was[SourcePath(name) := source] else was)
    ensures forall n :: (StorePath(n) in now <==> StorePath(n) in was) && Read(now, StorePath(n)) == Read(was, StorePath(n))
  {
    var temporary := SourcePath(name) + ".tmp";
    assert temporary[|temporary| - 1] == 'p';
    PathsApart(name, name);
    forall n
      ensures (StorePath(n) in now <==> StorePath(n) in was) && Read(now, StorePath(n)) == Read(was, StorePath(n))
    {
      PathsApart(n, name);
      assert StorePath(n)[|StorePath(n)| - 1] == 'n';
    }
    hide SourcePath, StorePath;
  }

  class ScriptStore {
    const keepPendingWhenFull: bool
    const free: FreeSpace
    var dirty: map<string, string>
    var disk: map<string, string>
    var lastFlush: int
    var lastFree: int
    var storeRefused: bool
    /** The last accepted state of every script; empty is nothing, also after a removal. */
    ghost var accepted: string -> string
    /** Removed scripts whose file could not be removed, with what it still holds. */
    ghost var survived: map<string, string>

    constructor (files: map<string, string>, keepPending: bool)
      ensures disk == files && dirty == map[] && survived == map[] && Coherent() && fresh(free)
      ensures keepPendingWhenFull == keepPending && !free.known
    {
      keepPendingWhenFull := keepPending;
      free := new FreeSpace();
      dirty, disk := map[], files;
      lastFlush, lastFree, storeRefused := 0, 0, false;
      accepted, survived := n => Read(files, StorePath(n)), map[];
    }

    /** Everything there is of one script's state. */
    ghost function About(name: string): Record
      reads this`dirty, this`disk, this`accepted, this`survived
    {
      Record(Lookup(dirty, name), Read(disk, StorePath(name)), accepted(name), Lookup(survived, name))
    }

    ghost predicate Coherent()
      reads this`dirty, this`disk, this`accepted, this`survived
    {
      forall n :: Sound(n, About(n))
    }

    /** Reading gives the last accepted state, or nothing. */
    method ReadStore(name: string) returns (state: Option<string>)
      requires Coherent()
      ensures state == if NameIsSafe(name) && About(name).Expected() != "" then Some(About(name).Expected()) else None
    {
      assert Sound(name, About(name));
      var safe := IsSafe(name);
      if !safe { return None; }
      if name !in dirty && StorePath(name) !in disk { return None; }
      var text := if name in dirty then dirty[name] else disk[StorePath(name)];
      return if text == "" then None else Some(text);
    }

    /** `allow` and `elsewhere` are the backend's: its own limit, and its own pending bytes. */
    method StoreChanged(name: string, json: string, allow: bool, elsewhere: nat, reading: nat) returns (taken: bool)
      requires Coherent()
      modifies this`dirty, this`storeRefused, this`accepted, this`survived, free
      ensures Coherent()
      ensures var fits := FitsWithMargin(old(free.Figure(reading)), |json| + elsewhere + Total(old(dirty) - {name}));
              var asked := NameIsSafe(name) && allow;
              && (taken <==> asked && (fits || keepPendingWhenFull))
              && storeRefused == (if asked then !fits else old(storeRefused))
              && (fits <==> old(free.Figure(reading)) > 32 * 1024
                            && old(free.Figure(reading)) - (|json| + elsewhere + Total(old(dirty) - {name})) >= 32 * 1024)
              && (asked && fits ==> free.free - (elsewhere + Total(dirty)) >= 32 * 1024)
      ensures taken ==> accepted(name) == json && forall n :: n != name ==> accepted(n) == old(accepted)(n)
      ensures taken ==> survived == old(survived) - {name}
      ensures !taken ==> accepted == old(accepted) && survived == old(survived) && dirty == old(dirty)
    {
      hide Total, NameIsSafe, Coherent, About;
      var safe := IsSafe(name);
      if !safe || !allow { return false; }
      var others := PendingBytesExcept(dirty, name, elsewhere);
      var room := free.Bytes(reading);
      var fits := FitsWithMargin(room, |json| + others);
      taken := fits || keepPendingWhenFull;
      storeRefused := !fits;
      if taken { Take(name, json); }
    }

    method Take(name: string, json: string)
      requires Coherent() && NameIsSafe(name)
      modifies this`dirty, this`accepted, this`survived
      ensures Coherent() && dirty == old(dirty)[name := json] && survived == old(survived) - {name}
      ensures Total(dirty) == |json| + Total(old(dirty) - {name})
      ensures accepted(name) == json && forall n :: n != name ==> accepted(n) == old(accepted)(n)
    {
      ghost var was, before := accepted, dirty;
      dirty := dirty[name := json];
      accepted := n => if n == name then json else was(n);
      survived := survived - {name};
      TotalWithout(dirty, name);
      assert dirty - {name} == before - {name};
      hide Total, StorePath, NameIsSafe;
      forall n ensures Sound(n, About(n)) {
        if n != name { assert About(n) == old(About(n)); }
      }
    }

    /** One entry of a flush. It leaves memory only when its file is complete. */
    method FlushEntry(name: string, a: Answer)
      requires Coherent() && name in dirty
      modifies this`dirty, this`disk, free
      ensures Coherent()
      ensures var body, room := old(dirty)[name], old(free.Figure(a.room));
              if FitsWithMargin(room, |body|) && !a.waits then
                && disk == After(old(disk), StorePath(name), body, a.written)
                && dirty == (if a.written.Complete? then old(dirty) - {name} else old(dirty))
                && free.known && free.free == a.roomAfter
              else
                dirty == old(dirty) && disk == old(disk) && free.known && free.free == room
      ensures forall m, body :: m != name && Has(old(disk), m, body) ==> Has(disk, m, body)
      ensures SameSources(disk, old(disk))
    {
      var bytes := |dirty[name]|;
      var room := free.Bytes(a.room);
      if !FitsWithMargin(room, bytes) || a.waits { return; }
      ghost var was := disk;
      assert Sound(name, About(name));
      disk := After(disk, StorePath(name), dirty[name], a.written);
      PathsApart(name, name);
      free.Stale();
      var _ := free.Bytes(a.roomAfter);
      forall n | n != name
        ensures Read(disk, StorePath(n)) == Read(was, StorePath(n))
        ensures StorePath(n) in disk <==> StorePath(n) in was
      {
        PathsApart(n, name);
        AfterElsewhere(was, StorePath(name), dirty[name], a.written, StorePath(n));
      }
      if a.written.Complete? { dirty := dirty - {name}; }
      hide StorePath, NameIsSafe;
      forall n ensures Sound(n, About(n)) {
        if n != name { assert About(n) == old(About(n)); }
      }
    }

    ghost predicate Unhindered(answers: string -> Answer)
      reads this
    {
      Smooth(dirty, answers)
    }

    /**
     `sources` are the files the backend writes first. Nothing changes for a reader; an entry goes only
     with its complete file on the disk, and stays only for a reason of its own; so if nothing stands in
     the way, all of them go.
     */
    method Flush(elsewhere: bool, sources: map<string, string>, answers: string -> Answer)
      requires Coherent() && forall p :: p in sources ==> IsSourceFile(p)
      modifies this`dirty, this`disk, free
      ensures Coherent()
      ensures Flushed(old(dirty), {}, answers)
      ensures old(Unhindered(answers)) ==> dirty == map[]
      ensures old(dirty) != map[] || elsewhere ==> !free.known
      ensures SameSources(disk, Sourced(old(disk), old(dirty), elsewhere, sources))
    {
      if dirty == map[] && !elsewhere { return; }
      free.Stale();
      WriteSources(sources);
      var rest := dirty.Keys;
      ghost var was, smooth, files := dirty, Unhindered(answers), disk;
      while rest != {}
        invariant Coherent() && Flushed(was, rest, answers) && rest <= dirty.Keys
        invariant free.known ==> Given(was, answers, free.free)
        invariant SameSources(disk, files)
        invariant smooth ==> Smooth(was, answers) && dirty.Keys == rest && Roomy(was)
        decreases |rest|
      {
        var n :| n in rest;
        hide *;
        ghost var before := disk;
        FlushStep(was, n, rest, smooth, answers);
        SameSourcesStill(disk, before, files);
        rest := rest - {n};
      }
      free.Stale();
    }

    /** What the flush of all entries of `was` but those in `rest` has done. */
    ghost predicate Flushed(was: map<string, string>, rest: set<string>, answers: string -> Answer)
      reads this
    {
      && (forall n :: n in dirty ==> n in was && dirty[n] == was[n])
      && (forall n :: n in was && n !in dirty ==> n !in rest && answers(n).written.Complete? && Has(disk, n, was[n]))
      && (forall n :: n in was && answers(n).waits ==> n in dirty)
      && (forall n :: n in dirty && n !in rest ==> HeldBack(was, n, answers))
    }

    /** Whatever figure is remembered has room for any entry of `was`. */
    ghost predicate Roomy(was: map<string, string>)
      reads free
    {
      free.known ==> forall m :: m in was ==> FitsWithMargin(free.free, |was[m]|)
    }

    method FlushStep(ghost was: map<string, string>, n: string, ghost rest: set<string>, ghost smooth: bool,
                     answers: string -> Answer)
      requires Coherent() && Flushed(was, rest, answers) && n in rest && rest <= dirty.Keys
      requires free.known ==> Given(was, answers, free.free)
      requires smooth ==> Smooth(was, answers) && dirty.Keys == rest && Roomy(was)
      modifies this`dirty, this`disk, free
      ensures Coherent() && Flushed(was, rest - {n}, answers) && rest - {n} <= dirty.Keys
      ensures free.known ==> Given(was, answers, free.free)
      ensures SameSources(disk, old(disk))
      ensures smooth ==> dirty.Keys == rest - {n} && Roomy(was)
    {
      FlushEntry(n, answers(n));
    }

    method WriteSources(sources: map<string, string>)
      requires Coherent() && forall p :: p in sources ==> IsSourceFile(p)
      modifies this`disk
      ensures Coherent() && disk == old(disk) + sources
    {
      ghost var was := disk;
      disk := disk + sources;
      forall n ensures Sound(n, About(n)) {
        PathsApart(n, n);
        assert About(n) == old(About(n));
      }
    }

    /**
     A new source makes room for itself by flushing first. `saved` says how it got on: it replaces the old
     source as a whole, or not at all.
     */
    method Save(name: string, source: string, accept: bool, elsewhere: bool, sources: map<string, string>,
                answers: string -> Answer, saved: Saved)
      requires Coherent() && forall p :: p in sources ==> IsSourceFile(p)
      modifies this`dirty, this`disk, free
      ensures Coherent()
      ensures !NameIsSafe(name) || !accept ==> dirty == old(dirty) && disk == old(disk)
      ensures NameIsSafe(name) && accept ==>
                && Flushed(old(dirty), {}, answers)
                && var files := Sourced(old(disk), old(dirty), elsewhere, sources);
                   SameSources(disk, if saved.Replaces() then files[SourcePath(name) := source] else files)
    {
      hide SameSources, Coherent, Has;
      var safe := IsSafe(name);
      if !safe || !accept { return; }
      Flush(elsewhere, sources, answers);
      ghost var flushed, files := disk, Sourced(old(disk), old(dirty), elsewhere, sources);
      WriteSource(name, source, saved);
      SameSourcesPut(flushed, files, SourcePath(name), source);
      SameSourcesStill(disk, if saved.Replaces() then flushed[SourcePath(name) := source] else flushed,
                       if saved.Replaces() then files[SourcePath(name) := source] else files);
      free.Stale();
    }

    /** Writes beside the old source, reads back, and renames over it. */
    method WriteSource(name: string, source: string, saved: Saved)
      requires Coherent()
      modifies this`disk
      ensures Coherent()
      ensures SameSources(disk, if saved.Replaces() then old(disk)[SourcePath(name) := source] else old(disk))
      ensures forall n, body :: Has(old(disk), n, body) ==> Has(disk, n, body)
    {
      var target := SourcePath(name);
      var temporary := target + ".tmp";
      ghost var was := disk;
      disk := After(disk, temporary, source, saved.written);
      if saved.written.Complete? && saved.readsBack && disk[temporary] == source && saved.renamed {
        disk := disk[target := disk[temporary]] - {temporary};
      }
      if saved.cleaned { disk := disk - {temporary}; }
      Replaced(was, disk, name, source, saved);
      forall n ensures Sound(n, About(n)) { assert About(n) == old(About(n)); }
    }

    /**
     Removes a script's files and its pending state. `gone` says whether its state's file could be removed:
     if it could not, what it holds is read again.
     */
    method Remove(name: string, goneSource: bool, gone: bool, elsewhere: bool, sources: map<string, string>,
                  answers: string -> Answer)
      requires Coherent() && forall p :: p in sources ==> IsSourceFile(p)
      modifies this`dirty, this`disk, this`accepted, this`survived, free
      ensures Coherent()
      ensures forall n :: n != name || !NameIsSafe(name) ==> accepted(n) == old(accepted)(n)
      ensures NameIsSafe(name) ==>
                && name !in dirty && accepted(name) == ""
                && survived == Survivors(old(survived), old(disk), name, gone)
                && About(name).Expected() == (if gone then "" else Read(old(disk), StorePath(name)))
                && Flushed(old(dirty) - {name}, {}, answers)
                && SameSources(disk, Sourced(Without(old(disk), name, goneSource, gone), old(dirty) - {name}, elsewhere, sources))
      ensures !NameIsSafe(name) ==> dirty == old(dirty) && disk == old(disk) && survived == old(survived)
    {
      hide Read, NameIsSafe, Smooth, Has, Coherent, Survivors, SameSources, Sourced;
      var safe := IsSafe(name);
      if !safe { return; }
      Forget(name, goneSource, gone);
      Flush(elsewhere, sources, answers);
      free.Stale();
    }

    method Forget(name: string, goneSource: bool, gone: bool)
      requires Coherent() && NameIsSafe(name)
      modifies this`dirty, this`disk, this`accepted, this`survived
      ensures Coherent() && dirty == old(dirty) - {name}
      ensures accepted(name) == "" && forall n :: n != name ==> accepted(n) == old(accepted)(n)
      ensures survived == Survivors(old(survived), old(disk), name, gone)
      ensures About(name).Expected() == if gone then "" else Read(old(disk), StorePath(name))
      ensures disk == Without(old(disk), name, goneSource, gone)
    {
      ghost var was, files := accepted, disk;
      WithoutKeeps(disk, name, goneSource, gone);
      WithoutReads(disk, name, goneSource, gone);
      disk := Without(disk, name, goneSource, gone);
      dirty := dirty - {name};
      accepted := n => if n == name then "" else was(n);
      survived := Survivors(survived, files, name, gone);
      hide StorePath, SourcePath, NameIsSafe, Without, Read;
      forall n ensures Sound(n, About(n)) {
        if n != name { assert About(n) == old(About(n)); }
      }
    }

    /** Flushes once the interval has run out with something pending all the while. */
    method Tick(now: int, elsewhere: bool, sources: map<string, string>, answers: string -> Answer)
      requires Coherent() && forall p :: p in sources ==> IsSourceFile(p)
      modifies this`dirty, this`disk, this`lastFlush, this`lastFree, free
      ensures Coherent()
      ensures var due := now - old(lastFlush) >= 5000;
              && (dirty != old(dirty) || disk != old(disk) ==> due)
              && (due ==> Flushed(old(dirty), {}, answers))
              && (old(dirty) != map[] && due && old(Unhindered(answers)) ==> dirty == map[])
              && lastFlush == if (old(dirty) == map[] && !elsewhere) || due then now else old(lastFlush)
      ensures lastFree == now || (lastFree == old(lastFree) <= now < lastFree + 5000)
    {
      if now - lastFree >= FLUSH_INTERVAL_MS || now < lastFree {
        free.Stale();
        lastFree := now;
      }
      if dirty == map[] && !elsewhere { lastFlush := now; return; }
      if now - lastFlush < FLUSH_INTERVAL_MS { return; }
      Flush(elsewhere, sources, answers);
      lastFlush := now;
    }
  }

  // ----- a removal that is not one -----

  /**
   A script whose file holds `first` has `second` accepted and is then removed: it reads as nothing exactly
   if its file could be removed or held nothing, and otherwise as it did before the update.
   */
  method UpdateAndRemove(name: string, first: string, second: string, allow: bool, pending: nat, reading: nat,
                         goneSource: bool, gone: bool, elsewhere: bool, sources: map<string, string>,
                         answers: string -> Answer)
    returns (taken: bool, state: Option<string>)
    requires NameIsSafe(name) && forall p :: p in sources ==> IsSourceFile(p)
    ensures taken <==> allow && FitsWithMargin(reading, |second| + pending)
    ensures state == if gone || first == "" then None else Some(first)
  {
    var store := new ScriptStore(map[StorePath(name) := first], false);
    TotalNothing();
    assert store.dirty - {name} == map[];
    assert store.free.Figure(reading) == reading && Read(store.disk, StorePath(name)) == first;
    hide *;
    taken := store.StoreChanged(name, second, allow, pending, reading);
    assert taken ==> store.accepted(name) == second;
    store.Remove(name, goneSource, gone, elsewhere, sources, answers);
    state := store.ReadStore(name);
  }

  /** So the state from before the last accepted one is back. */
  method OldStateReturns() returns (taken: bool, state: Option<string>)
    ensures taken && state == Some("1")
  {
    taken, state := UpdateAndRemove("clock", "1", "2", true, 0, 100000, true, false, false, map[],
                                    n => Answer(100000, false, Complete, 100000));
  }
}
