/**
 What the operations come to, however the two threads interleave: an operation the loop has begun and
 finished has had its effect, and a request that waits becomes the task's job.
 */
module AudioOperations {
  import opened AudioHandoff
  import opened AudioLaws

  /** The loop begins with this operation and only goes on with it. */
  predicate Only(moves: seq<Move>, operation: Choice) {
    moves != [] && moves[0] == Loop(operation) && forall i :: 1 <= i < |moves| && moves[i].Loop? ==> moves[i].choice == Go
  }

  predicate GoesOn(moves: seq<Move>) { forall i :: 0 <= i < |moves| && moves[i].Loop? ==> moves[i].choice == Go }

  lemma OnlyUnfolds(moves: seq<Move>, operation: Choice)
    requires Only(moves, operation)
    ensures GoesOn(moves[1..])
  {
  }

  /** At some moment of the schedule. */
  ghost predicate Sometime(s: State, moves: seq<Move>, p: State -> bool) {
    exists k: nat :: k <= |moves| && p(After(s, moves[..k]))
  }

  lemma Now(s: State, moves: seq<Move>, p: State -> bool)
    requires p(s)
    ensures Sometime(s, moves, p)
  {
    assert After(s, moves[..0]) == s;
  }

  lemma Later(s: State, moves: seq<Move>, p: State -> bool)
    requires moves != [] && Sometime(Step(s, moves[0]), moves[1..], p)
    ensures Sometime(s, moves, p)
  {
    var k: nat :| k <= |moves[1..]| && p(After(Step(s, moves[0]), moves[1..][..k]));
    assert moves[..k + 1][0] == moves[0] && moves[..k + 1][1..] == moves[1..][..k];
    hide Step;
    assert After(s, moves[..k + 1]) == After(Step(s, moves[0]), moves[1..][..k]);
  }

  /** A place is a file, or a folder and whatever is below it, written with its last separator or without. */
  lemma WithinMeans(path: string, place: string)
    ensures Within(path, place) <==>
              && place != ""
              && (|| path == place
                  || (exists rest :: path == place + "/" + rest)
                  || (place[|place| - 1] == '/' && exists rest :: path == place + rest))
  {
    if Within(path, place) && path != place {
      var n := |place|;
      assert path == place + path[n..];
      if place[n - 1] != '/' { assert path[n..] == "/" + path[n + 1..] && path == place + "/" + path[n + 1..]; }
    }
    if rest :| path == place + "/" + rest { assert place <= path && path[|place|] == '/'; }
    if rest :| path == place + rest { assert place <= path; }
  }

  // ----- stop -----

  predicate Stopped(s: State) {
    match s.loop
    case Idle => s.flags.stop && !s.flags.pending && s.shared.file == Empty && !s.shared.song
    case Stopping(at) =>
      && (at != StopLock ==> s.shared.file == Empty && !s.shared.song)
      && (at == StopUnlock || at == StopFlag ==> !s.flags.pending)
    case _ => false
  }

  lemma StoppedKept(s: State, m: Move)
    requires Exclusive(s) && Stopped(s) && (m.Loop? ==> m.choice == Go)
    ensures Stopped(Step(s, m))
  {
    hide In;
  }

  lemma {:induction false} StoppedStays(s: State, moves: seq<Move>)
    requires Inv(s) && Stopped(s) && GoesOn(moves)
    ensures Stopped(After(s, moves))
    decreases |moves|
  {
    if moves != [] {
      StepKeeps(s, moves[0]);
      StoppedKept(s, moves[0]);
      hide Step, Stopped, Announced, Tracked, Released, Signalled, Exclusive;
      StoppedStays(Step(s, moves[0]), moves[1..]);
    }
  }

  /** A stop that has run leaves nothing waiting, and the flag up that ends what plays. */
  lemma StopStops(s: State, moves: seq<Move>)
    requires Inv(s) && s.loop == Idle && Only(moves, Stop)
    ensures var s' := After(s, moves);
            s'.loop == Idle ==> s'.flags.stop && !s'.flags.pending && s'.shared.file == Empty && !s'.shared.song
  {
    StepKeeps(s, moves[0]);
    OnlyUnfolds(moves, Stop);
    assert Stopped(Step(s, moves[0]));
    StoppedStays(Step(s, moves[0]), moves[1..]);
    hide Step, Inv;
  }

  // ----- play -----

  function FileOf(req: Request): Slot { if req.File? then req.file else Empty }

  /** The request lies there to be taken, or is in the task's hands on its way to being the job. */
  predicate Waits(s: State, req: Request) {
    && s.flags.pending
    && if s.task == Taking(TakeSeen) then s.job.path == FileOf(req) && s.job.song == req.Song?
       else s.shared.file == FileOf(req) && s.shared.song == req.Song?
  }

  /** It is what the task has taken last. */
  predicate IsJob(s: State, req: Request) {
    s.job.path == FileOf(req) && s.job.song == req.Song? && s.taken == s.requests
  }

  predicate Requested(s: State, req: Request, before: int) {
    match s.loop
    case Idle =>
      && s.requests == before + 1 && !s.flags.stop
      && (s.taken == s.requests || Waits(s, req))
    case Playing(r, at) =>
      && r == req && s.requests == (if at == PlayUnlock then before + 1 else before)
      && (at != PlayLock ==> s.shared.file == FileOf(req) && s.shared.song == req.Song?)
      && (at != PlayLock && at != PlayPending ==> s.flags.pending)
      && (at == PlayUnlock ==> s.taken < s.requests)
      && (at == PlaySeq || at == PlayUnlock ==> !s.flags.stop)
    case _ => false
  }

  /** While the loop makes a request the task is outside the section that takes one. */
  predicate Alone(s: State) {
    s.loop.Playing? && s.loop.play != PlayLock ==> s.lock == LoopHas && !(s.task.Taking? && s.task.take != TakeLock)
  }

  lemma OneHolds(s: State)
    requires Exclusive(s)
    ensures Alone(s)
  {
  }

  lemma RequestedKept(s: State, m: Move, req: Request, before: int)
    requires Alone(s) && s.taken <= s.requests && Requested(s, req, before) && (m.Loop? ==> m.choice == Go)
    requires s.task.Taking? && s.task.take != TakeLock && s.task.take != TakeSeen ==> s.taken == s.requests
    requires s.loop == Idle ==> s.taken < s.requests
    ensures Requested(Step(s, m), req, before)
    ensures Step(s, m).loop == Idle && Step(s, m).taken == Step(s, m).requests ==> IsJob(Step(s, m), req)
  {
    hide In;
  }

  lemma {:induction false} RequestedStays(s: State, moves: seq<Move>, req: Request, before: int)
    requires Inv(s) && Requested(s, req, before) && GoesOn(moves) && (s.loop == Idle ==> s.taken < s.requests)
    ensures var s' := After(s, moves);
            s'.loop == Idle ==>
              && s'.requests == before + 1 && !s'.flags.stop
              && if s'.taken == s'.requests then Sometime(s, moves, x => IsJob(x, req)) else Waits(s', req)
    decreases |moves|
  {
    if moves != [] {
      var s' := Step(s, moves[0]);
      StepKeeps(s, moves[0]);
      OneHolds(s);
      RequestedKept(s, moves[0], req, before);
      hide Step, Announced, Tracked, Released, Signalled, Exclusive, Alone;
      if s'.loop == Idle && s'.taken >= s'.requests {
        Now(s', moves[1..], x => IsJob(x, req));
        Settled(s', moves[1..]);
      } else {
        RequestedStays(s', moves[1..], req, before);
      }
      if Sometime(s', moves[1..], x => IsJob(x, req)) { Later(s, moves, x => IsJob(x, req)); }
    }
  }

  /** An idle loop that only goes on does nothing; what the task has taken stays taken. */
  lemma {:induction false} Settled(s: State, moves: seq<Move>)
    requires Inv(s) && s.loop == Idle && s.taken == s.requests && GoesOn(moves)
    ensures var s' := After(s, moves);
            s'.loop == Idle && s'.requests == s.requests && s'.taken == s.requests && s'.flags.stop == s.flags.stop
    decreases |moves|
  {
    if moves != [] {
      StepKeeps(s, moves[0]);
      SettledStep(s, moves[0]);
      hide Step, Inv;
      Settled(Step(s, moves[0]), moves[1..]);
    }
  }

  lemma SettledStep(s: State, m: Move)
    requires s.loop == Idle && s.taken == s.requests && (m.Loop? ==> m.choice == Go)
    ensures var s' := Step(s, m);
            s'.loop == Idle && s'.requests == s.requests && s'.taken == s.requests && s'.flags.stop == s.flags.stop
  {
  }

  /** A play request that has run is one more, not stopped, and its file or song waits or has become the job. */
  lemma PlayRequests(s: State, moves: seq<Move>, req: Request)
    requires Inv(s) && s.loop == Idle && Only(moves, Play(req))
    ensures var s' := After(s, moves);
            s'.loop == Idle ==>
              && s'.requests == s.requests + 1 && !s'.flags.stop
              && if s'.taken == s'.requests then Sometime(s, moves, x => IsJob(x, req)) else Waits(s', req)
  {
    var s1 := Step(s, moves[0]);
    StepKeeps(s, moves[0]);
    OnlyUnfolds(moves, Play(req));
    assert Requested(s1, req, s.requests);
    hide Step, Inv;
    RequestedStays(s1, moves[1..], req, s.requests);
    if Sometime(s1, moves[1..], x => IsJob(x, req)) { Later(s, moves, x => IsJob(x, req)); }
  }

  // ----- release -----

  predicate Releasing_(s: State, place: string) {
    (s.loop.Releasing? && s.loop.path == place) || (s.loop == Idle && place in s.trace.freed)
  }

  lemma ReleasingKept(s: State, m: Move, place: string)
    requires Releasing_(s, place) && (m.Loop? ==> m.choice == Go)
    ensures Releasing_(Step(s, m), place)
  {
    hide In;
  }

  lemma {:induction false} ReleasingStays(s: State, moves: seq<Move>, place: string)
    requires Inv(s) && Releasing_(s, place) && GoesOn(moves)
    ensures Inv(After(s, moves)) && Releasing_(After(s, moves), place)
    decreases |moves|
  {
    if moves != [] {
      StepKeeps(s, moves[0]);
      ReleasingKept(s, moves[0], place);
      hide Step, Inv, Releasing_;
      ReleasingStays(Step(s, moves[0]), moves[1..], place);
    }
  }

  /** A release that has run without giving up has released the place: nothing within it is open, waiting or next. */
  lemma ReleaseReleases(s: State, moves: seq<Move>, place: string)
    requires Inv(s) && s.loop == Idle && Only(moves, Release(place))
    ensures var s' := After(s, moves);
            s'.loop == Idle ==>
              && !In(s'.job.file, place) && !In(s'.shared.open, place) && !In(s'.shared.file, place)
              && (s'.task == Running(Route) ==> !In(s'.job.path, place))
  {
    StepKeeps(s, moves[0]);
    OnlyUnfolds(moves, Release(place));
    assert Releasing_(Step(s, moves[0]), place);
    ReleasingStays(Step(s, moves[0]), moves[1..], place);
    var s' := After(s, moves);
    hide Step, Inv, In;
    if s'.loop == Idle { FreedIsGone(s', place); }
  }

  // ----- tick -----

  predicate NothingParked(s: State) { s.shared.title == Empty && s.shared.error == Empty }

  predicate Looking(s: State, load: int) {
    match s.loop
    case Idle => s.seen == load || s.seen == load - 1
    case Ticking(l, at) => l == load && (at != TickSeen ==> s.seen == load)
    case _ => false
  }

  lemma LookingKept(s: State, m: Move, load: int)
    requires Looking(s, load) && (m.Loop? ==> m.choice == Go)
    ensures Looking(Step(s, m), load)
    ensures s.loop == Ticking(load, TickSwap) && m.Loop? ==> NothingParked(Step(s, m))
    ensures s.loop != Idle && Step(s, m).loop == Idle ==> s.loop == Ticking(load, TickUnlock) || Step(s, m).seen == load - 1
    ensures Step(s, m).loop == Ticking(load, TickUnlock) ==> s.loop == Ticking(load, TickUnlock) || NothingParked(Step(s, m))
    ensures s.loop == Idle ==> Step(s, m).loop == Idle && Step(s, m).seen == s.seen
  {
  }

  lemma {:induction false} LookingStays(s: State, moves: seq<Move>, load: int)
    requires Looking(s, load) && GoesOn(moves)
    ensures s.loop == Idle ==> After(s, moves).loop == Idle && After(s, moves).seen == s.seen
    ensures var s' := After(s, moves);
            s'.loop == Idle ==>
              || s'.seen == load - 1
              || (s'.seen == load && (s.loop == Idle || s.loop == Ticking(load, TickUnlock) || Sometime(s, moves, NothingParked)))
    decreases |moves|
  {
    if moves != [] {
      var s' := Step(s, moves[0]);
      LookingKept(s, moves[0], load);
      hide Step;
      LookingStays(s', moves[1..], load);
      if s'.loop == Ticking(load, TickUnlock) && s.loop != s'.loop { Now(s', moves[1..], NothingParked); }
      if Sometime(s', moves[1..], NothingParked) { Later(s, moves, NothingParked); }
    }
  }

  /** A tick that has run has taken over what was parked, or was refused the lock and will look again. */
  lemma TickTakesOver(s: State, moves: seq<Move>)
    requires s.loop == Idle && Only(moves, Tick) && s.handoff != s.seen
    ensures var s' := After(s, moves);
            s'.loop == Idle ==> s'.seen == s.handoff - 1 || (s'.seen == s.handoff && Sometime(s, moves, NothingParked))
  {
    var s1 := Step(s, moves[0]);
    OnlyUnfolds(moves, Tick);
    assert s1.loop == Ticking(s.handoff, TickSeen);
    LookingStays(s1, moves[1..], s.handoff);
    hide Step;
    if Sometime(s1, moves[1..], NothingParked) { Later(s, moves, NothingParked); }
  }

  // ----- the task -----

  /** The job from the moment the task holds the lock for it. */
  predicate Takes(s: State, file: Slot, song: bool, request: int, left: nat) {
    && s.job.path == file && s.job.song == song && s.shared.open == file
    && (match s.task
        case Taking(TakeSeen) => s.requests == request && left == 4
        case Taking(TakePlaying) => s.taken == request && left == 3
        case Taking(TakePending) => s.taken == request && left == 2 && (HasRequest(s.job) ==> s.flags.playing)
        case Taking(TakeUnlock) => s.taken == request && left == 1 && (HasRequest(s.job) ==> s.flags.playing)
        case Running(Route) => s.taken == request && left == 0 && (HasRequest(s.job) ==> s.flags.playing)
        case _ => false)
  }

  lemma TakesKept(s: State, m: Move, file: Slot, song: bool, request: int, left: nat)
    requires Exclusive(s) && Takes(s, file, song, request, left) && (m.Task? ==> left > 0)
    ensures Takes(Step(s, m), file, song, request, if m.Task? then left - 1 else left)
  {
    hide In;
  }

  lemma {:induction false} TakesOn(s: State, moves: seq<Move>, file: Slot, song: bool, request: int, left: nat)
    requires Inv(s) && Takes(s, file, song, request, left) && TaskMoves(moves) == left
    ensures Takes(After(s, moves), file, song, request, 0)
    decreases |moves|
  {
    if moves != [] {
      StepKeeps(s, moves[0]);
      hide Takes, Step, Announced, Tracked, Released, Signalled, Exclusive;
      TakesKept(s, moves[0], file, song, request, left);
      TakesOn(Step(s, moves[0]), moves[1..], file, song, request, if moves[0].Task? then left - 1 else left);
    }
  }

  /**
   A waiting request is taken as soon as the lock is free: after six moves of the task it is the job and the
   task is about to play it, whatever the loop does meanwhile.
   */
  lemma TaskTakes(s: State, moves: seq<Move>)
    requires Inv(s) && s.task == Top && s.requests != s.taken && s.lock == Free
    requires |moves| >= 2 && moves[0].Task? && moves[1].Task? && TaskMoves(moves) == 6
    ensures var s' := After(s, moves);
            && s'.task == Running(Route) && s'.taken == s.requests
            && s'.job.path == s.shared.file && s'.job.song == s.shared.song && s'.shared.open == s.shared.file
            && (s.shared.file.Holds? || s.shared.song ==> s'.flags.playing)
  {
    var s1 := Step(s, moves[0]);
    var s2 := Step(s1, moves[1]);
    assert Takes(s2, s.shared.file, s.shared.song, s.requests, 4);
    StepKeeps(s, moves[0]);
    StepKeeps(s1, moves[1]);
    hide Step, Inv;
    assert moves[1..][0] == moves[1] && moves[1..][1..] == moves[2..];
    Moved(s, moves);
    Moved(s1, moves[1..]);
    TakesOn(s2, moves[2..], s.shared.file, s.shared.song, s.requests, 4);
  }

  lemma Moved(s: State, moves: seq<Move>)
    requires moves != []
    ensures After(s, moves) == After(Step(s, moves[0]), moves[1..])
    ensures TaskMoves(moves) == (if moves[0].Task? then 1 else 0) + TaskMoves(moves[1..])
  {
  }

  /** The job is opened and played, or given up; a song has no file; what is over is left. */
  lemma JobPlays(s: State, c: Choice)
    requires Inv(s) && s.task == Running(Route) && HasRequest(s.job)
    ensures var s' := After(s, [Task(c)]);
            if c == Fail && !s.job.song then !s'.flags.playing && !InPlayback(s'.task) && s'.job.file == Empty
            else InPlayback(s'.task) && s'.job.file == (if s.job.song then Empty else s.job.path)
  {
    Moved(s, [Task(c)]);
  }

  lemma FinishedIsLeft(s: State)
    requires s.task == Running(Body)
    ensures var s' := After(s, [Task(Finish)]); s'.task == Running(Leave) && (s.requests == s.taken ==> !s'.trace.wanted)
  {
    Moved(s, [Task(Finish)]);
  }

  /** The flags are up for a reason: something waits, is being handed over or is played. */
  predicate Quiet(s: State) { PlayingForAReason(s) && PendingForAReason(s) }

  predicate PlayingForAReason(s: State) {
    s.flags.playing ==>
      && HasRequest(s.job)
      && (s.task.Running? || s.task == Taking(TakePending) || s.task == Taking(TakeUnlock))
  }

  predicate PendingForAReason(s: State) {
    && (s.flags.pending ==>
          || s.requests != s.taken || s.loop.Playing?
          || s.task == Taking(TakePlaying) || s.task == Taking(TakePending))
    && (s.loop.Playing? && s.loop.play == PlayUnlock ==> s.taken < s.requests)
  }

  lemma QuietKept(s: State, m: Move)
    requires Exclusive(s) && Announced(s) && Quiet(s)
    ensures Quiet(Step(s, m))
  {
    PlayingKept(s, m);
    OneHolds(s);
    PendingKept(s, m);
    hide Step, Exclusive, Alone, PlayingForAReason, PendingForAReason;
  }

  lemma PlayingKept(s: State, m: Move)
    requires PlayingForAReason(s)
    ensures PlayingForAReason(Step(s, m))
  {
    hide In;
  }

  lemma PendingKept(s: State, m: Move)
    requires Alone(s) && s.taken <= s.requests && PendingForAReason(s)
    ensures PendingForAReason(Step(s, m))
  {
    hide In;
  }

  lemma {:induction false} QuietStays(s: State, moves: seq<Move>)
    requires Inv(s) && Quiet(s)
    ensures Inv(After(s, moves)) && Quiet(After(s, moves))
    decreases |moves|
  {
    if moves != [] {
      StepKeeps(s, moves[0]);
      QuietKept(s, moves[0]);
      hide Step, Quiet, Announced, Tracked, Released, Signalled, Exclusive;
      QuietStays(Step(s, moves[0]), moves[1..]);
    }
  }

  /**
   In every reachable state with the task at its top nothing is open or playing; with nothing waiting either,
   nothing is pending.
   */
  lemma IdleIsQuiet(moves: seq<Move>)
    ensures var s := After(INIT, moves);
            s.task == Top ==>
              && !s.flags.playing && s.shared.open == Empty && s.job == Job(Empty, false, Empty)
              && (s.loop == Idle && s.requests == s.taken ==> !s.flags.pending)
  {
    StartsRight();
    QuietStays(INIT, moves);
  }

  predicate Parks(s: State, title: bool, text: Slot) { (if title then s.shared.title else s.shared.error) == text }

  /** What the task has parked it signals, once, with its next two moves. */
  lemma {:induction false} Signals(s: State, moves: seq<Move>, left: nat)
    requires s.task.Publishing? && TaskMoves(moves) == left
    requires (s.task.publish == PublishUnlock && left == 2) || (s.task.publish == PublishBump && left == 1)
    ensures After(s, moves).task == Top && After(s, moves).handoff == s.handoff + 1
    decreases |moves|
  {
    var s' := Step(s, moves[0]);
    Moved(s, moves);
    if left == 1 && moves[0].Task? {
      TaskRests(s', moves[1..]);
    } else {
      if moves[0].Loop? { LoopKeeps(s, moves[0].choice); }
      if moves[0].Loop? { LoopSignalsNothing(s, moves[0]); }
      hide Step;
      Signals(s', moves[1..], if moves[0].Task? then left - 1 else left);
    }
  }

  lemma LoopSignalsNothing(s: State, m: Move)
    requires m.Loop?
    ensures Step(s, m).handoff == s.handoff
  {
    hide In;
  }

  lemma {:induction false} TaskRests(s: State, moves: seq<Move>)
    requires TaskMoves(moves) == 0
    ensures After(s, moves).task == s.task && After(s, moves).handoff == s.handoff
    decreases |moves|
  {
    if moves != [] {
      Moved(s, moves);
      LoopKeeps(s, moves[0].choice);
      LoopSignalsNothing(s, moves[0]);
      hide Step;
      TaskRests(Step(s, moves[0]), moves[1..]);
    }
  }

  /** A title or error to be shown is parked and then signalled, once. */
  lemma PublishParks(s: State, moves: seq<Move>, title: bool, text: Slot)
    requires s.task == Top && s.requests == s.taken && s.lock == Free
    requires |moves| >= 2 && moves[0] == Task(Publish(title, text)) && moves[1].Task? && TaskMoves(moves) == 4
    ensures After(s, moves).task == Top && After(s, moves).handoff == s.handoff + 1
    ensures Sometime(s, moves, x => Parks(x, title, text))
  {
    var s1 := Step(s, moves[0]);
    var s2 := Step(s1, moves[1]);
    assert s2.task == Publishing(title, text, PublishUnlock) && Parks(s2, title, text);
    hide Step;
    assert moves[1..][0] == moves[1] && moves[1..][1..] == moves[2..];
    Moved(s, moves);
    Moved(s1, moves[1..]);
    Signals(s2, moves[2..], 2);
    Now(s2, moves[2..], x => Parks(x, title, text));
    Later(s1, moves[1..], x => Parks(x, title, text));
    Later(s, moves, x => Parks(x, title, text));
  }

  // ----- every operation ends -----

  /** The loop going on by itself. */
  function Going(n: nat): (r: seq<Move>)
    ensures |r| == n && forall i :: 0 <= i < n ==> r[i] == Loop(Go)
  {
    seq(n, i => Loop(Go))
  }

  lemma GoesOne(s: State, n: nat)
    requires n > 0
    ensures After(s, Going(n)) == After(LoopStep(s, Go), Going(n - 1))
  {
    Moved(s, Going(n));
    assert Going(n)[1..] == Going(n - 1);
  }

  /** How many more moves an operation takes while nothing keeps the lock from the loop. */
  function ToGo(s: State): nat {
    match s.loop
    case Idle => 0
    case Playing(_, at) => (match at case PlayLock => 5 case PlayPending => 4 case PlayStop => 3 case PlaySeq => 2 case PlayUnlock => 1)
    case Stopping(at) => (match at case StopLock => 4 case StopPending => 3 case StopUnlock => 2 case StopFlag => 1)
    case Ticking(_, at) => (match at case TickSeen => 4 case TickTry => 3 case TickSwap => 2 case TickUnlock => 1)
    case Streaming(unlock) => if unlock then 1 else 2
    case Releasing(_, _, _) => 0
  }

  lemma {:induction false} GoesToItsEnd(s: State, n: nat)
    requires Exclusive(s) && s.lock != TaskHas && !s.loop.Releasing? && n >= ToGo(s)
    ensures After(s, Going(n)).loop == Idle
    decreases n
  {
    if n > 0 {
      GoesOne(s, n);
      var s' := LoopStep(s, Go);
      GoneOn(s);
      hide *;
      GoesToItsEnd(s', n - 1);
    }
  }

  lemma GoneOn(s: State)
    requires Exclusive(s) && s.lock != TaskHas && !s.loop.Releasing?
    ensures var s' := LoopStep(s, Go);
            Exclusive(s') && s'.lock != TaskHas && !s'.loop.Releasing? && ToGo(s') <= ToGo(s) - if s.loop == Idle then 0 else 1
  {
  }

  /** With the lock free, an operation is through after at most five further moves of the loop. */
  lemma OperationsEnd(s: State, operation: Choice)
    requires Exclusive(s) && s.loop == Idle && s.lock == Free && !operation.Release?
    ensures After(s, [Loop(operation)] + Going(5)).loop == Idle
  {
    var moves := [Loop(operation)] + Going(5);
    Moved(s, moves);
    assert moves[1..] == Going(5);
    GoesToItsEnd(LoopStep(s, operation), 5);
  }
}
