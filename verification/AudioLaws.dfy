/** What every schedule of the two threads keeps. */
module AudioLaws {
  import opened AudioHandoff

  // ----- the invariant, in independent parts -----

  predicate LoopHolds(at: LoopAt) {
    match at
    case Idle => false
    case Playing(_, p) => p != PlayLock
    case Stopping(p) => p == StopPending || p == StopUnlock
    case Releasing(_, _, p) => p != ReleaseLock && p != Wait && p != PollLock
    case Ticking(_, p) => p == TickSwap || p == TickUnlock
    case Streaming(unlock) => unlock
  }

  predicate TaskHolds(at: TaskAt) {
    match at
    case Top => false
    case Taking(p) => p != TakeLock
    case Running(_) => false
    case Clearing(p) => p != ClearLock
    case Publishing(_, _, p) => p == PublishUnlock
  }

  predicate Exclusive(s: State) {
    (s.lock == LoopHas <==> LoopHolds(s.loop)) && (s.lock == TaskHas <==> TaskHolds(s.task))
  }

  /** The playback loop, with its guard in it. */
  predicate InPlayback(at: TaskAt) { at.Running? && (at.run == GuardStop || at.run == GuardSeq || at.run == Body) }

  /** From taking a request until its playback is left: the request is the task's, and its guard is ahead. */
  predicate HasTaken(at: TaskAt) {
    || (at.Taking? && at.take != TakeLock && at.take != TakeSeen)
    || at == Running(Route)
    || InPlayback(at)
  }

  /** While a file may be open, the path the other thread can see is the task's own. */
  predicate Announced(s: State) {
    && (match s.task
        case Taking(p) => p != TakeLock ==> s.shared.open == s.job.path
        case Running(_) => s.shared.open == s.job.path
        case Clearing(p) => (p != ClearUnlock ==> s.shared.open == s.job.path) && !s.job.song
        case _ => !s.job.song)
    && (s.task.Top? || s.task.Publishing? || s.task == Taking(TakeLock) || s.task == Clearing(ClearUnlock) ==>
          s.shared.open == Empty && s.job.path == Empty && !s.job.song)
    && (s.job.file.Holds? ==> (InPlayback(s.task) || s.task == Running(Leave)) && s.job.file == s.shared.open)
    && (s.job.song ==> s.job.path == Empty) && (s.shared.song ==> s.shared.file == Empty)
    && s.taken <= s.requests
    && (s.task.Taking? && s.task.take != TakeLock && s.task.take != TakeSeen ==> s.taken == s.requests)
  }

  /** Where the latest request is, as long as it is wanted. */
  predicate Tracked(s: State) {
    && (s.trace.wanted ==> !s.flags.stop)
    && (match s.loop
        case Playing(req, p) =>
          && (p != PlayLock && p != PlayUnlock ==>
                && !s.trace.wanted && s.shared.file == (if req.File? then req.file else Empty) && s.shared.song == req.Song?)
          && (p == PlayStop || p == PlaySeq ==> s.flags.pending)
          && (p == PlaySeq ==> !s.flags.stop)
        case Stopping(p) => p != StopLock ==> !s.trace.wanted
        case Releasing(_, _, p) => p == ReleasePending ==> !s.trace.wanted
        case _ => true)
    && (s.trace.wanted && s.taken != s.requests ==>
          s.flags.pending && if s.task == Taking(TakeSeen) then HasRequest(s.job) else s.shared.file.Holds? || s.shared.song)
    && (s.trace.wanted && s.taken == s.requests ==>
          && HasRequest(s.job)
          && (s.flags.playing || (s.task == Taking(TakePlaying) && s.flags.pending))
          && HasTaken(s.task))
  }

  /** Not open, and not what the task would take next. */
  predicate Away(shared: Shared, place: string) { !In(shared.open, place) && !In(shared.file, place) }

  predicate Released(s: State) {
    && (forall place :: place in s.trace.freed ==> Away(s.shared, place))
    && (s.loop.Releasing? && s.loop.release != ReleaseLock ==> !In(s.shared.file, s.loop.path))
    && (s.loop.Releasing? && (s.loop.release in {ReleaseUnlock, Wait, PollUnlock}) && !s.loop.held ==>
          Away(s.shared, s.loop.path))
  }

  predicate Parked(shared: Shared) { shared.title.Holds? || shared.error.Holds? }

  predicate Signalled(s: State) {
    && s.seen <= s.handoff
    && (s.loop.Ticking? && s.loop.tick == TickSeen ==> s.seen < s.loop.load <= s.handoff)
    && (s.loop.Ticking? && s.loop.tick == TickTry ==> s.seen == s.loop.load <= s.handoff)
    && (Parked(s.shared) ==>
          || s.handoff != s.seen
          || (s.task.Publishing? && s.task.publish != PublishLock)
          || (s.loop.Ticking? && (s.loop.tick == TickTry || s.loop.tick == TickSwap)))
  }

  predicate Inv(s: State) { Exclusive(s) && Announced(s) && Tracked(s) && Released(s) && Signalled(s) }

  // ----- preservation -----

  lemma EmptyIsAway()
    ensures forall place: string :: !In(Empty, place)
  {
  }

  lemma StartKeeps(s: State, c: Choice)
    requires Inv(s) && s.loop.Idle?
    ensures Inv(StartStep(s, c))
  {
    hide In;
  }

  lemma PlayKeeps(s: State, req: Request, at: PlayAt)
    requires Inv(s) && s.loop == Playing(req, at)
    ensures Inv(PlayStep(s, req, at))
  {
    hide In;
    EmptyIsAway();
  }

  lemma StopKeeps(s: State, at: StopAt)
    requires Inv(s) && s.loop == Stopping(at)
    ensures Inv(StopStep(s, at))
  {
    hide In;
    EmptyIsAway();
  }

  lemma ReleaseKeeps(s: State, path: string, held: bool, at: ReleaseAt, c: Choice)
    requires Inv(s) && s.loop == Releasing(path, held, at)
    ensures Inv(ReleaseStep(s, path, held, at, c))
  {
    hide In;
    EmptyIsAway();
  }

  lemma TickKeeps(s: State, load: int, at: TickAt)
    requires Inv(s) && s.loop == Ticking(load, at)
    ensures Inv(TickStep(s, load, at))
  {
    hide In;
  }

  lemma StreamKeeps(s: State, unlock: bool)
    requires Inv(s) && s.loop == Streaming(unlock)
    ensures Inv(StreamStep(s, unlock))
  {
    hide In;
  }

  lemma TopKeeps(s: State, c: Choice)
    requires Inv(s) && s.task.Top?
    ensures Inv(TopStep(s, c))
  {
    hide In;
  }

  lemma TakeKeeps(s: State, at: TakeAt)
    requires Inv(s) && s.task == Taking(at)
    ensures Inv(TakeStep(s, at))
  {
    hide In;
  }

  lemma RunKeeps(s: State, at: RunAt, c: Choice)
    requires Inv(s) && s.task == Running(at)
    ensures Inv(RunStep(s, at, c))
  {
    RunAnnounced(s, at, c);
    RunTracked(s, at, c);
    RunOthers(s, at, c);
    hide RunStep, Exclusive, Announced, Tracked, Released, Signalled;
  }

  lemma RunAnnounced(s: State, at: RunAt, c: Choice)
    requires Announced(s) && s.task == Running(at)
    ensures Announced(RunStep(s, at, c))
  {
  }

  lemma RunTracked(s: State, at: RunAt, c: Choice)
    requires Tracked(s) && s.task == Running(at)
    ensures Tracked(RunStep(s, at, c))
  {
  }

  lemma RunOthers(s: State, at: RunAt, c: Choice)
    requires Exclusive(s) && Released(s) && Signalled(s) && s.task == Running(at)
    ensures Exclusive(RunStep(s, at, c)) && Released(RunStep(s, at, c)) && Signalled(RunStep(s, at, c))
  {
    hide In, Away, Parked;
  }

  lemma ClearKeeps(s: State, at: ClearAt)
    requires Inv(s) && s.task == Clearing(at)
    ensures Inv(ClearStep(s, at))
  {
    hide In;
    EmptyIsAway();
  }

  lemma PublishKeeps(s: State, title: bool, text: Slot, at: PublishAt)
    requires Inv(s) && s.task == Publishing(title, text, at)
    ensures Inv(PublishStep(s, title, text, at))
  {
    hide In;
  }

  lemma StepKeeps(s: State, m: Move)
    requires Inv(s)
    ensures Inv(Step(s, m))
  {
    hide Inv, StartStep, PlayStep, StopStep, ReleaseStep, TickStep, StreamStep;
    hide TopStep, TakeStep, RunStep, ClearStep, PublishStep;
    match m
    case Loop(c) =>
      match s.loop {
       case Idle => StartKeeps(s, c);
       case Playing(req, at) => PlayKeeps(s, req, at);
       case Stopping(at) => StopKeeps(s, at);
       case Releasing(path, held, at) => ReleaseKeeps(s, path, held, at, c);
       case Ticking(load, at) => TickKeeps(s, load, at);
       case Streaming(unlock) => StreamKeeps(s, unlock);
      }
    case Task(c) =>
      match s.task {
       case Top => TopKeeps(s, c);
       case Taking(at) => TakeKeeps(s, at);
       case Running(at) => RunKeeps(s, at, c);
       case Clearing(at) => ClearKeeps(s, at);
       case Publishing(title, text, at) => PublishKeeps(s, title, text, at);
      }
  }

  lemma {:induction false} ScheduleKeeps(s: State, moves: seq<Move>)
    requires Inv(s)
    ensures Inv(After(s, moves))
    decreases |moves|
  {
    hide Inv, Step;
    if moves != [] {
      StepKeeps(s, moves[0]);
      ScheduleKeeps(Step(s, moves[0]), moves[1..]);
    }
  }

  lemma StartsRight()
    ensures Inv(INIT)
  {
  }

  // ----- what follows for every schedule -----

  /** A request neither finished, stopped nor superseded always counts as pending or playing. */
  lemma NoRequestIsLost(moves: seq<Move>)
    ensures var s := After(INIT, moves); s.trace.wanted ==> s.flags.pending || s.flags.playing
  {
    StartsRight();
    ScheduleKeeps(INIT, moves);
  }

  /** A parked title or error is always signalled, or one side is in the middle of handing it over. */
  lemma ParkedIsSignalled(moves: seq<Move>)
    ensures var s := After(INIT, moves);
            Parked(s.shared) ==>
              || s.handoff != s.seen
              || (s.task.Publishing? && s.task.publish != PublishLock)
              || (s.loop.Ticking? && (s.loop.tick == TickTry || s.loop.tick == TickSwap))
  {
    StartsRight();
    ScheduleKeeps(INIT, moves);
  }

  /** An open file is always the announced one. */
  lemma OpenIsAnnounced(moves: seq<Move>)
    ensures var s := After(INIT, moves); s.job.file.Holds? ==> s.job.file == s.shared.open
  {
    StartsRight();
    ScheduleKeeps(INIT, moves);
  }

  /** No file within the place is open, none is pending, and the task is not about to open one. */
  predicate Gone(s: State, place: string) {
    && !In(s.job.file, place) && !In(s.shared.open, place) && !In(s.shared.file, place)
    && (s.task == Running(Route) ==> !In(s.job.path, place))
  }

  /** A release that returns without timing out has really released the file. */
  lemma ReleaseReturnsReleased(moves: seq<Move>, c: Choice)
    requires var s := After(INIT, moves); s.loop.Releasing? && s.loop.release == Wait && !s.loop.held
    ensures var s := After(INIT, moves);
            var s' := Step(s, Loop(c));
            s'.loop == Idle && s.loop.path in s'.trace.freed && Gone(s', s.loop.path)
  {
    StartsRight();
    ScheduleKeeps(INIT, moves);
    StepKeeps(After(INIT, moves), Loop(c));
    FreedIsGone(Step(After(INIT, moves), Loop(c)), After(INIT, moves).loop.path);
  }

  lemma FreedIsGone(s: State, place: string)
    requires Inv(s) && place in s.trace.freed
    ensures Gone(s, place)
  {
    hide Within;
  }

  predicate Requestless(moves: seq<Move>) {
    forall i :: 0 <= i < |moves| ==> !(moves[i].Loop? && moves[i].choice.Play?)
  }

  /** ... and it stays released in every interleaving until a new request is made. */
  lemma {:induction false} ReleasedUntilRequested(s: State, moves: seq<Move>, place: string)
    requires Inv(s) && place in s.trace.freed && !s.loop.Playing?
    requires Requestless(moves)
    ensures Gone(After(s, moves), place)
    decreases |moves|
  {
    if moves == [] {
      FreedIsGone(s, place);
    } else {
      StepKeeps(s, moves[0]);
      OnlyRequestsReopen(s, moves[0], place);
      hide Inv, Step, Gone;
      ReleasedUntilRequested(Step(s, moves[0]), moves[1..], place);
    }
  }

  lemma OnlyRequestsReopen(s: State, m: Move, place: string)
    requires place in s.trace.freed && !s.loop.Playing? && !(m.Loop? && m.choice.Play?)
    ensures place in Step(s, m).trace.freed && !Step(s, m).loop.Playing?
  {
    hide In;
  }

  // ----- cutting a playback short -----

  /** The playback loop's guard. */
  predicate Guard(s: State) { !s.flags.stop && s.requests == s.taken }

  /** The guard is false, or will be when the loop is done with the request it is making. */
  predicate Cut(s: State) {
    s.requests != s.taken || s.flags.stop || (s.loop.Playing? && s.loop.play == PlaySeq)
  }

  lemma CutIsKept(s: State, m: Move)
    requires Inv(s) && HasTaken(s.task) && Cut(s) && HasTaken(Step(s, m).task)
    ensures Cut(Step(s, m))
  {
    hide In, Released, Signalled, Tracked;
  }

  ghost predicate StaysTaken(s: State, moves: seq<Move>)
    decreases |moves|
  {
    HasTaken(s.task) && (moves != [] ==> StaysTaken(Step(s, moves[0]), moves[1..]))
  }

  /**
   Once cut, also before it has begun, this playback's guard never holds again while the loop is between
   operations.
   */
  lemma {:induction false} CutStaysCut(s: State, moves: seq<Move>)
    requires Inv(s) && Cut(s) && StaysTaken(s, moves)
    ensures var s' := After(s, moves); s'.loop == Idle ==> !Guard(s')
    decreases |moves|
  {
    if moves != [] {
      StepKeeps(s, moves[0]);
      CutIsKept(s, moves[0]);
      hide Inv, Step, Cut, Guard;
      CutStaysCut(Step(s, moves[0]), moves[1..]);
    }
  }

  /** A stop, a newer request and a release of the open file each cut what the task has taken. */
  lemma OperationsCut(s: State, c: Choice)
    requires Inv(s) && HasTaken(s.task)
    requires
      || s.loop == Stopping(StopFlag)
      || (s.loop.Playing? && s.loop.play == PlaySeq)
      || (s.loop.Releasing? && s.loop.release == ReleaseHeld && In(s.shared.open, s.loop.path))
    ensures Cut(Step(s, Loop(c))) && Step(s, Loop(c)).task == s.task
  {
    hide Within;
  }

  /** How many moves of a schedule are the task's. */
  function TaskMoves(moves: seq<Move>): nat
    decreases |moves|
  {
    if moves == [] then 0 else (if moves[0].Task? then 1 else 0) + TaskMoves(moves[1..])
  }

  /** Somewhere in the schedule the task leaves its playback. */
  predicate Leaves(s: State, moves: seq<Move>)
    decreases |moves|
  {
    s.task == Running(Leave) || (moves != [] && Leaves(Step(s, moves[0]), moves[1..]))
  }

  /**
   With the guard false, three moves of the task at the latest take it out of the playback loop, whatever
   the loop does in between: anything if a newer request has cut it, and no request if a stop has.
   */
  lemma CutEndsPlayback(s: State, moves: seq<Move>)
    requires Inv(s) && InPlayback(s.task) && !Guard(s) && TaskMoves(moves) >= 3
    requires s.requests != s.taken || (!s.loop.Playing? && Requestless(moves))
    ensures Leaves(s, moves)
  {
    hide Requestless, Leaves, TaskMoves, Exclusive, Tracked, Released, Signalled;
    if s.requests != s.taken { SupersededLeaves(s, moves); } else { StoppedLeaves(s, moves); }
  }

  function ToNextTest(at: RunAt): nat { match at case GuardSeq => 1 case GuardStop => 2 case _ => 3 }

  lemma {:induction false} SupersededLeaves(s: State, moves: seq<Move>)
    requires InPlayback(s.task) && s.taken < s.requests && TaskMoves(moves) >= ToNextTest(s.task.run)
    ensures Leaves(s, moves)
    decreases |moves|
  {
    var s' := Step(s, moves[0]);
    if moves[0].Loop? { LoopKeeps(s, moves[0].choice); }
    if s'.task != Running(Leave) { SupersededLeaves(s', moves[1..]); }
  }

  /** The loop leaves the task and what it has taken alone, and takes no request back. */
  lemma LoopKeeps(s: State, c: Choice)
    ensures var s' := LoopStep(s, c);
            && s'.task == s.task && s'.taken == s.taken && s'.requests >= s.requests
            && (!s.loop.Playing? && !c.Play? ==> !s'.loop.Playing? && (s.flags.stop ==> s'.flags.stop))
  {
    hide In;
  }

  function ToStopTest(at: RunAt): nat { match at case GuardStop => 1 case Body => 2 case _ => 3 }

  lemma {:induction false} StoppedLeaves(s: State, moves: seq<Move>)
    requires InPlayback(s.task) && s.flags.stop && !s.loop.Playing? && Requestless(moves)
    requires TaskMoves(moves) >= ToStopTest(s.task.run)
    ensures Leaves(s, moves)
    decreases |moves|
  {
    var s' := Step(s, moves[0]);
    if moves[0].Loop? { LoopKeeps(s, moves[0].choice); }
    if s'.task != Running(Leave) { StoppedLeaves(s', moves[1..]); }
  }
}
