/**
 The hand-off between the main loop and the audio task: requests, stops and releases on one side, the
 taking and playing of a one-shot on the other, and the title or error parked for the loop. Every
 store another thread can see on its own is a step of its own; stores under the lock that only locked
 readers see are taken together.
 */
module AudioHandoff {
  /** A shared string the threads test only for being empty. */
  datatype Slot = Empty | Holds(text: string)

  /** A path belongs to a place that it equals or that is one of the folders above it. */
  predicate Within(path: string, place: string) {
    && place != [] && place <= path
    && (|path| == |place| || place[|place| - 1] == '/' || path[|place|] == '/')
  }

  predicate In(slot: Slot, place: string) { slot.Holds? && Within(slot.text, place) }

  datatype Owner = Free | LoopHas | TaskHas

  /** A one-shot: a stored file, or a parsed song. */
  datatype Request = File(file: Slot) | Song

  // ----- where each thread is -----

  datatype PlayAt = PlayLock | PlayPending | PlayStop | PlaySeq | PlayUnlock
  datatype StopAt = StopLock | StopPending | StopUnlock | StopFlag
  datatype ReleaseAt = ReleaseLock | ReleasePending | ReleaseHeld | ReleaseUnlock | Wait | PollLock | PollRead | PollUnlock
  datatype TickAt = TickSeen | TickTry | TickSwap | TickUnlock

  /** The loop runs one operation at a time. `held` and `load` are the operation's local variables. */
  datatype LoopAt =
    | Idle
    | Playing(req: Request, play: PlayAt)
    | Stopping(stop: StopAt)
    | Releasing(path: string, held: bool, release: ReleaseAt)
    | Ticking(load: int, tick: TickAt)
    | Streaming(unlock: bool)

  datatype TakeAt = TakeLock | TakeSeen | TakePlaying | TakePending | TakeUnlock
  datatype RunAt = Route | GuardStop | GuardSeq | Body | Leave | PlayingOff
  datatype ClearAt = ClearLock | ClearOpen | ClearUnlock
  datatype PublishAt = PublishLock | PublishUnlock | PublishBump

  datatype TaskAt =
    | Top
    | Taking(take: TakeAt)
    | Running(run: RunAt)
    | Clearing(clear: ClearAt)
    | Publishing(title: bool, text: Slot, publish: PublishAt)

  // ----- the state -----

  /** Only valid under the lock. */
  datatype Shared = Shared(file: Slot, song: bool, open: Slot, title: Slot, error: Slot)

  /** The atomic flags mp3Stop_, mp3Playing_ and mp3Pending_. */
  datatype Flags = Flags(stop: bool, playing: bool, pending: bool)

  /** The task's own copy of what it plays, and the file it has open. */
  datatype Job = Job(path: Slot, song: bool, file: Slot)

  /**
   For the statements only. `wanted`: the latest request is neither finished, stopped nor superseded.
   `freed`: the places released since it was made.
   */
  datatype Trace = Trace(wanted: bool, freed: set<string>)

  /**
   `requests` is mp3Seq_ and `taken` mp3SeenSeq_; `handoff` is handoffSeq_ and `seen` seenSeq_.
   */
  datatype State = State(lock: Owner, loop: LoopAt, task: TaskAt, shared: Shared, flags: Flags,
                         requests: int, taken: int, job: Job, handoff: int, seen: int, trace: Trace)

  const INIT := State(Free, Idle, Top, Shared(Empty, false, Empty, Empty, Empty), Flags(false, false, false),
                      0, 0, Job(Empty, false, Empty), 0, 0, Trace(false, {}))

  /** What a thread does next where it has a choice. */
  datatype Choice =
    | Go
    | Play(req: Request) | Stop | Release(path: string) | Tick | StartStream
    | TimeOut
    | Fail | Finish
    | Publish(title: bool, text: Slot)

  // ----- the loop -----

  function StartStep(s: State, c: Choice): State {
    match c
    case Play(req) => s.(loop := Playing(req, PlayLock))
    case Stop => s.(loop := Stopping(StopLock))
    case Release(path) => s.(loop := Releasing(path, false, ReleaseLock))
    case Tick => if s.handoff == s.seen then s else s.(loop := Ticking(s.handoff, TickSeen))
    case StartStream => s.(loop := Streaming(false))
    case _ => s
  }

  /** playMp3 and playSongOnce; waiting for the lock is standing still. */
  function PlayStep(s: State, req: Request, at: PlayAt): State {
    match at
    case PlayLock =>
      if s.lock != Free then s
      else s.(lock := LoopHas, loop := Playing(req, PlayPending), trace := Trace(false, {}),
              shared := s.shared.(file := if req.File? then req.file else Empty, song := req.Song?))
    case PlayPending => s.(loop := Playing(req, PlayStop), flags := s.flags.(pending := true))
    case PlayStop => s.(loop := Playing(req, PlaySeq), flags := s.flags.(stop := false))
    case PlaySeq =>
      s.(loop := Playing(req, PlayUnlock), requests := s.requests + 1,
         trace := s.trace.(wanted := req.Song? || req.file.Holds?))
    case PlayUnlock => s.(lock := Free, loop := Idle)
  }

  /** stopOneShot: the flag is raised after the lock is given back. */
  function StopStep(s: State, at: StopAt): State {
    match at
    case StopLock =>
      if s.lock != Free then s
      else s.(lock := LoopHas, loop := Stopping(StopPending), shared := s.shared.(file := Empty, song := false),
              trace := s.trace.(wanted := false))
    case StopPending => s.(loop := Stopping(StopUnlock), flags := s.flags.(pending := false))
    case StopUnlock => s.(lock := Free, loop := Stopping(StopFlag))
    case StopFlag => s.(loop := Idle, flags := s.flags.(stop := true))
  }

  /**
   release: drop a request for the file, stop the file if it is the one being played, then wait until
   the file was seen closed, or give up.
   */
  function ReleaseStep(s: State, path: string, held: bool, at: ReleaseAt, c: Choice): State {
    match at
    case ReleaseLock =>
      if s.lock != Free then s
      else if In(s.shared.file, path) then
        s.(lock := LoopHas, loop := Releasing(path, held, ReleasePending), shared := s.shared.(file := Empty),
           trace := s.trace.(wanted := false))
      else s.(lock := LoopHas, loop := Releasing(path, held, ReleaseHeld))
    case ReleasePending => s.(loop := Releasing(path, held, ReleaseHeld), flags := s.flags.(pending := false))
    case ReleaseHeld =>
      var open := In(s.shared.open, path);
      if open && s.requests == s.taken then
        s.(loop := Releasing(path, open, ReleaseUnlock), flags := s.flags.(stop := true), trace := s.trace.(wanted := false))
      else s.(loop := Releasing(path, open, ReleaseUnlock))
    case ReleaseUnlock => s.(lock := Free, loop := Releasing(path, held, Wait))
    case Wait =>
      if !held then s.(loop := Idle, trace := s.trace.(freed := s.trace.freed + {path}))
      else if c == TimeOut then s.(loop := Idle)
      else s.(loop := Releasing(path, held, PollLock))
    case PollLock => if s.lock != Free then s else s.(lock := LoopHas, loop := Releasing(path, held, PollRead))
    case PollRead => s.(loop := Releasing(path, In(s.shared.open, path), PollUnlock))
    case PollUnlock => s.(lock := Free, loop := Releasing(path, held, Wait))
  }

  /** tick never waits for the lock: refused, it forgets having looked. */
  function TickStep(s: State, load: int, at: TickAt): State {
    match at
    case TickSeen => s.(loop := Ticking(load, TickTry), seen := load)
    case TickTry =>
      if s.lock != Free then s.(loop := Idle, seen := load - 1) else s.(lock := LoopHas, loop := Ticking(load, TickSwap))
    case TickSwap => s.(loop := Ticking(load, TickUnlock), shared := s.shared.(title := Empty, error := Empty))
    case TickUnlock => s.(lock := Free, loop := Idle)
  }

  /** playStream forgets an old error. */
  function StreamStep(s: State, unlock: bool): State {
    if unlock then s.(lock := Free, loop := Idle)
    else if s.lock != Free then s
    else s.(lock := LoopHas, loop := Streaming(true), shared := s.shared.(error := Empty))
  }

  function LoopStep(s: State, c: Choice): State {
    match s.loop
    case Idle => StartStep(s, c)
    case Playing(req, at) => PlayStep(s, req, at)
    case Stopping(at) => StopStep(s, at)
    case Releasing(path, held, at) => ReleaseStep(s, path, held, at, c)
    case Ticking(load, at) => TickStep(s, load, at)
    case Streaming(unlock) => StreamStep(s, unlock)
  }

  // ----- the audio task -----

  function TopStep(s: State, c: Choice): State {
    if s.requests != s.taken then s.(task := Taking(TakeLock))
    else if c.Publish? then s.(task := Publishing(c.title, c.text, PublishLock))
    else s
  }

  predicate HasRequest(job: Job) { job.path.Holds? || job.song }

  /** Taking a request, all of it inside one lock section. */
  function TakeStep(s: State, at: TakeAt): State {
    match at
    case TakeLock =>
      if s.lock != Free then s
      else s.(lock := TaskHas, task := Taking(TakeSeen), job := Job(s.shared.file, s.shared.song, s.job.file),
              shared := s.shared.(song := false, open := s.shared.file))
    case TakeSeen => s.(task := Taking(TakePlaying), taken := s.requests)
    case TakePlaying => s.(task := Taking(TakePending), flags := s.flags.(playing := s.flags.playing || HasRequest(s.job)))
    case TakePending => s.(task := Taking(TakeUnlock), flags := s.flags.(pending := false))
    case TakeUnlock => s.(lock := Free, task := Running(Route))
  }

  /** The one-shot being played is over; unless a newer one is waiting, that was the latest request. */
  function Over(s: State): Trace {
    if s.requests == s.taken then s.trace.(wanted := false) else s.trace
  }

  /** Playing what was taken: the guard is tested before every block, one load at a time. */
  function RunStep(s: State, at: RunAt, c: Choice): State {
    match at
    case Route =>
      if s.job.song then s.(task := Running(GuardStop))
      else if s.job.path == Empty then s.(task := Clearing(ClearLock))
      else if c == Fail then s.(task := Clearing(ClearLock), flags := s.flags.(playing := false), trace := Over(s))
      else s.(task := Running(GuardStop), job := s.job.(file := s.job.path))
    case GuardStop => s.(task := Running(if s.flags.stop then Leave else GuardSeq))
    case GuardSeq => s.(task := Running(if s.requests != s.taken then Leave else Body))
    case Body => if c == Finish then s.(task := Running(Leave), trace := Over(s)) else s.(task := Running(GuardStop))
    case Leave => s.(task := Running(PlayingOff), job := s.job.(file := Empty))
    case PlayingOff => s.(task := Clearing(ClearLock), flags := s.flags.(playing := false), job := s.job.(song := false))
  }

  function ClearStep(s: State, at: ClearAt): State {
    match at
    case ClearLock => if s.lock != Free then s else s.(lock := TaskHas, task := Clearing(ClearOpen))
    case ClearOpen => s.(task := Clearing(ClearUnlock), shared := s.shared.(open := Empty), job := s.job.(path := Empty))
    case ClearUnlock => s.(lock := Free, task := Top)
  }

  /** publishTitle and publishError: the signal follows the lock. */
  function PublishStep(s: State, title: bool, text: Slot, at: PublishAt): State {
    match at
    case PublishLock =>
      if s.lock != Free then s
      else s.(lock := TaskHas, task := Publishing(title, text, PublishUnlock),
              shared := if title then s.shared.(title := text) else s.shared.(error := text))
    case PublishUnlock => s.(lock := Free, task := Publishing(title, text, PublishBump))
    case PublishBump => s.(task := Top, handoff := s.handoff + 1)
  }

  function TaskStep(s: State, c: Choice): State {
    match s.task
    case Top => TopStep(s, c)
    case Taking(at) => TakeStep(s, at)
    case Running(at) => RunStep(s, at, c)
    case Clearing(at) => ClearStep(s, at)
    case Publishing(title, text, at) => PublishStep(s, title, text, at)
  }

  // ----- schedules -----

  datatype Move = Loop(choice: Choice) | Task(choice: Choice)

  function Step(s: State, m: Move): State {
    match m case Loop(c) => LoopStep(s, c) case Task(c) => TaskStep(s, c)
  }

  /** The state after a schedule. */
  function After(s: State, moves: seq<Move>): State
    decreases |moves|
  {
    if moves == [] then s else After(Step(s, moves[0]), moves[1..])
  }
}
