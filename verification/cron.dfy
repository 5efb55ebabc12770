/**
 * The cron scheduler: what each of its lock-delimited regions does to the job table, and the
 * machine that interleaves them with handlers running outside the lock, failed saves, stop and
 * start, and crash and restart from disk.
 */
module Cron {
  import opened Options

  type Id = string

  /** A schedule; AtMS and EveryMS are pointers in the source and may be missing. */
  datatype Schedule = At(at: Option<int>) | Every(every: Option<int>) | Expr(expr: string) | UnknownKind

  datatype Job = Job(id: Id, enabled: bool, schedule: Schedule, deleteAfterRun: bool,
                     nextRun: Option<int>, lastRun: Option<int>, lastStatus: string)

  type Table = map<Id, Job>

  /** The cron-expression library: the next tick after a time, if the expression is well formed. */
  type Ticks = (string, int) -> Option<int>

  /** computeNextRun. */
  function NextRun(s: Schedule, now: int, ticks: Ticks): Option<int> {
    match s
    case At(at) => if at.Some? && at.value > now then at else None
    case Every(every) => if every.None? || every.value <= 0 then None else Some(now + every.value)
    case Expr(expr) => if expr == "" then None else ticks(expr, now)
    case UnknownKind => None
  }

  /** A job with this schedule, put on it now, is next run at t. */
  predicate FirstRun(s: Schedule, now: int, t: int, ticks: Ticks) {
    || (s == At(Some(t)) && now < t)
    || (s == Every(Some(t - now)) && now < t)
    || (s.Expr? && s.expr != "" && ticks(s.expr, now) == Some(t))
  }

  lemma NextRunExactly(s: Schedule, now: int, ticks: Ticks)
    ensures forall t :: NextRun(s, now, ticks) == Some(t) <==> FirstRun(s, now, t, ticks)
  {
  }

  /** The library does not find an earlier tick for a later time; other schedules are so anyway. */
  ghost predicate Monotone(s: Schedule, ticks: Ticks) {
    s.Expr? ==> forall t, u | t <= u && ticks(s.expr, u).Some? ::
      ticks(s.expr, t).Some? && ticks(s.expr, t).value <= ticks(s.expr, u).value
  }

  /** The schedule, asked at the end of an execution, has a next run by the time. */
  predicate MayRun(s: Schedule, end: int, time: int, ticks: Ticks) {
    NextRun(s, end, ticks).Some? && NextRun(s, end, ticks).value <= time
  }

  lemma NextRunLater(s: Schedule, end: int, now: int, ticks: Ticks)
    requires Monotone(s, ticks) && end <= now && NextRun(s, now, ticks).Some?
    ensures MayRun(s, end, NextRun(s, now, ticks).value, ticks)
  {
  }

  predicate IsDue(j: Job, now: int) {
    j.enabled && j.nextRun.Some? && j.nextRun.value <= now
  }

  /** The first region of checkJobs on one job: a job that is due is taken off the schedule. */
  function Collected(j: Job, now: int): Job {
    if IsDue(j, now) then j.(nextRun := None) else j
  }

  /** The last region of executeJobByID on the job that ran; None if the job is deleted. */
  function Executed(j: Job, started: int, now: int, failed: bool, ticks: Ticks): Option<Job> {
    var k := j.(lastRun := Some(started), lastStatus := if failed then "error" else "ok");
    if !j.schedule.At? then Some(k.(nextRun := NextRun(j.schedule, now, ticks)))
    else if j.deleteAfterRun then None
    else Some(k.(enabled := false, nextRun := None))
  }

  /** The job is on the schedule for the time its schedule gives now, and for none if it gives none. */
  ghost predicate OnTime(j: Job, now: int, ticks: Ticks) {
    forall t :: j.nextRun == Some(t) <==> FirstRun(j.schedule, now, t, ticks)
  }

  /** What a run leaves of the job, unless it deletes it. */
  ghost predicate HasRun(j: Job, k: Job, started: int, now: int, failed: bool, ticks: Ticks) {
    && k.id == j.id && k.schedule == j.schedule && k.deleteAfterRun == j.deleteAfterRun
    && k.lastRun == Some(started) && (failed ==> k.lastStatus == "error") && (!failed ==> k.lastStatus == "ok")
    && if k.schedule.At? then !k.enabled && k.nextRun == None else k.enabled == j.enabled && OnTime(k, now, ticks)
  }

  lemma ExecutedExactly(j: Job, started: int, now: int, failed: bool, ticks: Ticks)
    ensures var r := Executed(j, started, now, failed, ticks);
      if j.schedule.At? && j.deleteAfterRun then r == None
      else r.Some? && HasRun(j, r.value, started, now, failed, ticks)
  {
    NextRunExactly(j.schedule, now, ticks);
    hide NextRun, FirstRun;
  }

  /** EnableJob on the job it names. */
  function Switched(j: Job, enabled: bool, now: int, ticks: Ticks): Job {
    j.(enabled := enabled, nextRun := if enabled then NextRun(j.schedule, now, ticks) else None)
  }

  /** recomputeNextRuns on one job. */
  function Recomputed(j: Job, now: int, ticks: Ticks): Job {
    if j.enabled then j.(nextRun := NextRun(j.schedule, now, ticks)) else j
  }

  /** The job AddJob creates. */
  function Added(id: Id, schedule: Schedule, now: int, ticks: Ticks): Job {
    Job(id, true, schedule, schedule.At?, NextRun(schedule, now, ticks), None, "")
  }

  function CollectAll(jobs: Table, now: int): Table {
    map id | id in jobs :: Collected(jobs[id], now)
  }

  function DueIds(jobs: Table, now: int): set<Id> {
    set id | id in jobs && IsDue(jobs[id], now)
  }

  function RecomputeAll(jobs: Table, now: int, ticks: Ticks): Table {
    map id | id in jobs :: Recomputed(jobs[id], now, ticks)
  }

  function ExecuteOne(jobs: Table, id: Id, started: int, now: int, failed: bool, ticks: Ticks): Table {
    if id !in jobs then jobs
    else
      var r := Executed(jobs[id], started, now, failed, ticks);
      if r.None? then jobs - {id} else jobs[id := r.value]
  }

  function SwitchOne(jobs: Table, id: Id, enabled: bool, now: int, ticks: Ticks): Table {
    if id !in jobs then jobs else jobs[id := Switched(jobs[id], enabled, now, ticks)]
  }

  /** Handler calls: when the handler was called, when its result was recorded, and when a crash ended all. */
  datatype Event = Began(id: Id, time: int) | Ended(id: Id, time: int) | Crashed(time: int)

  /**
   * The scheduler and its environment. `due` holds the collected jobs no loop has reached yet and
   * `active` those whose handler is running, over all loops; keeping them as multisets allows
   * every order in which any number of loops can take them. `schedules` remembers the schedule of
   * every job ever known.
   */
  datatype System = System(jobs: Table, disk: Table, running: bool, clock: int,
                           due: multiset<Id>, active: multiset<Id>,
                           schedules: map<Id, Schedule>, log: seq<Event>)

  datatype Action =
    | Pass(time: int)
    | Tick(saved: bool)
    | Begin(id: Id)
    | Finish(id: Id, started: int, failed: bool, saved: bool)
    | Add(id: Id, schedule: Schedule, saved: bool)
    | Remove(id: Id, saved: bool)
    | Switch(id: Id, enabled: bool, saved: bool)
    | Start(loaded: bool, saved: bool)
    | Stop
    | Crash

  /** A process that has read the given store and has not been started. */
  function Initial(disk: Table, clock: int): System {
    System(disk, disk, false, clock, multiset{}, multiset{}, map id | id in disk :: disk[id].schedule, [])
  }

  /** Writes the table to disk, if the save succeeds. */
  function Save(s: System, jobs: Table, saved: bool): System {
    s.(jobs := jobs, disk := if saved then jobs else s.disk)
  }

  /** One step; a step that is not possible changes nothing. */
  function Do(s: System, a: Action, ticks: Ticks): System {
    match a
    case Pass(time) =>
      if time >= s.clock then s.(clock := time) else s
    case Tick(saved) =>
      if !s.running then s
      else Save(s, CollectAll(s.jobs, s.clock), saved).(due := s.due + multiset(DueIds(s.jobs, s.clock)))
    case Begin(id) =>
      if id !in s.due then s
      else if id !in s.jobs then s.(due := s.due - multiset{id})
      else s.(due := s.due - multiset{id}, active := s.active + multiset{id}, log := s.log + [Began(id, s.clock)])
    case Finish(id, started, failed, saved) =>
      if id !in s.active then s
      else
        var t := s.(active := s.active - multiset{id}, log := s.log + [Ended(id, s.clock)]);
        if id !in s.jobs then t else Save(t, ExecuteOne(s.jobs, id, started, s.clock, failed, ticks), saved)
    case Add(id, schedule, saved) =>
      if id in s.schedules then s
      else Save(s, s.jobs[id := Added(id, schedule, s.clock, ticks)], saved).(schedules := s.schedules[id := schedule])
    case Remove(id, saved) =>
      if id !in s.jobs then s else Save(s, s.jobs - {id}, saved)
    case Switch(id, enabled, saved) =>
      if id !in s.jobs then s else Save(s, SwitchOne(s.jobs, id, enabled, s.clock, ticks), saved)
    case Start(loaded, saved) =>
      if s.running then s
      else if !loaded then s.(jobs := map[])
      else Save(s, RecomputeAll(s.disk, s.clock, ticks), saved).(running := saved)
    case Stop =>
      s.(running := false)
    case Crash =>
      s.(jobs := s.disk, running := false, due := multiset{}, active := multiset{}, log := s.log + [Crashed(s.clock)])
  }

  function Run(init: System, schedule: seq<Action>, ticks: Ticks): System {
    if schedule == [] then init
    else Do(Run(init, schedule[..|schedule| - 1], ticks), schedule[|schedule| - 1], ticks)
  }

  /** The number of times the handler was called for a job. */
  function Begins(log: seq<Event>, id: Id): nat {
    if log == [] then 0
    else (if log[|log| - 1].Began? && log[|log| - 1].id == id then 1 else 0) + Begins(log[..|log| - 1], id)
  }

  predicate Ends(e: Event, id: Id) {
    e.Crashed? || (e.Ended? && e.id == id)
  }

  /** When a handler call for the job was last over. */
  function LastEnd(log: seq<Event>, id: Id): Option<int> {
    if log == [] then None
    else if Ends(log[|log| - 1], id) then Some(log[|log| - 1].time)
    else LastEnd(log[..|log| - 1], id)
  }

  /** The handler was called for the job and that is not over. */
  predicate IsOpen(log: seq<Event>, id: Id) {
    log != [] &&
    var e := log[|log| - 1];
    if e.Began? && e.id == id then true else !Ends(e, id) && IsOpen(log[..|log| - 1], id)
  }

  lemma LogGrows(log: seq<Event>, e: Event, id: Id)
    ensures Begins(log + [e], id) == (if e.Began? && e.id == id then 1 else 0) + Begins(log, id)
    ensures LastEnd(log + [e], id) == if Ends(e, id) then Some(e.time) else LastEnd(log, id)
    ensures IsOpen(log + [e], id) == ((e.Began? && e.id == id) || (!Ends(e, id) && IsOpen(log, id)))
  {
    assert (log + [e])[..|log|] == log;
  }
}
