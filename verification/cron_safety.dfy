/** Safety of the scheduler over every run, one job at a time. */
module CronSafety {
  import opened Options
  import opened Cron

  /** All that a run shows of one job. */
  datatype View = View(job: Option<Job>, disk: Option<Job>, running: bool, clock: int, due: nat, active: nat,
                       schedule: Option<Schedule>, begins: nat, lastEnd: Option<int>, open: bool)

  function Find(jobs: Table, x: Id): Option<Job> {
    if x in jobs then Some(jobs[x]) else None
  }

  function Look(s: System, x: Id): View {
    View(Find(s.jobs, x), Find(s.disk, x), s.running, s.clock, s.due[x], s.active[x],
         if x in s.schedules then Some(s.schedules[x]) else None, Begins(s.log, x), LastEnd(s.log, x), IsOpen(s.log, x))
  }

  /** A save may or may not have reached the disk. */
  ghost predicate MaybeSaved(v: View, v': View) {
    v' == v || v' == v.(disk := v.job)
  }

  /** How a step looks from one job: other jobs matter only in that they too cause saves. */
  ghost predicate Next(v: View, a: Action, x: Id, v': View, ticks: Ticks) {
    match a
    case Pass(time) => v' == v || (time >= v.clock && v' == v.(clock := time))
    case Tick(_) =>
      if !v.running then v' == v
      else if v.job.None? then MaybeSaved(v, v')
      else MaybeSaved(v.(job := Some(Collected(v.job.value, v.clock)),
                         due := v.due + if IsDue(v.job.value, v.clock) then 1 else 0), v')
    case Begin(id) =>
      if id != x || v.due == 0 then v' == v
      else if v.job.None? then v' == v.(due := v.due - 1)
      else v' == v.(due := v.due - 1, active := v.active + 1, begins := v.begins + 1, open := true)
    case Finish(id, started, failed, _) =>
      if id != x then MaybeSaved(v, v')
      else if v.active == 0 then v' == v
      else
        var t := v.(active := v.active - 1, lastEnd := Some(v.clock), open := false);
        if v.job.None? then v' == t
        else MaybeSaved(t.(job := Executed(v.job.value, started, v.clock, failed, ticks)), v')
    case Add(id, schedule, _) =>
      if id != x then MaybeSaved(v, v')
      else if v.schedule.Some? then v' == v
      else MaybeSaved(v.(job := Some(Added(x, schedule, v.clock, ticks)), schedule := Some(schedule)), v')
    case Remove(id, _) => MaybeSaved(if id == x then v.(job := None) else v, v') || v' == v
    case Switch(id, enabled, _) =>
      if id != x || v.job.None? then MaybeSaved(v, v')
      else MaybeSaved(v.(job := Some(Switched(v.job.value, enabled, v.clock, ticks))), v')
    case Start(loaded, saved) =>
      if v.running then v' == v
      else if !loaded then v' == v.(job := None)
      else
        var t := v.(job := if v.disk.None? then None else Some(Recomputed(v.disk.value, v.clock, ticks)));
        v' == if saved then t.(disk := t.job, running := true) else t
    case Stop => v' == v.(running := false)
    case Crash =>
      v' == v.(job := v.disk, running := false, due := 0, active := 0, lastEnd := Some(v.clock), open := false)
  }

  lemma LookStep(s: System, a: Action, x: Id, ticks: Ticks)
    ensures Next(Look(s, x), a, x, Look(Do(s, a, ticks), x), ticks)
  {
    match a
    case Tick(saved) => LookTick(s, saved, x, ticks);
    case Begin(id) => LookBegin(s, id, x, ticks);
    case Finish(id, started, failed, saved) => LookFinish(s, id, started, failed, saved, x, ticks);
    case Add(id, schedule, saved) => LookAdd(s, id, schedule, saved, x, ticks);
    case Remove(id, saved) => LookRemove(s, id, saved, x, ticks);
    case Switch(id, enabled, saved) => LookSwitch(s, id, enabled, saved, x, ticks);
    case Start(loaded, saved) => LookStart(s, loaded, saved, x, ticks);
    case Crash => LogGrows(s.log, Crashed(s.clock), x);
    case _ =>
  }

  lemma LookBegin(s: System, id: Id, x: Id, ticks: Ticks)
    ensures Next(Look(s, x), Begin(id), x, Look(Do(s, Begin(id), ticks), x), ticks)
  {
    if id in s.due && id in s.jobs {
      LookBegan(s, id, x);
    }
  }

  lemma LookBegan(s: System, id: Id, x: Id)
    requires id in s.due
    ensures var t := s.(due := s.due - multiset{id}, active := s.active + multiset{id},
      log := s.log + [Began(id, s.clock)]);
      Look(t, x) == if id != x then Look(s, x)
                    else Look(s, x).(due := s.due[x] - 1, active := s.active[x] + 1,
                                     begins := Begins(s.log, x) + 1, open := true)
  {
    LogGrows(s.log, Began(id, s.clock), x);
  }

  lemma LookAdd(s: System, id: Id, schedule: Schedule, saved: bool, x: Id, ticks: Ticks)
    ensures Next(Look(s, x), Add(id, schedule, saved), x, Look(Do(s, Add(id, schedule, saved), ticks), x), ticks)
  {
  }

  lemma LookRemove(s: System, id: Id, saved: bool, x: Id, ticks: Ticks)
    ensures Next(Look(s, x), Remove(id, saved), x, Look(Do(s, Remove(id, saved), ticks), x), ticks)
  {
  }

  lemma LookSwitch(s: System, id: Id, enabled: bool, saved: bool, x: Id, ticks: Ticks)
    ensures Next(Look(s, x), Switch(id, enabled, saved), x, Look(Do(s, Switch(id, enabled, saved), ticks), x), ticks)
  {
  }

  lemma LookTick(s: System, saved: bool, x: Id, ticks: Ticks)
    ensures Next(Look(s, x), Tick(saved), x, Look(Do(s, Tick(saved), ticks), x), ticks)
  {
    assert (x in DueIds(s.jobs, s.clock)) == (x in s.jobs && IsDue(s.jobs[x], s.clock));
  }

  lemma FindExecuted(s: System, id: Id, started: int, failed: bool, x: Id, ticks: Ticks)
    requires id in s.jobs
    ensures Find(ExecuteOne(s.jobs, id, started, s.clock, failed, ticks), x) ==
      if x == id then Executed(s.jobs[x], started, s.clock, failed, ticks) else Find(s.jobs, x)
  {
  }

  lemma LookFinish(s: System, id: Id, started: int, failed: bool, saved: bool, x: Id, ticks: Ticks)
    ensures var a := Finish(id, started, failed, saved);
      Next(Look(s, x), a, x, Look(Do(s, a, ticks), x), ticks)
  {
    if id in s.active {
      LookEnded(s, id, x);
      var t := s.(active := s.active - multiset{id}, log := s.log + [Ended(id, s.clock)]);
      if id in s.jobs {
        FindExecuted(s, id, started, failed, x, ticks);
        LookSave(t, ExecuteOne(s.jobs, id, started, s.clock, failed, ticks), saved, x);
      }
    }
  }

  lemma LookEnded(s: System, id: Id, x: Id)
    requires id in s.active
    ensures Look(s.(active := s.active - multiset{id}, log := s.log + [Ended(id, s.clock)]), x) ==
      if id != x then Look(s, x) else Look(s, x).(active := s.active[x] - 1, lastEnd := Some(s.clock), open := false)
  {
    LogGrows(s.log, Ended(id, s.clock), x);
  }

  lemma LookSave(s: System, jobs: Table, saved: bool, x: Id)
    ensures MaybeSaved(Look(s, x).(job := Find(jobs, x)), Look(Save(s, jobs, saved), x))
  {
  }

  lemma LookStart(s: System, loaded: bool, saved: bool, x: Id, ticks: Ticks)
    ensures Next(Look(s, x), Start(loaded, saved), x, Look(Do(s, Start(loaded, saved), ticks), x), ticks)
  {
  }

  /** Both copies of a job have the schedule it was created with; an ID never added is new. */
  ghost predicate Tracked(v: View) {
    (v.lastEnd.Some? ==> v.lastEnd.value <= v.clock) &&
    match v.schedule
    case Some(schedule) =>
      && (v.job.Some? ==> v.job.value.schedule == schedule)
      && (v.disk.Some? ==> v.disk.value.schedule == schedule)
    case None =>
      && v.job.None? && v.disk.None? && v.due == v.active == v.begins == 0 && !v.open
  }

  predicate Scheduled(v: View) {
    v.running && v.job.Some? && v.job.value.enabled && v.job.value.nextRun.Some?
  }

  /** An `at` job that was collected or called is past its time and is never on the schedule again. */
  ghost predicate OneShot(v: View, at: int) {
    v.schedule == Some(At(Some(at))) ==>
      && v.due + v.begins <= 1
      && (v.due + v.begins == 1 ==> v.clock >= at)
      && (Scheduled(v) ==> v.job.value.nextRun.value == at && v.due + v.begins == 0)
  }

  /** A job is neither on the schedule nor collected before its rest is over. */
  ghost predicate Gap(v: View, schedule: Schedule, ticks: Ticks) {
    v.schedule == Some(schedule) ==>
      && v.due + v.active <= 1
      && (v.lastEnd.Some? ==>
            && (v.due >= 1 ==> MayRun(schedule, v.lastEnd.value, v.clock, ticks))
            && (Scheduled(v) ==> MayRun(schedule, v.lastEnd.value, v.job.value.nextRun.value, ticks)))
  }

  /** The steps of the run loops: collecting, calling and recording. */
  predicate IsLoopStep(a: Action) {
    a.Tick? || a.Begin? || a.Finish?
  }

  lemma LoopKeepsTracked(v: View, a: Action, x: Id, v': View, ticks: Ticks)
    requires Tracked(v) && Next(v, a, x, v', ticks) && IsLoopStep(a)
    ensures Tracked(v')
  {
  }

  lemma CallerKeepsTracked(v: View, a: Action, x: Id, v': View, ticks: Ticks)
    requires Tracked(v) && Next(v, a, x, v', ticks) && !IsLoopStep(a)
    ensures Tracked(v')
  {
  }

  lemma NextKeepsTracked(v: View, a: Action, x: Id, v': View, ticks: Ticks)
    requires Tracked(v) && Next(v, a, x, v', ticks)
    ensures Tracked(v')
  {
    hide Next, Tracked;
    if IsLoopStep(a) {
      LoopKeepsTracked(v, a, x, v', ticks);
    } else {
      CallerKeepsTracked(v, a, x, v', ticks);
    }
  }

  lemma LoopKeepsOneShot(v: View, a: Action, x: Id, v': View, ticks: Ticks, at: int)
    requires Tracked(v) && OneShot(v, at) && Next(v, a, x, v', ticks) && IsLoopStep(a)
    ensures OneShot(v', at)
  {
  }

  lemma CallerKeepsOneShot(v: View, a: Action, x: Id, v': View, ticks: Ticks, at: int)
    requires Tracked(v) && OneShot(v, at) && Next(v, a, x, v', ticks) && !IsLoopStep(a)
    ensures OneShot(v', at)
  {
  }

  lemma NextKeepsOneShot(v: View, a: Action, x: Id, v': View, ticks: Ticks, at: int)
    requires Tracked(v) && OneShot(v, at) && Next(v, a, x, v', ticks)
    ensures OneShot(v', at)
  {
    hide Next, OneShot, Tracked;
    if IsLoopStep(a) {
      LoopKeepsOneShot(v, a, x, v', ticks, at);
    } else {
      CallerKeepsOneShot(v, a, x, v', ticks, at);
    }
  }

  /** With one run loop, a tick finds nothing of the job pending or running. */
  lemma LoopKeepsGap(v: View, a: Action, x: Id, v': View, schedule: Schedule, ticks: Ticks)
    requires Tracked(v) && Gap(v, schedule, ticks) && Next(v, a, x, v', ticks) && IsLoopStep(a)
    requires a.Tick? ==> v.due == v.active == 0
    ensures Gap(v', schedule, ticks)
  {
    hide NextRun;
  }

  lemma CallerKeepsGap(v: View, a: Action, x: Id, v': View, schedule: Schedule, ticks: Ticks)
    requires Tracked(v) && Gap(v, schedule, ticks) && Next(v, a, x, v', ticks) && !IsLoopStep(a)
    requires Monotone(schedule, ticks)
    ensures Gap(v', schedule, ticks)
  {
    if v.lastEnd.Some? && NextRun(schedule, v.clock, ticks).Some? {
      NextRunLater(schedule, v.lastEnd.value, v.clock, ticks);
    }
    hide NextRun;
  }

  lemma NextKeepsGap(v: View, a: Action, x: Id, v': View, schedule: Schedule, ticks: Ticks)
    requires Tracked(v) && Gap(v, schedule, ticks) && Next(v, a, x, v', ticks) && Monotone(schedule, ticks)
    requires a.Tick? ==> v.due == v.active == 0
    ensures Gap(v', schedule, ticks)
  {
    hide Next, Gap, Tracked;
    if IsLoopStep(a) {
      LoopKeepsGap(v, a, x, v', schedule, ticks);
    } else {
      CallerKeepsGap(v, a, x, v', schedule, ticks);
    }
  }

  /** The handler was never called for the job before a time. */
  predicate NeverBefore(log: seq<Event>, x: Id, time: int) {
    log == [] ||
    (var e := log[|log| - 1];
     NeverBefore(log[..|log| - 1], x, time) && (e.Began? && e.id == x ==> e.time >= time))
  }

  /** Every call of the handler for the job begins after the rest the schedule asks for. */
  predicate Spaced(log: seq<Event>, x: Id, schedule: Schedule, ticks: Ticks) {
    log == [] ||
    (var e, before := log[|log| - 1], log[..|log| - 1];
     Spaced(before, x, schedule, ticks) &&
     (e.Began? && e.id == x ==> Rested(before, x, e.time, schedule, ticks)))
  }

  /** If a call was over before, it is time for the run that the schedule gave then. */
  predicate Rested(log: seq<Event>, x: Id, time: int, schedule: Schedule, ticks: Ticks) {
    LastEnd(log, x).Some? ==> MayRun(schedule, LastEnd(log, x).value, time, ticks)
  }

  /** No handler call begins while another, for any job, is under way. */
  ghost predicate OneAtATime(log: seq<Event>) {
    log == [] ||
    (var e, before := log[|log| - 1], log[..|log| - 1];
     OneAtATime(before) && (e.Began? ==> NoneOpen(before)))
  }

  ghost predicate NoneOpen(log: seq<Event>) {
    forall x :: !IsOpen(log, x)
  }

  lemma CheckGrows(log: seq<Event>, e: Event, x: Id, time: int)
    ensures NeverBefore(log + [e], x, time) == (NeverBefore(log, x, time) && (e.Began? && e.id == x ==> e.time >= time))
  {
    assert (log + [e])[..|log|] == log;
  }

  lemma SpacedGrows(log: seq<Event>, e: Event, x: Id, schedule: Schedule, ticks: Ticks)
    ensures Spaced(log + [e], x, schedule, ticks) ==
      (Spaced(log, x, schedule, ticks) && (e.Began? && e.id == x ==> Rested(log, x, e.time, schedule, ticks)))
  {
    assert (log + [e])[..|log|] == log;
  }

  lemma OneAtATimeGrows(log: seq<Event>, e: Event)
    ensures OneAtATime(log + [e]) == (OneAtATime(log) && (e.Began? ==> NoneOpen(log)))
  {
    assert (log + [e])[..|log|] == log;
  }

  /** What a step logs, if it logs anything. */
  function EventOf(s: System, a: Action): Event {
    if a.Begin? then Began(a.id, s.clock) else if a.Finish? then Ended(a.id, s.clock) else Crashed(s.clock)
  }

  lemma LogAfter(s: System, a: Action, ticks: Ticks)
    ensures var t := Do(s, a, ticks);
      t.log == s.log || (t.log == s.log + [EventOf(s, a)] && (a.Begin? ==> s.due[a.id] >= 1))
  {
  }

  /** A call that is logged is not too early. */
  lemma LogNeverBefore(s: System, a: Action, x: Id, at: int, ticks: Ticks)
    requires OneShot(Look(s, x), at) && Look(s, x).schedule == Some(At(Some(at))) && NeverBefore(s.log, x, at)
    ensures NeverBefore(Do(s, a, ticks).log, x, at)
  {
    hide Do;
    LogAfter(s, a, ticks);
    CheckGrows(s.log, EventOf(s, a), x, at);
  }

  /** A job not known before has no calls. */
  lemma UnknownNeverBefore(s: System, a: Action, x: Id, time: int, ticks: Ticks)
    requires Tracked(Look(s, x)) && Look(s, x).schedule.None?
    ensures NeverBefore(Do(s, a, ticks).log, x, time)
  {
    hide Do;
    LogAfter(s, a, ticks);
    CheckGrows(s.log, EventOf(s, a), x, time);
    NothingBefore(s.log, x, time);
  }

  lemma UnknownSpaced(s: System, a: Action, x: Id, schedule: Schedule, ticks: Ticks)
    requires Tracked(Look(s, x)) && Look(s, x).schedule.None?
    ensures Spaced(Do(s, a, ticks).log, x, schedule, ticks)
  {
    hide Do;
    LogAfter(s, a, ticks);
    SpacedGrows(s.log, EventOf(s, a), x, schedule, ticks);
    NothingSpaced(s.log, x, schedule, ticks);
  }

  lemma SameSchedule(s: System, a: Action, x: Id, ticks: Ticks)
    ensures Look(s, x).schedule.Some? ==> Look(Do(s, a, ticks), x).schedule == Look(s, x).schedule
  {
  }

  lemma StepOneShot(s: System, a: Action, x: Id, at: int, ticks: Ticks)
    requires Tracked(Look(s, x)) && OneShot(Look(s, x), at)
    requires Look(s, x).schedule == Some(At(Some(at))) ==> NeverBefore(s.log, x, at)
    ensures var t := Do(s, a, ticks);
      && Tracked(Look(t, x)) && OneShot(Look(t, x), at)
      && (Look(t, x).schedule == Some(At(Some(at))) ==> NeverBefore(t.log, x, at))
  {
    hide Do, Look, Next, Tracked, OneShot;
    LookStep(s, a, x, ticks);
    NextKeepsTracked(Look(s, x), a, x, Look(Do(s, a, ticks), x), ticks);
    NextKeepsOneShot(Look(s, x), a, x, Look(Do(s, a, ticks), x), ticks, at);
    SameSchedule(s, a, x, ticks);
    if Look(s, x).schedule.None? {
      UnknownNeverBefore(s, a, x, at, ticks);
    } else if Look(s, x).schedule == Some(At(Some(at))) {
      LogNeverBefore(s, a, x, at, ticks);
    }
  }

  lemma {:induction false} NothingBefore(log: seq<Event>, x: Id, time: int)
    requires Begins(log, x) == 0
    ensures NeverBefore(log, x, time)
  {
    if log != [] {
      NothingBefore(log[..|log| - 1], x, time);
    }
  }

  lemma {:induction false} NothingSpaced(log: seq<Event>, x: Id, schedule: Schedule, ticks: Ticks)
    requires Begins(log, x) == 0
    ensures Spaced(log, x, schedule, ticks)
  {
    if log != [] {
      NothingSpaced(log[..|log| - 1], x, schedule, ticks);
    }
  }

  lemma InitialLook(disk: Table, clock: int, x: Id)
    ensures Tracked(Look(Initial(disk, clock), x))
  {
  }

  /**
   * In every run from any store, with any number of loops, failing saves, stops, restarts and
   * crashes: an `at` job is executed at most once, and never before its time.
   */
  lemma {:induction false} AtMostOnce(disk: Table, clock: int, schedule: seq<Action>, x: Id, at: int, ticks: Ticks)
    ensures var s := Run(Initial(disk, clock), schedule, ticks);
      && Tracked(Look(s, x)) && OneShot(Look(s, x), at)
      && (x in s.schedules && s.schedules[x] == At(Some(at)) ==> Begins(s.log, x) <= 1 && NeverBefore(s.log, x, at))
  {
    if schedule == [] {
      InitialLook(disk, clock, x);
    } else {
      var before := schedule[..|schedule| - 1];
      AtMostOnce(disk, clock, before, x, at, ticks);
      StepOneShot(Run(Initial(disk, clock), before, ticks), schedule[|schedule| - 1], x, at, ticks);
    }
  }
}
