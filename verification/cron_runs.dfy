/** That jobs do run: what is put on the schedule stays there until a check finds it due, and is then executed. */
module CronRuns {
  import opened Options
  import opened Cron
  import opened CronSafety

  /** The job is on the schedule for the time t. */
  predicate IsWaiting(s: System, x: Id, schedule: Schedule, t: int) {
    && x in s.jobs && x in s.schedules
    && s.jobs[x].enabled && s.jobs[x].schedule == schedule && s.jobs[x].nextRun == Some(t)
  }

  /** The step puts the job on the schedule: it is added, enabled, read at a start, or ran and recurs. */
  predicate Schedules(s: System, a: Action, x: Id, schedule: Schedule) {
    || (a.Add? && a.id == x && a.schedule == schedule && x !in s.schedules)
    || (a.Switch? && a.id == x && a.enabled && x in s.jobs && s.jobs[x].schedule == schedule)
    || (a.Start? && a.loaded && !s.running && x in s.disk && s.disk[x].enabled && s.disk[x].schedule == schedule)
    || (a.Finish? && a.id == x && x in s.active && x in s.jobs && s.jobs[x].enabled && s.jobs[x].schedule == schedule
        && !schedule.At?)
  }

  /** Steps that touch the job itself, apart from checks and the call of its handler. */
  predicate Touches(a: Action, x: Id) {
    || (a.Remove? && a.id == x) || (a.Switch? && a.id == x) || (a.Finish? && a.id == x) || a.Start? || a.Crash?
  }

  ghost predicate Untouched(more: seq<Action>, x: Id) {
    forall i | 0 <= i < |more| :: !Touches(more[i], x)
  }

  /** A check of a running service came at the time t or later. */
  predicate Checked(s: System, more: seq<Action>, t: int, ticks: Ticks) {
    more != [] &&
    var init, a := more[..|more| - 1], more[|more| - 1];
    Checked(s, init, t, ticks) || (a.Tick? && Run(s, init, ticks).running && Run(s, init, ticks).clock >= t)
  }

  /** Every job there is, in memory or on disk, is a known one. */
  ghost predicate AllKnown(s: System) {
    forall x | x in s.jobs || x in s.disk :: x in s.schedules
  }

  lemma {:induction false} KnownInRuns(disk: Table, clock: int, schedule: seq<Action>, ticks: Ticks)
    ensures AllKnown(Run(Initial(disk, clock), schedule, ticks))
  {
    var s := Run(Initial(disk, clock), schedule, ticks);
    forall x | x in s.jobs || x in s.disk ensures x in s.schedules {
      AtMostOnce(disk, clock, schedule, x, 0, ticks);
      assert Look(s, x).schedule.None? ==> Look(s, x).job.None? && Look(s, x).disk.None?;
    }
  }

  lemma PutOnSchedule(s: System, a: Action, x: Id, schedule: Schedule, t: int, ticks: Ticks)
    requires AllKnown(s) && Schedules(s, a, x, schedule) && FirstRun(schedule, s.clock, t, ticks)
    ensures IsWaiting(Do(s, a, ticks), x, schedule, t)
  {
    NextRunExactly(schedule, s.clock, ticks);
    hide NextRun, FirstRun;
  }

  predicate IsWaitingView(v: View, schedule: Schedule, t: int) {
    && v.schedule.Some? && v.job.Some?
    && v.job.value.enabled && v.job.value.schedule == schedule && v.job.value.nextRun == Some(t)
  }

  lemma NextKeepsWaiting(v: View, a: Action, x: Id, v': View, schedule: Schedule, t: int, ticks: Ticks)
    requires IsWaitingView(v, schedule, t) && Next(v, a, x, v', ticks) && !Touches(a, x)
    requires !(a.Tick? && v.running && v.clock >= t)
    ensures IsWaitingView(v', schedule, t)
  {
    hide NextRun;
  }

  lemma StaysWaiting(s: System, a: Action, x: Id, schedule: Schedule, t: int, ticks: Ticks)
    requires IsWaiting(s, x, schedule, t) && !Touches(a, x)
    requires !(a.Tick? && s.running && s.clock >= t)
    ensures IsWaiting(Do(s, a, ticks), x, schedule, t)
  {
    hide Do, Next, Touches;
    LookStep(s, a, x, ticks);
    NextKeepsWaiting(Look(s, x), a, x, Look(Do(s, a, ticks), x), schedule, t, ticks);
  }

  lemma {:induction false} Waits(s: System, more: seq<Action>, x: Id, schedule: Schedule, t: int, ticks: Ticks)
    requires IsWaiting(s, x, schedule, t) && Untouched(more, x) && !Checked(s, more, t, ticks)
    ensures IsWaiting(Run(s, more, ticks), x, schedule, t)
  {
    if more != [] {
      var init, a := more[..|more| - 1], more[|more| - 1];
      Waits(s, init, x, schedule, t, ticks);
      StaysWaiting(Run(s, init, ticks), a, x, schedule, t, ticks);
    }
  }

  lemma CheckTakes(s: System, x: Id, schedule: Schedule, t: int, saved: bool, ticks: Ticks)
    requires IsWaiting(s, x, schedule, t)
    ensures var u := Do(s, Tick(saved), ticks);
      && x in u.jobs
      && (s.running && s.clock >= t ==> u.due[x] == s.due[x] + 1 && u.jobs[x].nextRun.None?)
      && (!(s.running && s.clock >= t) ==> u.due[x] == s.due[x] && u.jobs[x] == s.jobs[x])
  {
    assert s.running && s.clock >= t ==> x in DueIds(s.jobs, s.clock);
  }

  /** A job that was collected and is still there has its handler called when a loop reaches it. */
  lemma Called(s: System, x: Id, ticks: Ticks)
    requires x in s.due && x in s.jobs
    ensures var u := Do(s, Begin(x), ticks);
      && u.log == s.log + [Began(x, s.clock)] && Begins(u.log, x) == Begins(s.log, x) + 1
      && x in u.active && u.due == s.due - multiset{x}
  {
    LogGrows(s.log, Began(x, s.clock), x);
  }

  /**
   * In every run: a job that is added, enabled, read at a start, or has run and recurs, is on the
   * schedule for exactly the time its schedule gives then: its own time, an interval later, or the
   * next tick. There it stays if nothing touches it, and the first check of a running service at
   * that time or later collects it.
   */
  lemma RunsWhenDue(disk: Table, clock: int, before: seq<Action>, a: Action, x: Id, schedule: Schedule, t: int,
      more: seq<Action>, saved: bool, ticks: Ticks)
    requires Schedules(Run(Initial(disk, clock), before, ticks), a, x, schedule)
    requires FirstRun(schedule, Run(Initial(disk, clock), before, ticks).clock, t, ticks)
    requires var s := Do(Run(Initial(disk, clock), before, ticks), a, ticks);
      Untouched(more, x) && !Checked(s, more, t, ticks)
    ensures var s := Run(Do(Run(Initial(disk, clock), before, ticks), a, ticks), more, ticks);
      && IsWaiting(s, x, schedule, t)
      && Do(s, Tick(saved), ticks).due[x] == s.due[x] + if s.running && s.clock >= t then 1 else 0
  {
    var s := Run(Initial(disk, clock), before, ticks);
    KnownInRuns(disk, clock, before, ticks);
    PutOnSchedule(s, a, x, schedule, t, ticks);
    Waits(Do(s, a, ticks), more, x, schedule, t, ticks);
    CheckTakes(Run(Do(s, a, ticks), more, ticks), x, schedule, t, saved, ticks);
  }

  /** Nothing enables, removes or reloads the job; its handler may be called and end. */
  predicate LeavesAlone(a: Action, x: Id) {
    !(a.Remove? && a.id == x) && !(a.Switch? && a.id == x) && !a.Start? && !a.Crash?
  }

  ghost predicate LeftAlone(more: seq<Action>, x: Id) {
    forall i | 0 <= i < |more| :: LeavesAlone(more[i], x)
  }

  /** How an `at` job stands: on the schedule until a check at its time, then collected, then called once. */
  ghost predicate AtStands(v: View, at: int, checked: bool) {
    && v.schedule == Some(At(Some(at))) && v.due + v.active <= 1
    && if !checked then
         && v.due + v.active + v.begins == 0 && v.job.Some? && v.job.value.enabled
         && v.job.value.schedule == At(Some(at)) && v.job.value.nextRun == Some(at)
       else
         && v.due + v.begins == 1
         && (v.job.Some? ==> v.job.value.nextRun.None? && v.job.value.schedule == At(Some(at)))
         && (v.due == 1 ==> v.job.Some? && v.active == 0)
  }

  lemma NextKeepsAt(v: View, a: Action, x: Id, v': View, at: int, checked: bool, ticks: Ticks)
    requires AtStands(v, at, checked) && Next(v, a, x, v', ticks) && LeavesAlone(a, x)
    ensures AtStands(v', at, checked || (a.Tick? && v.running && v.clock >= at))
  {
    hide NextRun;
  }

  lemma {:induction false} AtStandsInRuns(s: System, more: seq<Action>, x: Id, at: int, ticks: Ticks)
    requires AtStands(Look(s, x), at, false) && LeftAlone(more, x)
    ensures AtStands(Look(Run(s, more, ticks), x), at, Checked(s, more, at, ticks))
  {
    if more != [] {
      hide Do, Next, AtStands;
      var init, a := more[..|more| - 1], more[|more| - 1];
      AtStandsInRuns(s, init, x, at, ticks);
      LookStep(Run(s, init, ticks), a, x, ticks);
      assert LeavesAlone(more[|more| - 1], x);
      NextKeepsAt(Look(Run(s, init, ticks), x), a, x, Look(Run(s, more, ticks), x), at, Checked(s, init, at, ticks),
        ticks);
    }
  }

  /**
   * In every run an `at` job added before its time and left alone is collected or called exactly
   * once if a running service made a check at its time or later, and not at all if not; and once it
   * is collected the next loop to reach it calls its handler.
   */
  lemma AtRunsOnce(disk: Table, clock: int, before: seq<Action>, x: Id, at: int, stored: bool, more: seq<Action>,
      ticks: Ticks)
    requires var s := Run(Initial(disk, clock), before, ticks); x !in s.schedules && s.clock < at
    requires LeftAlone(more, x)
    ensures var s := Do(Run(Initial(disk, clock), before, ticks), Add(x, At(Some(at)), stored), ticks);
      var t := Run(s, more, ticks);
      && t.due[x] + Begins(t.log, x) == (if Checked(s, more, at, ticks) then 1 else 0)
      && (t.due[x] == 1 ==> Begins(Do(t, Begin(x), ticks).log, x) == 1)
      && (Checked(s, more, at, ticks) && t.due[x] == 0 ==> Begins(t.log, x) == 1)
  {
    var r := Run(Initial(disk, clock), before, ticks);
    AtMostOnce(disk, clock, before, x, at, ticks);
    NextRunExactly(At(Some(at)), r.clock, ticks);
    var s := Do(r, Add(x, At(Some(at)), stored), ticks);
    AtStandsInRuns(s, more, x, at, ticks);
    var t := Run(s, more, ticks);
    if t.due[x] == 1 {
      Called(t, x, ticks);
    }
  }

  /** The job is known, but neither in memory nor on disk. */
  predicate IsGone(s: System, x: Id) {
    x in s.schedules && x !in s.jobs && x !in s.disk
  }

  lemma StaysGone(s: System, a: Action, x: Id, ticks: Ticks)
    requires IsGone(s, x)
    ensures IsGone(Do(s, a, ticks), x) && Begins(Do(s, a, ticks).log, x) == Begins(s.log, x)
  {
    hide Do, Begins;
    LookStep(s, a, x, ticks);
  }

  /** A job that was removed, and the removal saved, is never executed again, whatever happens. */
  lemma {:induction false} RemovedNeverRuns(s: System, x: Id, more: seq<Action>, ticks: Ticks)
    requires AllKnown(s) && x in s.jobs
    ensures var t := Run(Do(s, Remove(x, true), ticks), more, ticks);
      IsGone(t, x) && Begins(t.log, x) == Begins(s.log, x)
  {
    if more != [] {
      RemovedNeverRuns(s, x, more[..|more| - 1], ticks);
      StaysGone(Run(Do(s, Remove(x, true), ticks), more[..|more| - 1], ticks), more[|more| - 1], x, ticks);
    }
  }

  predicate IsOff(v: View) {
    v.job.Some? ==> !v.job.value.enabled
  }

  lemma StaysOff(v: View, a: Action, x: Id, v': View, ticks: Ticks)
    requires IsOff(v) && v.schedule.Some? && Next(v, a, x, v', ticks) && LeavesAlone(a, x)
    ensures IsOff(v') && v'.schedule.Some? && v'.due <= v.due
  {
    hide NextRun;
  }

  /** A job that was disabled is not collected until it is enabled again or the service is started anew. */
  lemma {:induction false} DisabledNeverDue(s: System, x: Id, saved: bool, more: seq<Action>, ticks: Ticks)
    requires AllKnown(s) && x in s.jobs && LeftAlone(more, x)
    ensures var t := Run(Do(s, Switch(x, false, saved), ticks), more, ticks);
      IsOff(Look(t, x)) && x in t.schedules && t.due[x] <= s.due[x]
  {
    var off := Do(s, Switch(x, false, saved), ticks);
    if more != [] {
      var init, a := more[..|more| - 1], more[|more| - 1];
      DisabledNeverDue(s, x, saved, init, ticks);
      var t := Run(off, init, ticks);
      assert LeavesAlone(more[|more| - 1], x);
      LookStep(t, a, x, ticks);
      hide Do, Next, IsOff;
      StaysOff(Look(t, x), a, x, Look(Do(t, a, ticks), x), ticks);
    }
  }

  /** Both copies of the job are enabled and have the schedule. */
  predicate IsKept(s: System, x: Id, schedule: Schedule) {
    && x in s.schedules && x in s.jobs && s.jobs[x].enabled && s.jobs[x].schedule == schedule
    && x in s.disk && s.disk[x].enabled && s.disk[x].schedule == schedule
  }

  /** Nothing removes, switches or records a run of the job, and no start fails to read the file. */
  predicate Keeps(a: Action, x: Id) {
    !((a.Remove? || a.Switch? || a.Finish?) && a.id == x) && !(a.Start? && !a.loaded)
  }

  predicate IsKeptView(v: View, schedule: Schedule) {
    && v.schedule.Some? && v.job.Some? && v.job.value.enabled && v.job.value.schedule == schedule
    && v.disk.Some? && v.disk.value.enabled && v.disk.value.schedule == schedule
  }

  lemma NextKeepsKept(v: View, a: Action, x: Id, v': View, schedule: Schedule, ticks: Ticks)
    requires IsKeptView(v, schedule) && Next(v, a, x, v', ticks) && Keeps(a, x)
    ensures IsKeptView(v', schedule)
  {
    hide NextRun;
  }

  lemma StaysKept(s: System, a: Action, x: Id, schedule: Schedule, ticks: Ticks)
    requires IsKept(s, x, schedule) && Keeps(a, x)
    ensures IsKept(Do(s, a, ticks), x, schedule)
  {
    hide Do, Next, Keeps;
    LookStep(s, a, x, ticks);
    NextKeepsKept(Look(s, x), a, x, Look(Do(s, a, ticks), x), schedule, ticks);
  }

  /** A job whose addition was saved is there, in memory and on disk, after any crashes and starts. */
  lemma {:induction false} SavedSurvives(s: System, x: Id, schedule: Schedule, more: seq<Action>, ticks: Ticks)
    requires x !in s.schedules && forall i | 0 <= i < |more| :: Keeps(more[i], x)
    ensures IsKept(Run(Do(s, Add(x, schedule, true), ticks), more, ticks), x, schedule)
  {
    if more != [] {
      SavedSurvives(s, x, schedule, more[..|more| - 1], ticks);
      StaysKept(Run(Do(s, Add(x, schedule, true), ticks), more[..|more| - 1], ticks), more[|more| - 1], x, schedule,
        ticks);
    }
  }

  /** The step writes the file. */
  predicate Saves(a: Action) {
    match a
    case Tick(saved) => saved
    case Finish(_, _, _, saved) => saved
    case Add(_, _, saved) => saved
    case Remove(_, saved) => saved
    case Switch(_, _, saved) => saved
    case Start(_, saved) => saved
    case _ => false
  }

  /** Recording a run, unsaved. */
  lemma RecordUnsaved(s: System, id: Id, started: int, failed: bool, ticks: Ticks)
    ensures Do(s, Finish(id, started, failed, false), ticks).disk == s.disk
  {
    hide ExecuteOne;
  }

  lemma EditUnsaved(s: System, id: Id, schedule: Schedule, enabled: bool, ticks: Ticks)
    ensures Do(s, Add(id, schedule, false), ticks).disk == s.disk
    ensures Do(s, Remove(id, false), ticks).disk == s.disk
    ensures Do(s, Switch(id, enabled, false), ticks).disk == s.disk
  {
    hide Added, SwitchOne;
  }

  lemma CheckUnsaved(s: System, ticks: Ticks)
    ensures Do(s, Tick(false), ticks).disk == s.disk
  {
    hide CollectAll, DueIds;
  }

  lemma StartUnsaved(s: System, loaded: bool, ticks: Ticks)
    ensures Do(s, Start(loaded, false), ticks).disk == s.disk
  {
    hide RecomputeAll;
  }

  lemma OthersUnsaved(s: System, a: Action, ticks: Ticks)
    requires a.Pass? || a.Stop? || a.Crash?
    ensures Do(s, a, ticks).disk == s.disk
  {
  }

  lemma BeginUnsaved(s: System, id: Id, ticks: Ticks)
    ensures Do(s, Begin(id), ticks).disk == s.disk
  {
  }

  lemma DiskStays(s: System, a: Action, ticks: Ticks)
    requires !Saves(a)
    ensures Do(s, a, ticks).disk == s.disk
  {
    hide Do;
    match a
    case Tick(_) => CheckUnsaved(s, ticks);
    case Finish(id, started, failed, _) => RecordUnsaved(s, id, started, failed, ticks);
    case Add(id, schedule, _) => EditUnsaved(s, id, schedule, true, ticks);
    case Remove(id, _) => EditUnsaved(s, id, UnknownKind, true, ticks);
    case Switch(id, enabled, _) => EditUnsaved(s, id, UnknownKind, enabled, ticks);
    case Start(loaded, _) => StartUnsaved(s, loaded, ticks);
    case Begin(id) => BeginUnsaved(s, id, ticks);
    case _ => OthersUnsaved(s, a, ticks);
  }

  lemma CrashStep(s: System, ticks: Ticks)
    ensures var t := Do(s, Crash, ticks); t.jobs == s.disk && !t.running && t.due == t.active == multiset{}
  {
  }

  /** A crash brings back exactly the jobs of the last save that worked. */
  lemma {:induction false} CrashReverts(s: System, more: seq<Action>, ticks: Ticks)
    requires forall i | 0 <= i < |more| :: !Saves(more[i])
    ensures Run(s, more, ticks).disk == s.disk
    ensures var t := Do(Run(s, more, ticks), Crash, ticks);
      t.jobs == s.disk && !t.running && t.due == t.active == multiset{}
  {
    CrashStep(Run(s, more, ticks), ticks);
    if more != [] {
      hide Do, Saves;
      CrashReverts(s, more[..|more| - 1], ticks);
      DiskStays(Run(s, more[..|more| - 1], ticks), more[|more| - 1], ticks);
    }
  }
}
