/**
 * The run loops of the scheduler: each Start makes one, Stop closes its channel, and it leaves when
 * it next looks at the channel. How far apart executions are, and why two loops break that.
 */
module CronLoops {
  import opened Options
  import opened Cron
  import opened CronSafety

  /** A loop: the jobs it collected and has not reached, the one whose handler it runs, and its channel. */
  datatype Loop = Loop(batch: multiset<Id>, handling: Option<Id>, closed: bool)

  predicate Idle(l: Loop) {
    l.batch == multiset{} && l.handling.None?
  }

  datatype Service = Service(core: System, loops: seq<Loop>)

  datatype Event = Outside(a: Action) | StartUp(loaded: bool, saved: bool) | ShutDown | Die
                 | Check(i: nat, saved: bool) | Call(i: nat, id: Id)
                 | Done(i: nat, started: int, failed: bool, saved: bool)
                 | Leave(i: nat)

  /** What callers do to the job table, and time. */
  predicate IsOutside(a: Action) {
    a.Pass? || a.Add? || a.Remove? || a.Switch?
  }

  function Collects(s: System): multiset<Id> {
    if s.running then multiset(DueIds(s.jobs, s.clock)) else multiset{}
  }

  /** One step of the service; a step that is not possible changes nothing. */
  function Step(s: Service, e: Event, ticks: Ticks): Service {
    match e
    case Outside(a) =>
      if IsOutside(a) then s.(core := Do(s.core, a, ticks)) else s
    case StartUp(loaded, saved) =>
      var core := Do(s.core, Start(loaded, saved), ticks);
      Service(core, if core.running && !s.core.running then s.loops + [Loop(multiset{}, None, false)] else s.loops)
    case ShutDown =>
      Service(Do(s.core, Stop, ticks), seq(|s.loops|, i requires 0 <= i < |s.loops| => s.loops[i].(closed := true)))
    case Die =>
      Service(Do(s.core, Crash, ticks), [])
    case Check(i, saved) =>
      if i >= |s.loops| || !Idle(s.loops[i]) then s
      else Service(Do(s.core, Tick(saved), ticks), s.loops[i := s.loops[i].(batch := Collects(s.core))])
    case Call(i, id) =>
      if i >= |s.loops| || s.loops[i].handling.Some? || id !in s.loops[i].batch then s
      else
        var l := s.loops[i].(batch := s.loops[i].batch - multiset{id});
        Service(Do(s.core, Begin(id), ticks), s.loops[i := if id in s.core.jobs then l.(handling := Some(id)) else l])
    case Done(i, started, failed, saved) =>
      if i >= |s.loops| || s.loops[i].handling.None? then s
      else
        Service(Do(s.core, Finish(s.loops[i].handling.value, started, failed, saved), ticks),
                s.loops[i := s.loops[i].(handling := None)])
    case Leave(i) =>
      if i >= |s.loops| || !Idle(s.loops[i]) || !s.loops[i].closed then s
      else s.(loops := s.loops[..i] + s.loops[i + 1..])
  }

  function Serve(s: Service, events: seq<Event>, ticks: Ticks): Service {
    if events == [] then s
    else Step(Serve(s, events[..|events| - 1], ticks), events[|events| - 1], ticks)
  }

  function Fresh(disk: Table, clock: int): Service {
    Service(Initial(disk, clock), [])
  }

  /** Every Start comes when no loop is left. */
  ghost predicate FreshStarts(s: Service, events: seq<Event>, ticks: Ticks) {
    forall i | 0 <= i < |events| && events[i].StartUp? :: NoLoopsAt(s, events, i, ticks)
  }

  predicate NoLoopsAt(s: Service, events: seq<Event>, i: nat, ticks: Ticks)
    requires i <= |events|
  {
    Serve(s, events[..i], ticks).loops == []
  }

  function HandledBy(l: Loop): multiset<Id> {
    if l.handling.None? then multiset{} else multiset{l.handling.value}
  }

  /** With one loop at most, the jobs collected and handled are those of that loop. */
  ghost predicate OneLoop(s: Service) {
    && |s.loops| <= 1
    && s.core.due == (if s.loops == [] then multiset{} else s.loops[0].batch)
    && s.core.active == (if s.loops == [] then multiset{} else HandledBy(s.loops[0]))
  }

  /** The step of the core that a step of the service makes, if it makes one. */
  function CoreStep(s: Service, e: Event): Action {
    match e
    case Outside(a) => a
    case StartUp(loaded, saved) => Start(loaded, saved)
    case ShutDown => Stop
    case Die => Crash
    case Check(_, saved) => Tick(saved)
    case Call(_, id) => Begin(id)
    case Done(i, started, failed, saved) =>
      var id := if i < |s.loops| && s.loops[i].handling.Some? then s.loops[i].handling.value else "";
      Finish(id, started, failed, saved)
    case Leave(_) => Stop
  }

  /** What the steps of the core do to the jobs collected and handled. */
  lemma Counts(s: System, a: Action, ticks: Ticks)
    ensures IsOutside(a) || a.Start? || a.Stop? ==> Do(s, a, ticks).due == s.due && Do(s, a, ticks).active == s.active
    ensures a.Tick? ==> Do(s, a, ticks).due == s.due + Collects(s) && Do(s, a, ticks).active == s.active
    ensures a.Crash? ==> Do(s, a, ticks).due == multiset{} && Do(s, a, ticks).active == multiset{}
  {
    hide CollectAll, RecomputeAll, SwitchOne, Added;
  }

  lemma HandlerCounts(s: System, a: Action, ticks: Ticks)
    requires (a.Begin? && a.id in s.due) || (a.Finish? && a.id in s.active)
    ensures a.Begin? ==> Do(s, a, ticks).due == s.due - multiset{a.id}
    ensures a.Begin? ==> Do(s, a, ticks).active == if a.id in s.jobs then s.active + multiset{a.id} else s.active
    ensures a.Finish? ==> Do(s, a, ticks).due == s.due && Do(s, a, ticks).active == s.active - multiset{a.id}
  {
  }

  lemma CheckKeepsOneLoop(s: Service, i: nat, saved: bool, ticks: Ticks)
    requires OneLoop(s)
    ensures OneLoop(Step(s, Check(i, saved), ticks))
  {
    hide Do, Collects;
    if i < |s.loops| && Idle(s.loops[i]) {
      assert i == 0;
      Counts(s.core, Tick(saved), ticks);
    }
  }

  lemma CallKeepsOneLoop(s: Service, i: nat, id: Id, ticks: Ticks)
    requires OneLoop(s)
    ensures OneLoop(Step(s, Call(i, id), ticks))
  {
    hide Do;
    if i < |s.loops| && id in s.loops[i].batch {
      HandlerCounts(s.core, Begin(id), ticks);
    }
  }

  lemma DoneKeepsOneLoop(s: Service, e: Event, ticks: Ticks)
    requires OneLoop(s) && e.Done?
    ensures OneLoop(Step(s, e, ticks))
  {
    hide Do;
    if e.i < |s.loops| && s.loops[e.i].handling.Some? {
      HandlerCounts(s.core, CoreStep(s, e), ticks);
    }
  }

  lemma OtherKeepsOneLoop(s: Service, e: Event, ticks: Ticks)
    requires OneLoop(s) && (e.StartUp? ==> s.loops == []) && !e.Check? && !e.Call? && !e.Done?
    ensures OneLoop(Step(s, e, ticks))
  {
    hide Do;
    Counts(s.core, CoreStep(s, e), ticks);
  }

  lemma StepKeepsOneLoop(s: Service, e: Event, ticks: Ticks)
    requires OneLoop(s) && (e.StartUp? ==> s.loops == [])
    ensures OneLoop(Step(s, e, ticks))
  {
    match e
    case Check(i, saved) => CheckKeepsOneLoop(s, i, saved, ticks);
    case Call(i, id) => CallKeepsOneLoop(s, i, id, ticks);
    case Done(_, _, _, _) => DoneKeepsOneLoop(s, e, ticks);
    case _ => OtherKeepsOneLoop(s, e, ticks);
  }

  /** No job is collected or handled when one is collected, or handled when one is called. */
  predicate OneByOne(s: System, a: Action) {
    && (a.Tick? ==> s.due == multiset{} && s.active == multiset{})
    && (a.Begin? ==> s.active == multiset{})
  }

  lemma CoreSteps(s: Service, e: Event, ticks: Ticks)
    ensures Step(s, e, ticks).core == s.core || Step(s, e, ticks).core == Do(s.core, CoreStep(s, e), ticks)
    ensures OneLoop(s) && Step(s, e, ticks).core != s.core ==> OneByOne(s.core, CoreStep(s, e))
  {
    hide Do, Collects;
  }

  /** Whatever the loops do is a run of the core machine, in which any number of loops may take jobs in any order. */
  lemma {:induction false} LoopsRefine(disk: Table, clock: int, events: seq<Event>, ticks: Ticks)
    returns (schedule: seq<Action>)
    ensures Serve(Fresh(disk, clock), events, ticks).core == Run(Initial(disk, clock), schedule, ticks)
  {
    if events == [] {
      schedule := [];
    } else {
      var s := Serve(Fresh(disk, clock), events[..|events| - 1], ticks);
      var e := events[|events| - 1];
      var before := LoopsRefine(disk, clock, events[..|events| - 1], ticks);
      CoreSteps(s, e, ticks);
      assert (before + [CoreStep(s, e)])[..|before|] == before;
      schedule := if Step(s, e, ticks).core == s.core then before else before + [CoreStep(s, e)];
    }
  }

  ghost predicate GapKept(s: System, x: Id, schedule: Schedule, ticks: Ticks) {
    && Tracked(Look(s, x)) && Gap(Look(s, x), schedule, ticks)
    && (Look(s, x).schedule == Some(schedule) ==> Spaced(s.log, x, schedule, ticks))
  }

  /** A call that is logged comes after a rest. */
  lemma LogSpaced(s: System, a: Action, x: Id, schedule: Schedule, ticks: Ticks)
    requires GapKept(s, x, schedule, ticks) && Look(s, x).schedule == Some(schedule)
    ensures Spaced(Do(s, a, ticks).log, x, schedule, ticks)
  {
    hide Do, MayRun;
    LogAfter(s, a, ticks);
    SpacedGrows(s.log, EventOf(s, a), x, schedule, ticks);
  }

  lemma StepGap(s: System, a: Action, x: Id, schedule: Schedule, ticks: Ticks)
    requires GapKept(s, x, schedule, ticks) && Monotone(schedule, ticks) && OneByOne(s, a)
    ensures GapKept(Do(s, a, ticks), x, schedule, ticks)
  {
    hide Do, Next, Tracked, Gap, Monotone;
    LookStep(s, a, x, ticks);
    NextKeepsTracked(Look(s, x), a, x, Look(Do(s, a, ticks), x), ticks);
    NextKeepsGap(Look(s, x), a, x, Look(Do(s, a, ticks), x), schedule, ticks);
    SameSchedule(s, a, x, ticks);
    if Look(s, x).schedule.None? {
      UnknownSpaced(s, a, x, schedule, ticks);
    } else if Look(s, x).schedule == Some(schedule) {
      LogSpaced(s, a, x, schedule, ticks);
    }
  }

  /** A job whose handler call is under way in the log has it running, and calls never overlap. */
  ghost predicate NoOverlap(s: System) {
    OneAtATime(s.log) && forall x :: OpenIsActive(s, x)
  }

  predicate OpenIsActive(s: System, x: Id) {
    IsOpen(s.log, x) ==> x in s.active
  }

  lemma StepOpen(s: System, a: Action, x: Id, ticks: Ticks)
    requires OpenIsActive(s, x)
    ensures OpenIsActive(Do(s, a, ticks), x)
  {
    hide Do;
    LookStep(s, a, x, ticks);
  }

  lemma StepNoOverlap(s: System, a: Action, ticks: Ticks)
    requires NoOverlap(s) && OneByOne(s, a)
    ensures NoOverlap(Do(s, a, ticks))
  {
    hide Do;
    forall x ensures OpenIsActive(Do(s, a, ticks), x) {
      StepOpen(s, a, x, ticks);
    }
    LogAfter(s, a, ticks);
    OneAtATimeGrows(s.log, EventOf(s, a));
    if a.Begin? {
      forall x ensures !IsOpen(s.log, x) {
        assert OpenIsActive(s, x) && x !in s.active;
      }
    }
  }

  lemma FreshBefore(s: Service, events: seq<Event>, ticks: Ticks)
    requires FreshStarts(s, events, ticks) && events != []
    ensures FreshStarts(s, events[..|events| - 1], ticks)
  {
    var init := events[..|events| - 1];
    forall i | 0 <= i < |init| && init[i].StartUp? ensures NoLoopsAt(s, init, i, ticks) {
      assert init[..i] == events[..i];
      assert events[i].StartUp? && NoLoopsAt(s, events, i, ticks);
    }
  }

  /** What one loop keeps true of the core, for one job. */
  ghost predicate Kept(s: System, x: Id, schedule: Schedule, ticks: Ticks) {
    GapKept(s, x, schedule, ticks) && NoOverlap(s)
  }

  lemma {:induction false} GapsKeptFrom(s: Service, events: seq<Event>, x: Id, schedule: Schedule, ticks: Ticks)
    requires OneLoop(s) && Kept(s.core, x, schedule, ticks)
    requires FreshStarts(s, events, ticks) && Monotone(schedule, ticks)
    ensures OneLoop(Serve(s, events, ticks)) && Kept(Serve(s, events, ticks).core, x, schedule, ticks)
  {
    hide GapKept, NoOverlap, Monotone, OneLoop, OneByOne;
    if events != [] {
      var k := |events| - 1;
      FreshBefore(s, events, ticks);
      GapsKeptFrom(s, events[..k], x, schedule, ticks);
      var t := Serve(s, events[..k], ticks);
      assert events[k].StartUp? ==> NoLoopsAt(s, events, k, ticks);
      StepKeepsOneLoop(t, events[k], ticks);
      CoreSteps(t, events[k], ticks);
      if Step(t, events[k], ticks).core != t.core {
        StepGap(t.core, CoreStep(t, events[k]), x, schedule, ticks);
        StepNoOverlap(t.core, CoreStep(t, events[k]), ticks);
      }
    }
  }

  /**
   * In every run in which each Start comes when no loop is left, whatever is added, removed,
   * enabled or disabled meanwhile and however often the process crashes: no execution of any job
   * begins while another is under way, and each execution of a job begins at the earliest at the
   * run its schedule gives when asked at the end of the previous one: for an `every` job its
   * interval after that, for a cron expression at the next tick.
   */
  lemma GapsKept(disk: Table, clock: int, events: seq<Event>, x: Id, schedule: Schedule, ticks: Ticks)
    requires FreshStarts(Fresh(disk, clock), events, ticks) && Monotone(schedule, ticks)
    ensures var s := Serve(Fresh(disk, clock), events, ticks).core;
      && OneAtATime(s.log)
      && (x in s.schedules && s.schedules[x] == schedule ==> Spaced(s.log, x, schedule, ticks))
  {
    InitialLook(disk, clock, x);
    GapsKeptFrom(Fresh(disk, clock), events, x, schedule, ticks);
  }

  lemma {:induction false} ServeMore(s: Service, a: seq<Event>, b: seq<Event>, ticks: Ticks)
    ensures Serve(s, a + b, ticks) == Serve(Serve(s, a, ticks), b, ticks)
  {
    if b == [] {
      assert a + b == a;
    } else {
      assert (a + b)[..|a + b| - 1] == a + b[..|b| - 1];
      ServeMore(s, a, b[..|b| - 1], ticks);
    }
  }

  lemma ServeOne(s: Service, e: Event, ticks: Ticks)
    ensures Serve(s, [e], ticks) == Step(s, e, ticks)
  {
    assert [e][..0] == [];
  }

  /** What stays of a stopped service while its old loop finishes. */
  ghost predicate SameStore(s: Service, t: Service) {
    && t.core.disk == s.core.disk && !t.core.running && |t.loops| == |s.loops|
    && forall i | 0 <= i < |s.loops| :: t.loops[i].closed == s.loops[i].closed
  }

  lemma BeginSameStore(s: System, id: Id, ticks: Ticks)
    ensures Do(s, Begin(id), ticks).disk == s.disk && Do(s, Begin(id), ticks).running == s.running
  {
  }

  lemma FinishSameStore(s: System, id: Id, started: int, failed: bool, ticks: Ticks)
    ensures var t := Do(s, Finish(id, started, failed, false), ticks);
      t.disk == s.disk && t.running == s.running
  {
    hide ExecuteOne;
  }

  function Unfinished(l: Loop): nat {
    2 * |l.batch| + if l.handling.Some? then 1 else 0
  }

  lemma OldLoopStep(s: Service, e: Event, ticks: Ticks)
    requires !s.core.running && s.loops != []
    requires if e.Call? then e.i == 0 && s.loops[0].handling.None? && e.id in s.loops[0].batch
             else e.Done? && e.i == 0 && !e.saved && s.loops[0].handling.Some?
    ensures SameStore(s, Step(s, e, ticks)) && Unfinished(Step(s, e, ticks).loops[0]) < Unfinished(s.loops[0])
  {
    hide Do;
    match e
    case Call(_, id) => BeginSameStore(s.core, id, ticks);
    case Done(_, started, failed, _) =>
      FinishSameStore(s.core, s.loops[0].handling.value, started, failed, ticks);
  }

  /** An old loop can always finish what it collected. */
  lemma {:induction false} OldLoopFinishes(s: Service, ticks: Ticks) returns (events: seq<Event>)
    requires !s.core.running && s.loops != []
    ensures SameStore(s, Serve(s, events, ticks)) && Idle(Serve(s, events, ticks).loops[0])
    ensures forall i | 0 <= i < |events| :: events[i].Call? || events[i].Done?
    decreases Unfinished(s.loops[0])
  {
    hide Step;
    var l := s.loops[0];
    if Idle(l) {
      events := [];
    } else {
      var e := Done(0, 0, false, false);
      if l.handling.None? {
        var id :| id in l.batch;
        e := Call(0, id);
      }
      OldLoopStep(s, e, ticks);
      var rest := OldLoopFinishes(Step(s, e, ticks), ticks);
      ServeOne(s, e, ticks);
      ServeMore(s, [e], rest, ticks);
      events := [e] + rest;
    }
  }

  ghost predicate AllClosed(s: Service) {
    forall i | 0 <= i < |s.loops| :: s.loops[i].closed
  }

  lemma LeaveStep(s: Service, ticks: Ticks)
    requires !s.core.running && s.loops != [] && Idle(s.loops[0]) && AllClosed(s)
    ensures var t := Step(s, Leave(0), ticks); t.core == s.core && |t.loops| == |s.loops| - 1 && AllClosed(t)
  {
  }

  /** The loops of a stopped service can all finish what they collected, and then leave. */
  lemma {:induction false} LoopsLeave(s: Service, ticks: Ticks) returns (events: seq<Event>)
    requires !s.core.running && AllClosed(s)
    ensures Serve(s, events, ticks).loops == [] && !Serve(s, events, ticks).core.running
    ensures forall i | 0 <= i < |events| :: events[i].Call? || events[i].Done? || events[i].Leave?
    decreases |s.loops|
  {
    if s.loops == [] {
      events := [];
    } else {
      hide Step;
      var first := OldLoopFinishes(s, ticks);
      var t := Serve(s, first, ticks);
      LeaveStep(t, ticks);
      ServeOne(t, Leave(0), ticks);
      ServeMore(s, first, [Leave(0)], ticks);
      var rest := LoopsLeave(Step(t, Leave(0), ticks), ticks);
      ServeMore(s, first + [Leave(0)], rest, ticks);
      events := first + [Leave(0)] + rest;
    }
  }

  /** So whenever the service is stopped, it can come to where it is safe to start it again. */
  lemma StopCanFinish(s: Service, ticks: Ticks) returns (events: seq<Event>)
    ensures Serve(s, [ShutDown] + events, ticks).loops == [] && Serve(s, [Die], ticks).loops == []
  {
    ServeOne(s, Die, ticks);
    var t := Step(s, ShutDown, ticks);
    events := LoopsLeave(t, ticks);
    ServeOne(s, ShutDown, ticks);
    ServeMore(s, [ShutDown], events, ticks);
  }

  /** The job is on the schedule for a time, and the loop is free to take it. */
  ghost predicate Waiting(s: Service, x: Id, at: int, every: int) {
    && s.core.running && x in s.core.jobs
    && s.core.jobs[x].enabled && s.core.jobs[x].schedule == Every(Some(every)) && s.core.jobs[x].nextRun == Some(at)
  }

  ghost predicate FreeLoop(s: Service, i: nat) {
    i < |s.loops| && Idle(s.loops[i])
  }

  lemma {:induction false} CheckCollects(s: Service, i: nat, x: Id, at: int, every: int, ticks: Ticks)
    requires Waiting(s, x, at, every) && FreeLoop(s, i) && s.core.clock >= at
    ensures var t := Step(s, Check(i, true), ticks);
      && t.core.running && t.core.clock == s.core.clock && t.core.log == s.core.log && x in t.core.due
      && x in t.core.jobs && t.core.jobs[x] == s.core.jobs[x].(nextRun := None)
      && |t.loops| == |s.loops| && x in t.loops[i].batch && t.loops[i].handling.None?
      && forall j | 0 <= j < |s.loops| && j != i :: t.loops[j] == s.loops[j]
  {
    assert x in DueIds(s.core.jobs, s.core.clock);
  }

  lemma CallBegins(s: Service, i: nat, x: Id, ticks: Ticks)
    requires i < |s.loops| && x in s.loops[i].batch && s.loops[i].handling.None? && x in s.core.due && x in s.core.jobs
    ensures var t := Step(s, Call(i, x), ticks);
      && t.core.running == s.core.running && t.core.clock == s.core.clock && t.core.jobs == s.core.jobs
      && t.core.log == s.core.log + [Began(x, s.core.clock)]
      && |t.loops| == |s.loops|
      && forall j | 0 <= j < |s.loops| && j != i :: t.loops[j] == s.loops[j]
  {
  }

  /** A free loop takes a job that is due: the handler is called now. */
  lemma LoopTakes(s: Service, i: nat, x: Id, at: int, every: int, ticks: Ticks)
    requires Waiting(s, x, at, every) && FreeLoop(s, i) && s.core.clock >= at
    ensures var t := Step(Step(s, Check(i, true), ticks), Call(i, x), ticks);
      && t.core.running && t.core.clock == s.core.clock && t.core.log == s.core.log + [Began(x, s.core.clock)]
      && x in t.core.jobs && t.core.jobs[x] == s.core.jobs[x].(nextRun := None)
      && |t.loops| == |s.loops| && forall j | 0 <= j < |s.loops| && j != i :: t.loops[j] == s.loops[j]
  {
    hide Step, Waiting;
    CheckCollects(s, i, x, at, every, ticks);
    CallBegins(Step(s, Check(i, true), ticks), i, x, ticks);
  }

  lemma StartSchedules(s: Service, x: Id, every: int, ticks: Ticks)
    requires !s.core.running && every > 0 && x in s.core.disk
    requires s.core.disk[x].enabled && s.core.disk[x].schedule == Every(Some(every))
    ensures var t := Step(s, StartUp(true, true), ticks);
      && Waiting(t, x, s.core.clock + every, every) && t.core.clock == s.core.clock
      && t.loops == s.loops + [Loop(multiset{}, None, false)]
  {
  }

  lemma PassWaits(s: Service, x: Id, at: int, every: int, time: int, ticks: Ticks)
    requires Waiting(s, x, at, every) && time >= s.core.clock
    ensures var t := Step(s, Outside(Pass(time)), ticks);
      Waiting(t, x, at, every) && t.core.clock == time && t.core.log == s.core.log && t.loops == s.loops
  {
  }

  /** Enabling a job whose handler is running puts it back on the schedule. */
  lemma SwitchSchedules(s: Service, x: Id, every: int, ticks: Ticks)
    requires s.core.running && x in s.core.jobs && s.core.jobs[x].schedule == Every(Some(every)) && every > 0
    ensures var t := Step(s, Outside(Switch(x, true, true)), ticks);
      && Waiting(t, x, s.core.clock + every, every) && t.core.clock == s.core.clock
      && t.core.log == s.core.log && t.loops == s.loops
  {
  }

  /** A handler call for the job began while one was under way. */
  ghost predicate Overlap(log: seq<Cron.Event>, x: Id) {
    exists i :: 0 <= i < |log| && log[i].Began? && log[i].id == x && IsOpen(log[..i], x)
  }

  lemma {:induction false} OverlapIsTwo(log: seq<Cron.Event>, x: Id)
    requires Overlap(log, x)
    ensures !OneAtATime(log)
  {
    var i :| 0 <= i < |log| && log[i].Began? && log[i].id == x && IsOpen(log[..i], x);
    var before := log[..|log| - 1];
    if i < |before| {
      assert before[i] == log[i] && before[..i] == log[..i];
      OverlapIsTwo(before, x);
    }
  }

  lemma BeganTwice(log: seq<Cron.Event>, x: Id, time: int, later: int)
    ensures Overlap(log + [Began(x, time)] + [Began(x, later)], x)
  {
    LogGrows(log, Began(x, time), x);
    var all := log + [Began(x, time)] + [Began(x, later)];
    assert all[..|log| + 1] == log + [Began(x, time)];
    assert all[|log| + 1] == Began(x, later);
  }

  /** A stopped service whose every-job is enabled on disk. */
  ghost predicate Stopped(s: Service, x: Id, every: int) {
    && !s.core.running && s.loops != [] && every > 0 && x in s.core.disk
    && s.core.disk[x].enabled && s.core.disk[x].schedule == Every(Some(every))
  }

  /**
   * A Start beside an old loop that is free: that loop takes the job, and while its handler runs so
   * does the new one.
   */
  lemma FreeLoopOverlaps(s: Service, x: Id, every: int, ticks: Ticks) returns (events: seq<Event>)
    requires Stopped(s, x, every) && FreeLoop(s, 0)
    ensures Overlap(Serve(s, events, ticks).core.log, x)
  {
    hide Step, Waiting, Overlap;
    var c, k := s.core.clock, |s.loops|;
    var a := Step(s, StartUp(true, true), ticks);
    StartSchedules(s, x, every, ticks);
    var b := Step(a, Outside(Pass(c + every)), ticks);
    PassWaits(a, x, c + every, every, c + every, ticks);
    var d := Step(Step(b, Check(0, true), ticks), Call(0, x), ticks);
    LoopTakes(b, 0, x, c + every, every, ticks);
    var e := Step(d, Outside(Switch(x, true, true)), ticks);
    ScheduleKept(b, d, x, c + every, every);
    SwitchSchedules(d, x, every, ticks);
    var f := Step(e, Outside(Pass(c + 2 * every)), ticks);
    PassWaits(e, x, c + 2 * every, every, c + 2 * every, ticks);
    var g := Step(Step(f, Check(k, true), ticks), Call(k, x), ticks);
    LoopTakes(f, k, x, c + 2 * every, every, ticks);
    BeganTwice(b.core.log, x, c + every, c + 2 * every);
    events := EightSteps(s, x, c, k, every, ticks);
  }

  lemma ScheduleKept(s: Service, t: Service, x: Id, at: int, every: int)
    requires Waiting(s, x, at, every) && x in t.core.jobs && t.core.jobs[x] == s.core.jobs[x].(nextRun := None)
    ensures t.core.jobs[x].schedule == Every(Some(every))
  {
  }

  lemma EightSteps(s: Service, x: Id, c: int, k: nat, every: int, ticks: Ticks) returns (events: seq<Event>)
    ensures Serve(s, events, ticks) ==
      Step(Step(Step(Step(Step(Step(Step(Step(s,
        StartUp(true, true), ticks), Outside(Pass(c + every)), ticks), Check(0, true), ticks), Call(0, x), ticks),
        Outside(Switch(x, true, true)), ticks), Outside(Pass(c + 2 * every)), ticks),
        Check(k, true), ticks), Call(k, x), ticks)
  {
    hide Step;
    events := [StartUp(true, true), Outside(Pass(c + every)), Check(0, true), Call(0, x)];
    ServeTwo(s, StartUp(true, true), Outside(Pass(c + every)), ticks);
    var t := Serve(s, [StartUp(true, true), Outside(Pass(c + every))], ticks);
    ServeTwo(t, Check(0, true), Call(0, x), ticks);
    ServeMore(s, [StartUp(true, true), Outside(Pass(c + every))], [Check(0, true), Call(0, x)], ticks);
    var u := Serve(t, [Check(0, true), Call(0, x)], ticks);
    var more := [Outside(Switch(x, true, true)), Outside(Pass(c + 2 * every))];
    ServeTwo(u, Outside(Switch(x, true, true)), Outside(Pass(c + 2 * every)), ticks);
    ServeTwo(Serve(u, more, ticks), Check(k, true), Call(k, x), ticks);
    ServeMore(u, more, [Check(k, true), Call(k, x)], ticks);
    assert events == [StartUp(true, true), Outside(Pass(c + every))] + [Check(0, true), Call(0, x)];
    ServeMore(s, events, more + [Check(k, true), Call(k, x)], ticks);
    events := events + (more + [Check(k, true), Call(k, x)]);
  }

  lemma ServeTwo(s: Service, a: Event, b: Event, ticks: Ticks)
    ensures Serve(s, [a, b], ticks) == Step(Step(s, a, ticks), b, ticks)
  {
    ServeOne(s, a, ticks);
    assert [a, b][..1] == [a];
  }

  /**
   * Whenever a loop is left when the service is started again, two executions of any job that is
   * enabled on disk with an interval can overlap: what GapsKept asks of a Start cannot be dropped.
   */
  lemma LeftLoopOverlaps(s: Service, x: Id, every: int, ticks: Ticks) returns (events: seq<Event>)
    requires Stopped(s, x, every)
    ensures Overlap(Serve(s, events, ticks).core.log, x) && !OneAtATime(Serve(s, events, ticks).core.log)
  {
    var first := OldLoopFinishes(s, ticks);
    var t := Serve(s, first, ticks);
    var rest := FreeLoopOverlaps(t, x, every, ticks);
    ServeMore(s, first, rest, ticks);
    events := first + rest;
    OverlapIsTwo(Serve(s, events, ticks).core.log, x);
  }
}
