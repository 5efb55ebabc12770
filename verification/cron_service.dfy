/**
 * CronService as an object: a slice of jobs, mutated in place, and the file it is saved to. Each
 * locked region is proved to do to the table of jobs what the scheduler machine says.
 */
module CronServices {
  import opened Options
  import opened Cron

  ghost predicate Distinct(jobs: seq<Job>) {
    forall i, j | 0 <= i < j < |jobs| :: jobs[i].id != jobs[j].id
  }

  /** The slice as a table. */
  function TableOf(jobs: seq<Job>): Table {
    if jobs == [] then map[]
    else
      var last := jobs[|jobs| - 1];
      TableOf(jobs[..|jobs| - 1])[last.id := last]
  }

  lemma {:induction false} TableOfKeys(jobs: seq<Job>)
    ensures forall id | id in TableOf(jobs) :: exists k :: 0 <= k < |jobs| && jobs[k].id == id
    ensures forall k | 0 <= k < |jobs| :: jobs[k].id in TableOf(jobs)
  {
    if jobs != [] {
      TableOfKeys(jobs[..|jobs| - 1]);
    }
  }

  lemma {:induction false} TableOfContent(jobs: seq<Job>)
    ensures forall id | id in TableOf(jobs) :: exists k :: 0 <= k < |jobs| && jobs[k].id == id
    ensures forall k | 0 <= k < |jobs| :: jobs[k].id in TableOf(jobs)
    ensures Distinct(jobs) ==> forall k | 0 <= k < |jobs| :: TableOf(jobs)[jobs[k].id] == jobs[k]
  {
    TableOfKeys(jobs);
    if jobs != [] {
      var init := jobs[..|jobs| - 1];
      TableOfContent(init);
      hide Distinct;
      if Distinct(jobs) {
        DistinctLast(jobs);
        forall k | 0 <= k < |init| ensures TableOf(jobs)[jobs[k].id] == jobs[k] {
          assert init[k] == jobs[k];
        }
      }
    }
  }

  lemma DistinctLast(jobs: seq<Job>)
    requires Distinct(jobs) && jobs != []
    ensures Distinct(jobs[..|jobs| - 1]) && forall k | 0 <= k < |jobs| - 1 :: jobs[k].id != jobs[|jobs| - 1].id
  {
  }

  lemma TableOfAppended(jobs: seq<Job>, job: Job)
    ensures TableOf(jobs + [job]) == TableOf(jobs)[job.id := job]
  {
    assert (jobs + [job])[..|jobs|] == jobs;
  }

  lemma {:induction false} TableOfReplaced(jobs: seq<Job>, i: nat, job: Job)
    requires Distinct(jobs) && i < |jobs| && jobs[i].id == job.id
    ensures TableOf(jobs[i := job]) == TableOf(jobs)[job.id := job]
  {
    var n := |jobs| - 1;
    if i < n {
      TableOfReplaced(jobs[..n], i, job);
      assert jobs[i := job][..n] == jobs[..n][i := job];
    } else {
      assert jobs[i := job][..n] == jobs[..n];
    }
  }

  /** The slice rebuilt without a job. */
  function Without(jobs: seq<Job>, id: Id): (r: seq<Job>)
    ensures |r| <= |jobs| && forall k | 0 <= k < |r| :: r[k] in jobs
    ensures Distinct(jobs) ==> Distinct(r)
  {
    if jobs == [] then []
    else
      var rest := Without(jobs[..|jobs| - 1], id);
      if jobs[|jobs| - 1].id == id then rest else rest + [jobs[|jobs| - 1]]
  }

  lemma {:induction false} TableOfWithout(jobs: seq<Job>, id: Id)
    ensures TableOf(Without(jobs, id)) == TableOf(jobs) - {id}
    ensures |Without(jobs, id)| < |jobs| <==> id in TableOf(jobs)
  {
    if jobs != [] {
      var init, last := jobs[..|jobs| - 1], jobs[|jobs| - 1];
      TableOfWithout(init, id);
      TableOfAppended(Without(init, id), last);
      RemoveUpdated(TableOf(init), last, id);
    }
  }

  lemma RemoveUpdated(t: Table, job: Job, id: Id)
    ensures t[job.id := job] - {id} == if job.id == id then t - {id} else (t - {id})[job.id := job]
  {
  }

  lemma {:induction false} TableOfCollected(jobs: seq<Job>, after: seq<Job>, now: int)
    requires |after| == |jobs| && forall k | 0 <= k < |jobs| :: after[k] == Collected(jobs[k], now)
    ensures TableOf(after) == CollectAll(TableOf(jobs), now)
  {
    if jobs != [] {
      TableOfCollected(jobs[..|jobs| - 1], after[..|jobs| - 1], now);
    }
  }

  lemma {:induction false} TableOfRecomputed(jobs: seq<Job>, after: seq<Job>, now: int, ticks: Ticks)
    requires |after| == |jobs| && forall k | 0 <= k < |jobs| :: after[k] == Recomputed(jobs[k], now, ticks)
    ensures TableOf(after) == RecomputeAll(TableOf(jobs), now, ticks)
  {
    if jobs != [] {
      TableOfRecomputed(jobs[..|jobs| - 1], after[..|jobs| - 1], now, ticks);
    }
  }

  class CronService {
    const ticks: Ticks
    var jobs: seq<Job>
    var file: seq<Job>
    var running: bool

    ghost predicate Valid()
      reads this
    {
      Distinct(jobs) && Distinct(file)
    }

    /** NewCronService: reads the store and does not start. */
    constructor (ticks: Ticks, stored: seq<Job>)
      requires Distinct(stored)
      ensures Valid() && jobs == file == stored && !running && this.ticks == ticks
    {
      this.ticks := ticks;
      jobs, file, running := stored, stored, false;
    }

    /** saveStoreUnsafe; whether the write succeeds is up to the file system. */
    method Save(writable: bool)
      modifies this`file
      ensures file == if writable then jobs else old(file)
    {
      if writable {
        file := jobs;
      }
    }

    /** The locked region of Start. */
    method Start(now: int, readable: bool, writable: bool)
      requires Valid()
      modifies this
      ensures Valid()
      ensures old(running) ==> jobs == old(jobs) && file == old(file) && running
      ensures !old(running) && !readable ==> jobs == [] && file == old(file) && !running
      ensures !old(running) && readable ==>
        && TableOf(jobs) == RecomputeAll(TableOf(old(file)), now, ticks)
        && running == writable && file == if writable then jobs else old(file)
      ensures !old(running) && readable ==>
        forall id | id in TableOf(jobs) && TableOf(jobs)[id].enabled :: OnTime(TableOf(jobs)[id], now, ticks)
    {
      if running {
        return;
      }
      if !readable {
        jobs := [];
        return;
      }
      jobs := file;
      RecomputeNextRuns(now);
      Save(writable);
      if !writable {
        return;
      }
      running := true;
    }

    method Stop()
      modifies this`running
      ensures !running
    {
      running := false;
    }

    method RecomputeNextRuns(now: int)
      requires Distinct(jobs)
      modifies this`jobs
      ensures Distinct(jobs) && TableOf(jobs) == RecomputeAll(TableOf(old(jobs)), now, ticks)
      ensures forall id | id in TableOf(jobs) && TableOf(jobs)[id].enabled :: OnTime(TableOf(jobs)[id], now, ticks)
    {
      for i := 0 to |jobs|
        invariant |jobs| == |old(jobs)|
        invariant forall k | 0 <= k < |jobs| ::
          jobs[k] == if k < i then Recomputed(old(jobs)[k], now, ticks) else old(jobs)[k]
      {
        if jobs[i].enabled {
          jobs := jobs[i := jobs[i].(nextRun := NextRun(jobs[i].schedule, now, ticks))];
        }
      }
      TableOfRecomputed(old(jobs), jobs, now, ticks);
      RecomputedOnTime(TableOf(old(jobs)), now, ticks);
    }

    /** The locked region of checkJobs: the due jobs, in table order, are taken off the schedule. */
    method CollectDue(now: int, writable: bool) returns (due: seq<Id>)
      requires Valid()
      modifies this`jobs, this`file
      ensures Valid()
      ensures !running ==> jobs == old(jobs) && file == old(file) && due == []
      ensures running ==>
        && TableOf(jobs) == CollectAll(TableOf(old(jobs)), now)
        && multiset(due) == multiset(DueIds(TableOf(old(jobs)), now))
        && file == if writable then jobs else old(file)
    {
      if !running {
        return [];
      }
      due := DueJobs(now);
      DueIsSet(jobs, now, due);
      ResetDue(due, now);
      Save(writable);
    }

    method DueJobs(now: int) returns (due: seq<Id>)
      requires Distinct(jobs)
      ensures forall id :: id in due <==> exists k :: 0 <= k < |jobs| && IsDue(jobs[k], now) && jobs[k].id == id
      ensures forall k, m | 0 <= k < m < |due| :: due[k] != due[m]
    {
      due := [];
      for i := 0 to |jobs|
        invariant forall id :: id in due <==> exists k :: 0 <= k < i && IsDue(jobs[k], now) && jobs[k].id == id
        invariant forall k, m | 0 <= k < m < |due| :: due[k] != due[m]
      {
        assert jobs[i].id !in due;
        if jobs[i].enabled && jobs[i].nextRun.Some? && jobs[i].nextRun.value <= now {
          due := due + [jobs[i].id];
        }
      }
    }

    method ResetDue(due: seq<Id>, now: int)
      requires Distinct(jobs)
      requires forall id :: id in due <==> exists k :: 0 <= k < |jobs| && IsDue(jobs[k], now) && jobs[k].id == id
      modifies this`jobs
      ensures Distinct(jobs) && TableOf(jobs) == CollectAll(TableOf(old(jobs)), now)
    {
      assert forall k | 0 <= k < |jobs| :: jobs[k].id in due <==> IsDue(jobs[k], now);
      for i := 0 to |jobs|
        invariant |jobs| == |old(jobs)|
        invariant forall k | 0 <= k < |jobs| :: jobs[k] == if k < i then Collected(old(jobs)[k], now) else old(jobs)[k]
      {
        if jobs[i].id in due {
          jobs := jobs[i := jobs[i].(nextRun := None)];
        }
      }
      TableOfCollected(old(jobs), jobs, now);
    }

    /** The index of a job, or -1. */
    method Find(jobID: Id) returns (index: int)
      requires Distinct(jobs)
      ensures index == -1 ==> jobID !in TableOf(jobs)
      ensures index != -1 ==> 0 <= index < |jobs| && jobs[index].id == jobID
    {
      for i := 0 to |jobs|
        invariant forall k | 0 <= k < i :: jobs[k].id != jobID
      {
        if jobs[i].id == jobID {
          return i;
        }
      }
      TableOfContent(jobs);
      return -1;
    }

    /** The last locked region of executeJobByID. */
    method RecordRun(jobID: Id, started: int, now: int, failed: bool, writable: bool)
      requires Valid()
      modifies this`jobs, this`file
      ensures Valid()
      ensures TableOf(jobs) == ExecuteOne(TableOf(old(jobs)), jobID, started, now, failed, ticks)
      ensures file == if jobID in TableOf(old(jobs)) && writable then jobs else old(file)
      ensures RunRecorded(TableOf(old(jobs)), TableOf(jobs), jobID, started, now, failed, ticks)
    {
      RecordedExactly(TableOf(jobs), jobID, started, now, failed, ticks);
      var i := Find(jobID);
      if i == -1 {
        return;
      }
      ghost var ran := Executed(jobs[i], started, now, failed, ticks);
      TableOfContent(jobs);
      Record(i, started, now, failed, writable);
      assert TableOf(jobs) ==
        if ran.None? then TableOf(old(jobs)) - {jobID} else TableOf(old(jobs))[jobID := ran.value];
      Save(writable);
    }

    /** What the region does to the job itself. */
    method Record(i: nat, started: int, now: int, failed: bool, writable: bool)
      requires Valid() && i < |jobs|
      modifies this`jobs, this`file
      ensures Valid() && file in {old(file), jobs} && (!writable ==> file == old(file))
      ensures var j := old(jobs)[i]; var ran := Executed(j, started, now, failed, ticks);
        TableOf(jobs) == if ran.None? then TableOf(old(jobs)) - {j.id} else TableOf(old(jobs))[j.id := ran.value]
    {
      var job := jobs[i].(lastRun := Some(started), lastStatus := if failed then "error" else "ok");
      if job.schedule.At? && job.deleteAfterRun {
        var removed := RemoveJob(job.id, writable);
      } else if job.schedule.At? {
        Replace(i, job.(enabled := false, nextRun := None));
      } else {
        Replace(i, job.(nextRun := NextRun(job.schedule, now, ticks)));
      }
    }

    method Replace(i: nat, job: Job)
      requires Distinct(jobs) && i < |jobs| && jobs[i].id == job.id
      modifies this`jobs
      ensures Distinct(jobs) && TableOf(jobs) == TableOf(old(jobs))[job.id := job]
    {
      TableOfReplaced(jobs, i, job);
      jobs := jobs[i := job];
    }

    method AddJob(id: Id, schedule: Schedule, now: int, writable: bool) returns (added: Option<Job>)
      requires Valid() && id !in TableOf(jobs)
      modifies this`jobs, this`file
      ensures Valid() && TableOf(jobs) == TableOf(old(jobs))[id := Added(id, schedule, now, ticks)]
      ensures file == if writable then jobs else old(file)
      ensures added == if writable then Some(Added(id, schedule, now, ticks)) else None
      ensures var job := TableOf(jobs)[id];
        && job.id == id && job.enabled && job.schedule == schedule && job.deleteAfterRun == schedule.At?
        && job.lastRun.None? && OnTime(job, now, ticks)
    {
      var job := Job(id, true, schedule, schedule.At?, NextRun(schedule, now, ticks), None, "");
      NextRunExactly(schedule, now, ticks);
      hide TableOf, NextRun, FirstRun;
      TableOfContent(jobs);
      TableOfAppended(jobs, job);
      jobs := jobs + [job];
      Save(writable);
      return if writable then Some(job) else None;
    }

    /** removeJobUnsafe: the slice is rebuilt without the job, and saved if it was there. */
    method RemoveJob(jobID: Id, writable: bool) returns (removed: bool)
      requires Valid()
      modifies this`jobs, this`file
      ensures Valid() && TableOf(jobs) == TableOf(old(jobs)) - {jobID}
      ensures removed == (jobID in TableOf(old(jobs)))
      ensures file == if removed && writable then jobs else old(file)
    {
      var kept: seq<Job> := [];
      for i := 0 to |jobs|
        invariant kept == Without(jobs[..i], jobID)
      {
        assert jobs[..i + 1][..i] == jobs[..i];
        if jobs[i].id != jobID {
          kept := kept + [jobs[i]];
        }
      }
      assert jobs[..|jobs|] == jobs;
      TableOfWithout(jobs, jobID);
      removed := |kept| < |jobs|;
      jobs := kept;
      if removed {
        Save(writable);
      }
    }

    method EnableJob(jobID: Id, enabled: bool, now: int, writable: bool) returns (found: bool)
      requires Valid()
      modifies this`jobs, this`file
      ensures Valid() && TableOf(jobs) == SwitchOne(TableOf(old(jobs)), jobID, enabled, now, ticks)
      ensures found == (jobID in TableOf(old(jobs)))
      ensures file == if found && writable then jobs else old(file)
      ensures found ==> var job := TableOf(jobs)[jobID];
        job.enabled == enabled && if enabled then OnTime(job, now, ticks) else job.nextRun == None
    {
      var i := Find(jobID);
      if i == -1 {
        return false;
      }
      TableOfContent(jobs);
      NextRunExactly(jobs[i].schedule, now, ticks);
      var next := if enabled then NextRun(jobs[i].schedule, now, ticks) else None;
      hide NextRun, FirstRun;
      Replace(i, jobs[i].(enabled := enabled, nextRun := next));
      Save(writable);
      return true;
    }
  }

  lemma RecomputedOnTime(t: Table, now: int, ticks: Ticks)
    ensures var u := RecomputeAll(t, now, ticks); forall id | id in u && u[id].enabled :: OnTime(u[id], now, ticks)
  {
    forall id | id in t {
      NextRunExactly(t[id].schedule, now, ticks);
    }
    hide NextRun, FirstRun;
  }

  /** What the run of a job leaves in the table. */
  ghost predicate RunRecorded(t: Table, u: Table, id: Id, started: int, now: int, failed: bool, ticks: Ticks) {
    if id !in t then u == t
    else if t[id].schedule.At? && t[id].deleteAfterRun then u == t - {id}
    else id in u && u == t[id := u[id]] && HasRun(t[id], u[id], started, now, failed, ticks)
  }

  lemma RecordedExactly(t: Table, id: Id, started: int, now: int, failed: bool, ticks: Ticks)
    ensures RunRecorded(t, ExecuteOne(t, id, started, now, failed, ticks), id, started, now, failed, ticks)
  {
    if id in t {
      ExecutedExactly(t[id], started, now, failed, ticks);
    }
    hide Executed, HasRun;
  }

  lemma DueIsSet(jobs: seq<Job>, now: int, due: seq<Id>)
    requires Distinct(jobs)
    requires forall id :: id in due <==> exists k :: 0 <= k < |jobs| && IsDue(jobs[k], now) && jobs[k].id == id
    requires forall k, m | 0 <= k < m < |due| :: due[k] != due[m]
    ensures multiset(due) == multiset(DueIds(TableOf(jobs), now))
  {
    var t := TableOf(jobs);
    TableOfContent(jobs);
    forall id ensures id in due <==> id in DueIds(t, now) {
      if id in t {
        var k :| 0 <= k < |jobs| && jobs[k].id == id;
        assert t[id] == jobs[k];
      }
    }
    NoRepeats(due);
    forall id ensures multiset(due)[id] == multiset(DueIds(t, now))[id] {
      assert id in multiset(due) <==> id in due;
    }
  }

  lemma {:induction false} NoRepeats(s: seq<Id>)
    requires forall k, m | 0 <= k < m < |s| :: s[k] != s[m]
    ensures forall id :: multiset(s)[id] <= 1
  {
    if s != [] {
      var init := s[..|s| - 1];
      NoRepeats(init);
      assert s == init + [s[|s| - 1]];
      assert s[|s| - 1] !in init;
    }
  }
}
