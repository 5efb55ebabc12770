/**
 * The WhatsApp channel's lifecycle: Start resets the flags, Stop sets `stopping` and waits for the
 * WaitGroup, and disconnect events spawn the reconnect loop, all coordinated by one mutex.
 */
module Reconnect {
  import opened Powers

  const INITIAL := 5_000
  const MAXIMUM := 300_000

  datatype Kind = Qr | Reconnector

  /** In its body; past the deferred reset of `reconnecting`; past the deferred wg.Done. */
  datatype Phase = Inside | Left | Ended

  datatype Goroutine = Goroutine(kind: Kind, phase: Phase)

  datatype Channel = Channel(stopping: bool, reconnecting: bool, wg: int, goroutines: seq<Goroutine>)

  datatype Action =
    | Start
    | StartQr
    | Disconnected
    | Leave(i: nat)
    | End(i: nat)
    | Stop
    | Await      // the wg.Wait of a Stop returns

  function Spawn(c: Channel, kind: Kind): Channel {
    c.(wg := c.wg + 1, goroutines := c.goroutines + [Goroutine(kind, Inside)])
  }

  /** One locked region, or the last step of a goroutine; a step that is not possible changes nothing. */
  function Do(c: Channel, a: Action): Channel {
    match a
    case Start => c.(stopping := false, reconnecting := false)
    case StartQr => if c.stopping then c else Spawn(c, Qr)
    case Disconnected =>
      if c.reconnecting || c.stopping then c else Spawn(c.(reconnecting := true), Reconnector)
    case Leave(i) =>
      if i >= |c.goroutines| || c.goroutines[i] != Goroutine(Reconnector, Inside) then c
      else c.(reconnecting := false, goroutines := c.goroutines[i := Goroutine(Reconnector, Left)])
    case End(i) =>
      if i < |c.goroutines| && (c.goroutines[i] == Goroutine(Qr, Inside) || c.goroutines[i].phase == Left) then
        c.(wg := c.wg - 1, goroutines := c.goroutines[i := c.goroutines[i].(phase := Ended)])
      else c
    case Stop => c.(stopping := true)
    case Await => c
  }

  function Run(schedule: seq<Action>): Channel {
    if schedule == [] then Channel(false, false, 0, [])
    else Do(Run(schedule[..|schedule| - 1]), schedule[|schedule| - 1])
  }

  function Unfinished(gs: seq<Goroutine>): nat {
    if gs == [] then 0
    else Unfinished(gs[..|gs| - 1]) + if gs[|gs| - 1].phase != Ended then 1 else 0
  }

  /** Goroutines inside the reconnect loop. */
  function InLoop(gs: seq<Goroutine>): nat {
    if gs == [] then 0
    else InLoop(gs[..|gs| - 1]) + if gs[|gs| - 1] == Goroutine(Reconnector, Inside) then 1 else 0
  }

  lemma {:induction false} Replaced(gs: seq<Goroutine>, i: nat, g: Goroutine)
    requires i < |gs|
    ensures Unfinished(gs[i := g]) ==
      Unfinished(gs) - (if gs[i].phase != Ended then 1 else 0) + (if g.phase != Ended then 1 else 0)
    ensures InLoop(gs[i := g]) ==
      InLoop(gs) - (if gs[i] == Goroutine(Reconnector, Inside) then 1 else 0)
      + (if g == Goroutine(Reconnector, Inside) then 1 else 0)
  {
    var k := |gs| - 1;
    if i == k {
      assert gs[i := g][..k] == gs[..k];
    } else {
      assert gs[i := g][..k] == gs[..k][i := g];
      Replaced(gs[..k], i, g);
    }
  }

  lemma Spawned(gs: seq<Goroutine>, kind: Kind)
    ensures Unfinished(gs + [Goroutine(kind, Inside)]) == Unfinished(gs) + 1
    ensures InLoop(gs + [Goroutine(kind, Inside)]) == InLoop(gs) + if kind.Reconnector? then 1 else 0
  {
    assert (gs + [Goroutine(kind, Inside)])[..|gs|] == gs;
  }

  lemma DoKeepsCount(c: Channel, a: Action)
    requires c.wg == Unfinished(c.goroutines)
    ensures Do(c, a).wg == Unfinished(Do(c, a).goroutines)
  {
    Spawned(c.goroutines, Qr);
    Spawned(c.goroutines, Reconnector);
    if (a.Leave? || a.End?) && a.i < |c.goroutines| {
      Replaced(c.goroutines, a.i, Goroutine(Reconnector, Left));
      Replaced(c.goroutines, a.i, c.goroutines[a.i].(phase := Ended));
    }
  }

  /**
   * In every schedule the WaitGroup counts exactly the tracked goroutines that have not ended; it
   * is never negative.
   */
  lemma {:induction false} CountIsUnfinished(schedule: seq<Action>)
    ensures Run(schedule).wg == Unfinished(Run(schedule).goroutines) >= 0
  {
    if schedule != [] {
      CountIsUnfinished(schedule[..|schedule| - 1]);
      DoKeepsCount(Run(schedule[..|schedule| - 1]), schedule[|schedule| - 1]);
    }
  }

  /** From a Stop to the next Start nothing is added to the WaitGroup, so a wait that ended stays ended. */
  lemma {:induction false} NoAddAfterStop(schedule: seq<Action>, more: seq<Action>)
    requires forall i | 0 <= i < |more| :: !more[i].Start?
    ensures Run(schedule + [Stop] + more).stopping
    ensures Run(schedule + [Stop] + more).wg <= Run(schedule).wg
    ensures |Run(schedule + [Stop] + more).goroutines| == |Run(schedule).goroutines|
  {
    if more == [] {
      assert (schedule + [Stop] + more)[..|schedule|] == schedule;
      assert schedule + [Stop] + more == schedule + [Stop];
    } else {
      var init := more[..|more| - 1];
      NoAddAfterStop(schedule, init);
      var all := schedule + [Stop] + more;
      assert all[..|all| - 1] == schedule + [Stop] + init;
    }
  }

  /** Every Start resets a flag `reconnecting` that is already clear. */
  ghost predicate FlagClear(schedule: seq<Action>) {
    forall i | 0 <= i < |schedule| && schedule[i].Start? :: !ReconnectingAt(schedule, i)
  }

  predicate ReconnectingAt(schedule: seq<Action>, i: nat)
    requires i <= |schedule|
  {
    Run(schedule[..i]).reconnecting
  }

  lemma FlagClearBefore(schedule: seq<Action>, n: nat)
    requires FlagClear(schedule) && n <= |schedule|
    ensures FlagClear(schedule[..n])
  {
    var init := schedule[..n];
    forall i | 0 <= i < n && init[i].Start? ensures !ReconnectingAt(init, i) {
      assert init[..i] == schedule[..i];
      assert schedule[i].Start? && !ReconnectingAt(schedule, i);
    }
  }

  lemma DoKeepsOne(c: Channel, a: Action)
    requires InLoop(c.goroutines) == if c.reconnecting then 1 else 0
    requires a.Start? ==> !c.reconnecting
    ensures InLoop(Do(c, a).goroutines) == if Do(c, a).reconnecting then 1 else 0
  {
    Spawned(c.goroutines, Qr);
    Spawned(c.goroutines, Reconnector);
    if (a.Leave? || a.End?) && a.i < |c.goroutines| {
      Replaced(c.goroutines, a.i, Goroutine(Reconnector, Left));
      Replaced(c.goroutines, a.i, c.goroutines[a.i].(phase := Ended));
    }
  }

  /** Then at most one goroutine is in the reconnect loop, and `reconnecting` says exactly whether. */
  lemma {:induction false} AtMostOneInLoop(schedule: seq<Action>)
    requires FlagClear(schedule)
    ensures InLoop(Run(schedule).goroutines) == if Run(schedule).reconnecting then 1 else 0
  {
    if schedule != [] {
      var k := |schedule| - 1;
      FlagClearBefore(schedule, k);
      AtMostOneInLoop(schedule[..k]);
      assert schedule[k].Start? ==> !ReconnectingAt(schedule, k);
      DoKeepsOne(Run(schedule[..k]), schedule[k]);
    }
  }

  /** The wait of a Stop returns: the WaitGroup is empty, and no Start has come in between. */
  predicate Returns(schedule: seq<Action>, j: nat)
    requires j < |schedule|
  {
    schedule[j].Await? && Run(schedule[..j]).stopping && Run(schedule[..j]).wg == 0
  }

  predicate NoStart(schedule: seq<Action>, j: nat, i: nat)
    requires j <= i <= |schedule|
  {
    forall k | j <= k < i :: !schedule[k].Start?
  }

  predicate Spawns(a: Action) {
    a.StartQr? || a.Disconnected?
  }

  /** A Start comes first of all, or after a Stop whose wait returned. */
  ghost predicate InTurn(schedule: seq<Action>, i: nat)
    requires i <= |schedule|
  {
    || (forall k | 0 <= k < i :: !Spawns(schedule[k]))
    || (exists j :: 0 <= j < i && Returns(schedule, j) && NoStart(schedule, j, i))
  }

  ghost predicate Orderly(schedule: seq<Action>) {
    forall i | 0 <= i < |schedule| && schedule[i].Start? :: InTurn(schedule, i)
  }

  lemma {:induction false} LoopIsUnfinished(gs: seq<Goroutine>)
    ensures InLoop(gs) <= Unfinished(gs)
  {
    if gs != [] {
      LoopIsUnfinished(gs[..|gs| - 1]);
    }
  }

  lemma QuietStep(c: Channel, a: Action)
    requires c.wg == Unfinished(c.goroutines) == 0
    requires !Spawns(a) || (c.stopping && !a.Start?)
    ensures Do(c, a).wg == Unfinished(Do(c, a).goroutines) == 0
    ensures !a.Start? && c.stopping ==> Do(c, a).stopping
  {
    if (a.Leave? || a.End?) && a.i < |c.goroutines| {
      Replaced(c.goroutines, a.i, c.goroutines[a.i]);
      NoneUnfinished(c.goroutines, a.i);
    }
  }

  lemma {:induction false} NoneUnfinished(gs: seq<Goroutine>, i: nat)
    requires Unfinished(gs) == 0 && i < |gs|
    ensures gs[i].phase.Ended?
  {
    if i < |gs| - 1 {
      NoneUnfinished(gs[..|gs| - 1], i);
    }
  }

  /** Once a wait has returned, the WaitGroup stays empty until the next Start. */
  lemma {:induction false} ReturnedStaysEmpty(schedule: seq<Action>, j: nat, i: nat)
    requires j < i <= |schedule| && Returns(schedule, j) && NoStart(schedule, j, i)
    ensures Run(schedule[..i]).wg == 0 && Run(schedule[..i]).stopping
  {
    CountIsUnfinished(schedule[..i - 1]);
    assert schedule[..i][..i - 1] == schedule[..i - 1];
    if i - 1 > j {
      ReturnedStaysEmpty(schedule, j, i - 1);
    }
    QuietStep(Run(schedule[..i - 1]), schedule[i - 1]);
  }

  lemma {:induction false} NothingSpawned(schedule: seq<Action>, i: nat)
    requires i <= |schedule| && forall k | 0 <= k < i :: !Spawns(schedule[k])
    ensures Run(schedule[..i]).wg == 0
  {
    if i > 0 {
      NothingSpawned(schedule, i - 1);
      CountIsUnfinished(schedule[..i - 1]);
      assert schedule[..i][..i - 1] == schedule[..i - 1];
      QuietStep(Run(schedule[..i - 1]), schedule[i - 1]);
    }
  }

  /** A Start in turn finds nothing running. */
  lemma InTurnIsEmpty(schedule: seq<Action>, i: nat)
    requires i <= |schedule| && InTurn(schedule, i)
    ensures InLoop(Run(schedule[..i]).goroutines) == 0
  {
    if j :| 0 <= j < i && Returns(schedule, j) && NoStart(schedule, j, i) {
      ReturnedStaysEmpty(schedule, j, i);
    } else {
      NothingSpawned(schedule, i);
    }
    CountIsUnfinished(schedule[..i]);
    LoopIsUnfinished(Run(schedule[..i]).goroutines);
  }

  /** If every Start comes in turn, no Start finds the flag set: the loops of two lifetimes never overlap. */
  lemma {:induction false} OrderlyIsClear(schedule: seq<Action>)
    requires Orderly(schedule)
    ensures FlagClear(schedule)
    ensures InLoop(Run(schedule).goroutines) <= 1
  {
    OrderlyPrefix(schedule, |schedule|);
    assert schedule[..|schedule|] == schedule;
    AtMostOneInLoop(schedule);
  }

  lemma {:induction false} OrderlyPrefix(schedule: seq<Action>, n: nat)
    requires Orderly(schedule) && n <= |schedule|
    ensures FlagClear(schedule[..n])
  {
    if n > 0 {
      hide Run, InTurn, InLoop;
      OrderlyPrefix(schedule, n - 1);
      AtMostOneInLoop(schedule[..n - 1]);
      if schedule[n - 1].Start? {
        InTurnIsEmpty(schedule, n - 1);
      }
      var upTo := schedule[..n];
      forall i | 0 <= i < n && upTo[i].Start? ensures !ReconnectingAt(upTo, i) {
        assert upTo[..i] == schedule[..n - 1][..i] == schedule[..i];
        assert i < n - 1 ==> !ReconnectingAt(schedule[..n - 1], i);
      }
    }
  }

  /** A Start that finds the flag set leaves two loops after the next disconnect, and any other Start one. */
  lemma RestartExactly(schedule: seq<Action>)
    requires FlagClear(schedule)
    ensures InLoop(Run(schedule + [Start, Disconnected]).goroutines) == if Run(schedule).reconnecting then 2 else 1
  {
    var all := schedule + [Start, Disconnected];
    assert all[..|all| - 1] == schedule + [Start];
    assert (schedule + [Start])[..|schedule|] == schedule;
    Spawned(Run(schedule).goroutines, Reconnector);
    AtMostOneInLoop(schedule);
  }

  /** Such a run: the Stop gives up waiting for its context, the channel is started again, and disconnects again. */
  lemma TwoLoops()
    ensures InLoop(Run([Start, Disconnected, Stop, Start, Disconnected]).goroutines) == 2
  {
    var first := [Start, Disconnected, Stop];
    assert first[..2] == [Start, Disconnected] && first[..2][..1] == [Start] && [Start][..0] == [];
    assert Run([Start]).goroutines == [];
    assert Run([Start, Disconnected]).goroutines == [Goroutine(Reconnector, Inside)];
    assert Run(first).reconnecting;
    forall i | 0 <= i < |first| && first[i].Start? ensures !ReconnectingAt(first, i) {
      assert i == 0 && first[..0] == [];
    }
    RestartExactly(first);
    assert first + [Start, Disconnected] == [Start, Disconnected, Stop, Start, Disconnected];
  }

  lemma RunAppended(schedule: seq<Action>, a: Action)
    ensures Run(schedule + [a]) == Do(Run(schedule), a)
  {
    assert (schedule + [a])[..|schedule|] == schedule;
  }

  /** A Start resets both flags, and only a Stop sets `stopping`; a code page is then followed by a goroutine. */
  lemma StartsExactly(schedule: seq<Action>)
    ensures var c, d := Run(schedule), Run(schedule + [Start]);
      !d.stopping && !d.reconnecting && d.goroutines == c.goroutines
    ensures var c, d := Run(schedule), Run(schedule + [StartQr]);
      if c.stopping then d == c else d.goroutines == c.goroutines + [Goroutine(Qr, Inside)] && !d.stopping
    ensures Run(schedule + [Stop]).stopping
  {
    RunAppended(schedule, Start);
    RunAppended(schedule, StartQr);
    RunAppended(schedule, Stop);
  }

  /** A disconnect starts a loop exactly if the channel is not stopping and no loop runs. */
  lemma DisconnectExactly(schedule: seq<Action>)
    requires FlagClear(schedule)
    ensures var c, d := Run(schedule), Run(schedule + [Disconnected]);
      if c.stopping || InLoop(c.goroutines) > 0 then d == c
      else d.goroutines == c.goroutines + [Goroutine(Reconnector, Inside)] && InLoop(d.goroutines) == 1
  {
    AtMostOneInLoop(schedule);
    RunAppended(schedule, Disconnected);
    Spawned(Run(schedule).goroutines, Reconnector);
  }

  /** A reconnector that leaves clears the flag, so that a later disconnect starts a new loop. */
  lemma LeaveMakesRoom(schedule: seq<Action>, i: nat)
    requires FlagClear(schedule) && i < |Run(schedule).goroutines|
    requires Run(schedule).goroutines[i] == Goroutine(Reconnector, Inside)
    ensures var d := Run(schedule + [Leave(i)]); !d.reconnecting && InLoop(d.goroutines) == 0
    ensures !Run(schedule).stopping ==> InLoop(Run(schedule + [Leave(i)] + [Disconnected]).goroutines) == 1
  {
    var c := Run(schedule);
    RunAppended(schedule, Leave(i));
    RunAppended(schedule + [Leave(i)], Disconnected);
    AtMostOneInLoop(schedule);
    LoopCounts(c.goroutines, i);
    Replaced(c.goroutines, i, Goroutine(Reconnector, Left));
    Spawned(Run(schedule + [Leave(i)]).goroutines, Reconnector);
  }

  lemma {:induction false} LoopCounts(gs: seq<Goroutine>, i: nat)
    requires i < |gs| && gs[i] == Goroutine(Reconnector, Inside)
    ensures InLoop(gs) >= 1
  {
    if i < |gs| - 1 {
      LoopCounts(gs[..|gs| - 1], i);
    }
  }

  lemma {:induction false} SomeUnfinished(gs: seq<Goroutine>) returns (i: nat)
    requires Unfinished(gs) > 0
    ensures i < |gs| && !gs[i].phase.Ended?
  {
    i := |gs| - 1;
    if gs[i].phase.Ended? {
      i := SomeUnfinished(gs[..i]);
    }
  }

  function NextOf(g: Goroutine, i: nat): Action {
    if g == Goroutine(Reconnector, Inside) then Leave(i) else End(i)
  }

  lemma NextReduces(c: Channel, i: nat)
    requires i < |c.goroutines| && !c.goroutines[i].phase.Ended?
    ensures var d := Do(c, NextOf(c.goroutines[i], i));
      Unfinished(d.goroutines) + InLoop(d.goroutines) < Unfinished(c.goroutines) + InLoop(c.goroutines)
  {
    var g := c.goroutines[i];
    if g == Goroutine(Reconnector, Inside) {
      Replaced(c.goroutines, i, Goroutine(Reconnector, Left));
    } else {
      assert g.kind.Reconnector? && g.phase.Inside? ==> g == Goroutine(Reconnector, Inside);
      assert g.kind.Qr? && g.phase.Inside? ==> g == Goroutine(Qr, Inside);
      Replaced(c.goroutines, i, g.(phase := Ended));
    }
  }

  /** The goroutines can always finish, so the wait of a Stop can return. */
  lemma {:induction false} WaitCanReturn(schedule: seq<Action>) returns (more: seq<Action>)
    ensures forall i | 0 <= i < |more| :: more[i].Leave? || more[i].End?
    ensures Run(schedule + more).wg == 0
    ensures Run(schedule).stopping ==> Returns(schedule + more + [Await], |schedule + more|)
    decreases Unfinished(Run(schedule).goroutines) + InLoop(Run(schedule).goroutines)
  {
    var c := Run(schedule);
    CountIsUnfinished(schedule);
    if c.wg == 0 {
      more := [];
      assert schedule + more == schedule && (schedule + [Await])[..|schedule|] == schedule;
    } else {
      var i := SomeUnfinished(c.goroutines);
      var a := NextOf(c.goroutines[i], i);
      RunAppended(schedule, a);
      NextReduces(c, i);
      hide Run, Do, Unfinished, InLoop;
      var rest := WaitCanReturn(schedule + [a]);
      more := [a] + rest;
      assert schedule + [a] + rest == schedule + more;
    }
  }

  /** What one round of the loop finds: the context cancelled, no client, or what Connect returned. */
  datatype Round = Cancelled | NoClient | Connected | FailedThenCancelled | FailedThenWaited

  /** The k-th wait, counted from 0. */
  function Wait(k: nat): int {
    if INITIAL * Power(k) < MAXIMUM then INITIAL * Power(k) else MAXIMUM
  }

  lemma WaitDoubles(k: nat)
    ensures Wait(k + 1) ==
      if Wait(k) < MAXIMUM then (if 2 * Wait(k) > MAXIMUM then MAXIMUM else 2 * Wait(k)) else Wait(k)
    ensures Wait(0) == INITIAL
  {
  }

  /** Five seconds, then each wait twice the one before, up to five minutes. */
  lemma WaitsExactly()
    ensures Wait(0) == 5_000
    ensures forall k: nat :: Wait(k + 1) == if 2 * Wait(k) < 300_000 then 2 * Wait(k) else 300_000
  {
  }

  /** reconnectWithBackoff; the source's loop has no bound, here it makes at most `rounds` rounds. */
  method ReconnectWithBackoff(round: nat -> Round, rounds: nat) returns (waits: seq<int>, ended: bool, connected: bool)
    ensures forall k | 0 <= k < |waits| :: waits[k] == Wait(k) && round(k).FailedThenWaited?
    ensures ended ==> |waits| < rounds && !round(|waits|).FailedThenWaited?
    ensures ended ==> (connected <==> round(|waits|).Connected?)
    ensures !ended ==> |waits| == rounds && !connected
    ensures waits != [] ==> waits[0] == 5_000
    ensures forall k | 0 <= k < |waits| - 1 ::
      waits[k + 1] == if 2 * waits[k] < 300_000 then 2 * waits[k] else 300_000
  {
    WaitsExactly();
    hide Wait;
    var backoff := INITIAL;
    waits := [];
    while |waits| < rounds
      invariant backoff == Wait(|waits|) && |waits| <= rounds
      invariant forall k | 0 <= k < |waits| :: waits[k] == Wait(k) && round(k).FailedThenWaited?
      decreases rounds - |waits|
    {
      var found := round(|waits|);
      if found.Cancelled? || found.NoClient? || found.FailedThenCancelled? {
        return waits, true, false;
      }
      if found.Connected? {
        return waits, true, true;
      }
      WaitDoubles(|waits|);
      waits := waits + [backoff];
      if backoff < MAXIMUM {
        var next := 2 * backoff;
        if next > MAXIMUM {
          next := MAXIMUM;
        }
        backoff := next;
      }
    }
    return waits, false, false;
  }
}
