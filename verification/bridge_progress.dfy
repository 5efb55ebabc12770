/**
 * What the bridge does get done: a message on a free session is admitted, invoked with the session
 * entry and leaves the session free; a /stop reaches the flight it found; a /clear forgets.
 */
module BridgeProgress {
  import opened Bridge

  /** The run does nothing for the flight; everyone else may do anything. */
  ghost predicate Elsewhere(more: seq<Action>, f: Id) {
    forall i | 0 <= i < |more| :: !(more[i].Advance? && more[i].f == f) && !(more[i].Return? && more[i].f == f)
  }

  function RunFrom(s: State, more: seq<Action>): State {
    if more == [] then s else Do(RunFrom(s, more[..|more| - 1]), more[|more| - 1])
  }

  lemma {:induction false} RunMore(init: map<Key, SessionId>, schedule: seq<Action>, more: seq<Action>)
    ensures Run(init, schedule + more) == RunFrom(Run(init, schedule), more)
  {
    if more == [] {
      assert schedule + more == schedule;
    } else {
      assert (schedule + more)[..|schedule + more| - 1] == schedule + more[..|more| - 1];
      RunMore(init, schedule, more[..|more| - 1]);
    }
  }

  lemma StaysPut(s: State, a: Action, f: Id)
    requires f in s.flights && Elsewhere([a], f)
    ensures f in Do(s, a).flights && Do(s, a).flights[f] == s.flights[f]
  {
    assert !([a][0].Advance? && [a][0].f == f);
    if a.Advance? && a.f in s.flights {
      OperateMoves(s, a.f);
    }
  }

  /** A flight moves only by its own steps. */
  lemma {:induction false} WaitsThere(s: State, more: seq<Action>, f: Id)
    requires f in s.flights && Elsewhere(more, f)
    ensures f in RunFrom(s, more).flights && RunFrom(s, more).flights[f] == s.flights[f]
  {
    if more != [] {
      var init := more[..|more| - 1];
      WaitsThere(s, init, f);
      StaysPut(RunFrom(s, init), more[|more| - 1], f);
    }
  }

  /** Another flight is between its LoadOrStore and its deferred Delete of the key. */
  ghost predicate Busy(s: State, f: Id, k: Key) {
    exists g :: g != f && Holder(s.flights, g, k)
  }

  predicate IsAt(s: State, f: Id, k: Key, pc: Pc) {
    f in s.flights && s.flights[f] == Flight(k, pc)
  }

  /** A new message or command is there, whatever else goes on. */
  lemma Arrives(s: State, f: Id, k: Key, more: seq<Action>)
    ensures f !in s.flights && Elsewhere(more, f) ==> IsAt(RunFrom(Do(s, Message(f, k)), more), f, k, Arrived)
    ensures f !in s.stops ==> Do(s, StopCommand(f, k)).stops == s.stops[f := Stop(k, Loading)]
  {
    if f !in s.flights && Elsewhere(more, f) {
      WaitsThere(Do(s, Message(f, k)), more, f);
    }
  }

  /** A message is turned away exactly if another flight holds its session, and else holds it. */
  lemma AdmittedExactly(init: map<Key, SessionId>, schedule: seq<Action>, f: Id, k: Key)
    requires IsAt(Run(init, schedule), f, k, Arrived)
    ensures var s, t := Run(init, schedule), Run(init, schedule + [Advance(f)]);
      && (Busy(s, f, k) ==> IsAt(t, f, k, Rejected) && t.inFlight == s.inFlight)
      && (!Busy(s, f, k) ==> IsAt(t, f, k, Holding) && Holder(t.flights, f, k) && k in t.inFlight)
  {
    var s := Run(init, schedule);
    MutualExclusion(init, schedule);
    assert (schedule + [Advance(f)])[..|schedule|] == schedule;
    if k in s.inFlight {
      var g :| Holder(s.flights, g, k);
      assert g != f;
    }
  }

  /** What the others do between the steps of a flight: anything. */
  datatype Pauses = Pauses(a: seq<Action>, b: seq<Action>, c: seq<Action>, d: seq<Action>)

  ghost predicate Calm(p: Pauses, f: Id) {
    Elsewhere(p.a, f) && Elsewhere(p.b, f) && Elsewhere(p.c, f) && Elsewhere(p.d, f)
  }

  /** The next step of a flight, after a pause. */
  function After(s: State, pause: seq<Action>, f: Id): State {
    Do(RunFrom(s, pause), Advance(f))
  }

  /** An admitted message is invoked, with the session entry there is when it reads it. */
  lemma InvokedWith(s: State, f: Id, k: Key, p: Pauses)
    requires IsAt(s, f, k, Holding) && Calm(p, f)
    ensures var armed := After(s, p.a, f);
      var reading := RunFrom(armed, p.b);
      var invoked := After(Do(reading, Advance(f)), p.c, f);
      var id := if k in reading.sessions then reading.sessions[k] else "";
      && IsAt(invoked, f, k, Invoking(id)) && Do(reading, Advance(f)).log == reading.log + [Handed(f, k, id)]
      && ArmedFor(armed.flights, f, k)
  {
    WaitsThere(s, p.a, f);
    var armed := After(s, p.a, f);
    WaitsThere(armed, p.b, f);
    var ready := After(armed, p.b, f);
    WaitsThere(ready, p.c, f);
  }

  lemma StoresNext(s: State, f: Id, k: Key, outcome: Outcome, pause: seq<Action>)
    requires IsAt(s, f, k, Returned(outcome)) && Elsewhere(pause, f)
    ensures IsAt(After(s, pause, f), f, k, Unwinding)
    ensures outcome.Answered? && outcome.session != "" ==>
      k in After(s, pause, f).sessions && After(s, pause, f).sessions[k] == outcome.session
  {
    WaitsThere(s, pause, f);
  }

  lemma CancelsNext(s: State, f: Id, k: Key, pause: seq<Action>)
    requires IsAt(s, f, k, Unwinding) && Elsewhere(pause, f)
    ensures IsAt(After(s, pause, f), f, k, Disarming) && f in After(s, pause, f).cancelled
  {
    WaitsThere(s, pause, f);
  }

  lemma DisarmsNext(s: State, f: Id, k: Key, pause: seq<Action>)
    requires IsAt(s, f, k, Disarming) && Elsewhere(pause, f)
    ensures IsAt(After(s, pause, f), f, k, Releasing) && k !in After(s, pause, f).cancelFlights
  {
    WaitsThere(s, pause, f);
  }

  lemma ReleasesNext(s: State, f: Id, k: Key, pause: seq<Action>)
    requires IsAt(s, f, k, Releasing) && Elsewhere(pause, f)
    ensures IsAt(After(s, pause, f), f, k, Finished) && k !in After(s, pause, f).inFlight
  {
    WaitsThere(s, pause, f);
  }

  /** What an invocation returned is kept, and then the context is cancelled and the session given back. */
  lemma ReturnsAndLeaves(s: State, f: Id, k: Key, id: SessionId, outcome: Outcome, p: Pauses)
    requires IsAt(s, f, k, Invoking(id)) && Calm(p, f)
    ensures var returned := Do(s, Return(f, outcome));
      var stored := After(returned, p.a, f);
      var cancelled := After(stored, p.b, f);
      var disarmed := After(cancelled, p.c, f);
      var left := After(disarmed, p.d, f);
      && (outcome.Answered? && outcome.session != "" ==>
            && returned.log == s.log + [Ended(f, k, outcome.session)]
            && k in stored.sessions && stored.sessions[k] == outcome.session)
      && f in cancelled.cancelled && k !in disarmed.cancelFlights
      && k !in left.inFlight && IsAt(left, f, k, Finished)
  {
    var returned := Do(s, Return(f, outcome));
    hide Do, After, Elsewhere;
    ReturnsNext(s, f, k, id, outcome);
    StoresNext(returned, f, k, outcome, p.a);
    var stored := After(returned, p.a, f);
    CancelsNext(stored, f, k, p.b);
    DisarmsNext(After(stored, p.b, f), f, k, p.c);
    ReleasesNext(After(After(stored, p.b, f), p.c, f), f, k, p.d);
  }

  lemma ReturnsNext(s: State, f: Id, k: Key, id: SessionId, outcome: Outcome)
    requires IsAt(s, f, k, Invoking(id))
    ensures IsAt(Do(s, Return(f, outcome)), f, k, Returned(outcome))
    ensures outcome.Answered? && outcome.session != "" ==>
      Do(s, Return(f, outcome)).log == s.log + [Ended(f, k, outcome.session)]
  {
  }

  lemma StopStays(s: State, a: Action, g: Id, f: Id)
    requires Aims(s, g, f) && (s.stops[g].pc.Called? ==> f in s.cancelled)
    ensures Aims(Do(s, a), g, f) && (Do(s, a).stops[g].pc.Called? ==> f in Do(s, a).cancelled)
    ensures s.cancelled <= Do(s, a).cancelled
    ensures a == StopCall(g) ==> f in Do(s, a).cancelled
  {
    if a.Advance? && a.f in s.flights {
      OperateMoves(s, a.f);
      OperateCancelled(s, a.f);
    }
  }

  lemma {:induction false} StopGoesOn(s: State, more: seq<Action>, g: Id, f: Id)
    requires Aims(s, g, f) && (s.stops[g].pc.Called? ==> f in s.cancelled)
    ensures var t := RunFrom(s, more); Aims(t, g, f) && (t.stops[g].pc.Called? ==> f in t.cancelled)
    ensures StopCall(g) in more ==> f in RunFrom(s, more).cancelled
  {
    if more != [] {
      var init := more[..|more| - 1];
      StopGoesOn(s, init, g, f);
      StopStays(RunFrom(s, init), more[|more| - 1], g, f);
      assert more == init + [more[|more| - 1]];
    }
  }

  /**
   * The converse of StopAim: a /stop whose Load runs while a flight of its session is armed aims at
   * that flight, and once it has made its call, whatever happens in between, that flight's context
   * is done. With no flight armed there is nothing to stop.
   */
  lemma StopReaches(init: map<Key, SessionId>, schedule: seq<Action>, g: Id, f: Id, more: seq<Action>)
    requires var s := Run(init, schedule); g in s.stops && s.stops[g].pc.Loading?
    ensures var s, t := Run(init, schedule), Run(init, schedule + [StopLoad(g)]);
      g in t.stops && (t.stops[g].pc == Loaded(f) <==> ArmedFor(s.flights, f, s.stops[g].key))
    ensures var s := Run(init, schedule);
      ArmedFor(s.flights, f, s.stops[g].key) && StopCall(g) in more ==>
        ContextDone(Run(init, schedule + [StopLoad(g)] + more), f)
  {
    var s := Run(init, schedule);
    MutualExclusion(init, schedule);
    assert (schedule + [StopLoad(g)])[..|schedule|] == schedule;
    if ArmedFor(s.flights, f, s.stops[g].key) {
      RunMore(init, schedule + [StopLoad(g)], more);
      StopGoesOn(Run(init, schedule + [StopLoad(g)]), more, g, f);
    }
  }

  /** Shutting down ends every context, for good. */
  lemma {:induction false} DownForGood(s: State, more: seq<Action>, f: Id)
    requires ShutDown in more
    ensures RunFrom(s, more).down && ContextDone(RunFrom(s, more), f)
  {
    var init, a := more[..|more| - 1], more[|more| - 1];
    assert more == init + [a];
    if a != ShutDown {
      DownForGood(s, init, f);
      StaysDown(RunFrom(s, init), a);
    }
  }

  lemma StaysDown(s: State, a: Action)
    requires s.down
    ensures Do(s, a).down
  {
  }

  /** No flight of the session stores what it got in the run. */
  ghost predicate NothingStored(s: State, more: seq<Action>, k: Key) {
    forall i | 0 <= i < |more| :: !StoresAt(s, more, i, k)
  }

  predicate StoresAt(s: State, more: seq<Action>, i: nat, k: Key)
    requires i < |more|
  {
    var t, a := RunFrom(s, more[..i]), more[i];
    a.Advance? && a.f in t.flights && t.flights[a.f].key == k && t.flights[a.f].pc.Returned?
  }

  lemma SessionStays(s: State, a: Action, k: Key)
    requires k !in s.sessions
    requires !(a.Advance? && a.f in s.flights && s.flights[a.f].key == k && s.flights[a.f].pc.Returned?)
    ensures k !in Do(s, a).sessions
  {
  }

  /** After a /clear the session is unknown until a flight of it stores an ID, so a flight is handed none. */
  lemma {:induction false} ClearForgets(s: State, k: Key, more: seq<Action>)
    requires NothingStored(Do(s, Clear(k)), more, k)
    ensures k !in RunFrom(Do(s, Clear(k)), more).sessions
  {
    var cleared := Do(s, Clear(k));
    if more != [] {
      var n := |more| - 1;
      var init := more[..n];
      forall i | 0 <= i < |init| ensures !StoresAt(cleared, init, i, k) {
        assert init[..i] == more[..i];
        assert !StoresAt(cleared, more, i, k);
      }
      ClearForgets(s, k, init);
      assert !StoresAt(cleared, more, n, k);
      SessionStays(RunFrom(cleared, init), more[n], k);
    }
  }
}
