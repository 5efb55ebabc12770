/**
 * The in-flight protocol of the bridge: any number of handleMessage goroutines and /stop and
 * /clear commands, interleaved one map operation at a time.
 */
module Bridge {
  type Key = string
  type SessionId = string
  type Id = nat

  /** What a provider invocation returns; an empty session ID is not stored. */
  datatype Outcome = Failed | Answered(session: SessionId)

  /** Where a handleMessage goroutine is. The last three steps are its deferred calls, in LIFO order. */
  datatype Pc =
    | Arrived                      // inFlight.LoadOrStore is next
    | Rejected                     // "still working": the key was taken
    | Holding                      // cancelFlights.Store is next
    | Armed                        // sessions.Get is next
    | Ready(resume: SessionId)     // Invoke is next
    | Invoking(resume: SessionId)
    | Returned(outcome: Outcome)   // sessions.Set is next, or the error return
    | Unwinding                    // invokeCancel is next
    | Disarming                    // cancelFlights.Delete is next
    | Releasing                    // inFlight.Delete is next
    | Finished

  datatype Flight = Flight(key: Key, pc: Pc)

  /** CancelSession: load the cancel function of the key, then call it. */
  datatype StopPc = Loading | Loaded(flight: Id) | NothingToStop | Called(flight: Id)

  datatype Stop = Stop(key: Key, pc: StopPc)

  datatype Event =
    | Handed(flight: Id, key: Key, session: SessionId)   // a flight read its session ID
    | Ended(flight: Id, key: Key, session: SessionId)    // an invocation succeeded with an ID
    | Cleared(key: Key)                                  // /clear

  datatype State = State(
    flights: map<Id, Flight>,
    stops: map<Id, Stop>,
    inFlight: set<Key>,
    cancelFlights: map<Key, Id>,
    sessions: map<Key, SessionId>,
    cancelled: set<Id>,
    down: bool,
    log: seq<Event>)

  datatype Action =
    | Message(f: Id, key: Key)
    | Advance(f: Id)
    | Return(f: Id, outcome: Outcome)
    | StopCommand(g: Id, key: Key)
    | StopLoad(g: Id)
    | StopCall(g: Id)
    | Clear(key: Key)
    | ShutDown

  function Initial(sessions: map<Key, SessionId>): State {
    State(map[], map[], {}, map[], sessions, {}, false, [])
  }

  /** What Sessions.Get returns: the empty string when there is no entry. */
  function Session(sessions: map<Key, SessionId>, key: Key): SessionId {
    if key in sessions then sessions[key] else ""
  }

  function Move(s: State, f: Id, pc: Pc): State
    requires f in s.flights
  {
    s.(flights := s.flights[f := s.flights[f].(pc := pc)])
  }

  predicate Stores(outcome: Outcome) {
    outcome.Answered? && outcome.session != ""
  }

  /** Where a flight is after its next operation. An invocation ends by Return, not by itself. */
  function NextPc(s: State, f: Id): Pc
    requires f in s.flights
  {
    var k, pc := s.flights[f].key, s.flights[f].pc;
    match pc
    case Arrived => if k in s.inFlight then Rejected else Holding
    case Holding => Armed
    case Armed => Ready(Session(s.sessions, k))
    case Ready(id) => Invoking(id)
    case Returned(_) => Unwinding
    case Unwinding => Disarming
    case Disarming => Releasing
    case Releasing => Finished
    case _ => pc
  }

  /** The next map operation of a flight. */
  function Operate(s: State, f: Id): State
    requires f in s.flights
  {
    var k, t := s.flights[f].key, Move(s, f, NextPc(s, f));
    match s.flights[f].pc
    case Arrived => if k in s.inFlight then t else t.(inFlight := s.inFlight + {k})
    case Holding => t.(cancelFlights := s.cancelFlights[k := f])
    case Armed => t.(log := s.log + [Handed(f, k, Session(s.sessions, k))])
    case Returned(outcome) => if Stores(outcome) then t.(sessions := s.sessions[k := outcome.session]) else t
    case Unwinding => t.(cancelled := s.cancelled + {f})
    case Disarming => t.(cancelFlights := s.cancelFlights - {k})
    case Releasing => t.(inFlight := s.inFlight - {k})
    case _ => t
  }

  /** One atomic step; a step that is not possible changes nothing. */
  function Do(s: State, a: Action): State {
    match a
    case Message(f, key) =>
      if f in s.flights then s else s.(flights := s.flights[f := Flight(key, Arrived)])
    case Advance(f) =>
      if f in s.flights then Operate(s, f) else s
    case Return(f, outcome) =>
      if f in s.flights && s.flights[f].pc.Invoking? then
        var t := Move(s, f, Returned(outcome));
        if Stores(outcome)
        then t.(log := s.log + [Ended(f, s.flights[f].key, outcome.session)]) else t
      else s
    case StopCommand(g, key) =>
      if g in s.stops then s else s.(stops := s.stops[g := Stop(key, Loading)])
    case StopLoad(g) =>
      if g in s.stops && s.stops[g].pc == Loading then
        var k := s.stops[g].key;
        s.(stops := s.stops[g := Stop(k, if k in s.cancelFlights then Loaded(s.cancelFlights[k]) else NothingToStop)])
      else s
    case StopCall(g) =>
      if g in s.stops && s.stops[g].pc.Loaded? then
        var f := s.stops[g].pc.flight;
        s.(stops := s.stops[g := Stop(s.stops[g].key, Called(f))], cancelled := s.cancelled + {f})
      else s
    case Clear(key) =>
      s.(sessions := s.sessions - {key}, log := s.log + [Cleared(key)])
    case ShutDown =>
      s.(down := true)
  }

  /** The state after a schedule: any interleaving is one. */
  function Run(init: map<Key, SessionId>, schedule: seq<Action>): State {
    if schedule == [] then Initial(init)
    else Do(Run(init, schedule[..|schedule| - 1]), schedule[|schedule| - 1])
  }

  /** Between LoadOrStore and the deferred inFlight.Delete. */
  predicate Holds(pc: Pc) {
    !pc.Arrived? && !pc.Rejected? && !pc.Finished?
  }

  /** Between cancelFlights.Store and the deferred cancelFlights.Delete. */
  predicate IsArmed(pc: Pc) {
    Holds(pc) && !pc.Holding? && !pc.Releasing?
  }

  type Flights = map<Id, Flight>

  ghost predicate Holder(flights: Flights, f: Id, k: Key) {
    f in flights && flights[f].key == k && Holds(flights[f].pc)
  }

  /** The keys in inFlight are those held, and no two flights hold the same key. */
  ghost predicate OneHolder(flights: Flights, inFlight: set<Key>) {
    && (forall f, k | Holder(flights, f, k) :: k in inFlight)
    && (forall k | k in inFlight :: exists f :: Holder(flights, f, k))
    && (forall f, g, k | Holder(flights, f, k) && Holder(flights, g, k) :: f == g)
  }

  ghost predicate ArmedFor(flights: Flights, f: Id, k: Key) {
    Holder(flights, f, k) && IsArmed(flights[f].pc)
  }

  /** cancelFlights holds exactly the armed flights, each under its own key. */
  ghost predicate CancelsArmed(flights: Flights, cancelFlights: map<Key, Id>) {
    && (forall k | k in cancelFlights :: ArmedFor(flights, cancelFlights[k], k))
    && (forall f, k | ArmedFor(flights, f, k) :: k in cancelFlights && cancelFlights[k] == f)
  }

  ghost predicate Exclusive(s: State) {
    OneHolder(s.flights, s.inFlight) && CancelsArmed(s.flights, s.cancelFlights)
  }

  /** A flight that moves changes nothing about the others. */
  lemma Others(flights: Flights, f: Id, flight: Flight)
    requires f in flights ==> flights[f].key == flight.key
    ensures var after := flights[f := flight];
      && (forall g, k | g != f :: Holder(after, g, k) == Holder(flights, g, k))
      && (forall g, k | g != f :: ArmedFor(after, g, k) == ArmedFor(flights, g, k))
      && (forall k :: Holder(after, f, k) == (k == flight.key && Holds(flight.pc)))
      && (forall k :: ArmedFor(after, f, k) == (k == flight.key && IsArmed(flight.pc)))
  {
  }

  lemma MoveKeepsHolder(flights: Flights, inFlight: set<Key>, f: Id, pc: Pc, inFlight': set<Key>)
    requires OneHolder(flights, inFlight) && f in flights
    requires var k := flights[f].key;
      if Holds(pc) == Holds(flights[f].pc) then inFlight' == inFlight
      else if Holds(pc) then k !in inFlight && inFlight' == inFlight + {k}
      else inFlight' == inFlight - {k}
    ensures OneHolder(flights[f := flights[f].(pc := pc)], inFlight')
  {
    var k, after := flights[f].key, flights[f := flights[f].(pc := pc)];
    Others(flights, f, after[f]);
    assert Holder(flights, f, k) == Holds(flights[f].pc);
    forall j | j in inFlight' ensures exists g :: Holder(after, g, j) {
      if j in inFlight {
        var g :| Holder(flights, g, j);
        assert Holder(after, g, j);
      } else {
        assert Holder(after, f, j);
      }
    }
  }

  lemma MoveKeepsCancels(flights: Flights, inFlight: set<Key>, cancels: map<Key, Id>, f: Id, pc: Pc,
      cancels': map<Key, Id>)
    requires OneHolder(flights, inFlight) && CancelsArmed(flights, cancels) && f in flights
    requires var k := flights[f].key;
      if IsArmed(pc) == IsArmed(flights[f].pc) then cancels' == cancels
      else if IsArmed(pc) then Holds(flights[f].pc) && cancels' == cancels[k := f]
      else cancels' == cancels - {k}
    ensures CancelsArmed(flights[f := flights[f].(pc := pc)], cancels')
  {
    var k, after := flights[f].key, flights[f := flights[f].(pc := pc)];
    Others(flights, f, after[f]);
    assert Holds(flights[f].pc) ==> Holder(flights, f, k);
    assert IsArmed(flights[f].pc) ==> ArmedFor(flights, f, k);
  }

  lemma OperateMoves(s: State, f: Id)
    requires f in s.flights
    ensures Operate(s, f).flights == s.flights[f := s.flights[f].(pc := NextPc(s, f))]
    ensures Operate(s, f).stops == s.stops
  {
    hide NextPc;
    match s.flights[f].pc
    case Arrived =>
    case Returned(_) =>
    case _ =>
  }

  /** The effect of a flight's next operation on inFlight. */
  lemma OperateInFlight(s: State, f: Id)
    requires f in s.flights
    ensures var t, k, pc := Operate(s, f), s.flights[f].key, NextPc(s, f);
      if Holds(pc) == Holds(s.flights[f].pc) then t.inFlight == s.inFlight
      else if Holds(pc) then k !in s.inFlight && t.inFlight == s.inFlight + {k}
      else t.inFlight == s.inFlight - {k}
  {
  }

  /** The effect of a flight's next operation on cancelFlights. */
  lemma OperateCancels(s: State, f: Id)
    requires f in s.flights
    ensures var t, k, pc := Operate(s, f), s.flights[f].key, NextPc(s, f);
      if IsArmed(pc) == IsArmed(s.flights[f].pc) then t.cancelFlights == s.cancelFlights
      else if IsArmed(pc) then Holds(s.flights[f].pc) && t.cancelFlights == s.cancelFlights[k := f]
      else t.cancelFlights == s.cancelFlights - {k}
  {
  }

  lemma OperateKeepsExclusive(s: State, f: Id)
    requires Exclusive(s) && f in s.flights
    ensures Exclusive(Operate(s, f))
  {
    OperateMoves(s, f);
    OperateInFlight(s, f);
    OperateCancels(s, f);
    var t, pc := Operate(s, f), NextPc(s, f);
    MoveKeepsHolder(s.flights, s.inFlight, f, pc, t.inFlight);
    MoveKeepsCancels(s.flights, s.inFlight, s.cancelFlights, f, pc, t.cancelFlights);
  }

  lemma DoKeepsExclusive(s: State, a: Action)
    requires Exclusive(s)
    ensures Exclusive(Do(s, a))
  {
    match a
    case Advance(f) =>
      if f in s.flights {
        OperateKeepsExclusive(s, f);
      }
    case Return(f, outcome) =>
      if f in s.flights && s.flights[f].pc.Invoking? {
        MoveKeepsHolder(s.flights, s.inFlight, f, Returned(outcome), s.inFlight);
        MoveKeepsCancels(s.flights, s.inFlight, s.cancelFlights, f, Returned(outcome), s.cancelFlights);
      }
    case Message(f, key) =>
      Arrival(s, f, key);
    case _ =>
  }

  lemma Arrival(s: State, f: Id, key: Key)
    requires Exclusive(s)
    ensures Exclusive(Do(s, Message(f, key)))
  {
    if f !in s.flights {
      var after := s.flights[f := Flight(key, Arrived)];
      Others(s.flights, f, Flight(key, Arrived));
      forall k | k in s.inFlight ensures exists g :: Holder(after, g, k) {
        var g :| Holder(s.flights, g, k);
        assert Holder(after, g, k);
      }
    }
  }

  /**
   * In every interleaving: no two flights of a key are past LoadOrStore at once, so at most one
   * invocation per key is in progress; a key counts as busy only while a flight holds it; and the
   * cancel function stored for a key is that of the flight holding it.
   */
  lemma {:induction false} MutualExclusion(init: map<Key, SessionId>, schedule: seq<Action>)
    ensures Exclusive(Run(init, schedule))
  {
    if schedule != [] {
      var before := schedule[..|schedule| - 1];
      MutualExclusion(init, before);
      DoKeepsExclusive(Run(init, before), schedule[|schedule| - 1]);
    }
  }

  /** Where the flight that a /stop is about to cancel, or has cancelled, came from. */
  ghost predicate Aims(s: State, g: Id, f: Id) {
    g in s.stops && (s.stops[g].pc == Loaded(f) || s.stops[g].pc == Called(f))
  }

  /**
   * A /stop aims at the flight that held its session when its Load ran, and at no other: not at
   * a flight of another session, and not at one that started later.
   */
  lemma {:induction false} StopAim(init: map<Key, SessionId>, schedule: seq<Action>, g: Id, f: Id) returns (i: nat)
    requires Aims(Run(init, schedule), g, f)
    ensures i < |schedule| && schedule[i] == StopLoad(g)
    ensures Holder(Run(init, schedule[..i]).flights, f, Run(init, schedule).stops[g].key)
  {
    var n := |schedule| - 1;
    var before := Run(init, schedule[..n]);
    if Aims(before, g, f) {
      i := StopAim(init, schedule[..n], g, f);
      assert schedule[..n][..i] == schedule[..i];
      StopKeyKept(before, schedule[n], g);
    } else {
      i := n;
      MutualExclusion(init, schedule[..n]);
      StopLoads(before, schedule[n], g, f);
    }
  }

  lemma StopKeyKept(s: State, a: Action, g: Id)
    requires g in s.stops
    ensures g in Do(s, a).stops && Do(s, a).stops[g].key == s.stops[g].key
  {
    if a.Advance? && a.f in s.flights {
      OperateMoves(s, a.f);
    }
  }

  lemma StopLoads(s: State, a: Action, g: Id, f: Id)
    requires Exclusive(s) && !Aims(s, g, f) && Aims(Do(s, a), g, f)
    ensures a == StopLoad(g) && Holder(s.flights, f, Do(s, a).stops[g].key)
  {
    if a.Advance? && a.f in s.flights {
      OperateMoves(s, a.f);
    }
    assert a == StopLoad(g);
    assert ArmedFor(s.flights, f, s.stops[g].key);
  }

  ghost predicate Unwound(s: State, f: Id) {
    f in s.flights && (s.flights[f].pc.Disarming? || s.flights[f].pc.Releasing? || s.flights[f].pc.Finished?)
  }

  ghost predicate StoppedBy(s: State, g: Id, f: Id) {
    g in s.stops && s.stops[g].pc == Called(f)
  }

  /** The context of a flight's invocation is done: it was cancelled, or the context it derives from was. */
  predicate ContextDone(s: State, f: Id) {
    f in s.cancelled || s.down
  }

  /** A context is done only by the bridge shutting down, by its own flight's defer, or by a /stop aimed at it. */
  lemma ContextDoneBy(init: map<Key, SessionId>, schedule: seq<Action>, f: Id)
    requires ContextDone(Run(init, schedule), f)
    ensures var s := Run(init, schedule); s.down || Unwound(s, f) || exists g :: StoppedBy(s, g, f)
  {
    if f in Run(init, schedule).cancelled {
      CancelledBy(init, schedule, f);
    }
  }

  /** Every cancelled context was cancelled by its own flight's defer or by a /stop aimed at it. */
  lemma {:induction false} CancelledBy(init: map<Key, SessionId>, schedule: seq<Action>, f: Id)
    requires f in Run(init, schedule).cancelled
    ensures Unwound(Run(init, schedule), f) || exists g :: StoppedBy(Run(init, schedule), g, f)
  {
    if schedule != [] {
      var n := |schedule| - 1;
      var before := Run(init, schedule[..n]);
      if f in before.cancelled {
        CancelledBy(init, schedule[..n], f);
      }
      CancelledStep(before, schedule[n], f);
    }
  }

  /** A context that is cancelled just now. */
  lemma NewlyCancelled(s: State, a: Action, f: Id)
    requires f in Do(s, a).cancelled && f !in s.cancelled
    ensures Unwound(Do(s, a), f) || (a.StopCall? && StoppedBy(Do(s, a), a.g, f))
  {
    if a.Advance? && a.f in s.flights {
      hide Operate;
      OperateMoves(s, a.f);
      OperateCancelled(s, a.f);
    }
  }

  lemma OperateCancelled(s: State, f: Id)
    requires f in s.flights
    ensures Operate(s, f).cancelled == s.cancelled + if s.flights[f].pc.Unwinding? then {f} else {}
  {
    hide NextPc;
  }

  lemma CancelledStep(s: State, a: Action, f: Id)
    requires f in Do(s, a).cancelled
    requires f in s.cancelled ==> Unwound(s, f) || exists g :: StoppedBy(s, g, f)
    ensures Unwound(Do(s, a), f) || exists g :: StoppedBy(Do(s, a), g, f)
  {
    hide Do, Unwound, StoppedBy;
    if f !in s.cancelled {
      NewlyCancelled(s, a, f);
    } else if g :| StoppedBy(s, g, f) {
      StopKept(s, a, g, f);
    } else {
      UnwoundKept(s, a, f);
    }
  }

  lemma StopKept(s: State, a: Action, g: Id, f: Id)
    requires StoppedBy(s, g, f)
    ensures StoppedBy(Do(s, a), g, f)
  {
    if a.Advance? && a.f in s.flights {
      OperateMoves(s, a.f);
    }
  }

  lemma UnwoundKept(s: State, a: Action, f: Id)
    requires Unwound(s, f)
    ensures Unwound(Do(s, a), f)
  {
    if a.Advance? && a.f in s.flights && a.f != f {
      OperateMoves(s, a.f);
    }
  }
}
