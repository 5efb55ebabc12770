/** The chain of session IDs that successive flights of a key resume. */
module BridgeResume {
  import opened Bridge

  type Sessions = map<Key, SessionId>

  /** The ID of the latest flight of the key that ended well with one; before any, the ID loaded at start. */
  function LastEnded(init: Sessions, log: seq<Event>, k: Key): SessionId {
    if log == [] then Session(init, k)
    else
      var e := log[|log| - 1];
      if e.Ended? && e.key == k then e.session else LastEnded(init, log[..|log| - 1], k)
  }

  /** A /clear of the key came after that flight. */
  predicate Wiped(log: seq<Event>, k: Key) {
    log != [] &&
    var e := log[|log| - 1];
    if e.key == k && !e.Handed? then e.Cleared? else Wiped(log[..|log| - 1], k)
  }

  /** The ID of the latest flight that ended well; or none, if the session was cleared since. */
  ghost predicate Resumes(init: Sessions, log: seq<Event>, k: Key, id: SessionId) {
    id == LastEnded(init, log, k) || (id == "" && Wiped(log, k))
  }

  /** A flight that ended well and has not yet stored its ID. */
  ghost predicate Storing(flights: Flights, f: Id, k: Key, id: SessionId) {
    f in flights && flights[f] == Flight(k, Returned(Answered(id))) && id != ""
  }

  ghost predicate HandedWell(init: Sessions, log: seq<Event>) {
    forall i | 0 <= i < |log| && log[i].Handed? :: Resumes(init, log[..i], log[i].key, log[i].session)
  }

  ghost predicate StoringLast(init: Sessions, flights: Flights, log: seq<Event>) {
    forall f, k, id | Storing(flights, f, k, id) :: LastEnded(init, log, k) == id
  }

  /** Once a flight has stored its ID, the session map holds the ID to resume. */
  ghost predicate StoredUp(init: Sessions, flights: Flights, sessions: Sessions, log: seq<Event>) {
    forall k | (forall f, id :: !Storing(flights, f, k, id)) :: Resumes(init, log, k, Session(sessions, k))
  }

  ghost predicate Chained(init: Sessions, s: State) {
    HandedWell(init, s.log) && StoringLast(init, s.flights, s.log) && StoredUp(init, s.flights, s.sessions, s.log)
  }

  lemma LogGrows(init: Sessions, log: seq<Event>, e: Event, k: Key)
    ensures LastEnded(init, log + [e], k) == if e.Ended? && e.key == k then e.session else LastEnded(init, log, k)
    ensures Wiped(log + [e], k) == if e.key == k && !e.Handed? then e.Cleared? else Wiped(log, k)
  {
    assert (log + [e])[..|log|] == log;
  }

  lemma HandedGrows(init: Sessions, log: seq<Event>, e: Event)
    requires HandedWell(init, log)
    requires e.Handed? ==> Resumes(init, log, e.key, e.session)
    ensures HandedWell(init, log + [e])
  {
    forall i | 0 <= i < |log + [e]| && (log + [e])[i].Handed?
      ensures Resumes(init, (log + [e])[..i], (log + [e])[i].key, (log + [e])[i].session)
    {
      assert (log + [e])[..i] == log[..i];
      assert log[..|log|] == log;
    }
  }

  /** A flight that moves between steps where it has nothing to store. */
  lemma QuietMove(init: Sessions, s: State, f: Id, flight: Flight)
    requires Chained(init, s)
    requires forall k, id :: !Storing(s.flights, f, k, id) && !Storing(map[f := flight], f, k, id)
    ensures Chained(init, s.(flights := s.flights[f := flight]))
  {
    var after := s.flights[f := flight];
    assert forall k, id :: Storing(after, f, k, id) == Storing(map[f := flight], f, k, id);
    assert forall g, k, id | g != f :: Storing(after, g, k, id) == Storing(s.flights, g, k, id);
    forall k | (forall g, id :: !Storing(after, g, k, id)) ensures Resumes(init, s.log, k, Session(s.sessions, k)) {
      forall g, id ensures !Storing(s.flights, g, k, id) {
        assert !Storing(after, g, k, id);
      }
    }
  }

  /** While a flight holds the key and is elsewhere, nothing is about to be stored for it. */
  lemma NothingStoring(s: State, f: Id, k: Key)
    requires Exclusive(s) && Holder(s.flights, f, k) && !s.flights[f].pc.Returned?
    ensures forall g, id :: !Storing(s.flights, g, k, id)
  {
    forall g, id ensures !Storing(s.flights, g, k, id) {
      assert Storing(s.flights, g, k, id) ==> Holder(s.flights, g, k);
    }
  }

  lemma HandKeeps(init: Sessions, s: State, f: Id)
    requires Exclusive(s) && Chained(init, s) && f in s.flights && s.flights[f].pc.Armed?
    ensures Chained(init, Operate(s, f))
  {
    var k := s.flights[f].key;
    var id := Session(s.sessions, k);
    assert Holder(s.flights, f, k);
    NothingStoring(s, f, k);
    var e := Handed(f, k, id);
    assert Resumes(init, s.log, k, id);
    LogKeeps(init, s, e);
    QuietMove(init, s.(log := s.log + [e]), f, Flight(k, Ready(id)));
  }

  /** A logged event that ends no flight and clears nothing. */
  lemma LogKeeps(init: Sessions, s: State, e: Event)
    requires Chained(init, s) && e.Handed? && Resumes(init, s.log, e.key, e.session)
    ensures Chained(init, s.(log := s.log + [e]))
  {
    HandedGrows(init, s.log, e);
    forall k
      ensures LastEnded(init, s.log + [e], k) == LastEnded(init, s.log, k) && Wiped(s.log + [e], k) == Wiped(s.log, k)
    {
      LogGrows(init, s.log, e, k);
    }
  }

  lemma EndKeeps(init: Sessions, s: State, f: Id, id: SessionId)
    requires Exclusive(s) && Chained(init, s) && f in s.flights && s.flights[f].pc.Invoking? && id != ""
    ensures Chained(init, Do(s, Return(f, Answered(id))))
  {
    var k := s.flights[f].key;
    var t := Do(s, Return(f, Answered(id)));
    var e := Ended(f, k, id);
    assert Holder(s.flights, f, k);
    NothingStoring(s, f, k);
    HandedGrows(init, s.log, e);
    forall j
      ensures j != k ==> LastEnded(init, t.log, j) == LastEnded(init, s.log, j) && Wiped(t.log, j) == Wiped(s.log, j)
    {
      LogGrows(init, s.log, e, j);
    }
    LogGrows(init, s.log, e, k);
    assert Storing(t.flights, f, k, id);
    assert forall g, j, i | g != f :: Storing(t.flights, g, j, i) == Storing(s.flights, g, j, i);
    forall g, j, i | Storing(t.flights, g, j, i) ensures LastEnded(init, t.log, j) == i {
      assert g != f ==> Storing(s.flights, g, j, i);
    }
    forall j | (forall g, i :: !Storing(t.flights, g, j, i)) ensures Resumes(init, t.log, j, Session(t.sessions, j)) {
      forall g, i ensures !Storing(s.flights, g, j, i) {
        assert !Storing(t.flights, g, j, i);
      }
    }
  }

  lemma StoreKeeps(init: Sessions, s: State, f: Id)
    requires Chained(init, s) && f in s.flights && s.flights[f].pc.Returned? && Stores(s.flights[f].pc.outcome)
    ensures Chained(init, Operate(s, f))
  {
    var k, id := s.flights[f].key, s.flights[f].pc.outcome.session;
    var t := Operate(s, f);
    assert Storing(s.flights, f, k, id);
    assert LastEnded(init, s.log, k) == id && Session(t.sessions, k) == id && t.log == s.log;
    assert forall g, j, i | g != f :: Storing(t.flights, g, j, i) == Storing(s.flights, g, j, i);
    assert forall j, i :: !Storing(t.flights, f, j, i);
    forall j | (forall g, i :: !Storing(t.flights, g, j, i)) ensures Resumes(init, t.log, j, Session(t.sessions, j)) {
      if j != k {
        forall g, i ensures !Storing(s.flights, g, j, i) {
          assert !Storing(t.flights, g, j, i);
        }
        assert Session(t.sessions, j) == Session(s.sessions, j);
      }
    }
  }

  lemma ClearKeeps(init: Sessions, s: State, k: Key)
    requires Chained(init, s)
    ensures Chained(init, Do(s, Clear(k)))
  {
    var t, e := Do(s, Clear(k)), Cleared(k);
    HandedGrows(init, s.log, e);
    forall j
      ensures LastEnded(init, t.log, j) == LastEnded(init, s.log, j)
      ensures Wiped(t.log, j) == (j == k || Wiped(s.log, j))
    {
      LogGrows(init, s.log, e, j);
    }
    forall j | (forall g, i :: !Storing(t.flights, g, j, i)) ensures Resumes(init, t.log, j, Session(t.sessions, j)) {
      assert j != k ==> Session(t.sessions, j) == Session(s.sessions, j);
    }
  }

  lemma OperateKeepsChain(init: Sessions, s: State, f: Id)
    requires Exclusive(s) && Chained(init, s) && f in s.flights
    ensures Chained(init, Operate(s, f))
  {
    var pc := s.flights[f].pc;
    if pc.Armed? {
      HandKeeps(init, s, f);
    } else if pc.Returned? && Stores(pc.outcome) {
      StoreKeeps(init, s, f);
    } else {
      QuietMove(init, s, f, Flight(s.flights[f].key, NextPc(s, f)));
      OperateQuietly(s, f);
      SameChain(init, s.(flights := s.flights[f := Flight(s.flights[f].key, NextPc(s, f))]), Operate(s, f));
    }
  }

  lemma OperateQuietly(s: State, f: Id)
    requires f in s.flights && !s.flights[f].pc.Armed?
    requires s.flights[f].pc.Returned? ==> !Stores(s.flights[f].pc.outcome)
    ensures var t := Operate(s, f);
      t.flights == s.flights[f := Flight(s.flights[f].key, NextPc(s, f))] && t.sessions == s.sessions && t.log == s.log
  {
    OperateMoves(s, f);
  }

  lemma SameChain(init: Sessions, s: State, t: State)
    requires Chained(init, s) && t.flights == s.flights && t.sessions == s.sessions && t.log == s.log
    ensures Chained(init, t)
  {
  }

  lemma DoKeepsChain(init: Sessions, s: State, a: Action)
    requires Exclusive(s) && Chained(init, s)
    ensures Chained(init, Do(s, a))
  {
    match a
    case Message(f, key) =>
      if f !in s.flights {
        QuietMove(init, s, f, Flight(key, Arrived));
      }
    case Advance(f) =>
      if f in s.flights {
        OperateKeepsChain(init, s, f);
      }
    case Return(f, outcome) =>
      if f in s.flights && s.flights[f].pc.Invoking? {
        if Stores(outcome) {
          EndKeeps(init, s, f, outcome.session);
        } else {
          QuietMove(init, s, f, Flight(s.flights[f].key, Returned(outcome)));
        }
      }
    case Clear(key) =>
      ClearKeeps(init, s, key);
    case _ =>
      SameChain(init, s, Do(s, a));
  }

  /**
   * In every interleaving each flight is handed the session ID of the latest earlier flight of its
   * key that ended without error and with an ID (before any, the one loaded at start), or no ID if
   * the session was cleared after that flight ended; without a /clear it is exactly that ID.
   */
  lemma {:induction false} ResumeChain(init: Sessions, schedule: seq<Action>)
    ensures HandedWell(init, Run(init, schedule).log)
    ensures Chained(init, Run(init, schedule))
  {
    if schedule != [] {
      var before := schedule[..|schedule| - 1];
      ResumeChain(init, before);
      MutualExclusion(init, before);
      DoKeepsChain(init, Run(init, before), schedule[|schedule| - 1]);
    }
  }
}
