/**
 * invokeWithRetry over an arbitrary runOnce: when it stops, what it returns, and which session ID
 * each attempt is given.
 */
module Retry {
  import opened Options

  /** retryReason. */
  datatype Reason = NoRetry | SessionExpired | IdleTimeout

  /** What runOnce returned; an error message if there was one. */
  datatype Attempt = Attempt(sessionID: string, output: string, reason: Reason, error: Option<string>)

  datatype Outcome = Returned(last: Attempt) | Hung(idleTimeouts: nat)

  /** runOnce on its n-th call with a session ID; the rest of the request never changes. */
  type RunOnce = (nat, string) -> Attempt

  function Count(trace: seq<Attempt>, reason: Reason): (n: nat)
    ensures n <= |trace|
  {
    if trace == [] then 0
    else Count(trace[..|trace| - 1], reason) + if trace[|trace| - 1].reason == reason then 1 else 0
  }

  function MaxAttempts(maxRetries: int): nat {
    if maxRetries < 1 then 1 else maxRetries
  }

  /** The last attempt needs no retry, or is an idle timeout or an expiry too many. */
  predicate Stops(trace: seq<Attempt>, maxRetries: int) {
    trace != [] &&
    match trace[|trace| - 1].reason
    case NoRetry => true
    case SessionExpired => Count(trace, SessionExpired) == 2
    case IdleTimeout => Count(trace, IdleTimeout) == MaxAttempts(maxRetries)
  }

  predicate StopsAfter(trace: seq<Attempt>, k: nat, maxRetries: int)
    requires k <= |trace|
  {
    Stops(trace[..k], maxRetries)
  }

  /** No attempt before the last was one to stop at. */
  ghost predicate GoesOn(trace: seq<Attempt>, maxRetries: int) {
    forall k | 0 <= k < |trace| :: !StopsAfter(trace, k, maxRetries)
  }

  /** The session ID of the next attempt. */
  function Session(first: string, trace: seq<Attempt>): string {
    if trace == [] then first
    else
      var last := trace[|trace| - 1];
      match last.reason
      case NoRetry => Session(first, trace[..|trace| - 1])
      case SessionExpired => ""
      case IdleTimeout => if last.sessionID != "" then last.sessionID else Session(first, trace[..|trace| - 1])
  }

  predicate AttemptAt(runOnce: RunOnce, first: string, trace: seq<Attempt>, i: nat)
    requires i < |trace|
  {
    trace[i] == runOnce(i, Session(first, trace[..i]))
  }

  /** Every attempt was made with the session ID that the attempts before it determine. */
  ghost predicate Attempts(runOnce: RunOnce, first: string, trace: seq<Attempt>) {
    forall i | 0 <= i < |trace| :: AttemptAt(runOnce, first, trace, i)
  }

  /** The loop goes on: how its variables stand for the attempts made so far. */
  ghost predicate Going(runOnce: RunOnce, first: string, maxRetries: int, trace: seq<Attempt>,
                        idleAttempts: int, sessionRetried: bool, sessionID: string) {
    && Attempts(runOnce, first, trace) && GoesOn(trace, maxRetries) && !Stops(trace, maxRetries)
    && idleAttempts == Count(trace, IdleTimeout) < MaxAttempts(maxRetries)
    && Count(trace, SessionExpired) == (if sessionRetried then 1 else 0)
    && |trace| == idleAttempts + Count(trace, SessionExpired)
    && sessionID == Session(first, trace)
  }

  ghost predicate Ended(runOnce: RunOnce, first: string, maxRetries: int, trace: seq<Attempt>) {
    && Attempts(runOnce, first, trace) && GoesOn(trace, maxRetries) && Stops(trace, maxRetries)
    && |trace| <= MaxAttempts(maxRetries) + 1
  }

  /** invokeWithRetry, with the attempts it made. */
  method InvokeWithRetry(runOnce: RunOnce, first: string, maxRetries: int)
    returns (outcome: Outcome, trace: seq<Attempt>)
    ensures Attempts(runOnce, first, trace)
    ensures GoesOn(trace, maxRetries) && Stops(trace, maxRetries)
    ensures trace != [] && outcome ==
      if trace[|trace| - 1].reason.IdleTimeout? then Hung(MaxAttempts(maxRetries)) else Returned(trace[|trace| - 1])
    ensures |trace| <= MaxAttempts(maxRetries) + 1
    ensures EndsRightly(trace, if maxRetries < 1 then 1 else maxRetries)
    ensures outcome.Hung? ==> outcome.idleTimeouts == if maxRetries < 1 then 1 else maxRetries
  {
    hide Going, Ended, Attempts, GoesOn, Stops;
    var maxAttempts := maxRetries;
    if maxAttempts < 1 {
      maxAttempts := 1;
    }
    var sessionRetried := false;
    var idleAttempts := 0;
    var sessionID := first;
    trace := [];
    GoingFirst(runOnce, first, maxRetries);
    while true
      invariant maxAttempts == MaxAttempts(maxRetries) && 0 <= idleAttempts < maxAttempts
      invariant Going(runOnce, first, maxRetries, trace, idleAttempts, sessionRetried, sessionID)
      decreases maxAttempts - idleAttempts, !sessionRetried
    {
      var result := runOnce(|trace|, sessionID);
      Attempted(runOnce, first, maxRetries, trace, idleAttempts, sessionRetried, sessionID, result);
      trace := trace + [result];
      match result.reason {
        case SessionExpired =>
          if sessionRetried {
            outcome := Returned(result);
            break;
          }
          sessionRetried := true;
          sessionID := "";
        case IdleTimeout =>
          idleAttempts := idleAttempts + 1;
          if idleAttempts >= maxAttempts {
            outcome := Hung(idleAttempts);
            break;
          }
          if result.sessionID != "" {
            sessionID := result.sessionID;
          }
        case NoRetry =>
          outcome := Returned(result);
          break;
      }
    }
    EndedMeans(runOnce, first, maxRetries, trace);
    StopsExactly(trace, maxRetries);
  }

  lemma GoingFirst(runOnce: RunOnce, first: string, maxRetries: int)
    ensures Going(runOnce, first, maxRetries, [], 0, false, first)
  {
  }

  lemma EndedMeans(runOnce: RunOnce, first: string, maxRetries: int, trace: seq<Attempt>)
    requires Ended(runOnce, first, maxRetries, trace)
    ensures Attempts(runOnce, first, trace) && GoesOn(trace, maxRetries) && Stops(trace, maxRetries)
    ensures trace != [] && |trace| <= MaxAttempts(maxRetries) + 1
  {
  }

  /** What one more attempt leads to. */
  lemma Attempted(runOnce: RunOnce, first: string, maxRetries: int, trace: seq<Attempt>,
                  idleAttempts: int, sessionRetried: bool, sessionID: string, a: Attempt)
    requires Going(runOnce, first, maxRetries, trace, idleAttempts, sessionRetried, sessionID)
    requires a == runOnce(|trace|, sessionID)
    ensures var now := trace + [a];
      match a.reason
      case NoRetry => Ended(runOnce, first, maxRetries, now)
      case SessionExpired =>
        if sessionRetried then Ended(runOnce, first, maxRetries, now)
        else Going(runOnce, first, maxRetries, now, idleAttempts, true, "")
      case IdleTimeout =>
        if idleAttempts + 1 >= MaxAttempts(maxRetries) then Ended(runOnce, first, maxRetries, now)
        else Going(runOnce, first, maxRetries, now, idleAttempts + 1, sessionRetried,
                   if a.sessionID != "" then a.sessionID else sessionID)
  {
    hide Count, Session, Stops, GoesOn, Attempts;
    TraceGrows(runOnce, first, trace, a, maxRetries);
    CountNow(trace, a, IdleTimeout);
    CountNow(trace, a, SessionExpired);
    SessionNow(first, trace, a);
    StopsNow(trace, a, maxRetries);
  }

  lemma Prefixes(trace: seq<Attempt>, a: Attempt)
    ensures forall i | 0 <= i <= |trace| :: (trace + [a])[..i] == trace[..i]
    ensures (trace + [a])[..|trace|] == trace[..|trace|] == trace
  {
  }

  lemma StopsNow(trace: seq<Attempt>, a: Attempt, maxRetries: int)
    ensures Stops(trace + [a], maxRetries) <==>
      || a.reason.NoRetry?
      || (a.reason.SessionExpired? && Count(trace + [a], SessionExpired) == 2)
      || (a.reason.IdleTimeout? && Count(trace + [a], IdleTimeout) == MaxAttempts(maxRetries))
  {
    hide Count;
  }

  lemma CountNow(trace: seq<Attempt>, a: Attempt, reason: Reason)
    ensures Count(trace + [a], reason) == Count(trace, reason) + if a.reason == reason then 1 else 0
  {
    Prefixes(trace, a);
  }

  lemma SessionNow(first: string, trace: seq<Attempt>, a: Attempt)
    ensures Session(first, trace + [a]) ==
      if a.reason.SessionExpired? then ""
      else if a.reason.IdleTimeout? && a.sessionID != "" then a.sessionID
      else Session(first, trace)
  {
    Prefixes(trace, a);
  }

  lemma TraceGrows(runOnce: RunOnce, first: string, trace: seq<Attempt>, a: Attempt, maxRetries: int)
    requires GoesOn(trace, maxRetries) && !Stops(trace, maxRetries) && Attempts(runOnce, first, trace)
    requires a == runOnce(|trace|, Session(first, trace))
    ensures GoesOn(trace + [a], maxRetries) && Attempts(runOnce, first, trace + [a])
  {
    Prefixes(trace, a);
    forall k | 0 <= k < |trace + [a]| ensures !StopsAfter(trace + [a], k, maxRetries) {
      assert k < |trace| ==> !StopsAfter(trace, k, maxRetries);
    }
    forall i | 0 <= i < |trace + [a]| ensures AttemptAt(runOnce, first, trace + [a], i) {
      assert i < |trace| ==> AttemptAt(runOnce, first, trace, i);
    }
  }

  lemma GoesOnBefore(trace: seq<Attempt>, maxRetries: int)
    requires GoesOn(trace, maxRetries) && trace != []
    ensures GoesOn(trace[..|trace| - 1], maxRetries) && !Stops(trace[..|trace| - 1], maxRetries)
  {
    var init := trace[..|trace| - 1];
    forall k | 0 <= k < |init| ensures !StopsAfter(init, k, maxRetries) {
      assert init[..k] == trace[..k];
      assert !StopsAfter(trace, k, maxRetries);
    }
    assert !StopsAfter(trace, |trace| - 1, maxRetries);
  }

  lemma {:induction false} CountAll(trace: seq<Attempt>, maxRetries: int)
    requires GoesOn(trace, maxRetries) && !Stops(trace, maxRetries)
    ensures |trace| == Count(trace, IdleTimeout) + Count(trace, SessionExpired)
    ensures Count(trace, IdleTimeout) < MaxAttempts(maxRetries) && Count(trace, SessionExpired) < 2
  {
    if trace != [] {
      var init := trace[..|trace| - 1];
      GoesOnBefore(trace, maxRetries);
      CountAll(init, maxRetries);
    }
  }

  /**
   * Any trace that stops for the first time at its last attempt has the hung error exactly on the
   * last allowed idle timeout, wherever the one session retry falls among them.
   */
  lemma HungExactly(trace: seq<Attempt>, maxRetries: int)
    requires GoesOn(trace, maxRetries) && Stops(trace, maxRetries)
    ensures trace[|trace| - 1].reason.IdleTimeout? <==> Count(trace, IdleTimeout) == MaxAttempts(maxRetries)
    ensures trace[|trace| - 1].reason.IdleTimeout? ==>
      |trace| == MaxAttempts(maxRetries) + Count(trace, SessionExpired) && Count(trace, SessionExpired) <= 1
    ensures |trace| <= MaxAttempts(maxRetries) + 1
  {
    var init := trace[..|trace| - 1];
    GoesOnBefore(trace, maxRetries);
    CountAll(init, maxRetries);
  }

  /**
   * All attempts but the last ended in an idle timeout or the first expiry of the session, fewer
   * than `allowed` in an idle timeout; and the last needs no retry, is one timeout too many, or is
   * the second expiry.
   */
  ghost predicate EndsRightly(trace: seq<Attempt>, allowed: int) {
    && trace != []
    && (forall k | 0 <= k < |trace| - 1 :: !trace[k].reason.NoRetry?)
    && match trace[|trace| - 1].reason
       case NoRetry => Count(trace, IdleTimeout) < allowed && Count(trace, SessionExpired) <= 1
       case SessionExpired => Count(trace, IdleTimeout) < allowed && Count(trace, SessionExpired) == 2
       case IdleTimeout => Count(trace, IdleTimeout) == allowed && Count(trace, SessionExpired) <= 1
  }

  lemma StopsExactly(trace: seq<Attempt>, maxRetries: int)
    requires GoesOn(trace, maxRetries) && Stops(trace, maxRetries)
    ensures EndsRightly(trace, if maxRetries < 1 then 1 else maxRetries)
  {
    GoesOnBefore(trace, maxRetries);
    CountAll(trace[..|trace| - 1], maxRetries);
    forall k | 0 <= k < |trace| - 1 ensures !trace[k].reason.NoRetry? {
      assert !StopsAfter(trace, k + 1, maxRetries);
      assert trace[..k + 1][k] == trace[k];
    }
  }

  /** A retry resumes what the latest idle timeout reported since the session expired, if it expired. */
  lemma {:induction false} SessionSource(first: string, trace: seq<Attempt>, maxRetries: int)
    returns (source: int)
    requires GoesOn(trace, maxRetries) && !Stops(trace, maxRetries)
    ensures -1 <= source < |trace|
    ensures source == -1 ==> Session(first, trace) == first
    ensures source >= 0 && trace[source].reason.SessionExpired? ==> Session(first, trace) == ""
    ensures source >= 0 && trace[source].reason.IdleTimeout? ==> Session(first, trace) == trace[source].sessionID != ""
    ensures source >= 0 ==> !trace[source].reason.NoRetry?
    ensures forall k | source < k < |trace| :: trace[k].reason.IdleTimeout? && trace[k].sessionID == ""
  {
    if trace == [] {
      return -1;
    }
    var init, last := trace[..|trace| - 1], trace[|trace| - 1];
    GoesOnBefore(trace, maxRetries);
    if last.reason.SessionExpired? || last.sessionID != "" {
      return |trace| - 1;
    }
    source := SessionSource(first, init, maxRetries);
  }
}
