/**
 * Runs of Get and Put: the cache holds the latest Put of each of its queries, in order of last
 * use, and never too many; an entry stays as long as it lives and few enough others are used.
 */
module SearchCacheRuns {
  import opened Options
  import opened SearchCaches
  import opened Trigrams

  /** One call; a Get with the entry it hit. The empty query is ignored. */
  datatype Op<R> =
    | Put(query: Query, results: R, now: int)
    | Get(query: Query, now: int, hit: Option<Entry<R>>)

  ghost predicate Steps<R>(c: Cache<R>, op: Op<R>, ttl: int, max: nat, after: Cache<R>)
    requires max >= 1
  {
    match op
    case Put(query, results, now) =>
      after == if query == [] then c else Stored(c, query, results, now, ttl, max)
    case Get(query, now, hit) =>
      if query == [] then hit.None? && after == c else Got(c, query, now, ttl, hit, after)
  }

  ghost predicate StepAt<R(!new)>(ops: seq<Op<R>>, states: seq<Cache<R>>, ttl: int, max: nat, i: nat)
    requires max >= 1 && i < |ops| < |states|
  {
    Steps(states[i], ops[i], ttl, max, states[i + 1])
  }

  /** A run from the empty cache: the states between the calls. */
  ghost predicate IsRun<R(!new)>(ops: seq<Op<R>>, states: seq<Cache<R>>, ttl: int, max: nat)
    requires max >= 1
  {
    && |states| == |ops| + 1 && states[0] == []
    && forall i | 0 <= i < |ops| :: StepAt(ops, states, ttl, max, i)
  }

  /** The query whose entry the call put or hit. */
  function Used<R>(op: Op<R>): Option<Query> {
    match op
    case Put(query, _, _) => if query == [] then None else Some(query)
    case Get(_, _, hit) => if hit.None? then None else Some(hit.value.query)
  }

  /** When the query was last put or hit; -1 if never. */
  function LastUse<R>(ops: seq<Op<R>>, query: Query): (i: int)
    ensures -1 <= i < |ops|
  {
    if ops == [] then -1
    else if Used(ops[|ops| - 1]) == Some(query) then |ops| - 1
    else LastUse(ops[..|ops| - 1], query)
  }

  function LatestPut<R>(ops: seq<Op<R>>, query: Query): Option<Entry<R>> {
    if ops == [] then None
    else
      var last := ops[|ops| - 1];
      if last.Put? && last.query == query && query != [] then Some(Entry(query, last.results, last.now))
      else LatestPut(ops[..|ops| - 1], query)
  }

  function UsedBefore<R>(ops: seq<Op<R>>): (Query, Query) -> bool {
    (p, q) => LastUse(ops, p) < LastUse(ops, q)
  }

  ghost predicate Latest<R>(c: Cache<R>, ops: seq<Op<R>>) {
    forall i | 0 <= i < |c| :: LatestPut(ops, c[i].query) == Some(c[i])
  }

  /** What every reachable cache is: bounded, the latest results, the least recently used first. */
  ghost predicate Faithful<R>(c: Cache<R>, ops: seq<Op<R>>, max: nat) {
    && |c| <= max
    && Pairwise(c, UsedBefore(ops))
    && Latest(c, ops)
  }

  lemma UsedBeforeDiffers<R>(c: Cache<R>, ops: seq<Op<R>>)
    requires Pairwise(c, UsedBefore(ops))
    ensures Distinct(c)
  {
    forall i, j | 0 <= i < j < |c| ensures Different()(c[i].query, c[j].query) {
      assert UsedBefore(ops)(c[i].query, c[j].query);
    }
  }

  lemma LastUseNow<R>(ops: seq<Op<R>>, op: Op<R>, query: Query)
    ensures LastUse(ops + [op], query) == if Used(op) == Some(query) then |ops| else LastUse(ops, query)
    ensures LatestPut(ops + [op], query) ==
      if op.Put? && op.query == query && query != [] then Some(Entry(query, op.results, op.now))
      else LatestPut(ops, query)
  {
    assert (ops + [op])[..|ops|] == ops;
  }

  lemma AppendUsed<R>(part: Cache<R>, e: Entry<R>, ops: seq<Op<R>>, op: Op<R>)
    requires Pairwise(part, UsedBefore(ops)) && !Holds(part, e.query) && Used(op) == Some(e.query)
    ensures Pairwise(part + [e], UsedBefore(ops + [op]))
  {
    var rel := UsedBefore(ops + [op]);
    forall i, j | 0 <= i < j < |part + [e]| ensures rel((part + [e])[i].query, (part + [e])[j].query) {
      LastUseNow(ops, op, (part + [e])[i].query);
      LastUseNow(ops, op, (part + [e])[j].query);
      assert j < |part| ==> UsedBefore(ops)(part[i].query, part[j].query);
    }
  }

  lemma AppendLatest<R>(c: Cache<R>, part: Cache<R>, e: Entry<R>, ops: seq<Op<R>>, op: Op<R>)
    requires Latest(c, ops) && Within(part, c) && !Holds(part, e.query)
    requires if op.Put? then op.query != [] && e == Entry(op.query, op.results, op.now) else e in c
    ensures Latest(part + [e], ops + [op])
  {
    forall i | 0 <= i < |part + [e]| ensures LatestPut(ops + [op], (part + [e])[i].query) == Some((part + [e])[i]) {
      LastUseNow(ops, op, (part + [e])[i].query);
      if i < |part| {
        var k :| 0 <= k < |c| && c[k] == part[i];
      } else if op.Get? {
        var k :| 0 <= k < |c| && c[k] == e;
      }
    }
  }

  lemma IdleFaithful<R>(c: Cache<R>, ops: seq<Op<R>>, op: Op<R>, max: nat)
    requires Faithful(c, ops, max) && Used(op).None?
    ensures Faithful(c, ops + [op], max)
  {
    forall i | 0 <= i < |c| ensures LatestPut(ops + [op], c[i].query) == Some(c[i]) {
      LastUseNow(ops, op, c[i].query);
    }
    forall i, j | 0 <= i < j < |c| ensures UsedBefore(ops + [op])(c[i].query, c[j].query) {
      LastUseNow(ops, op, c[i].query);
      LastUseNow(ops, op, c[j].query);
      assert UsedBefore(ops)(c[i].query, c[j].query);
    }
  }

  lemma StepFaithful<R>(c: Cache<R>, ops: seq<Op<R>>, op: Op<R>, ttl: int, max: nat, after: Cache<R>)
    requires max >= 1 && Faithful(c, ops, max) && Steps(c, op, ttl, max, after)
    ensures Faithful(after, ops + [op], max)
  {
    UsedBeforeDiffers(c, ops);
    if Used(op).None? {
      IdleFaithful(c, ops, op, max);
    } else if op.Put? {
      var kept, e := Kept(c, op.query, op.now, ttl, max), Entry(op.query, op.results, op.now);
      KeptIsPart(c, op.query, op.now, ttl, max, UsedBefore(ops));
      KeptFits(c, op.query, op.now, ttl, max);
      AppendUsed(kept, e, ops, op);
      AppendLatest(c, kept, e, ops, op);
    } else {
      var e := op.hit.value;
      var kept := Without(c, e.query);
      WithoutPairwise(c, e.query, UsedBefore(ops));
      WithoutContent(c, e.query);
      WithoutHolds(c, e.query);
      WithoutSize(c, e.query);
      AppendUsed(kept, e, ops, op);
      AppendLatest(c, kept, e, ops, op);
      var k :| 0 <= k < |c| && c[k] == e;
      assert Holds(c, e.query);
    }
  }

  /**
   * In every run the cache is within its bound, its order is by last use, and each entry is the
   * latest Put of its query.
   */
  lemma {:induction false} RunFaithful<R(!new)>(ops: seq<Op<R>>, states: seq<Cache<R>>, ttl: int, max: nat, i: nat)
    requires max >= 1 && IsRun(ops, states, ttl, max) && i <= |ops|
    ensures Faithful(states[i], ops[..i], max)
  {
    if i > 0 {
      RunFaithful(ops, states, ttl, max, i - 1);
      assert StepAt(ops, states, ttl, max, i - 1);
      StepFaithful(states[i - 1], ops[..i - 1], ops[i - 1], ttl, max, states[i]);
      assert ops[..i] == ops[..i - 1] + [ops[i - 1]];
    }
  }

  /** The call is the latest Put of its query among the given ones. */
  ghost predicate PutLast<R>(ops: seq<Op<R>>, t: int, e: Entry<R>) {
    && 0 <= t < |ops| && ops[t].Put? && e == PutBy(ops[t])
    && forall k | t < k < |ops| :: !(ops[k].Put? && ops[k].query == e.query)
  }

  lemma {:induction false} LatestPutAt<R>(ops: seq<Op<R>>, query: Query) returns (t: int)
    requires LatestPut(ops, query).Some?
    ensures PutLast(ops, t, LatestPut(ops, query).value)
  {
    LatestIsOf(ops, query);
    var init, last := ops[..|ops| - 1], ops[|ops| - 1];
    if last.Put? && last.query == query {
      t := |ops| - 1;
    } else {
      t := LatestPutAt(init, query);
      assert forall k | 0 <= k < |init| :: init[k] == ops[k];
    }
  }

  lemma {:induction false} LatestIsOf<R>(ops: seq<Op<R>>, query: Query)
    ensures LatestPut(ops, query).Some? ==> query != [] && LatestPut(ops, query).value.query == query
  {
    if ops != [] {
      LatestIsOf(ops[..|ops| - 1], query);
    }
  }

  /**
   * In every run, whatever a Get hits is what the latest Put of that query stored, which was less
   * than ttl before the Get; and its query is the Get's or at least 0.7 similar.
   */
  lemma HitsAreYoung<R(!new)>(ops: seq<Op<R>>, states: seq<Cache<R>>, ttl: int, max: nat, u: nat) returns (t: int)
    requires max >= 1 && IsRun(ops, states, ttl, max) && u < |ops|
    requires ops[u].Get? && ops[u].hit.Some?
    ensures PutLast(ops[..u], t, ops[u].hit.value)
    ensures ops[u].now - ops[t].now < ttl
    ensures ops[t].query == ops[u].query || Similarity(ops[u].query, ops[t].query) >= 0.7
  {
    var hit := ops[u].hit.value;
    assert StepAt(ops, states, ttl, max, u);
    RunFaithful(ops, states, ttl, max, u);
    HitsExactly(states[u], ops[u].query, ops[u].now, ttl, ops[u].hit, states[u + 1]);
    var i :| 0 <= i < |states[u]| && states[u][i] == hit;
    t := LatestPutAt(ops[..u], hit.query);
  }

  /** The entry is in the cache, and all entries used more recently have their queries in others. */
  ghost predicate Behind<R>(c: Cache<R>, e: Entry<R>, others: set<Query>) {
    exists i :: IsAt(c, e, i) && forall j | i < j < |c| :: c[j].query in others
  }

  ghost predicate IsAt<R>(c: Cache<R>, e: Entry<R>, i: int) {
    0 <= i < |c| && c[i] == e
  }

  lemma BehindSplit<R>(c: Cache<R>, e: Entry<R>, others: set<Query>)
    requires c != []
    ensures Behind(c, e, others) <==>
      c[|c| - 1] == e || (Behind(c[..|c| - 1], e, others) && c[|c| - 1].query in others)
  {
    var init := c[..|c| - 1];
    if c[|c| - 1] == e {
      assert IsAt(c, e, |c| - 1);
    }
    if Behind(c, e, others) {
      var i :| IsAt(c, e, i) && forall j | i < j < |c| :: c[j].query in others;
      assert i < |c| - 1 ==> IsAt(init, e, i);
      assert forall j | i < j < |init| :: init[j] == c[j];
    }
    if Behind(init, e, others) && c[|c| - 1].query in others {
      var i :| IsAt(init, e, i) && forall j | i < j < |init| :: init[j].query in others;
      assert IsAt(c, e, i);
      assert forall j | i < j < |init| :: init[j] == c[j];
    }
  }

  lemma {:induction false} FreshBehind<R>(c: Cache<R>, e: Entry<R>, others: set<Query>, now: int, ttl: int)
    requires Behind(c, e, others) && Live(e, now, ttl)
    ensures Behind(Fresh(c, now, ttl), e, others)
  {
    var init, last := c[..|c| - 1], c[|c| - 1];
    BehindSplit(c, e, others);
    var f := Fresh(c, now, ttl);
    if Live(last, now, ttl) {
      assert f[..|f| - 1] == Fresh(init, now, ttl);
      BehindSplit(f, e, others);
    } else {
      assert f == Fresh(init, now, ttl);
    }
    if last != e {
      FreshBehind(init, e, others, now, ttl);
    }
  }

  lemma {:induction false} WithoutBehind<R>(c: Cache<R>, e: Entry<R>, others: set<Query>, query: Query)
    requires Behind(c, e, others) && e.query != query
    ensures Behind(Without(c, query), e, others)
  {
    var init, last := c[..|c| - 1], c[|c| - 1];
    BehindSplit(c, e, others);
    var w := Without(c, query);
    if last.query != query {
      assert w[..|w| - 1] == Without(init, query);
      BehindSplit(w, e, others);
    } else {
      assert w == Without(init, query);
    }
    if last != e {
      WithoutBehind(init, e, others, query);
    }
  }

  /** The queries used more recently are different ones, so there are no more of them than in others. */
  lemma {:induction false} BehindCount<R>(c: Cache<R>, i: nat, others: set<Query>)
    requires Distinct(c) && i <= |c|
    requires forall j | i <= j < |c| :: c[j].query in others
    ensures |c| - i <= |others|
  {
    if i < |c| {
      var init, last := c[..|c| - 1], c[|c| - 1];
      forall j | i <= j < |init| ensures init[j].query in others - {last.query} {
        assert Different()(c[j].query, last.query);
      }
      BehindCount(init, i, others - {last.query});
    }
  }

  lemma EvictionSpares<R>(live: Cache<R>, e: Entry<R>, others: set<Query>, query: Query, max: nat)
    requires Distinct(live) && Behind(live, e, others) && !Holds(live, query) && |live| >= max >= 1
    requires |others + {query}| < max
    ensures Behind(live[|live| - max + 1..], e, others)
  {
    var i :| IsAt(live, e, i) && forall j | i < j < |live| :: live[j].query in others;
    forall j | i + 1 <= j < |live| ensures live[j].query in (others + {query}) - {query} {
      assert live[j].query != query;
    }
    BehindCount(live, i + 1, (others + {query}) - {query});
    var drop := |live| - max + 1;
    assert drop <= i;
    var rest := live[drop..];
    assert IsAt(rest, e, i - drop);
    assert forall j | i - drop < j < |rest| :: rest[j] == live[j + drop];
  }

  lemma BehindGrows<R>(c: Cache<R>, e: Entry<R>, others: set<Query>, last: Entry<R>)
    requires Behind(c, e, others)
    ensures Behind(c + [last], e, others + {last.query})
  {
    var i :| IsAt(c, e, i) && forall j | i < j < |c| :: c[j].query in others;
    assert IsAt(c + [last], e, i);
  }

  lemma KeptBehind<R>(c: Cache<R>, e: Entry<R>, others: set<Query>, query: Query, now: int, ttl: int, max: nat)
    requires max >= 1 && Distinct(c) && Behind(c, e, others) && Live(e, now, ttl) && e.query != query
    requires |others + {query}| < max
    ensures Behind(Kept(c, query, now, ttl, max), e, others)
  {
    var live := Fresh(c, now, ttl);
    FreshBehind(c, e, others, now, ttl);
    if Holds(live, query) {
      WithoutBehind(live, e, others, query);
    } else if |live| >= max {
      assert Distinct(live) by {
        FreshPairwise(c, now, ttl, Different());
      }
      EvictionSpares(live, e, others, query, max);
    }
  }

  /** A call that neither puts the entry's query again nor comes after it expired, as far as Put checks. */
  ghost predicate Spares<R>(op: Op<R>, e: Entry<R>, ttl: int) {
    op.Put? ==> op.query != e.query && Live(e, op.now, ttl)
  }

  function UsedBy<R>(op: Op<R>): set<Query> {
    if Used(op).None? then {} else {Used(op).value}
  }

  lemma StepBehind<R>(c: Cache<R>, op: Op<R>, ttl: int, max: nat, after: Cache<R>, e: Entry<R>, others: set<Query>)
    requires max >= 1 && Distinct(c) && Steps(c, op, ttl, max, after)
    requires Behind(c, e, others) && Spares(op, e, ttl)
    requires |others + (UsedBy(op) - {e.query})| < max
    ensures Behind(after, e, others + (UsedBy(op) - {e.query}))
  {
    if Used(op).None? {
      assert others + (UsedBy(op) - {e.query}) == others;
    } else if op.Put? {
      assert UsedBy(op) - {e.query} == {op.query};
      KeptBehind(c, e, others, op.query, op.now, ttl, max);
      BehindGrows(Kept(c, op.query, op.now, ttl, max), e, others, Entry(op.query, op.results, op.now));
    } else {
      var hit := op.hit.value;
      if hit.query == e.query {
        SameQuery(c, hit, e);
        assert IsAt(after, e, |after| - 1);
      } else {
        assert UsedBy(op) - {e.query} == {hit.query};
        WithoutBehind(c, e, others, hit.query);
        BehindGrows(Without(c, hit.query), e, others, hit);
      }
    }
  }

  lemma SameQuery<R>(c: Cache<R>, d: Entry<R>, e: Entry<R>)
    requires Distinct(c) && d in c && e in c && d.query == e.query
    ensures d == e
  {
    var i :| 0 <= i < |c| && c[i] == d;
    var j :| 0 <= j < |c| && c[j] == e;
    assert i < j ==> Different()(c[i].query, c[j].query);
    assert j < i ==> Different()(c[j].query, c[i].query);
  }

  /** The queries other than the given one that calls t to u - 1 use. */
  function Others<R>(ops: seq<Op<R>>, query: Query, t: nat, u: nat): set<Query>
    requires u <= |ops|
  {
    if u <= t then {} else Others(ops, query, t, u - 1) + (UsedBy(ops[u - 1]) - {query})
  }

  ghost predicate Undisturbed<R>(ops: seq<Op<R>>, e: Entry<R>, t: nat, u: nat, ttl: int, max: nat)
    requires u <= |ops|
  {
    && (forall k | t <= k < u :: Spares(ops[k], e, ttl))
    && |Others(ops, e.query, t, u)| < max
  }

  lemma UndisturbedBefore<R>(ops: seq<Op<R>>, e: Entry<R>, t: nat, u: nat, ttl: int, max: nat)
    requires t < u <= |ops| && Undisturbed(ops, e, t, u, ttl, max)
    ensures Undisturbed(ops, e, t, u - 1, ttl, max)
  {
    SmallerSet(Others(ops, e.query, t, u - 1), Others(ops, e.query, t, u));
  }

  function PutBy<R>(op: Op<R>): Entry<R>
    requires op.Put?
  {
    Entry(op.query, op.results, op.now)
  }

  lemma PutIsLast<R(!new)>(ops: seq<Op<R>>, states: seq<Cache<R>>, ttl: int, max: nat, t: nat)
    requires max >= 1 && IsRun(ops, states, ttl, max) && t < |ops|
    requires ops[t].Put? && ops[t].query != []
    ensures Behind(states[t + 1], PutBy(ops[t]), {})
  {
    assert StepAt(ops, states, ttl, max, t);
    assert IsAt(states[t + 1], PutBy(ops[t]), |states[t + 1]| - 1);
  }

  lemma OthersNone<R>(ops: seq<Op<R>>, query: Query, t: nat)
    requires t <= |ops|
    ensures Others(ops, query, t, t) == {}
  {
  }

  /** An entry used last stays, if no call disturbs it. */
  lemma {:induction false} Stays<R(!new)>(ops: seq<Op<R>>, states: seq<Cache<R>>, ttl: int, max: nat, e: Entry<R>,
      t: nat, u: nat)
    requires max >= 1 && IsRun(ops, states, ttl, max) && t <= u <= |ops|
    requires Behind(states[t], e, {}) && Undisturbed(ops, e, t, u, ttl, max)
    ensures Behind(states[u], e, Others(ops, e.query, t, u))
  {
    hide Behind, IsRun, Undisturbed, Others;
    if t == u {
      OthersNone(ops, e.query, t);
    } else {
      UndisturbedBefore(ops, e, t, u, ttl, max);
      Stays(ops, states, ttl, max, e, t, u - 1);
      SurvivesStep(ops, states, ttl, max, e, t, u - 1);
    }
  }

  /**
   * What a Put stores at call t stays, unchanged, up to call u, if between them there is no other
   * Put of the query, no Put finds it expired, and fewer than max other queries are used.
   */
  lemma Survives<R(!new)>(ops: seq<Op<R>>, states: seq<Cache<R>>, ttl: int, max: nat, t: nat, u: nat)
    requires max >= 1 && IsRun(ops, states, ttl, max) && t < u <= |ops|
    requires ops[t].Put? && ops[t].query != []
    requires Undisturbed(ops, PutBy(ops[t]), t + 1, u, ttl, max)
    ensures PutBy(ops[t]) in states[u]
  {
    PutIsLast(ops, states, ttl, max, t);
    Stays(ops, states, ttl, max, PutBy(ops[t]), t + 1, u);
  }

  lemma SurvivesStep<R(!new)>(ops: seq<Op<R>>, states: seq<Cache<R>>, ttl: int, max: nat, e: Entry<R>, t: nat, k: nat)
    requires max >= 1 && IsRun(ops, states, ttl, max) && t <= k < |ops|
    requires Behind(states[k], e, Others(ops, e.query, t, k))
    requires Undisturbed(ops, e, t, k + 1, ttl, max)
    ensures Behind(states[k + 1], e, Others(ops, e.query, t, k + 1))
  {
    RunFaithful(ops, states, ttl, max, k);
    UsedBeforeDiffers(states[k], ops[..k]);
    assert StepAt(ops, states, ttl, max, k);
    StepBehind(states[k], ops[k], ttl, max, states[k + 1], e, Others(ops, e.query, t, k));
  }

  lemma SmallerSet<T>(a: set<T>, b: set<T>)
    requires a <= b
    ensures |a| <= |b|
  {
    assert b == a + (b - a);
  }

  /** A Get that finds its own query alive answers with that entry and no other. */
  lemma ExactHit<R>(c: Cache<R>, query: Query, now: int, ttl: int, hit: Option<Entry<R>>, after: Cache<R>, e: Entry<R>)
    requires Distinct(c) && e in c && e.query == query && Live(e, now, ttl)
    requires Got(c, query, now, ttl, hit, after)
    ensures hit == Some(e)
  {
    var i :| 0 <= i < |c| && c[i] == e;
    assert LiveAt(c, i, now, ttl);
    if hit.Some? {
      SameQuery(c, hit.value, e);
    }
  }

  /** So a Get of that query at call u, while the entry lives, returns what was put at call t. */
  lemma GetReturnsPut<R(!new)>(ops: seq<Op<R>>, states: seq<Cache<R>>, ttl: int, max: nat, t: nat, u: nat)
    requires max >= 1 && IsRun(ops, states, ttl, max) && t < u < |ops|
    requires ops[t].Put? && ops[t].query != []
    requires Undisturbed(ops, PutBy(ops[t]), t + 1, u, ttl, max)
    requires ops[u].Get? && ops[u].query == ops[t].query && ops[u].now - ops[t].now < ttl
    ensures ops[u].hit == Some(PutBy(ops[t]))
  {
    var e := PutBy(ops[t]);
    Survives(ops, states, ttl, max, t, u);
    RunFaithful(ops, states, ttl, max, u);
    UsedBeforeDiffers(states[u], ops[..u]);
    assert StepAt(ops, states, ttl, max, u);
    ExactHit(states[u], e.query, ops[u].now, ttl, ops[u].hit, states[u + 1], e);
  }
}
