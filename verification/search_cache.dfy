/**
 * The search cache as a value: its entries in order of last use, what Get and Put do to them, and
 * what holds over runs of both.
 */
module SearchCaches {
  import opened Options
  import opened Trigrams

  type Query = seq<Byte>

  const THRESHOLD: real := 0.7
  const DEFAULT_ENTRIES := 50
  const DEFAULT_TTL := 300_000

  datatype Entry<R> = Entry(query: Query, results: R, createdAt: int)

  /** The entries, least recently used first. */
  type Cache<R> = seq<Entry<R>>

  /** Every entry is so related to every later one. */
  ghost predicate Pairwise<R>(c: Cache<R>, rel: (Query, Query) -> bool) {
    forall i, j | 0 <= i < j < |c| :: rel(c[i].query, c[j].query)
  }

  function Different(): (Query, Query) -> bool {
    (p, q) => p != q
  }

  ghost predicate Distinct<R>(c: Cache<R>) {
    Pairwise(c, Different())
  }

  ghost predicate Holds<R>(c: Cache<R>, query: Query) {
    exists i :: 0 <= i < |c| && c[i].query == query
  }

  predicate Live<R>(e: Entry<R>, now: int, ttl: int) {
    now - e.createdAt < ttl
  }

  /** The entries that are not expired, in the same order. */
  function Fresh<R>(c: Cache<R>, now: int, ttl: int): Cache<R> {
    if c == [] then []
    else
      var last := c[|c| - 1];
      Fresh(c[..|c| - 1], now, ttl) + if Live(last, now, ttl) then [last] else []
  }

  function Without<R>(c: Cache<R>, query: Query): Cache<R> {
    if c == [] then []
    else
      var last := c[|c| - 1];
      Without(c[..|c| - 1], query) + if last.query == query then [] else [last]
  }

  /** The most recently used entries that leave room for one more. */
  function Roomy<R>(c: Cache<R>, max: nat): Cache<R>
    requires max >= 1
  {
    if |c| >= max then c[|c| - max + 1..] else c
  }

  /** What a Put keeps: all that lives, but not the old entry of the query or else the least recently used. */
  ghost function Kept<R>(c: Cache<R>, query: Query, now: int, ttl: int, max: nat): Cache<R>
    requires max >= 1
  {
    var live := Fresh(c, now, ttl);
    if Holds(live, query) then Without(live, query)
    else Roomy(live, max)
  }

  ghost function Stored<R>(c: Cache<R>, query: Query, results: R, now: int, ttl: int, max: nat): Cache<R>
    requires max >= 1
  {
    Kept(c, query, now, ttl, max) + [Entry(query, results, now)]
  }

  function Touched<R>(c: Cache<R>, e: Entry<R>): Cache<R> {
    Without(c, e.query) + [e]
  }

  ghost predicate LiveAt<R>(c: Cache<R>, i: int, now: int, ttl: int) {
    0 <= i < |c| && Live(c[i], now, ttl)
  }

  /** Get: the entry hit, if any, and the cache after it. Ties between similar entries may fall either way. */
  ghost predicate Got<R>(c: Cache<R>, query: Query, now: int, ttl: int, hit: Option<Entry<R>>, after: Cache<R>) {
    if hit.None? then
      && after == c
      && forall i | LiveAt(c, i, now, ttl) :: c[i].query != query && Similarity(query, c[i].query) < THRESHOLD
    else
      var e := hit.value;
      && e in c && Live(e, now, ttl) && after == Touched(c, e)
      && (e.query == query
          || (&& Similarity(query, e.query) >= THRESHOLD
              && forall i | LiveAt(c, i, now, ttl) ::
                   c[i].query != query && Similarity(query, c[i].query) <= Similarity(query, e.query)))
  }

  /**
   * A Get hits exactly if some entry not yet ttl old is for the query or at least 0.7 similar, and
   * what it hits is such an entry.
   */
  lemma HitsExactly<R>(c: Cache<R>, query: Query, now: int, ttl: int, hit: Option<Entry<R>>, after: Cache<R>)
    requires Got(c, query, now, ttl, hit, after)
    ensures hit.Some? <==> exists i :: 0 <= i < |c| && Answers(c[i], query, now, ttl)
    ensures hit.Some? ==> hit.value in c && Answers(hit.value, query, now, ttl)
    ensures hit.Some? && hit.value.query != query ==> forall i | 0 <= i < |c| && now - c[i].createdAt < ttl ::
      c[i].query != query && Similarity(query, c[i].query) <= Similarity(query, hit.value.query)
  {
    if hit.Some? {
      var k :| 0 <= k < |c| && c[k] == hit.value;
      assert Answers(c[k], query, now, ttl);
    }
    assert forall i | 0 <= i < |c| && now - c[i].createdAt < ttl :: LiveAt(c, i, now, ttl);
  }

  predicate Answers<R>(e: Entry<R>, query: Query, now: int, ttl: int) {
    now - e.createdAt < ttl && (e.query == query || Similarity(query, e.query) >= 0.7)
  }

  /** After a Put all entries are less than ttl old. */
  lemma StoredIsYoung<R>(c: Cache<R>, query: Query, results: R, now: int, ttl: int, max: nat)
    requires max >= 1 && ttl > 0
    ensures forall e | e in Stored(c, query, results, now, ttl, max) :: now - e.createdAt < ttl
  {
    var live := Fresh(c, now, ttl);
    FreshContent(c, now, ttl);
    WithoutContent(live, query);
    assert forall e | e in Roomy(live, max) :: e in live;
  }

  lemma {:induction false} FreshContent<R>(c: Cache<R>, now: int, ttl: int)
    ensures forall e :: e in Fresh(c, now, ttl) <==> e in c && Live(e, now, ttl)
    ensures |Fresh(c, now, ttl)| <= |c| && Within(Fresh(c, now, ttl), c)
  {
    if c != [] {
      assert c == c[..|c| - 1] + [c[|c| - 1]];
      FreshContent(c[..|c| - 1], now, ttl);
    }
  }

  /** Exactly the entries less than ttl old are kept. */
  ghost predicate KeepsYoung<R>(c: Cache<R>, after: Cache<R>, now: int, ttl: int) {
    && (forall e | e in after :: e in c && now - e.createdAt < ttl)
    && (forall e | e in c && now - e.createdAt < ttl :: e in after)
  }

  lemma FreshKeepsYoung<R>(c: Cache<R>, now: int, ttl: int)
    ensures KeepsYoung(c, Fresh(c, now, ttl), now, ttl)
  {
    FreshContent(c, now, ttl);
  }

  ghost predicate Within<R>(part: Cache<R>, c: Cache<R>) {
    forall i | 0 <= i < |part| :: part[i] in c
  }

  lemma PairwiseLast<R>(c: Cache<R>, part: Cache<R>, rel: (Query, Query) -> bool)
    requires Pairwise(c, rel) && c != [] && Pairwise(part, rel) && Within(part, c[..|c| - 1])
    ensures Pairwise(part + [c[|c| - 1]], rel)
  {
    forall i | 0 <= i < |part| ensures rel(part[i].query, c[|c| - 1].query) {
      var k :| 0 <= k < |c| - 1 && c[..|c| - 1][k] == part[i];
      assert c[k] == part[i];
    }
  }

  /** Dropping expired entries keeps the others' order. */
  lemma {:induction false} FreshPairwise<R>(c: Cache<R>, now: int, ttl: int, rel: (Query, Query) -> bool)
    requires Pairwise(c, rel)
    ensures Pairwise(Fresh(c, now, ttl), rel)
  {
    if c != [] {
      var init := c[..|c| - 1];
      FreshPairwise(init, now, ttl, rel);
      FreshContent(init, now, ttl);
      PairwiseLast(c, Fresh(init, now, ttl), rel);
    }
  }

  lemma {:induction false} WithoutContent<R>(c: Cache<R>, query: Query)
    ensures forall e :: e in Without(c, query) <==> e in c && e.query != query
    ensures Within(Without(c, query), c)
  {
    if c != [] {
      assert c == c[..|c| - 1] + [c[|c| - 1]];
      WithoutContent(c[..|c| - 1], query);
    }
  }

  lemma WithoutHolds<R>(c: Cache<R>, query: Query)
    ensures !Holds(Without(c, query), query)
  {
    WithoutContent(c, query);
    var w := Without(c, query);
    forall i | 0 <= i < |w| ensures w[i].query != query {
      assert w[i] in w;
    }
  }

  lemma {:induction false} WithoutPairwise<R>(c: Cache<R>, query: Query, rel: (Query, Query) -> bool)
    requires Pairwise(c, rel)
    ensures Pairwise(Without(c, query), rel)
  {
    if c != [] {
      var init := c[..|c| - 1];
      WithoutPairwise(init, query, rel);
      WithoutContent(init, query);
      PairwiseLast(c, Without(init, query), rel);
    }
  }

  lemma HoldsSplit<R>(c: Cache<R>, query: Query)
    requires c != []
    ensures Holds(c, query) <==> Holds(c[..|c| - 1], query) || c[|c| - 1].query == query
  {
    if i :| 0 <= i < |c| && c[i].query == query {
      assert i < |c| - 1 ==> c[..|c| - 1][i].query == query;
    }
    var init := c[..|c| - 1];
    if i :| 0 <= i < |init| && init[i].query == query {
      assert c[i].query == query;
    }
  }

  /** Removing a query shortens a cache without duplicates by exactly its entry. */
  lemma {:induction false} WithoutSize<R>(c: Cache<R>, query: Query)
    requires Distinct(c)
    ensures |Without(c, query)| == if Holds(c, query) then |c| - 1 else |c|
  {
    if c != [] {
      var init, last := c[..|c| - 1], c[|c| - 1];
      HoldsSplit(c, query);
      WithoutSize(init, query);
      assert Holds(init, last.query) ==> false by {
        forall i | 0 <= i < |init| ensures init[i].query != last.query {
          assert Different()(c[i].query, last.query);
        }
      }
    }
  }

  lemma WithinTrans<R>(a: Cache<R>, b: Cache<R>, c: Cache<R>)
    requires Within(a, b) && Within(b, c)
    ensures Within(a, c)
  {
    forall i | 0 <= i < |a| ensures a[i] in c {
      var k :| 0 <= k < |b| && b[k] == a[i];
    }
  }

  lemma KeptIsPart<R>(c: Cache<R>, query: Query, now: int, ttl: int, max: nat, rel: (Query, Query) -> bool)
    requires max >= 1 && Pairwise(c, rel)
    ensures Pairwise(Kept(c, query, now, ttl, max), rel)
    ensures Within(Kept(c, query, now, ttl, max), c)
    ensures !Holds(Kept(c, query, now, ttl, max), query)
  {
    var live := Fresh(c, now, ttl);
    FreshPairwise(c, now, ttl, rel);
    FreshContent(c, now, ttl);
    if Holds(live, query) {
      WithoutPairwise(live, query, rel);
      WithoutContent(live, query);
      WithoutHolds(live, query);
      WithinTrans(Without(live, query), live, c);
    }
  }

  /** A Put makes room: with the new entry the cache is within its bound. */
  lemma KeptFits<R>(c: Cache<R>, query: Query, now: int, ttl: int, max: nat)
    requires max >= 1 && Distinct(c) && |c| <= max
    ensures |Kept(c, query, now, ttl, max)| < max
  {
    FreshPairwise(c, now, ttl, Different());
    FreshContent(c, now, ttl);
    WithoutSize(Fresh(c, now, ttl), query);
  }

  lemma DropFirst<R>(c: Cache<R>, e: Entry<R>)
    requires Distinct(c) && c != [] && e in c
    ensures e !in c[1..] <==> e == c[0]
  {
    assert c == [c[0]] + c[1..];
    forall i | 1 <= i < |c| ensures c[i] != c[0] {
      assert Different()(c[0].query, c[i].query);
    }
  }

  /**
   * A Put loses no live entry of another query, except the least recently used one when all are
   * live and it is full.
   */
  lemma EvictsOldest<R>(c: Cache<R>, query: Query, now: int, ttl: int, max: nat, e: Entry<R>)
    requires max >= 1 && Distinct(c) && |c| <= max
    requires e in c && Live(e, now, ttl) && e.query != query
    ensures e !in Kept(c, query, now, ttl, max) <==>
      Fresh(c, now, ttl) == c && |c| == max && e == c[0] && !Holds(c, query)
  {
    var live := Fresh(c, now, ttl);
    FreshContent(c, now, ttl);
    FreshWhole(c, now, ttl);
    if Holds(live, query) {
      WithoutContent(live, query);
    } else if |live| >= max {
      DropFirst(c, e);
    }
  }

  lemma {:induction false} FreshWhole<R>(c: Cache<R>, now: int, ttl: int)
    ensures |Fresh(c, now, ttl)| <= |c|
    ensures |Fresh(c, now, ttl)| == |c| ==> Fresh(c, now, ttl) == c
  {
    if c != [] {
      FreshWhole(c[..|c| - 1], now, ttl);
      assert c == c[..|c| - 1] + [c[|c| - 1]];
    }
  }
}
