/**
 * SearchCache as an object: a map of entries with their trigrams and the slice of keys in order of
 * use. Every method is proved to do to the cache what SearchCaches says.
 */
module SearchCacheObject {
  import opened Options
  import opened Trigrams
  import opened SearchCaches

  datatype Slot<R> = Slot(query: Query, trigrams: seq<int>, results: R, createdAt: int)

  function EntryOf<R>(s: Slot<R>): Entry<R> {
    Entry(s.query, s.results, s.createdAt)
  }

  ghost predicate Indexed<R>(key: Query, s: Slot<R>) {
    s.query == key && Increasing(s.trigrams) && Elements(s.trigrams) == Codes(Windows(key))
  }

  ghost predicate NoRepeats(order: seq<Query>) {
    forall i, j | 0 <= i < j < |order| :: order[i] != order[j]
  }

  ghost predicate SameKeys<R>(entries: map<Query, Slot<R>>, order: seq<Query>) {
    forall key :: key in entries <==> key in order
  }

  ghost predicate AllIndexed<R>(entries: map<Query, Slot<R>>) {
    forall key | key in entries :: Indexed(key, entries[key])
  }

  ghost predicate Consistent<R>(entries: map<Query, Slot<R>>, order: seq<Query>) {
    NoRepeats(order) && SameKeys(entries, order) && AllIndexed(entries)
  }

  ghost predicate Keyed<R>(entries: map<Query, Slot<R>>) {
    forall key | key in entries :: entries[key].query == key
  }

  ghost predicate InMap<R>(entries: map<Query, Slot<R>>, order: seq<Query>) {
    forall key | key in order :: key in entries
  }

  ghost function Listed<R>(entries: map<Query, Slot<R>>, order: seq<Query>): (c: Cache<R>)
    requires InMap(entries, order)
    ensures |c| == |order|
  {
    if order == [] then []
    else Listed(entries, order[..|order| - 1]) + [EntryOf(entries[order[|order| - 1]])]
  }

  predicate Alive<R>(entries: map<Query, Slot<R>>, key: Query, now: int, ttl: int) {
    key in entries && now - entries[key].createdAt < ttl
  }

  /** The keys that evictExpired keeps, in order, and those it drops. */
  function LiveKeys<R>(entries: map<Query, Slot<R>>, order: seq<Query>, now: int, ttl: int): seq<Query> {
    if order == [] then []
    else
      var key := order[|order| - 1];
      LiveKeys(entries, order[..|order| - 1], now, ttl) + if Alive(entries, key, now, ttl) then [key] else []
  }

  function Evicted<R>(entries: map<Query, Slot<R>>, order: seq<Query>, now: int, ttl: int): map<Query, Slot<R>> {
    map key | key in entries && (key !in order || Alive(entries, key, now, ttl)) :: entries[key]
  }

  class SearchCache<R(==)> {
    const maxEntries: nat
    const ttl: int
    const normalize: string -> Query
    var entries: map<Query, Slot<R>>
    var order: seq<Query>

    ghost predicate Valid()
      reads this
    {
      && maxEntries >= 1 && ttl > 0
      && Consistent(entries, order)
    }

    ghost function Contents(): (c: Cache<R>)
      requires Valid()
      reads this
    {
      Listed(entries, order)
    }

    /** NewSearchCache; times are in milliseconds. */
    constructor (maxEntries: int, ttl: int, normalize: string -> Query)
      ensures Valid() && Contents() == []
      ensures this.maxEntries == (if maxEntries <= 0 then 50 else maxEntries)
      ensures this.ttl == (if ttl <= 0 then 300_000 else ttl)
      ensures this.normalize == normalize
    {
      this.maxEntries := if maxEntries <= 0 then DEFAULT_ENTRIES else maxEntries;
      this.ttl := if ttl <= 0 then DEFAULT_TTL else ttl;
      this.normalize := normalize;
      entries, order := map[], [];
    }

    /** evictExpiredLocked. */
    method EvictExpired(now: int)
      requires Valid()
      modifies this
      ensures Valid() && Contents() == Fresh(old(Contents()), now, ttl)
      ensures KeepsYoung(old(Contents()), Contents(), now, ttl)
    {
      hide KeepsYoung, Fresh, Listed, LiveKeys, Evicted;
      ghost var before := Contents();
      var newOrder: seq<Query> := [];
      ghost var was := entries;
      EvictNone(was, order, now, ttl);
      for i := 0 to |order|
        invariant order == old(order)
        invariant newOrder == LiveKeys(was, order[..i], now, ttl)
        invariant entries == Evicted(was, order[..i], now, ttl)
      {
        var key := order[i];
        EvictStep(was, order, i, now, ttl);
        if key !in entries || now - entries[key].createdAt >= ttl {
          entries := entries - {key};
          continue;
        }
        newOrder := newOrder + [key];
      }
      assert order[..|order|] == order;
      EvictDone(was, order, now, ttl);
      order := newOrder;
      FreshKeepsYoung(before, now, ttl);
    }

    /** moveToEndLocked. */
    method MoveToEnd(key: Query)
      requires Valid() && key in entries
      modifies this`order
      ensures Valid() && Contents() == Touched(old(Contents()), EntryOf(entries[key]))
    {
      var i := 0;
      while order[i] != key
        invariant 0 <= i < |order|
        invariant key in order[i..]
        decreases |order| - i
      {
        assert order[i..] == [order[i]] + order[i + 1..];
        i := i + 1;
      }
      MovedConsistent(entries, order, i);
      order := order[..i] + order[i + 1..];
      order := order + [key];
    }

    /** Get: the exact entry if it lives, else the most similar live one at or above the threshold. */
    method Get(query: string, now: int) returns (results: Option<R>, ghost hit: Option<Entry<R>>)
      requires Valid()
      modifies this`order
      ensures Valid() && results == if hit.None? then None else Some(hit.value.results)
      ensures if normalize(query) == [] then hit.None? && Contents() == old(Contents())
              else Got(old(Contents()), normalize(query), now, ttl, hit, Contents())
      ensures hit.Some? ==> hit.value in old(Contents()) && Answers(hit.value, normalize(query), now, ttl)
    {
      hit, results := None, None;
      var normalized := normalize(query);
      if normalized == [] {
        return;
      }
      if normalized in entries {
        var entry := entries[normalized];
        if now - entry.createdAt < ttl {
          hit := Some(EntryOf(entry));
          GotHit(entries, order, normalized, now, ttl, normalized);
          MoveToEnd(normalized);
          results := Some(entry.results);
          return;
        }
      }
      var best, bestSim := MostSimilar(normalized, now);
      if bestSim >= THRESHOLD && best.Some? {
        hit := Some(EntryOf(entries[best.value]));
        GotHit(entries, order, normalized, now, ttl, best.value);
        results := Some(entries[best.value].results);
        MoveToEnd(best.value);
        return;
      }
      GotNothing(entries, order, normalized, now, ttl);
    }

    /** The loop of Get over the live entries; the map is visited in any order. */
    method MostSimilar(normalized: Query, now: int) returns (best: Option<Query>, bestSim: real)
      requires Valid()
      ensures best.Some? ==> Alive(entries, best.value, now, ttl) && Similarity(normalized, best.value) == bestSim
      ensures best.None? ==> bestSim == 0.0
      ensures forall key | Alive(entries, key, now, ttl) :: Similarity(normalized, key) <= bestSim
    {
      var queryTrigrams := BuildTrigrams(normalized);
      best, bestSim := None, 0.0;
      var keys := entries.Keys;
      while keys != {}
        invariant keys <= entries.Keys
        invariant best.Some? ==> Alive(entries, best.value, now, ttl) && Similarity(normalized, best.value) == bestSim
        invariant best.None? ==> bestSim == 0.0
        invariant forall key | Alive(entries, key, now, ttl) && key !in keys :: Similarity(normalized, key) <= bestSim
        decreases keys
      {
        var key :| key in keys;
        keys := keys - {key};
        var entry := entries[key];
        if now - entry.createdAt >= ttl {
          continue;
        }
        var sim := JaccardSimilarity(queryTrigrams, entry.trigrams);
        CodesExact(Windows(normalized), Windows(key));
        assert sim == Similarity(normalized, key);
        if sim > bestSim {
          bestSim := sim;
          best := Some(key);
        }
      }
    }

    /** Put. */
    method Put(query: string, results: R, now: int)
      requires Valid()
      modifies this
      ensures Valid()
      ensures Contents() == if normalize(query) == [] then old(Contents())
                            else Stored(old(Contents()), normalize(query), results, now, ttl, maxEntries)
      ensures normalize(query) != [] ==> forall e | e in Contents() :: now - e.createdAt < ttl
    {
      StoredIsYoung(Contents(), normalize(query), results, now, ttl, maxEntries);
      var normalized := normalize(query);
      if normalized == [] {
        return;
      }
      EvictExpired(now);
      ListedHolds(entries, order, normalized);
      var trigrams := BuildTrigrams(normalized);
      if normalized in entries {
        Update(Slot(normalized, trigrams, results, now));
        return;
      }
      Add(Slot(normalized, trigrams, results, now));
    }

    /** Put on a query that has a live entry. */
    method Update(slot: Slot<R>)
      requires Valid() && slot.query in entries && Indexed(slot.query, slot)
      modifies this
      ensures Valid() && Contents() == Without(old(Contents()), slot.query) + [EntryOf(slot)]
    {
      Replaced(entries, order, slot);
      entries := entries[slot.query := slot];
      MoveToEnd(slot.query);
    }

    /** Put on a query that has none. */
    method Add(slot: Slot<R>)
      requires Valid() && slot.query !in entries && Indexed(slot.query, slot)
      modifies this
      ensures Valid() && Contents() == Roomy(old(Contents()), maxEntries) + [EntryOf(slot)]
    {
      MakeRoom();
      Added(entries, order, slot);
      order, entries := order + [slot.query], entries[slot.query := slot];
    }

    /** Put's eviction loop: the least recently used entries go until there is room for one more. */
    method MakeRoom()
      requires Valid()
      modifies this
      ensures Valid() && entries.Keys <= old(entries.Keys)
      ensures Contents() == Roomy(old(Contents()), maxEntries)
    {
      hide Consistent, Listed;
      SizeOf(entries, order);
      while |entries| >= maxEntries && |order| > 0
        invariant Valid() && entries.Keys <= old(entries.Keys)
        invariant |entries| == |order|
        invariant Roomy(Contents(), maxEntries) == Roomy(old(Contents()), maxEntries)
        decreases |order|
      {
        DropOldest(entries, order);
        RoomyStep(Contents(), maxEntries);
        var oldest := order[0];
        order, entries := order[1..], entries - {oldest};
      }
    }
  }

  lemma RoomyStep<R>(c: Cache<R>, max: nat)
    requires max >= 1 && |c| >= max
    ensures Roomy(c[1..], max) == Roomy(c, max)
  {
  }

  lemma ListedAppend<R>(entries: map<Query, Slot<R>>, order: seq<Query>, key: Query)
    requires key in entries && InMap(entries, order)
    ensures InMap(entries, order + [key])
    ensures Listed(entries, order + [key]) == Listed(entries, order) + [EntryOf(entries[key])]
  {
    assert (order + [key])[..|order|] == order;
  }

  lemma {:induction false} ListedSame<R>(a: map<Query, Slot<R>>, b: map<Query, Slot<R>>, order: seq<Query>)
    requires InMap(a, order) && InMap(b, order) && forall key | key in order :: a[key] == b[key]
    ensures Listed(a, order) == Listed(b, order)
  {
    if order != [] {
      ListedSame(a, b, order[..|order| - 1]);
    }
  }

  lemma {:induction false} LiveContent<R>(entries: map<Query, Slot<R>>, order: seq<Query>, now: int, ttl: int)
    ensures forall key :: key in LiveKeys(entries, order, now, ttl) <==> key in order && Alive(entries, key, now, ttl)
    ensures NoRepeats(order) ==> NoRepeats(LiveKeys(entries, order, now, ttl))
  {
    if order != [] {
      var init := order[..|order| - 1];
      LiveContent(entries, init, now, ttl);
      assert order == init + [order[|order| - 1]];
      assert NoRepeats(order) ==> order[|order| - 1] !in init;
    }
  }

  lemma {:induction false} LiveIsFresh<R>(entries: map<Query, Slot<R>>, order: seq<Query>, now: int, ttl: int)
    requires InMap(entries, order) && InMap(entries, LiveKeys(entries, order, now, ttl))
    ensures Listed(entries, LiveKeys(entries, order, now, ttl)) == Fresh(Listed(entries, order), now, ttl)
  {
    if order != [] {
      var init, key := order[..|order| - 1], order[|order| - 1];
      LiveContent(entries, init, now, ttl);
      LiveIsFresh(entries, init, now, ttl);
      var live := LiveKeys(entries, init, now, ttl);
      var all := Listed(entries, order);
      assert all[..|init|] == Listed(entries, init) && all[|init|] == EntryOf(entries[key]);
      assert LiveKeys(entries, order, now, ttl) == live + if Alive(entries, key, now, ttl) then [key] else [];
      if Alive(entries, key, now, ttl) {
        ListedAppend(entries, live, key);
      } else {
        assert live + [] == live;
      }
    }
  }

  lemma EvictStep<R>(was: map<Query, Slot<R>>, order: seq<Query>, i: nat, now: int, ttl: int)
    requires Consistent(was, order) && i < |order|
    ensures order[i] in Evicted(was, order[..i], now, ttl)
    ensures Evicted(was, order[..i], now, ttl)[order[i]] == was[order[i]]
    ensures LiveKeys(was, order[..i + 1], now, ttl) ==
      LiveKeys(was, order[..i], now, ttl) + if Alive(was, order[i], now, ttl) then [order[i]] else []
    ensures Evicted(was, order[..i + 1], now, ttl) ==
      Evicted(was, order[..i], now, ttl) - if Alive(was, order[i], now, ttl) then {} else {order[i]}
  {
    var key := order[i];
    assert order[..i + 1][..i] == order[..i];
    assert order[..i + 1] == order[..i] + [key];
    assert key in order && key !in order[..i];
    forall k ensures k in order[..i + 1] <==> k in order[..i] || k == key {
    }
  }

  lemma EvictNone<R>(was: map<Query, Slot<R>>, order: seq<Query>, now: int, ttl: int)
    ensures Evicted(was, order[..0], now, ttl) == was && LiveKeys(was, order[..0], now, ttl) == []
  {
  }

  lemma EvictDone<R>(was: map<Query, Slot<R>>, order: seq<Query>, now: int, ttl: int)
    requires Consistent(was, order)
    ensures Consistent(Evicted(was, order, now, ttl), LiveKeys(was, order, now, ttl))
    ensures Listed(Evicted(was, order, now, ttl), LiveKeys(was, order, now, ttl)) == Fresh(Listed(was, order), now, ttl)
  {
    LiveContent(was, order, now, ttl);
    LiveIsFresh(was, order, now, ttl);
    ListedSame(was, Evicted(was, order, now, ttl), LiveKeys(was, order, now, ttl));
  }

  /** The keys without the one at i. */
  function Cut(order: seq<Query>, i: nat): seq<Query>
    requires i < |order|
  {
    order[..i] + order[i + 1..]
  }

  lemma CutContent(order: seq<Query>, i: nat)
    requires i < |order| && NoRepeats(order)
    ensures NoRepeats(Cut(order, i))
    ensures forall key :: key in Cut(order, i) <==> key in order && key != order[i]
  {
    assert order == order[..i] + [order[i]] + order[i + 1..];
  }

  lemma {:induction false} WithoutUnless<R>(entries: map<Query, Slot<R>>, order: seq<Query>, key: Query)
    requires InMap(entries, order) && Keyed(entries) && key !in order
    ensures Without(Listed(entries, order), key) == Listed(entries, order)
  {
    if order != [] {
      var c := Listed(entries, order);
      WithoutUnless(entries, order[..|order| - 1], key);
      assert c[..|c| - 1] == Listed(entries, order[..|order| - 1]);
      assert order[|order| - 1] in order;
    }
  }

  lemma WithoutLast<R>(c: Cache<R>, e: Entry<R>, query: Query)
    ensures Without(c + [e], query) == Without(c, query) + if e.query == query then [] else [e]
  {
    assert (c + [e])[..|c|] == c;
  }

  lemma CutLast(order: seq<Query>, i: nat)
    requires i < |order|
    ensures i == |order| - 1 ==> Cut(order, i) == order[..|order| - 1]
    ensures i < |order| - 1 ==> Cut(order, i) == Cut(order[..|order| - 1], i) + [order[|order| - 1]]
  {
  }

  lemma {:induction false} WithoutListed<R>(entries: map<Query, Slot<R>>, order: seq<Query>, i: nat)
    requires InMap(entries, order) && Keyed(entries)
    requires NoRepeats(order) && i < |order| && InMap(entries, Cut(order, i))
    ensures Without(Listed(entries, order), order[i]) == Listed(entries, Cut(order, i))
  {
    var init, last := order[..|order| - 1], order[|order| - 1];
    assert last in order && last !in init;
    assert InMap(entries, init);
    WithoutLast(Listed(entries, init), EntryOf(entries[last]), order[i]);
    CutLast(order, i);
    if i == |init| {
      WithoutUnless(entries, init, last);
    } else {
      CutContent(init, i);
      WithoutListed(entries, init, i);
      ListedAppend(entries, Cut(init, i), last);
    }
  }

  lemma MovedConsistent<R>(entries: map<Query, Slot<R>>, order: seq<Query>, i: nat)
    requires Consistent(entries, order) && i < |order|
    ensures Consistent(entries, Cut(order, i) + [order[i]])
    ensures Listed(entries, Cut(order, i) + [order[i]]) == Touched(Listed(entries, order), EntryOf(entries[order[i]]))
  {
    CutContent(order, i);
    WithoutListed(entries, order, i);
    ListedAppend(entries, Cut(order, i), order[i]);
  }

  lemma {:induction false} ListedAt<R>(entries: map<Query, Slot<R>>, order: seq<Query>, i: nat)
    requires InMap(entries, order) && i < |order|
    ensures Listed(entries, order)[i] == EntryOf(entries[order[i]])
  {
    if i < |order| - 1 {
      ListedAt(entries, order[..|order| - 1], i);
    }
  }

  lemma ListedHolds<R>(entries: map<Query, Slot<R>>, order: seq<Query>, key: Query)
    requires Consistent(entries, order)
    ensures Holds(Listed(entries, order), key) <==> key in entries
  {
    var c := Listed(entries, order);
    if i :| 0 <= i < |c| && c[i].query == key {
      ListedAt(entries, order, i);
    }
    if i :| 0 <= i < |order| && order[i] == key {
      ListedAt(entries, order, i);
      assert c[i].query == key;
    }
  }

  /** The entry of a live key that is the query, or most similar to it while the query has none alive. */
  lemma GotHit<R>(entries: map<Query, Slot<R>>, order: seq<Query>, query: Query, now: int, ttl: int, key: Query)
    requires Consistent(entries, order) && Alive(entries, key, now, ttl)
    requires key == query
      || (&& !Alive(entries, query, now, ttl) && Similarity(query, key) >= THRESHOLD
          && forall k | Alive(entries, k, now, ttl) :: Similarity(query, k) <= Similarity(query, key))
    ensures Got(Listed(entries, order), query, now, ttl, Some(EntryOf(entries[key])),
                Touched(Listed(entries, order), EntryOf(entries[key])))
  {
    var c := Listed(entries, order);
    var j :| 0 <= j < |order| && order[j] == key;
    ListedAt(entries, order, j);
    if key != query {
      forall i | LiveAt(c, i, now, ttl)
        ensures c[i].query != query && Similarity(query, c[i].query) <= Similarity(query, key)
      {
        ListedAt(entries, order, i);
        assert Alive(entries, order[i], now, ttl);
      }
    }
  }

  lemma GotNothing<R>(entries: map<Query, Slot<R>>, order: seq<Query>, query: Query, now: int, ttl: int)
    requires Consistent(entries, order) && !Alive(entries, query, now, ttl)
    requires forall k | Alive(entries, k, now, ttl) :: Similarity(query, k) < THRESHOLD
    ensures Got(Listed(entries, order), query, now, ttl, None, Listed(entries, order))
  {
    var c := Listed(entries, order);
    forall i | LiveAt(c, i, now, ttl) ensures c[i].query != query && Similarity(query, c[i].query) < THRESHOLD {
      ListedAt(entries, order, i);
      assert Alive(entries, order[i], now, ttl);
    }
  }

  lemma {:induction false} WithoutUpdated<R>(entries: map<Query, Slot<R>>, order: seq<Query>, s: Slot<R>)
    requires InMap(entries, order) && Keyed(entries)
    ensures Without(Listed(entries[s.query := s], order), s.query) == Without(Listed(entries, order), s.query)
  {
    if order != [] {
      var init, last := order[..|order| - 1], order[|order| - 1];
      assert InMap(entries, init) && last in order;
      WithoutUpdated(entries, init, s);
      WithoutLast(Listed(entries, init), EntryOf(entries[last]), s.query);
      WithoutLast(Listed(entries[s.query := s], init), EntryOf(entries[s.query := s][last]), s.query);
    }
  }

  lemma Replaced<R>(entries: map<Query, Slot<R>>, order: seq<Query>, s: Slot<R>)
    requires Consistent(entries, order) && s.query in entries && Indexed(s.query, s)
    ensures Consistent(entries[s.query := s], order)
    ensures Touched(Listed(entries[s.query := s], order), EntryOf(s)) ==
      Without(Listed(entries, order), s.query) + [EntryOf(s)]
  {
    WithoutUpdated(entries, order, s);
  }

  lemma Added<R>(entries: map<Query, Slot<R>>, order: seq<Query>, s: Slot<R>)
    requires Consistent(entries, order) && s.query !in entries && Indexed(s.query, s)
    ensures Consistent(entries[s.query := s], order + [s.query])
    ensures Listed(entries[s.query := s], order + [s.query]) == Listed(entries, order) + [EntryOf(s)]
  {
    assert s.query !in order;
    ListedAppend(entries[s.query := s], order, s.query);
    ListedSame(entries, entries[s.query := s], order);
  }

  lemma {:induction false} ListedTail<R>(entries: map<Query, Slot<R>>, order: seq<Query>)
    requires InMap(entries, order) && order != []
    ensures InMap(entries, order[1..]) && Listed(entries, order[1..]) == Listed(entries, order)[1..]
  {
    forall i | 0 <= i < |order| - 1 ensures Listed(entries, order[1..])[i] == Listed(entries, order)[1..][i] {
      ListedAt(entries, order, i + 1);
      ListedAt(entries, order[1..], i);
    }
  }

  lemma DropConsistent<R>(entries: map<Query, Slot<R>>, order: seq<Query>)
    requires Consistent(entries, order) && order != []
    ensures Consistent(entries - {order[0]}, order[1..])
  {
    assert order == [order[0]] + order[1..];
    assert order[0] !in order[1..];
  }

  lemma {:induction false} SizeOf<R>(entries: map<Query, Slot<R>>, order: seq<Query>)
    requires Consistent(entries, order)
    ensures |entries| == |order|
  {
    if order != [] {
      DropConsistent(entries, order);
      SizeOf(entries - {order[0]}, order[1..]);
      assert entries.Keys == (entries - {order[0]}).Keys + {order[0]};
    } else {
      assert entries.Keys == {};
    }
  }

  lemma DropOldest<R>(entries: map<Query, Slot<R>>, order: seq<Query>)
    requires Consistent(entries, order) && order != []
    ensures Consistent(entries - {order[0]}, order[1..])
    ensures Listed(entries - {order[0]}, order[1..]) == Listed(entries, order)[1..]
    ensures |entries - {order[0]}| == |order| - 1
  {
    DropConsistent(entries, order);
    SizeOf(entries - {order[0]}, order[1..]);
    ListedTail(entries, order);
    ListedSame(entries, entries - {order[0]}, order[1..]);
  }
}
