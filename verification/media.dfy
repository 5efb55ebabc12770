/**
 * The media store as a machine: refs are unmapped under the lock and their files removed later,
 * outside it, while other callers store, release and clean and time passes.
 */
module Media {
  type Ref = string
  type Path = string
  type Scope = string

  datatype Slot = Slot(path: Path, meta: string, storedAt: int, scope: Scope)

  type Table = map<Ref, Slot>

  /** A file to be removed, and the ref it was stored under. */
  datatype Doomed = Doomed(ref: Ref, path: Path)

  predicate NoRepeats(order: seq<Ref>) {
    forall i, j | 0 <= i < j < |order| :: order[i] != order[j]
  }

  /** The refs in some order; the source ranges over a map. */
  predicate Enumerates(order: seq<Ref>, refs: set<Ref>) {
    NoRepeats(order) && (set ref | ref in order) == refs
  }

  function InScope(t: Table, scope: Scope): set<Ref> {
    set ref | ref in t && t[ref].scope == scope
  }

  /** The entries stored strictly before the cutoff. */
  function Expired(t: Table, cutoff: int): set<Ref> {
    set ref | ref in t && t[ref].storedAt < cutoff
  }

  function Batch(t: Table, order: seq<Ref>): (b: seq<Doomed>)
    requires forall ref | ref in order :: ref in t
    ensures |b| == |order|
  {
    seq(|order|, i requires 0 <= i < |order| => Doomed(order[i], t[order[i]].path))
  }

  /** The batches are the second phases under way; removed lists the removals attempted so far. */
  datatype System = System(
    maxAge: int, clock: int, table: Table, batches: seq<seq<Doomed>>, removed: seq<Doomed>, stored: map<Ref, Path>)

  datatype Action =
    | Pass(time: nat)
    | Store(ref: Ref, path: Path, meta: string, scope: Scope)
    | Release(scope: Scope, order: seq<Ref>)
    | Clean(order: seq<Ref>)
    | Remove(batch: nat)

  /** What a cleaning takes; without a maximal age it takes nothing. */
  function Aged(s: System): set<Ref> {
    if s.maxAge <= 0 then {} else Expired(s.table, s.clock - s.maxAge)
  }

  /** First phase: the refs leave the table and become a batch of files to remove. */
  function Unmap(s: System, refs: set<Ref>, order: seq<Ref>): System
    requires Enumerates(order, refs) && refs <= s.table.Keys
  {
    s.(table := s.table - refs, batches := s.batches + [Batch(s.table, order)])
  }

  /** One step; a ref is a fresh UUID, and a step that is not possible changes nothing. */
  function Do(s: System, a: Action): System {
    match a
    case Pass(time) =>
      s.(clock := s.clock + time)
    case Store(ref, path, meta, scope) =>
      if ref in s.stored then s
      else s.(table := s.table[ref := Slot(path, meta, s.clock, scope)], stored := s.stored[ref := path])
    case Release(scope, order) =>
      if Enumerates(order, InScope(s.table, scope)) then Unmap(s, InScope(s.table, scope), order) else s
    case Clean(order) =>
      if Enumerates(order, Aged(s)) then Unmap(s, Aged(s), order) else s
    case Remove(b) =>
      if b >= |s.batches| || s.batches[b] == [] then s
      else s.(batches := s.batches[b := s.batches[b][1..]], removed := s.removed + [s.batches[b][0]])
  }

  function RunFrom(s: System, schedule: seq<Action>): System {
    if schedule == [] then s else Do(RunFrom(s, schedule[..|schedule| - 1]), schedule[|schedule| - 1])
  }

  /** A new store, from whose start the clock counts. */
  function Empty(maxAge: int): System {
    System(maxAge, 0, map[], [], [], map[])
  }

  function Reached(maxAge: int, schedule: seq<Action>): System {
    RunFrom(Empty(maxAge), schedule)
  }

  function Pending(batches: seq<seq<Doomed>>): multiset<Doomed> {
    if batches == [] then multiset{}
    else Pending(batches[..|batches| - 1]) + multiset(batches[|batches| - 1])
  }

  /** All removals, attempted or still to come. */
  function Removals(s: System): multiset<Doomed> {
    Pending(s.batches) + multiset(s.removed)
  }

  /** The file was stored under the ref, and the ref is gone. */
  predicate Gone(s: System, d: Doomed) {
    d.ref in s.stored && s.stored[d.ref] == d.path && d.ref !in s.table
  }

  /** Every ref ever stored is either in the table with its path, or has exactly one removal. */
  ghost predicate Conserved(s: System) {
    && (forall ref | ref in s.table :: ref in s.stored && s.stored[ref] == s.table[ref].path)
    && (forall d: Doomed :: Removals(s)[d] == if Gone(s, d) then 1 else 0)
  }

  lemma HeadOff(batch: seq<Doomed>)
    requires batch != []
    ensures multiset(batch[1..]) + multiset{batch[0]} == multiset(batch)
  {
    assert batch == [batch[0]] + batch[1..];
  }

  lemma PendingSplit(batches: seq<seq<Doomed>>, first: seq<seq<Doomed>>, last: seq<Doomed>)
    requires batches == first + [last]
    ensures Pending(batches) == Pending(first) + multiset(last)
  {
    assert batches[..|first|] == first;
  }

  lemma {:induction false} PendingUpdated(batches: seq<seq<Doomed>>, b: nat)
    requires b < |batches| && batches[b] != []
    ensures Pending(batches[b := batches[b][1..]]) + multiset{batches[b][0]} == Pending(batches)
  {
    hide Pending;
    var k := |batches| - 1;
    var first, after := batches[..k], batches[b := batches[b][1..]];
    PendingSplit(batches, first, batches[k]);
    if b == k {
      PendingSplit(after, first, batches[k][1..]);
      HeadOff(batches[k]);
    } else {
      PendingSplit(after, first[b := first[b][1..]], batches[k]);
      PendingUpdated(first, b);
    }
  }

  lemma {:induction false} BatchCount(t: Table, order: seq<Ref>, d: Doomed)
    requires NoRepeats(order) && forall ref | ref in order :: ref in t
    ensures multiset(Batch(t, order))[d] == if d.ref in order && t[d.ref].path == d.path then 1 else 0
  {
    if order != [] {
      var k := |order| - 1;
      assert order == order[..k] + [order[k]];
      assert order[k] !in order[..k];
      assert Batch(t, order) == Batch(t, order[..k]) + [Doomed(order[k], t[order[k]].path)];
      BatchCount(t, order[..k], d);
    }
  }

  lemma UnmapConserves(s: System, refs: set<Ref>, order: seq<Ref>)
    requires Conserved(s) && Enumerates(order, refs) && refs <= s.table.Keys
    ensures Conserved(Unmap(s, refs, order))
  {
    var after := Unmap(s, refs, order);
    var batch := Batch(s.table, order);
    assert (s.batches + [batch])[..|s.batches|] == s.batches;
    forall d: Doomed ensures Removals(after)[d] == if Gone(after, d) then 1 else 0 {
      BatchCount(s.table, order, d);
      assert Removals(after)[d] == Removals(s)[d] + multiset(batch)[d];
    }
  }

  lemma RemoveConserves(s: System, b: nat)
    requires Conserved(s)
    ensures Conserved(Do(s, Remove(b)))
  {
    if b < |s.batches| && s.batches[b] != [] {
      PendingUpdated(s.batches, b);
      var d := s.batches[b][0];
      assert multiset(s.removed + [d]) == multiset(s.removed) + multiset{d};
      assert Removals(Do(s, Remove(b))) == Removals(s);
    }
  }

  lemma DoConserves(s: System, a: Action)
    requires Conserved(s)
    ensures Conserved(Do(s, a))
  {
    match a
    case Pass(time) =>
      assert Removals(Do(s, a)) == Removals(s);
    case Store(ref, path, meta, scope) =>
      var after := Do(s, a);
      assert Removals(after) == Removals(s);
      assert forall d: Doomed :: Gone(after, d) <==> Gone(s, d);
    case Release(scope, order) =>
      if Enumerates(order, InScope(s.table, scope)) {
        UnmapConserves(s, InScope(s.table, scope), order);
      }
    case Clean(order) =>
      if Enumerates(order, Aged(s)) {
        UnmapConserves(s, Aged(s), order);
      }
    case Remove(b) =>
      RemoveConserves(s, b);
  }

  /** In every interleaving, no ref is lost and none has its file removed twice or while it is live. */
  lemma {:induction false} RefsConserved(maxAge: int, schedule: seq<Action>)
    ensures Conserved(Reached(maxAge, schedule))
  {
    if schedule != [] {
      RefsConserved(maxAge, schedule[..|schedule| - 1]);
      DoConserves(Reached(maxAge, schedule[..|schedule| - 1]), schedule[|schedule| - 1]);
    }
  }

  /** No path was stored twice. */
  ghost predicate PathsOnce(stored: map<Ref, Path>) {
    forall q, r | q in stored && r in stored && stored[q] == stored[r] :: q == r
  }

  /** Each file has at most one removal, pending or attempted, and none while a ref to it is live. */
  ghost predicate FilesSafe(s: System) {
    && (forall c, d | c in Removals(s) && d in Removals(s) && c.path == d.path :: c == d && Removals(s)[d] == 1)
    && (forall d, ref | d in Removals(s) && ref in s.table :: s.table[ref].path != d.path)
  }

  /** If each path is stored at most once, files are safe in every interleaving. */
  lemma FilesSafeIfStoredOnce(maxAge: int, schedule: seq<Action>)
    requires PathsOnce(Reached(maxAge, schedule).stored)
    ensures FilesSafe(Reached(maxAge, schedule))
  {
    RefsConserved(maxAge, schedule);
    var s := Reached(maxAge, schedule);
    forall d | d in Removals(s) ensures Gone(s, d) {
      assert Removals(s)[d] > 0;
    }
  }

  lemma {:induction false} SomeOrder(refs: set<Ref>) returns (order: seq<Ref>)
    ensures Enumerates(order, refs)
  {
    if refs == {} {
      order := [];
    } else {
      var ref :| ref in refs;
      order := SomeOrder(refs - {ref});
      assert ref !in order by {
        assert ref !in set x | x in order;
      }
      var shorter := order;
      order := shorter + [ref];
      assert (set x | x in order) == (set x | x in shorter) + {ref};
    }
  }

  /** The step removes a file that a ref in the table still names. */
  ghost predicate RemovesLive(s: System, a: Action) {
    && a.Remove? && a.batch < |s.batches| && s.batches[a.batch] != []
    && Named(s.table, s.batches[a.batch][0].path)
  }

  ghost predicate Named(t: Table, path: Path) {
    exists ref :: ref in t && t[ref].path == path
  }

  ghost predicate NoStores(schedule: seq<Action>) {
    forall i | 0 <= i < |schedule| :: !schedule[i].Store?
  }

  /** However the calls go on without another Store, no step removes a live file. */
  ghost predicate NeverRemovesLive(s: System) {
    forall more, a | NoStores(more) :: !RemovesLive(RunFrom(s, more), a)
  }

  /**
   * No release and no cleaning, now or later, can take one of the two refs and leave the other: with
   * cleaning on, they were stored at one time or are both due already.
   */
  predicate Together(s: System, q: Ref, r: Ref)
    requires q in s.table && r in s.table
  {
    && s.table[q].scope == s.table[r].scope
    && (s.maxAge <= 0 || s.table[q].storedAt == s.table[r].storedAt || (q in Aged(s) && r in Aged(s)))
  }

  /** No live path is about to be removed. */
  ghost predicate Unthreatened(s: System) {
    forall d | d in Pending(s.batches) :: !Named(s.table, d.path)
  }

  /** Refs that share a path stand and fall together. */
  ghost predicate Paired(s: System) {
    forall q, r | q in s.table && r in s.table && s.table[q].path == s.table[r].path :: Together(s, q, r)
  }

  ghost predicate Guarded(s: System) {
    Unthreatened(s) && Paired(s)
  }

  lemma {:induction false} PendingWhere(batches: seq<seq<Doomed>>, d: Doomed) returns (b: nat, i: nat)
    requires d in Pending(batches)
    ensures b < |batches| && i < |batches[b]| && batches[b][i] == d
  {
    var k := |batches| - 1;
    if d in batches[k] {
      b := k;
      i :| 0 <= i < |batches[k]| && batches[k][i] == d;
    } else {
      b, i := PendingWhere(batches[..k], d);
    }
  }

  lemma BatchPaths(t: Table, order: seq<Ref>, d: Doomed)
    requires (forall ref | ref in order :: ref in t) && d in Batch(t, order)
    ensures d.ref in order && d.path == t[d.ref].path
  {
    var i :| 0 <= i < |order| && Batch(t, order)[i] == d;
  }

  lemma UnmapPaired(s: System, refs: set<Ref>, order: seq<Ref>)
    requires Paired(s) && Enumerates(order, refs) && refs <= s.table.Keys
    ensures Paired(Unmap(s, refs, order))
  {
    var after := Unmap(s, refs, order);
    assert forall ref | ref in after.table :: ref in s.table && after.table[ref] == s.table[ref];
    hide Unmap, Enumerates;
    forall q, r | q in after.table && r in after.table && after.table[q].path == after.table[r].path
      ensures Together(after, q, r)
    {
      assert Together(s, q, r);
    }
  }

  /** Unmapping refs that take along all they share a path with leaves nothing live about to be removed. */
  lemma UnmapUnthreatened(s: System, refs: set<Ref>, order: seq<Ref>)
    requires Guarded(s) && Enumerates(order, refs) && refs <= s.table.Keys
    requires forall q, r | q in refs && r in s.table && Together(s, q, r) :: r in refs
    ensures Unthreatened(Unmap(s, refs, order))
  {
    var after := Unmap(s, refs, order);
    assert after.batches[..|s.batches|] == s.batches;
    assert forall ref | ref in order :: ref in refs;
    assert Pending(after.batches) == Pending(s.batches) + multiset(Batch(s.table, order));
    hide Pending, Batch, Unmap, Together, Enumerates, Named;
    forall d | d in Pending(after.batches) ensures !Named(after.table, d.path) {
      if d in Batch(s.table, order) {
        BatchPaths(s.table, order, d);
        TakenWhole(s, refs, d.ref);
        assert after.table == s.table - refs;
      } else {
        assert !Named(s.table, d.path);
        FewerNamed(s.table, refs, d.path);
      }
    }
  }

  lemma FewerNamed(t: Table, refs: set<Ref>, path: Path)
    ensures Named(t - refs, path) ==> Named(t, path)
  {
  }

  /** No ref left shares the path of one that was taken. */
  lemma TakenWhole(s: System, refs: set<Ref>, ref: Ref)
    requires Paired(s) && refs <= s.table.Keys && ref in refs
    requires forall q, r | q in refs && r in s.table && Together(s, q, r) :: r in refs
    ensures !Named(s.table - refs, s.table[ref].path)
  {
    hide Together;
    assert forall r | r in s.table && s.table[r].path == s.table[ref].path :: Together(s, ref, r);
  }

  lemma UnmapGuarded(s: System, refs: set<Ref>, order: seq<Ref>)
    requires Guarded(s) && Enumerates(order, refs) && refs <= s.table.Keys
    requires forall q, r | q in refs && r in s.table && Together(s, q, r) :: r in refs
    ensures Guarded(Unmap(s, refs, order))
  {
    hide Unthreatened, Paired, Unmap, Together;
    UnmapPaired(s, refs, order);
    UnmapUnthreatened(s, refs, order);
  }

  lemma RemovePaired(s: System, b: nat)
    requires Paired(s)
    ensures Paired(Do(s, Remove(b)))
  {
    var t := Do(s, Remove(b));
    assert t.table == s.table && t.clock == s.clock && t.maxAge == s.maxAge;
    hide Do;
    forall q, r | q in t.table && r in t.table && t.table[q].path == t.table[r].path ensures Together(t, q, r) {
      assert Together(s, q, r);
    }
  }

  lemma RemoveFewer(batches: seq<seq<Doomed>>, b: nat)
    requires b < |batches| && batches[b] != []
    ensures forall d | d in Pending(batches[b := batches[b][1..]]) :: d in Pending(batches)
    ensures batches[b][0] in Pending(batches)
  {
    PendingUpdated(batches, b);
    hide Pending;
  }

  lemma RemoveGuarded(s: System, b: nat)
    requires Guarded(s) && b < |s.batches| && s.batches[b] != []
    ensures Guarded(Do(s, Remove(b))) && !RemovesLive(s, Remove(b))
  {
    hide Pending, Named, Paired;
    RemoveFewer(s.batches, b);
    RemovePaired(s, b);
  }

  lemma PassGuarded(s: System, time: nat)
    requires Guarded(s)
    ensures Guarded(Do(s, Pass(time)))
  {
    hide Pending;
    assert Aged(s) <= Aged(Do(s, Pass(time)));
  }

  lemma DoGuarded(s: System, a: Action)
    requires Guarded(s) && !a.Store?
    ensures Guarded(Do(s, a)) && !RemovesLive(s, a)
  {
    hide Guarded, Pending;
    match a
    case Pass(time) =>
      PassGuarded(s, time);
    case Release(scope, order) =>
      if Enumerates(order, InScope(s.table, scope)) {
        UnmapGuarded(s, InScope(s.table, scope), order);
      }
    case Clean(order) =>
      if Enumerates(order, Aged(s)) {
        UnmapGuarded(s, Aged(s), order);
      }
    case Remove(b) =>
      if b < |s.batches| && s.batches[b] != [] {
        RemoveGuarded(s, b);
      }
  }

  lemma {:induction false} RunGuarded(s: System, more: seq<Action>)
    requires Guarded(s) && NoStores(more)
    ensures Guarded(RunFrom(s, more))
  {
    if more != [] {
      RunGuarded(s, more[..|more| - 1]);
      DoGuarded(RunFrom(s, more[..|more| - 1]), more[|more| - 1]);
    }
  }

  lemma RunFromMore(s: System, a: Action, more: seq<Action>)
    ensures RunFrom(s, [a] + more) == RunFrom(Do(s, a), more)
  {
    if more == [] {
      assert [a] + more == [a] && [a][..0] == [];
      assert RunFrom(s, [a]) == Do(RunFrom(s, []), a);
    } else {
      assert ([a] + more)[..|more|] == [a] + more[..|more| - 1];
      RunFromMore(s, a, more[..|more| - 1]);
    }
  }

  /** A pending removal of a live path comes up after the ones before it in its batch. */
  lemma {:induction false} PendingComesUp(s: System, b: nat, i: nat) returns (more: seq<Action>, a: Action)
    requires b < |s.batches| && i < |s.batches[b]| && Named(s.table, s.batches[b][i].path)
    ensures NoStores(more) && RemovesLive(RunFrom(s, more), a)
    decreases i
  {
    if i == 0 {
      more, a := [], Remove(b);
    } else {
      more, a := PendingComesUp(Do(s, Remove(b)), b, i - 1);
      RunFromMore(s, Remove(b), more);
      more := [Remove(b)] + more;
    }
  }

  /** A new ref is live with what was stored, and stamped; nothing else changes, and time only passes. */
  lemma StoresExactly(s: System, ref: Ref, path: Path, meta: string, scope: Scope, time: nat)
    requires ref !in s.stored
    ensures var t := Do(s, Store(ref, path, meta, scope));
      && ref in t.table && t.table[ref].path == path && t.table[ref].meta == meta && t.table[ref].scope == scope
      && t.table[ref].storedAt == s.clock && t.table - {ref} == s.table - {ref}
      && ref in t.stored && t.stored[ref] == path && t.batches == s.batches
    ensures Do(s, Pass(time)).clock == s.clock + time && Do(s, Pass(time)).table == s.table
  {
  }

  /** The step takes the ref: it releases its scope, or cleans when it is older than the maximal age. */
  predicate Takes(s: System, a: Action, ref: Ref)
    requires ref in s.table
  {
    || (a.Release? && a.scope == s.table[ref].scope && Enumerates(a.order, InScope(s.table, a.scope)))
    || (a.Clean? && Enumerates(a.order, Aged(s)) && s.maxAge > 0 && s.clock - s.table[ref].storedAt > s.maxAge)
  }

  ghost predicate IsPending(s: System, d: Doomed) {
    d in Pending(s.batches)
  }

  /** A live ref stays as it is, or is taken; and then its file is to be removed. */
  lemma TakesExactly(s: System, a: Action, ref: Ref)
    requires Conserved(s) && ref in s.table
    ensures ref in Do(s, a).table <==> !Takes(s, a, ref)
    ensures ref in Do(s, a).table ==> Do(s, a).table[ref] == s.table[ref]
    ensures Takes(s, a, ref) ==> IsPending(Do(s, a), Doomed(ref, s.table[ref].path))
  {
    hide Pending;
    if Takes(s, a, ref) {
      var d := Doomed(ref, s.table[ref].path);
      TakenIsPending(s, if a.Release? then InScope(s.table, a.scope) else Aged(s), a.order, ref);
    }
  }

  lemma TakenIsPending(s: System, refs: set<Ref>, order: seq<Ref>, ref: Ref)
    requires Enumerates(order, refs) && refs <= s.table.Keys && ref in refs
    ensures IsPending(Unmap(s, refs, order), Doomed(ref, s.table[ref].path))
  {
    assert ref in order by {
      assert ref in set r | r in order;
    }
    var i :| 0 <= i < |order| && order[i] == ref;
    assert Batch(s.table, order)[i] == Doomed(ref, s.table[ref].path);
    assert Unmap(s, refs, order).batches[..|s.batches|] == s.batches;
  }

  predicate TakenIn(s: System, more: seq<Action>, ref: Ref)
    requires ref in s.table
  {
    more != [] &&
    var init, a := more[..|more| - 1], more[|more| - 1];
    var t := RunFrom(s, init);
    TakenIn(s, init, ref) || (ref in t.table && Takes(t, a, ref))
  }

  /** In every run, a ref is live, unchanged, exactly until it is taken. */
  lemma {:induction false} LiveExactly(s: System, more: seq<Action>, ref: Ref)
    requires Conserved(s) && ref in s.table
    ensures Conserved(RunFrom(s, more)) && ref in RunFrom(s, more).stored
    ensures ref in RunFrom(s, more).table <==> !TakenIn(s, more, ref)
    ensures ref in RunFrom(s, more).table ==> RunFrom(s, more).table[ref] == s.table[ref]
  {
    if more != [] {
      var init, a := more[..|more| - 1], more[|more| - 1];
      LiveExactly(s, init, ref);
      var t := RunFrom(s, init);
      hide Conserved, Takes, Do;
      DoConserves(t, a);
      if ref in t.table {
        TakesExactly(t, a, ref);
        StoredStays(t, a, ref);
      } else {
        StaysGone(t, a, ref);
      }
    }
  }

  lemma StaysGone(s: System, a: Action, ref: Ref)
    requires ref !in s.table && ref in s.stored
    ensures ref !in Do(s, a).table && ref in Do(s, a).stored
  {
  }

  lemma StoredStays(s: System, a: Action, ref: Ref)
    requires ref in s.stored
    ensures ref in Do(s, a).stored
  {
  }

  /** A removal that is attempted is pending no longer. */
  lemma RemoveAttempts(s: System, b: nat)
    requires b < |s.batches| && s.batches[b] != []
    ensures var t := Do(s, Remove(b));
      t.table == s.table && Removals(t) == Removals(s) && |Pending(t.batches)| < |Pending(s.batches)|
  {
    PendingUpdated(s.batches, b);
    hide Pending;
    var t, d := Do(s, Remove(b)), s.batches[b][0];
    assert multiset(t.removed) == multiset(s.removed) + multiset{d};
    assert |Pending(t.batches) + multiset{d}| == |Pending(t.batches)| + 1;
  }

  /** Every removal that is pending can be made: all are attempted, and the table stays as it is. */
  lemma {:induction false} AllRemoved(s: System) returns (more: seq<Action>)
    ensures forall i | 0 <= i < |more| :: more[i].Remove?
    ensures var t := RunFrom(s, more);
      t.table == s.table && Pending(t.batches) == multiset{} && multiset(t.removed) == Removals(s)
    decreases |Pending(s.batches)|
  {
    if Pending(s.batches) == multiset{} {
      more := [];
      assert Removals(s) == multiset(s.removed);
    } else {
      var d :| d in Pending(s.batches);
      var b, i := PendingWhere(s.batches, d);
      RemoveAttempts(s, b);
      hide Pending, Do, Removals;
      var rest := AllRemoved(Do(s, Remove(b)));
      RunFromMore(s, Remove(b), rest);
      more := [Remove(b)] + rest;
    }
  }

  /** One of two refs to a path is taken, and the other left. */
  lemma Separates(s: System, a: Action, refs: set<Ref>, order: seq<Ref>, q: Ref, r: Ref)
      returns (more: seq<Action>, b: Action)
    requires !a.Store? && Enumerates(order, refs) && refs <= s.table.Keys && Do(s, a) == Unmap(s, refs, order)
    requires q in refs && r in s.table && r !in refs && s.table[q].path == s.table[r].path
    ensures NoStores(more) && RemovesLive(RunFrom(s, more), b)
  {
    var after := Do(s, a);
    assert q in order;
    var i :| 0 <= i < |order| && order[i] == q;
    assert r in after.table;
    more, b := PendingComesUp(after, |s.batches|, i);
    RunFromMore(s, a, more);
    more := [a] + more;
  }

  /** Once the later of the two is as old as the cutoff, a cleaning takes the earlier one alone. */
  lemma Ages(s: System, q: Ref, r: Ref) returns (more: seq<Action>, b: Action)
    requires q in s.table && r in s.table && s.table[q].path == s.table[r].path && s.maxAge > 0
    requires s.clock - s.maxAge <= s.table[r].storedAt && s.table[q].storedAt < s.table[r].storedAt
    ensures NoStores(more) && RemovesLive(RunFrom(s, more), b)
  {
    var wait := Pass(s.table[r].storedAt + s.maxAge - s.clock);
    var later := Do(s, wait);
    var order := SomeOrder(Aged(later));
    more, b := Separates(later, Clean(order), Aged(later), order, q, r);
    RunFromMore(s, wait, more);
    more := [wait] + more;
  }

  lemma Separable(s: System, q: Ref, r: Ref) returns (more: seq<Action>, b: Action)
    requires q in s.table && r in s.table && s.table[q].path == s.table[r].path && !Together(s, q, r)
    ensures NoStores(more) && RemovesLive(RunFrom(s, more), b)
  {
    if s.table[q].scope != s.table[r].scope {
      var refs := InScope(s.table, s.table[q].scope);
      var order := SomeOrder(refs);
      more, b := Separates(s, Release(s.table[q].scope, order), refs, order, q, r);
    } else if s.table[q].storedAt < s.table[r].storedAt {
      more, b := Ages(s, q, r);
    } else {
      more, b := Ages(s, r, q);
    }
  }

  /**
   * Exactly when no live file can be removed before the next Store: no live path is pending, and
   * refs that share a path stand and fall together.
   */
  lemma SafeExactly(s: System)
    ensures NeverRemovesLive(s) <==> Guarded(s)
  {
    if Guarded(s) {
      forall more, a | NoStores(more) ensures !RemovesLive(RunFrom(s, more), a) {
        RunGuarded(s, more);
        if !a.Store? {
          DoGuarded(RunFrom(s, more), a);
        }
      }
    } else if d :| d in Pending(s.batches) && Named(s.table, d.path) {
      var b, i := PendingWhere(s.batches, d);
      var more, a := PendingComesUp(s, b, i);
    } else {
      var q, r :| q in s.table && r in s.table && s.table[q].path == s.table[r].path && !Together(s, q, r);
      var more, a := Separable(s, q, r);
    }
  }

  /**
   * What a caller can look at before a Store: its path is not about to be removed, nor live under
   * another scope or, with cleaning on, from an earlier time.
   */
  ghost predicate Careful(s: System, path: Path, scope: Scope) {
    && (forall d | d in Pending(s.batches) :: d.path != path)
    && (forall ref | ref in s.table && s.table[ref].path == path ::
          s.table[ref].scope == scope && (s.maxAge <= 0 || s.table[ref].storedAt == s.clock))
  }

  lemma StoreGuarded(s: System, ref: Ref, path: Path, meta: string, scope: Scope)
    requires Conserved(s) && Guarded(s) && ref !in s.stored
    ensures Guarded(Do(s, Store(ref, path, meta, scope))) <==> Careful(s, path, scope)
  {
    var after := Do(s, Store(ref, path, meta, scope));
    assert after.table[ref] == Slot(path, meta, s.clock, scope) && ref !in s.table;
    assert forall r | r in s.table :: after.table[r] == s.table[r];
    hide Pending;
    if Guarded(after) {
      forall d | d in Pending(s.batches) ensures d.path != path {
        assert !Named(after.table, d.path);
      }
      forall r | r in s.table && s.table[r].path == path
        ensures s.table[r].scope == scope && (s.maxAge <= 0 || s.table[r].storedAt == s.clock)
      {
        assert Together(after, r, ref);
      }
    }
    if Careful(s, path, scope) {
      forall d | d in Pending(s.batches) ensures !Named(after.table, d.path) {
        assert !Named(s.table, d.path);
      }
    }
  }

  /** A Store leaves live files safe exactly if it is careful. */
  lemma StoreExactly(s: System, ref: Ref, path: Path, meta: string, scope: Scope)
    requires Conserved(s) && NeverRemovesLive(s) && ref !in s.stored
    ensures NeverRemovesLive(Do(s, Store(ref, path, meta, scope))) <==> Careful(s, path, scope)
  {
    SafeExactly(s);
    SafeExactly(Do(s, Store(ref, path, meta, scope)));
    StoreGuarded(s, ref, path, meta, scope);
  }

  predicate StoresAt(schedule: seq<Action>, i: nat)
    requires i < |schedule|
  {
    schedule[i].Store?
  }

  ghost predicate CarefulAt(maxAge: int, schedule: seq<Action>, i: nat)
    requires i < |schedule| && StoresAt(schedule, i)
  {
    Careful(Reached(maxAge, schedule[..i]), schedule[i].path, schedule[i].scope)
  }

  /** Every Store of the schedule is careful at its moment. */
  ghost predicate AllCareful(maxAge: int, schedule: seq<Action>) {
    forall i | 0 <= i < |schedule| && StoresAt(schedule, i) :: CarefulAt(maxAge, schedule, i)
  }

  lemma CarefulStep(s: System, a: Action)
    requires Conserved(s) && Guarded(s) && (a.Store? ==> Careful(s, a.path, a.scope))
    ensures Guarded(Do(s, a)) && !RemovesLive(s, a)
  {
    if !a.Store? {
      DoGuarded(s, a);
    } else if a.ref !in s.stored {
      StoreGuarded(s, a.ref, a.path, a.meta, a.scope);
    }
  }

  /** So in every interleaving whose Stores are careful no step ever removes a live file. */
  lemma {:induction false} CarefulRuns(maxAge: int, schedule: seq<Action>, i: nat)
    requires AllCareful(maxAge, schedule) && i < |schedule|
    ensures !RemovesLive(Reached(maxAge, schedule[..i]), schedule[i])
  {
    CarefulReach(maxAge, schedule, i);
    RefsConserved(maxAge, schedule[..i]);
    assert schedule[i].Store? ==> StoresAt(schedule, i) && CarefulAt(maxAge, schedule, i);
    CarefulStep(Reached(maxAge, schedule[..i]), schedule[i]);
  }

  lemma {:induction false} CarefulReach(maxAge: int, schedule: seq<Action>, i: nat)
    requires AllCareful(maxAge, schedule) && i <= |schedule|
    ensures Guarded(Reached(maxAge, schedule[..i]))
  {
    if i > 0 {
      CarefulReach(maxAge, schedule, i - 1);
      RefsConserved(maxAge, schedule[..i - 1]);
      assert schedule[..i][..i - 1] == schedule[..i - 1];
      assert schedule[i - 1].Store? ==> StoresAt(schedule, i - 1) && CarefulAt(maxAge, schedule, i - 1);
      CarefulStep(Reached(maxAge, schedule[..i - 1]), schedule[i - 1]);
    }
  }
}
