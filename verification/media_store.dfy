/**
 * FileMediaStore as an object with its three maps. Each locked region is proved to do to the table
 * of refs what the machine says, and to keep the maps inverse to each other.
 */
module MediaStores {
  import opened Options
  import opened Media

  datatype Entry = Entry(path: Path, meta: string, storedAt: int)

  /** Which refs a scope has, from the ref side. */
  function RefsOf(refToScope: map<Ref, Scope>, scope: Scope): set<Ref> {
    set ref | ref in refToScope && refToScope[ref] == scope
  }

  /** scopeToRefs is the exact inverse of refToScope, with no empty scope. */
  ghost predicate Inverse(scopeToRefs: map<Scope, set<Ref>>, refToScope: map<Ref, Scope>) {
    && (forall scope | scope in scopeToRefs ::
      scopeToRefs[scope] == RefsOf(refToScope, scope) && scopeToRefs[scope] != {})
    && (forall ref | ref in refToScope :: refToScope[ref] in scopeToRefs)
  }

  function TableOf(refs: map<Ref, Entry>, refToScope: map<Ref, Scope>): Table {
    map ref | ref in refs && ref in refToScope ::
      Slot(refs[ref].path, refs[ref].meta, refs[ref].storedAt, refToScope[ref])
  }

  /** scopeToRefs without a ref; a scope that becomes empty goes too. */
  function Unscoped(scopeToRefs: map<Scope, set<Ref>>, scope: Scope, ref: Ref): map<Scope, set<Ref>> {
    if scope !in scopeToRefs then scopeToRefs
    else if scopeToRefs[scope] - {ref} == {} then scopeToRefs - {scope}
    else scopeToRefs[scope := scopeToRefs[scope] - {ref}]
  }

  class FileMediaStore {
    const maxAge: int
    var refs: map<Ref, Entry>
    var scopeToRefs: map<Scope, set<Ref>>
    var refToScope: map<Ref, Scope>

    ghost predicate Valid()
      reads this
    {
      refs.Keys == refToScope.Keys && Inverse(scopeToRefs, refToScope)
    }

    ghost function Table(): Table
      reads this
    {
      TableOf(refs, refToScope)
    }

    constructor (maxAge: int)
      ensures Valid() && Table() == map[] && this.maxAge == maxAge
    {
      this.maxAge := maxAge;
      refs, scopeToRefs, refToScope := map[], map[], map[];
    }

    /** Store; the file must exist, and the ref is a fresh UUID. */
    method Store(present: bool, path: Path, meta: string, scope: Scope, uuid: Ref, now: int) returns (ref: Option<Ref>)
      requires Valid() && uuid !in refs
      modifies this
      ensures Valid() && ref == if present then Some(uuid) else None
      ensures Table() == if present then old(Table())[uuid := Slot(path, meta, now, scope)] else old(Table())
    {
      if !present {
        return None;
      }
      StoreKeepsInverse(scopeToRefs, refToScope, scope, uuid);
      TableStored(refs, refToScope, uuid, Entry(path, meta, now), scope);
      refs := refs[uuid := Entry(path, meta, now)];
      var known := if scope in scopeToRefs then scopeToRefs[scope] else {};
      scopeToRefs := scopeToRefs[scope := known + {uuid}];
      refToScope := refToScope[uuid := scope];
      return Some(uuid);
    }

    /** ResolveWithMeta; Resolve gives the path alone. */
    method Resolve(ref: Ref) returns (found: Option<(Path, string)>)
      requires Valid()
      ensures found == if ref in Table() then Some((Table()[ref].path, Table()[ref].meta)) else None
    {
      if ref !in refs {
        return None;
      }
      return Some((refs[ref].path, refs[ref].meta));
    }

    /** The first phase of ReleaseAll: exactly the scope's refs go, and their paths are to be removed. */
    method ReleaseAll(scope: Scope) returns (paths: seq<Path>, ghost order: seq<Ref>)
      requires Valid()
      modifies this
      ensures Valid() && Table() == old(Table()) - InScope(old(Table()), scope)
      ensures Enumerates(order, InScope(old(Table()), scope))
      ensures Collected(old(Table()), order, paths)
    {
      paths, order := [], [];
      ghost var t := Table();
      if scope !in scopeToRefs {
        NoneInScope(scopeToRefs, refToScope, scope);
        return;
      }
      var all := scopeToRefs[scope];
      var todo := all;
      ScopeRefs(refs, scopeToRefs, refToScope, scope);
      ghost var gone: set<Ref> := {};
      TakenNone(t);
      while todo != {}
        invariant gone + todo == all && gone !! todo && scopeToRefs == old(scopeToRefs)
        invariant refs == old(refs) - gone && refToScope == old(refToScope) - gone
        invariant Taken(t, gone, order, paths)
        decreases todo
      {
        hide Taken, Inverse, RefsOf, TableOf, InScope;
        var ref :| ref in todo;
        TakenMore(t, gone, order, paths, ref);
        MinusMore(old(refs), gone, ref);
        MinusMore(old(refToScope), gone, ref);
        todo := todo - {ref};
        gone := gone + {ref};
        if ref in refs {
          paths := paths + [refs[ref].path];
        }
        refs := refs - {ref};
        refToScope := refToScope - {ref};
        order := order + [ref];
      }
      assert gone == all;
      TableWithout(old(refs), old(refToScope), all);
      ReleasedInverse(scopeToRefs, old(refToScope), scope);
      scopeToRefs := scopeToRefs - {scope};
    }

    /** The first phase of CleanExpired: exactly the refs stored before the cutoff go. */
    method CleanExpired(now: int) returns (paths: seq<Path>, count: nat, ghost order: seq<Ref>)
      requires Valid()
      modifies this
      ensures Valid() && count == |paths|
      ensures maxAge <= 0 ==> order == [] && Table() == old(Table())
      ensures maxAge > 0 ==> Table() == old(Table()) - Expired(old(Table()), now - maxAge)
      ensures maxAge > 0 ==> Enumerates(order, Expired(old(Table()), now - maxAge))
      ensures Collected(old(Table()), order, paths)
    {
      paths, count, order := [], 0, [];
      if maxAge <= 0 {
        return;
      }
      var cutoff := now - maxAge;
      ghost var t := Table();
      var todo := refs.Keys;
      ghost var gone: set<Ref> := {};
      TakenNone(t);
      while todo != {}
        invariant Valid() && todo <= refs.Keys
        invariant Table() == t - gone
        invariant gone == Expired(t, cutoff) - todo
        invariant Taken(t, gone, order, paths)
        decreases todo
      {
        hide Taken, Inverse, RefsOf, TableOf;
        var ref :| ref in todo;
        var entry := refs[ref];
        assert Table()[ref] == t[ref] && ref !in gone;
        todo := todo - {ref};
        if entry.storedAt < cutoff {
          TakenMore(t, gone, order, paths, ref);
          paths := paths + [entry.path];
          MinusMore(t, gone, ref);
          Drop(ref);
          gone := gone + {ref};
          order := order + [ref];
        }
      }
      assert gone == Expired(t, cutoff);
      count := |paths|;
    }

    /** One expired ref leaves all three maps. */
    method Drop(ref: Ref)
      requires Valid() && ref in refs
      modifies this
      ensures Valid() && refs == old(refs) - {ref}
      ensures Table() == old(Table()) - {ref}
    {
      UnscopedKeepsInverse(scopeToRefs, refToScope, ref);
      TableWithout(refs, refToScope, {ref});
      scopeToRefs := Unscoped(scopeToRefs, refToScope[ref], ref);
      refs := refs - {ref};
      refToScope := refToScope - {ref};
    }
  }

  lemma MinusMore<T>(m: map<Ref, T>, gone: set<Ref>, ref: Ref)
    ensures (m - gone) - {ref} == m - (gone + {ref})
  {
  }

  lemma UnscopedKeepsInverse(scopeToRefs: map<Scope, set<Ref>>, refToScope: map<Ref, Scope>, ref: Ref)
    requires Inverse(scopeToRefs, refToScope) && ref in refToScope
    ensures Inverse(Unscoped(scopeToRefs, refToScope[ref], ref), refToScope - {ref})
  {
    var scope, after := refToScope[ref], refToScope - {ref};
    assert RefsOf(after, scope) == RefsOf(refToScope, scope) - {ref};
    assert forall other | other != scope :: RefsOf(after, other) == RefsOf(refToScope, other);
    forall r | r in after ensures after[r] in Unscoped(scopeToRefs, scope, ref) {
      assert after[r] == scope ==> r in RefsOf(after, scope);
    }
  }

  /** The paths are those of the refs, in the same order: the batch the machine then removes. */
  ghost predicate Collected(t: Table, order: seq<Ref>, paths: seq<Path>) {
    |paths| == |order| && forall i | 0 <= i < |order| :: order[i] in t && t[order[i]].path == paths[i]
  }

  /** The refs taken so far, and their paths. */
  ghost predicate Taken(t: Table, gone: set<Ref>, order: seq<Ref>, paths: seq<Path>) {
    Enumerates(order, gone) && Collected(t, order, paths)
  }

  lemma TakenNone(t: Table)
    ensures Taken(t, {}, [], [])
  {
  }

  lemma TakenMore(t: Table, gone: set<Ref>, order: seq<Ref>, paths: seq<Path>, ref: Ref)
    requires Taken(t, gone, order, paths) && ref !in gone && ref in t
    ensures Taken(t, gone + {ref}, order + [ref], paths + [t[ref].path])
  {
    EnumeratesMore(order, gone, ref);
  }

  lemma EnumeratesMore(order: seq<Ref>, refs: set<Ref>, ref: Ref)
    requires Enumerates(order, refs) && ref !in refs
    ensures Enumerates(order + [ref], refs + {ref})
  {
    assert ref !in order by {
      assert ref !in set x | x in order;
    }
    assert (set x | x in order + [ref]) == (set x | x in order) + {ref};
  }

  lemma StoreKeepsInverse(scopeToRefs: map<Scope, set<Ref>>, refToScope: map<Ref, Scope>, scope: Scope, ref: Ref)
    requires Inverse(scopeToRefs, refToScope) && ref !in refToScope
    ensures var known := if scope in scopeToRefs then scopeToRefs[scope] else {};
      Inverse(scopeToRefs[scope := known + {ref}], refToScope[ref := scope])
  {
    var after := refToScope[ref := scope];
    if scope !in scopeToRefs {
      assert RefsOf(refToScope, scope) == {};
    }
    assert RefsOf(after, scope) == RefsOf(refToScope, scope) + {ref};
    assert forall other | other != scope :: RefsOf(after, other) == RefsOf(refToScope, other);
  }

  lemma TableStored(refs: map<Ref, Entry>, refToScope: map<Ref, Scope>, ref: Ref, e: Entry, scope: Scope)
    ensures TableOf(refs[ref := e], refToScope[ref := scope]) ==
      TableOf(refs, refToScope)[ref := Slot(e.path, e.meta, e.storedAt, scope)]
  {
  }

  lemma TableWithout(refs: map<Ref, Entry>, refToScope: map<Ref, Scope>, gone: set<Ref>)
    ensures TableOf(refs - gone, refToScope - gone) == TableOf(refs, refToScope) - gone
  {
  }

  lemma NoneInScope(scopeToRefs: map<Scope, set<Ref>>, refToScope: map<Ref, Scope>, scope: Scope)
    requires Inverse(scopeToRefs, refToScope) && scope !in scopeToRefs
    ensures RefsOf(refToScope, scope) == {}
  {
  }

  lemma ScopeRefs(refs: map<Ref, Entry>, scopeToRefs: map<Scope, set<Ref>>, refToScope: map<Ref, Scope>, scope: Scope)
    requires refs.Keys == refToScope.Keys && Inverse(scopeToRefs, refToScope) && scope in scopeToRefs
    ensures scopeToRefs[scope] == InScope(TableOf(refs, refToScope), scope) <= refs.Keys
  {
  }

  lemma ReleasedInverse(scopeToRefs: map<Scope, set<Ref>>, refToScope: map<Ref, Scope>, scope: Scope)
    requires Inverse(scopeToRefs, refToScope) && scope in scopeToRefs
    ensures Inverse(scopeToRefs - {scope}, refToScope - scopeToRefs[scope])
  {
    var after := refToScope - scopeToRefs[scope];
    assert forall other | other != scope :: RefsOf(after, other) == RefsOf(refToScope, other);
  }
}
