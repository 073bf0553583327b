/** Whole sessions of a store: writes selected by filter from a snapshot, applied at a later clock,
    one after another. */
module Session {
  import opened Bytes
  import opened Values
  import opened Filters
  import opened Planner
  import opened Query
  import opened StoreState
  import opened StoreSteps
  import opened Store
  import opened IndexBuild
  import opened Backfill
  import opened Consistency

  // ---- Selecting ---------------------------------------------------------------

  function IdsOf(hits: seq<Hit>): (ids: seq<bytes>)
    ensures |ids| == |hits|
  {
    seq(|hits|, i requires 0 <= i < |hits| => hits[i].row.id)
  }

  /** The ids of every match, or nothing when there are more than `cap`. */
  method FindIds(snap: seq<Entry>, prefix: bytes, coll: CollectionMeta, filter: Filter, cap: nat)
    returns (ids: Option<seq<bytes>>, path: AccessPath)
    ensures IsPlan(path, filter, prefix, coll)
    ensures ids.Some? <==> |Found(snap, prefix, coll.id, filter, path)| <= cap
    ensures ids.Some? ==> ids.value == IdsOf(Found(snap, prefix, coll.id, filter, path))
  {
    hide Found, Hits, Candidates, IsPlan;
    path := Plan(filter, prefix, coll);
    var r, _ := ForEachMatch(snap, prefix, coll.id, filter, path, None, hits => |hits| <= cap);
    return if |r.value| > cap then None else Some(IdsOf(r.value)), path;
  }

  /** A visitor that stops at once sees the first match only. */
  lemma VisitedFirst(found: seq<Hit>, goOn: seq<Hit> -> bool, hits: seq<Hit>)
    requires Visited(found, goOn, hits) && (found != [] ==> !goOn(found[..1]))
    ensures hits == if found == [] then [] else found[..1]
  {
    assert hits != [] ==> hits[..1] == found[..1];
  }

  /** The id of the first match. */
  method FindFirstId(snap: seq<Entry>, prefix: bytes, coll: CollectionMeta, filter: Filter)
    returns (ids: seq<bytes>, path: AccessPath)
    ensures IsPlan(path, filter, prefix, coll)
    ensures var all := Found(snap, prefix, coll.id, filter, path); ids == IdsOf(if all == [] then [] else all[..1])
  {
    hide Found, Hits, Candidates, IsPlan;
    path := Plan(filter, prefix, coll);
    var goOn: seq<Hit> -> bool := _ => false;
    var r, _ := ForEachMatch(snap, prefix, coll.id, filter, path, None, goOn);
    VisitedFirst(Found(snap, prefix, coll.id, filter, path), goOn, r.value);
    return IdsOf(r.value), path;
  }

  lemma IdsOnce(hits: seq<Hit>)
    requires NoRepeats(hits)
    ensures NoDuplicates(IdsOf(hits))
    ensures hits != [] ==> NoDuplicates(IdsOf(hits[..1]))
  {
  }

  /** Candidates for a filtered write, from the snapshot at clock `seen`. No id is selected twice. */
  method SelectCandidates(store: DocumentStore, filter: Filter, multi: bool, cap: nat, seen: nat)
    returns (ids: Option<seq<bytes>>, ghost snap: seq<Entry>, path: AccessPath)
    requires store.space.Valid() && Exact(store.space, store.db)
    ensures IsSnapshot(store.db, seen, snap) && IsPlan(path, filter, store.space.prefix, store.space.coll)
    ensures ids.Some? ==> NoDuplicates(ids.value)
    ensures var all := Found(snap, store.space.prefix, store.space.coll.id, filter, path);
            && (multi && |all| > cap <==> ids.None?)
            && (ids.Some? ==> ids.value == IdsOf(if multi || all == [] then all else all[..1]))
  {
    hide Exact, Found, Hits, Candidates, IsPlan, NoDuplicates, IsScan, Agrees, NoRepeats, HitsAscend;
    var entries := ScanPrefix(store.db, [], seen);
    snap := entries;
    SnapshotAgrees(store.space, store.db, seen, snap);
    if multi {
      ids, path := FindIds(entries, store.space.prefix, store.space.coll, filter, cap);
    } else {
      var first;
      first, path := FindFirstId(entries, store.space.prefix, store.space.coll, filter);
      ids := Some(first);
    }
    PlannedOnce(snap, store.space.prefix, store.space.coll, filter, path);
    IdsOnce(Found(snap, store.space.prefix, store.space.coll.id, filter, path));
  }

  // ---- Deleting what matches -----------------------------------------------------

  /** Where `_id` is indexed the stored `_id` is the document's id. */
  ghost predicate IdsAgree(s: Space, db: Db) {
    forall id, i :: 0 <= i < |s.coll.indexes| && HasDoc(s, db, id) ==> IdFaithful(s.coll.indexes[i].fields, DocOf(s, db, id), id)
  }

  lemma SnapshotIds(s: Space, db: Db, now: nat, snap: seq<Entry>)
    requires IsSnapshot(db, now, snap) && IdsAgree(s, db)
    ensures IdsFaithful(snap, s.prefix, s.coll)
  {
    hide IsSnapshot, Holds, IdFaithful;
    forall row, i | Holds(snap, s.prefix, s.coll.id, row) && 0 <= i < |s.coll.indexes| ensures IdFaithful(s.coll.indexes[i].fields, row.doc, row.id) {
      SnapshotHolds(s, db, now, snap, row);
    }
  }

  /** No signed zero hides the document from the path. */
  predicate Reachable(filter: Filter, path: AccessPath, doc: Value) {
    !(path.IndexScan? && ZeroClash(filter, path.fields, doc))
  }

  lemma SelectedIds(s: Space, db: Db, seen: nat, now: nat, snap: seq<Entry>, filter: Filter, path: AccessPath, id: bytes)
    requires s.Valid() && Exact(s, db) && IsSnapshot(db, seen, snap) && IdsAgree(s, db) && seen <= now
    requires IsPlan(path, filter, s.prefix, s.coll)
    ensures Selected(s, db, id, Some(filter), now) && Reachable(filter, path, DocOf(s, db, id)) ==>
              id in IdsOf(Found(snap, s.prefix, s.coll.id, filter, path))
    ensures id in IdsOf(Found(snap, s.prefix, s.coll.id, filter, path)) && HasDoc(s, db, id) ==> Reachable(filter, path, DocOf(s, db, id))
  {
    hide Exact, IsPlan, Found, Matches, ZeroClash, IsSnapshot, IdsFaithful;
    SnapshotIds(s, db, seen, snap);
    var all := Found(snap, s.prefix, s.coll.id, filter, path);
    if HasDoc(s, db, id) {
      var row := Row(id, DocOf(s, db, id));
      QueriesExact(s, db, seen, snap, filter, path, row);
      if Visits(snap, s.prefix, s.coll.id, filter, path, row) {
        var h :| h in all && h.row == row;
        var n :| 0 <= n < |all| && all[n] == h;
        assert IdsOf(all)[n] == id;
      }
    }
    if id in IdsOf(all) {
      var n :| 0 <= n < |all| && IdsOf(all)[n] == id;
      QueriesExact(s, db, seen, snap, filter, path, all[n].row);
      assert all[n] in all;
      assert Visits(snap, s.prefix, s.coll.id, filter, path, all[n].row);
    }
  }

  /** A live match that no signed zero hides from the path. */
  ghost predicate Reached(s: Space, db: Db, filter: Filter, path: AccessPath, id: bytes, now: nat) {
    Selected(s, db, id, Some(filter), now) && Reachable(filter, path, DocOf(s, db, id))
  }

  ghost predicate AllReached(s: Space, db: Db, filter: Filter, path: AccessPath, ids: seq<bytes>, now: nat) {
    forall id :: id in ids <==> Reached(s, db, filter, path, id, now)
  }

  lemma ReachedFound(s: Space, db: Db, seen: nat, now: nat, snap: seq<Entry>, filter: Filter, path: AccessPath, id: bytes)
    requires s.Valid() && Exact(s, db) && IsSnapshot(db, seen, snap) && IdsAgree(s, db) && seen <= now && IsPlan(path, filter, s.prefix, s.coll)
    ensures var found := id in IdsOf(Found(snap, s.prefix, s.coll.id, filter, path));
            && (Reached(s, db, filter, path, id, now) <==> found && Selected(s, db, id, Some(filter), now))
            && (found && seen == now ==> Selected(s, db, id, Some(filter), now))
  {
    hide Exact, IsPlan, Found, Matches, ZeroClash, IsSnapshot, IdsAgree, IdsFaithful;
    SelectedIds(s, db, seen, now, snap, filter, path, id);
    SnapshotIds(s, db, seen, snap);
    var all := Found(snap, s.prefix, s.coll.id, filter, path);
    if id in IdsOf(all) {
      var n :| 0 <= n < |all| && IdsOf(all)[n] == id;
      assert all[n] in all;
      assert Visits(snap, s.prefix, s.coll.id, filter, path, all[n].row);
      QueriesExact(s, db, seen, snap, filter, path, all[n].row);
    }
  }

  /** All matches found are chosen, unless they expired since; and none is chosen only if there is none. */
  lemma ChosenMatches(s: Space, db: Db, seen: nat, now: nat, snap: seq<Entry>, filter: Filter, path: AccessPath, ids: seq<bytes>, multi: bool)
    requires s.Valid() && Exact(s, db) && IsSnapshot(db, seen, snap) && IdsAgree(s, db) && seen <= now && IsPlan(path, filter, s.prefix, s.coll)
    requires var all := Found(snap, s.prefix, s.coll.id, filter, path); ids == IdsOf(if multi || all == [] then all else all[..1])
    ensures var chosen := Chosen(s, db, ids, Some(filter), now);
            && (multi || (chosen == [] && seen == now) ==> AllReached(s, db, filter, path, chosen, now))
            && forall id :: id in chosen ==> Reached(s, db, filter, path, id, now)
  {
    hide Exact, IsSnapshot, IdsAgree, IsPlan, Found, Reached, Selected, Chosen;
    var all := Found(snap, s.prefix, s.coll.id, filter, path);
    ChosenDocs(s, db, ids, Some(filter), now);
    forall id ensures id in ids ==> id in IdsOf(all) {
      if id in ids {
        var n :| 0 <= n < |ids| && ids[n] == id;
        assert IdsOf(all)[n] == id;
      }
    }
    forall id {
      ReachedFound(s, db, seen, now, snap, filter, path, id);
    }
    if all != [] {
      assert ids[0] in ids;
    }
  }

  /** Delete every match. Afterwards the documents that were live and matched are gone, save those a
      signed zero hid from the planned index, and every other document is as it was. */
  method DeleteMany(store: DocumentStore, filter: Filter, cap: nat, seen: nat, now: nat)
    returns (r: Option<Outcome<nat>>, path: AccessPath)
    requires store.Valid() && Unique(store.space, store.db, now) && seen <= now && IdsAgree(store.space, store.db)
    modifies store`db, store`counters, store`persisted, store`durable
    ensures store.Valid() && Unique(store.space, store.db, now)
    ensures IsPlan(path, filter, store.space.prefix, store.space.coll)
    ensures r.None? || !r.value.Done? ==> store.db == old(store.db) && store.durable == old(store.durable)
    ensures r.Some? && r.value.Done? ==> forall id ::
              if Reached(store.space, old(store.db), filter, path, id, now)
              then !HasDoc(store.space, store.db, id) else SameBody(store.space, store.db, old(store.db), id)
    ensures old(store.durable) <= store.durable
    ensures forall i :: |old(store.durable)| <= i < |store.durable| ==> Consistent(store.durable[i], now)
  {
    hide Exact, Counted, Unique, Consistent, Indexed, IsPlan, Found, NoDuplicates, Countable, SameBody, Reached, Selected, IdsAgree, IsSnapshot;
    ghost var before := store.db;
    var ids;
    ghost var snap;
    ids, snap, path := SelectCandidates(store, filter, true, cap, seen);
    if ids.None? {
      return None, path;
    }
    var done := store.DeleteIds(ids.value, Some(filter), now);
    ReallyIndexed(store.space, store.db, store.persisted, now);
    ChosenMatches(store.space, before, seen, now, snap, filter, path, ids.value, true);
    return Some(done), path;
  }

  // ---- Updating what matches -----------------------------------------------------

  /** The document an upsert inserts when nothing matches. */
  datatype Insertion = Insertion(id: bytes, doc: Value, expiresAt: nat)

  datatype Updated = Modified(count: nat) | Inserted | Refused

  ghost predicate Sound(store: DocumentStore, now: nat)
    reads store
  {
    store.Valid() && Unique(store.space, store.db, now)
  }

  /** Every state made durable since `from` is consistent at the clock. */
  ghost predicate AllConsistentAt(durable: seq<Durable>, from: nat, now: nat) {
    forall i :: from <= i < |durable| ==> Consistent(durable[i], now)
  }

  lemma ConsistentAppend(first: seq<Durable>, second: seq<Durable>, from: nat, now: nat)
    requires from <= |first| && first <= second && AllConsistentAt(first, from, now) && AllConsistentAt(second, |first|, now)
    ensures AllConsistentAt(second, from, now)
  {
    hide Consistent;
    forall i | from <= i < |second| ensures Consistent(second[i], now) {
      assert i < |first| ==> second[i] == first[i];
    }
  }

  /** The ids name distinct live matches, whose updated bodies are all that differs. */
  ghost predicate Rewritten(s: Space, db: Db, after: Db, filter: Filter, update: Value -> Option<Value>, expiry: Value -> nat, ids: seq<bytes>, now: nat) {
    && NoDuplicates(ids)
    && (forall id :: id in ids ==> Selected(s, db, id, Some(filter), now))
    && forall id :: UpdatedTo(s, db, after, ids, update, expiry, id)
  }

  /** Nothing found first means no reachable live document matches. */
  lemma NoneFound(s: Space, db: Db, now: nat, snap: seq<Entry>, filter: Filter, path: AccessPath)
    requires s.Valid() && Exact(s, db) && IsSnapshot(db, now, snap) && IdsAgree(s, db) && IsPlan(path, filter, s.prefix, s.coll)
    requires Found(snap, s.prefix, s.coll.id, filter, path) == []
    ensures AllReached(s, db, filter, path, [], now)
  {
    hide Exact, IsSnapshot, IdsAgree, IsPlan, Found, Reached;
    forall id {
      ReachedFound(s, db, now, now, snap, filter, path, id);
    }
  }

  /** Insert the fallback document of an upsert, unless the first match under the lock turns up one to
      update after all. */
  method UpsertFallback(store: DocumentStore, filter: Filter, update: Value -> Option<Value>, expiry: Value -> nat,
                        insert: Option<Insertion>, now: nat)
    returns (r: Updated, path: AccessPath, ghost ids: seq<bytes>)
    requires Sound(store, now)
    modifies store`db, store`counters, store`persisted, store`durable
    ensures Sound(store, now) && old(store.durable) <= store.durable && AllConsistentAt(store.durable, |old(store.durable)|, now)
    ensures IsPlan(path, filter, store.space.prefix, store.space.coll)
    ensures r.Inserted? ==> insert.Some? && store.db == UpsertDb(store.space, old(store.db), insert.value.id, insert.value.doc, insert.value.expiresAt)
    ensures r.Inserted? && IdsAgree(store.space, old(store.db)) ==> AllReached(store.space, old(store.db), filter, path, [], now)
    ensures r.Modified? ==> r.count == |ids| <= 1 && Rewritten(store.space, old(store.db), store.db, filter, update, expiry, ids, now)
    ensures IdsAgree(store.space, old(store.db)) ==> forall id :: id in ids ==> Reached(store.space, old(store.db), filter, path, id, now)
    ensures r.Refused? ==> store.db == old(store.db)
  {
    hide Exact, Counted, Unique, Consistent, Indexed, IsPlan, Found, NoDuplicates, IsSnapshot, IdsAgree, Reached, Selected, UpdatedTo, Unclaimed, UpsertDb, Free, AllFit, Fitting, AllUpserts, Updates;
    ghost var before := store.db;
    var found;
    ghost var snap;
    found, snap, path := SelectCandidates(store, filter, false, 0, now);
    ids := Chosen(store.space, before, found.value, Some(filter), now);
    ChosenOnce(store.space, before, found.value, Some(filter), now);
    ChosenDocs(store.space, before, found.value, Some(filter), now);
    if IdsAgree(store.space, before) {
      ChosenMatches(store.space, before, now, now, snap, filter, path, found.value, false);
    }
    if found.value != [] {
      var done := store.ApplyToIds(found.value, update, expiry, Some(filter), now);
      return if done.Done? then Modified(done.value) else Refused, path, ids;
    }
    if IdsAgree(store.space, before) {
      NoneFound(store.space, before, now, snap, filter, path);
    }
    if insert.None? {
      return Refused, path, ids;
    }
    var done := store.UpsertDocument(insert.value.id, insert.value.doc, insert.value.expiresAt, now);
    return if done.Done? then Inserted else Refused, path, ids;
  }

  /** Update the first match or all; with `upsert`, insert a document when none is modified. Updating all
      takes every live match and updating none means there is none, and so does inserting, save for
      those a signed zero hides from the planned index. */
  method UpdateMany(store: DocumentStore, filter: Filter, update: Value -> Option<Value>, expiry: Value -> nat, multi: bool,
                    upsert: bool, insert: Option<Insertion>, cap: nat, seen: nat, now: nat)
    returns (r: Updated, path: AccessPath, ghost ids: seq<bytes>)
    requires Sound(store, now)
    modifies store`db, store`counters, store`persisted, store`durable
    ensures Sound(store, now) && old(store.durable) <= store.durable && AllConsistentAt(store.durable, |old(store.durable)|, now)
    ensures IsPlan(path, filter, store.space.prefix, store.space.coll)
    ensures r.Inserted? ==> upsert && insert.Some?
    ensures r.Inserted? ==> store.db == UpsertDb(store.space, old(store.db), insert.value.id, insert.value.doc, insert.value.expiresAt)
    ensures r.Inserted? && IdsAgree(store.space, old(store.db)) ==> AllReached(store.space, old(store.db), filter, path, [], now)
    ensures r.Modified? ==> r.count == |ids| && Rewritten(store.space, old(store.db), store.db, filter, update, expiry, ids, now)
    ensures r.Modified? && !multi ==> r.count <= 1
    ensures r.Modified? && IdsAgree(store.space, old(store.db)) && ((multi && seen <= now) || (ids == [] && seen == now)) ==>
              AllReached(store.space, old(store.db), filter, path, ids, now)
    ensures r.Refused? ==> store.db == old(store.db)
  {
    hide Exact, Counted, Unique, Consistent, Indexed, IsPlan, Found, NoDuplicates, IsSnapshot, IdsAgree, Reached, Selected, UpdatedTo, Unclaimed, UpsertDb, AllFit, AllUpserts, Updates;
    ghost var before := store.db;
    var found;
    ghost var snap;
    found, snap, path := SelectCandidates(store, filter, multi, cap, seen);
    if found.None? {
      return Refused, path, [];
    }
    ids := Chosen(store.space, before, found.value, Some(filter), now);
    ChosenOnce(store.space, before, found.value, Some(filter), now);
    ChosenDocs(store.space, before, found.value, Some(filter), now);
    if IdsAgree(store.space, before) && seen <= now {
      ChosenMatches(store.space, before, seen, now, snap, filter, path, found.value, multi);
    }
    var done := store.ApplyToIds(found.value, update, expiry, Some(filter), now);
    if !done.Done? {
      return Refused, path, [];
    }
    if done.value > 0 || !upsert {
      return Modified(done.value), path, ids;
    }
    ghost var sofar, first := store.durable, path;
    r, path, ids := UpsertFallback(store, filter, update, expiry, insert, now);
    ConsistentAppend(sofar, store.durable, |old(store.durable)|, now);
    PlanUnique(first, path, filter, store.space.prefix, store.space.coll);
  }

  // ---- Defining indexes ----------------------------------------------------------

  /** What `Ready` asks of a store, as finite checks over its keys. */
  predicate ReadyNow(x: NewIndex, db: Db, now: nat, rows: seq<Row>) {
    && (forall k | k in db :: x.Head() <= k ==> db[k].stored.Ref? && exists row | row in rows :: x.Key(row) == k)
    && (forall k | k in db :: x.space.Bodies() <= k ==> db[k].Live(now))
    && (forall row | row in rows :: (x.space.coll.indexes == [] && x.Stamped(row)) || StampAgrees(x, db, row))
  }

  lemma ReadyNowIsReady(x: NewIndex, db: Db, now: nat, rows: seq<Row>)
    requires x.Valid() && Exact(x.space, db) && ReadyNow(x, db, now, rows)
    ensures Ready(x, db, now, rows) && RefsOnly(x, db)
  {
    hide Exact, NewIndex.Key, NewIndex.Head, NewIndex.Valid, NewIndex.Stamped, StampAgrees;
    forall id | HasDoc(x.space, db, id) ensures LiveDoc(x.space, db, now, id) {
      BodyUnderBodies(x.space, id);
    }
  }

  /** Define an index when the store is ready for it. */
  method DefineWhenReady(store: DocumentStore, idx: IndexMeta, derive: Value -> nat, ttl: bool, now: nat) returns (r: Option<DdlResult>)
    requires Sound(store, now)
    modifies store
    ensures Sound(store, now) && old(store.durable) <= store.durable && AllConsistentAt(store.durable, |old(store.durable)|, now)
    ensures r.None? || !r.value.Defined? ==> store.space == old(store.space)
    ensures r.Some? && r.value.Defined? ==> store.space == NewIndex(old(store.space), idx, derive, ttl).After()
  {
    hide Exact, Counted, Unique, Consistent, Indexed, Scanned, IsScan, RowsOf, NewIndex.Valid, ReadyNow, RefsOnly, Fits, Clash, WellFormed, SharedKeys, SharedValue, Leftover, Harmless, Ready, Partial, Traced, Without, NewIndex.Built, NewIndex.AllOps, Apply, NewIndex.Recount, NewIndex.After;
    var x := NewIndex(store.space, idx, derive, ttl);
    if !x.Valid() {
      return None;
    }
    ghost var before, c := store.db, store.counters;
    var rows, entries := ScanRows(store.space, store.db, now);
    if !ReadyNow(x, store.db, now, rows) {
      return None;
    }
    ReadyNowIsReady(x, store.db, now, rows);
    var outcome;
    ghost var scanned;
    outcome, scanned := DefineIndex(store, x, now);
    ReadyAgain(x, before, now, rows, scanned);
    ReallyIndexed(store.space, store.db, store.persisted, now);
    if outcome.Defined? {
      ghost var passed :| Traced(passed, |old(store.durable)|, x, before, c, scanned, now) && store.durable == passed + [Durable(store.space, store.db, store.persisted)];
      TracedConsistent(passed, |old(store.durable)|, x, before, c, scanned, now);
    } else {
      TracedConsistent(store.durable, |old(store.durable)|, x, before, c, scanned, now);
    }
    return Some(outcome);
  }

  lemma TracedConsistent(durable: seq<Durable>, from: nat, x: NewIndex, db: Db, c: Counters, rows: seq<Row>, now: nat)
    requires Traced(durable, from, x, db, c, rows, now) && Harmless(x, db, rows)
    ensures AllConsistentAt(durable, from, now)
  {
    hide Consistent, Harmless, Partial;
  }

  /** Two scans of one state hold the same documents, so either serves to judge it. */
  lemma ReadyAgain(x: NewIndex, db: Db, now: nat, rows: seq<Row>, again: seq<Row>)
    requires Scanned(x.space, db, now, rows) && Scanned(x.space, db, now, again) && Ready(x, db, now, rows)
    ensures Ready(x, db, now, again) && Harmless(x, db, again)
  {
    hide NewIndex.Key, NewIndex.Head, NewIndex.Stamped, StampAgrees, LiveDoc;
    assert forall row :: row in rows <==> row in again;
    forall k ensures RowKey(x, rows, k) <==> RowKey(x, again, k) {
    }
  }

  // ---- Sessions ----------------------------------------------------------------

  /** One call of a session: a write, a filtered update or delete of the first match or of all, or the
      definition of an index. */
  datatype Request =
    | Write(id: bytes, doc: Value, expiresAt: nat)
    | Update(filter: Filter, update: Value -> Option<Value>, expiry: Value -> nat, multi: bool, upsert: bool, insert: Option<Insertion>)
    | Remove(filter: Filter, multi: bool)
    | Define(idx: IndexMeta, derive: Value -> nat, ttl: bool)

  /** Every state made durable since `from` is consistent from clock `now` on. */
  ghost predicate Recoverable(durable: seq<Durable>, from: nat, now: nat) {
    forall i, later :: from <= i < |durable| && now <= later ==> Consistent(durable[i], later)
  }

  lemma StillConsistent(d: Durable, now: nat, later: nat)
    requires Consistent(d, now) && now <= later
    ensures Consistent(d, later)
  {
    hide Exact, Counted, Unique;
    UniqueLater(d.space, d.db, now, later);
  }

  lemma RecoverableFrom(durable: seq<Durable>, from: nat, now: nat)
    requires AllConsistentAt(durable, from, now)
    ensures Recoverable(durable, from, now)
  {
    hide Consistent;
    forall i, later | from <= i < |durable| && now <= later ensures Consistent(durable[i], later) {
      StillConsistent(durable[i], now, later);
    }
  }

  method Perform(store: DocumentStore, request: Request, cap: nat, now: nat)
    requires Sound(store, now)
    modifies store
    ensures Sound(store, now) && old(store.durable) <= store.durable
    ensures Recoverable(store.durable, |old(store.durable)|, now)
    ensures !request.Define? ==> store.space == old(store.space)
  {
    hide Exact, Counted, Unique, Consistent, Indexed, Recoverable, Rewritten, AllReached, IsPlan, Found, NoDuplicates, Countable, SameBody, UpsertDb, Free, Fitting, AllFit, IdsAgree, Reached, Selected;
    match request {
      case Write(id, doc, expiresAt) =>
        var done := store.UpsertDocument(id, doc, expiresAt, now);
      case Update(filter, update, expiry, multi, upsert, insert) =>
        var done, path, _ := UpdateMany(store, filter, update, expiry, multi, upsert, insert, cap, now, now);
      case Remove(filter, multi) =>
        var ids, snap, path := SelectCandidates(store, filter, multi, cap, now);
        if ids.Some? {
          var done := store.DeleteIds(ids.value, Some(filter), now);
          ReallyIndexed(store.space, store.db, store.persisted, now);
        }
      case Define(idx, derive, ttl) =>
        var done := DefineWhenReady(store, idx, derive, ttl, now);
    }
    RecoverableFrom(store.durable, |old(store.durable)|, now);
  }

  /** The clocks of a session never run backwards. */
  ghost predicate Clocks(start: nat, clocks: seq<nat>) {
    (forall i :: 0 <= i < |clocks| ==> start <= clocks[i]) && forall i, j :: 0 <= i < j < |clocks| ==> clocks[i] <= clocks[j]
  }

  /** A whole session keeps the store sound, and a crash at any moment of it recovers a state that is
      consistent at the last clock and ever after. */
  method Serve(store: DocumentStore, requests: seq<Request>, clocks: seq<nat>, cap: nat, start: nat)
    requires Sound(store, start) && |clocks| == |requests| && Clocks(start, clocks)
    modifies store
    ensures var last := if clocks == [] then start else clocks[|clocks| - 1];
            Sound(store, last) && Recoverable(store.durable, |old(store.durable)|, last)
    ensures old(store.durable) <= store.durable
  {
    hide Sound, Consistent;
    for n := 0 to |requests|
      invariant old(store.durable) <= store.durable
      invariant var last := if n == 0 then start else clocks[n - 1];
                Sound(store, last) && Recoverable(store.durable, |old(store.durable)|, last)
    {
      ghost var from, last := |store.durable|, if n == 0 then start else clocks[n - 1];
      ghost var before := store.durable;
      assert last <= clocks[n];
      StillSound(store, last, clocks[n]);
      Perform(store, requests[n], cap, clocks[n]);
      forall i, later | |old(store.durable)| <= i < |store.durable| && clocks[n] <= later ensures Consistent(store.durable[i], later) {
        assert i < from ==> store.durable[i] == before[i];
      }
    }
  }

  lemma StillSound(store: DocumentStore, now: nat, later: nat)
    requires Sound(store, now) && now <= later
    ensures Sound(store, later)
  {
    hide Exact, Counted, Unique;
    UniqueLater(store.space, store.db, now, later);
  }
}
