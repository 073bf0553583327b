/** What a consistent store promises its readers: whatever chunk of whatever write committed last, a
    planned query returns the live documents that match. */
module Consistency {
  import opened Bytes
  import opened Filters
  import opened Planner
  import opened Query
  import opened StoreState
  import opened StoreSteps

  /** A snapshot holds the unexpired cells of the key space in key order. */
  ghost predicate IsSnapshot(db: Db, now: nat, snap: seq<Entry>) {
    IsScan(db, [], now, snap)
  }

  lemma SnapshotHolds(s: Space, db: Db, now: nat, snap: seq<Entry>, row: Row)
    requires IsSnapshot(db, now, snap)
    ensures Holds(snap, s.prefix, s.coll.id, row) <==> LiveDoc(s, db, now, row.id) && DocOf(s, db, row.id) == row.doc
  {
    GetExact(snap, s.BodyKey(row.id), Body(row.doc));
    assert Entry(s.BodyKey(row.id), Body(row.doc)) in snap <==> Holds(snap, s.prefix, s.coll.id, row);
  }

  lemma SnapshotSound(s: Space, db: Db, now: nat, snap: seq<Entry>, i: nat, e: Entry)
    requires s.Valid() && Sound(s, db) && IsSnapshot(db, now, snap) && i < |s.coll.indexes|
    requires e in snap && s.Head(i) <= e.key
    ensures e.stored.Ref?
    ensures exists row :: Holds(snap, s.prefix, s.coll.id, row) && row.id == e.stored.id && e.key == s.Entry(i, row.doc, row.id)
  {
    assert DerivedCell(s, db, i, e.key);
    var id := e.stored.id;
    SnapshotHolds(s, db, now, snap, Row(id, DocOf(s, db, id)));
    assert Holds(snap, s.prefix, s.coll.id, Row(id, DocOf(s, db, id)));
  }

  lemma SnapshotComplete(s: Space, db: Db, now: nat, snap: seq<Entry>, i: nat, row: Row)
    requires s.Valid() && Sound(s, db) && Complete(s, db) && IsSnapshot(db, now, snap) && i < |s.coll.indexes|
    requires Holds(snap, s.prefix, s.coll.id, row)
    ensures Entry(s.Entry(i, row.doc, row.id), Ref(row.id)) in snap
  {
    SnapshotHolds(s, db, now, snap, row);
    var k := s.Entry(i, row.doc, row.id);
    EntryUnderHead(s, i, row.doc, row.id);
    assert DerivedCell(s, db, i, k);
    var owner := db[k].stored.id;
    EntryNamesDoc(s, i, row.doc, row.id, DocOf(s, db, owner), owner);
    assert Entry(k, Ref(row.id)).key in db;
  }

  /** Exact indexes make every snapshot agree with its bodies, at any clock. */
  lemma SnapshotAgrees(s: Space, db: Db, now: nat, snap: seq<Entry>)
    requires s.Valid() && Exact(s, db) && IsSnapshot(db, now, snap)
    ensures Agrees(snap, s.prefix, s.coll)
  {
    hide Sound, Complete, Query.Ascending, Holds, EntryKey;
    forall i | 0 <= i < |s.coll.indexes|
      ensures EntriesSound(snap, s.prefix, s.coll.id, s.coll.indexes[i]) && EntriesComplete(snap, s.prefix, s.coll.id, s.coll.indexes[i])
    {
      forall e | e in snap && s.Head(i) <= e.key
        ensures e.stored.Ref?
        ensures exists row :: Holds(snap, s.prefix, s.coll.id, row) && row.id == e.stored.id && e.key == s.Entry(i, row.doc, row.id)
      {
        SnapshotSound(s, db, now, snap, i, e);
      }
      forall row | Holds(snap, s.prefix, s.coll.id, row) ensures Entry(s.Entry(i, row.doc, row.id), Ref(row.id)) in snap {
        SnapshotComplete(s, db, now, snap, i, row);
      }
    }
  }

  /** A planned query over a snapshot of an exact store visits a document if and only if it is live,
      matches the filter and no signed zero hides it from the chosen index. */
  lemma QueriesExact(s: Space, db: Db, now: nat, snap: seq<Entry>, filter: Filter, path: AccessPath, row: Row)
    requires s.Valid() && Exact(s, db) && IsSnapshot(db, now, snap)
    requires IsPlan(path, filter, s.prefix, s.coll) && IdsFaithful(snap, s.prefix, s.coll)
    ensures Visits(snap, s.prefix, s.coll.id, filter, path, row) <==>
            && LiveDoc(s, db, now, row.id) && DocOf(s, db, row.id) == row.doc && Matches(filter, row.doc, Some(row.id))
            && !(path.IndexScan? && ZeroClash(filter, path.fields, row.doc))
  {
    hide Exact, IsPlan, IdsFaithful, Visits, Matches, Holds, Agrees, ZeroClash, IsSnapshot;
    SnapshotAgrees(s, db, now, snap);
    AgreesParts(snap, s.prefix, s.coll);
    PlannerExact(snap, s.prefix, s.coll, filter, path, row);
    CollectionVisits(snap, s.prefix, s.coll.id, filter, row);
    SnapshotHolds(s, db, now, snap, row);
  }
}
