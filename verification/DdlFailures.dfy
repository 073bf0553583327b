/** Stores on which defining an index goes wrong, one for each condition of its exactness. */
module DdlFailures {
  import opened Bytes
  import opened Values
  import opened Encoding
  import opened Planner
  import opened Query
  import opened StoreState
  import opened StoreSteps
  import opened IndexBuild
  import opened Backfill

  // ---- Small stores ------------------------------------------------------------

  function One(s: Space, id: bytes, doc: Value, expiresAt: nat): Db {
    UpsertDb(s, map[], id, doc, expiresAt)
  }

  lemma EmptyExact(s: Space)
    ensures Exact(s, map[])
  {
  }

  lemma OneDoc(s: Space, id: bytes, doc: Value, expiresAt: nat, other: bytes)
    ensures HasDoc(s, One(s, id, doc, expiresAt), other) <==> other == id
    ensures One(s, id, doc, expiresAt)[s.BodyKey(id)] == Cell(Body(doc), expiresAt)
  {
    hide UpsertDb;
    UpsertCells(s, map[], id, doc, expiresAt, s.BodyKey(id));
    if other != id {
      OtherBodies(s, map[], id, doc, expiresAt, other);
    }
  }

  lemma OneScanned(s: Space, id: bytes, doc: Value, expiresAt: nat, now: nat)
    requires Cell(Body(doc), expiresAt).Live(now)
    ensures Scanned(s, One(s, id, doc, expiresAt), now, [Row(id, doc)])
  {
    hide One;
    forall row: Row ensures row in [Row(id, doc)] <==> LiveDoc(s, One(s, id, doc, expiresAt), now, row.id) && DocOf(s, One(s, id, doc, expiresAt), row.id) == row.doc {
      OneDoc(s, id, doc, expiresAt, row.id);
    }
  }

  lemma NotOldEntry(x: NewIndex, doc: Value, id: bytes, k: bytes)
    requires x.Valid() && x.Head() <= k
    ensures k !in x.space.Entries(doc, id) && k != x.space.BodyKey(id)
  {
    OutsideHead(x, k);
    if k in x.space.Entries(doc, id) {
      FreshUnderHeads(x.space, doc, id, k);
    }
  }

  /** Writes through the catalog's own indexes never touch a new id. */
  lemma UpsertOutside(x: NewIndex, db: Db, id: bytes, doc: Value, expiresAt: nat, k: bytes)
    requires x.Valid() && x.Head() <= k
    ensures SameCell(db, UpsertDb(x.space, db, id, doc, expiresAt), k)
  {
    hide UpsertDb, NewIndex.Head, NewIndex.Valid;
    UpsertCells(x.space, db, id, doc, expiresAt, k);
    NotOldEntry(x, doc, id, k);
    if HasDoc(x.space, db, id) {
      NotOldEntry(x, DocOf(x.space, db, id), id, k);
    }
  }

  lemma PutOutside(x: NewIndex, db: Db, k: bytes, cell: Cell)
    requires x.Head() <= k
    ensures Outside(x, db, db[k := cell], [])
  {
  }

  /** A key put under the new id changes nothing the catalog knows. */
  lemma PutScanned(x: NewIndex, db: Db, now: nat, rows: seq<Row>, k: bytes, cell: Cell)
    requires x.Valid() && Scanned(x.space, db, now, rows) && x.Head() <= k
    ensures Scanned(x.space, db[k := cell], now, rows)
  {
    hide NewIndex.Head, NewIndex.Valid;
    forall id ensures LiveDoc(x.space, db[k := cell], now, id) <==> LiveDoc(x.space, db, now, id)
      ensures LiveDoc(x.space, db, now, id) ==> DocOf(x.space, db[k := cell], id) == DocOf(x.space, db, id)
    {
      OutsideHead(x, k);
    }
  }

  // ---- Stamping ----------------------------------------------------------------

  /** A TTL index over a document that already expires at another time, in a collection with an older
      index: the stamp leaves the older index's entry at the old expiry. */
  lemma StampingBreaksOlderIndex(x: NewIndex, id: bytes, doc: Value, expiresAt: nat, now: nat)
    requires x.Valid() && x.space.coll.indexes != [] && Cell(Body(doc), expiresAt).Live(now)
    requires x.Stamped(Row(id, doc)) && x.Expiry(doc) != expiresAt
    ensures var db, rows := One(x.space, id, doc, expiresAt), [Row(id, doc)];
            && Exact(x.space, db) && Scanned(x.space, db, now, rows)
            && !Exact(x.space, x.Built(db, rows)) && !Exact(x.After(), x.Built(db, rows))
  {
    hide Exact, NewIndex.Built, One, Outside, Scanned, Entered, Inside, SoundNew, CompleteNew;
    var db, rows := One(x.space, id, doc, expiresAt), [Row(id, doc)];
    OneExact(x.space, id, doc, expiresAt);
    OneScanned(x.space, id, doc, expiresAt, now);
    OneDoc(x.space, id, doc, expiresAt, id);
    ScannedHeld(x.space, db, now, rows);
    ScannedDistinct(x.space, db, now, rows);
    BuiltExactly(x, db, rows);
    assert Row(id, doc) in rows && !StampAgrees(x, db, Row(id, doc));
    OlderExact(x, db, x.Built(db, rows), rows);
    ExactSplits(x, x.Built(db, rows));
  }

  /** An index that is not TTL over a document that expires by itself: the entry outlives the body. */
  lemma UnstampedEntryOutlives(x: NewIndex, id: bytes, doc: Value, expiresAt: nat, now: nat)
    requires x.Valid() && !x.Stamped(Row(id, doc)) && expiresAt != 0 && now <= expiresAt
    ensures var db, rows := One(x.space, id, doc, expiresAt), [Row(id, doc)];
            Exact(x.space, db) && Scanned(x.space, db, now, rows) && !Exact(x.After(), x.Built(db, rows))
  {
    hide Exact, NewIndex.Built, One, Scanned, Harmless, Accounted;
    var db, rows := One(x.space, id, doc, expiresAt), [Row(id, doc)];
    OneExact(x.space, id, doc, expiresAt);
    OneScanned(x.space, id, doc, expiresAt, now);
    OneDoc(x.space, id, doc, expiresAt, id);
    assert Row(id, doc) in rows && !StampAgrees(x, db, Row(id, doc));
    BackfillExact(x, db, now, rows);
  }

  /** A document expired and not yet swept: the scan passes over it and it gets no entry. */
  lemma ExpiredPassedOver(x: NewIndex, id: bytes, doc: Value, expiresAt: nat, now: nat)
    requires x.Valid() && 0 < expiresAt < now
    ensures var db := One(x.space, id, doc, expiresAt);
            Exact(x.space, db) && Scanned(x.space, db, now, []) && !Exact(x.After(), x.Built(db, []))
  {
    hide Exact, NewIndex.Built, NewIndex.Key, NewIndex.Head, NewIndex.Valid, UpsertDb, Harmless, Aligned;
    var db, row := One(x.space, id, doc, expiresAt), Row(id, doc);
    SpaceValid(x);
    OneExact(x.space, id, doc, expiresAt);
    forall other ensures !LiveDoc(x.space, db, now, other) {
      OneDoc(x.space, id, doc, expiresAt, other);
    }
    OneDoc(x.space, id, doc, expiresAt, id);
    NewKeys(x, row, row);
    UpsertOutside(x, map[], id, doc, expiresAt, x.Key(row));
    BackfillExact(x, db, now, []);
  }

  lemma OneExact(s: Space, id: bytes, doc: Value, expiresAt: nat)
    requires s.Valid()
    ensures Exact(s, One(s, id, doc, expiresAt))
  {
    hide Exact, UpsertDb;
    EmptyExact(s);
    UpsertExact(s, map[], id, doc, expiresAt);
  }

  // ---- Reused ids --------------------------------------------------------------

  /** A definition wrote a document's entry and crashed before its catalog record, the document was
      rewritten by a store unaware of the index, and the definition ran again under the same id: the
      first entry survives and the new index is not exact. */
  lemma ReusedIdStaysStale(x: NewIndex, db: Db, id: bytes, doc: Value, expiresAt: nat, now: nat, rows: seq<Row>)
    requires x.Valid() && Exact(x.space, db) && HasDoc(x.space, db, id)
    requires x.Key(Row(id, doc)) != x.Key(Row(id, DocOf(x.space, db, id)))
    requires var first := Row(id, DocOf(x.space, db, id));
             Scanned(x.space, UpsertDb(x.space, db[x.Key(first) := x.EntryCell(first)], id, doc, expiresAt), now, rows)
    ensures var first := Row(id, DocOf(x.space, db, id));
            var later := UpsertDb(x.space, db[x.Key(first) := x.EntryCell(first)], id, doc, expiresAt);
            Exact(x.space, later) && !Exact(x.After(), x.Built(later, rows))
  {
    hide NewIndex.Built, UpsertDb, NewIndex.Key, NewIndex.Head, NewIndex.Valid, NewIndex.EntryCell, Exact, Outside, Harmless, Aligned;
    var first := Row(id, DocOf(x.space, db, id));
    var k := x.Key(first);
    var crashed := db[k := x.EntryCell(first)];
    var later := UpsertDb(x.space, crashed, id, doc, expiresAt);
    NewKeys(x, first, first);
    SpaceValid(x);
    PutOutside(x, db, k, x.EntryCell(first));
    StillExact(x, db, crashed);
    UpsertExact(x.space, crashed, id, doc, expiresAt);
    UpsertOutside(x, crashed, id, doc, expiresAt, k);
    UpsertCells(x.space, crashed, id, doc, expiresAt, x.space.BodyKey(id));
    EntryStored(x, first);
    forall row | row in rows ensures x.Key(row) != k {
      NewKeys(x, row, first);
    }
    NewestIndex(x, doc, id);
    SameDocs(x, later, id);
    assert !DerivedCell(x.After(), later, |x.space.coll.indexes|, k);
    BackfillExact(x, later, now, rows);
  }

  lemma SpaceValid(x: NewIndex)
    requires x.Valid()
    ensures x.space.Valid()
  {
  }

  /** One live document, and an entry a crashed definition left for another since deleted. */
  function Haunted(x: NewIndex, gone: bytes, id: bytes, doc: Value): Db {
    One(x.space, id, doc, 0)[x.Key(Row(gone, doc)) := Cell(Ref(gone), 0)]
  }

  lemma HauntedKeys(x: NewIndex, gone: bytes, id: bytes, doc: Value, k: bytes)
    requires x.Valid() && x.Head() <= k
    ensures k in Haunted(x, gone, id, doc) <==> k == x.Key(Row(gone, doc))
  {
    hide NewIndex.Head, NewIndex.Key, NewIndex.Valid, UpsertDb;
    UpsertOutside(x, map[], id, doc, 0, k);
  }

  /** The unique check refuses a collection of one document: it counts the leftover entry. Undoing
      then removes that entry too, so even the refusal does not leave the store as it was. */
  lemma SpuriousRefusal(x: NewIndex, gone: bytes, id: bytes, doc: Value, now: nat)
    requires x.Valid() && x.idx.unique && !x.ttl && gone != id
    ensures var db, rows := Haunted(x, gone, id, doc), [Row(id, doc)];
            && Exact(x.space, db) && Scanned(x.space, db, now, rows) && !SharedValue(x, rows, now)
            && Clash(x, Apply(db, x.AllOps(rows)), now)
            && Without(x, Apply(db, x.AllOps(rows)), now) != db
  {
    hide NewIndex.Key, NewIndex.Head, NewIndex.Valid, NewIndex.AllOps, One, Apply, Exact, Scanned, Clash, Without, Outside, EncodingAt, EncodingOf, IsScan, RowsDistinct;
    var db, rows := Haunted(x, gone, id, doc), [Row(id, doc)];
    var a, b := Row(gone, doc), Row(id, doc);
    var w := Apply(db, x.AllOps(rows));
    SpaceValid(x);
    NewKeys(x, a, b);
    NewKeys(x, b, a);
    OneExact(x.space, id, doc, 0);
    PutOutside(x, One(x.space, id, doc, 0), x.Key(a), Cell(Ref(gone), 0));
    StillExact(x, One(x.space, id, doc, 0), db);
    OneScanned(x.space, id, doc, 0, now);
    PutScanned(x, One(x.space, id, doc, 0), now, rows, x.Key(a), Cell(Ref(gone), 0));
    ScannedDistinct(x.space, db, now, rows);
    EntriesWritten(x, db, rows);
    forall k | k in db && x.Head() <= k ensures Formed(x, Entry(k, db[k].stored)) {
      HauntedKeys(x, gone, id, doc, k);
      assert Entry(k, db[k].stored) == Entry(x.Key(a), Ref(a.id));
    }
    var entries := ScanExists(w, x.Head(), now);
    CheckExact(x, db, w, rows, now, entries);
    EncodingRead(x, a);
    EncodingRead(x, b);
    EncodedSame(x, a, b);
    assert !RowKey(x, rows, x.Key(a)) && SameCell(db, w, x.Key(a));
    assert b in rows && x.Key(b) in w && w[x.Key(b)] == x.EntryCell(b);
    assert LiveKey(x, w, now, x.Key(a)) && LiveKey(x, w, now, x.Key(b));
    assert SharedKeys(x, w, now);
    assert LiveLeftover(x, db, rows, now);
    UndoRestores(x, db, rows, now);
  }

  lemma EncodedSame(x: NewIndex, a: Row, b: Row)
    requires a.doc == b.doc
    ensures EncodingOf(x, a) == EncodingOf(x, b)
  {
  }

  /** Two documents holding `d` and a third holding `e`. */
  function Three(s: Space, d: Value, e: Value): Db {
    UpsertDb(s, UpsertDb(s, One(s, [0], d, 0), [1], d, 0), [2], e, 0)
  }

  function ThreeRows(d: Value, e: Value): seq<Row> {
    [Row([0], d), Row([1], d), Row([2], e)]
  }

  lemma ThreeExact(s: Space, d: Value, e: Value)
    requires s.Valid()
    ensures Exact(s, Three(s, d, e))
  {
    hide Exact, UpsertDb;
    OneExact(s, [0], d, 0);
    UpsertExact(s, One(s, [0], d, 0), [1], d, 0);
    UpsertExact(s, UpsertDb(s, One(s, [0], d, 0), [1], d, 0), [2], e, 0);
  }

  lemma ThreeScanned(s: Space, d: Value, e: Value, now: nat)
    ensures Scanned(s, Three(s, d, e), now, ThreeRows(d, e))
  {
    hide UpsertDb, One, Scanned, LiveDoc;
    var one, first := One(s, [0], d, 0), [Row([0], d)];
    OneScanned(s, [0], d, 0, now);
    OneScannedMore(s, one, now, first, [1], d);
    var two := UpsertDb(s, one, [1], d, 0);
    OneScannedMore(s, two, now, first + [Row([1], d)], [2], e);
    assert first + [Row([1], d)] + [Row([2], e)] == ThreeRows(d, e);
  }

  /** Inserting a document that never expires adds it to the scan. */
  lemma OneScannedMore(s: Space, db: Db, now: nat, rows: seq<Row>, id: bytes, doc: Value)
    requires Scanned(s, db, now, rows) && forall row :: row in rows ==> row.id != id
    ensures Scanned(s, UpsertDb(s, db, id, doc, 0), now, rows + [Row(id, doc)])
  {
    hide UpsertDb;
    var next, all := UpsertDb(s, db, id, doc, 0), rows + [Row(id, doc)];
    UpsertCells(s, db, id, doc, 0, s.BodyKey(id));
    forall row ensures row in all <==> LiveDoc(s, next, now, row.id) && DocOf(s, next, row.id) == row.doc {
      if row.id != id {
        OtherBodies(s, db, id, doc, 0, row.id);
      }
    }
    assert forall i :: 0 <= i < |rows| ==> rows[i] in rows;
  }

  lemma ThreeKeys(x: NewIndex, d: Value, e: Value, k: bytes)
    requires x.Valid() && x.Head() <= k
    ensures k !in Three(x.space, d, e)
  {
    hide NewIndex.Head, NewIndex.Valid, UpsertDb;
    UpsertOutside(x, UpsertDb(x.space, One(x.space, [0], d, 0), [1], d, 0), [2], e, 0, k);
    UpsertOutside(x, One(x.space, [0], d, 0), [1], d, 0, k);
    UpsertOutside(x, map[], [0], d, 0, k);
  }

  /** A unique TTL definition refused because two documents share a value leaves behind the entry of a
      third whose derived expiry has passed: the undo scan no longer sees it. */
  lemma UndoLeavesExpired(x: NewIndex, d: Value, e: Value, now: nat)
    requires x.Valid() && x.idx.unique && x.Shows(Row([0], d), now) && x.Stamped(Row([2], e)) && x.Expiry(e) < now
    ensures var db, rows := Three(x.space, d, e), ThreeRows(d, e);
            && Exact(x.space, db) && Scanned(x.space, db, now, rows)
            && Clash(x, Apply(db, x.AllOps(rows)), now)
            && x.Key(Row([2], e)) !in db && x.Key(Row([2], e)) in Without(x, Apply(db, x.AllOps(rows)), now)
  {
    hide NewIndex.Key, NewIndex.Head, NewIndex.Valid, NewIndex.AllOps, Three, Apply, Exact, Scanned, Outside, Inside, Clash, EncodingOf, IsScan, RowsDistinct;
    var db, rows, row := Three(x.space, d, e), ThreeRows(d, e), Row([2], e);
    var w := Apply(db, x.AllOps(rows));
    SpaceValid(x);
    ThreeExact(x.space, d, e);
    ThreeScanned(x.space, d, e, now);
    ScannedDistinct(x.space, db, now, rows);
    NewKeys(x, row, row);
    ThreeKeys(x, d, e, x.Key(row));
    EntriesWritten(x, db, rows);
    assert row in rows;
    forall k | k in db && x.Head() <= k ensures false {
      ThreeKeys(x, d, e, k);
    }
    assert !Leftover(x, db, rows);
    var a, b := Row([0], d), Row([1], d);
    EncodedSame(x, a, b);
    assert a in rows && b in rows && a.id[0] != b.id[0];
    assert SharedValue(x, rows, now);
    var entries := ScanExists(w, x.Head(), now);
    CheckExact(x, db, w, rows, now, entries);
  }

  // ---- Leftovers of another shape ------------------------------------------------

  /** The index widened by one more ascending field. */
  function Wider(idx: IndexMeta, extra: Path): IndexMeta {
    IndexMeta(idx.id, idx.fields + [extra], idx.Ascending() + [true], idx.unique)
  }

  const BLANK := Obj([])

  /** Where a crashed definition of the wider index put the entry of a blank document. */
  function WideKey(x: NewIndex, extra: Path): bytes {
    EntryKey(x.space.prefix, x.space.coll.id, Wider(x.idx, extra), BLANK, [1])
  }

  lemma WideKeyRead(x: NewIndex, extra: Path)
    ensures WideKey(x, extra) == x.Head() + EncodingOf(x, Row([], BLANK)) + [0] + [1]
    ensures EncodingAt(x, WideKey(x, extra), [1]) == EncodingOf(x, Row([], BLANK)) + [0]
  {
    hide EncodeFields;
    var wide := Wider(x.idx, extra);
    var us, dirs := FieldValues(BLANK, x.idx.fields), x.idx.Ascending();
    var last := ExtractPath(BLANK, extra);
    assert FieldValues(BLANK, wide.fields) == us + [last];
    assert wide.Ascending() == dirs + [true];
    FragmentSnoc([], us, last, dirs + [true]);
    DirectionsPrefix(us, dirs + [true]);
    assert (dirs + [true])[..|us|] == dirs;
    BlankField(extra);
    var enc := EncodingOf(x, Row([], BLANK));
    assert EncodeFields(us + [last], dirs + [true]) == enc + [0] by {
      assert [] + EncodeFields(us + [last], dirs + [true]) == EncodeFields(us + [last], dirs + [true]);
      assert [] + enc == enc;
    }
    assert WideKey(x, extra) == x.Head() + (enc + [0]) + [1];
  }

  lemma BlankField(extra: Path)
    ensures EncodeDirected(ExtractPath(BLANK, extra), true) == [0]
  {
  }

  /** Two blank documents with a wider definition's leftover between their entries. */
  function Split(x: NewIndex, extra: Path): Db {
    UpsertDb(x.space, One(x.space, [0], BLANK, 0), [2], BLANK, 0)[WideKey(x, extra) := Cell(Ref([1]), 0)]
  }

  lemma SplitKeys(x: NewIndex, extra: Path, k: bytes)
    requires x.Valid() && x.Head() <= k
    ensures k in Split(x, extra) <==> k == WideKey(x, extra)
  {
    hide NewIndex.Head, NewIndex.Valid, UpsertDb, WideKey;
    UpsertOutside(x, One(x.space, [0], BLANK, 0), [2], BLANK, 0, k);
    UpsertOutside(x, map[], [0], BLANK, 0, k);
  }

  lemma TwoScanned(s: Space, now: nat)
    ensures Scanned(s, UpsertDb(s, One(s, [0], BLANK, 0), [2], BLANK, 0), now, [Row([0], BLANK), Row([2], BLANK)])
  {
    hide UpsertDb, One, Scanned, LiveDoc;
    OneScanned(s, [0], BLANK, 0, now);
    OneScannedMore(s, One(s, [0], BLANK, 0), now, [Row([0], BLANK)], [2], BLANK);
    assert [Row([0], BLANK)] + [Row([2], BLANK)] == [Row([0], BLANK), Row([2], BLANK)];
  }

  lemma SplitStore(x: NewIndex, extra: Path, now: nat)
    requires x.Valid()
    ensures Exact(x.space, Split(x, extra)) && Scanned(x.space, Split(x, extra), now, [Row([0], BLANK), Row([2], BLANK)])
  {
    hide NewIndex.Head, NewIndex.Valid, UpsertDb, One, WideKey, Exact, Scanned, Outside;
    SpaceValid(x);
    var two := UpsertDb(x.space, One(x.space, [0], BLANK, 0), [2], BLANK, 0);
    OneExact(x.space, [0], BLANK, 0);
    UpsertExact(x.space, One(x.space, [0], BLANK, 0), [2], BLANK, 0);
    WideKeyRead(x, extra);
    PutOutside(x, two, WideKey(x, extra), Cell(Ref([1]), 0));
    StillExact(x, two, Split(x, extra));
    TwoScanned(x.space, now);
    PutScanned(x, two, now, [Row([0], BLANK), Row([2], BLANK)], WideKey(x, extra), Cell(Ref([1]), 0));
  }

  lemma SplitOrder(p: bytes)
    ensures Less(p + [0], p + [0] + [1]) && Less(p + [0] + [1], p + [2]) && Less(p + [0], p + [2])
  {
    assert p + [0] + [1] == p + [0, 1];
    LessPrepend(p, [0], [0, 1]);
    LessPrepend(p, [0, 1], [2]);
    LessPrepend(p, [0], [2]);
  }

  /** The converse failure: between the entries of two documents that share a value lies a leftover of
      a wider definition under the same id. Neighbours never match, the definition succeeds, and the
      new unique index holds a duplicate. */
  lemma LeftoverHidesDuplicate(x: NewIndex, extra: Path, now: nat)
    requires x.Valid() && x.idx.unique && !x.ttl
    ensures var db, rows := Split(x, extra), [Row([0], BLANK), Row([2], BLANK)];
            && Exact(x.space, db) && Scanned(x.space, db, now, rows) && SharedValue(x, rows, now)
            && !Clash(x, Apply(db, x.AllOps(rows)), now) && !Unique(x.After(), x.Built(db, rows), now)
  {
    hide NewIndex.Key, NewIndex.Head, NewIndex.Valid, NewIndex.AllOps, NewIndex.Built, Split, WideKey, Apply, Exact, Scanned, Outside, EncodingAt, EncodingOf, IsScan, RowsDistinct, Clash, Unique, Less;
    var db, a, b := Split(x, extra), Row([0], BLANK), Row([2], BLANK);
    var rows := [a, b];
    var w := Apply(db, x.AllOps(rows));
    SplitStore(x, extra, now);
    ScannedDistinct(x.space, db, now, rows);
    EntriesWritten(x, db, rows);
    EncodedSame(x, a, b);
    EncodedSame(x, a, Row([], BLANK));
    assert a in rows && b in rows;
    assert SharedValue(x, rows, now);
    var entries := [Entry(x.Key(a), Ref(a.id)), Entry(WideKey(x, extra), Ref([1])), Entry(x.Key(b), Ref(b.id))];
    SplitScan(x, extra, db, w, now, entries);
    SplitApart(x, extra, entries);
    ClashOf(x, w, now, entries);
    SharedNotUnique(x, db, now, rows);
  }

  lemma SplitScan(x: NewIndex, extra: Path, db: Db, w: Db, now: nat, entries: seq<Entry>)
    requires x.Valid() && !x.ttl && db == Split(x, extra)
    requires var rows := [Row([0], BLANK), Row([2], BLANK)]; Entered(x, w, rows) && Inside(x, db, w, rows)
    requires entries == [Entry(x.Key(Row([0], BLANK)), Ref([0])), Entry(WideKey(x, extra), Ref([1])), Entry(x.Key(Row([2], BLANK)), Ref([2]))]
    ensures IsScan(w, x.Head(), now, entries)
  {
    hide NewIndex.Key, NewIndex.Head, NewIndex.Valid, Split, WideKey, EncodingOf, EncodingAt, Less;
    var a, b := Row([0], BLANK), Row([2], BLANK);
    var rows := [a, b];
    NewKeys(x, a, b);
    NewKeys(x, b, a);
    SplitKeysOrder(x, extra);
    assert a in rows && b in rows && !RowKey(x, rows, WideKey(x, extra));
    SplitKeys(x, extra, WideKey(x, extra));
    SplitCell(x, extra);
    forall e ensures e in entries <==> e.key in w && x.Head() <= e.key && w[e.key].Live(now) && w[e.key].stored == e.stored {
      if e.key in w && x.Head() <= e.key {
        KeyOrigin(x, db, w, rows, e.key);
        SplitKeys(x, extra, e.key);
        if RowKey(x, rows, e.key) {
          var row := KeyedRow(x, rows, e.key);
        }
      }
    }
  }

  lemma SplitKeysOrder(x: NewIndex, extra: Path)
    ensures var low, mid, high := x.Key(Row([0], BLANK)), WideKey(x, extra), x.Key(Row([2], BLANK));
            x.Head() <= mid && low != mid && mid != high && Less(low, mid) && Less(mid, high) && Less(low, high)
  {
    hide NewIndex.Key, NewIndex.Head, WideKey, EncodingOf, EncodingAt, Less;
    var a, b := Row([0], BLANK), Row([2], BLANK);
    WideKeyRead(x, extra);
    EncodingRead(x, a);
    EncodingRead(x, b);
    EncodedSame(x, a, b);
    EncodedSame(x, a, Row([], BLANK));
    SplitOrder(x.Head() + EncodingOf(x, a));
    LessIrreflexive(WideKey(x, extra));
  }

  lemma SplitCell(x: NewIndex, extra: Path)
    ensures WideKey(x, extra) in Split(x, extra) && Split(x, extra)[WideKey(x, extra)] == Cell(Ref([1]), 0)
  {
    hide UpsertDb, WideKey;
  }

  lemma SplitApart(x: NewIndex, extra: Path, entries: seq<Entry>)
    requires entries == [Entry(x.Key(Row([0], BLANK)), Ref([0])), Entry(WideKey(x, extra), Ref([1])), Entry(x.Key(Row([2], BLANK)), Ref([2]))]
    ensures AllRefs(entries) && !Neighbours(x, entries)
  {
    hide NewIndex.Key, WideKey, EncodingOf, EncodingAt;
    WideKeyRead(x, extra);
    EncodingRead(x, Row([0], BLANK));
    EncodingRead(x, Row([2], BLANK));
    EncodedSame(x, Row([0], BLANK), Row([], BLANK));
    EncodedSame(x, Row([2], BLANK), Row([], BLANK));
    assert |EncodingOf(x, Row([], BLANK)) + [0]| == |EncodingOf(x, Row([], BLANK))| + 1;
  }

  /** Two live documents that share the value of a unique index contradict it, stamped or not. */
  lemma SharedNotUnique(x: NewIndex, db: Db, now: nat, rows: seq<Row>)
    requires x.Valid() && x.idx.unique && !x.ttl && Scanned(x.space, db, now, rows) && SharedValue(x, rows, now)
    ensures !Unique(x.After(), x.Built(db, rows), now)
  {
    hide NewIndex.Valid, NewIndex.Built, Outside, EncodingOf, Encoded;
    var s, r, n := x.After(), x.Built(db, rows), |x.space.coll.indexes|;
    var a, b :| a in rows && b in rows && x.Shows(a, now) && x.Shows(b, now) && a.id != b.id && EncodingOf(x, a) == EncodingOf(x, b);
    ScannedHeld(x.space, db, now, rows);
    BuiltExactly(x, db, rows);
    DocsKept(x, db, r, rows, a.id);
    DocsKept(x, db, r, rows, b.id);
    SameDocs(x, r, a.id);
    SameDocs(x, r, b.id);
    EncodedAs(x, n, a.doc);
    EncodedAs(x, n, b.doc);
    assert LiveDoc(s, r, now, a.id) && LiveDoc(s, r, now, b.id);
    assert Encoded(s, n, DocOf(s, r, a.id)) == EncodingOf(x, Row([], a.doc)) == EncodingOf(x, Row(a.id, a.doc));
    assert Encoded(s, n, DocOf(s, r, b.id)) == EncodingOf(x, Row([], b.doc)) == EncodingOf(x, Row(b.id, b.doc));
    assert Row(a.id, a.doc) == a && Row(b.id, b.doc) == b;
  }
}
