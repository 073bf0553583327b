/** An index being built over existing documents: what its writes do to the key space, and exactly
    when the collection is consistent before, during and after. */
module IndexBuild {
  import opened Bytes
  import opened Words
  import opened Values
  import opened Encoding
  import opened Keys
  import opened Planner
  import opened Query
  import opened StoreState
  import opened StoreSteps
  import opened Store

  /** An index being added to a collection. A TTL index derives an expiry from each document. */
  datatype NewIndex = NewIndex(space: Space, idx: IndexMeta, derive: Value -> nat, ttl: bool) {
    predicate Valid() {
      && space.Valid() && idx.id < U32
      && (forall i :: 0 <= i < |space.coll.indexes| ==> space.coll.indexes[i].id != idx.id)
    }

    /** The collection once the index is in its catalog. */
    function After(): Space {
      space.(coll := space.coll.(indexes := space.coll.indexes + [idx]))
    }

    function Head(): bytes {
      IndexPrefix(space.prefix, space.coll.id, idx.id)
    }

    function Key(row: Row): bytes {
      EntryKey(space.prefix, space.coll.id, idx, row.doc, row.id)
    }

    /** When the index makes a document expire; zero for never, as any index but a TTL one says. */
    function Expiry(doc: Value): nat {
      if ttl then derive(doc) else 0
    }

    /** The document's entry has not already expired. */
    predicate Shows(row: Row, now: nat) {
      EntryCell(row).Live(now)
    }

    function EntryCell(row: Row): Cell {
      Cell(Ref(row.id), Expiry(row.doc))
    }

    /** The body written back with the derived expiry. */
    function BodyCell(row: Row): Cell {
      Cell(Body(row.doc), Expiry(row.doc))
    }

    /** Documents whose body gets the derived expiry. */
    predicate Stamped(row: Row) {
      Expiry(row.doc) != 0
    }

    /** An index that is not unique stamps bodies in the same pass. */
    predicate StampsInline(row: Row) {
      !idx.unique && Stamped(row)
    }

    function StampOf(row: Row): Op {
      Put(space.BodyKey(row.id), BodyCell(row))
    }

    function RowOps(row: Row): (ops: seq<Op>)
      ensures |ops| == if StampsInline(row) then 2 else 1
    {
      [Put(Key(row), EntryCell(row))] + if StampsInline(row) then [StampOf(row)] else []
    }

    function AllOps(rows: seq<Row>): seq<Op> {
      if rows == [] then [] else AllOps(rows[..|rows| - 1]) + RowOps(rows[|rows| - 1])
    }

    /** Body stamps a unique TTL index applies once its check has passed. */
    function StampOps(rows: seq<Row>): seq<Op> {
      if rows == [] then []
      else
        var last := rows[|rows| - 1];
        StampOps(rows[..|rows| - 1]) + if Stamped(last) then [StampOf(last)] else []
    }

    /** The key space once every entry and every stamp is written. */
    function Built(db: Db, rows: seq<Row>): Db {
      var written := Apply(db, AllOps(rows));
      if idx.unique then Apply(written, StampOps(rows)) else written
    }

    /** The counters the catalog is given: one entry for each document scanned. */
    function Recount(c: Counters, rows: seq<Row>): Counters {
      Counters(c.docs, c.entries + [|rows|])
    }
  }

  // ---- What the scan sees ------------------------------------------------------

  ghost predicate RowsDistinct(rows: seq<Row>) {
    forall i, j :: 0 <= i < j < |rows| ==> rows[i].id != rows[j].id
  }

  ghost predicate Held(s: Space, db: Db, rows: seq<Row>) {
    forall row :: row in rows ==> HasDoc(s, db, row.id) && DocOf(s, db, row.id) == row.doc
  }

  /** The live documents, each once. */
  ghost predicate Scanned(s: Space, db: Db, now: nat, rows: seq<Row>) {
    && RowsDistinct(rows)
    && forall row :: row in rows <==> LiveDoc(s, db, now, row.id) && DocOf(s, db, row.id) == row.doc
  }

  lemma ScannedHeld(s: Space, db: Db, now: nat, rows: seq<Row>)
    requires Scanned(s, db, now, rows)
    ensures Held(s, db, rows)
  {
  }

  // ---- Keys --------------------------------------------------------------------

  lemma NewKeys(x: NewIndex, a: Row, b: Row)
    requires x.Valid()
    ensures x.Head() <= x.Key(a)
    ensures x.Key(a) == x.Key(b) ==> a.id == b.id
  {
    var s, n := x.After(), |x.space.coll.indexes|;
    EntryUnderHead(s, n, a.doc, a.id);
    assert x.Key(a) == s.Entry(n, a.doc, a.id) && x.Key(b) == s.Entry(n, b.doc, b.id);
    if x.Key(a) == x.Key(b) {
      EntryNamesDoc(s, n, a.doc, a.id, b.doc, b.id);
    }
  }

  /** Bodies and entries of the older indexes lie outside the new index's range. */
  lemma OutsideHead(x: NewIndex, k: bytes)
    requires x.Valid() && x.Head() <= k
    ensures !(x.space.Bodies() <= k) && forall id :: x.space.BodyKey(id) != k
    ensures forall i :: 0 <= i < |x.space.coll.indexes| ==> !(x.space.Head(i) <= k)
  {
    var s, n := x.After(), |x.space.coll.indexes|;
    assert s.Head(n) == x.Head() && s.Bodies() == x.space.Bodies();
    if x.space.Bodies() <= k {
      BodyNotEntry(s, n, k);
    }
    forall id ensures x.space.BodyKey(id) != k {
      BodyUnderBodies(x.space, id);
    }
    forall i | 0 <= i < |x.space.coll.indexes| ensures !(x.space.Head(i) <= k) {
      assert s.Head(i) == x.space.Head(i);
      if s.Head(i) <= k {
        HeadsApart(s, i, n, k);
      }
    }
  }

  ghost predicate RowKey(x: NewIndex, rows: seq<Row>, k: bytes) {
    exists row :: row in rows && x.Key(row) == k
  }

  ghost predicate StampKey(x: NewIndex, rows: seq<Row>, k: bytes) {
    exists row :: row in rows && x.Stamped(row) && x.space.BodyKey(row.id) == k
  }

  predicate SameCell(a: Db, b: Db, k: bytes) {
    (k in a <==> k in b) && (k in a ==> a[k] == b[k])
  }

  // ---- The effect of the writes ------------------------------------------------

  /** Each document's entry is there. */
  ghost predicate Entered(x: NewIndex, r: Db, rows: seq<Row>) {
    forall row :: row in rows ==> x.Key(row) in r && r[x.Key(row)] == x.EntryCell(row)
  }

  /** Under the new id nothing else moved. */
  ghost predicate Inside(x: NewIndex, db: Db, r: Db, rows: seq<Row>) {
    forall k :: x.Head() <= k && !RowKey(x, rows, k) ==> SameCell(db, r, k)
  }

  /** Outside the new id only the bodies of `stamped` moved, to their derived expiry. */
  ghost predicate Outside(x: NewIndex, db: Db, r: Db, stamped: seq<Row>) {
    && (forall row :: row in stamped && x.Stamped(row) ==> x.space.BodyKey(row.id) in r && r[x.space.BodyKey(row.id)] == x.BodyCell(row))
    && (forall k :: !(x.Head() <= k) && !StampKey(x, stamped, k) ==> SameCell(db, r, k))
  }

  lemma FrontRows(rows: seq<Row>)
    requires RowsDistinct(rows) && rows != []
    ensures RowsDistinct(rows[..|rows| - 1])
    ensures forall row :: row in rows <==> row in rows[..|rows| - 1] || row == rows[|rows| - 1]
    ensures forall row :: row in rows[..|rows| - 1] ==> row.id != rows[|rows| - 1].id
  {
    assert rows == rows[..|rows| - 1] + [rows[|rows| - 1]];
  }

  lemma RowApplies(x: NewIndex, db: Db, rows: seq<Row>)
    requires rows != []
    ensures var last, front := rows[|rows| - 1], Apply(db, x.AllOps(rows[..|rows| - 1]));
            var entered := front[x.Key(last) := x.EntryCell(last)];
            Apply(db, x.AllOps(rows)) == if x.StampsInline(last) then entered[x.space.BodyKey(last.id) := x.BodyCell(last)] else entered
  {
    hide NewIndex.Key, NewIndex.EntryCell, NewIndex.BodyCell, NewIndex.StampsInline, Apply;
    var last, front := rows[|rows| - 1], x.AllOps(rows[..|rows| - 1]);
    var put := Put(x.Key(last), x.EntryCell(last));
    ApplyConcat(db, front, x.RowOps(last));
    ApplyOne(Apply(db, front), put);
    if x.StampsInline(last) {
      ApplyConcat(Apply(db, front), [put], [x.StampOf(last)]);
      ApplyOne(Apply(Apply(db, front), [put]), x.StampOf(last));
    } else {
      assert x.RowOps(last) == [put];
    }
  }

  lemma StampApplies(x: NewIndex, db: Db, rows: seq<Row>)
    requires rows != []
    ensures var last, front := rows[|rows| - 1], Apply(db, x.StampOps(rows[..|rows| - 1]));
            Apply(db, x.StampOps(rows)) == if x.Stamped(last) then front[x.space.BodyKey(last.id) := x.BodyCell(last)] else front
  {
    hide NewIndex.BodyCell, NewIndex.Stamped, Apply;
    var last, front := rows[|rows| - 1], x.StampOps(rows[..|rows| - 1]);
    if x.Stamped(last) {
      ApplyConcat(db, front, [x.StampOf(last)]);
      ApplyOne(Apply(db, front), x.StampOf(last));
    } else {
      assert front + [] == front;
    }
  }

  /** Stamping one more body, elsewhere than any entry. */
  lemma OutsideStamp(x: NewIndex, db: Db, r: Db, rows: seq<Row>)
    requires x.Valid() && rows != [] && RowsDistinct(rows) && Outside(x, db, r, rows[..|rows| - 1])
    ensures var last := rows[|rows| - 1];
            Outside(x, db, if x.Stamped(last) then r[x.space.BodyKey(last.id) := x.BodyCell(last)] else r, rows)
  {
    hide NewIndex.Head, NewIndex.Key, NewIndex.BodyCell, NewIndex.Stamped, RowsDistinct;
    var last, front := rows[|rows| - 1], rows[..|rows| - 1];
    var next := if x.Stamped(last) then r[x.space.BodyKey(last.id) := x.BodyCell(last)] else r;
    FrontRows(rows);
    forall row | row in rows && x.Stamped(row) ensures x.space.BodyKey(row.id) in next && next[x.space.BodyKey(row.id)] == x.BodyCell(row) {
      if row in front && x.space.BodyKey(row.id) == x.space.BodyKey(last.id) {
        BodyKeysDistinct(x.space, row.id, last.id);
      }
    }
    forall k | !(x.Head() <= k) && !StampKey(x, rows, k) ensures SameCell(db, next, k) {
      assert StampKey(x, front, k) ==> StampKey(x, rows, k);
      assert last in rows;
    }
  }

  lemma OutsideEntry(x: NewIndex, db: Db, r: Db, row: Row, stamped: seq<Row>)
    requires x.Valid() && Outside(x, db, r, stamped)
    ensures Outside(x, db, r[x.Key(row) := x.EntryCell(row)], stamped)
  {
    NewKeys(x, row, row);
    OutsideHead(x, x.Key(row));
  }

  lemma InsideEntry(x: NewIndex, db: Db, r: Db, rows: seq<Row>)
    requires x.Valid() && rows != [] && RowsDistinct(rows)
    requires Entered(x, r, rows[..|rows| - 1]) && Inside(x, db, r, rows[..|rows| - 1])
    ensures var last := rows[|rows| - 1]; var next := r[x.Key(last) := x.EntryCell(last)];
            Entered(x, next, rows) && Inside(x, db, next, rows)
  {
    hide NewIndex.Head, NewIndex.Key, NewIndex.EntryCell, NewIndex.Valid, RowsDistinct;
    var last, front := rows[|rows| - 1], rows[..|rows| - 1];
    var next := r[x.Key(last) := x.EntryCell(last)];
    FrontRows(rows);
    forall row | row in rows ensures x.Key(row) in next && next[x.Key(row)] == x.EntryCell(row) {
      NewKeys(x, row, last);
    }
    forall k | x.Head() <= k && !RowKey(x, rows, k) ensures SameCell(db, next, k) {
      assert last in rows;
      assert RowKey(x, front, k) ==> RowKey(x, rows, k);
    }
  }

  lemma BodyElsewhere(x: NewIndex, db: Db, r: Db, rows: seq<Row>, id: bytes, cell: Cell)
    requires x.Valid() && Entered(x, r, rows) && Inside(x, db, r, rows)
    ensures Entered(x, r[x.space.BodyKey(id) := cell], rows) && Inside(x, db, r[x.space.BodyKey(id) := cell], rows)
  {
    hide NewIndex.Head, NewIndex.Key, NewIndex.EntryCell, NewIndex.Valid, RowKey;
    if x.Head() <= x.space.BodyKey(id) {
      OutsideHead(x, x.space.BodyKey(id));
    }
    forall row | row in rows ensures x.Key(row) != x.space.BodyKey(id) {
      NewKeys(x, row, row);
    }
  }

  /** Bodies stamped while the entries of `rows` are written. */
  function StampedInline(x: NewIndex, rows: seq<Row>): seq<Row> {
    if x.idx.unique then [] else rows
  }

  lemma Nowhere(x: NewIndex, db: Db)
    ensures Entered(x, db, []) && Inside(x, db, db, []) && Outside(x, db, db, [])
  {
  }

  /** Writing the entries. */
  lemma {:induction false} EntriesWritten(x: NewIndex, db: Db, rows: seq<Row>)
    requires x.Valid() && RowsDistinct(rows)
    ensures var r := Apply(db, x.AllOps(rows));
            Entered(x, r, rows) && Inside(x, db, r, rows) && Outside(x, db, r, StampedInline(x, rows))
  {
    if rows == [] {
      NoOps(db);
      Nowhere(x, db);
    } else {
      hide Apply, NewIndex.AllOps, NewIndex.Valid, NewIndex.Key, NewIndex.EntryCell, NewIndex.BodyCell, NewIndex.Stamped, Entered, Inside, Outside, RowsDistinct;
      var last, front := rows[|rows| - 1], rows[..|rows| - 1];
      FrontRows(rows);
      EntriesWritten(x, db, front);
      RowApplies(x, db, rows);
      var was := Apply(db, x.AllOps(front));
      var entered := was[x.Key(last) := x.EntryCell(last)];
      InsideEntry(x, db, was, rows);
      OutsideEntry(x, db, was, last, StampedInline(x, front));
      if !x.idx.unique {
        OutsideStamp(x, db, entered, rows);
        BodyElsewhere(x, db, entered, rows, last.id, x.BodyCell(last));
      }
    }
  }

  /** Stamping the bodies afterwards, as a unique TTL index does. */
  lemma {:induction false} BodiesStamped(x: NewIndex, db: Db, r: Db, rows: seq<Row>, stamped: seq<Row>)
    requires x.Valid() && RowsDistinct(stamped) && Entered(x, r, rows) && Inside(x, db, r, rows) && Outside(x, db, r, [])
    ensures var f := Apply(r, x.StampOps(stamped));
            Entered(x, f, rows) && Inside(x, db, f, rows) && Outside(x, db, f, stamped)
  {
    if stamped == [] {
      NoOps(r);
    } else {
      hide Apply, NewIndex.StampOps, NewIndex.Valid, NewIndex.Key, NewIndex.EntryCell, NewIndex.BodyCell, NewIndex.Stamped, Entered, Inside, Outside, RowsDistinct;
      var last, front := stamped[|stamped| - 1], stamped[..|stamped| - 1];
      FrontRows(stamped);
      BodiesStamped(x, db, r, rows, front);
      StampApplies(x, r, stamped);
      OutsideStamp(x, db, Apply(r, x.StampOps(front)), stamped);
      BodyElsewhere(x, db, Apply(r, x.StampOps(front)), rows, last.id, x.BodyCell(last));
    }
  }

  /** The whole effect of a build: an entry for every document scanned, every stamped body at its
      derived expiry, nothing else moved. */
  lemma BuiltExactly(x: NewIndex, db: Db, rows: seq<Row>)
    requires x.Valid() && RowsDistinct(rows)
    ensures var r := x.Built(db, rows); Entered(x, r, rows) && Inside(x, db, r, rows) && Outside(x, db, r, rows)
  {
    hide Apply, NewIndex.AllOps, NewIndex.StampOps, NewIndex.Valid, Entered, Inside, Outside, RowsDistinct;
    EntriesWritten(x, db, rows);
    if x.idx.unique {
      BodiesStamped(x, db, Apply(db, x.AllOps(rows)), rows, rows);
    }
  }

  // ---- The collection as its catalog knows it -----------------------------------

  /** A stamped body disagrees with the entries of no older index: there is none, or it already
      expired then. */
  ghost predicate Harmless(x: NewIndex, db: Db, stamped: seq<Row>) {
    x.space.coll.indexes == [] || forall row :: row in stamped && x.Stamped(row) ==> StampAgrees(x, db, row)
  }

  predicate StampAgrees(x: NewIndex, db: Db, row: Row) {
    x.space.BodyKey(row.id) in db && db[x.space.BodyKey(row.id)].expiresAt == x.Expiry(row.doc)
  }

  /** Documents keep their bodies; those stamped expire as derived. */
  lemma DocsKept(x: NewIndex, db: Db, r: Db, stamped: seq<Row>, id: bytes)
    requires x.Valid() && Held(x.space, db, stamped) && Outside(x, db, r, stamped)
    ensures x.space.BodyKey(id) in r <==> x.space.BodyKey(id) in db
    ensures HasDoc(x.space, r, id) <==> HasDoc(x.space, db, id)
    ensures HasDoc(x.space, db, id) ==> DocOf(x.space, r, id) == DocOf(x.space, db, id)
    ensures HasDoc(x.space, db, id) ==>
              var row := Row(id, DocOf(x.space, db, id));
              ExpiryOf(x.space, r, id) == if row in stamped && x.Stamped(row) then x.Expiry(row.doc) else ExpiryOf(x.space, db, id)
  {
    hide NewIndex.Head, NewIndex.Stamped, NewIndex.Expiry, NewIndex.Valid;
    var k := x.space.BodyKey(id);
    if x.Head() <= k {
      OutsideHead(x, k);
    }
    if StampKey(x, stamped, k) {
      var row :| row in stamped && x.Stamped(row) && x.space.BodyKey(row.id) == k;
      BodyKeysDistinct(x.space, row.id, id);
    }
  }

  lemma EntryKept(x: NewIndex, db: Db, r: Db, stamped: seq<Row>, i: nat, k: bytes)
    requires x.Valid() && Outside(x, db, r, stamped) && i < |x.space.coll.indexes| && x.space.Head(i) <= k
    ensures SameCell(db, r, k)
  {
    hide NewIndex.Head, NewIndex.Stamped, NewIndex.Valid;
    if x.Head() <= k {
      OutsideHead(x, k);
    }
    if StampKey(x, stamped, k) {
      var row :| row in stamped && x.Stamped(row) && x.space.BodyKey(row.id) == k;
      BodyUnderBodies(x.space, row.id);
      BodyNotEntry(x.space, i, k);
    }
  }

  lemma BodyKept(x: NewIndex, db: Db, r: Db, stamped: seq<Row>, k: bytes)
    requires x.Valid() && Held(x.space, db, stamped) && Outside(x, db, r, stamped) && BodiesTyped(x.space, db) && x.space.Bodies() <= k
    ensures k in r <==> k in db
    ensures k in r ==> r[k].stored.Body?
  {
    hide NewIndex.Head, NewIndex.Stamped, NewIndex.Valid;
    if x.Head() <= k {
      OutsideHead(x, k);
    }
    if StampKey(x, stamped, k) {
      var row :| row in stamped && x.Stamped(row) && x.space.BodyKey(row.id) == k;
    }
  }

  /** The older indexes stay exact if and only if every stamp is harmless to them. */
  lemma OlderExact(x: NewIndex, db: Db, r: Db, stamped: seq<Row>)
    requires x.Valid() && Exact(x.space, db) && Held(x.space, db, stamped) && Outside(x, db, r, stamped)
    ensures Exact(x.space, r) <==> Harmless(x, db, stamped)
  {
    hide NewIndex.Valid, Outside, Held, DerivedCell, Harmless;
    var s := x.space;
    forall k | k in r && s.Bodies() <= k ensures r[k].stored.Body? {
      BodyKept(x, db, r, stamped, k);
    }
    forall i, id | 0 <= i < |s.coll.indexes| && HasDoc(s, r, id) ensures s.Entry(i, DocOf(s, r, id), id) in r {
      DocsKept(x, db, r, stamped, id);
      EntryUnderHead(s, i, DocOf(s, db, id), id);
      EntryKept(x, db, r, stamped, i, s.Entry(i, DocOf(s, db, id), id));
    }
    if Harmless(x, db, stamped) {
      forall i, k | 0 <= i < |s.coll.indexes| && k in r && s.Head(i) <= k ensures DerivedCell(s, r, i, k) {
        OlderSound(x, db, r, stamped, i, k);
      }
    } else {
      StampHarms(x, db, r, stamped);
    }
  }

  lemma OlderSound(x: NewIndex, db: Db, r: Db, stamped: seq<Row>, i: nat, k: bytes)
    requires x.Valid() && Sound(x.space, db) && Held(x.space, db, stamped) && Outside(x, db, r, stamped) && Harmless(x, db, stamped)
    requires i < |x.space.coll.indexes| && k in r && x.space.Head(i) <= k
    ensures DerivedCell(x.space, r, i, k)
  {
    hide NewIndex.Valid, Outside, Held, NewIndex.Stamped, NewIndex.Expiry;
    EntryKept(x, db, r, stamped, i, k);
    assert DerivedCell(x.space, db, i, k);
    DocsKept(x, db, r, stamped, db[k].stored.id);
  }

  lemma StampHarms(x: NewIndex, db: Db, r: Db, stamped: seq<Row>)
    requires x.Valid() && Exact(x.space, db) && Held(x.space, db, stamped) && Outside(x, db, r, stamped) && !Harmless(x, db, stamped)
    ensures !Sound(x.space, r)
  {
    hide Outside, Exact, NewIndex.Stamped, NewIndex.Expiry;
    var s := x.space;
    var row :| row in stamped && x.Stamped(row) && !StampAgrees(x, db, row);
    var k := s.Entry(0, row.doc, row.id);
    EntryUnderHead(s, 0, row.doc, row.id);
    OwnCell(s, db, row.id, 0);
    EntryKept(x, db, r, stamped, 0, k);
    DocsKept(x, db, r, stamped, row.id);
    assert !DerivedCell(s, r, 0, k);
  }

  lemma OlderCounted(x: NewIndex, db: Db, r: Db, stamped: seq<Row>, c: Counters)
    requires x.Valid() && BodiesTyped(x.space, db) && Held(x.space, db, stamped) && Outside(x, db, r, stamped) && Counted(x.space, db, c)
    ensures Counted(x.space, r, c)
  {
    hide NewIndex.Valid, Outside, Held;
    var s := x.space;
    forall k | s.Bodies() <= k ensures k in r <==> k in db {
      BodyKept(x, db, r, stamped, k);
    }
    assert DocKeys(s, r) == DocKeys(s, db);
    forall i | 0 <= i < |s.coll.indexes| ensures IndexKeys(s, r, i) == IndexKeys(s, db, i) {
      forall k | s.Head(i) <= k ensures k in r <==> k in db {
        EntryKept(x, db, r, stamped, i, k);
      }
    }
  }

  /** Stamping brings no document back to life. */
  lemma StillLive(x: NewIndex, db: Db, r: Db, stamped: seq<Row>, now: nat, id: bytes)
    requires x.Valid() && Outside(x, db, r, stamped) && (forall row :: row in stamped ==> LiveDoc(x.space, db, now, row.id) && DocOf(x.space, db, row.id) == row.doc)
    requires LiveDoc(x.space, r, now, id)
    ensures LiveDoc(x.space, db, now, id) && DocOf(x.space, r, id) == DocOf(x.space, db, id)
    ensures Row(id, DocOf(x.space, db, id)) in stamped ==> x.Shows(Row(id, DocOf(x.space, db, id)), now)
  {
    hide NewIndex.Valid, Outside;
    assert Held(x.space, db, stamped);
    DocsKept(x, db, r, stamped, id);
  }

  lemma OlderUnique(x: NewIndex, db: Db, r: Db, stamped: seq<Row>, now: nat)
    requires x.Valid() && Unique(x.space, db, now) && Outside(x, db, r, stamped)
    requires forall row :: row in stamped ==> LiveDoc(x.space, db, now, row.id) && DocOf(x.space, db, row.id) == row.doc
    ensures Unique(x.space, r, now)
  {
    hide NewIndex.Valid, Outside, Encoded;
    var s := x.space;
    forall i, a, b | 0 <= i < |s.coll.indexes| && s.coll.indexes[i].unique && a != b && LiveDoc(s, r, now, a) && LiveDoc(s, r, now, b)
      ensures Encoded(s, i, DocOf(s, r, a)) != Encoded(s, i, DocOf(s, r, b))
    {
      StillLive(x, db, r, stamped, now, a);
      StillLive(x, db, r, stamped, now, b);
      UniqueApart(s, db, now, i, a, b);
    }
  }

  /** While an index is built, the collection its catalog knows is consistent if and only if the
      stamps applied so far are harmless. */
  lemma PartlyBuilt(x: NewIndex, db: Db, c: Counters, rows: seq<Row>, now: nat, r: Db, n: nat)
    requires x.Valid() && Consistent(Durable(x.space, db, c), now) && Scanned(x.space, db, now, rows)
    requires n <= |rows| && Outside(x, db, r, rows[..n])
    ensures Consistent(Durable(x.space, r, c), now) <==> Harmless(x, db, rows[..n])
  {
    hide NewIndex.Valid, Outside, Exact, Unique, Counted, Harmless, Scanned;
    ScannedHeld(x.space, db, now, rows);
    FrontLive(x.space, db, now, rows, n);
    ReallyTyped(x.space, db);
    OlderExact(x, db, r, rows[..n]);
    OlderCounted(x, db, r, rows[..n], c);
    OlderUnique(x, db, r, rows[..n], now);
  }

  lemma FrontLive(s: Space, db: Db, now: nat, rows: seq<Row>, n: nat)
    requires Scanned(s, db, now, rows) && n <= |rows|
    ensures Held(s, db, rows[..n])
    ensures forall row :: row in rows[..n] ==> LiveDoc(s, db, now, row.id) && DocOf(s, db, row.id) == row.doc
  {
    assert forall row :: row in rows[..n] ==> row in rows;
  }

  lemma ReallyTyped(s: Space, db: Db)
    requires Exact(s, db)
    ensures BodiesTyped(s, db)
  {
  }

  // ---- The collection with its new index -----------------------------------------

  ghost predicate SoundNew(x: NewIndex, r: Db) {
    forall k :: k in r && x.Head() <= k ==> DerivedCell(x.After(), r, |x.space.coll.indexes|, k)
  }

  ghost predicate CompleteNew(x: NewIndex, r: Db) {
    forall id :: HasDoc(x.space, r, id) ==> x.Key(Row(id, DocOf(x.space, r, id))) in r
  }

  lemma SameDocs(x: NewIndex, r: Db, id: bytes)
    ensures x.After().BodyKey(id) == x.space.BodyKey(id) && x.After().Bodies() == x.space.Bodies()
    ensures HasDoc(x.After(), r, id) <==> HasDoc(x.space, r, id)
    ensures HasDoc(x.space, r, id) ==> DocOf(x.After(), r, id) == DocOf(x.space, r, id) && ExpiryOf(x.After(), r, id) == ExpiryOf(x.space, r, id)
  {
  }

  lemma OldIndexes(x: NewIndex, i: nat, doc: Value, id: bytes)
    requires i < |x.space.coll.indexes|
    ensures x.After().Head(i) == x.space.Head(i) && x.After().Entry(i, doc, id) == x.space.Entry(i, doc, id)
  {
  }

  lemma NewestIndex(x: NewIndex, doc: Value, id: bytes)
    ensures var s, n := x.After(), |x.space.coll.indexes|;
            |s.coll.indexes| == n + 1 && s.Head(n) == x.Head() && s.Entry(n, doc, id) == x.Key(Row(id, doc))
  {
  }

  lemma OldCells(x: NewIndex, r: Db, i: nat, k: bytes)
    requires i < |x.space.coll.indexes| && k in r
    ensures DerivedCell(x.After(), r, i, k) <==> DerivedCell(x.space, r, i, k)
  {
    if r[k].stored.Ref? {
      var id := r[k].stored.id;
      SameDocs(x, r, id);
      if HasDoc(x.space, r, id) {
        OldIndexes(x, i, DocOf(x.space, r, id), id);
      }
    }
  }

  lemma SoundSplits(x: NewIndex, r: Db)
    ensures Sound(x.After(), r) <==> Sound(x.space, r) && SoundNew(x, r)
  {
    hide DerivedCell;
    var s, n := x.After(), |x.space.coll.indexes|;
    NewestIndex(x, Null, []);
    forall i, k | 0 <= i < n && k in r
      ensures s.Head(i) == x.space.Head(i) && (DerivedCell(s, r, i, k) <==> DerivedCell(x.space, r, i, k))
    {
      OldIndexes(x, i, Null, []);
      OldCells(x, r, i, k);
    }
  }

  lemma CompleteSplits(x: NewIndex, r: Db)
    ensures Complete(x.After(), r) <==> Complete(x.space, r) && CompleteNew(x, r)
  {
    var s, n := x.After(), |x.space.coll.indexes|;
    forall id ensures (HasDoc(s, r, id) <==> HasDoc(x.space, r, id)) && (HasDoc(x.space, r, id) ==> DocOf(s, r, id) == DocOf(x.space, r, id)) {
      SameDocs(x, r, id);
    }
    forall i, id | 0 <= i < n && HasDoc(x.space, r, id) ensures s.Entry(i, DocOf(s, r, id), id) == x.space.Entry(i, DocOf(x.space, r, id), id) {
      OldIndexes(x, i, DocOf(x.space, r, id), id);
    }
    forall id | HasDoc(x.space, r, id) ensures s.Entry(n, DocOf(s, r, id), id) == x.Key(Row(id, DocOf(x.space, r, id))) {
      NewestIndex(x, DocOf(x.space, r, id), id);
    }
  }

  /** Exactness with the new index is exactness of the older ones and of the new. */
  lemma ExactSplits(x: NewIndex, r: Db)
    ensures Exact(x.After(), r) <==> Exact(x.space, r) && SoundNew(x, r) && CompleteNew(x, r)
  {
    hide Sound, Complete, SoundNew, CompleteNew;
    SoundSplits(x, r);
    CompleteSplits(x, r);
    SameDocs(x, r, []);
  }

  /** A document the index never makes expire never expires by itself either. */
  ghost predicate Aligned(x: NewIndex, db: Db, rows: seq<Row>) {
    forall row :: row in rows && !x.Stamped(row) ==> StampAgrees(x, db, row)
  }

  /** What lay under the new id besides the scanned documents' keys is the right entry of each stored
      document the scan passed over, and nothing else. */
  ghost predicate Accounted(x: NewIndex, db: Db, rows: seq<Row>) {
    && (forall k :: k in db && x.Head() <= k && !RowKey(x, rows, k) ==> DerivedCell(x.After(), db, |x.space.coll.indexes|, k))
    && (forall id :: HasDoc(x.space, db, id) && Row(id, DocOf(x.space, db, id)) !in rows ==> x.Key(Row(id, DocOf(x.space, db, id))) in db)
  }

  /** A scanned document's new entry is right exactly when both expire together. */
  lemma RowSound(x: NewIndex, db: Db, r: Db, rows: seq<Row>, row: Row)
    requires x.Valid() && Held(x.space, db, rows) && Entered(x, r, rows) && Outside(x, db, r, rows) && row in rows
    ensures x.Key(row) in r
    ensures DerivedCell(x.After(), r, |x.space.coll.indexes|, x.Key(row)) <==> x.Stamped(row) || StampAgrees(x, db, row)
  {
    hide Outside, NewIndex.Key;
    DocsKept(x, db, r, rows, row.id);
    SameDocs(x, r, row.id);
    NewestIndex(x, row.doc, row.id);
  }

  /** Any other key under the new id is right afterwards exactly when it was before. */
  lemma OtherSound(x: NewIndex, db: Db, r: Db, rows: seq<Row>, k: bytes)
    requires x.Valid() && Held(x.space, db, rows) && Inside(x, db, r, rows) && Outside(x, db, r, rows)
    requires x.Head() <= k && !RowKey(x, rows, k) && k in db
    ensures k in r && (DerivedCell(x.After(), r, |x.space.coll.indexes|, k) <==> DerivedCell(x.After(), db, |x.space.coll.indexes|, k))
  {
    hide Outside, NewIndex.Key, NewIndex.Head, NewIndex.Stamped, NewIndex.Valid;
    assert SameCell(db, r, k);
    if db[k].stored.Ref? {
      var id := db[k].stored.id;
      DocsKept(x, db, r, rows, id);
      SameDocs(x, r, id);
      SameDocs(x, db, id);
      if HasDoc(x.space, db, id) {
        NewestIndex(x, DocOf(x.space, db, id), id);
      }
    }
  }

  lemma NewExact(x: NewIndex, db: Db, r: Db, rows: seq<Row>)
    requires x.Valid() && Held(x.space, db, rows) && Entered(x, r, rows) && Inside(x, db, r, rows) && Outside(x, db, r, rows)
    ensures SoundNew(x, r) && CompleteNew(x, r) <==> Aligned(x, db, rows) && Accounted(x, db, rows)
  {
    hide DerivedCell, NewIndex.Key, NewIndex.Head, NewIndex.Stamped, NewIndex.Valid, Outside, Held, Inside, Entered, StampAgrees, RowKey;
    CompleteNewExact(x, db, r, rows);
    forall row | row in rows ensures x.Head() <= x.Key(row) && x.Key(row) in r
      ensures DerivedCell(x.After(), r, |x.space.coll.indexes|, x.Key(row)) <==> x.Stamped(row) || StampAgrees(x, db, row)
    {
      NewKeys(x, row, row);
      RowSound(x, db, r, rows, row);
    }
    forall k | x.Head() <= k && !RowKey(x, rows, k) && k in db
      ensures k in r && (DerivedCell(x.After(), r, |x.space.coll.indexes|, k) <==> DerivedCell(x.After(), db, |x.space.coll.indexes|, k))
    {
      OtherSound(x, db, r, rows, k);
    }
    if Aligned(x, db, rows) && Accounted(x, db, rows) {
      forall k | k in r && x.Head() <= k ensures DerivedCell(x.After(), r, |x.space.coll.indexes|, k) {
        KeyOrigin(x, db, r, rows, k);
        if RowKey(x, rows, k) {
          var row := KeyedRow(x, rows, k);
        }
      }
    }
  }

  lemma KeyOrigin(x: NewIndex, db: Db, r: Db, rows: seq<Row>, k: bytes)
    requires Inside(x, db, r, rows) && k in r && x.Head() <= k
    ensures RowKey(x, rows, k) || k in db
  {
  }

  lemma KeyedRow(x: NewIndex, rows: seq<Row>, k: bytes) returns (row: Row)
    requires RowKey(x, rows, k)
    ensures row in rows && x.Key(row) == k
  {
    row :| row in rows && x.Key(row) == k;
  }

  lemma CompleteNewExact(x: NewIndex, db: Db, r: Db, rows: seq<Row>)
    requires x.Valid() && Held(x.space, db, rows) && Entered(x, r, rows) && Inside(x, db, r, rows) && Outside(x, db, r, rows)
    ensures CompleteNew(x, r) <==>
            forall id :: HasDoc(x.space, db, id) && Row(id, DocOf(x.space, db, id)) !in rows ==> x.Key(Row(id, DocOf(x.space, db, id))) in db
  {
    hide NewIndex.Key, NewIndex.Head, NewIndex.Stamped, NewIndex.Valid, Outside, Held, RowKey;
    forall id ensures (HasDoc(x.space, r, id) <==> HasDoc(x.space, db, id)) && (HasDoc(x.space, db, id) ==> DocOf(x.space, r, id) == DocOf(x.space, db, id)) {
      DocsKept(x, db, r, rows, id);
    }
    forall id | HasDoc(x.space, db, id) ensures var row := Row(id, DocOf(x.space, db, id));
      x.Key(row) in r <==> row in rows || x.Key(row) in db
    {
      PassedOver(x, db, r, rows, id);
    }
  }

  /** The entry of a document the scan passed over is as it was. */
  lemma PassedOver(x: NewIndex, db: Db, r: Db, rows: seq<Row>, id: bytes)
    requires x.Valid() && Held(x.space, db, rows) && Entered(x, r, rows) && Inside(x, db, r, rows) && HasDoc(x.space, db, id)
    ensures var row := Row(id, DocOf(x.space, db, id)); x.Key(row) in r <==> row in rows || x.Key(row) in db
  {
    hide NewIndex.Key, NewIndex.Head, NewIndex.Valid;
    var row := Row(id, DocOf(x.space, db, id));
    NewKeys(x, row, row);
    if row !in rows && RowKey(x, rows, x.Key(row)) {
      var other := KeyedRow(x, rows, x.Key(row));
      NewKeys(x, row, other);
    }
  }

  /** After an index is defined, whatever its kind, every index is exact if and only if the stamps
      are harmless to the older ones, no document it leaves alone expires by itself, and what else
      lay under the new id is the right entry of every document the scan passed over. */
  lemma BackfillExact(x: NewIndex, db: Db, now: nat, rows: seq<Row>)
    requires x.Valid() && Exact(x.space, db) && Scanned(x.space, db, now, rows)
    ensures Exact(x.After(), x.Built(db, rows)) <==> Harmless(x, db, rows) && Aligned(x, db, rows) && Accounted(x, db, rows)
  {
    hide NewIndex.Valid, NewIndex.Built, Exact, Harmless, Aligned, Accounted, Entered, Inside, Outside, Held, SoundNew, CompleteNew;
    var r := x.Built(db, rows);
    ScannedHeld(x.space, db, now, rows);
    BuiltExactly(x, db, rows);
    ExactSplits(x, r);
    OlderExact(x, db, r, rows);
    NewExact(x, db, r, rows);
  }

  // ---- Fresh ids -----------------------------------------------------------------

  /** A key already under the new index's id that is no scanned document's. */
  ghost predicate Leftover(x: NewIndex, db: Db, rows: seq<Row>) {
    exists k :: k in db && x.Head() <= k && !RowKey(x, rows, k)
  }

  /** No stored document has expired unswept. */
  ghost predicate AllLive(s: Space, db: Db, now: nat) {
    forall id :: HasDoc(s, db, id) ==> LiveDoc(s, db, now, id)
  }

  /** With nothing left over, what the scan passes over is just the expired documents. */
  lemma FreshAccounted(x: NewIndex, db: Db, now: nat, rows: seq<Row>)
    requires x.Valid() && Scanned(x.space, db, now, rows) && !Leftover(x, db, rows)
    ensures Accounted(x, db, rows) <==> AllLive(x.space, db, now)
  {
    hide NewIndex.Key, NewIndex.Head, NewIndex.Valid, DerivedCell;
    if Accounted(x, db, rows) {
      forall id | HasDoc(x.space, db, id) ensures LiveDoc(x.space, db, now, id) {
        var row := Row(id, DocOf(x.space, db, id));
        NewKeys(x, row, row);
        if row !in rows {
          if RowKey(x, rows, x.Key(row)) {
            var other := KeyedRow(x, rows, x.Key(row));
            NewKeys(x, row, other);
          }
        }
      }
    }
  }

  // ---- Counting the new index ----------------------------------------------------

  function RowKeys(x: NewIndex, rows: seq<Row>): set<bytes> {
    set row | row in rows :: x.Key(row)
  }

  lemma {:induction false} RowKeysCount(x: NewIndex, rows: seq<Row>)
    requires x.Valid() && RowsDistinct(rows)
    ensures |RowKeys(x, rows)| == |rows|
  {
    hide NewIndex.Key, NewIndex.Valid;
    if rows == [] {
      assert RowKeys(x, rows) == {};
    } else {
      var last, front := rows[|rows| - 1], rows[..|rows| - 1];
      FrontRows(rows);
      RowKeysCount(x, front);
      assert RowKeys(x, rows) == RowKeys(x, front) + {x.Key(last)};
      if x.Key(last) in RowKeys(x, front) {
        var row :| row in front && x.Key(row) == x.Key(last);
        NewKeys(x, row, last);
      }
    }
  }

  lemma SubsetCount(a: set<bytes>, b: set<bytes>)
    requires a <= b
    ensures |a| == |b| <==> a == b
  {
    assert b == a + (b - a);
  }

  /** The number of documents scanned is the number of entries exactly when nothing was left over. */
  lemma NewCount(x: NewIndex, db: Db, r: Db, rows: seq<Row>)
    requires x.Valid() && RowsDistinct(rows) && Entered(x, r, rows) && Inside(x, db, r, rows)
    ensures |IndexKeys(x.After(), r, |x.space.coll.indexes|)| == |rows| <==> !Leftover(x, db, rows)
  {
    hide NewIndex.Key, NewIndex.Head, NewIndex.Valid;
    var all, own := IndexKeys(x.After(), r, |x.space.coll.indexes|), RowKeys(x, rows);
    NewestIndex(x, Null, []);
    RowKeysCount(x, rows);
    forall row | row in rows ensures x.Key(row) in all {
      NewKeys(x, row, row);
    }
    SubsetCount(own, all);
    forall k ensures k in own <==> RowKey(x, rows, k) {
    }
    assert forall k :: k in all && k !in own ==> k in db && x.Head() <= k && !RowKey(x, rows, k);
    assert forall k :: k in db && x.Head() <= k && !RowKey(x, rows, k) ==> k in all && k !in own;
  }

  lemma CountedSplits(x: NewIndex, r: Db, c: Counters, rows: seq<Row>)
    requires |c.entries| == |x.space.coll.indexes|
    ensures Counted(x.After(), r, x.Recount(c, rows)) <==>
            Counted(x.space, r, c) && |IndexKeys(x.After(), r, |x.space.coll.indexes|)| == |rows|
  {
    var s, n := x.After(), |x.space.coll.indexes|;
    SameDocs(x, r, []);
    assert DocKeys(s, r) == DocKeys(x.space, r);
    forall i | 0 <= i < n ensures IndexKeys(s, r, i) == IndexKeys(x.space, r, i) {
      OldIndexes(x, i, Null, []);
    }
    var next := x.Recount(c, rows);
    assert next.entries[n] == |rows| && forall i :: 0 <= i < n ==> next.entries[i] == c.entries[i];
  }

  // ---- Uniqueness of the new index -----------------------------------------------

  function EncodingOf(x: NewIndex, row: Row): bytes {
    EncodeFields(FieldValues(row.doc, x.idx.fields), x.idx.Ascending())
  }

  /** Two documents with unexpired entries share the indexed value. */
  ghost predicate SharedValue(x: NewIndex, rows: seq<Row>, now: nat) {
    exists a, b :: a in rows && b in rows && x.Shows(a, now) && x.Shows(b, now) && a.id != b.id && EncodingOf(x, a) == EncodingOf(x, b)
  }

  lemma NewUnique(x: NewIndex, db: Db, r: Db, rows: seq<Row>, now: nat)
    requires x.Valid() && Scanned(x.space, db, now, rows) && Outside(x, db, r, rows) && Unique(x.space, db, now)
    requires x.idx.unique ==> !SharedValue(x, rows, now)
    ensures Unique(x.After(), r, now)
  {
    hide NewIndex.Valid, Outside, Encoded, EncodingOf, NewIndex.Shows;
    var s, n := x.After(), |x.space.coll.indexes|;
    OlderUnique(x, db, r, rows, now);
    forall i, a, b | 0 <= i < |s.coll.indexes| && s.coll.indexes[i].unique && a != b && LiveDoc(s, r, now, a) && LiveDoc(s, r, now, b)
      ensures Encoded(s, i, DocOf(s, r, a)) != Encoded(s, i, DocOf(s, r, b))
    {
      SameDocs(x, r, a);
      SameDocs(x, r, b);
      EncodedAs(x, i, DocOf(s, r, a));
      EncodedAs(x, i, DocOf(s, r, b));
      if i < n {
        UniqueApart(x.space, r, now, i, a, b);
      } else {
        StillLive(x, db, r, rows, now, a);
        StillLive(x, db, r, rows, now, b);
        var p, q := Row(a, DocOf(x.space, db, a)), Row(b, DocOf(x.space, db, b));
        assert p in rows && q in rows;
      }
    }
  }

  lemma EncodedAs(x: NewIndex, i: nat, doc: Value)
    requires i <= |x.space.coll.indexes|
    ensures Encoded(x.After(), i, doc) == if i < |x.space.coll.indexes| then Encoded(x.space, i, doc) else EncodingOf(x, Row([], doc))
    ensures forall id :: EncodingOf(x, Row(id, doc)) == EncodingOf(x, Row([], doc))
    ensures x.After().coll.indexes[i] == if i < |x.space.coll.indexes| then x.space.coll.indexes[i] else x.idx
  {
    hide EncodeFields;
  }

  // ---- Consistency of a finished definition ---------------------------------------

  /** What a store must be for a definition to leave it consistent. */
  ghost predicate Ready(x: NewIndex, db: Db, now: nat, rows: seq<Row>) {
    !Leftover(x, db, rows) && AllLive(x.space, db, now) && Harmless(x, db, rows) && Aligned(x, db, rows)
  }

  /** A finished definition leaves the collection consistent with its new index and count if and only
      if nothing was left over under its id, no document had expired unswept, the stamps are harmless
      and no document it leaves alone expires by itself. */
  lemma DefinitionConsistent(x: NewIndex, db: Db, c: Counters, now: nat, rows: seq<Row>)
    requires x.Valid() && Consistent(Durable(x.space, db, c), now) && Scanned(x.space, db, now, rows)
    requires x.idx.unique && !Leftover(x, db, rows) ==> !SharedValue(x, rows, now)
    ensures Consistent(Durable(x.After(), x.Built(db, rows), x.Recount(c, rows)), now) <==> Ready(x, db, now, rows)
  {
    hide NewIndex.Valid, NewIndex.Built, Exact, Unique, Harmless, Aligned, Accounted, Leftover, AllLive, Entered, Inside, Outside, Held, SharedValue, IndexKeys, DocKeys;
    var r := x.Built(db, rows);
    ScannedHeld(x.space, db, now, rows);
    BuiltExactly(x, db, rows);
    BackfillExact(x, db, now, rows);
    CountedSplits(x, r, c, rows);
    ReallyTyped(x.space, db);
    OlderCounted(x, db, r, rows, c);
    NewCount(x, db, r, rows);
    AfterValid(x);
    if !Leftover(x, db, rows) {
      FreshAccounted(x, db, now, rows);
      NewUnique(x, db, r, rows, now);
    }
  }

  lemma AfterValid(x: NewIndex)
    requires x.Valid()
    ensures x.After().Valid()
  {
  }
}
