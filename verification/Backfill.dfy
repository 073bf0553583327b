/** Defining an index over existing documents: chunked backfill, the unique check on the written
    range, undoing it, and the catalog last. */
module Backfill {
  import opened Bytes
  import opened Encoding
  import opened Keys
  import opened Planner
  import opened Query
  import opened StoreState
  import opened StoreSteps
  import opened Store
  import opened IndexBuild

  // ---- Chunked writing ---------------------------------------------------------

  /** Operations pending when row `n` is reached: a chunk goes out once it holds a full batch. */
  function Fill(x: NewIndex, rows: seq<Row>, n: nat): (p: nat)
    requires n <= |rows|
    ensures p < MAX_BATCH_KEYS
  {
    if n == 0 then 0
    else
      var p := Fill(x, rows, n - 1) + |x.RowOps(rows[n - 1])|;
      if p >= MAX_BATCH_KEYS then 0 else p
  }

  /** No chunk grows past a batch: never does a stamped row meet a chunk one short of full. */
  predicate Fits(x: NewIndex, rows: seq<Row>) {
    forall n :: 0 <= n < |rows| ==> !(x.StampsInline(rows[n]) && Fill(x, rows, n) == MAX_BATCH_KEYS - 1)
  }

  lemma FillStep(x: NewIndex, rows: seq<Row>, n: nat)
    requires n < |rows|
    ensures var p := Fill(x, rows, n) + |x.RowOps(rows[n])|;
            && Fill(x, rows, n + 1) == (if p >= MAX_BATCH_KEYS then 0 else p)
            && (p > MAX_BATCH_KEYS <==> x.StampsInline(rows[n]) && Fill(x, rows, n) == MAX_BATCH_KEYS - 1)
  {
  }

  lemma AllOpsStep(x: NewIndex, rows: seq<Row>, n: nat)
    requires n < |rows|
    ensures x.AllOps(rows[..n + 1]) == x.AllOps(rows[..n]) + x.RowOps(rows[n])
  {
    assert rows[..n + 1][..n] == rows[..n];
  }

  lemma NothingPending(x: NewIndex, rows: seq<Row>)
    ensures Fill(x, rows, 0) == 0 && rows[..0] == [] && x.AllOps([]) == []
  {
  }

  /** The key space after the entries of the first documents. */
  ghost predicate EntriesAt(d: Durable, x: NewIndex, s: Space, db: Db, c: Counters, rows: seq<Row>) {
    exists n :: 0 <= n <= |rows| && d == Durable(s, Apply(db, x.AllOps(rows[..n])), c)
  }

  /** Write the entries of every scanned document. It completes exactly when no chunk overflows, and
      a chunk never splits a document. */
  method WriteEntries(store: DocumentStore, x: NewIndex, rows: seq<Row>) returns (ok: bool)
    modifies store`db, store`durable
    ensures ok <==> Fits(x, rows)
    ensures ok ==> store.db == Apply(old(store.db), x.AllOps(rows))
    ensures EntriesAt(Durable(store.space, store.db, store.persisted), x, store.space, old(store.db), store.persisted, rows)
    ensures old(store.durable) <= store.durable
    ensures forall i :: |old(store.durable)| <= i < |store.durable| ==>
              EntriesAt(store.durable[i], x, store.space, old(store.db), store.persisted, rows)
  {
    hide Apply, Fill, NewIndex.RowOps, NewIndex.AllOps, NewIndex.StampsInline;
    ghost var before := store.db;
    var pending: seq<Op> := [];
    ghost var sent := 0;
    NoOps(before);
    NothingPending(x, rows);
    for n := 0 to |rows|
      invariant 0 <= sent <= n && |pending| == Fill(x, rows, n)
      invariant store.db == Apply(before, x.AllOps(rows[..sent])) && x.AllOps(rows[..sent]) + pending == x.AllOps(rows[..n])
      invariant forall j :: 0 <= j < n ==> !(x.StampsInline(rows[j]) && Fill(x, rows, j) == MAX_BATCH_KEYS - 1)
      invariant old(store.durable) <= store.durable
      invariant forall i :: |old(store.durable)| <= i < |store.durable| ==> EntriesAt(store.durable[i], x, store.space, before, store.persisted, rows)
    {
      FillStep(x, rows, n);
      AllOpsStep(x, rows, n);
      Associative(x.AllOps(rows[..sent]), pending, x.RowOps(rows[n]));
      pending := pending + x.RowOps(rows[n]);
      if |pending| >= MAX_BATCH_KEYS {
        ApplyConcat(before, x.AllOps(rows[..sent]), pending);
        var wrote := store.WriteBatch(pending);
        if !wrote {
          return false;
        }
        sent := n + 1;
        pending := [];
        assert x.AllOps(rows[..sent]) + pending == x.AllOps(rows[..sent]);
      }
    }
    assert rows[..|rows|] == rows;
    ApplyConcat(before, x.AllOps(rows[..sent]), pending);
    if |pending| > 0 {
      var wrote := store.WriteBatch(pending);
    } else {
      assert x.AllOps(rows[..sent]) + pending == x.AllOps(rows[..sent]);
    }
    return true;
  }

  lemma {:induction false} FillPlain(x: NewIndex, rows: seq<Row>, n: nat)
    requires n <= |rows| && n < MAX_BATCH_KEYS && forall j :: 0 <= j < n ==> !x.StampsInline(rows[j])
    ensures Fill(x, rows, n) == n
  {
    if n > 0 {
      FillPlain(x, rows, n - 1);
    }
  }

  lemma {:induction false} FillEven(x: NewIndex, rows: seq<Row>, n: nat)
    requires n <= |rows| && forall j :: 0 <= j < |rows| ==> x.StampsInline(rows[j])
    ensures Fill(x, rows, n) % 2 == 0
  {
    hide Fill, NewIndex.RowOps, NewIndex.StampsInline;
    if n == 0 {
      NothingPending(x, rows);
    } else {
      FillEven(x, rows, n - 1);
      FillStep(x, rows, n - 1);
      assert x.StampsInline(rows[n - 1]) && |x.RowOps(rows[n - 1])| == 2;
    }
  }

  /** Stamping nobody or everybody never overflows a chunk. */
  lemma UniformFits(x: NewIndex, rows: seq<Row>)
    requires (forall j :: 0 <= j < |rows| ==> x.StampsInline(rows[j])) || (forall j :: 0 <= j < |rows| ==> !x.StampsInline(rows[j]))
    ensures Fits(x, rows)
  {
    hide NewIndex.StampsInline, NewIndex.RowOps, Fill;
    forall n | 0 <= n < |rows| ensures !(x.StampsInline(rows[n]) && Fill(x, rows, n) == MAX_BATCH_KEYS - 1) {
      if forall j :: 0 <= j < |rows| ==> x.StampsInline(rows[j]) {
        FillEven(x, rows, n);
      }
    }
  }

  /** A full batch less one of plain rows, then a stamped one, overflows: the backfill fails. */
  lemma StampOverflows(x: NewIndex, rows: seq<Row>)
    requires |rows| >= MAX_BATCH_KEYS && x.StampsInline(rows[MAX_BATCH_KEYS - 1])
    requires forall j :: 0 <= j < MAX_BATCH_KEYS - 1 ==> !x.StampsInline(rows[j])
    ensures !Fits(x, rows)
  {
    FillPlain(x, rows, MAX_BATCH_KEYS - 1);
  }

  // ---- Stamping after the check ------------------------------------------------

  ghost predicate StampsAt(d: Durable, x: NewIndex, s: Space, db: Db, c: Counters, rows: seq<Row>) {
    exists n :: 0 <= n <= |rows| && d == Durable(s, Apply(db, x.StampOps(rows[..n])), c)
  }

  lemma StampOpsStep(x: NewIndex, rows: seq<Row>, n: nat)
    requires n < |rows|
    ensures x.StampOps(rows[..n + 1]) == x.StampOps(rows[..n]) + if x.Stamped(rows[n]) then [x.StampOf(rows[n])] else []
  {
    assert rows[..n + 1][..n] == rows[..n];
  }

  method StampBodies(store: DocumentStore, x: NewIndex, rows: seq<Row>)
    modifies store`db, store`durable
    ensures store.db == Apply(old(store.db), x.StampOps(rows)) && old(store.durable) <= store.durable
    ensures forall i :: |old(store.durable)| <= i < |store.durable| ==>
              StampsAt(store.durable[i], x, store.space, old(store.db), store.persisted, rows)
  {
    hide Apply, NewIndex.StampOps, NewIndex.StampOf, NewIndex.Stamped;
    ghost var before := store.db;
    var pending: seq<Op> := [];
    ghost var sent := 0;
    NoOps(before);
    NoStamps(x, rows);
    for n := 0 to |rows|
      invariant 0 <= sent <= n && |pending| < MAX_BATCH_KEYS
      invariant store.db == Apply(before, x.StampOps(rows[..sent])) && x.StampOps(rows[..sent]) + pending == x.StampOps(rows[..n])
      invariant old(store.durable) <= store.durable
      invariant forall i :: |old(store.durable)| <= i < |store.durable| ==> StampsAt(store.durable[i], x, store.space, before, store.persisted, rows)
    {
      StampOpsStep(x, rows, n);
      if !x.Stamped(rows[n]) {
        assert x.StampOps(rows[..n]) + [] == x.StampOps(rows[..n]);
        continue;
      }
      Associative(x.StampOps(rows[..sent]), pending, [x.StampOf(rows[n])]);
      pending := pending + [x.StampOf(rows[n])];
      if |pending| >= MAX_BATCH_KEYS {
        ApplyConcat(before, x.StampOps(rows[..sent]), pending);
        var wrote := store.WriteBatch(pending);
        sent := n + 1;
        pending := [];
        assert x.StampOps(rows[..sent]) + pending == x.StampOps(rows[..sent]);
      }
    }
    assert rows[..|rows|] == rows;
    ApplyConcat(before, x.StampOps(rows[..sent]), pending);
    if |pending| > 0 {
      var wrote := store.WriteBatch(pending);
    } else {
      assert x.StampOps(rows[..sent]) + pending == x.StampOps(rows[..sent]);
    }
  }

  lemma NoStamps(x: NewIndex, rows: seq<Row>)
    ensures rows[..0] == [] && x.StampOps([]) == []
  {
  }

  lemma {:induction false} PlainStamps(x: NewIndex, rows: seq<Row>)
    requires !x.ttl
    ensures x.StampOps(rows) == []
  {
    if rows != [] {
      PlainStamps(x, rows[..|rows| - 1]);
    }
  }

  // ---- The unique check --------------------------------------------------------

  /** The part of an entry key between the index header and the document id. */
  function EncodingAt(x: NewIndex, key: bytes, id: bytes): bytes {
    var end := if |id| <= |key| then |key| - |id| else 0;
    if |x.Head()| <= end then key[|x.Head()|..end] else []
  }

  lemma EncodingRead(x: NewIndex, row: Row)
    ensures EncodingAt(x, x.Key(row), row.id) == EncodingOf(x, row)
    ensures x.Key(row) == x.Head() + EncodingOf(x, row) + row.id
  {
    hide EncodeFields;
  }

  ghost predicate AllRefs(entries: seq<Entry>) {
    forall i :: 0 <= i < |entries| ==> entries[i].stored.Ref?
  }

  function EncodingIn(x: NewIndex, e: Entry): bytes
    requires e.stored.Ref?
  {
    EncodingAt(x, e.key, e.stored.id)
  }

  /** Two neighbours share an encoding. */
  ghost predicate Neighbours(x: NewIndex, entries: seq<Entry>)
    requires AllRefs(entries)
  {
    exists n :: 0 < n < |entries| && EncodingIn(x, entries[n - 1]) == EncodingIn(x, entries[n])
  }

  /** Any two share an encoding. */
  ghost predicate Sharing(x: NewIndex, entries: seq<Entry>)
    requires AllRefs(entries)
  {
    exists i, j :: 0 <= i < j < |entries| && EncodingIn(x, entries[i]) == EncodingIn(x, entries[j])
  }

  /** An entry this index could have written, for whatever document. */
  ghost predicate Formed(x: NewIndex, e: Entry) {
    exists row: Row :: e == Entry(x.Key(row), Ref(row.id))
  }

  /** Scan the index in key order and compare each encoding with the one before. Over entries of the
      index's own form that finds any two that share one. */
  method UniqueIndexHasDuplicate(x: NewIndex, entries: seq<Entry>) returns (dup: bool)
    requires Query.Ascending(entries) && AllRefs(entries)
    ensures dup <==> Neighbours(x, entries)
    ensures (forall e :: e in entries ==> Formed(x, e)) ==> (dup <==> Sharing(x, entries))
  {
    hide EncodingIn, Query.Ascending, Formed, Sharing;
    var prev: Option<bytes> := None;
    ghost var formed := forall e :: e in entries ==> Formed(x, e);
    if formed {
      NeighboursSuffice(x, entries);
    }
    for n := 0 to |entries|
      invariant prev == if n == 0 then None else Some(EncodingIn(x, entries[n - 1]))
      invariant forall m :: 0 < m < n ==> EncodingIn(x, entries[m - 1]) != EncodingIn(x, entries[m])
    {
      var enc := EncodingIn(x, entries[n]);
      if prev == Some(enc) {
        return true;
      }
      prev := Some(enc);
    }
    return false;
  }

  lemma BetweenExtensions(p: bytes, a: bytes, b: bytes, k: bytes)
    requires Less(p + a, k) && Less(k, p + b)
    ensures p <= k
  {
    PrefixLeq(p, p + a);
    LeqLess(p, p + a, k);
    LessAsymmetric(p, k);
    UnderUpperBound(p, p + b);
    UnderUpperBound(p, k);
    if UpperBound(p) != [] {
      LessTransitive(k, p + b, UpperBound(p));
    }
  }

  lemma SameEncodingUnder(x: NewIndex, a: Row, b: Row)
    requires x.Head() + EncodingOf(x, a) <= x.Key(b)
    ensures EncodingOf(x, a) == EncodingOf(x, b)
  {
    hide EncodeFields;
    var us, vs := FieldValues(b.doc, x.idx.fields), FieldValues(a.doc, x.idx.fields);
    FragmentBounds(x.Head(), us, vs, x.idx.Ascending(), b.id);
    UnderUpperBound(x.Head() + EncodingOf(x, a), x.Key(b));
    PrefixRange(x.Head() + EncodingOf(x, a), x.Key(b));
    assert us[..|vs|] == us;
    FieldsOrder(us, vs, x.idx.Ascending());
    RealisesCompares(CmpFields(us, vs, x.idx.Ascending()), EncodingOf(x, b), EncodingOf(x, a));
  }

  /** Equal encodings are contiguous. */
  lemma Contiguous(x: NewIndex, a: Row, b: Row, c: Row)
    requires EncodingOf(x, a) == EncodingOf(x, c) && Less(x.Key(a), x.Key(b)) && Less(x.Key(b), x.Key(c))
    ensures EncodingOf(x, b) == EncodingOf(x, c)
  {
    hide EncodingOf, NewIndex.Key, NewIndex.Head, Less;
    var p := x.Head() + EncodingOf(x, a);
    EncodingRead(x, a);
    EncodingRead(x, c);
    BetweenExtensions(p, a.id, c.id, x.Key(b));
    SameEncodingUnder(x, a, b);
  }

  /** Over entries of the index's own form, comparing neighbours misses no pair. */
  lemma NeighboursSuffice(x: NewIndex, entries: seq<Entry>)
    requires Query.Ascending(entries) && AllRefs(entries) && forall e :: e in entries ==> Formed(x, e)
    ensures Neighbours(x, entries) <==> Sharing(x, entries)
  {
    hide EncodingAt, EncodingOf, NewIndex.Key, NewIndex.Head, Less;
    if Sharing(x, entries) {
      var i, j :| 0 <= i < j < |entries| && EncodingIn(x, entries[i]) == EncodingIn(x, entries[j]);
      if i < j - 1 {
        assert entries[i] in entries && entries[j - 1] in entries && entries[j] in entries;
        var a: Row :| entries[i] == Entry(x.Key(a), Ref(a.id));
        var b: Row :| entries[j - 1] == Entry(x.Key(b), Ref(b.id));
        var c: Row :| entries[j] == Entry(x.Key(c), Ref(c.id));
        EncodingRead(x, a);
        EncodingRead(x, b);
        EncodingRead(x, c);
        Contiguous(x, a, b, c);
      }
      assert EncodingIn(x, entries[j - 1]) == EncodingIn(x, entries[j]);
    }
  }

  // ---- What the check decides --------------------------------------------------

  /** Only references lie under the new id. */
  ghost predicate RefsOnly(x: NewIndex, db: Db) {
    forall k :: k in db && x.Head() <= k ==> db[k].stored.Ref?
  }

  lemma ScanRefs(x: NewIndex, db: Db, now: nat, entries: seq<Entry>)
    requires RefsOnly(x, db) && IsScan(db, x.Head(), now, entries)
    ensures AllRefs(entries)
  {
    hide Query.Ascending, NewIndex.Head;
    forall i | 0 <= i < |entries| ensures entries[i].stored.Ref? {
      assert entries[i] in entries;
    }
  }

  /** The check on a key space: its live entries in order have equal neighbours. */
  ghost predicate Clash(x: NewIndex, db: Db, now: nat) {
    exists entries :: IsScan(db, x.Head(), now, entries) && AllRefs(entries) && Neighbours(x, entries)
  }

  lemma ClashOf(x: NewIndex, db: Db, now: nat, entries: seq<Entry>)
    requires IsScan(db, x.Head(), now, entries) && AllRefs(entries)
    ensures Clash(x, db, now) <==> Neighbours(x, entries)
  {
    hide Neighbours, AllRefs;
    if Clash(x, db, now) {
      var other :| IsScan(db, x.Head(), now, other) && AllRefs(other) && Neighbours(x, other);
      ScanUnique(db, x.Head(), now, entries, other);
    }
  }

  /** Two live keys under the new id share an encoding. */
  ghost predicate SharedKeys(x: NewIndex, db: Db, now: nat) {
    exists j, k :: j != k && LiveKey(x, db, now, j) && LiveKey(x, db, now, k)
                   && EncodingAt(x, j, db[j].stored.id) == EncodingAt(x, k, db[k].stored.id)
  }

  /** A live reference under the new id. */
  predicate LiveKey(x: NewIndex, db: Db, now: nat, k: bytes) {
    k in db && x.Head() <= k && db[k].Live(now) && db[k].stored.Ref?
  }

  /** Everything under the new id has the index's own form. */
  ghost predicate WellFormed(x: NewIndex, db: Db) {
    forall k :: k in db && x.Head() <= k ==> Formed(x, Entry(k, db[k].stored))
  }

  lemma WellFormedRefs(x: NewIndex, db: Db)
    requires WellFormed(x, db)
    ensures RefsOnly(x, db)
  {
    hide NewIndex.Key, NewIndex.Head;
  }

  lemma ScannedShare(x: NewIndex, db: Db, now: nat, entries: seq<Entry>)
    requires RefsOnly(x, db) && IsScan(db, x.Head(), now, entries) && AllRefs(entries)
    ensures Sharing(x, entries) <==> SharedKeys(x, db, now)
  {
    hide NewIndex.Head, EncodingAt;
    if Sharing(x, entries) {
      var i, j :| 0 <= i < j < |entries| && EncodingIn(x, entries[i]) == EncodingIn(x, entries[j]);
      LessIrreflexive(entries[i].key);
      assert Less(entries[i].key, entries[j].key);
      assert entries[i] in entries && entries[j] in entries;
      assert LiveKey(x, db, now, entries[i].key) && LiveKey(x, db, now, entries[j].key);
    }
    if SharedKeys(x, db, now) {
      hide Less;
      var j, k :| j != k && LiveKey(x, db, now, j) && LiveKey(x, db, now, k)
                  && EncodingAt(x, j, db[j].stored.id) == EncodingAt(x, k, db[k].stored.id);
      var m := PositionOf(db, x.Head(), now, entries, j);
      var n := PositionOf(db, x.Head(), now, entries, k);
      assert m < n || n < m;
    }
  }

  lemma PositionOf(db: Db, head: bytes, now: nat, entries: seq<Entry>, k: bytes) returns (n: nat)
    requires IsScan(db, head, now, entries) && k in db && head <= k && db[k].Live(now)
    ensures n < |entries| && entries[n] == Entry(k, db[k].stored)
  {
    hide Query.Ascending;
    assert Entry(k, db[k].stored) in entries;
    n :| 0 <= n < |entries| && entries[n] == Entry(k, db[k].stored);
  }

  /** Over keys of the index's own form the check refuses exactly when two live keys share an
      encoding, whoever wrote them. */
  lemma ClashExact(x: NewIndex, db: Db, now: nat, entries: seq<Entry>)
    requires WellFormed(x, db) && IsScan(db, x.Head(), now, entries)
    ensures RefsOnly(x, db) && (Clash(x, db, now) <==> SharedKeys(x, db, now))
  {
    hide NewIndex.Head, Formed, Neighbours, Sharing, SharedKeys, Clash;
    WellFormedRefs(x, db);
    ScanRefs(x, db, now, entries);
    ClashOf(x, db, now, entries);
    forall e | e in entries ensures Formed(x, e) {
    }
    NeighboursSuffice(x, entries);
    ScannedShare(x, db, now, entries);
  }

  /** With nothing left over, two live keys share an encoding exactly when two scanned documents with
      unexpired entries share the value. */
  lemma SharedExactly(x: NewIndex, db: Db, w: Db, rows: seq<Row>, now: nat)
    requires x.Valid() && RowsDistinct(rows) && !Leftover(x, db, rows) && Entered(x, w, rows) && Inside(x, db, w, rows)
    ensures WellFormed(x, w) && RefsOnly(x, w)
    ensures SharedKeys(x, w, now) <==> SharedValue(x, rows, now)
  {
    hide NewIndex.Valid, NewIndex.Head, NewIndex.Key, EncodingAt, EncodingOf, NewIndex.EntryCell, RowsDistinct, Inside;
    forall k | k in w && x.Head() <= k ensures RowKey(x, rows, k) {
      KeyOrigin(x, db, w, rows, k);
    }
    forall k | k in w && x.Head() <= k ensures Formed(x, Entry(k, w[k].stored)) {
      var row := KeyedRow(x, rows, k);
      EntryStored(x, row);
    }
    WellFormedRefs(x, w);
    forall row | row in rows ensures x.Head() <= x.Key(row) && w[x.Key(row)].stored == Ref(row.id) && (w[x.Key(row)].Live(now) <==> x.Shows(row, now))
      ensures EncodingAt(x, x.Key(row), row.id) == EncodingOf(x, row)
    {
      NewKeys(x, row, row);
      EntryStored(x, row);
      EncodingRead(x, row);
    }
    if SharedKeys(x, w, now) {
      var j, k :| j != k && LiveKey(x, w, now, j) && LiveKey(x, w, now, k)
                  && EncodingAt(x, j, w[j].stored.id) == EncodingAt(x, k, w[k].stored.id);
      var a := KeyedRow(x, rows, j);
      var b := KeyedRow(x, rows, k);
      if a.id == b.id {
        SameRow(rows, a, b);
      }
    }
    if SharedValue(x, rows, now) {
      var a, b :| a in rows && b in rows && x.Shows(a, now) && x.Shows(b, now) && a.id != b.id && EncodingOf(x, a) == EncodingOf(x, b);
      NewKeys(x, a, b);
      assert LiveKey(x, w, now, x.Key(a)) && LiveKey(x, w, now, x.Key(b));
    }
  }

  lemma EntryStored(x: NewIndex, row: Row)
    ensures x.EntryCell(row).stored == Ref(row.id)
  {
  }

  lemma SameRow(rows: seq<Row>, a: Row, b: Row)
    requires RowsDistinct(rows) && a in rows && b in rows && a.id == b.id
    ensures a == b
  {
    var i :| 0 <= i < |rows| && rows[i] == a;
    var j :| 0 <= j < |rows| && rows[j] == b;
  }

  // ---- Undoing -----------------------------------------------------------------

  /** Everything but the live keys under the new index's id. */
  function Without(x: NewIndex, db: Db, now: nat): Db {
    map k | k in db && !(x.Head() <= k && db[k].Live(now)) :: db[k]
  }

  ghost predicate DelsAt(d: Durable, s: Space, db: Db, c: Counters, keys: seq<bytes>) {
    exists n :: 0 <= n <= |keys| && d == Durable(s, DelAll(db, keys[..n]), c)
  }

  /** Delete every key of the scanned range in bounded chunks. */
  method RemoveIndexRange(store: DocumentStore, keys: seq<bytes>)
    modifies store`db, store`durable
    ensures store.db == DelAll(old(store.db), keys) && old(store.durable) <= store.durable
    ensures forall i :: |old(store.durable)| <= i < |store.durable| ==> DelsAt(store.durable[i], store.space, old(store.db), store.persisted, keys)
  {
    hide Apply, DelAll;
    ghost var before := store.db;
    var chunk: seq<Op> := [];
    ghost var sent: nat := 0;
    ApplyDels(before, []);
    NoOps(before);
    for n := 0 to |keys|
      invariant sent <= n && |chunk| < MAX_BATCH_KEYS && chunk == Dels(keys[sent..n])
      invariant store.db == DelAll(before, keys[..sent]) && old(store.durable) <= store.durable
      invariant forall i :: |old(store.durable)| <= i < |store.durable| ==> DelsAt(store.durable[i], store.space, before, store.persisted, keys)
    {
      DelsGrow(keys, sent, n);
      chunk := chunk + [Del(keys[n])];
      if |chunk| >= MAX_BATCH_KEYS {
        DelsJoin(before, keys, sent, n + 1);
        var ok := store.WriteBatch(chunk);
        chunk := [];
        sent := n + 1;
      }
    }
    DelsJoin(before, keys, sent, |keys|);
    assert keys[..|keys|] == keys;
    if |chunk| > 0 {
      var ok := store.WriteBatch(chunk);
    } else {
      NoOps(store.db);
    }
  }

  lemma DelsGrow(keys: seq<bytes>, m: nat, n: nat)
    requires m <= n < |keys|
    ensures Dels(keys[m..n + 1]) == Dels(keys[m..n]) + [Del(keys[n])]
    ensures Dels(keys[n + 1..n + 1]) == []
  {
  }

  lemma DelsJoin(db: Db, keys: seq<bytes>, m: nat, n: nat)
    requires m <= n <= |keys|
    ensures Apply(DelAll(db, keys[..m]), Dels(keys[m..n])) == DelAll(db, keys[..n])
  {
    hide Apply, DelAll;
    ApplyDels(db, keys[..m]);
    ApplyDels(db, keys[..n]);
    ApplyConcat(db, Dels(keys[..m]), Dels(keys[m..n]));
    assert Dels(keys[..m]) + Dels(keys[m..n]) == Dels(keys[..n]);
  }

  lemma LastDels(d: Durable, s: Space, db: Db, c: Counters, keys: seq<bytes>)
    requires d == Durable(s, DelAll(db, keys), c)
    ensures DelsAt(d, s, db, c, keys)
  {
    hide DelAll;
    assert keys[..|keys|] == keys;
  }

  lemma ScannedKeys(x: NewIndex, db: Db, now: nat, entries: seq<Entry>, keys: seq<bytes>)
    requires IsScan(db, x.Head(), now, entries)
    requires |keys| == |entries| && forall i :: 0 <= i < |keys| ==> keys[i] == entries[i].key
    ensures DelAll(db, keys) == Without(x, db, now)
    ensures forall k :: k in keys ==> x.Head() <= k
  {
    hide NewIndex.Head, Query.Ascending;
    forall k ensures k in keys <==> k in db && x.Head() <= k && db[k].Live(now) {
      if k in keys {
        var i :| 0 <= i < |keys| && keys[i] == k;
        assert entries[i] in entries;
      }
      if k in db && x.Head() <= k && db[k].Live(now) {
        var i := PositionOf(db, x.Head(), now, entries, k);
        assert keys[i] == k;
      }
    }
  }

  /** The document's entry was not there before and is removed, or had expired and was there just so. */
  predicate Undone(x: NewIndex, db: Db, row: Row, now: nat) {
    if x.Shows(row, now) then x.Key(row) !in db
    else x.Key(row) in db && db[x.Key(row)] == x.EntryCell(row)
  }

  /** Live keys under the new id that are no scanned document's. */
  ghost predicate LiveLeftover(x: NewIndex, db: Db, rows: seq<Row>, now: nat) {
    exists k :: k in db && x.Head() <= k && db[k].Live(now) && !RowKey(x, rows, k)
  }

  /** Undoing a refused definition restores the store if and only if every document's entry was new and
      unexpired, or had expired and was there already, and no other live key lay under the id. */
  lemma UndoRestores(x: NewIndex, db: Db, rows: seq<Row>, now: nat)
    requires x.Valid() && x.idx.unique && RowsDistinct(rows)
    ensures Without(x, Apply(db, x.AllOps(rows)), now) == db <==>
            (forall row :: row in rows ==> Undone(x, db, row, now)) && !LiveLeftover(x, db, rows, now)
  {
    hide Apply, NewIndex.AllOps, NewIndex.Valid, NewIndex.Key, NewIndex.Head, NewIndex.EntryCell, RowsDistinct, RowKey;
    var w := Apply(db, x.AllOps(rows));
    var u := Without(x, w, now);
    EntriesWritten(x, db, rows);
    forall row | row in rows ensures x.Head() <= x.Key(row) && RowKey(x, rows, x.Key(row)) {
      NewKeys(x, row, row);
      IsRowKey(x, rows, row);
    }
    forall k | !RowKey(x, rows, k) ensures SameCell(db, w, k) {
      NotStamped(x, k);
    }
    if (forall row :: row in rows ==> Undone(x, db, row, now)) && !LiveLeftover(x, db, rows, now) {
      forall k ensures SameCell(u, db, k) {
        if RowKey(x, rows, k) {
          var row := KeyedRow(x, rows, k);
        }
      }
      SameCells(u, db);
    } else if LiveLeftover(x, db, rows, now) {
      var k :| k in db && x.Head() <= k && db[k].Live(now) && !RowKey(x, rows, k);
      assert SameCell(db, w, k);
    } else {
      var row :| row in rows && !Undone(x, db, row, now);
      assert x.Key(row) in w && w[x.Key(row)] == x.EntryCell(row);
    }
  }

  lemma SameCells(a: Db, b: Db)
    requires forall k :: SameCell(a, b, k)
    ensures a == b
  {
    assert forall k :: k in a <==> k in b by {
      forall k ensures k in a <==> k in b {
        assert SameCell(a, b, k);
      }
    }
    forall k | k in a ensures a[k] == b[k] {
      assert SameCell(a, b, k);
    }
  }

  lemma IsRowKey(x: NewIndex, rows: seq<Row>, row: Row)
    requires row in rows
    ensures RowKey(x, rows, x.Key(row))
  {
  }

  lemma NotStamped(x: NewIndex, k: bytes)
    ensures !StampKey(x, [], k)
  {
  }

  // ---- Scanning documents ------------------------------------------------------

  /** The live documents in key order. */
  method ScanRows(s: Space, db: Db, now: nat) returns (rows: seq<Row>, ghost entries: seq<Entry>)
    requires s.Valid() && Exact(s, db)
    ensures IsScan(db, s.Bodies(), now, entries) && RowsOf(s, entries, rows) && Scanned(s, db, now, rows)
  {
    hide Exact, Scanned, DocIdFromDocKey;
    var found := ScanPrefix(db, s.Bodies(), now);
    entries := found;
    ReallyTyped(s, db);
    BodiesOnly(s, db, now, found);
    rows := seq(|found|, i requires 0 <= i < |found| && found[i].stored.Body? => Row(DocIdFromDocKey(|s.prefix|, found[i].key), found[i].stored.doc));
    RowsScanned(s, db, now, found, rows);
  }

  ghost predicate RowsOf(s: Space, entries: seq<Entry>, rows: seq<Row>) {
    && |rows| == |entries|
    && forall i :: 0 <= i < |rows| ==> entries[i].stored.Body? && rows[i] == Row(DocIdFromDocKey(|s.prefix|, entries[i].key), entries[i].stored.doc)
  }

  lemma BodiesOnly(s: Space, db: Db, now: nat, entries: seq<Entry>)
    requires BodiesTyped(s, db) && IsScan(db, s.Bodies(), now, entries)
    ensures forall i :: 0 <= i < |entries| ==> entries[i].stored.Body?
  {
    hide Query.Ascending;
    forall i | 0 <= i < |entries| ensures entries[i].stored.Body? {
      assert entries[i] in entries;
    }
  }

  lemma RowsScanned(s: Space, db: Db, now: nat, entries: seq<Entry>, rows: seq<Row>)
    requires s.Valid() && IsScan(db, s.Bodies(), now, entries) && RowsOf(s, entries, rows)
    ensures Scanned(s, db, now, rows)
  {
    hide DocIdFromDocKey, Less;
    forall i | 0 <= i < |entries| ensures entries[i] in entries && entries[i].key == s.BodyKey(rows[i].id) {
      assert entries[i] in entries;
      DocKeyOf(s.prefix, s.coll.id, entries[i].key);
    }
    forall i, j | 0 <= i < j < |rows| ensures rows[i].id != rows[j].id {
      LessIrreflexive(entries[i].key);
      assert Less(entries[i].key, entries[j].key);
    }
    forall row ensures row in rows <==> LiveDoc(s, db, now, row.id) && DocOf(s, db, row.id) == row.doc {
      if row in rows {
        var i :| 0 <= i < |rows| && rows[i] == row;
        assert entries[i] in entries;
      }
      if LiveDoc(s, db, now, row.id) && DocOf(s, db, row.id) == row.doc {
        BodyUnderBodies(s, row.id);
        var i := PositionOf(db, s.Bodies(), now, entries, s.BodyKey(row.id));
        BodyKeysDistinct(s, rows[i].id, row.id);
        assert rows[i] == row;
      }
    }
  }

  /** Writing entries leaves the scan of the bodies as it was. */
  lemma SameScan(x: NewIndex, db: Db, w: Db, now: nat, first: seq<Entry>, rows: seq<Row>, second: seq<Entry>, again: seq<Row>)
    requires x.Valid() && Outside(x, db, w, [])
    requires IsScan(db, x.space.Bodies(), now, first) && RowsOf(x.space, first, rows)
    requires IsScan(w, x.space.Bodies(), now, second) && RowsOf(x.space, second, again)
    ensures again == rows
  {
    hide NewIndex.Head, NewIndex.Valid, DocIdFromDocKey, Query.Ascending;
    forall e ensures e in second <==> e in first {
      if x.Head() <= e.key {
        OutsideHead(x, e.key);
      }
      NotStamped(x, e.key);
    }
    ScanUnique(db, x.space.Bodies(), now, first, second);
  }

  // ---- Defining an index -------------------------------------------------------

  datatype DdlResult = Defined(count: nat) | Duplicate | Overflow

  /** A state the definition makes durable before its catalog: the collection as it was, some of its
      documents stamped, and something under the new id. */
  ghost predicate Partial(d: Durable, x: NewIndex, db: Db, c: Counters, rows: seq<Row>) {
    d.space == x.space && d.record == c && exists n :: 0 <= n <= |rows| && Outside(x, db, d.db, rows[..n])
  }

  lemma EntriesPartial(x: NewIndex, db: Db, c: Counters, rows: seq<Row>, d: Durable)
    requires x.Valid() && RowsDistinct(rows) && EntriesAt(d, x, x.space, db, c, rows)
    ensures Partial(d, x, db, c, rows)
  {
    hide Apply, NewIndex.AllOps, NewIndex.Valid, Outside;
    var n :| 0 <= n <= |rows| && d == Durable(x.space, Apply(db, x.AllOps(rows[..n])), c);
    EntriesWritten(x, db, rows[..n]);
    assert rows[..0] == [];
    assert Outside(x, db, d.db, rows[..if x.idx.unique then 0 else n]);
  }

  lemma StampsPartial(x: NewIndex, db: Db, w: Db, c: Counters, rows: seq<Row>, d: Durable)
    requires x.Valid() && RowsDistinct(rows) && Entered(x, w, rows) && Inside(x, db, w, rows) && Outside(x, db, w, [])
    requires StampsAt(d, x, x.space, w, c, rows)
    ensures Partial(d, x, db, c, rows)
  {
    hide Apply, NewIndex.StampOps, NewIndex.Valid, Outside, Entered, Inside;
    var n :| 0 <= n <= |rows| && d == Durable(x.space, Apply(w, x.StampOps(rows[..n])), c);
    BodiesStamped(x, db, w, rows, rows[..n]);
  }

  lemma DelsPartial(x: NewIndex, db: Db, w: Db, c: Counters, rows: seq<Row>, keys: seq<bytes>, d: Durable)
    requires x.Valid() && Outside(x, db, w, []) && (forall k :: k in keys ==> x.Head() <= k) && DelsAt(d, x.space, w, c, keys)
    ensures Partial(d, x, db, c, rows)
  {
    hide NewIndex.Valid, NewIndex.Head;
    var n :| 0 <= n <= |keys| && d == Durable(x.space, DelAll(w, keys[..n]), c);
    assert rows[..0] == [];
    forall k | !(x.Head() <= k) && !StampKey(x, [], k) ensures SameCell(db, d.db, k) {
      assert SameCell(db, w, k);
      assert forall j :: j in keys[..n] ==> j in keys;
    }
    assert Outside(x, db, d.db, rows[..0]);
  }

  /** Every state of the definition is consistent when its stamps are harmless. */
  lemma PartialConsistent(x: NewIndex, db: Db, c: Counters, rows: seq<Row>, now: nat, d: Durable)
    requires x.Valid() && Consistent(Durable(x.space, db, c), now) && Scanned(x.space, db, now, rows) && Partial(d, x, db, c, rows)
    ensures exists n :: 0 <= n <= |rows| && (Consistent(d, now) <==> Harmless(x, db, rows[..n]))
    ensures Harmless(x, db, rows) ==> Consistent(d, now)
  {
    hide NewIndex.Valid, Consistent, Scanned, Outside;
    var n :| 0 <= n <= |rows| && Outside(x, db, d.db, rows[..n]);
    PartlyBuilt(x, db, c, rows, now, d.db, n);
    assert forall row :: row in rows[..n] ==> row in rows;
    assert Harmless(x, db, rows) ==> Harmless(x, db, rows[..n]);
  }

  lemma ScannedDistinct(s: Space, db: Db, now: nat, rows: seq<Row>)
    requires Scanned(s, db, now, rows)
    ensures RowsDistinct(rows) && rows[..|rows|] == rows
  {
  }

  lemma AllConsistent(x: NewIndex, db: Db, c: Counters, rows: seq<Row>, now: nat, durable: seq<Durable>, from: nat)
    requires x.Valid() && Consistent(Durable(x.space, db, c), now) && Scanned(x.space, db, now, rows)
    requires forall i :: from <= i < |durable| ==> Partial(durable[i], x, db, c, rows)
    ensures Harmless(x, db, rows) ==> forall i :: from <= i < |durable| ==> Consistent(durable[i], now)
  {
    hide NewIndex.Valid, Consistent, Scanned, Partial, Harmless;
    forall i | from <= i < |durable| ensures Harmless(x, db, rows) ==> Consistent(durable[i], now) {
      PartialConsistent(x, db, c, rows, now, durable[i]);
    }
  }

  lemma StillRefs(x: NewIndex, db: Db, w: Db, rows: seq<Row>)
    requires RefsOnly(x, db) && Entered(x, w, rows) && Inside(x, db, w, rows)
    ensures RefsOnly(x, w)
  {
    hide NewIndex.Head, NewIndex.Key;
    forall k | k in w && x.Head() <= k ensures w[k].stored.Ref? {
      if RowKey(x, rows, k) {
        var row := KeyedRow(x, rows, k);
      }
    }
  }

  lemma StillWellFormed(x: NewIndex, db: Db, w: Db, rows: seq<Row>)
    requires WellFormed(x, db) && Entered(x, w, rows) && Inside(x, db, w, rows)
    ensures WellFormed(x, w)
  {
    hide NewIndex.Head, NewIndex.Key;
    forall k | k in w && x.Head() <= k ensures Formed(x, Entry(k, w[k].stored)) {
      if RowKey(x, rows, k) {
        var row := KeyedRow(x, rows, k);
        assert Entry(k, w[k].stored) == Entry(x.Key(row), Ref(row.id));
      } else {
        assert SameCell(db, w, k);
      }
    }
  }

  lemma ScanOrder(db: Db, head: bytes, now: nat, entries: seq<Entry>)
    requires IsScan(db, head, now, entries)
    ensures Query.Ascending(entries)
  {
  }

  /** What the check on the written range decides. */
  lemma CheckExact(x: NewIndex, db: Db, w: Db, rows: seq<Row>, now: nat, entries: seq<Entry>)
    requires x.Valid() && RowsDistinct(rows) && Entered(x, w, rows) && Inside(x, db, w, rows) && IsScan(w, x.Head(), now, entries)
    ensures WellFormed(x, db) ==> (Clash(x, w, now) <==> SharedKeys(x, w, now))
    ensures !Leftover(x, db, rows) ==> (Clash(x, w, now) <==> SharedValue(x, rows, now))
  {
    hide NewIndex.Valid, NewIndex.Head, RowsDistinct, Entered, Inside, IsScan, WellFormed, Clash, SharedKeys, SharedValue, Leftover, RefsOnly;
    if WellFormed(x, db) {
      StillWellFormed(x, db, w, rows);
      ClashExact(x, w, now, entries);
    }
    if !Leftover(x, db, rows) {
      SharedExactly(x, db, w, rows, now);
      ClashExact(x, w, now, entries);
    }
  }

  lemma StillExact(x: NewIndex, db: Db, w: Db)
    requires x.Valid() && Exact(x.space, db) && Outside(x, db, w, [])
    ensures Exact(x.space, w)
  {
    hide NewIndex.Valid, Exact, Outside;
    OlderExact(x, db, w, []);
  }

  /** Every state made durable since `from` is one the definition passes through, consistent when its
      stamps are harmless. */
  ghost predicate Traced(durable: seq<Durable>, from: nat, x: NewIndex, db: Db, c: Counters, rows: seq<Row>, now: nat) {
    forall i :: from <= i < |durable| ==> Partial(durable[i], x, db, c, rows) && (Harmless(x, db, rows) ==> Consistent(durable[i], now))
  }

  lemma TracedBy(durable: seq<Durable>, from: nat, x: NewIndex, db: Db, c: Counters, rows: seq<Row>, now: nat)
    requires x.Valid() && Consistent(Durable(x.space, db, c), now) && Scanned(x.space, db, now, rows)
    requires forall i :: from <= i < |durable| ==> Partial(durable[i], x, db, c, rows)
    ensures Traced(durable, from, x, db, c, rows, now)
  {
    hide NewIndex.Valid, Consistent, Scanned, Partial, Harmless;
    AllConsistent(x, db, c, rows, now, durable, from);
  }

  lemma TracedOn(before: seq<Durable>, durable: seq<Durable>, from: nat, x: NewIndex, db: Db, c: Counters, rows: seq<Row>, now: nat)
    requires before <= durable && Traced(before, from, x, db, c, rows, now) && Traced(durable, |before|, x, db, c, rows, now)
    ensures Traced(durable, from, x, db, c, rows, now)
  {
    hide Partial, Harmless, Consistent;
    assert forall i :: 0 <= i < |before| ==> durable[i] == before[i];
  }

  /** The unique check on the written range; a refusal removes the range again. */
  method RefuseDuplicate(store: DocumentStore, x: NewIndex, now: nat, ghost before: Db, ghost c: Counters, ghost rows: seq<Row>) returns (dup: bool)
    requires x.Valid() && x.space == store.space && x.idx.unique && c == store.persisted && RefsOnly(x, before)
    requires Consistent(Durable(x.space, before, c), now) && Scanned(x.space, before, now, rows) && RowsDistinct(rows)
    requires Entered(x, store.db, rows) && Inside(x, before, store.db, rows) && Outside(x, before, store.db, [])
    modifies store`db, store`durable
    ensures dup <==> Clash(x, old(store.db), now)
    ensures WellFormed(x, before) ==> (dup <==> SharedKeys(x, old(store.db), now))
    ensures !Leftover(x, before, rows) ==> (dup <==> SharedValue(x, rows, now))
    ensures dup ==> store.db == Without(x, old(store.db), now) && Partial(Durable(x.space, store.db, c), x, before, c, rows)
    ensures !dup ==> store.db == old(store.db)
    ensures old(store.durable) <= store.durable && Traced(store.durable, |old(store.durable)|, x, before, c, rows, now)
  {
    hide NewIndex.Valid, WellFormed, SharedKeys, SharedValue, Leftover, Consistent, Scanned, Clash, Harmless, Entered, Inside, Outside, IsScan, DelAll, Without, Partial, DelsAt, Neighbours, NewIndex.Head, RefsOnly, RowsDistinct, Traced;
    ghost var written := store.db;
    var entries := ScanPrefix(store.db, x.Head(), now);
    StillRefs(x, before, written, rows);
    ScanRefs(x, written, now, entries);
    ClashOf(x, written, now, entries);
    ScanOrder(written, x.Head(), now, entries);
    CheckExact(x, before, written, rows, now, entries);
    dup := UniqueIndexHasDuplicate(x, entries);
    if dup {
      var keys := seq(|entries|, i requires 0 <= i < |entries| => entries[i].key);
      ScannedKeys(x, written, now, entries, keys);
      RemoveIndexRange(store, keys);
      forall i | |old(store.durable)| <= i < |store.durable| ensures Partial(store.durable[i], x, before, c, rows) {
        DelsPartial(x, before, written, c, rows, keys, store.durable[i]);
      }
      LastDels(Durable(x.space, store.db, c), store.space, written, c, keys);
      DelsPartial(x, before, written, c, rows, keys, Durable(x.space, store.db, c));
    }
    TracedBy(store.durable, |old(store.durable)|, x, before, c, rows, now);
  }

  /** Stamp the bodies of a unique TTL index, scanning the documents again. */
  method StampUnique(store: DocumentStore, x: NewIndex, now: nat, ghost before: Db, ghost c: Counters, ghost rows: seq<Row>, ghost first: seq<Entry>)
    requires x.Valid() && x.space == store.space && x.idx.unique && c == store.persisted
    requires Consistent(Durable(x.space, before, c), now) && Scanned(x.space, before, now, rows) && RowsDistinct(rows)
    requires IsScan(before, x.space.Bodies(), now, first) && RowsOf(x.space, first, rows)
    requires Entered(x, store.db, rows) && Inside(x, before, store.db, rows) && Outside(x, before, store.db, [])
    modifies store`db, store`durable
    ensures store.db == Apply(old(store.db), x.StampOps(rows))
    ensures old(store.durable) <= store.durable && Traced(store.durable, |old(store.durable)|, x, before, c, rows, now)
  {
    hide Apply, NewIndex.Valid, NewIndex.StampOps, Consistent, Exact, Scanned, Harmless, Entered, Inside, Outside, IsScan, RowsOf, Partial, StampsAt, RowsDistinct, Traced;
    ghost var written := store.db;
    ReallyIndexed(x.space, before, c, now);
    if x.ttl {
      StillExact(x, before, written);
      var again;
      ghost var second;
      again, second := ScanRows(store.space, store.db, now);
      SameScan(x, before, written, now, first, rows, second, again);
      StampBodies(store, x, again);
      forall i | |old(store.durable)| <= i < |store.durable| ensures Partial(store.durable[i], x, before, c, rows) {
        StampsPartial(x, before, written, c, rows, store.durable[i]);
      }
    } else {
      PlainStamps(x, rows);
      NoOps(written);
    }
    TracedBy(store.durable, |old(store.durable)|, x, before, c, rows, now);
  }

  /** Write the entries of every live document, check a unique index, and stamp bodies. */
  method BackfillIndex(store: DocumentStore, x: NewIndex, now: nat) returns (r: DdlResult, ghost rows: seq<Row>)
    requires store.Valid() && Unique(store.space, store.db, now)
    requires x.Valid() && x.space == store.space && RefsOnly(x, store.db)
    modifies store`db, store`durable
    ensures Scanned(x.space, old(store.db), now, rows)
    ensures r.Overflow? <==> !Fits(x, rows)
    ensures r.Duplicate? <==> Fits(x, rows) && x.idx.unique && Clash(x, Apply(old(store.db), x.AllOps(rows)), now)
    ensures WellFormed(x, old(store.db)) ==>
              (r.Duplicate? <==> Fits(x, rows) && x.idx.unique && SharedKeys(x, Apply(old(store.db), x.AllOps(rows)), now))
    ensures !Leftover(x, old(store.db), rows) ==> (r.Duplicate? <==> Fits(x, rows) && x.idx.unique && SharedValue(x, rows, now))
    ensures r.Duplicate? ==> store.db == Without(x, Apply(old(store.db), x.AllOps(rows)), now)
    ensures r.Defined? ==> r.count == |rows| && store.db == x.Built(old(store.db), rows)
    ensures !r.Defined? ==> Partial(Durable(x.space, store.db, store.persisted), x, old(store.db), store.persisted, rows)
    ensures old(store.durable) <= store.durable && Traced(store.durable, |old(store.durable)|, x, old(store.db), store.persisted, rows, now)
  {
    hide Apply, NewIndex.Valid, NewIndex.AllOps, NewIndex.StampOps, Fits, WellFormed, SharedKeys, SharedValue, Leftover, Exact, Unique, Counted, Consistent, Scanned, Clash, Harmless, Entered, Inside, Outside, IsScan, RowsOf, Without, Partial, EntriesAt, RefsOnly, RowsDistinct, Traced;
    ghost var before, c := store.db, store.persisted;
    ReallyIndexed(x.space, before, c, now);
    ghost var first;
    var found;
    found, first := ScanRows(store.space, store.db, now);
    rows := found;
    ScannedDistinct(x.space, before, now, rows);
    var ok := WriteEntries(store, x, found);
    EntriesWritten(x, before, rows);
    EntriesPartial(x, before, c, rows, Durable(store.space, store.db, store.persisted));
    forall i | |old(store.durable)| <= i < |store.durable| ensures Partial(store.durable[i], x, before, c, rows) {
      EntriesPartial(x, before, c, rows, store.durable[i]);
    }
    TracedBy(store.durable, |old(store.durable)|, x, before, c, rows, now);
    if !ok {
      return Overflow, rows;
    }
    if x.idx.unique {
      ghost var sofar := store.durable;
      var dup := RefuseDuplicate(store, x, now, before, c, rows);
      TracedOn(sofar, store.durable, |old(store.durable)|, x, before, c, rows, now);
      if dup {
        return Duplicate, rows;
      }
      sofar := store.durable;
      StampUnique(store, x, now, before, c, rows, first);
      TracedOn(sofar, store.durable, |old(store.durable)|, x, before, c, rows, now);
    }
    return Defined(|found|), rows;
  }

  /** Entries first, then the unique check, the catalog last. */
  method DefineIndex(store: DocumentStore, x: NewIndex, now: nat) returns (r: DdlResult, ghost rows: seq<Row>)
    requires store.Valid() && Unique(store.space, store.db, now)
    requires x.Valid() && x.space == store.space && RefsOnly(x, store.db)
    modifies store
    ensures Scanned(x.space, old(store.db), now, rows)
    ensures r.Overflow? <==> !Fits(x, rows)
    ensures r.Duplicate? <==> Fits(x, rows) && x.idx.unique && Clash(x, Apply(old(store.db), x.AllOps(rows)), now)
    ensures WellFormed(x, old(store.db)) ==>
              (r.Duplicate? <==> Fits(x, rows) && x.idx.unique && SharedKeys(x, Apply(old(store.db), x.AllOps(rows)), now))
    ensures !Leftover(x, old(store.db), rows) ==> (r.Duplicate? <==> Fits(x, rows) && x.idx.unique && SharedValue(x, rows, now))
    ensures r.Duplicate? ==> store.db == Without(x, Apply(old(store.db), x.AllOps(rows)), now)
    ensures !r.Defined? ==> store.space == x.space && store.counters == store.persisted == old(store.counters)
    ensures r.Defined? ==> r.count == |rows| && store.space == x.After() && store.db == x.Built(old(store.db), rows)
    ensures r.Defined? ==> store.counters == store.persisted == x.Recount(old(store.counters), rows)
    ensures r.Defined? ==> (store.Valid() && Unique(store.space, store.db, now) <==> Ready(x, old(store.db), now, rows))
    ensures !r.Defined? && Harmless(x, old(store.db), rows) ==> store.Valid() && Unique(store.space, store.db, now)
    ensures old(store.durable) <= store.durable
    ensures !r.Defined? ==> Traced(store.durable, |old(store.durable)|, x, old(store.db), old(store.counters), rows, now)
    ensures r.Defined? ==> exists passed ::
              && Traced(passed, |old(store.durable)|, x, old(store.db), old(store.counters), rows, now)
              && store.durable == passed + [Durable(store.space, store.db, store.persisted)]
  {
    hide Apply, NewIndex.Valid, NewIndex.AllOps, NewIndex.Built, Fits, WellFormed, SharedKeys, SharedValue, Leftover, Exact, Unique, Counted, Consistent, Scanned, Clash, Ready, Harmless, Without, Partial, RefsOnly, Traced;
    ghost var before, c := store.db, store.counters;
    ReallyIndexed(x.space, before, c, now);
    r, rows := BackfillIndex(store, x, now);
    if !r.Defined? {
      ghost var partly := Durable(store.space, store.db, store.persisted);
      PartialConsistent(x, before, c, rows, now, partly);
      ReallyIndexed(store.space, store.db, store.persisted, now);
      return;
    }
    DefinitionConsistent(x, before, c, now, rows);
    ghost var sofar := store.durable;
    store.PersistCatalog(x.After(), Counters(store.counters.docs, store.counters.entries + [r.count]));
    assert store.durable == sofar + [Durable(store.space, store.db, store.persisted)];
    ReallyIndexed(x.After(), store.db, store.counters, now);
  }
}
