/** The key space of one collection: bodies, secondary index entries and counters, and what one
    document's write does to them. */
module StoreState {
  import opened Bytes
  import opened Words
  import opened Values
  import opened Encoding
  import opened Keys
  import opened Planner
  import opened Query

  const MAX_BATCH_KEYS: nat := 1024

  // ---- Cells and batches -------------------------------------------------------

  /** A stored value and its absolute expiry in milliseconds; zero means never. */
  datatype Cell = Cell(stored: Stored, expiresAt: nat) {
    predicate Live(now: nat) {
      expiresAt == 0 || now <= expiresAt
    }
  }

  type Db = map<bytes, Cell>

  datatype Op = Put(key: bytes, cell: Cell) | Del(key: bytes)

  function ApplyOp(db: Db, op: Op): Db {
    match op
    case Put(k, c) => db[k := c]
    case Del(k) => db - {k}
  }

  /** The effect of a batch: its operations in order. */
  function Apply(db: Db, ops: seq<Op>): Db {
    if ops == [] then db else ApplyOp(Apply(db, ops[..|ops| - 1]), ops[|ops| - 1])
  }

  lemma {:induction false} ApplyConcat(db: Db, a: seq<Op>, b: seq<Op>)
    ensures Apply(db, a + b) == Apply(Apply(db, a), b)
  {
    if b == [] {
      assert a + b == a;
    } else {
      var n := |b| - 1;
      ApplyConcat(db, a, b[..n]);
      assert (a + b)[..|a| + n] == a + b[..n];
    }
  }

  function PutAll(db: Db, keys: seq<bytes>, cell: Cell): Db {
    db + map k | k in keys :: cell
  }

  function DelAll(db: Db, keys: seq<bytes>): Db {
    db - set k | k in keys
  }

  function Puts(keys: seq<bytes>, cell: Cell): (ops: seq<Op>)
    ensures |ops| == |keys|
  {
    seq(|keys|, i requires 0 <= i < |keys| => Put(keys[i], cell))
  }

  function Dels(keys: seq<bytes>): (ops: seq<Op>)
    ensures |ops| == |keys|
  {
    seq(|keys|, i requires 0 <= i < |keys| => Del(keys[i]))
  }

  lemma PutSnoc(db: Db, keys: seq<bytes>, cell: Cell)
    requires keys != []
    ensures PutAll(db, keys[..|keys| - 1], cell)[keys[|keys| - 1] := cell] == PutAll(db, keys, cell)
  {
    var n := |keys| - 1;
    var a, b := PutAll(db, keys[..n], cell)[keys[n] := cell], PutAll(db, keys, cell);
    assert keys == keys[..n] + [keys[n]];
    assert forall k :: k in a <==> k in b;
  }

  lemma {:induction false} ApplyPuts(db: Db, keys: seq<bytes>, cell: Cell)
    ensures Apply(db, Puts(keys, cell)) == PutAll(db, keys, cell)
  {
    if keys == [] {
      assert PutAll(db, keys, cell) == db;
    } else {
      var n := |keys| - 1;
      ApplyPuts(db, keys[..n], cell);
      assert Puts(keys, cell)[..n] == Puts(keys[..n], cell);
      hide PutAll;
      PutSnoc(db, keys, cell);
    }
  }

  lemma {:induction false} ApplyDels(db: Db, keys: seq<bytes>)
    ensures Apply(db, Dels(keys)) == DelAll(db, keys)
  {
    if keys == [] {
      assert DelAll(db, keys) == db;
    } else {
      var n := |keys| - 1;
      ApplyDels(db, keys[..n]);
      assert Dels(keys)[..n] == Dels(keys[..n]);
      assert keys == keys[..n] + [keys[n]];
    }
  }

  // ---- One collection ----------------------------------------------------------

  datatype Space = Space(prefix: bytes, coll: CollectionMeta) {
    /** Ids fit their fixed-width fields and no two indexes share one. */
    predicate Valid() {
      && coll.id < U32
      && (forall i :: 0 <= i < |coll.indexes| ==> coll.indexes[i].id < U32)
      && (forall i, j :: 0 <= i < j < |coll.indexes| ==> coll.indexes[i].id != coll.indexes[j].id)
    }

    function BodyKey(id: bytes): bytes {
      DocKey(prefix, coll.id, id)
    }

    function Bodies(): bytes {
      DocPrefix(prefix, coll.id)
    }

    function Head(i: nat): bytes
      requires i < |coll.indexes|
    {
      IndexPrefix(prefix, coll.id, coll.indexes[i].id)
    }

    function Entry(i: nat, doc: Value, id: bytes): bytes
      requires i < |coll.indexes|
    {
      EntryKey(prefix, coll.id, coll.indexes[i], doc, id)
    }

    /** The entries a document occupies, one per index. */
    function Entries(doc: Value, id: bytes): (r: seq<bytes>)
      ensures |r| == |coll.indexes|
      ensures forall i :: 0 <= i < |r| ==> r[i] == Entry(i, doc, id)
    {
      seq(|coll.indexes|, i requires 0 <= i < |coll.indexes| => Entry(i, doc, id))
    }
  }

  lemma BodyKeysDistinct(s: Space, a: bytes, b: bytes)
    requires s.BodyKey(a) == s.BodyKey(b)
    ensures a == b
  {
    DocKeyRoundTrip(s.prefix, s.coll.id, a);
    DocKeyRoundTrip(s.prefix, s.coll.id, b);
  }

  lemma BodyUnderBodies(s: Space, id: bytes)
    ensures s.Bodies() <= s.BodyKey(id)
  {
  }

  lemma EntryUnderHead(s: Space, i: nat, doc: Value, id: bytes)
    requires i < |s.coll.indexes|
    ensures s.Head(i) <= s.Entry(i, doc, id)
  {
  }

  lemma HeadsApart(s: Space, i: nat, j: nat, k: bytes)
    requires s.Valid() && i < |s.coll.indexes| && j < |s.coll.indexes| && s.Head(i) <= k && s.Head(j) <= k
    ensures i == j
  {
    IndexPrefixesApart(s.prefix, s.coll.id, s.coll.indexes[i].id, s.coll.id, s.coll.indexes[j].id, k);
  }

  lemma BodyNotEntry(s: Space, i: nat, k: bytes)
    requires i < |s.coll.indexes| && s.Bodies() <= k
    ensures !(s.Head(i) <= k)
  {
    RecordsApart(s.prefix, s.coll.id, s.coll.id, s.coll.indexes[i].id, k);
  }

  /** An entry key names its document. */
  lemma EntryNamesDoc(s: Space, i: nat, d: Value, a: bytes, e: Value, b: bytes)
    requires i < |s.coll.indexes| && s.Entry(i, d, a) == s.Entry(i, e, b)
    ensures a == b
  {
    hide EncodeFields;
    var idx := s.coll.indexes[i];
    var x, y := EncodeFields(FieldValues(d, idx.fields), idx.Ascending()), EncodeFields(FieldValues(e, idx.fields), idx.Ascending());
    var head := s.Head(i);
    assert s.Entry(i, d, a) == head + (x + a) && s.Entry(i, e, b) == head + (y + b);
    assert x + a == (head + (x + a))[|head|..] && y + b == (head + (y + b))[|head|..];
    FieldsPrefixFree(FieldValues(d, idx.fields), FieldValues(e, idx.fields), idx.Ascending(), a, b);
  }

  // ---- Exactness ---------------------------------------------------------------

  predicate HasDoc(s: Space, db: Db, id: bytes) {
    s.BodyKey(id) in db && db[s.BodyKey(id)].stored.Body?
  }

  function DocOf(s: Space, db: Db, id: bytes): Value
    requires HasDoc(s, db, id)
  {
    db[s.BodyKey(id)].stored.doc
  }

  function ExpiryOf(s: Space, db: Db, id: bytes): nat
    requires HasDoc(s, db, id)
  {
    db[s.BodyKey(id)].expiresAt
  }

  /** Only bodies live under the body prefix. */
  ghost predicate BodiesTyped(s: Space, db: Db) {
    forall k :: k in db && s.Bodies() <= k ==> db[k].stored.Body?
  }

  /** The cell at `k` is the entry in index `i` of some stored document, expiring with it. */
  ghost predicate DerivedCell(s: Space, db: Db, i: nat, k: bytes)
    requires i < |s.coll.indexes| && k in db
  {
    && db[k].stored.Ref? && HasDoc(s, db, db[k].stored.id)
    && k == s.Entry(i, DocOf(s, db, db[k].stored.id), db[k].stored.id)
    && db[k].expiresAt == ExpiryOf(s, db, db[k].stored.id)
  }

  ghost predicate Sound(s: Space, db: Db) {
    forall i, k :: 0 <= i < |s.coll.indexes| && k in db && s.Head(i) <= k ==> DerivedCell(s, db, i, k)
  }

  ghost predicate Complete(s: Space, db: Db) {
    forall i, id :: 0 <= i < |s.coll.indexes| && HasDoc(s, db, id) ==> s.Entry(i, DocOf(s, db, id), id) in db
  }

  /** Each index holds exactly the entries derived from the stored bodies. */
  ghost predicate Exact(s: Space, db: Db) {
    BodiesTyped(s, db) && Sound(s, db) && Complete(s, db)
  }

  // ---- Writing one document ----------------------------------------------------

  function OldEntries(s: Space, db: Db, id: bytes): seq<bytes> {
    if HasDoc(s, db, id) then s.Entries(DocOf(s, db, id), id) else []
  }

  /** Old entries the new document no longer has. */
  function Stale(was: seq<bytes>, next: seq<bytes>): (r: seq<bytes>)
    ensures forall k :: k in r <==> k in was && k !in next
    ensures |r| <= |was|
  {
    if was == [] then []
    else Stale(was[..|was| - 1], next) + if was[|was| - 1] in next then [] else [was[|was| - 1]]
  }

  function UpsertOps(s: Space, db: Db, id: bytes, doc: Value, expiresAt: nat): seq<Op> {
    var next := s.Entries(doc, id);
    [Put(s.BodyKey(id), Cell(Body(doc), expiresAt))]
    + Dels(Stale(OldEntries(s, db, id), next))
    + Puts(next, Cell(Ref(id), expiresAt))
  }

  function DeleteOps(s: Space, db: Db, id: bytes): seq<Op>
    requires HasDoc(s, db, id)
  {
    [Del(s.BodyKey(id))] + Dels(s.Entries(DocOf(s, db, id), id))
  }

  function UpsertDb(s: Space, db: Db, id: bytes, doc: Value, expiresAt: nat): Db {
    var next := s.Entries(doc, id);
    PutAll(DelAll(db[s.BodyKey(id) := Cell(Body(doc), expiresAt)], Stale(OldEntries(s, db, id), next)), next, Cell(Ref(id), expiresAt))
  }

  function DeleteDb(s: Space, db: Db, id: bytes): Db
    requires HasDoc(s, db, id)
  {
    DelAll(db - {s.BodyKey(id)}, s.Entries(DocOf(s, db, id), id))
  }

  lemma ApplyOne(db: Db, op: Op)
    ensures Apply(db, [op]) == ApplyOp(db, op)
  {
    assert [op][..0] == [];
  }

  lemma UpsertApplies(s: Space, db: Db, id: bytes, doc: Value, expiresAt: nat)
    ensures Apply(db, UpsertOps(s, db, id, doc, expiresAt)) == UpsertDb(s, db, id, doc, expiresAt)
  {
    hide Apply, Stale, OldEntries, PutAll, DelAll;
    var next := s.Entries(doc, id);
    var put, stale := Put(s.BodyKey(id), Cell(Body(doc), expiresAt)), Stale(OldEntries(s, db, id), next);
    ApplyConcat(db, [put] + Dels(stale), Puts(next, Cell(Ref(id), expiresAt)));
    ApplyConcat(db, [put], Dels(stale));
    ApplyOne(db, put);
    ApplyDels(db[s.BodyKey(id) := Cell(Body(doc), expiresAt)], stale);
    ApplyPuts(DelAll(db[s.BodyKey(id) := Cell(Body(doc), expiresAt)], stale), next, Cell(Ref(id), expiresAt));
  }

  lemma DeleteApplies(s: Space, db: Db, id: bytes)
    requires HasDoc(s, db, id)
    ensures Apply(db, DeleteOps(s, db, id)) == DeleteDb(s, db, id)
  {
    hide Apply, DelAll;
    var del := Del(s.BodyKey(id));
    ApplyConcat(db, [del], Dels(s.Entries(DocOf(s, db, id), id)));
    ApplyOne(db, del);
    ApplyDels(db - {s.BodyKey(id)}, s.Entries(DocOf(s, db, id), id));
  }

  lemma FreshUnderHeads(s: Space, doc: Value, id: bytes, k: bytes)
    requires k in s.Entries(doc, id)
    ensures exists i :: 0 <= i < |s.coll.indexes| && k == s.Entry(i, doc, id) && s.Head(i) <= k
  {
    var i :| 0 <= i < |s.Entries(doc, id)| && s.Entries(doc, id)[i] == k;
    EntryUnderHead(s, i, doc, id);
  }

  lemma BodyNotFresh(s: Space, doc: Value, id: bytes, other: bytes)
    ensures s.BodyKey(other) !in s.Entries(doc, id)
  {
    BodyUnderBodies(s, other);
    if s.BodyKey(other) in s.Entries(doc, id) {
      FreshUnderHeads(s, doc, id, s.BodyKey(other));
      var i :| 0 <= i < |s.coll.indexes| && s.Head(i) <= s.BodyKey(other);
      BodyNotEntry(s, i, s.BodyKey(other));
    }
  }

  lemma EntryListed(s: Space, i: nat, doc: Value, id: bytes)
    requires i < |s.coll.indexes|
    ensures s.Entry(i, doc, id) in s.Entries(doc, id)
  {
    assert s.Entries(doc, id)[i] == s.Entry(i, doc, id);
  }

  /** Every key after an upsert. */
  lemma UpsertCells(s: Space, db: Db, id: bytes, doc: Value, expiresAt: nat, k: bytes)
    ensures var r := UpsertDb(s, db, id, doc, expiresAt);
            && (k in s.Entries(doc, id) ==> k in r && r[k] == Cell(Ref(id), expiresAt))
            && (k == s.BodyKey(id) ==> k in r && r[k] == Cell(Body(doc), expiresAt))
            && (k !in s.Entries(doc, id) && k in OldEntries(s, db, id) ==> k !in r)
            && (k !in s.Entries(doc, id) && k !in OldEntries(s, db, id) && k != s.BodyKey(id) ==>
                  (k in r <==> k in db) && (k in db ==> r[k] == db[k]))
  {
    hide Stale;
    BodyNotFresh(s, doc, id, id);
    if HasDoc(s, db, id) {
      BodyNotFresh(s, DocOf(s, db, id), id, id);
    }
  }

  lemma OtherBodies(s: Space, db: Db, id: bytes, doc: Value, expiresAt: nat, other: bytes)
    requires other != id
    ensures var r := UpsertDb(s, db, id, doc, expiresAt);
            && (s.BodyKey(other) in r <==> s.BodyKey(other) in db)
            && (s.BodyKey(other) in db ==> r[s.BodyKey(other)] == db[s.BodyKey(other)])
  {
    hide UpsertDb;
    UpsertCells(s, db, id, doc, expiresAt, s.BodyKey(other));
    BodyNotFresh(s, doc, id, other);
    if s.BodyKey(other) == s.BodyKey(id) {
      BodyKeysDistinct(s, other, id);
    }
    if HasDoc(s, db, id) {
      BodyNotFresh(s, DocOf(s, db, id), id, other);
    }
  }

  lemma UpsertSoundAt(s: Space, db: Db, id: bytes, doc: Value, expiresAt: nat, i: nat, k: bytes)
    requires s.Valid() && Sound(s, db) && i < |s.coll.indexes|
    requires k in UpsertDb(s, db, id, doc, expiresAt) && s.Head(i) <= k
    ensures DerivedCell(s, UpsertDb(s, db, id, doc, expiresAt), i, k)
  {
    hide UpsertDb;
    var r := UpsertDb(s, db, id, doc, expiresAt);
    UpsertCells(s, db, id, doc, expiresAt, k);
    UpsertCells(s, db, id, doc, expiresAt, s.BodyKey(id));
    if k in s.Entries(doc, id) {
      FreshUnderHeads(s, doc, id, k);
      var j :| 0 <= j < |s.coll.indexes| && k == s.Entry(j, doc, id) && s.Head(j) <= k;
      HeadsApart(s, i, j, k);
    } else {
      if k == s.BodyKey(id) {
        BodyUnderBodies(s, id);
        BodyNotEntry(s, i, k);
      }
      assert DerivedCell(s, db, i, k);
      var owner := db[k].stored.id;
      EntryListed(s, i, DocOf(s, db, owner), owner);
      OtherBodies(s, db, id, doc, expiresAt, owner);
    }
  }

  lemma UpsertCompleteAt(s: Space, db: Db, id: bytes, doc: Value, expiresAt: nat, i: nat, other: bytes)
    requires s.Valid() && Complete(s, db) && i < |s.coll.indexes| && HasDoc(s, UpsertDb(s, db, id, doc, expiresAt), other)
    ensures s.Entry(i, DocOf(s, UpsertDb(s, db, id, doc, expiresAt), other), other) in UpsertDb(s, db, id, doc, expiresAt)
  {
    hide UpsertDb;
    if other == id {
      UpsertCells(s, db, id, doc, expiresAt, s.BodyKey(id));
      assert s.Entries(doc, id)[i] == s.Entry(i, doc, id);
      UpsertCells(s, db, id, doc, expiresAt, s.Entry(i, doc, id));
    } else {
      OtherBodies(s, db, id, doc, expiresAt, other);
      var theirs := DocOf(s, db, other);
      var k := s.Entry(i, theirs, other);
      EntryUnderHead(s, i, theirs, other);
      UpsertCells(s, db, id, doc, expiresAt, k);
      if k == s.BodyKey(id) {
        BodyUnderBodies(s, id);
        BodyNotEntry(s, i, k);
      }
      if HasDoc(s, db, id) {
        NotTheirs(s, i, theirs, other, DocOf(s, db, id), id);
      }
    }
  }

  /** An entry of one document is never an entry of another. */
  lemma NotTheirs(s: Space, i: nat, d: Value, a: bytes, e: Value, b: bytes)
    requires s.Valid() && i < |s.coll.indexes| && a != b
    ensures s.Entry(i, d, a) !in s.Entries(e, b)
  {
    var k := s.Entry(i, d, a);
    EntryUnderHead(s, i, d, a);
    if k in s.Entries(e, b) {
      FreshUnderHeads(s, e, b, k);
      var j :| 0 <= j < |s.coll.indexes| && k == s.Entry(j, e, b) && s.Head(j) <= k;
      HeadsApart(s, i, j, k);
      EntryNamesDoc(s, i, d, a, e, b);
    }
  }

  /** Upserting keeps every index exact. */
  lemma UpsertExact(s: Space, db: Db, id: bytes, doc: Value, expiresAt: nat)
    requires s.Valid() && Exact(s, db)
    ensures Exact(s, UpsertDb(s, db, id, doc, expiresAt))
  {
    hide UpsertDb, DerivedCell;
    var r := UpsertDb(s, db, id, doc, expiresAt);
    forall k | k in r && s.Bodies() <= k ensures r[k].stored.Body? {
      UpsertCells(s, db, id, doc, expiresAt, k);
      NotEntryOf(s, doc, id, k);
    }
    forall i, k | 0 <= i < |s.coll.indexes| && k in r && s.Head(i) <= k ensures DerivedCell(s, r, i, k) {
      UpsertSoundAt(s, db, id, doc, expiresAt, i, k);
    }
    forall i, other | 0 <= i < |s.coll.indexes| && HasDoc(s, r, other) ensures s.Entry(i, DocOf(s, r, other), other) in r {
      UpsertCompleteAt(s, db, id, doc, expiresAt, i, other);
    }
  }

  lemma NotEntryOf(s: Space, doc: Value, id: bytes, k: bytes)
    requires s.Bodies() <= k
    ensures k !in s.Entries(doc, id)
  {
    if k in s.Entries(doc, id) {
      FreshUnderHeads(s, doc, id, k);
      var i :| 0 <= i < |s.coll.indexes| && s.Head(i) <= k;
      BodyNotEntry(s, i, k);
    }
  }

  // ---- Deleting ----------------------------------------------------------------

  lemma DeleteCells(s: Space, db: Db, id: bytes, k: bytes)
    requires HasDoc(s, db, id)
    ensures var r := DeleteDb(s, db, id);
            && (k == s.BodyKey(id) || k in s.Entries(DocOf(s, db, id), id) ==> k !in r)
            && (k != s.BodyKey(id) && k !in s.Entries(DocOf(s, db, id), id) ==>
                  (k in r <==> k in db) && (k in db ==> r[k] == db[k]))
  {
  }

  lemma OthersKept(s: Space, db: Db, id: bytes, other: bytes)
    requires HasDoc(s, db, id) && other != id
    ensures var r := DeleteDb(s, db, id);
            && (s.BodyKey(other) in r <==> s.BodyKey(other) in db)
            && (s.BodyKey(other) in db ==> r[s.BodyKey(other)] == db[s.BodyKey(other)])
  {
    hide DeleteDb;
    DeleteCells(s, db, id, s.BodyKey(other));
    BodyNotFresh(s, DocOf(s, db, id), id, other);
    if s.BodyKey(other) == s.BodyKey(id) {
      BodyKeysDistinct(s, other, id);
    }
  }

  /** Deleting keeps every index exact. */
  lemma DeleteExact(s: Space, db: Db, id: bytes)
    requires s.Valid() && Exact(s, db) && HasDoc(s, db, id)
    ensures Exact(s, DeleteDb(s, db, id)) && !HasDoc(s, DeleteDb(s, db, id), id)
  {
    hide DeleteDb;
    var r := DeleteDb(s, db, id);
    DeleteCells(s, db, id, s.BodyKey(id));
    forall k | k in r && s.Bodies() <= k ensures r[k].stored.Body? {
      DeleteCells(s, db, id, k);
    }
    forall i, k | 0 <= i < |s.coll.indexes| && k in r && s.Head(i) <= k ensures DerivedCell(s, r, i, k) {
      DeleteSoundAt(s, db, id, i, k);
    }
    forall i, other | 0 <= i < |s.coll.indexes| && HasDoc(s, r, other) ensures s.Entry(i, DocOf(s, r, other), other) in r {
      DeleteCompleteAt(s, db, id, i, other);
    }
  }

  lemma DeleteSoundAt(s: Space, db: Db, id: bytes, i: nat, k: bytes)
    requires Sound(s, db) && HasDoc(s, db, id) && i < |s.coll.indexes| && k in DeleteDb(s, db, id) && s.Head(i) <= k
    ensures DerivedCell(s, DeleteDb(s, db, id), i, k)
  {
    hide DeleteDb;
    DeleteCells(s, db, id, k);
    assert DerivedCell(s, db, i, k);
    var owner := db[k].stored.id;
    EntryListed(s, i, DocOf(s, db, owner), owner);
    OthersKept(s, db, id, owner);
  }

  lemma DeleteCompleteAt(s: Space, db: Db, id: bytes, i: nat, other: bytes)
    requires s.Valid() && Complete(s, db) && HasDoc(s, db, id) && i < |s.coll.indexes| && HasDoc(s, DeleteDb(s, db, id), other)
    ensures s.Entry(i, DocOf(s, DeleteDb(s, db, id), other), other) in DeleteDb(s, db, id)
  {
    hide DeleteDb;
    DeleteCells(s, db, id, s.BodyKey(id));
    OthersKept(s, db, id, other);
    var theirs := DocOf(s, db, other);
    var k := s.Entry(i, theirs, other);
    EntryUnderHead(s, i, theirs, other);
    DeleteCells(s, db, id, k);
    NotTheirs(s, i, theirs, other, DocOf(s, db, id), id);
    if k == s.BodyKey(id) {
      BodyUnderBodies(s, id);
      BodyNotEntry(s, i, k);
    }
  }

  // ---- Scanning in key order ---------------------------------------------------

  function InsertEntry(entries: seq<Entry>, e: Entry): seq<Entry> {
    if entries == [] || Less(e.key, entries[0].key) then [e] + entries
    else [entries[0]] + InsertEntry(entries[1..], e)
  }

  lemma {:induction false} InsertEntrySpec(entries: seq<Entry>, e: Entry)
    requires Query.Ascending(entries) && forall x :: x in entries ==> x.key != e.key
    ensures Query.Ascending(InsertEntry(entries, e))
    ensures forall x :: x in InsertEntry(entries, e) <==> x == e || x in entries
  {
    hide Less;
    if entries != [] {
      assert entries == [entries[0]] + entries[1..];
      assert entries[0] in entries;
      LessTotal(e.key, entries[0].key);
      if Less(e.key, entries[0].key) {
        forall j | 0 <= j < |entries| ensures Less(e.key, entries[j].key) {
          if j > 0 {
            LessTransitive(e.key, entries[0].key, entries[j].key);
          }
        }
      } else {
        InsertEntrySpec(entries[1..], e);
        var rest := InsertEntry(entries[1..], e);
        forall j | 0 <= j < |rest| ensures Less(entries[0].key, rest[j].key) {
          assert rest[j] in rest;
          if rest[j] in entries[1..] {
            var m :| 0 <= m < |entries[1..]| && entries[1..][m] == rest[j];
            assert entries[m + 1] == rest[j];
          }
        }
      }
    }
  }

  /** The live entries under a prefix, in key order. */
  ghost predicate IsScan(db: Db, head: bytes, now: nat, entries: seq<Entry>) {
    && Query.Ascending(entries)
    && forall e :: e in entries <==> e.key in db && head <= e.key && db[e.key].Live(now) && db[e.key].stored == e.stored
  }

  method ScanPrefix(db: Db, head: bytes, now: nat) returns (entries: seq<Entry>)
    ensures IsScan(db, head, now, entries)
  {
    var left := db.Keys;
    entries := [];
    while left != {}
      invariant left <= db.Keys && Query.Ascending(entries)
      invariant forall e :: e in entries <==> e.key in db && e.key !in left && head <= e.key && db[e.key].Live(now) && db[e.key].stored == e.stored
      decreases |left|
    {
      var k :| k in left;
      left := left - {k};
      if head <= k && db[k].Live(now) {
        InsertEntrySpec(entries, Entry(k, db[k].stored));
        entries := InsertEntry(entries, Entry(k, db[k].stored));
      }
    }
  }

  lemma {:induction false} ScanExists(db: Db, head: bytes, now: nat) returns (entries: seq<Entry>)
    ensures IsScan(db, head, now, entries)
    decreases |db|
  {
    if db == map[] {
      entries := [];
    } else {
      var k :| k in db;
      entries := ScanExists(db - {k}, head, now);
      if head <= k && db[k].Live(now) {
        InsertEntrySpec(entries, Entry(k, db[k].stored));
        entries := InsertEntry(entries, Entry(k, db[k].stored));
      }
    }
  }

  /** A scan is determined by what it sees. */
  lemma {:induction false} AscendingUnique(a: seq<Entry>, b: seq<Entry>)
    requires Query.Ascending(a) && Query.Ascending(b) && forall e :: e in a <==> e in b
    ensures a == b
  {
    hide Less;
    assert a != [] ==> a[0] in a;
    assert b != [] ==> b[0] in b;
    if a != [] && b != [] {
      FirstSame(a, b);
      forall e ensures e in a[1..] <==> e in b[1..] {
        InRest(a, e);
        InRest(b, e);
      }
      AscendingUnique(a[1..], b[1..]);
      assert a == [a[0]] + a[1..] && b == [b[0]] + b[1..];
    }
  }

  lemma FirstSame(a: seq<Entry>, b: seq<Entry>)
    requires Query.Ascending(a) && Query.Ascending(b) && (forall e :: e in a <==> e in b) && a != [] && b != []
    ensures a[0] == b[0]
  {
    hide Less;
    assert a[0] in b && b[0] in a;
    var i :| 0 <= i < |b| && b[i] == a[0];
    var j :| 0 <= j < |a| && a[j] == b[0];
    if i > 0 && j > 0 {
      LessTransitive(a[0].key, a[j].key, a[0].key);
      LessIrreflexive(a[0].key);
    }
  }

  lemma InRest(a: seq<Entry>, e: Entry)
    requires Query.Ascending(a) && a != []
    ensures e in a[1..] <==> e in a && e != a[0]
  {
    hide Less;
    if e in a[1..] {
      var i :| 0 <= i < |a[1..]| && a[1..][i] == e;
      assert a[i + 1] == e;
      LessIrreflexive(e.key);
    }
    if e in a && e != a[0] {
      var i :| 0 <= i < |a| && a[i] == e;
      assert a[1..][i - 1] == e;
    }
  }

  lemma ScanUnique(db: Db, head: bytes, now: nat, a: seq<Entry>, b: seq<Entry>)
    requires IsScan(db, head, now, a) && Query.Ascending(b) && forall e :: e in b <==> e in a
    ensures a == b
  {
    hide Query.Ascending;
    AscendingUnique(a, b);
  }
}
