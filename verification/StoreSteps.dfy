/** Runs of document writes: counts, unique constraints, and batches of steps prepared against one
    committed state. */
module StoreSteps {
  import opened Bytes
  import opened Values
  import opened Encoding
  import opened Planner
  import opened Query
  import opened StoreState

  // ---- Counts ------------------------------------------------------------------

  datatype Counters = Counters(docs: nat, entries: seq<nat>)

  function DocKeys(s: Space, db: Db): set<bytes> {
    set k | k in db && s.Bodies() <= k
  }

  function IndexKeys(s: Space, db: Db, i: nat): set<bytes>
    requires i < |s.coll.indexes|
  {
    set k | k in db && s.Head(i) <= k
  }

  /** The counters are the true numbers of bodies and of entries in each index. */
  ghost predicate Counted(s: Space, db: Db, c: Counters) {
    && |c.entries| == |s.coll.indexes|
    && c.docs == |DocKeys(s, db)|
    && forall i :: 0 <= i < |c.entries| ==> c.entries[i] == |IndexKeys(s, db, i)|
  }

  function Saturate(n: nat, delta: int): nat {
    if n + delta < 0 then 0 else n + delta
  }

  /** One document's delta moves the document count and every entry count, stopping at zero. */
  function Bump(c: Counters, delta: int): Counters {
    Counters(Saturate(c.docs, delta), seq(|c.entries|, i requires 0 <= i < |c.entries| => Saturate(c.entries[i], delta)))
  }

  // ---- Steps -------------------------------------------------------------------

  datatype Step = Upsert(id: bytes, doc: Value, expiresAt: nat) | Delete(id: bytes) | Skip(id: bytes)

  predicate CanStep(s: Space, db: Db, step: Step) {
    step.Delete? ==> HasDoc(s, db, step.id)
  }

  function StepOps(s: Space, db: Db, step: Step): seq<Op>
    requires CanStep(s, db, step)
  {
    match step
    case Upsert(id, doc, expiresAt) => UpsertOps(s, db, id, doc, expiresAt)
    case Delete(id) => DeleteOps(s, db, id)
    case Skip(_) => []
  }

  function StepDelta(s: Space, db: Db, step: Step): int {
    match step
    case Upsert(id, _, _) => if HasDoc(s, db, id) then 0 else 1
    case Delete(_) => -1
    case Skip(_) => 0
  }

  function StepDb(s: Space, db: Db, step: Step): Db
    requires CanStep(s, db, step)
  {
    match step
    case Upsert(id, doc, expiresAt) => UpsertDb(s, db, id, doc, expiresAt)
    case Delete(id) => DeleteDb(s, db, id)
    case Skip(_) => db
  }

  lemma StepApplies(s: Space, db: Db, step: Step)
    requires CanStep(s, db, step)
    ensures Apply(db, StepOps(s, db, step)) == StepDb(s, db, step)
  {
    match step {
      case Upsert(id, doc, expiresAt) => UpsertApplies(s, db, id, doc, expiresAt);
      case Delete(id) => DeleteApplies(s, db, id);
      case Skip(_) =>
    }
  }

  lemma StepExact(s: Space, db: Db, step: Step)
    requires s.Valid() && Exact(s, db) && CanStep(s, db, step)
    ensures Exact(s, StepDb(s, db, step))
  {
    match step {
      case Upsert(id, doc, expiresAt) => UpsertExact(s, db, id, doc, expiresAt);
      case Delete(id) => DeleteExact(s, db, id);
      case Skip(_) =>
    }
  }

  /** A step leaves every other document's body alone. */
  lemma StepElsewhere(s: Space, db: Db, step: Step, other: bytes)
    requires CanStep(s, db, step) && other != step.id
    ensures s.BodyKey(other) in StepDb(s, db, step) <==> s.BodyKey(other) in db
    ensures s.BodyKey(other) in db ==> StepDb(s, db, step)[s.BodyKey(other)] == db[s.BodyKey(other)]
  {
    match step {
      case Upsert(id, doc, expiresAt) => OtherBodies(s, db, id, doc, expiresAt, other);
      case Delete(id) => OthersKept(s, db, id, other);
      case Skip(_) =>
    }
  }

  /** Two states hold the same body for a document. */
  predicate SameBody(s: Space, a: Db, b: Db, id: bytes) {
    (s.BodyKey(id) in a <==> s.BodyKey(id) in b) && (s.BodyKey(id) in a ==> a[s.BodyKey(id)] == b[s.BodyKey(id)])
  }

  /** Writes prepared against one state are right for any state with the same body. */
  lemma StepStable(s: Space, a: Db, b: Db, step: Step)
    requires SameBody(s, a, b, step.id)
    ensures CanStep(s, a, step) <==> CanStep(s, b, step)
    ensures StepDelta(s, a, step) == StepDelta(s, b, step)
    ensures CanStep(s, a, step) ==> StepOps(s, a, step) == StepOps(s, b, step)
  {
    assert HasDoc(s, a, step.id) <==> HasDoc(s, b, step.id);
    assert HasDoc(s, a, step.id) ==> DocOf(s, a, step.id) == DocOf(s, b, step.id);
  }

  // ---- Counting a step ---------------------------------------------------------

  lemma SetAdd(a: set<bytes>, b: set<bytes>, k: bytes)
    requires b == a + {k}
    ensures |b| == |a| + if k in a then 0 else 1
  {
    if k in a {
      assert b == a;
    }
  }

  lemma SetRemove(a: set<bytes>, b: set<bytes>, k: bytes)
    requires b == a - {k} && k in a
    ensures |b| == |a| - 1
  {
    assert a == b + {k};
  }

  lemma UpsertDocKeys(s: Space, db: Db, id: bytes, doc: Value, expiresAt: nat)
    requires BodiesTyped(s, db)
    ensures DocKeys(s, UpsertDb(s, db, id, doc, expiresAt)) == DocKeys(s, db) + {s.BodyKey(id)}
    ensures HasDoc(s, db, id) <==> s.BodyKey(id) in DocKeys(s, db)
  {
    hide UpsertDb;
    var r := UpsertDb(s, db, id, doc, expiresAt);
    BodyUnderBodies(s, id);
    forall k ensures k in DocKeys(s, r) <==> k in DocKeys(s, db) + {s.BodyKey(id)} {
      UpsertCells(s, db, id, doc, expiresAt, k);
      if s.Bodies() <= k {
        NotEntryOf(s, doc, id, k);
        if HasDoc(s, db, id) {
          NotEntryOf(s, DocOf(s, db, id), id, k);
        }
      }
    }
  }

  lemma OnlyEntryUnder(s: Space, doc: Value, id: bytes, i: nat, k: bytes)
    requires s.Valid() && i < |s.coll.indexes| && s.Head(i) <= k
    ensures k in s.Entries(doc, id) <==> k == s.Entry(i, doc, id)
    ensures k != s.BodyKey(id)
  {
    BodyUnderBodies(s, id);
    if k == s.BodyKey(id) {
      BodyNotEntry(s, i, k);
    }
    EntryListed(s, i, doc, id);
    if k in s.Entries(doc, id) {
      FreshUnderHeads(s, doc, id, k);
      var j :| 0 <= j < |s.coll.indexes| && k == s.Entry(j, doc, id) && s.Head(j) <= k;
      HeadsApart(s, i, j, k);
    }
  }

  /** Keys of an index after an upsert: the document's old entry gone, its new one in. */
  lemma UpsertIndexKeyAt(s: Space, db: Db, id: bytes, doc: Value, expiresAt: nat, i: nat, k: bytes)
    requires s.Valid() && i < |s.coll.indexes|
    ensures k in IndexKeys(s, UpsertDb(s, db, id, doc, expiresAt), i) <==>
            || k == s.Entry(i, doc, id)
            || (k in IndexKeys(s, db, i) && !(HasDoc(s, db, id) && k == s.Entry(i, DocOf(s, db, id), id)))
  {
    hide UpsertDb;
    EntryUnderHead(s, i, doc, id);
    UpsertCells(s, db, id, doc, expiresAt, k);
    if s.Head(i) <= k {
      OnlyEntryUnder(s, doc, id, i, k);
      if HasDoc(s, db, id) {
        OnlyEntryUnder(s, DocOf(s, db, id), id, i, k);
      }
    }
  }

  lemma UpsertIndexKeys(s: Space, db: Db, id: bytes, doc: Value, expiresAt: nat, i: nat)
    requires s.Valid() && Exact(s, db) && i < |s.coll.indexes|
    ensures |IndexKeys(s, UpsertDb(s, db, id, doc, expiresAt), i)| == |IndexKeys(s, db, i)| + if HasDoc(s, db, id) then 0 else 1
  {
    hide *;
    OwnedEntry(s, db, id, doc, i);
    var was, now := IndexKeys(s, db, i), IndexKeys(s, UpsertDb(s, db, id, doc, expiresAt), i);
    var k' := s.Entry(i, doc, id);
    InIndex(s, db, i, doc, id);
    var kept := if HasDoc(s, db, id) then was - {s.Entry(i, DocOf(s, db, id), id)} else was;
    forall k ensures k in now <==> k in kept + {k'} {
      UpsertIndexKeyAt(s, db, id, doc, expiresAt, i, k);
    }
    SetAdd(kept, now, k');
    if HasDoc(s, db, id) {
      SetRemove(was, kept, s.Entry(i, DocOf(s, db, id), id));
    }
  }

  lemma InIndex(s: Space, db: Db, i: nat, doc: Value, id: bytes)
    requires i < |s.coll.indexes|
    ensures s.Entry(i, doc, id) in IndexKeys(s, db, i) <==> s.Entry(i, doc, id) in db
  {
    EntryUnderHead(s, i, doc, id);
  }

  /** In an exact state a document's only possible entry in an index is its own. */
  lemma OwnedEntry(s: Space, db: Db, id: bytes, doc: Value, i: nat)
    requires s.Valid() && Exact(s, db) && i < |s.coll.indexes|
    ensures s.Entry(i, doc, id) in db ==> HasDoc(s, db, id) && s.Entry(i, doc, id) == s.Entry(i, DocOf(s, db, id), id)
    ensures HasDoc(s, db, id) ==> s.Entry(i, DocOf(s, db, id), id) in IndexKeys(s, db, i)
  {
    var k := s.Entry(i, doc, id);
    EntryUnderHead(s, i, doc, id);
    if k in db {
      assert DerivedCell(s, db, i, k);
      var owner := db[k].stored.id;
      EntryNamesDoc(s, i, doc, id, DocOf(s, db, owner), owner);
    }
    if HasDoc(s, db, id) {
      EntryUnderHead(s, i, DocOf(s, db, id), id);
    }
  }

  lemma DeleteDocKeys(s: Space, db: Db, id: bytes)
    requires HasDoc(s, db, id)
    ensures DocKeys(s, DeleteDb(s, db, id)) == DocKeys(s, db) - {s.BodyKey(id)}
    ensures s.BodyKey(id) in DocKeys(s, db)
  {
    hide DeleteDb;
    BodyUnderBodies(s, id);
    forall k ensures k in DocKeys(s, DeleteDb(s, db, id)) <==> k in DocKeys(s, db) - {s.BodyKey(id)} {
      DeleteCells(s, db, id, k);
      if s.Bodies() <= k {
        NotEntryOf(s, DocOf(s, db, id), id, k);
      }
    }
  }

  lemma DeleteIndexKeys(s: Space, db: Db, id: bytes, i: nat)
    requires s.Valid() && Exact(s, db) && HasDoc(s, db, id) && i < |s.coll.indexes|
    ensures |IndexKeys(s, DeleteDb(s, db, id), i)| == |IndexKeys(s, db, i)| - 1
  {
    hide DeleteDb, Sound, Complete;
    var was, now := IndexKeys(s, db, i), IndexKeys(s, DeleteDb(s, db, id), i);
    var doc := DocOf(s, db, id);
    forall k ensures k in now <==> k in was - {s.Entry(i, doc, id)} {
      DeleteCells(s, db, id, k);
      if s.Head(i) <= k {
        OnlyEntryUnder(s, doc, id, i, k);
      }
    }
    OwnedEntry(s, db, id, doc, i);
    SetRemove(was, now, s.Entry(i, doc, id));
  }

  /** Adding a step's delta to true counts gives true counts; saturation never bites. */
  lemma StepCounted(s: Space, db: Db, step: Step, c: Counters)
    requires s.Valid() && Exact(s, db) && CanStep(s, db, step) && Counted(s, db, c)
    ensures Counted(s, StepDb(s, db, step), Bump(c, StepDelta(s, db, step)))
  {
    hide UpsertDb, DeleteDb, Sound, Complete, IndexKeys, DocKeys;
    match step {
      case Upsert(id, doc, expiresAt) =>
        UpsertDocKeys(s, db, id, doc, expiresAt);
        SetAdd(DocKeys(s, db), DocKeys(s, UpsertDb(s, db, id, doc, expiresAt)), s.BodyKey(id));
        forall i | 0 <= i < |s.coll.indexes|
          ensures |IndexKeys(s, UpsertDb(s, db, id, doc, expiresAt), i)| == |IndexKeys(s, db, i)| + StepDelta(s, db, step)
        {
          UpsertIndexKeys(s, db, id, doc, expiresAt, i);
        }
      case Delete(id) =>
        DeleteDocKeys(s, db, id);
        SetRemove(DocKeys(s, db), DocKeys(s, DeleteDb(s, db, id)), s.BodyKey(id));
        forall i | 0 <= i < |s.coll.indexes| ensures |IndexKeys(s, DeleteDb(s, db, id), i)| == |IndexKeys(s, db, i)| - 1 {
          DeleteIndexKeys(s, db, id, i);
        }
      case Skip(_) =>
    }
  }

  // ---- Unique indexes ----------------------------------------------------------

  function Encoded(s: Space, i: nat, doc: Value): bytes
    requires i < |s.coll.indexes|
  {
    EncodeFields(FieldValues(doc, s.coll.indexes[i].fields), s.coll.indexes[i].Ascending())
  }

  predicate LiveDoc(s: Space, db: Db, now: nat, id: bytes) {
    HasDoc(s, db, id) && db[s.BodyKey(id)].Live(now)
  }

  ghost predicate Unique(s: Space, db: Db, now: nat) {
    forall i, a, b :: 0 <= i < |s.coll.indexes| && s.coll.indexes[i].unique && a != b && LiveDoc(s, db, now, a) && LiveDoc(s, db, now, b) ==>
      Encoded(s, i, DocOf(s, db, a)) != Encoded(s, i, DocOf(s, db, b))
  }

  /** A live entry for `enc` in the index belongs to another document. */
  predicate Conflict(s: Space, db: Db, now: nat, i: nat, enc: bytes, id: bytes)
    requires i < |s.coll.indexes|
  {
    exists k | k in db :: InRange(k, s.Head(i) + enc, UpperBound(s.Head(i) + enc)) && db[k].Live(now) && db[k].stored != Ref(id)
  }

  lemma EncodedAgree(s: Space, i: nat, d: Value, e: Value, id: bytes)
    requires i < |s.coll.indexes|
    ensures s.Head(i) + Encoded(s, i, d) <= s.Entry(i, e, id) <==> Encoded(s, i, d) == Encoded(s, i, e)
  {
    hide EncodeFields;
    var idx, head := s.coll.indexes[i], s.Head(i);
    var us, vs := FieldValues(e, idx.fields), FieldValues(d, idx.fields);
    FragmentBounds(head, us, vs, idx.Ascending(), id);
    UnderUpperBound(head + Encoded(s, i, d), s.Entry(i, e, id));
    PrefixRange(head + Encoded(s, i, d), s.Entry(i, e, id));
    assert us[..|vs|] == us;
    FieldsOrder(us, vs, idx.Ascending());
    RealisesCompares(CmpFields(us, vs, idx.Ascending()), Encoded(s, i, e), Encoded(s, i, d));
  }

  /** Scanning an exact index finds another live document exactly when one shares the value. */
  lemma ConflictExact(s: Space, db: Db, now: nat, i: nat, doc: Value, id: bytes)
    requires s.Valid() && Exact(s, db) && i < |s.coll.indexes|
    ensures Conflict(s, db, now, i, Encoded(s, i, doc), id) <==>
            exists other :: other != id && LiveDoc(s, db, now, other) && Encoded(s, i, DocOf(s, db, other)) == Encoded(s, i, doc)
  {
    hide Encoded, InRange;
    var p := s.Head(i) + Encoded(s, i, doc);
    if Conflict(s, db, now, i, Encoded(s, i, doc), id) {
      var k :| k in db && InRange(k, p, UpperBound(p)) && db[k].Live(now) && db[k].stored != Ref(id);
      PrefixRange(p, k);
      assert s.Head(i) <= p <= k;
      assert DerivedCell(s, db, i, k);
      EncodedAgree(s, i, doc, DocOf(s, db, db[k].stored.id), db[k].stored.id);
    }
    if exists other :: other != id && LiveDoc(s, db, now, other) && Encoded(s, i, DocOf(s, db, other)) == Encoded(s, i, doc) {
      var other :| other != id && LiveDoc(s, db, now, other) && Encoded(s, i, DocOf(s, db, other)) == Encoded(s, i, doc);
      var k := s.Entry(i, DocOf(s, db, other), other);
      EntryUnderHead(s, i, DocOf(s, db, other), other);
      assert DerivedCell(s, db, i, k);
      EntryNamesDoc(s, i, DocOf(s, db, other), other, DocOf(s, db, db[k].stored.id), db[k].stored.id);
      EncodedAgree(s, i, doc, DocOf(s, db, other), other);
      PrefixRange(p, k);
    }
  }

  // ---- Batches of steps --------------------------------------------------------

  ghost predicate DistinctIds(steps: seq<Step>) {
    forall i, j :: 0 <= i < j < |steps| ==> steps[i].id != steps[j].id
  }

  /** Every step can be taken from the state it was prepared against, and a document named twice gets
      the same step both times. */
  ghost predicate Prepared(s: Space, db: Db, steps: seq<Step>) {
    && (forall j :: 0 <= j < |steps| ==> CanStep(s, db, steps[j]))
    && (forall i, j :: 0 <= i < j < |steps| && steps[i].id == steps[j].id ==> steps[i] == steps[j])
  }

  /** The state after the first `n` steps, each skipped if it cannot be taken. */
  function Run(s: Space, db: Db, steps: seq<Step>, n: nat): Db
    requires n <= |steps|
  {
    if n == 0 then db
    else
      var before := Run(s, db, steps, n - 1);
      if CanStep(s, before, steps[n - 1]) then StepDb(s, before, steps[n - 1]) else before
  }

  /** Until its own step, a document's body is as it was prepared. */
  lemma {:induction false} RunElsewhere(s: Space, db: Db, steps: seq<Step>, n: nat, id: bytes)
    requires n <= |steps| && forall j :: 0 <= j < n ==> steps[j].id != id
    ensures SameBody(s, Run(s, db, steps, n), db, id)
  {
    if n > 0 {
      RunElsewhere(s, db, steps, n - 1, id);
      var before := Run(s, db, steps, n - 1);
      if CanStep(s, before, steps[n - 1]) {
        StepElsewhere(s, before, steps[n - 1], id);
      }
    }
  }

  lemma {:induction false} RunExact(s: Space, db: Db, steps: seq<Step>, n: nat)
    requires n <= |steps| && s.Valid() && Exact(s, db)
    ensures Exact(s, Run(s, db, steps, n))
  {
    hide StepDb, Exact;
    if n > 0 {
      RunExact(s, db, steps, n - 1);
      var before := Run(s, db, steps, n - 1);
      if CanStep(s, before, steps[n - 1]) {
        StepExact(s, before, steps[n - 1]);
      }
    }
  }

  // ---- Steps taken twice -------------------------------------------------------

  /** The document already is as the step leaves it. */
  predicate Settled(s: Space, db: Db, step: Step) {
    match step
    case Upsert(id, doc, expiresAt) => s.BodyKey(id) in db && db[s.BodyKey(id)] == Cell(Body(doc), expiresAt)
    case Delete(id) => s.BodyKey(id) !in db
    case Skip(_) => true
  }

  lemma StepSettles(s: Space, db: Db, step: Step)
    requires CanStep(s, db, step)
    ensures Settled(s, StepDb(s, db, step), step)
  {
    hide UpsertDb, DeleteDb;
    match step {
      case Upsert(id, doc, expiresAt) => UpsertCells(s, db, id, doc, expiresAt, s.BodyKey(id));
      case Delete(id) => DeleteCells(s, db, id, s.BodyKey(id));
      case Skip(_) =>
    }
  }

  lemma PutAgain(db: Db, keys: seq<bytes>, cell: Cell)
    requires forall k :: k in keys ==> k in db && db[k] == cell
    ensures PutAll(db, keys, cell) == db
  {
  }

  lemma DelAgain(db: Db, keys: seq<bytes>)
    requires forall k :: k in keys ==> k !in db
    ensures DelAll(db, keys) == db
  {
  }

  /** In an exact state a settled document's entries are its own, and no others name it. */
  lemma SettledEntries(s: Space, db: Db, id: bytes, doc: Value, other: Value)
    requires s.Valid() && Exact(s, db) && HasDoc(s, db, id) && DocOf(s, db, id) == doc
    ensures forall k :: k in s.Entries(doc, id) ==> k in db && db[k] == Cell(Ref(id), ExpiryOf(s, db, id))
    ensures forall k :: k in s.Entries(other, id) && k !in s.Entries(doc, id) ==> k !in db
  {
    hide Exact;
    forall k | k in s.Entries(doc, id) ensures k in db && db[k] == Cell(Ref(id), ExpiryOf(s, db, id)) {
      FreshUnderHeads(s, doc, id, k);
      var i :| 0 <= i < |s.coll.indexes| && k == s.Entry(i, doc, id) && s.Head(i) <= k;
      OwnCell(s, db, id, i);
    }
    forall k | k in s.Entries(other, id) && k !in s.Entries(doc, id) ensures k !in db {
      FreshUnderHeads(s, other, id, k);
      var i :| 0 <= i < |s.coll.indexes| && k == s.Entry(i, other, id) && s.Head(i) <= k;
      OwnedEntry(s, db, id, other, i);
      EntryListed(s, i, doc, id);
    }
  }

  lemma OwnCell(s: Space, db: Db, id: bytes, i: nat)
    requires s.Valid() && Exact(s, db) && HasDoc(s, db, id) && i < |s.coll.indexes|
    ensures var k := s.Entry(i, DocOf(s, db, id), id); k in db && db[k] == Cell(Ref(id), ExpiryOf(s, db, id))
  {
    var k := s.Entry(i, DocOf(s, db, id), id);
    EntryUnderHead(s, i, DocOf(s, db, id), id);
    assert DerivedCell(s, db, i, k);
    var owner := db[k].stored.id;
    EntryNamesDoc(s, i, DocOf(s, db, id), id, DocOf(s, db, owner), owner);
  }

  lemma NoEntryLeft(s: Space, db: Db, id: bytes, doc: Value)
    requires s.Valid() && Exact(s, db) && !HasDoc(s, db, id)
    ensures forall k :: k in s.Entries(doc, id) ==> k !in db
  {
    hide Exact;
    forall k | k in s.Entries(doc, id) ensures k !in db {
      FreshUnderHeads(s, doc, id, k);
      var i :| 0 <= i < |s.coll.indexes| && k == s.Entry(i, doc, id) && s.Head(i) <= k;
      OwnedEntry(s, db, id, doc, i);
    }
  }

  lemma UpsertAgain(s: Space, first: Db, db: Db, id: bytes, doc: Value, expiresAt: nat)
    requires s.Valid() && Exact(s, db) && Settled(s, db, Upsert(id, doc, expiresAt))
    ensures Apply(db, UpsertOps(s, first, id, doc, expiresAt)) == db
  {
    hide Apply, Exact, Stale, PutAll, DelAll;
    var next := s.Entries(doc, id);
    var put, stale := Put(s.BodyKey(id), Cell(Body(doc), expiresAt)), Stale(OldEntries(s, first, id), next);
    ApplyConcat(db, [put] + Dels(stale), Puts(next, Cell(Ref(id), expiresAt)));
    ApplyConcat(db, [put], Dels(stale));
    ApplyOne(db, put);
    assert db[s.BodyKey(id) := Cell(Body(doc), expiresAt)] == db;
    ApplyDels(db, stale);
    ApplyPuts(db, next, Cell(Ref(id), expiresAt));
    SettledEntries(s, db, id, doc, if HasDoc(s, first, id) then DocOf(s, first, id) else doc);
    DelAgain(db, stale);
    PutAgain(db, next, Cell(Ref(id), expiresAt));
  }

  lemma DeleteAgain(s: Space, first: Db, db: Db, id: bytes)
    requires s.Valid() && Exact(s, db) && HasDoc(s, first, id) && Settled(s, db, Delete(id))
    ensures Apply(db, DeleteOps(s, first, id)) == db
  {
    hide Apply, Exact, DelAll;
    var entries := s.Entries(DocOf(s, first, id), id);
    ApplyConcat(db, [Del(s.BodyKey(id))], Dels(entries));
    ApplyOne(db, Del(s.BodyKey(id)));
    assert db - {s.BodyKey(id)} == db;
    ApplyDels(db, entries);
    NoEntryLeft(s, db, id, DocOf(s, first, id));
    DelAgain(db, entries);
  }

  /** The operations prepared for a step do nothing once the step is settled. */
  lemma SettledApplies(s: Space, first: Db, db: Db, step: Step)
    requires s.Valid() && Exact(s, db) && CanStep(s, first, step) && Settled(s, db, step)
    ensures Apply(db, StepOps(s, first, step)) == db
    ensures CanStep(s, db, step) ==> StepDb(s, db, step) == db
  {
    hide Exact, UpsertOps, DeleteOps, UpsertDb, DeleteDb;
    match step {
      case Upsert(id, doc, expiresAt) =>
        UpsertAgain(s, first, db, id, doc, expiresAt);
        UpsertAgain(s, db, db, id, doc, expiresAt);
        UpsertApplies(s, db, id, doc, expiresAt);
      case Delete(id) => DeleteAgain(s, first, db, id);
      case Skip(_) =>
    }
  }

  lemma {:induction false} RunSettled(s: Space, db: Db, steps: seq<Step>, n: nat, j: nat)
    requires j < n <= |steps| && s.Valid() && Exact(s, db) && Prepared(s, db, steps)
    ensures Settled(s, Run(s, db, steps, n), steps[j])
    decreases n, 0
  {
    hide Exact, StepDb, StepOps, Settled;
    var before, step := Run(s, db, steps, n - 1), steps[n - 1];
    if j == n - 1 {
      RunStep(s, db, steps, n - 1);
    } else {
      RunSettled(s, db, steps, n - 1, j);
      if step.id == steps[j].id {
        RunExact(s, db, steps, n - 1);
        SettledApplies(s, db, before, step);
      } else if CanStep(s, before, step) {
        SettledElsewhere(s, before, step, steps[j]);
      }
    }
  }

  lemma SettledElsewhere(s: Space, db: Db, step: Step, other: Step)
    requires CanStep(s, db, step) && step.id != other.id && Settled(s, db, other)
    ensures Settled(s, StepDb(s, db, step), other)
  {
    hide StepDb;
    StepElsewhere(s, db, step, other.id);
  }

  /** Each prepared write does its step, or nothing when the step was already taken. */
  lemma {:induction false} RunStep(s: Space, db: Db, steps: seq<Step>, n: nat)
    requires n < |steps| && s.Valid() && Exact(s, db) && Prepared(s, db, steps)
    ensures Apply(Run(s, db, steps, n), StepOps(s, db, steps[n])) == Run(s, db, steps, n + 1)
    ensures Settled(s, Run(s, db, steps, n + 1), steps[n])
    decreases n, 1
  {
    hide Exact, StepDb, StepOps, Settled;
    var before := Run(s, db, steps, n);
    if j :| 0 <= j < n && steps[j].id == steps[n].id {
      RunSettled(s, db, steps, n, j);
      RunExact(s, db, steps, n);
      SettledApplies(s, db, before, steps[n]);
    } else {
      RunElsewhere(s, db, steps, n, steps[n].id);
      StepStable(s, before, db, steps[n]);
      StepApplies(s, before, steps[n]);
      StepSettles(s, before, steps[n]);
    }
  }

  // ---- Counting a run ----------------------------------------------------------

  /** Counters after the first `n` writes, each adding the delta it was prepared with. */
  function Tally(s: Space, db: Db, c: Counters, steps: seq<Step>, n: nat): Counters
    requires n <= |steps|
  {
    if n == 0 then c else Bump(Tally(s, db, c, steps, n - 1), StepDelta(s, db, steps[n - 1]))
  }

  /** What step `n` really adds, in the state it is taken from. */
  function TrueDelta(s: Space, db: Db, steps: seq<Step>, n: nat): int
    requires n < |steps|
  {
    var before := Run(s, db, steps, n);
    if CanStep(s, before, steps[n]) then StepDelta(s, before, steps[n]) else 0
  }

  function TrueTally(s: Space, db: Db, c: Counters, steps: seq<Step>, n: nat): Counters
    requires n <= |steps|
  {
    if n == 0 then c else Bump(TrueTally(s, db, c, steps, n - 1), TrueDelta(s, db, steps, n - 1))
  }

  lemma BumpZero(c: Counters)
    ensures Bump(c, 0) == c
  {
  }

  lemma {:induction false} RunCounted(s: Space, db: Db, c: Counters, steps: seq<Step>, n: nat)
    requires n <= |steps| && s.Valid() && Exact(s, db) && Counted(s, db, c)
    ensures Counted(s, Run(s, db, steps, n), TrueTally(s, db, c, steps, n))
  {
    hide StepDb, Exact, Counted, Bump, StepDelta;
    if n > 0 {
      RunCounted(s, db, c, steps, n - 1);
      RunExact(s, db, steps, n - 1);
      var before := Run(s, db, steps, n - 1);
      if CanStep(s, before, steps[n - 1]) {
        StepCounted(s, before, steps[n - 1], TrueTally(s, db, c, steps, n - 1));
      } else {
        BumpZero(TrueTally(s, db, c, steps, n - 1));
      }
    }
  }

  lemma CountsUnique(s: Space, db: Db, c: Counters, d: Counters)
    requires Counted(s, db, c)
    ensures Counted(s, db, d) <==> d == c
  {
    hide DocKeys, IndexKeys;
    if Counted(s, db, d) {
      assert d.entries == c.entries;
    }
  }

  /** The counters are true after a run exactly when the deltas prepared are those taken. */
  lemma TallyExact(s: Space, db: Db, c: Counters, steps: seq<Step>, n: nat)
    requires n <= |steps| && s.Valid() && Exact(s, db) && Counted(s, db, c)
    ensures Counted(s, Run(s, db, steps, n), Tally(s, db, c, steps, n)) <==> Tally(s, db, c, steps, n) == TrueTally(s, db, c, steps, n)
  {
    hide Run, Exact, Counted, Tally, TrueTally;
    RunCounted(s, db, c, steps, n);
    CountsUnique(s, Run(s, db, steps, n), TrueTally(s, db, c, steps, n), Tally(s, db, c, steps, n));
  }

  lemma {:induction false} DistinctTally(s: Space, db: Db, c: Counters, steps: seq<Step>, n: nat)
    requires n <= |steps| && DistinctIds(steps) && Prepared(s, db, steps)
    ensures Tally(s, db, c, steps, n) == TrueTally(s, db, c, steps, n)
  {
    hide Bump, StepDelta, Run;
    if n > 0 {
      DistinctTally(s, db, c, steps, n - 1);
      RunElsewhere(s, db, steps, n - 1, steps[n - 1].id);
      StepStable(s, Run(s, db, steps, n - 1), db, steps[n - 1]);
    }
  }

  // ---- Unique constraints over a run -------------------------------------------

  /** No other live document holds the unique values of `doc`. */
  ghost predicate Free(s: Space, db: Db, now: nat, doc: Value, id: bytes) {
    forall i, other :: 0 <= i < |s.coll.indexes| && s.coll.indexes[i].unique && other != id && LiveDoc(s, db, now, other) ==>
      Encoded(s, i, DocOf(s, db, other)) != Encoded(s, i, doc)
  }

  ghost predicate Apart(s: Space, d: Value, e: Value) {
    forall i :: 0 <= i < |s.coll.indexes| && s.coll.indexes[i].unique ==> Encoded(s, i, d) != Encoded(s, i, e)
  }

  /** No upserted document takes a unique value another live document holds, or another step takes. */
  ghost predicate Unclaimed(s: Space, db: Db, now: nat, steps: seq<Step>) {
    && (forall j :: 0 <= j < |steps| && steps[j].Upsert? ==> Free(s, db, now, steps[j].doc, steps[j].id))
    && (forall j, k :: 0 <= j < k < |steps| && steps[j].Upsert? && steps[k].Upsert? ==> Apart(s, steps[j].doc, steps[k].doc))
  }

  /** Where a live document of a run came from: its own step, or the prepared state. */
  ghost predicate Origin(s: Space, db: Db, steps: seq<Step>, n: nat, id: bytes, doc: Value, now: nat)
    requires n <= |steps|
  {
    || Wrote(steps, n, id, doc)
    || (LiveDoc(s, db, now, id) && DocOf(s, db, id) == doc)
  }

  /** One step either wrote the document or left it as it was. */
  lemma StepOrigin(s: Space, db: Db, step: Step, id: bytes, now: nat)
    requires CanStep(s, db, step) && LiveDoc(s, StepDb(s, db, step), now, id)
    ensures || (step.Upsert? && step.id == id && step.doc == DocOf(s, StepDb(s, db, step), id))
            || (LiveDoc(s, db, now, id) && DocOf(s, db, id) == DocOf(s, StepDb(s, db, step), id))
  {
    hide StepDb;
    if step.id != id {
      StepElsewhere(s, db, step, id);
    } else {
      StepOutcome(s, db, step);
    }
  }

  lemma OriginGrows(s: Space, db: Db, steps: seq<Step>, n: nat, id: bytes, doc: Value, now: nat)
    requires n < |steps|
    ensures Origin(s, db, steps, n, id, doc, now) ==> Origin(s, db, steps, n + 1, id, doc, now)
    ensures steps[n].Upsert? && steps[n].id == id && steps[n].doc == doc ==> Origin(s, db, steps, n + 1, id, doc, now)
  {
    hide LiveDoc;
  }

  lemma {:induction false} RunOrigin(s: Space, db: Db, steps: seq<Step>, n: nat, id: bytes, now: nat)
    requires n <= |steps| && LiveDoc(s, Run(s, db, steps, n), now, id)
    ensures Origin(s, db, steps, n, id, DocOf(s, Run(s, db, steps, n), id), now)
  {
    hide StepDb, CanStep, Wrote;
    if n > 0 {
      var before, step := Run(s, db, steps, n - 1), steps[n - 1];
      OriginGrows(s, db, steps, n - 1, id, DocOf(s, Run(s, db, steps, n), id), now);
      if CanStep(s, before, step) {
        StepOrigin(s, before, step, id, now);
      }
      if LiveDoc(s, before, now, id) {
        RunOrigin(s, db, steps, n - 1, id, now);
      }
    }
  }

  lemma StepOutcome(s: Space, db: Db, step: Step)
    requires CanStep(s, db, step)
    ensures step.Upsert? ==> HasDoc(s, StepDb(s, db, step), step.id) && DocOf(s, StepDb(s, db, step), step.id) == step.doc
    ensures step.Delete? ==> !HasDoc(s, StepDb(s, db, step), step.id)
    ensures step.Skip? ==> StepDb(s, db, step) == db
  {
    hide UpsertDb, DeleteDb;
    match step {
      case Upsert(id, doc, expiresAt) => UpsertCells(s, db, id, doc, expiresAt, s.BodyKey(id));
      case Delete(id) => DeleteCells(s, db, id, s.BodyKey(id));
      case Skip(_) =>
    }
  }

  /** Unique indexes stay free of duplicates in every state of the run, whatever mixture of old and
      new documents it holds. */
  lemma RunUnique(s: Space, db: Db, steps: seq<Step>, n: nat, now: nat)
    requires n <= |steps| && Unique(s, db, now) && Unclaimed(s, db, now, steps)
    ensures Unique(s, Run(s, db, steps, n), now)
  {
    hide Run, Encoded;
    var r := Run(s, db, steps, n);
    forall i, a, b | 0 <= i < |s.coll.indexes| && s.coll.indexes[i].unique && a != b && LiveDoc(s, r, now, a) && LiveDoc(s, r, now, b)
      ensures Encoded(s, i, DocOf(s, r, a)) != Encoded(s, i, DocOf(s, r, b))
    {
      RunOrigin(s, db, steps, n, a, now);
      RunOrigin(s, db, steps, n, b, now);
      OriginsApart(s, db, steps, n, now, i, a, DocOf(s, r, a), b, DocOf(s, r, b));
    }
  }

  lemma FreeApart(s: Space, db: Db, now: nat, i: nat, doc: Value, id: bytes, other: bytes)
    requires Free(s, db, now, doc, id) && i < |s.coll.indexes| && s.coll.indexes[i].unique && other != id && LiveDoc(s, db, now, other)
    ensures Encoded(s, i, DocOf(s, db, other)) != Encoded(s, i, doc)
  {
    hide Encoded, LiveDoc;
  }

  lemma UniqueApart(s: Space, db: Db, now: nat, i: nat, a: bytes, b: bytes)
    requires Unique(s, db, now) && i < |s.coll.indexes| && s.coll.indexes[i].unique && a != b && LiveDoc(s, db, now, a) && LiveDoc(s, db, now, b)
    ensures Encoded(s, i, DocOf(s, db, a)) != Encoded(s, i, DocOf(s, db, b))
  {
    hide Encoded, LiveDoc;
  }

  lemma StepFree(s: Space, db: Db, now: nat, steps: seq<Step>, j: nat)
    requires Unclaimed(s, db, now, steps) && j < |steps| && steps[j].Upsert?
    ensures Free(s, db, now, steps[j].doc, steps[j].id)
  {
    hide Free, Apart;
  }

  lemma StepsApart(s: Space, db: Db, now: nat, steps: seq<Step>, j: nat, k: nat, i: nat)
    requires Unclaimed(s, db, now, steps) && j < |steps| && k < |steps| && j != k && steps[j].Upsert? && steps[k].Upsert?
    requires i < |s.coll.indexes| && s.coll.indexes[i].unique
    ensures Encoded(s, i, steps[j].doc) != Encoded(s, i, steps[k].doc)
  {
    hide Free, Encoded;
    assert Apart(s, steps[j].doc, steps[k].doc) || Apart(s, steps[k].doc, steps[j].doc);
  }

  ghost predicate Wrote(steps: seq<Step>, n: nat, id: bytes, doc: Value)
    requires n <= |steps|
  {
    exists j :: 0 <= j < n && steps[j].Upsert? && steps[j].id == id && steps[j].doc == doc
  }

  lemma OriginsApart(s: Space, db: Db, steps: seq<Step>, n: nat, now: nat, i: nat, a: bytes, d: Value, b: bytes, e: Value)
    requires n <= |steps| && Unique(s, db, now) && Unclaimed(s, db, now, steps)
    requires i < |s.coll.indexes| && s.coll.indexes[i].unique && a != b
    requires Origin(s, db, steps, n, a, d, now) && Origin(s, db, steps, n, b, e, now)
    ensures Encoded(s, i, d) != Encoded(s, i, e)
  {
    hide Encoded, LiveDoc, Unique, Unclaimed;
    if Wrote(steps, n, a, d) {
      var j :| 0 <= j < n && steps[j].Upsert? && steps[j].id == a && steps[j].doc == d;
      if Wrote(steps, n, b, e) {
        var k :| 0 <= k < n && steps[k].Upsert? && steps[k].id == b && steps[k].doc == e;
        StepsApart(s, db, now, steps, j, k, i);
      } else {
        StepFree(s, db, now, steps, j);
        FreeApart(s, db, now, i, d, a, b);
      }
    } else if Wrote(steps, n, b, e) {
      var k :| 0 <= k < n && steps[k].Upsert? && steps[k].id == b && steps[k].doc == e;
      StepFree(s, db, now, steps, k);
      FreeApart(s, db, now, i, e, b, a);
    } else {
      UniqueApart(s, db, now, i, a, b);
    }
  }

  lemma UniqueLater(s: Space, db: Db, now: nat, later: nat)
    requires Unique(s, db, now) && now <= later
    ensures Unique(s, db, later)
  {
  }
}
