/** The document store: building writes against the committed state and committing them in bounded
    atomic chunks together with their counter record. */
module Store {
  import opened Bytes
  import opened Values
  import opened Filters
  import opened Keys
  import opened Query
  import opened StoreState
  import opened StoreSteps

  /** One document's prepared write. */
  datatype WriteOps = WriteOps(ops: seq<Op>, delta: int)

  datatype Outcome<+T> = Done(value: T) | DuplicateKey | BatchTooLarge | BadUpdate

  /** What a crash may recover: the catalog entry, the key space and the counter record. */
  datatype Durable = Durable(space: Space, db: Db, record: Counters)

  /** Indexes exact and unique ones free of duplicates. */
  ghost predicate Indexed(d: Durable, now: nat) {
    d.space.Valid() && Exact(d.space, d.db) && Unique(d.space, d.db, now)
  }

  /** Indexed, and the counts are true. */
  ghost predicate Consistent(d: Durable, now: nat) {
    Indexed(d, now) && Counted(d.space, d.db, d.record)
  }

  ghost predicate Builds(s: Space, db: Db, step: Step, w: WriteOps) {
    && CanStep(s, db, step) && w.ops == StepOps(s, db, step) && w.delta == StepDelta(s, db, step)
    && |w.ops| + 1 <= MAX_BATCH_KEYS
  }

  /** The step can be taken and its operations leave room for a counter record in one batch. */
  predicate Fitting(s: Space, db: Db, step: Step) {
    CanStep(s, db, step) && |StepOps(s, db, step)| + 1 <= MAX_BATCH_KEYS
  }

  ghost predicate AllFit(s: Space, db: Db, steps: seq<Step>) {
    forall j :: 0 <= j < |steps| ==> Fitting(s, db, steps[j])
  }

  lemma StepFits(s: Space, db: Db, id: bytes, doc: Value, expiresAt: nat)
    ensures Fitting(s, db, Upsert(id, doc, expiresAt)) <==> |UpsertOps(s, db, id, doc, expiresAt)| + 1 <= MAX_BATCH_KEYS
    ensures HasDoc(s, db, id) ==> (Fitting(s, db, Delete(id)) <==> |DeleteOps(s, db, id)| + 1 <= MAX_BATCH_KEYS)
  {
    hide UpsertOps, DeleteOps;
  }

  /** One prepared write for each step. */
  ghost predicate AllBuilt(s: Space, db: Db, steps: seq<Step>, writes: seq<WriteOps>) {
    |writes| == |steps| && forall j :: 0 <= j < |writes| ==> Builds(s, db, steps[j], writes[j])
  }

  lemma BuiltFit(s: Space, db: Db, steps: seq<Step>, writes: seq<WriteOps>)
    requires AllBuilt(s, db, steps, writes)
    ensures AllFit(s, db, steps)
  {
    hide StepOps, StepDelta, CanStep;
    forall j | 0 <= j < |steps| ensures Fitting(s, db, steps[j]) {
      assert Builds(s, db, steps[j], writes[j]);
    }
  }

  // ---- Chunks ------------------------------------------------------------------

  function BumpAll(c: Counters, deltas: seq<int>): Counters {
    if deltas == [] then c else Bump(BumpAll(c, deltas[..|deltas| - 1]), deltas[|deltas| - 1])
  }

  /** The key space after the first `n` writes. */
  function Replayed(db: Db, writes: seq<WriteOps>, n: nat): Db
    requires n <= |writes|
  {
    if n == 0 then db else Apply(Replayed(db, writes, n - 1), writes[n - 1].ops)
  }

  /** What a write adds to the counts: nothing when it has no operations. */
  function DeltaOf(w: WriteOps): int {
    if w.ops == [] then 0 else w.delta
  }

  function Recounted(c: Counters, writes: seq<WriteOps>, n: nat): Counters
    requires n <= |writes|
  {
    if n == 0 then c else Bump(Recounted(c, writes, n - 1), DeltaOf(writes[n - 1]))
  }

  /** Operations of writes `m` to `j`. */
  function OpsOf(writes: seq<WriteOps>, m: nat, j: nat): seq<Op>
    requires m <= j <= |writes|
  {
    if j == m then [] else OpsOf(writes, m, j - 1) + writes[j - 1].ops
  }

  function DeltasOf(writes: seq<WriteOps>, m: nat, j: nat): (r: seq<int>)
    requires m <= j <= |writes|
    ensures forall i :: 0 <= i < |r| ==> r[i] != 0
  {
    if j == m then []
    else
      var d := DeltaOf(writes[j - 1]);
      DeltasOf(writes, m, j - 1) + if d != 0 then [d] else []
  }

  lemma {:induction false} ChunkApplies(db: Db, writes: seq<WriteOps>, m: nat, j: nat)
    requires m <= j <= |writes|
    ensures Apply(Replayed(db, writes, m), OpsOf(writes, m, j)) == Replayed(db, writes, j)
  {
    hide Apply;
    if j == m {
      NoOps(Replayed(db, writes, m));
    } else {
      ChunkApplies(db, writes, m, j - 1);
      ApplyConcat(Replayed(db, writes, m), OpsOf(writes, m, j - 1), writes[j - 1].ops);
    }
  }

  /** One more write in the chunk from `m`. */
  lemma ChunkGrows(writes: seq<WriteOps>, m: nat, j: nat)
    requires m <= j < |writes|
    ensures OpsOf(writes, m, j + 1) == OpsOf(writes, m, j) + writes[j].ops
    ensures DeltasOf(writes, m, j + 1) ==
            if writes[j].ops != [] && writes[j].delta != 0 then DeltasOf(writes, m, j) + [writes[j].delta] else DeltasOf(writes, m, j)
    ensures OpsOf(writes, j, j) == [] && DeltasOf(writes, j, j) == []
  {
    assert DeltasOf(writes, m, j) + [] == DeltasOf(writes, m, j);
  }

  lemma ChunkStart(db: Db, c: Counters, writes: seq<WriteOps>)
    ensures Replayed(db, writes, 0) == db && Recounted(c, writes, 0) == c
    ensures OpsOf(writes, 0, 0) == [] && DeltasOf(writes, 0, 0) == []
  {
  }

  /** Writes without operations change nothing. */
  lemma ChunkIdle(db: Db, c: Counters, writes: seq<WriteOps>, m: nat, j: nat)
    requires m <= j <= |writes| && OpsOf(writes, m, j) == [] && DeltasOf(writes, m, j) == []
    ensures Replayed(db, writes, j) == Replayed(db, writes, m) && Recounted(c, writes, j) == Recounted(c, writes, m)
  {
    hide Replayed, Recounted, OpsOf, DeltasOf;
    ChunkApplies(db, writes, m, j);
    ChunkTallies(c, writes, m, j);
  }

  lemma NothingReplayed(db: Db, writes: seq<WriteOps>)
    ensures Replayed(db, writes, 0) == db
  {
  }

  lemma NoOps(db: Db)
    ensures Apply(db, []) == db
  {
  }

  lemma {:induction false} ChunkTallies(c: Counters, writes: seq<WriteOps>, m: nat, j: nat)
    requires m <= j <= |writes|
    ensures BumpAll(Recounted(c, writes, m), DeltasOf(writes, m, j)) == Recounted(c, writes, j)
  {
    hide DeltaOf, Bump;
    if j > m {
      ChunkTallies(c, writes, m, j - 1);
      BumpZero(Recounted(c, writes, j - 1));
      var d, ds := DeltaOf(writes[j - 1]), DeltasOf(writes, m, j - 1);
      assert d != 0 ==> (ds + [d])[..|ds|] == ds;
      assert ds + [] == ds;
    }
  }

  /** The store after one of the prefixes of a list of writes. */
  ghost predicate Reached(d: Durable, s: Space, db: Db, c: Counters, writes: seq<WriteOps>) {
    exists n :: 0 <= n <= |writes| && d == Durable(s, Replayed(db, writes, n), Recounted(c, writes, n))
  }

  /** Prepared writes replay their run, repeats included. */
  lemma {:induction false} ReplaysRun(s: Space, db: Db, c: Counters, steps: seq<Step>, writes: seq<WriteOps>, n: nat)
    requires n <= |steps| == |writes| && s.Valid() && Exact(s, db) && Prepared(s, db, steps)
    requires forall j :: 0 <= j < |writes| ==> Builds(s, db, steps[j], writes[j])
    ensures Replayed(db, writes, n) == Run(s, db, steps, n)
    ensures Recounted(c, writes, n) == Tally(s, db, c, steps, n)
  {
    hide Apply, Exact, Run, Prepared, StepOps, StepDelta, CanStep, Bump;
    if n == 0 {
      NothingRun(s, db, steps);
    } else {
      ReplaysRun(s, db, c, steps, writes, n - 1);
      assert Builds(s, db, steps[n - 1], writes[n - 1]);
      RunStep(s, db, steps, n - 1);
      EmptyStep(s, db, steps[n - 1]);
    }
  }

  lemma NothingRun(s: Space, db: Db, steps: seq<Step>)
    ensures Run(s, db, steps, 0) == db
  {
  }

  lemma EmptyStep(s: Space, db: Db, step: Step)
    requires CanStep(s, db, step)
    ensures StepOps(s, db, step) == [] ==> StepDelta(s, db, step) == 0
  {
  }

  /** Writes prepared for a list of steps against one consistent state. */
  datatype Batch = Batch(space: Space, db: Db, counters: Counters, steps: seq<Step>, writes: seq<WriteOps>, now: nat) {
    ghost predicate Valid() {
      && space.Valid() && Exact(space, db) && Counted(space, db, counters) && Unique(space, db, now)
      && Prepared(space, db, steps) && Unclaimed(space, db, now, steps)
      && AllBuilt(space, db, steps, writes)
    }

    /** The counters never leave the true counts. */
    ghost predicate Faithful() {
      forall n :: 0 <= n <= |steps| ==> Tally(space, db, counters, steps, n) == TrueTally(space, db, counters, steps, n)
    }

    ghost function At(n: nat): Durable
      requires n <= |writes|
    {
      Durable(space, Replayed(db, writes, n), Recounted(counters, writes, n))
    }

    lemma IndexedAt(n: nat)
      requires Valid() && n <= |steps|
      ensures Indexed(At(n), now) && At(n).db == Run(space, db, steps, n)
      ensures Consistent(At(n), now) <==> Tally(space, db, counters, steps, n) == TrueTally(space, db, counters, steps, n)
    {
      hide Exact, Counted, Unique, Unclaimed, Prepared, Run, Tally, TrueTally, Builds, Replayed, Recounted;
      ReplaysRun(space, db, counters, steps, writes, n);
      RunExact(space, db, steps, n);
      RunUnique(space, db, steps, n, now);
      TallyExact(space, db, counters, steps, n);
    }

    lemma Finish()
      requires Valid()
      ensures Indexed(At(|writes|), now) && At(|writes|).db == Run(space, db, steps, |steps|)
      ensures forall j :: 0 <= j < |writes| ==> |writes[j].ops| + 1 <= MAX_BATCH_KEYS
      ensures Faithful() ==> Consistent(At(|writes|), now)
      ensures At(|writes|).record == Tally(space, db, counters, steps, |steps|)
    {
      hide Exact, Counted, Unique, Unclaimed, Prepared, Run, Tally, TrueTally, Consistent, Indexed, Replayed, Recounted;
      IndexedAt(|writes|);
      ReplaysRun(space, db, counters, steps, writes, |writes|);
    }

    lemma AllIndexed(durable: seq<Durable>, from: nat)
      requires Valid() && forall i :: from <= i < |durable| ==> Reached(durable[i], space, db, counters, writes)
      ensures forall i :: from <= i < |durable| ==> Indexed(durable[i], now)
    {
      hide Exact, Counted, Unique, Unclaimed, Prepared, Run, Tally, TrueTally, Consistent, Indexed, Replayed, Recounted, Builds;
      forall i | from <= i < |durable| ensures Indexed(durable[i], now) {
        var n :| 0 <= n <= |writes| && durable[i] == Durable(space, Replayed(db, writes, n), Recounted(counters, writes, n));
        IndexedAt(n);
      }
    }

    lemma AllConsistent(durable: seq<Durable>, from: nat)
      requires Valid() && (DistinctIds(steps) || Faithful())
      requires forall i :: from <= i < |durable| ==> Reached(durable[i], space, db, counters, writes)
      ensures Faithful() && forall i :: from <= i < |durable| ==> Consistent(durable[i], now)
    {
      hide Exact, Counted, Unique, Unclaimed, Prepared, DistinctIds, Run, Tally, TrueTally, Consistent, Indexed, Replayed, Recounted, Builds;
      if DistinctIds(steps) {
        forall n | 0 <= n <= |steps| ensures Tally(space, db, counters, steps, n) == TrueTally(space, db, counters, steps, n) {
          DistinctTally(space, db, counters, steps, n);
        }
      }
      forall i | from <= i < |durable| ensures Consistent(durable[i], now) {
        var n :| 0 <= n <= |writes| && durable[i] == Durable(space, Replayed(db, writes, n), Recounted(counters, writes, n));
        IndexedAt(n);
      }
    }
  }

  // ---- The store ---------------------------------------------------------------

  class DocumentStore {
    var space: Space
    var db: Db
    /** Counters in memory. */
    var counters: Counters
    /** The counter record, committed with the documents it counts. */
    var persisted: Counters
    /** Every state the store has been durable in. */
    ghost var durable: seq<Durable>

    ghost predicate Valid()
      reads this
    {
      space.Valid() && Exact(space, db) && Counted(space, db, counters) && persisted == counters
    }

    constructor (s: Space)
      requires s.Valid()
      ensures Valid() && space == s && db == map[] && durable == []
      ensures forall now :: Unique(s, db, now)
    {
      space, db := s, map[];
      counters := Counters(0, seq(|s.coll.indexes|, i => 0));
      persisted := Counters(0, seq(|s.coll.indexes|, i => 0));
      durable := [];
    }

    /** The counter record a chunk must write, if any counter moves. */
    method CounterUpdate(deltas: seq<int>) returns (record: Option<Counters>)
      requires forall i :: 0 <= i < |deltas| ==> deltas[i] != 0
      ensures record == if deltas == [] then None else Some(BumpAll(counters, deltas))
    {
      var entry := counters;
      for i := 0 to |deltas|
        invariant entry == BumpAll(counters, deltas[..i])
      {
        assert deltas[..i + 1][..i] == deltas[..i];
        entry := Bump(entry, deltas[i]);
      }
      assert deltas[..|deltas|] == deltas;
      return if deltas == [] then None else Some(entry);
    }

    /** Commit one batch with its counter record, atomically; memory follows only a commit. */
    method WriteCountedChunk(ops: seq<Op>, deltas: seq<int>) returns (ok: bool)
      requires persisted == counters && forall i :: 0 <= i < |deltas| ==> deltas[i] != 0
      modifies `db, `counters, `persisted, `durable
      ensures ok <==> |ops| + (if deltas == [] then 0 else 1) <= MAX_BATCH_KEYS
      ensures !ok ==> db == old(db) && counters == old(counters) && persisted == old(persisted) && durable == old(durable)
      ensures ok ==> db == Apply(old(db), ops) && counters == persisted == BumpAll(old(counters), deltas)
      ensures ok ==> durable == old(durable) + [Durable(space, db, persisted)]
    {
      hide Apply, BumpAll;
      var record := CounterUpdate(deltas);
      if |ops| + (if record.Some? then 1 else 0) > MAX_BATCH_KEYS {
        return false;
      }
      BumpNone(counters);
      db := Apply(db, ops);
      if record.Some? {
        persisted := record.value;
      }
      durable := durable + [Durable(space, db, persisted)];
      if record.Some? {
        counters := record.value;
      }
      return true;
    }

    /** Commit one batch that moves no counter, atomically. */
    method WriteBatch(ops: seq<Op>) returns (ok: bool)
      modifies `db, `durable
      ensures ok <==> |ops| <= MAX_BATCH_KEYS
      ensures !ok ==> db == old(db) && durable == old(durable)
      ensures ok ==> db == Apply(old(db), ops) && durable == old(durable) + [Durable(space, db, persisted)]
    {
      ok := |ops| <= MAX_BATCH_KEYS;
      if ok {
        db := Apply(db, ops);
        durable := durable + [Durable(space, db, persisted)];
      }
    }

    /** Commit a new catalog entry with its counters; memory follows. */
    method PersistCatalog(s: Space, c: Counters)
      modifies `space, `counters, `persisted, `durable
      ensures space == s && counters == persisted == c
      ensures durable == old(durable) + [Durable(s, db, c)]
    {
      durable := durable + [Durable(s, db, c)];
      space, counters, persisted := s, c, c;
    }

    /** Commit writes `m` to `j` as one chunk. */
    method Flush(ops: seq<Op>, deltas: seq<int>, ghost start: Db, ghost c: Counters, ghost writes: seq<WriteOps>, ghost m: nat, ghost j: nat)
      requires m <= j <= |writes| && persisted == counters
      requires db == Replayed(start, writes, m) && counters == Recounted(c, writes, m)
      requires ops == OpsOf(writes, m, j) && deltas == DeltasOf(writes, m, j)
      requires |ops| + (if deltas == [] then 0 else 1) <= MAX_BATCH_KEYS
      modifies `db, `counters, `persisted, `durable
      ensures db == Replayed(start, writes, j) && counters == persisted == Recounted(c, writes, j)
      ensures durable == old(durable) + [Durable(space, db, persisted)]
      ensures Reached(Durable(space, db, persisted), space, start, c, writes)
    {
      hide Apply, BumpAll, Replayed, Recounted, OpsOf, DeltasOf;
      ChunkApplies(start, writes, m, j);
      ChunkTallies(c, writes, m, j);
      var ok := WriteCountedChunk(ops, deltas);
    }

    /** Commit prepared writes, one batch when they fit and otherwise in chunks. It never fails, and
        every state made durable on the way is that of some of the writes, each whole and counted. */
    method CommitBatches(perDoc: seq<WriteOps>)
      requires persisted == counters && forall j :: 0 <= j < |perDoc| ==> |perDoc[j].ops| + 1 <= MAX_BATCH_KEYS
      modifies `db, `counters, `persisted, `durable
      ensures db == Replayed(old(db), perDoc, |perDoc|) && counters == persisted == Recounted(old(counters), perDoc, |perDoc|)
      ensures old(durable) <= durable
      ensures forall i :: |old(durable)| <= i < |durable| ==> Reached(durable[i], space, old(db), old(counters), perDoc)
    {
      hide Apply, Bump, BumpAll, Reached, Replayed, Recounted, OpsOf, DeltasOf;
      ghost var start, c := db, counters;
      ChunkStart(start, c, perDoc);
      var all: seq<Op>, deltas: seq<int>, touched := [], [], false;
      ghost var m := 0;
      for j := 0 to |perDoc|
        invariant 0 <= m <= j && persisted == counters
        invariant db == Replayed(start, perDoc, m) && counters == Recounted(c, perDoc, m)
        invariant all == OpsOf(perDoc, m, j) && deltas == DeltasOf(perDoc, m, j)
        invariant touched == (deltas != [])
        invariant |all| + (if touched then 1 else 0) <= MAX_BATCH_KEYS && (all == [] ==> !touched)
        invariant old(durable) <= durable
        invariant forall i :: |old(durable)| <= i < |durable| ==> Reached(durable[i], space, start, c, perDoc)
      {
        var w := perDoc[j];
        ChunkGrows(perDoc, m, j);
        if |w.ops| == 0 {
          assert all + [] == all;
          continue;
        }
        var counts := w.delta != 0;
        var slots := if touched || counts then 1 else 0;
        if |all| > 0 && |all| + |w.ops| + slots > MAX_BATCH_KEYS {
          Flush(all, deltas, start, c, perDoc, m, j);
          all, deltas, touched := [], [], false;
          m := j;
          ChunkGrows(perDoc, m, j);
        }
        if counts {
          touched := true;
          deltas := deltas + [w.delta];
        }
        all := all + w.ops;
      }
      if |all| > 0 {
        Flush(all, deltas, start, c, perDoc, m, |perDoc|);
      } else {
        ChunkIdle(start, c, perDoc, m, |perDoc|);
      }
    }

    // ---- Building writes -------------------------------------------------------

    /** Refuse a document whose unique value a different live document already holds. */
    method EnforceUnique(doc: Value, id: bytes, now: nat) returns (ok: bool)
      requires Valid()
      ensures ok <==> Free(space, db, now, doc, id)
    {
      hide Exact, Counted, LiveDoc, Encoded, Conflict;
      for i := 0 to |space.coll.indexes|
        invariant forall j :: 0 <= j < i && space.coll.indexes[j].unique ==> FreeIn(space, db, now, j, doc, id)
      {
        if space.coll.indexes[i].unique {
          ConflictExact(space, db, now, i, doc, id);
          FreeIffNoConflict(space, db, now, i, doc, id);
          if Conflict(space, db, now, i, Encoded(space, i, doc), id) {
            assert !FreeIn(space, db, now, i, doc, id);
            FreeParts(space, db, now, doc, id);
            return false;
          }
        }
      }
      FreeParts(space, db, now, doc, id);
      return true;
    }

    /** The batch that upserts a document: body, entries it no longer has, entries it has. */
    method BuildUpsert(id: bytes, doc: Value, expiresAt: nat, now: nat) returns (r: Outcome<WriteOps>)
      requires Valid()
      ensures r.DuplicateKey? <==> !Free(space, db, now, doc, id)
      ensures r.BatchTooLarge? <==> Free(space, db, now, doc, id) && |UpsertOps(space, db, id, doc, expiresAt)| + 1 > MAX_BATCH_KEYS
      ensures r.Done? ==> Builds(space, db, Upsert(id, doc, expiresAt), r.value)
      ensures !r.BadUpdate?
    {
      hide Exact, Counted, Free, Stale, OldEntries, HasDoc;
      var ok := EnforceUnique(doc, id, now);
      if !ok {
        return DuplicateKey;
      }
      var existed := HasDoc(space, db, id);
      var next := space.Entries(doc, id);
      var ops := [Put(space.BodyKey(id), Cell(Body(doc), expiresAt))];
      ops := AppendStale(ops, OldEntries(space, db, id), next);
      ops := AppendPuts(ops, next, Cell(Ref(id), expiresAt));
      if |ops| + 1 > MAX_BATCH_KEYS {
        return BatchTooLarge;
      }
      return Done(WriteOps(ops, if existed then 0 else 1));
    }

    /** Insert or replace one document. */
    method UpsertDocument(id: bytes, doc: Value, expiresAt: nat, now: nat) returns (r: Outcome<()>)
      requires Valid() && Unique(space, db, now)
      modifies `db, `counters, `persisted, `durable
      ensures Valid() && Unique(space, db, now)
      ensures r.Done? ==> db == UpsertDb(space, old(db), id, doc, expiresAt)
      ensures !r.Done? ==> db == old(db) && durable == old(durable)
      ensures r.DuplicateKey? <==> !old(Free(space, db, now, doc, id))
      ensures r.BatchTooLarge? <==> old(Free(space, db, now, doc, id)) && !Fitting(space, old(db), Upsert(id, doc, expiresAt))
      ensures !r.BadUpdate?
      ensures old(durable) <= durable && forall i :: |old(durable)| <= i < |durable| ==> Consistent(durable[i], now)
    {
      hide Exact, Counted, Unique, Free, Consistent, Indexed, Reached, UpsertDb, Prepared, Unclaimed, DistinctIds, Run, Replayed, Recounted, Builds;
      var w := BuildUpsert(id, doc, expiresAt, now);
      match w {
        case Done(ops) =>
          ghost var step := Upsert(id, doc, expiresAt);
          OneStep(space, db, now, step);
          ghost var b := Batch(space, db, counters, [step], [ops], now);
          BuildsFit(space, db, step, ops);
          b.Finish();
          CommitBatches([ops]);
          b.AllConsistent(durable, |old(durable)|);
          ReallyIndexed(space, db, persisted, now);
          return Done(());
        case DuplicateKey => return DuplicateKey;
        case BatchTooLarge => return BatchTooLarge;
      }
    }

    /** The batch that deletes a document; nothing if it is absent, expired or filtered out. */
    method BuildDelete(id: bytes, filter: Option<Filter>, now: nat) returns (r: Outcome<WriteOps>)
      ensures !Selected(space, db, id, filter, now) ==> r == Done(WriteOps([], 0))
      ensures Selected(space, db, id, filter, now) ==>
                r == if |DeleteOps(space, db, id)| + 1 > MAX_BATCH_KEYS then BatchTooLarge else Done(WriteOps(DeleteOps(space, db, id), -1))
    {
      hide Matches;
      if !Selected(space, db, id, filter, now) {
        return Done(WriteOps([], 0));
      }
      var ops := AppendDels([Del(space.BodyKey(id))], space.Entries(DocOf(space, db, id), id));
      if |ops| + 1 > MAX_BATCH_KEYS {
        return BatchTooLarge;
      }
      return Done(WriteOps(ops, -1));
    }

    /** Build the delete of every selected document, against the committed state. */
    method PrepareDeletes(ids: seq<bytes>, filter: Option<Filter>, now: nat) returns (r: Outcome<seq<WriteOps>>)
      ensures r.Done? || r.BatchTooLarge?
      ensures r.BatchTooLarge? <==> !AllFit(space, db, Deletes(Chosen(space, db, ids, filter, now)))
      ensures r.Done? ==> AllBuilt(space, db, Deletes(Chosen(space, db, ids, filter, now)), r.value)
    {
      hide StepOps, Selected;
      var perDoc: seq<WriteOps> := [];
      for i := 0 to |ids|
        invariant |perDoc| == |Chosen(space, db, ids[..i], filter, now)|
        invariant forall j :: 0 <= j < |perDoc| ==> Builds(space, db, Delete(Chosen(space, db, ids[..i], filter, now)[j]), perDoc[j])
      {
        assert ids[..i + 1][..i] == ids[..i];
        var w := BuildDelete(ids[i], filter, now);
        SelectedHasDoc(space, db, ids[i], filter, now);
        if w.BatchTooLarge? {
          StepFits(space, db, ids[i], Null, 0);
          DeleteTooLarge(space, db, ids, i, filter, now);
          return BatchTooLarge;
        }
        if |w.value.ops| > 0 {
          DeleteBuilds(space, db, ids[i], w.value);
          perDoc := perDoc + [w.value];
        }
      }
      assert ids[..|ids|] == ids;
      BuiltFit(space, db, Deletes(Chosen(space, db, ids, filter, now)), perDoc);
      return Done(perDoc);
    }

    /** Delete every selected document among `ids`. Indexes stay exact whatever the list; the counters
        stay true if and only if no selected id is repeated, or the selected ids are all there is. */
    method DeleteIds(ids: seq<bytes>, filter: Option<Filter>, now: nat) returns (r: Outcome<nat>)
      requires Valid() && Unique(space, db, now)
      modifies `db, `counters, `persisted, `durable
      ensures Indexed(Durable(space, db, persisted), now) && persisted == counters
      ensures !r.Done? ==> db == old(db) && durable == old(durable) && Valid()
      ensures r.BatchTooLarge? <==> !AllFit(space, old(db), Deletes(Chosen(space, old(db), ids, filter, now)))
      ensures r.Done? || r.BatchTooLarge?
      ensures r.Done? ==> r.value == |Chosen(space, old(db), ids, filter, now)|
      ensures r.Done? ==> forall id ::
                if id in Chosen(space, old(db), ids, filter, now) then !HasDoc(space, db, id) else SameBody(space, db, old(db), id)
      ensures r.Done? ==> (Valid() <==> Countable(space, old(db), Chosen(space, old(db), ids, filter, now)))
      ensures old(durable) <= durable && forall i :: |old(durable)| <= i < |durable| ==> Indexed(durable[i], now)
      ensures NoDuplicates(ids) ==> Valid() && forall i :: |old(durable)| <= i < |durable| ==> Consistent(durable[i], now)
    {
      hide Exact, Counted, Unique, Consistent, Indexed, Reached, Run, StepOps, Selected, Prepared, Unclaimed, SameBody, Replayed, Recounted, Countable, NoDuplicates, AllFit, Chosen, Deletes;
      ReallyIndexed(space, db, persisted, now);
      var writes := PrepareDeletes(ids, filter, now);
      if writes.BatchTooLarge? {
        return BatchTooLarge;
      }
      var perDoc := writes.value;
      ghost var chosen := Chosen(space, db, ids, filter, now);
      ChosenDocs(space, db, ids, filter, now);
      DeletesPrepared(space, db, chosen, now);
      ghost var before, b := db, Batch(space, db, counters, Deletes(chosen), perDoc, now);
      b.Finish();
      CommitBatches(perDoc);
      forall id ensures if id in chosen then !HasDoc(space, db, id) else SameBody(space, db, before, id) {
        DeletesRun(space, before, chosen, id);
      }
      DeletesCounted(space, before, b.counters, chosen);
      b.AllIndexed(durable, |old(durable)|);
      ReallyIndexed(space, db, persisted, now);
      if NoDuplicates(ids) {
        ChosenOnce(space, before, ids, filter, now);
        DeletesDistinct(chosen);
        b.AllConsistent(durable, |old(durable)|);
        CountableOnce(space, before, chosen);
      }
      return Done(|perDoc|);
    }

    /** Build the update of every selected document, against the committed state and the unique values
        taken by those before it. */
    method PrepareUpdates(ids: seq<bytes>, update: Value -> Option<Value>, expiry: Value -> nat, filter: Option<Filter>, now: nat)
      returns (r: Outcome<seq<WriteOps>>)
      requires Valid()
      ensures var steps := Updates(space, db, Chosen(space, db, ids, filter, now), update, expiry);
              && (r.DuplicateKey? ==> !Unclaimed(space, db, now, steps))
              && (r.BadUpdate? ==> !AllUpserts(steps))
              && (r.BatchTooLarge? ==> !AllFit(space, db, steps))
              && (r.Done? ==> AllUpserts(steps) && Unclaimed(space, db, now, steps) && AllFit(space, db, steps) && AllBuilt(space, db, steps, r.value))
    {
      hide Exact, Counted, StepOps, StepDelta, Selected, Unclaimed, Free, Encoded, Apart, UpsertOps;
      var claimed: set<(nat, bytes)>, perDoc: seq<WriteOps> := {}, [];
      ghost var done: seq<Step> := [];
      NothingDone(space, db, now);
      for i := 0 to |ids|
        invariant done == Updates(space, db, Chosen(space, db, ids[..i], filter, now), update, expiry)
        invariant |perDoc| == |done| && AllUpserts(done)
        invariant Unclaimed(space, db, now, done) && Claims(space, done, claimed)
        invariant forall j :: 0 <= j < |done| ==> Builds(space, db, done[j], perDoc[j])
      {
        UpdatesSnoc(space, db, ids, i, filter, now, update, expiry);
        if Selected(space, db, ids[i], filter, now) {
          SelectedHasDoc(space, db, ids[i], filter, now);
          var next := update(DocOf(space, db, ids[i]));
          if next.None? {
            UpdateFails(space, db, ids, i, filter, now, update, expiry);
            return BadUpdate;
          }
          ghost var step := Upsert(ids[i], next.value, expiry(next.value));
          var ok, grown := Claim(claimed, next.value, done);
          if !ok {
            ClashRefused(space, db, now, ids, i, filter, update, expiry, step);
            return DuplicateKey;
          }
          var w := BuildUpsert(ids[i], next.value, expiry(next.value), now);
          if w.DuplicateKey? {
            HeldRefused(space, db, now, ids, i, filter, update, expiry, step);
            return DuplicateKey;
          }
          if w.BatchTooLarge? {
            StepFits(space, db, ids[i], next.value, expiry(next.value));
            UpdateTooLarge(space, db, ids, i, filter, now, update, expiry, step);
            return BatchTooLarge;
          }
          UnclaimedSnoc(space, db, now, done, step);
          done := done + [step];
          claimed := grown;
          perDoc := perDoc + [w.value];
        }
      }
      assert ids[..|ids|] == ids;
      BuiltFit(space, db, done, perDoc);
      return Done(perDoc);
    }

    /** Update every selected document among `ids`: all of them or none. Two documents of one call may
        not take the same unique value. */
    method ApplyToIds(ids: seq<bytes>, update: Value -> Option<Value>, expiry: Value -> nat, filter: Option<Filter>, now: nat)
      returns (r: Outcome<nat>)
      requires Valid() && Unique(space, db, now)
      modifies `db, `counters, `persisted, `durable
      ensures Valid() && Unique(space, db, now)
      ensures !r.Done? ==> db == old(db) && durable == old(durable)
      ensures r.Done? ==> r.value == |Chosen(space, old(db), ids, filter, now)|
      ensures r.Done? && r.value == 0 ==> db == old(db)
      ensures r.Done? ==> forall id :: UpdatedTo(space, old(db), db, Chosen(space, old(db), ids, filter, now), update, expiry, id)
      ensures var steps := Updates(space, old(db), Chosen(space, old(db), ids, filter, now), update, expiry);
              && (r.DuplicateKey? ==> !Unclaimed(space, old(db), now, steps))
              && (r.BadUpdate? ==> !AllUpserts(steps))
              && (r.BatchTooLarge? ==> !AllFit(space, old(db), steps))
              && (r.Done? <==> AllUpserts(steps) && Unclaimed(space, old(db), now, steps) && AllFit(space, old(db), steps))
      ensures old(durable) <= durable && forall i :: |old(durable)| <= i < |durable| ==> Consistent(durable[i], now)
    {
      hide Exact, Counted, Unique, Consistent, Indexed, Reached, Run, StepOps, Prepared, Unclaimed, UpdatedTo, Replayed, Recounted, AllFit, AllUpserts, Chosen, Updates;
      var writes := PrepareUpdates(ids, update, expiry, filter, now);
      match writes {
        case DuplicateKey => return DuplicateKey;
        case BatchTooLarge => return BatchTooLarge;
        case BadUpdate => return BadUpdate;
        case Done(perDoc) =>
          ghost var chosen := Chosen(space, db, ids, filter, now);
          ghost var steps := Updates(space, db, chosen, update, expiry);
          ChosenDocs(space, db, ids, filter, now);
          UpdatesPrepared(space, db, chosen, update, expiry);
          ghost var before, b := db, Batch(space, db, counters, steps, perDoc, now);
          UpdatesTally(space, db, counters, chosen, update, expiry);
          b.Finish();
          NothingReplayed(db, perDoc);
          CommitBatches(perDoc);
          b.AllConsistent(durable, |old(durable)|);
          ReallyIndexed(space, db, persisted, now);
          forall id ensures UpdatedTo(space, before, db, chosen, update, expiry, id) {
            UpdatesRun(space, before, chosen, update, expiry, id);
          }
          return Done(|perDoc|);
      }
    }

    /** Reserve a document's unique values within one call. */
    method Claim(claimed: set<(nat, bytes)>, doc: Value, ghost done: seq<Step>) returns (ok: bool, grown: set<(nat, bytes)>)
      requires AllUpserts(done) && Claims(space, done, claimed)
      ensures ok <==> forall j :: 0 <= j < |done| ==> Apart(space, done[j].doc, doc)
      ensures ok ==> forall id, expiresAt :: Claims(space, done + [Upsert(id, doc, expiresAt)], grown)
    {
      hide Encoded;
      grown := claimed;
      for i := 0 to |space.coll.indexes|
        invariant forall p :: p in grown <==> p in claimed || (p.0 < i && space.coll.indexes[p.0].unique && p.1 == Encoded(space, p.0, doc))
        invariant forall k :: 0 <= k < i && space.coll.indexes[k].unique ==> (k, Encoded(space, k, doc)) !in claimed
      {
        if space.coll.indexes[i].unique {
          var p := (i, Encoded(space, i, doc));
          if p in grown {
            assert p in claimed;
            ClaimedClash(space, done, claimed, doc, i);
            return false, grown;
          }
          grown := grown + {p};
        }
      }
      ClaimedFree(space, done, claimed, doc);
      forall id, expiresAt ensures Claims(space, done + [Upsert(id, doc, expiresAt)], grown) {
        ClaimsGrow(space, done, claimed, grown, Upsert(id, doc, expiresAt));
      }
      return true, grown;
    }
  }

  method AppendDels(start: seq<Op>, keys: seq<bytes>) returns (ops: seq<Op>)
    ensures ops == start + Dels(keys)
  {
    ops := start;
    for i := 0 to |keys|
      invariant ops == start + Dels(keys[..i])
    {
      assert keys[..i + 1] == keys[..i] + [keys[i]];
      DelsSnoc(keys[..i], keys[i]);
      ops := ops + [Del(keys[i])];
    }
    assert keys[..|keys|] == keys;
  }

  /** Remove the old entries that are not among the new ones. */
  method AppendStale(start: seq<Op>, was: seq<bytes>, next: seq<bytes>) returns (ops: seq<Op>)
    ensures ops == start + Dels(Stale(was, next))
  {
    hide Stale, Dels;
    ops := start;
    NoneStale(next);
    for i := 0 to |was|
      invariant ops == start + Dels(Stale(was[..i], next))
    {
      StaleSnoc(was, i, next);
      DelsSnoc(Stale(was[..i], next), was[i]);
      if was[i] !in next {
        ops := ops + [Del(was[i])];
      }
    }
    assert was[..|was|] == was;
  }

  lemma NoneStale(next: seq<bytes>)
    ensures Dels(Stale([], next)) == []
  {
  }

  lemma StaleSnoc(was: seq<bytes>, i: nat, next: seq<bytes>)
    requires i < |was|
    ensures Stale(was[..i + 1], next) == if was[i] in next then Stale(was[..i], next) else Stale(was[..i], next) + [was[i]]
  {
    assert was[..i + 1][..i] == was[..i];
  }

  method AppendPuts(start: seq<Op>, keys: seq<bytes>, cell: Cell) returns (ops: seq<Op>)
    ensures ops == start + Puts(keys, cell)
  {
    ops := start;
    for i := 0 to |keys|
      invariant ops == start + Puts(keys[..i], cell)
    {
      assert Puts(keys[..i + 1], cell) == Puts(keys[..i], cell) + [Put(keys[i], cell)];
      ops := ops + [Put(keys[i], cell)];
    }
    assert keys[..|keys|] == keys;
  }

  // ---- Choosing documents ------------------------------------------------------

  /** Documents a filtered write applies to: visible, and still matching under the lock. */
  predicate Selected(s: Space, db: Db, id: bytes, filter: Option<Filter>, now: nat) {
    LiveDoc(s, db, now, id) && (filter.Some? ==> Matches(filter.value, DocOf(s, db, id), Some(id)))
  }

  lemma SelectedHasDoc(s: Space, db: Db, id: bytes, filter: Option<Filter>, now: nat)
    ensures Selected(s, db, id, filter, now) ==> HasDoc(s, db, id)
  {
    hide Matches;
  }

  function Chosen(s: Space, db: Db, ids: seq<bytes>, filter: Option<Filter>, now: nat): seq<bytes> {
    if ids == [] then []
    else
      var front, last := Chosen(s, db, ids[..|ids| - 1], filter, now), ids[|ids| - 1];
      if Selected(s, db, last, filter, now) then front + [last] else front
  }

  ghost predicate NoDuplicates(ids: seq<bytes>) {
    forall i, j :: 0 <= i < j < |ids| ==> ids[i] != ids[j]
  }

  lemma {:induction false} ChosenDocs(s: Space, db: Db, ids: seq<bytes>, filter: Option<Filter>, now: nat)
    ensures forall id :: id in Chosen(s, db, ids, filter, now) <==> id in ids && Selected(s, db, id, filter, now)
    ensures forall id :: id in Chosen(s, db, ids, filter, now) ==> HasDoc(s, db, id)
  {
    hide Selected;
    if ids != [] {
      var n := |ids| - 1;
      ChosenDocs(s, db, ids[..n], filter, now);
      SelectedHasDoc(s, db, ids[n], filter, now);
      assert ids == ids[..n] + [ids[n]];
    }
  }

  lemma {:induction false} ChosenOnce(s: Space, db: Db, ids: seq<bytes>, filter: Option<Filter>, now: nat)
    requires NoDuplicates(ids)
    ensures NoDuplicates(Chosen(s, db, ids, filter, now))
  {
    hide Selected;
    if ids != [] {
      var n := |ids| - 1;
      ChosenOnce(s, db, ids[..n], filter, now);
      ChosenDocs(s, db, ids[..n], filter, now);
      var front := Chosen(s, db, ids[..n], filter, now);
      assert forall i :: 0 <= i < |front| ==> front[i] in front;
      assert ids[n] !in ids[..n];
    }
  }

  // ---- Deleting many -----------------------------------------------------------

  function Deletes(ids: seq<bytes>): (r: seq<Step>)
    ensures |r| == |ids|
  {
    seq(|ids|, i requires 0 <= i < |ids| => Delete(ids[i]))
  }

  lemma DelsSnoc(keys: seq<bytes>, k: bytes)
    ensures Dels(keys + [k]) == Dels(keys) + [Del(k)]
  {
  }

  lemma DeleteBuilds(s: Space, db: Db, id: bytes, w: WriteOps)
    requires HasDoc(s, db, id) && w == WriteOps(DeleteOps(s, db, id), -1) && |w.ops| + 1 <= MAX_BATCH_KEYS
    ensures Builds(s, db, Delete(id), w)
  {
  }

  lemma DeletesPrepared(s: Space, db: Db, ids: seq<bytes>, now: nat)
    requires forall id :: id in ids ==> HasDoc(s, db, id)
    ensures Prepared(s, db, Deletes(ids)) && Unclaimed(s, db, now, Deletes(ids))
  {
  }

  lemma DeletesDistinct(ids: seq<bytes>)
    requires NoDuplicates(ids)
    ensures DistinctIds(Deletes(ids))
  {
  }

  /** After the deletes the documents named are gone and every other body is as it was. */
  lemma DeletesRun(s: Space, db: Db, ids: seq<bytes>, id: bytes)
    requires s.Valid() && Exact(s, db) && forall x :: x in ids ==> HasDoc(s, db, x)
    ensures var r := Run(s, db, Deletes(ids), |ids|);
            if id in ids then s.BodyKey(id) !in r else SameBody(s, r, db, id)
  {
    hide Exact, Run;
    if id in ids {
      var j :| 0 <= j < |ids| && ids[j] == id;
      DeletesPrepared(s, db, ids, 0);
      RunSettled(s, db, Deletes(ids), |ids|, j);
    } else {
      RunElsewhere(s, db, Deletes(ids), |ids|, id);
    }
  }

  // ---- Counting repeated deletes -----------------------------------------------

  /** No document is named twice, or every stored document is named. */
  ghost predicate Countable(s: Space, db: Db, ids: seq<bytes>) {
    NoDuplicates(ids) || Covers(s, db, ids)
  }

  ghost predicate Covers(s: Space, db: Db, ids: seq<bytes>) {
    forall id :: HasDoc(s, db, id) ==> id in ids
  }

  lemma CountableOnce(s: Space, db: Db, ids: seq<bytes>)
    requires NoDuplicates(ids)
    ensures Countable(s, db, ids)
  {
  }

  /** How many different documents a list names. */
  function Different(ids: seq<bytes>): (n: nat)
    ensures n <= |ids|
  {
    if ids == [] then 0
    else
      var front := ids[..|ids| - 1];
      Different(front) + if ids[|ids| - 1] in front then 0 else 1
  }

  lemma {:induction false} DifferentExact(ids: seq<bytes>)
    ensures Different(ids) == |ids| <==> NoDuplicates(ids)
  {
    if ids != [] {
      var n := |ids| - 1;
      DifferentExact(ids[..n]);
      assert ids[n] in ids[..n] ==> exists i :: 0 <= i < n && ids[i] == ids[n];
    }
  }

  /** Counters at which every count is `n`. */
  function Level(c: Counters, n: nat): Counters {
    Counters(n, seq(|c.entries|, i => n))
  }

  lemma BumpLevel(c: Counters, n: nat, delta: int)
    ensures Bump(Level(c, n), delta) == Level(c, Saturate(n, delta))
  {
  }

  /** The counters take one off for each name in the list, down to zero. */
  lemma {:induction false} DeletesTally(s: Space, db: Db, c: Counters, ids: seq<bytes>, n: nat)
    requires n <= |ids| && c == Level(c, c.docs)
    ensures Tally(s, db, c, Deletes(ids), n) == Level(c, if n <= c.docs then c.docs - n else 0)
  {
    hide Bump, Level;
    if n > 0 {
      DeletesTally(s, db, c, ids, n - 1);
      BumpLevel(c, if n - 1 <= c.docs then c.docs - (n - 1) else 0, -1);
    }
  }

  lemma DeletesAt(s: Space, db: Db, ids: seq<bytes>, n: nat)
    requires n < |ids| && s.Valid() && Exact(s, db) && forall x :: x in ids ==> HasDoc(s, db, x)
    ensures HasDoc(s, Run(s, db, Deletes(ids), n), ids[n]) <==> ids[n] !in ids[..n]
  {
    hide Exact, Run;
    DeletesPrepared(s, db, ids, 0);
    if ids[n] in ids[..n] {
      var j :| 0 <= j < n && ids[j] == ids[n];
      RunSettled(s, db, Deletes(ids), n, j);
    } else {
      RunElsewhere(s, db, Deletes(ids), n, ids[n]);
      assert ids[n] in ids;
    }
  }

  /** The true counts fall by one for each different document. */
  lemma {:induction false} DeletesTrueTally(s: Space, db: Db, c: Counters, ids: seq<bytes>, n: nat)
    requires n <= |ids| && s.Valid() && Exact(s, db) && Counted(s, db, c) && c == Level(c, c.docs)
    requires forall x :: x in ids ==> HasDoc(s, db, x)
    ensures Different(ids[..n]) <= c.docs && TrueTally(s, db, c, Deletes(ids), n) == Level(c, c.docs - Different(ids[..n]))
  {
    hide Bump, Level, Exact, Counted, Run;
    if n > 0 {
      DeletesTrueTally(s, db, c, ids, n - 1);
      DeletesAt(s, db, ids, n - 1);
      assert ids[..n][..n - 1] == ids[..n - 1];
      var before, left: nat := Run(s, db, Deletes(ids), n - 1), c.docs - Different(ids[..n - 1]);
      RunCounted(s, db, c, Deletes(ids), n - 1);
      BumpLevel(c, left, -1);
      BumpLevel(c, left, 0);
      LevelDocs(c, left);
      SomeDoc(s, before, ids[n - 1], TrueTally(s, db, c, Deletes(ids), n - 1));
    }
  }

  lemma LevelDocs(c: Counters, n: nat)
    ensures Level(c, n).docs == n
  {
  }

  lemma SomeDoc(s: Space, db: Db, id: bytes, c: Counters)
    requires Counted(s, db, c)
    ensures HasDoc(s, db, id) ==> c.docs > 0
  {
    BodyUnderBodies(s, id);
    if HasDoc(s, db, id) {
      assert s.BodyKey(id) in DocKeys(s, db);
    }
  }

  lemma LevelsDiffer(c: Counters, m: nat, n: nat)
    ensures Level(c, m) == Level(c, n) <==> m == n
  {
    LevelDocs(c, m);
    LevelDocs(c, n);
  }

  /** Nothing is left exactly when every stored document was named. */
  lemma DeletesCover(s: Space, db: Db, ids: seq<bytes>)
    requires s.Valid() && Exact(s, db) && forall x :: x in ids ==> HasDoc(s, db, x)
    ensures DocKeys(s, Run(s, db, Deletes(ids), |ids|)) == {} <==> Covers(s, db, ids)
  {
    hide Exact, Run, SameBody;
    var r := Run(s, db, Deletes(ids), |ids|);
    RunExact(s, db, Deletes(ids), |ids|);
    if Covers(s, db, ids) {
      forall k | k in DocKeys(s, r) ensures false {
        StoredDoc(s, r, k);
        var id := DocIdFromDocKey(|s.prefix|, k);
        DeletesRun(s, db, ids, id);
        SameDoc(s, r, db, id);
      }
    } else {
      var id :| HasDoc(s, db, id) && id !in ids;
      DeletesRun(s, db, ids, id);
      SameDoc(s, r, db, id);
      BodyUnderBodies(s, id);
      assert s.BodyKey(id) in DocKeys(s, r);
    }
  }

  lemma SameDoc(s: Space, a: Db, b: Db, id: bytes)
    requires SameBody(s, a, b, id)
    ensures HasDoc(s, a, id) <==> HasDoc(s, b, id)
  {
  }

  lemma StoredDoc(s: Space, db: Db, k: bytes)
    requires s.Valid() && Exact(s, db) && k in DocKeys(s, db)
    ensures var id := DocIdFromDocKey(|s.prefix|, k); k == s.BodyKey(id) && HasDoc(s, db, id)
  {
    DocKeyOf(s.prefix, s.coll.id, k);
  }

  /** The counters are true after deleting a list exactly when it repeats no document or names them
      all: each repeat takes off one too many, and only zero forgives it. */
  lemma DeletesCounted(s: Space, db: Db, c: Counters, ids: seq<bytes>)
    requires s.Valid() && Exact(s, db) && Counted(s, db, c) && forall x :: x in ids ==> HasDoc(s, db, x)
    ensures Counted(s, Run(s, db, Deletes(ids), |ids|), Tally(s, db, c, Deletes(ids), |ids|)) <==> Countable(s, db, ids)
  {
    hide Exact, Counted, Run, Tally, TrueTally, Level, Different, NoDuplicates, Covers, DocKeys;
    var n := |ids|;
    EqualLevels(s, db, c);
    assert ids[..n] == ids;
    TallyExact(s, db, c, Deletes(ids), n);
    DeletesTally(s, db, c, ids, n);
    DeletesTrueTally(s, db, c, ids, n);
    LevelsDiffer(c, if n <= c.docs then c.docs - n else 0, c.docs - Different(ids));
    DifferentExact(ids);
    RunCounted(s, db, c, Deletes(ids), n);
    TrueDocs(s, Run(s, db, Deletes(ids), n), TrueTally(s, db, c, Deletes(ids), n));
    LevelDocs(c, c.docs - Different(ids));
    DeletesCover(s, db, ids);
  }

  /** Of two documents, naming one twice leaves every count one short. */
  lemma RepeatedDeleteDrifts(s: Space, a: bytes, b: bytes, doc: Value, c: Counters)
    requires s.Valid() && a != b
    requires Counted(s, UpsertDb(s, UpsertDb(s, map[], a, doc, 0), b, doc, 0), c)
    ensures var db := UpsertDb(s, UpsertDb(s, map[], a, doc, 0), b, doc, 0);
            && Exact(s, db) && HasDoc(s, db, a) && HasDoc(s, db, b)
            && !Counted(s, Run(s, db, Deletes([a, a]), 2), Tally(s, db, c, Deletes([a, a]), 2))
  {
    hide UpsertDb, Counted, Run, Tally, Deletes;
    assert Exact(s, map[]);
    hide Exact;
    var one := UpsertDb(s, map[], a, doc, 0);
    var db := UpsertDb(s, one, b, doc, 0);
    UpsertExact(s, map[], a, doc, 0);
    UpsertExact(s, one, b, doc, 0);
    UpsertCells(s, map[], a, doc, 0, s.BodyKey(a));
    OtherBodies(s, one, b, doc, 0, a);
    UpsertCells(s, one, b, doc, 0, s.BodyKey(b));
    assert [a, a][0] == [a, a][1] && b !in [a, a];
    DeletesCounted(s, db, c, [a, a]);
  }

  lemma TrueDocs(s: Space, db: Db, c: Counters)
    requires Counted(s, db, c)
    ensures c.docs == 0 <==> DocKeys(s, db) == {}
  {
  }

  lemma EqualLevels(s: Space, db: Db, c: Counters)
    requires s.Valid() && Exact(s, db) && Counted(s, db, c)
    ensures c == Level(c, c.docs)
  {
    hide Exact, Counted;
    EqualCounts(s, db, c);
  }

  lemma EqualCounts(s: Space, db: Db, c: Counters)
    requires s.Valid() && Exact(s, db) && Counted(s, db, c)
    ensures c.docs == |DocKeys(s, db)| && forall i :: 0 <= i < |c.entries| ==> c.entries[i] == c.docs
  {
    hide DocKeys, IndexKeys, Exact;
    forall i | 0 <= i < |c.entries| ensures c.entries[i] == c.docs {
      OneEntryEach(s, db, i);
    }
  }

  function EntryOfBody(s: Space, db: Db, i: nat, k: bytes): bytes
    requires i < |s.coll.indexes| && k in db && db[k].stored.Body?
  {
    s.Entry(i, db[k].stored.doc, DocIdFromDocKey(|s.prefix|, k))
  }

  /** In an exact state every index holds one entry for each document. */
  lemma OneEntryEach(s: Space, db: Db, i: nat)
    requires s.Valid() && Exact(s, db) && i < |s.coll.indexes|
    ensures |IndexKeys(s, db, i)| == |DocKeys(s, db)|
  {
    var bodies, entries := DocKeys(s, db), IndexKeys(s, db, i);
    forall k | k in bodies ensures EntryOfBody(s, db, i, k) in entries {
      DocKeyOf(s.prefix, s.coll.id, k);
      var id := DocIdFromDocKey(|s.prefix|, k);
      assert HasDoc(s, db, id);
      EntryUnderHead(s, i, DocOf(s, db, id), id);
    }
    forall e | e in entries ensures exists k :: k in bodies && EntryOfBody(s, db, i, k) == e {
      assert DerivedCell(s, db, i, e);
      var id := db[e].stored.id;
      BodyUnderBodies(s, id);
      DocKeyRoundTrip(s.prefix, s.coll.id, id);
      assert s.BodyKey(id) in bodies && EntryOfBody(s, db, i, s.BodyKey(id)) == e;
    }
    forall a, b | a in bodies && b in bodies && EntryOfBody(s, db, i, a) == EntryOfBody(s, db, i, b) ensures a == b {
      DocKeyOf(s.prefix, s.coll.id, a);
      DocKeyOf(s.prefix, s.coll.id, b);
      EntryNamesDoc(s, i, db[a].stored.doc, DocIdFromDocKey(|s.prefix|, a), db[b].stored.doc, DocIdFromDocKey(|s.prefix|, b));
    }
    Bijection(bodies, entries, map k | k in bodies :: EntryOfBody(s, db, i, k));
  }

  lemma {:induction false} Bijection(a: set<bytes>, b: set<bytes>, f: map<bytes, bytes>)
    requires a <= f.Keys && forall k :: k in a ==> f[k] in b
    requires forall e :: e in b ==> exists k :: k in a && f[k] == e
    requires forall j, k :: j in a && k in a && f[j] == f[k] ==> j == k
    ensures |a| == |b|
    decreases a
  {
    if a == {} {
      assert b == {};
    } else {
      var k :| k in a;
      Bijection(a - {k}, b - {f[k]}, f);
    }
  }

  // ---- Updating many -----------------------------------------------------------

  /** The step of each chosen document: its updated body, or nothing where the update fails. */
  function UpdateStep(s: Space, db: Db, id: bytes, update: Value -> Option<Value>, expiry: Value -> nat): (r: Step)
    ensures r.id == id
  {
    if HasDoc(s, db, id) && update(DocOf(s, db, id)).Some? then
      var next := update(DocOf(s, db, id)).value;
      Upsert(id, next, expiry(next))
    else Skip(id)
  }

  function Updates(s: Space, db: Db, ids: seq<bytes>, update: Value -> Option<Value>, expiry: Value -> nat): (r: seq<Step>)
    ensures |r| == |ids|
  {
    seq(|ids|, i requires 0 <= i < |ids| => UpdateStep(s, db, ids[i], update, expiry))
  }

  ghost predicate AllUpserts(steps: seq<Step>) {
    forall j :: 0 <= j < |steps| ==> steps[j].Upsert?
  }

  /** The unique values taken by the steps so far, by index. */
  ghost predicate Claims(s: Space, steps: seq<Step>, claimed: set<(nat, bytes)>)
    requires AllUpserts(steps)
  {
    forall p :: p in claimed <==> p.0 < |s.coll.indexes| && s.coll.indexes[p.0].unique && exists j :: 0 <= j < |steps| && Encoded(s, p.0, steps[j].doc) == p.1
  }

  lemma BumpNone(c: Counters)
    ensures BumpAll(c, []) == c
  {
  }

  lemma NothingDone(s: Space, db: Db, now: nat)
    ensures Unclaimed(s, db, now, []) && Claims(s, [], {})
  {
  }

  lemma ClaimedClash(s: Space, done: seq<Step>, claimed: set<(nat, bytes)>, doc: Value, i: nat)
    requires AllUpserts(done) && Claims(s, done, claimed) && i < |s.coll.indexes| && (i, Encoded(s, i, doc)) in claimed
    ensures exists j :: 0 <= j < |done| && !Apart(s, done[j].doc, doc)
  {
    hide Encoded;
    var p := (i, Encoded(s, i, doc));
    assert p in claimed;
    var j :| 0 <= j < |done| && Encoded(s, p.0, done[j].doc) == p.1;
    assert !Apart(s, done[j].doc, doc);
  }

  lemma ClaimedFree(s: Space, done: seq<Step>, claimed: set<(nat, bytes)>, doc: Value)
    requires AllUpserts(done) && Claims(s, done, claimed)
    requires forall k :: 0 <= k < |s.coll.indexes| && s.coll.indexes[k].unique ==> (k, Encoded(s, k, doc)) !in claimed
    ensures forall j :: 0 <= j < |done| ==> Apart(s, done[j].doc, doc)
  {
    hide Encoded;
    forall j, i | 0 <= j < |done| && 0 <= i < |s.coll.indexes| && s.coll.indexes[i].unique
      ensures Encoded(s, i, done[j].doc) != Encoded(s, i, doc)
    {
      var p := (i, Encoded(s, i, doc));
      assert p !in claimed;
    }
  }

  lemma ClaimsGrow(s: Space, done: seq<Step>, claimed: set<(nat, bytes)>, grown: set<(nat, bytes)>, step: Step)
    requires AllUpserts(done) && Claims(s, done, claimed) && step.Upsert?
    requires forall p :: p in grown <==> p in claimed || (p.0 < |s.coll.indexes| && s.coll.indexes[p.0].unique && p.1 == Encoded(s, p.0, step.doc))
    ensures Claims(s, done + [step], grown)
  {
    hide Encoded;
    var all := done + [step];
    forall p ensures p in grown <==> p.0 < |s.coll.indexes| && s.coll.indexes[p.0].unique && exists j :: 0 <= j < |all| && Encoded(s, p.0, all[j].doc) == p.1 {
      if p in claimed {
        var j :| 0 <= j < |done| && Encoded(s, p.0, done[j].doc) == p.1;
        assert all[j] == done[j];
      }
      if p.0 < |s.coll.indexes| && p.1 == Encoded(s, p.0, step.doc) {
        assert all[|done|] == step;
      }
    }
  }

  // ---- Unique checks -----------------------------------------------------------

  ghost predicate FreeIn(s: Space, db: Db, now: nat, i: nat, doc: Value, id: bytes)
    requires i < |s.coll.indexes|
  {
    forall other :: other != id && LiveDoc(s, db, now, other) ==> Encoded(s, i, DocOf(s, db, other)) != Encoded(s, i, doc)
  }

  lemma FreeParts(s: Space, db: Db, now: nat, doc: Value, id: bytes)
    ensures Free(s, db, now, doc, id) <==> forall i :: 0 <= i < |s.coll.indexes| && s.coll.indexes[i].unique ==> FreeIn(s, db, now, i, doc, id)
  {
    hide Encoded, LiveDoc;
  }

  lemma FreeIffNoConflict(s: Space, db: Db, now: nat, i: nat, doc: Value, id: bytes)
    requires s.Valid() && Exact(s, db) && i < |s.coll.indexes|
    ensures FreeIn(s, db, now, i, doc, id) <==> !Conflict(s, db, now, i, Encoded(s, i, doc), id)
  {
    hide Encoded, LiveDoc, Conflict, Exact;
    ConflictExact(s, db, now, i, doc, id);
  }

  lemma OneStep(s: Space, db: Db, now: nat, step: Step)
    requires step.Upsert? && Free(s, db, now, step.doc, step.id)
    ensures Prepared(s, db, [step]) && Unclaimed(s, db, now, [step]) && DistinctIds([step])
    ensures Run(s, db, [step], 1) == UpsertDb(s, db, step.id, step.doc, step.expiresAt)
  {
    hide Free, UpsertDb;
    assert Run(s, db, [step], 0) == db;
  }

  lemma UnclaimedSnoc(s: Space, db: Db, now: nat, done: seq<Step>, step: Step)
    requires step.Upsert? && AllUpserts(done) && Unclaimed(s, db, now, done)
    requires Free(s, db, now, step.doc, step.id) && forall j :: 0 <= j < |done| ==> Apart(s, done[j].doc, step.doc)
    ensures Unclaimed(s, db, now, done + [step])
  {
    hide Free, Apart;
  }

  lemma UpdatesSnoc(s: Space, db: Db, ids: seq<bytes>, i: nat, filter: Option<Filter>, now: nat, update: Value -> Option<Value>, expiry: Value -> nat)
    requires i < |ids|
    ensures Updates(s, db, Chosen(s, db, ids[..i + 1], filter, now), update, expiry)
         == Updates(s, db, Chosen(s, db, ids[..i], filter, now), update, expiry)
            + if Selected(s, db, ids[i], filter, now) then [UpdateStep(s, db, ids[i], update, expiry)] else []
  {
    hide Selected, UpdateStep;
    assert ids[..i + 1][..i] == ids[..i];
  }

  lemma {:induction false} ChosenPrefix(s: Space, db: Db, ids: seq<bytes>, i: nat, filter: Option<Filter>, now: nat)
    requires i <= |ids|
    ensures Chosen(s, db, ids[..i], filter, now) <= Chosen(s, db, ids, filter, now)
  {
    hide Selected;
    if i < |ids| {
      ChosenPrefix(s, db, ids[..|ids| - 1], i, filter, now);
      assert ids[..|ids| - 1][..i] == ids[..i];
    } else {
      assert ids[..i] == ids;
    }
  }

  /** The steps prepared so far begin the whole list of steps. */
  lemma UpdatesPrefix(s: Space, db: Db, ids: seq<bytes>, i: nat, filter: Option<Filter>, now: nat, update: Value -> Option<Value>, expiry: Value -> nat)
    requires i <= |ids|
    ensures Updates(s, db, Chosen(s, db, ids[..i], filter, now), update, expiry) <= Updates(s, db, Chosen(s, db, ids, filter, now), update, expiry)
  {
    hide Chosen, UpdateStep;
    ChosenPrefix(s, db, ids, i, filter, now);
    var a, b := Chosen(s, db, ids[..i], filter, now), Chosen(s, db, ids, filter, now);
    assert forall j :: 0 <= j < |a| ==> a[j] == b[j];
  }

  lemma ClashRefused(s: Space, db: Db, now: nat, ids: seq<bytes>, i: nat, filter: Option<Filter>, update: Value -> Option<Value>, expiry: Value -> nat, step: Step)
    requires i < |ids| && Selected(s, db, ids[i], filter, now) && step.Upsert? && step == UpdateStep(s, db, ids[i], update, expiry)
    requires var done := Updates(s, db, Chosen(s, db, ids[..i], filter, now), update, expiry);
             AllUpserts(done) && exists j :: 0 <= j < |done| && !Apart(s, done[j].doc, step.doc)
    ensures !Unclaimed(s, db, now, Updates(s, db, Chosen(s, db, ids, filter, now), update, expiry))
  {
    hide Free, Apart, Chosen, Selected, UpdateStep;
    var done := Updates(s, db, Chosen(s, db, ids[..i], filter, now), update, expiry);
    var full := Updates(s, db, Chosen(s, db, ids, filter, now), update, expiry);
    UpdatesSnoc(s, db, ids, i, filter, now, update, expiry);
    UpdatesPrefix(s, db, ids, i + 1, filter, now, update, expiry);
    var j :| 0 <= j < |done| && !Apart(s, done[j].doc, step.doc);
    assert full[j] == (done + [step])[j] && full[|done|] == (done + [step])[|done|];
  }

  lemma HeldRefused(s: Space, db: Db, now: nat, ids: seq<bytes>, i: nat, filter: Option<Filter>, update: Value -> Option<Value>, expiry: Value -> nat, step: Step)
    requires i < |ids| && Selected(s, db, ids[i], filter, now) && step.Upsert? && step == UpdateStep(s, db, ids[i], update, expiry)
    requires !Free(s, db, now, step.doc, step.id)
    ensures !Unclaimed(s, db, now, Updates(s, db, Chosen(s, db, ids, filter, now), update, expiry))
  {
    hide Free, Apart, Chosen, Selected, UpdateStep;
    var done := Updates(s, db, Chosen(s, db, ids[..i], filter, now), update, expiry);
    var full := Updates(s, db, Chosen(s, db, ids, filter, now), update, expiry);
    UpdatesSnoc(s, db, ids, i, filter, now, update, expiry);
    UpdatesPrefix(s, db, ids, i + 1, filter, now, update, expiry);
    assert full[|done|] == (done + [step])[|done|];
  }

  /** The step of the document reached, in the whole list. */
  lemma StepInList(s: Space, db: Db, ids: seq<bytes>, i: nat, filter: Option<Filter>, now: nat, update: Value -> Option<Value>, expiry: Value -> nat)
    returns (j: nat)
    requires i < |ids| && Selected(s, db, ids[i], filter, now)
    ensures var full := Updates(s, db, Chosen(s, db, ids, filter, now), update, expiry);
            j < |full| && full[j] == UpdateStep(s, db, ids[i], update, expiry)
  {
    hide Chosen, Selected, UpdateStep;
    var done := Updates(s, db, Chosen(s, db, ids[..i], filter, now), update, expiry);
    UpdatesSnoc(s, db, ids, i, filter, now, update, expiry);
    UpdatesPrefix(s, db, ids, i + 1, filter, now, update, expiry);
    j := |done|;
    assert (done + [UpdateStep(s, db, ids[i], update, expiry)])[j] == UpdateStep(s, db, ids[i], update, expiry);
  }

  lemma UpdateFails(s: Space, db: Db, ids: seq<bytes>, i: nat, filter: Option<Filter>, now: nat, update: Value -> Option<Value>, expiry: Value -> nat)
    requires i < |ids| && Selected(s, db, ids[i], filter, now) && HasDoc(s, db, ids[i]) && update(DocOf(s, db, ids[i])).None?
    ensures !AllUpserts(Updates(s, db, Chosen(s, db, ids, filter, now), update, expiry))
  {
    hide Chosen, Selected, HasDoc;
    var j := StepInList(s, db, ids, i, filter, now, update, expiry);
  }

  lemma UpdateTooLarge(s: Space, db: Db, ids: seq<bytes>, i: nat, filter: Option<Filter>, now: nat, update: Value -> Option<Value>, expiry: Value -> nat, step: Step)
    requires i < |ids| && Selected(s, db, ids[i], filter, now) && step == UpdateStep(s, db, ids[i], update, expiry) && !Fitting(s, db, step)
    ensures !AllFit(s, db, Updates(s, db, Chosen(s, db, ids, filter, now), update, expiry))
  {
    hide Chosen, Selected, Fitting, UpdateStep;
    var j := StepInList(s, db, ids, i, filter, now, update, expiry);
  }

  lemma DeleteTooLarge(s: Space, db: Db, ids: seq<bytes>, i: nat, filter: Option<Filter>, now: nat)
    requires i < |ids| && Selected(s, db, ids[i], filter, now) && !Fitting(s, db, Delete(ids[i]))
    ensures !AllFit(s, db, Deletes(Chosen(s, db, ids, filter, now)))
  {
    hide Selected, Fitting;
    ChosenDocs(s, db, ids, filter, now);
    assert ids[i] in ids;
    var chosen := Chosen(s, db, ids, filter, now);
    var j :| 0 <= j < |chosen| && chosen[j] == ids[i];
    assert Deletes(chosen)[j] == Delete(ids[i]);
  }

  lemma UpdatesPrepared(s: Space, db: Db, ids: seq<bytes>, update: Value -> Option<Value>, expiry: Value -> nat)
    ensures Prepared(s, db, Updates(s, db, ids, update, expiry))
  {
  }

  /** Replacing stored documents moves no count, however often. */
  lemma {:induction false} UpsertsTally(s: Space, db: Db, c: Counters, steps: seq<Step>, n: nat)
    requires n <= |steps| && s.Valid() && Exact(s, db) && Prepared(s, db, steps) && AllUpserts(steps)
    requires forall j :: 0 <= j < |steps| ==> HasDoc(s, db, steps[j].id)
    ensures Tally(s, db, c, steps, n) == c == TrueTally(s, db, c, steps, n)
  {
    hide Exact, Run, Bump, Prepared;
    if n > 0 {
      UpsertsTally(s, db, c, steps, n - 1);
      BumpZero(c);
      if j :| 0 <= j < n - 1 && steps[j].id == steps[n - 1].id {
        RunSettled(s, db, steps, n - 1, j);
      } else {
        RunElsewhere(s, db, steps, n - 1, steps[n - 1].id);
      }
    }
  }

  lemma UpdatesTally(s: Space, db: Db, c: Counters, ids: seq<bytes>, update: Value -> Option<Value>, expiry: Value -> nat)
    requires s.Valid() && Exact(s, db) && (forall x :: x in ids ==> HasDoc(s, db, x)) && AllUpserts(Updates(s, db, ids, update, expiry))
    ensures var steps := Updates(s, db, ids, update, expiry);
            forall n :: 0 <= n <= |steps| ==> Tally(s, db, c, steps, n) == TrueTally(s, db, c, steps, n)
  {
    hide Exact, Prepared, Tally, TrueTally, HasDoc;
    var steps := Updates(s, db, ids, update, expiry);
    UpdatesPrepared(s, db, ids, update, expiry);
    forall n | 0 <= n <= |steps| ensures Tally(s, db, c, steps, n) == TrueTally(s, db, c, steps, n) {
      assert forall j :: 0 <= j < |steps| ==> ids[j] in ids && steps[j].id == ids[j];
      UpsertsTally(s, db, c, steps, n);
    }
  }

  /** A chosen document holds its updated body and expiry; any other is as it was. */
  ghost predicate UpdatedTo(s: Space, db: Db, r: Db, ids: seq<bytes>, update: Value -> Option<Value>, expiry: Value -> nat, id: bytes) {
    if id in ids
    then && HasDoc(s, db, id) && HasDoc(s, r, id)
         && update(DocOf(s, db, id)) == Some(DocOf(s, r, id)) && ExpiryOf(s, r, id) == expiry(DocOf(s, r, id))
    else SameBody(s, r, db, id)
  }

  /** After the updates each document named holds its updated body and no other body moved. */
  lemma UpdatesRun(s: Space, db: Db, ids: seq<bytes>, update: Value -> Option<Value>, expiry: Value -> nat, id: bytes)
    requires s.Valid() && Exact(s, db) && (forall x :: x in ids ==> HasDoc(s, db, x)) && AllUpserts(Updates(s, db, ids, update, expiry))
    ensures UpdatedTo(s, db, Run(s, db, Updates(s, db, ids, update, expiry), |ids|), ids, update, expiry, id)
  {
    hide Exact, Run, Prepared;
    var steps := Updates(s, db, ids, update, expiry);
    if id in ids {
      var j :| 0 <= j < |ids| && ids[j] == id;
      UpdatesPrepared(s, db, ids, update, expiry);
      RunSettled(s, db, steps, |ids|, j);
      assert steps[j].Upsert?;
    } else {
      RunElsewhere(s, db, steps, |ids|, id);
    }
  }

  lemma BuildsFit(s: Space, db: Db, step: Step, w: WriteOps)
    requires Builds(s, db, step, w)
    ensures forall j :: 0 <= j < |[w]| ==> Builds(s, db, [step][j], [w][j])
  {
  }

  lemma ReallyIndexed(s: Space, db: Db, c: Counters, now: nat)
    ensures Indexed(Durable(s, db, c), now) <==> s.Valid() && Exact(s, db) && Unique(s, db, now)
    ensures Consistent(Durable(s, db, c), now) <==> s.Valid() && Exact(s, db) && Unique(s, db, now) && Counted(s, db, c)
  {
  }
}
