/** Reading a collection through an access path over a fixed snapshot, and why the path chosen
    does not change the answer. */
module Query {
  import opened Bytes
  import opened Values
  import opened Encoding
  import opened Filters
  import opened Keys
  import opened Planner

  /** What a key holds: a document body, or the id an index entry points to. */
  datatype Stored = Body(doc: Value) | Ref(id: bytes)

  datatype Entry = Entry(key: bytes, stored: Stored)

  datatype Row = Row(id: bytes, doc: Value)

  /** A matching row and the key it was reached through. */
  datatype Hit = Hit(key: bytes, row: Row)

  // ---- Snapshots ---------------------------------------------------------------

  ghost predicate Ascending(entries: seq<Entry>) {
    forall i, j :: 0 <= i < j < |entries| ==> Less(entries[i].key, entries[j].key)
  }

  function Get(entries: seq<Entry>, key: bytes): Option<Stored> {
    if entries == [] then None
    else if entries[0].key == key then Some(entries[0].stored)
    else Get(entries[1..], key)
  }

  function Scan(entries: seq<Entry>, lo: bytes, hi: bytes): seq<Entry> {
    if entries == [] then []
    else if InRange(entries[0].key, lo, hi) then [entries[0]] + Scan(entries[1..], lo, hi)
    else Scan(entries[1..], lo, hi)
  }

  lemma {:induction false} GetExact(entries: seq<Entry>, key: bytes, stored: Stored)
    requires Ascending(entries)
    ensures Get(entries, key) == Some(stored) <==> Entry(key, stored) in entries
  {
    if entries != [] {
      assert entries == [entries[0]] + entries[1..];
      GetExact(entries[1..], key, stored);
      LessIrreflexive(key);
    }
  }

  lemma {:induction false} ScanExact(entries: seq<Entry>, lo: bytes, hi: bytes)
    ensures forall e :: e in Scan(entries, lo, hi) <==> e in entries && InRange(e.key, lo, hi)
  {
    if entries != [] {
      assert entries == [entries[0]] + entries[1..];
      ScanExact(entries[1..], lo, hi);
    }
  }

  lemma {:induction false} ScanAscending(entries: seq<Entry>, lo: bytes, hi: bytes)
    requires Ascending(entries)
    ensures Ascending(Scan(entries, lo, hi))
  {
    if entries != [] {
      ScanAscending(entries[1..], lo, hi);
      ScanExact(entries[1..], lo, hi);
      var rest := Scan(entries[1..], lo, hi);
      forall j | 0 <= j < |rest| ensures Less(entries[0].key, rest[j].key) {
        assert rest[j] in rest;
        var i :| 0 <= i < |entries[1..]| && entries[1..][i] == rest[j];
      }
    }
  }

  // ---- Candidates and the residual filter --------------------------------------

  function Candidates(snap: seq<Entry>, prefix: bytes, c: nat, path: AccessPath): seq<Entry> {
    match path
    case ById(id) =>
      var key := DocKey(prefix, c, id);
      (match Get(snap, key) case Some(stored) => [Entry(key, stored)] case None => [])
    case IndexScan(lo, hi, _, _, _) => Scan(snap, lo, hi)
    case CollectionScan => Scan(snap, DocPrefix(prefix, c), UpperBound(DocPrefix(prefix, c)))
  }

  function Residual(filter: Filter, id: bytes, doc: Value): Option<Row> {
    if Matches(filter, doc, Some(id)) then Some(Row(id, doc)) else None
  }

  /** Resolve a candidate to its document and re-evaluate the whole filter on it. */
  function RowOf(snap: seq<Entry>, prefix: bytes, c: nat, filter: Filter, e: Entry): Option<Row> {
    match e.stored
    case Body(doc) => Residual(filter, DocIdFromDocKey(|prefix|, e.key), doc)
    case Ref(id) =>
      match Get(snap, DocKey(prefix, c, id))
      case Some(Body(doc)) => Residual(filter, id, doc)
      case _ => None
  }

  function Hits(snap: seq<Entry>, prefix: bytes, c: nat, filter: Filter, es: seq<Entry>): seq<Hit> {
    if es == [] then []
    else
      var front := Hits(snap, prefix, c, filter, es[..|es| - 1]);
      match RowOf(snap, prefix, c, filter, es[|es| - 1])
      case Some(row) => front + [Hit(es[|es| - 1].key, row)]
      case None => front
  }

  /** Everything a query visits through a path, in scan order. */
  function Found(snap: seq<Entry>, prefix: bytes, c: nat, filter: Filter, path: AccessPath): seq<Hit> {
    Hits(snap, prefix, c, filter, Candidates(snap, prefix, c, path))
  }

  datatype Stats = Stats(candidates: nat, matched: nat)

  /** The matches a visitor sees: in order, up to the first it does not go on from. */
  ghost predicate Visited(found: seq<Hit>, goOn: seq<Hit> -> bool, hits: seq<Hit>) {
    && hits <= found
    && (forall n :: 0 < n < |hits| ==> goOn(hits[..n]))
    && (hits == found || (hits != [] && !goOn(hits)))
  }

  /** The visitor goes on after each of the hits. */
  ghost predicate Keen(goOn: seq<Hit> -> bool, hits: seq<Hit>) {
    forall n :: 0 < n <= |hits| ==> goOn(hits[..n])
  }

  lemma KeenSnoc(goOn: seq<Hit> -> bool, hits: seq<Hit>, h: Hit)
    requires Keen(goOn, hits)
    ensures goOn(hits + [h]) ==> Keen(goOn, hits + [h])
    ensures forall n :: 0 < n < |hits + [h]| ==> goOn((hits + [h])[..n])
  {
    assert forall n :: 0 <= n <= |hits| ==> (hits + [h])[..n] == hits[..n];
    assert (hits + [h])[..|hits| + 1] == hits + [h];
  }

  lemma HitsSnoc(snap: seq<Entry>, prefix: bytes, c: nat, filter: Filter, es: seq<Entry>, i: nat)
    requires i < |es|
    ensures var row := RowOf(snap, prefix, c, filter, es[i]);
            Hits(snap, prefix, c, filter, es[..i + 1]) == Hits(snap, prefix, c, filter, es[..i]) + if row.Some? then [Hit(es[i].key, row.value)] else []
  {
    hide RowOf;
    assert es[..i + 1][..i] == es[..i];
  }

  /** Visit matches until the visitor stops, refusing once more candidates than allowed have been
      examined. `goOn` is asked after each match, with those seen so far. */
  method ForEachMatch(snap: seq<Entry>, prefix: bytes, c: nat, filter: Filter, path: AccessPath, maxCandidates: Option<nat>, goOn: seq<Hit> -> bool)
    returns (r: Option<seq<Hit>>, stats: Stats)
    ensures r.Some? ==> Visited(Found(snap, prefix, c, filter, path), goOn, r.value) && stats.matched == |r.value|
    ensures r.Some? ==> stats.candidates <= |Candidates(snap, prefix, c, path)| && (maxCandidates.Some? ==> stats.candidates <= maxCandidates.value)
    ensures r.Some? ==> r.value == Hits(snap, prefix, c, filter, Candidates(snap, prefix, c, path)[..stats.candidates])
    ensures r.Some? && stats.candidates < |Candidates(snap, prefix, c, path)| ==> r.value != [] && !goOn(r.value)
    ensures r.None? ==> maxCandidates.Some? && maxCandidates.value < |Candidates(snap, prefix, c, path)|
    ensures r.None? ==> Keen(goOn, Hits(snap, prefix, c, filter, Candidates(snap, prefix, c, path)[..maxCandidates.value]))
  {
    hide Candidates, RowOf, Hits, Keen;
    var es := Candidates(snap, prefix, c, path);
    var hits: seq<Hit> := [];
    stats := Stats(0, 0);
    NothingVisited(snap, prefix, c, filter, es, goOn);
    for i := 0 to |es|
      invariant maxCandidates.Some? ==> i <= maxCandidates.value
      invariant hits == Hits(snap, prefix, c, filter, es[..i]) && stats == Stats(i, |hits|) && Keen(goOn, hits)
    {
      stats := stats.(candidates := stats.candidates + 1);
      if maxCandidates.Some? && stats.candidates > maxCandidates.value {
        return None, stats;
      }
      HitsSnoc(snap, prefix, c, filter, es, i);
      var row := RowOf(snap, prefix, c, filter, es[i]);
      if row.Some? {
        stats := stats.(matched := stats.matched + 1);
        KeenSnoc(goOn, hits, Hit(es[i].key, row.value));
        hits := hits + [Hit(es[i].key, row.value)];
        if !goOn(hits) {
          HitsPrefix(snap, prefix, c, filter, es, i + 1);
          return Some(hits), stats;
        }
      }
    }
    assert es[..|es|] == es;
    KeenVisited(goOn, hits);
    return Some(hits), stats;
  }

  lemma NothingVisited(snap: seq<Entry>, prefix: bytes, c: nat, filter: Filter, es: seq<Entry>, goOn: seq<Hit> -> bool)
    ensures Hits(snap, prefix, c, filter, es[..0]) == [] && Keen(goOn, [])
  {
  }

  lemma KeenVisited(goOn: seq<Hit> -> bool, hits: seq<Hit>)
    requires Keen(goOn, hits)
    ensures Visited(hits, goOn, hits)
  {
  }

  lemma {:induction false} HitsPrefix(snap: seq<Entry>, prefix: bytes, c: nat, filter: Filter, es: seq<Entry>, n: nat)
    requires n <= |es|
    ensures Hits(snap, prefix, c, filter, es[..n]) <= Hits(snap, prefix, c, filter, es)
  {
    hide RowOf;
    if n < |es| {
      HitsPrefix(snap, prefix, c, filter, es[..|es| - 1], n);
      assert es[..|es| - 1][..n] == es[..n];
    } else {
      assert es[..n] == es;
    }
  }

  // ---- What is visited ---------------------------------------------------------

  lemma {:induction false} HitsExact(snap: seq<Entry>, prefix: bytes, c: nat, filter: Filter, es: seq<Entry>, h: Hit)
    ensures h in Hits(snap, prefix, c, filter, es) <==>
            exists e :: e in es && e.key == h.key && RowOf(snap, prefix, c, filter, e) == Some(h.row)
  {
    hide RowOf;
    if es != [] {
      var n := |es| - 1;
      assert es == es[..n] + [es[n]];
      HitsExact(snap, prefix, c, filter, es[..n], h);
    }
  }

  ghost predicate HitsAscend(hits: seq<Hit>) {
    forall i, j :: 0 <= i < j < |hits| ==> Less(hits[i].key, hits[j].key)
  }

  lemma {:induction false} HitsOrdered(snap: seq<Entry>, prefix: bytes, c: nat, filter: Filter, es: seq<Entry>)
    requires Ascending(es)
    ensures HitsAscend(Hits(snap, prefix, c, filter, es))
  {
    if es != [] {
      var n := |es| - 1;
      HitsOrdered(snap, prefix, c, filter, es[..n]);
      var front := Hits(snap, prefix, c, filter, es[..n]);
      forall j | 0 <= j < |front| ensures Less(front[j].key, es[n].key) {
        HitsExact(snap, prefix, c, filter, es[..n], front[j]);
        assert front[j] in front;
        var e :| e in es[..n] && e.key == front[j].key;
        var i :| 0 <= i < n && es[..n][i] == e;
      }
    }
  }

  // ---- Agreement ---------------------------------------------------------------

  /** The live documents of a collection. */
  ghost predicate Holds(snap: seq<Entry>, prefix: bytes, c: nat, row: Row) {
    Get(snap, DocKey(prefix, c, row.id)) == Some(Body(row.doc))
  }

  ghost predicate EntriesSound(snap: seq<Entry>, prefix: bytes, c: nat, idx: IndexMeta) {
    forall e :: e in snap && IndexPrefix(prefix, c, idx.id) <= e.key ==>
      && e.stored.Ref?
      && exists row :: Holds(snap, prefix, c, row) && row.id == e.stored.id && e.key == EntryKey(prefix, c, idx, row.doc, row.id)
  }

  ghost predicate EntriesComplete(snap: seq<Entry>, prefix: bytes, c: nat, idx: IndexMeta) {
    forall row :: Holds(snap, prefix, c, row) ==>
      Entry(EntryKey(prefix, c, idx, row.doc, row.id), Ref(row.id)) in snap
  }

  ghost predicate BodiesOnly(snap: seq<Entry>, prefix: bytes, c: nat) {
    forall e :: e in snap && DocPrefix(prefix, c) <= e.key ==> e.stored.Body?
  }

  /** Every index holds exactly the entries derived from the live bodies. */
  ghost predicate Agrees(snap: seq<Entry>, prefix: bytes, coll: CollectionMeta) {
    && Ascending(snap) && BodiesOnly(snap, prefix, coll.id)
    && forall i :: 0 <= i < |coll.indexes| ==>
         EntriesSound(snap, prefix, coll.id, coll.indexes[i]) && EntriesComplete(snap, prefix, coll.id, coll.indexes[i])
  }

  /** A collection scan reaches the matching documents, each through its own key. */
  lemma CollectionRows(snap: seq<Entry>, prefix: bytes, c: nat, filter: Filter, h: Hit)
    requires Ascending(snap) && BodiesOnly(snap, prefix, c)
    ensures h in Found(snap, prefix, c, filter, CollectionScan) <==>
            Holds(snap, prefix, c, h.row) && Matches(filter, h.row.doc, Some(h.row.id)) && h.key == DocKey(prefix, c, h.row.id)
  {
    hide Matches, UpperBound, Scan, Hits;
    var es := Candidates(snap, prefix, c, CollectionScan);
    var dp := DocPrefix(prefix, c);
    ScanExact(snap, dp, UpperBound(dp));
    HitsExact(snap, prefix, c, filter, es, h);
    if h in Found(snap, prefix, c, filter, CollectionScan) {
      var e :| e in es && e.key == h.key && RowOf(snap, prefix, c, filter, e) == Some(h.row);
      PrefixRange(dp, e.key);
      DocKeyOf(prefix, c, e.key);
      GetExact(snap, e.key, e.stored);
    }
    if Holds(snap, prefix, c, h.row) && Matches(filter, h.row.doc, Some(h.row.id)) && h.key == DocKey(prefix, c, h.row.id) {
      var e := Entry(h.key, Body(h.row.doc));
      GetExact(snap, h.key, Body(h.row.doc));
      PrefixRange(dp, h.key);
      DocKeyRoundTrip(prefix, c, h.row.id);
      assert e in es && RowOf(snap, prefix, c, filter, e) == Some(h.row);
    }
  }

  ghost predicate ScanRow(snap: seq<Entry>, prefix: bytes, c: nat, filter: Filter, idx: IndexMeta, eqs: seq<Value>, range: Constraint, h: Hit)
    requires |eqs| <= |idx.fields|
  {
    && Holds(snap, prefix, c, h.row) && Matches(filter, h.row.doc, Some(h.row.id))
    && Admits(eqs, range, FieldValues(h.row.doc, idx.fields))
    && h.key == EntryKey(prefix, c, idx, h.row.doc, h.row.id)
  }

  lemma EntryReached(snap: seq<Entry>, prefix: bytes, c: nat, filter: Filter, idx: IndexMeta, eqs: seq<Value>, range: Constraint, h: Hit, e: Entry)
    requires EntriesSound(snap, prefix, c, idx)
    requires |eqs| <= |idx.fields| && (|eqs| == |idx.fields| ==> range == FREE)
    requires var path := BuildIndexScan(prefix, c, idx, eqs, range);
             path.IndexScan? && e in snap && InRange(e.key, path.lo, path.hi)
    requires e.key == h.key && RowOf(snap, prefix, c, filter, e) == Some(h.row)
    ensures ScanRow(snap, prefix, c, filter, idx, eqs, range, h)
  {
    hide Matches, BuildIndexScan, InRange, Admits;
    ScanInsideIndex(prefix, c, idx, eqs, range, e.key);
    var row :| Holds(snap, prefix, c, row) && row.id == e.stored.id && e.key == EntryKey(prefix, c, idx, row.doc, row.id);
    RangeExact(prefix, c, idx, eqs, range, FieldValues(row.doc, idx.fields), row.id);
  }

  lemma RowReached(snap: seq<Entry>, prefix: bytes, c: nat, filter: Filter, idx: IndexMeta, eqs: seq<Value>, range: Constraint, h: Hit)
    requires EntriesComplete(snap, prefix, c, idx)
    requires |eqs| <= |idx.fields| && (|eqs| == |idx.fields| ==> range == FREE)
    requires ScanRow(snap, prefix, c, filter, idx, eqs, range, h)
    ensures var path := BuildIndexScan(prefix, c, idx, eqs, range);
            var e := Entry(h.key, Ref(h.row.id));
            path.IndexScan? && e in snap && InRange(e.key, path.lo, path.hi) && RowOf(snap, prefix, c, filter, e) == Some(h.row)
  {
    hide Matches, BuildIndexScan, InRange, Admits;
    RangeExact(prefix, c, idx, eqs, range, FieldValues(h.row.doc, idx.fields), h.row.id);
  }

  /** An index scan reaches exactly the matching documents its bounds admit. */
  lemma IndexRows(snap: seq<Entry>, prefix: bytes, c: nat, filter: Filter, idx: IndexMeta, eqs: seq<Value>, range: Constraint, h: Hit)
    requires EntriesSound(snap, prefix, c, idx) && EntriesComplete(snap, prefix, c, idx)
    requires |eqs| <= |idx.fields| && (|eqs| == |idx.fields| ==> range == FREE)
    ensures h in Found(snap, prefix, c, filter, BuildIndexScan(prefix, c, idx, eqs, range)) <==>
            ScanRow(snap, prefix, c, filter, idx, eqs, range, h)
  {
    hide Scan, Hits, BuildIndexScan, RowOf, ScanRow, InRange;
    var path := BuildIndexScan(prefix, c, idx, eqs, range);
    ScanBounds(prefix, c, idx, eqs, range);
    var es := Candidates(snap, prefix, c, path);
    ScanExact(snap, path.lo, path.hi);
    HitsExact(snap, prefix, c, filter, es, h);
    if h in Hits(snap, prefix, c, filter, es) {
      var e :| e in es && e.key == h.key && RowOf(snap, prefix, c, filter, e) == Some(h.row);
      EntryReached(snap, prefix, c, filter, idx, eqs, range, h, e);
    }
    if ScanRow(snap, prefix, c, filter, idx, eqs, range, h) {
      RowReached(snap, prefix, c, filter, idx, eqs, range, h);
      assert Entry(h.key, Ref(h.row.id)) in es;
    }
  }

  // ---- Transparency ------------------------------------------------------------

  /** A literal the chosen range was built from is a zero, and the document stores the other one. */
  predicate ZeroClash(filter: Filter, fields: seq<Path>, doc: Value) {
    var preds := TopLevel(filter);
    var n := EqLen(fields, preds);
    Clashes(EqValues(fields, n, preds), RangeFor(fields, n, preds), FieldValues(doc, fields))
  }

  ghost predicate IdsFaithful(snap: seq<Entry>, prefix: bytes, coll: CollectionMeta) {
    forall row, i :: Holds(snap, prefix, coll.id, row) && 0 <= i < |coll.indexes| ==>
      IdFaithful(coll.indexes[i].fields, row.doc, row.id)
  }

  ghost predicate Visits(snap: seq<Entry>, prefix: bytes, c: nat, filter: Filter, path: AccessPath, row: Row) {
    exists h :: h in Found(snap, prefix, c, filter, path) && h.row == row
  }

  lemma CollectionVisits(snap: seq<Entry>, prefix: bytes, c: nat, filter: Filter, row: Row)
    requires Ascending(snap) && BodiesOnly(snap, prefix, c)
    ensures Visits(snap, prefix, c, filter, CollectionScan, row) <==>
            Holds(snap, prefix, c, row) && Matches(filter, row.doc, Some(row.id))
  {
    hide Found, Matches, Holds;
    CollectionRows(snap, prefix, c, filter, Hit(DocKey(prefix, c, row.id), row));
    if Visits(snap, prefix, c, filter, CollectionScan, row) {
      var h :| h in Found(snap, prefix, c, filter, CollectionScan) && h.row == row;
      CollectionRows(snap, prefix, c, filter, h);
    }
  }

  lemma IndexVisits(snap: seq<Entry>, prefix: bytes, coll: CollectionMeta, filter: Filter, k: nat, row: Row)
    requires Agrees(snap, prefix, coll) && IdsFaithful(snap, prefix, coll) && k < |coll.indexes|
    ensures Visits(snap, prefix, coll.id, filter, IndexPath(prefix, coll.id, coll.indexes[k], TopLevel(filter)), row) <==>
            Holds(snap, prefix, coll.id, row) && Matches(filter, row.doc, Some(row.id))
            && !ZeroClash(filter, coll.indexes[k].fields, row.doc)
  {
    hide Found, Matches, Holds, EqLen, BuildIndexScan, Admits, Clashes, EntriesSound, EntriesComplete, TopLevel, EntryKey, FieldValues;
    var idx, preds := coll.indexes[k], TopLevel(filter);
    var n := EqLen(idx.fields, preds);
    var eqs, range := EqValues(idx.fields, n, preds), RangeFor(idx.fields, n, preds);
    var path := IndexPath(prefix, coll.id, idx, preds);
    IndexRows(snap, prefix, coll.id, filter, idx, eqs, range, Hit(EntryKey(prefix, coll.id, idx, row.doc, row.id), row));
    if Visits(snap, prefix, coll.id, filter, path, row) {
      var h :| h in Found(snap, prefix, coll.id, filter, path) && h.row == row;
      IndexRows(snap, prefix, coll.id, filter, idx, eqs, range, h);
    }
    if Holds(snap, prefix, coll.id, row) && Matches(filter, row.doc, Some(row.id)) {
      MatchingAdmitted(filter, idx, row.doc, row.id);
    }
  }

  lemma ByIdVisits(snap: seq<Entry>, prefix: bytes, c: nat, filter: Filter, id: bytes, row: Row)
    requires BodiesOnly(snap, prefix, c) && Ascending(snap)
    requires ConstraintFor(TopLevel(filter), ID_FIELD).eq == Some(Str(id))
    ensures Visits(snap, prefix, c, filter, ById(id), row) <==>
            Holds(snap, prefix, c, row) && Matches(filter, row.doc, Some(row.id))
  {
    hide Matches, Get, Hits, Distill, AtomsFor, TopLevel, CmpBytes;
    var key := DocKey(prefix, c, id);
    var es := Candidates(snap, prefix, c, ById(id));
    DocKeyRoundTrip(prefix, c, id);
    forall stored: Stored | Get(snap, key) == Some(stored) ensures stored.Body? {
      GetExact(snap, key, stored);
    }
    forall h ensures h in Found(snap, prefix, c, filter, ById(id)) <==>
      h.key == key && h.row.id == id && Holds(snap, prefix, c, h.row) && Matches(filter, h.row.doc, Some(id))
    {
      HitsExact(snap, prefix, c, filter, es, h);
      if h.key == key && h.row.id == id && Holds(snap, prefix, c, h.row) && Matches(filter, h.row.doc, Some(id)) {
        assert Entry(key, Body(h.row.doc)) in es;
      }
    }
    if Holds(snap, prefix, c, row) && Matches(filter, row.doc, Some(row.id)) {
      ConstraintHolds(filter, row.doc, row.id, ID_FIELD);
      StrEqAgrees(row.id, Str(id));
      assert Hit(key, row) in Found(snap, prefix, c, filter, ById(id));
    }
  }

  /** The planned path visits the documents a full scan would, less those a signed zero hides. */
  lemma PlannerExact(snap: seq<Entry>, prefix: bytes, coll: CollectionMeta, filter: Filter, path: AccessPath, row: Row)
    requires Agrees(snap, prefix, coll) && IdsFaithful(snap, prefix, coll) && IsPlan(path, filter, prefix, coll)
    ensures Visits(snap, prefix, coll.id, filter, path, row) <==>
            Visits(snap, prefix, coll.id, filter, CollectionScan, row) && !(path.IndexScan? && ZeroClash(filter, path.fields, row.doc))
  {
    hide Visits, ConstraintFor, Usable, Best, TopLevel, EqLen, ZeroClash, Holds, Matches, BuildIndexScan;
    var preds := TopLevel(filter);
    var onId := ConstraintFor(preds, ID_FIELD).eq;
    CollectionVisits(snap, prefix, coll.id, filter, row);
    if onId.Some? && onId.value.Str? {
      ByIdVisits(snap, prefix, coll.id, filter, onId.value.s, row);
    } else if exists k :: 0 <= k < |coll.indexes| && Usable(coll.indexes[k], preds) {
      forall k: nat | Best(coll.indexes, k, preds) ensures k < |coll.indexes| {
        BestUsable(coll.indexes, k, preds);
      }
      var k: nat :| k < |coll.indexes| && path == IndexPath(prefix, coll.id, coll.indexes[k], preds);
      var n := EqLen(coll.indexes[k].fields, preds);
      ScanBounds(prefix, coll.id, coll.indexes[k], EqValues(coll.indexes[k].fields, n, preds), RangeFor(coll.indexes[k].fields, n, preds));
      IndexVisits(snap, prefix, coll, filter, k, row);
    }
  }

  /** Planning changes no answer if and only if no matching document has a clashing zero. */
  lemma PlannerTransparent(snap: seq<Entry>, prefix: bytes, coll: CollectionMeta, filter: Filter, path: AccessPath)
    requires Agrees(snap, prefix, coll) && IdsFaithful(snap, prefix, coll) && IsPlan(path, filter, prefix, coll)
    ensures (forall row :: Visits(snap, prefix, coll.id, filter, path, row) <==> Visits(snap, prefix, coll.id, filter, CollectionScan, row))
       <==> (forall row :: path.IndexScan? && Visits(snap, prefix, coll.id, filter, CollectionScan, row) ==> !ZeroClash(filter, path.fields, row.doc))
  {
    hide *;
    forall row ensures Visits(snap, prefix, coll.id, filter, path, row) <==>
      Visits(snap, prefix, coll.id, filter, CollectionScan, row) && !(path.IndexScan? && ZeroClash(filter, path.fields, row.doc))
    {
      PlannerExact(snap, prefix, coll, filter, path, row);
    }
  }

  ghost predicate NoRepeats(hits: seq<Hit>) {
    forall i, j :: 0 <= i < j < |hits| ==> hits[i].row.id != hits[j].row.id
  }

  lemma KeysDetermine(hits: seq<Hit>)
    requires HitsAscend(hits)
    requires forall i, j :: 0 <= i < |hits| && 0 <= j < |hits| && hits[i].row.id == hits[j].row.id ==> hits[i].key == hits[j].key
    ensures NoRepeats(hits)
  {
    forall i, j | 0 <= i < j < |hits| ensures hits[i].row.id != hits[j].row.id {
      LessIrreflexive(hits[i].key);
    }
  }

  lemma CollectionNoRepeats(snap: seq<Entry>, prefix: bytes, c: nat, filter: Filter)
    requires Ascending(snap) && BodiesOnly(snap, prefix, c)
    ensures NoRepeats(Found(snap, prefix, c, filter, CollectionScan)) && HitsAscend(Found(snap, prefix, c, filter, CollectionScan))
  {
    hide Hits, Scan, NoRepeats;
    var hits := Found(snap, prefix, c, filter, CollectionScan);
    ScanAscending(snap, DocPrefix(prefix, c), UpperBound(DocPrefix(prefix, c)));
    HitsOrdered(snap, prefix, c, filter, Candidates(snap, prefix, c, CollectionScan));
    forall h | h in hits ensures h.key == DocKey(prefix, c, h.row.id) {
      CollectionRows(snap, prefix, c, filter, h);
    }
    KeysDetermine(hits);
  }

  lemma IndexNoRepeats(snap: seq<Entry>, prefix: bytes, c: nat, filter: Filter, idx: IndexMeta, eqs: seq<Value>, range: Constraint)
    requires Ascending(snap) && EntriesSound(snap, prefix, c, idx) && EntriesComplete(snap, prefix, c, idx)
    requires |eqs| <= |idx.fields| && (|eqs| == |idx.fields| ==> range == FREE)
    ensures var path := BuildIndexScan(prefix, c, idx, eqs, range);
            NoRepeats(Found(snap, prefix, c, filter, path)) && HitsAscend(Found(snap, prefix, c, filter, path))
  {
    hide Hits, Scan, NoRepeats, BuildIndexScan, EntriesSound, EntriesComplete, EntryKey, Admits, Matches, DocKey;
    var path := BuildIndexScan(prefix, c, idx, eqs, range);
    ScanBounds(prefix, c, idx, eqs, range);
    var hits := Found(snap, prefix, c, filter, path);
    ScanAscending(snap, path.lo, path.hi);
    HitsOrdered(snap, prefix, c, filter, Candidates(snap, prefix, c, path));
    forall h | h in hits ensures Holds(snap, prefix, c, h.row) && h.key == EntryKey(prefix, c, idx, h.row.doc, h.row.id) {
      IndexRows(snap, prefix, c, filter, idx, eqs, range, h);
    }
    KeysDetermine(hits);
  }

  lemma IndexPathOnce(snap: seq<Entry>, prefix: bytes, c: nat, filter: Filter, idx: IndexMeta, preds: seq<FieldPred>)
    requires Ascending(snap) && EntriesSound(snap, prefix, c, idx) && EntriesComplete(snap, prefix, c, idx)
    ensures var path := IndexPath(prefix, c, idx, preds);
            NoRepeats(Found(snap, prefix, c, filter, path)) && HitsAscend(Found(snap, prefix, c, filter, path))
  {
    hide NoRepeats, HitsAscend, Found, EqLen, EntriesSound, EntriesComplete, Ascending;
    var n := EqLen(idx.fields, preds);
    IndexNoRepeats(snap, prefix, c, filter, idx, EqValues(idx.fields, n, preds), RangeFor(idx.fields, n, preds));
  }

  /** Whatever path is planned, no document is visited twice and keys ascend. */
  lemma PlannedOnce(snap: seq<Entry>, prefix: bytes, coll: CollectionMeta, filter: Filter, path: AccessPath)
    requires Agrees(snap, prefix, coll) && IsPlan(path, filter, prefix, coll)
    ensures NoRepeats(Found(snap, prefix, coll.id, filter, path)) && HitsAscend(Found(snap, prefix, coll.id, filter, path))
  {
    hide ConstraintFor, Usable, Best, TopLevel, EqLen, EntriesSound, EntriesComplete, IndexPath, RowOf, Found, Ascending, BodiesOnly;
    var preds := TopLevel(filter);
    var onId := ConstraintFor(preds, ID_FIELD).eq;
    CollectionNoRepeats(snap, prefix, coll.id, filter);
    if onId.Some? && onId.value.Str? {
      AtMostOne(snap, prefix, coll.id, filter, onId.value.s);
    } else if exists k :: 0 <= k < |coll.indexes| && Usable(coll.indexes[k], preds) {
      forall k: nat | Best(coll.indexes, k, preds) ensures k < |coll.indexes| {
        BestUsable(coll.indexes, k, preds);
      }
      var k: nat :| k < |coll.indexes| && path == IndexPath(prefix, coll.id, coll.indexes[k], preds);
      IndexPathOnce(snap, prefix, coll.id, filter, coll.indexes[k], preds);
    }
  }

  lemma AtMostOne(snap: seq<Entry>, prefix: bytes, c: nat, filter: Filter, id: bytes)
    ensures |Found(snap, prefix, c, filter, ById(id))| <= 1
  {
    hide RowOf;
    var es := Candidates(snap, prefix, c, ById(id));
    assert es != [] ==> Hits(snap, prefix, c, filter, es[..0]) == [];
  }

  /** The exception is real: an index on a field storing -0.0 answers nothing for `== 0.0`,
      while a full scan finds the document. */
  lemma NegativeZeroHides(path: AccessPath)
    requires IsPlan(path, ZeroQuery(), [1], ZeroCollection())
    ensures Agrees(ZeroSnapshot(), [1], ZeroCollection()) && IdsFaithful(ZeroSnapshot(), [1], ZeroCollection())
    ensures Visits(ZeroSnapshot(), [1], 0, ZeroQuery(), CollectionScan, ZeroRow())
    ensures !Visits(ZeroSnapshot(), [1], 0, ZeroQuery(), path, ZeroRow())
  {
    ZeroAgrees();
    ZeroVisited();
    ZeroPlanned(path);
    PlannerExact(ZeroSnapshot(), [1], ZeroCollection(), ZeroQuery(), path, ZeroRow());
  }

  const FIELD_X: Path := [[120]]  // "x"

  function ZeroIndex(): IndexMeta {
    IndexMeta(0, [FIELD_X], [true], false)
  }

  function ZeroCollection(): CollectionMeta {
    CollectionMeta(0, [ZeroIndex()])
  }

  function ZeroQuery(): Filter {
    Field(FieldPred(FIELD_X, [Equal(Num(Float(ZERO)))]))
  }

  function ZeroRow(): Row {
    Row([97], Obj([Member([120], Num(Float(NEGATIVE_ZERO)))]))
  }

  function ZeroSnapshot(): seq<Entry> {
    OneDocument(ZeroIndex(), ZeroRow().doc)
  }

  /** A collection with one document and its entry in one index. */
  function OneDocument(idx: IndexMeta, doc: Value): seq<Entry> {
    [Entry(DocKey([1], 0, [97]), Body(doc)), Entry(EntryKey([1], 0, idx, doc, [97]), Ref([97]))]
  }

  lemma OneDocumentKeys(idx: IndexMeta, doc: Value)
    requires idx.id == 0
    ensures var body, entry := OneDocument(idx, doc)[0].key, OneDocument(idx, doc)[1].key;
            && Less(body, entry)
            && DocPrefix([1], 0) <= body && !(IndexPrefix([1], 0, 0) <= body)
            && IndexPrefix([1], 0, 0) <= entry && !(DocPrefix([1], 0) <= entry)
  {
    var body, entry := OneDocument(idx, doc)[0].key, OneDocument(idx, doc)[1].key;
    assert DocPrefix([1], 0) <= body && IndexPrefix([1], 0, 0) <= entry;
    assert body[0] == entry[0] == 1 && body[1..][0] == REC_DOC && entry[1..][0] == REC_INDEX;
    assert DocPrefix([1], 0)[1] == REC_DOC && IndexPrefix([1], 0, 0)[1] == REC_INDEX;
  }

  lemma OneDocumentHolds(idx: IndexMeta, doc: Value, r: Row)
    requires idx.id == 0
    ensures Holds(OneDocument(idx, doc), [1], 0, r) <==> r == Row([97], doc)
  {
    hide EntryKey, DocPrefix, Less, IndexPrefix;
    OneDocumentKeys(idx, doc);
    DocKeyRoundTrip([1], 0, r.id);
    DocKeyRoundTrip([1], 0, [97]);
    assert DocPrefix([1], 0) <= DocKey([1], 0, r.id);
    var snap, key := OneDocument(idx, doc), DocKey([1], 0, r.id);
    assert snap[1..] == [snap[1]] && snap[1..][1..] == [];
    assert Get(snap[1..], key) == None;
    assert Get(snap, key) == if r.id == [97] then Some(Body(doc)) else None;
  }

  lemma OneDocumentAgrees(idx: IndexMeta, doc: Value)
    requires idx.id == 0 && ID_FIELD !in idx.fields
    ensures Agrees(OneDocument(idx, doc), [1], CollectionMeta(0, [idx])) && IdsFaithful(OneDocument(idx, doc), [1], CollectionMeta(0, [idx]))
  {
    hide EntryKey, DocPrefix, Less, IndexPrefix, Holds, DocKey, Get;
    OneDocumentKeys(idx, doc);
    OneDocumentHolds(idx, doc, Row([97], doc));
    forall r: Row ensures Holds(OneDocument(idx, doc), [1], 0, r) <==> r == Row([97], doc) {
      OneDocumentHolds(idx, doc, r);
    }
    assert OneDocument(idx, doc)[1] in OneDocument(idx, doc);
  }

  lemma ZeroAgrees()
    ensures Agrees(ZeroSnapshot(), [1], ZeroCollection()) && IdsFaithful(ZeroSnapshot(), [1], ZeroCollection())
  {
    assert FIELD_X[0] != ID_FIELD[0];
    OneDocumentAgrees(ZeroIndex(), ZeroRow().doc);
  }

  lemma ZeroStored()
    ensures GetPath(ZeroRow().doc, FIELD_X) == Some(Num(Float(NEGATIVE_ZERO)))
  {
    assert Lookup(ZeroRow().doc.members, [120]) == Some(Num(Float(NEGATIVE_ZERO)));
    assert FIELD_X[1..] == [];
  }

  lemma ZeroEqual()
    ensures AtomMatches(Equal(Num(Float(ZERO))), Some(Num(Float(NEGATIVE_ZERO))))
  {
    OrdersAgree(Num(Float(NEGATIVE_ZERO)), Num(Float(ZERO)));
  }

  lemma ZeroMatches()
    ensures Matches(ZeroQuery(), ZeroRow().doc, Some(ZeroRow().id))
  {
    hide AtomMatches, GetPath;
    ZeroStored();
    ZeroEqual();
    assert FIELD_X[0] != ID_FIELD[0];
  }

  lemma ZeroVisited()
    ensures Visits(ZeroSnapshot(), [1], 0, ZeroQuery(), CollectionScan, ZeroRow())
  {
    hide Holds, Visits, Matches, Agrees;
    ZeroAgrees();
    AgreesParts(ZeroSnapshot(), [1], ZeroCollection());
    OneDocumentHolds(ZeroIndex(), ZeroRow().doc, ZeroRow());
    ZeroMatches();
    CollectionVisits(ZeroSnapshot(), [1], 0, ZeroQuery(), ZeroRow());
  }

  lemma AgreesParts(snap: seq<Entry>, prefix: bytes, coll: CollectionMeta)
    requires Agrees(snap, prefix, coll)
    ensures Ascending(snap) && BodiesOnly(snap, prefix, coll.id)
  {
  }

  lemma SinglePredicate(path: Path, atom: Atom, p: Path)
    ensures ConstraintFor([FieldPred(path, [atom])], p) == if p == path then Tighten(FREE, atom) else FREE
  {
    var preds := [FieldPred(path, [atom])];
    assert preds[..0] == [] && AtomsFor([], p) == [];
    assert AtomsFor(preds, p) == if p == path then [atom] else [];
    assert [atom][..0] == [];
    assert Distill([atom]) == Tighten(Distill([]), atom);
  }

  lemma ZeroConstraints()
    ensures ConstraintFor(TopLevel(ZeroQuery()), FIELD_X) == Constraint(Some(Num(Float(ZERO))), None, None)
    ensures ConstraintFor(TopLevel(ZeroQuery()), ID_FIELD) == FREE
  {
    hide ConstraintFor;
    SinglePredicate(FIELD_X, Equal(Num(Float(ZERO))), FIELD_X);
    SinglePredicate(FIELD_X, Equal(Num(Float(ZERO))), ID_FIELD);
    assert FIELD_X[0] != ID_FIELD[0];
  }

  lemma ZeroPlanned(path: AccessPath)
    requires IsPlan(path, ZeroQuery(), [1], ZeroCollection())
    ensures path.IndexScan? && path.fields == [FIELD_X] && ZeroClash(ZeroQuery(), path.fields, ZeroRow().doc)
  {
    hide TopLevel, ConstraintFor, GetPath, EncodeFields, UpperBound, Best;
    var preds, idx := TopLevel(ZeroQuery()), ZeroIndex();
    ZeroConstraints();
    ZeroStored();
    assert EqLen(idx.fields, preds) == 1 + EqLen(idx.fields[1..], preds) == 1;
    assert Usable(ZeroCollection().indexes[0], preds);
    forall k: nat | Best(ZeroCollection().indexes, k, preds) ensures k == 0 {
      BestUsable(ZeroCollection().indexes, k, preds);
    }
    assert path == IndexPath([1], 0, idx, preds);
    var eqs, us := EqValues(idx.fields, 1, preds), FieldValues(ZeroRow().doc, idx.fields);
    assert OppositeZeros(us[0], eqs[0]);
  }
}
