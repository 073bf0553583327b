/** `$lookup`: indexed nested-loop and bounded hash join over one snapshot. */
module Join {
  import opened Bytes
  import opened Values
  import opened Encoding
  import opened Filters
  import opened Planner
  import opened Query
  import opened Paging
  import opened Find

  datatype Strategy = Inlj | Hash

  datatype Limits = Limits(maxScanDocs: nat, maxHashBytes: nat, maxMatchesPerOuter: nat)

  const HASH_ENTRY_OVERHEAD: nat := 48

  // ---- Strategy ----------------------------------------------------------------

  predicate Leads(idx: IndexMeta, field: Path) {
    idx.fields != [] && idx.fields[0] == field
  }

  /** The first index whose leading field is `field`. */
  function EqualityIndex(indexes: seq<IndexMeta>, field: Path): (r: Option<IndexMeta>)
    ensures r.Some? ==> r.value in indexes && exists k :: FirstLed(indexes, field, k) && indexes[k] == r.value
    ensures r.None? ==> forall i :: 0 <= i < |indexes| ==> !Leads(indexes[i], field)
  {
    if indexes == [] then None
    else if Leads(indexes[0], field) then
      assert FirstLed(indexes, field, 0);
      Some(indexes[0])
    else
      var r := EqualityIndex(indexes[1..], field);
      ghost var k := if r.Some? then (var j :| FirstLed(indexes[1..], field, j); j + 1) else 0;
      assert r.Some? ==> FirstLed(indexes, field, k);
      r
  }

  /** Index `k` is led by the field and none before it is. */
  ghost predicate FirstLed(indexes: seq<IndexMeta>, field: Path, k: int) {
    0 <= k < |indexes| && Leads(indexes[k], field) && forall j :: 0 <= j < k ==> !Leads(indexes[j], field)
  }

  /** Decided before any outer document is read: an index if there is one, else a bounded scan. */
  function SelectStrategy(inner: CollectionMeta, docCount: nat, field: Path, limits: Limits): Option<Strategy> {
    if field == ID_FIELD || EqualityIndex(inner.indexes, field).Some? then Some(Inlj)
    else if docCount <= limits.maxScanDocs then Some(Hash)
    else None
  }

  /** Bind `field == value` to an access path; never a collection scan. */
  function PlanEquality(prefix: bytes, inner: CollectionMeta, field: Path, value: Value): (r: Option<AccessPath>)
    ensures r.Some? <==> if field == ID_FIELD then value.Str? else value.Scalar() && EqualityIndex(inner.indexes, field).Some?
    ensures r.Some? ==> !r.value.CollectionScan?
  {
    if field == ID_FIELD then (if value.Str? then Some(ById(value.s)) else None)
    else if !value.Scalar() then None
    else
      match EqualityIndex(inner.indexes, field)
      case Some(idx) => Some(BuildIndexScan(prefix, inner.id, idx, [value], FREE))
      case None => None
  }

  /** A joinable value: present and scalar. */
  function JoinValue(doc: Value, field: Path): Option<Value> {
    match GetPath(doc, field)
    case Some(v) => if v.Scalar() then Some(v) else None
    case None => None
  }

  // ---- The two ways to find inner documents ------------------------------------

  /** Rows of an equality probe, refused past the match bound. */
  method FetchInnerMatches(v: View, path: AccessPath, filter: Filter, maxMatches: nat) returns (r: Option<seq<Row>>)
    ensures r.Some? <==> |MatchesOf(v, filter, path)| <= maxMatches
    ensures r.Some? ==> r.value == Rows(MatchesOf(v, filter, path))
  {
    var es := Candidates(v.entries, v.prefix, v.coll.id, path);
    var docs: seq<Row> := [];
    hide RowOf, Candidates, Hits;
    HitsNil(v, filter);
    for i := 0 to |es|
      invariant docs == Rows(HitsOf(v, filter, es[..i])) && |docs| <= maxMatches
    {
      HitsStep(v, filter, es, i);
      var row := RowOf(v.entries, v.prefix, v.coll.id, filter, es[i]);
      if row.Some? {
        if |docs| >= maxMatches {
          HitsConcat(v, filter, es[..i + 1], es[i + 1..]);
          assert es == es[..i + 1] + es[i + 1..];
          return None;
        }
        docs := docs + [row.value];
      }
    }
    assert es[..|es|] == es;
    return Some(docs);
  }

  /** Inner rows sharing one encoded join value, in scan order. */
  function Bucket(hits: seq<Hit>, field: Path, key: bytes): seq<Row> {
    if hits == [] then []
    else
      var last := hits[|hits| - 1].row;
      var value := JoinValue(last.doc, field);
      Bucket(hits[..|hits| - 1], field, key) + if value.Some? && Encode(value.value) == key then [last] else []
  }

  function Joinable(hits: seq<Hit>, field: Path): set<bytes> {
    set h | h in hits && JoinValue(h.row.doc, field).Some? :: Encode(JoinValue(h.row.doc, field).value)
  }

  /** Bytes retained by the hash side; `size` is the stored length of a row's body and id. */
  function HashBytes(hits: seq<Hit>, field: Path, size: Row -> nat): nat {
    if hits == [] then 0
    else
      var front, last := hits[..|hits| - 1], hits[|hits| - 1].row;
      var value := JoinValue(last.doc, field);
      HashBytes(front, field, size) +
      if value.None? then 0
      else HASH_ENTRY_OVERHEAD + size(last) + if Encode(value.value) in Joinable(front, field) then 0 else |Encode(value.value)|
  }

  lemma {:induction false} HashBytesGrow(hits: seq<Hit>, n: nat, field: Path, size: Row -> nat)
    requires n <= |hits|
    ensures HashBytes(hits[..n], field, size) <= HashBytes(hits, field, size)
  {
    if n == |hits| {
      assert hits[..n] == hits;
    } else {
      HashBytesGrow(hits[..|hits| - 1], n, field, size);
      assert hits[..|hits| - 1][..n] == hits[..n];
    }
  }

  lemma BucketStep(hits: seq<Hit>, i: nat, field: Path, key: bytes)
    requires i < |hits|
    ensures var value := JoinValue(hits[i].row.doc, field);
            Bucket(hits[..i + 1], field, key)
            == if value.Some? && Encode(value.value) == key then Bucket(hits[..i], field, key) + [hits[i].row]
               else Bucket(hits[..i], field, key)
  {
    assert hits[..i + 1][..i] == hits[..i];
    assert Bucket(hits[..i], field, key) + [] == Bucket(hits[..i], field, key);
  }

  lemma HashStep(hits: seq<Hit>, i: nat, field: Path, size: Row -> nat)
    requires i < |hits|
    ensures var value := JoinValue(hits[i].row.doc, field);
            && HashBytes(hits[..i + 1], field, size) == HashBytes(hits[..i], field, size)
                 + (if value.None? then 0
                    else HASH_ENTRY_OVERHEAD + size(hits[i].row) + if Encode(value.value) in Joinable(hits[..i], field) then 0 else |Encode(value.value)|)
            && Joinable(hits[..i + 1], field) == Joinable(hits[..i], field) + if value.Some? then {Encode(value.value)} else {}
  {
    assert hits[..i + 1][..i] == hits[..i];
    assert hits[..i + 1] == hits[..i] + [hits[i]];
  }

  /** One scan of the inner collection into a map keyed by the index's own scalar encoding,
      refused when the scan or the retained bytes exceed their bounds. */
  method BuildHashSide(v: View, filter: Filter, path: AccessPath, field: Path, size: Row -> nat, limits: Limits)
    returns (r: Option<map<bytes, seq<Row>>>)
    ensures var hits := MatchesOf(v, filter, path);
            && (r.Some? <==> |Candidates(v.entries, v.prefix, v.coll.id, path)| <= limits.maxScanDocs
                             && HashBytes(hits, field, size) <= limits.maxHashBytes)
            && (r.Some? ==> forall key :: Entries(r.value, key) == Bucket(hits, field, key))
  {
    hide Candidates, Hits, JoinValue, Encode, Joinable, HashBytes, Bucket;
    var visited, _ := ForEachMatch(v.entries, v.prefix, v.coll.id, filter, path, Some(limits.maxScanDocs), _ => true);
    if visited.None? {
      return None;
    }
    var hits := visited.value;
    r := HashRows(hits, field, size, limits.maxHashBytes);
  }

  function Entries(side: map<bytes, seq<Row>>, key: bytes): seq<Row> {
    if key in side then side[key] else []
  }

  lemma EmptySide(field: Path, size: Row -> nat)
    ensures HashBytes([], field, size) == 0 && Joinable([], field) == {} && forall key :: Bucket([], field, key) == []
  {
  }

  method HashRows(hits: seq<Hit>, field: Path, size: Row -> nat, maxBytes: nat) returns (r: Option<map<bytes, seq<Row>>>)
    ensures r.Some? <==> HashBytes(hits, field, size) <= maxBytes
    ensures r.Some? ==> forall key :: Entries(r.value, key) == Bucket(hits, field, key)
  {
    hide Encode, JoinValue, Bucket, HashBytes, Joinable;
    var side: map<bytes, seq<Row>>, total: nat := map[], 0;
    EmptySide(field, size);
    for i := 0 to |hits|
      invariant side.Keys == Joinable(hits[..i], field)
      invariant forall key :: Entries(side, key) == Bucket(hits[..i], field, key)
      invariant total == HashBytes(hits[..i], field, size) <= maxBytes
    {
      HashStep(hits, i, field, size);
      HashBytesGrow(hits, i + 1, field, size);
      forall key ensures Bucket(hits[..i + 1], field, key) ==
        if JoinValue(hits[i].row.doc, field).Some? && Encode(JoinValue(hits[i].row.doc, field).value) == key
        then Bucket(hits[..i], field, key) + [hits[i].row] else Bucket(hits[..i], field, key)
      {
        BucketStep(hits, i, field, key);
      }
      var value := JoinValue(hits[i].row.doc, field);
      if value.Some? {
        var key := Encode(value.value);
        total := total + HASH_ENTRY_OVERHEAD + size(hits[i].row) + if key in side then 0 else |key|;
        if total > maxBytes {
          return None;
        }
        ghost var was := side;
        side := side[key := Entries(side, key) + [hits[i].row]];
        assert forall k :: k != key ==> Entries(side, k) == Entries(was, k);
      }
    }
    assert hits[..|hits|] == hits;
    return Some(side);
  }

  /** Probe the hash side. */
  function FetchHashMatches(side: map<bytes, seq<Row>>, value: Value, maxMatches: nat): (r: Option<seq<Row>>)
    ensures r.Some? <==> |Entries(side, Encode(value))| <= maxMatches
    ensures r.Some? ==> r.value == Entries(side, Encode(value))
  {
    var rows := Entries(side, Encode(value));
    if |rows| > maxMatches then None else Some(rows)
  }

  // ---- Both attach the same documents ------------------------------------------

  ghost predicate Distinct(rows: seq<Row>) {
    forall i, j :: 0 <= i < j < |rows| ==> rows[i].id != rows[j].id
  }

  lemma {:induction false} BucketExact(hits: seq<Hit>, field: Path, key: bytes, row: Row)
    ensures row in Bucket(hits, field, key) <==>
            (exists h :: h in hits && h.row == row) && JoinValue(row.doc, field).Some? && Encode(JoinValue(row.doc, field).value) == key
  {
    hide JoinValue, Encode;
    if hits != [] {
      var n := |hits| - 1;
      BucketExact(hits[..n], field, key, row);
      assert hits == hits[..n] + [hits[n]];
    }
  }

  lemma {:induction false} BucketDistinct(hits: seq<Hit>, field: Path, key: bytes)
    requires NoRepeats(hits)
    ensures Distinct(Bucket(hits, field, key))
  {
    hide JoinValue, Encode;
    if hits != [] {
      var n := |hits| - 1;
      BucketDistinct(hits[..n], field, key);
      var front := Bucket(hits[..n], field, key);
      forall i | 0 <= i < |front| ensures front[i].id != hits[n].row.id {
        assert front[i] in front;
        BucketExact(hits[..n], field, key, front[i]);
        var h :| h in hits[..n] && h.row == front[i];
        var j :| 0 <= j < n && hits[..n][j] == h;
      }
    }
  }

  lemma {:induction false} SameMultiset(a: seq<Row>, b: seq<Row>)
    requires Distinct(a) && Distinct(b) && forall row :: row in a <==> row in b
    ensures multiset(a) == multiset(b)
  {
    forall row ensures multiset(a)[row] == multiset(b)[row] {
      CountOne(a, row);
      CountOne(b, row);
    }
  }

  lemma {:induction false} CountOne(a: seq<Row>, row: Row)
    requires Distinct(a)
    ensures multiset(a)[row] == if row in a then 1 else 0
  {
    if a != [] {
      var n := |a| - 1;
      CountOne(a[..n], row);
      assert a == a[..n] + [a[n]];
      assert row in a[..n] ==> row.id != a[n].id;
    }
  }

  /** What an indexed probe attaches. */
  function Probed(v: View, filter: Filter, idx: IndexMeta, value: Value): seq<Row>
    requires idx.fields != []
  {
    Rows(MatchesOf(v, filter, BuildIndexScan(v.prefix, v.coll.id, idx, [value], FREE)))
  }

  lemma RowsMembers(hits: seq<Hit>, row: Row)
    ensures row in Rows(hits) <==> exists h :: h in hits && h.row == row
  {
    if exists h :: h in hits && h.row == row {
      var i :| 0 <= i < |hits| && hits[i].row == row;
      assert Rows(hits)[i] == row;
    }
    if row in Rows(hits) {
      var i :| 0 <= i < |Rows(hits)| && Rows(hits)[i] == row;
      assert hits[i] in hits;
    }
  }

  lemma SingleAdmits(doc: Value, fields: seq<Path>, value: Value)
    requires fields != []
    ensures Admits([value], FREE, FieldValues(doc, fields)) <==> CmpValues(ExtractPath(doc, fields[0]), value) == Eq
  {
    hide CmpValues, ExtractPath;
    var us := FieldValues(doc, fields);
    assert us[0] == ExtractPath(doc, fields[0]) && [value][0] == value;
  }

  lemma ProbedRow(v: View, filter: Filter, idx: IndexMeta, value: Value, row: Row)
    requires EntriesSound(v.entries, v.prefix, v.coll.id, idx) && EntriesComplete(v.entries, v.prefix, v.coll.id, idx)
    requires idx.fields != []
    ensures row in Probed(v, filter, idx, value) <==>
            Holds(v.entries, v.prefix, v.coll.id, row) && Matches(filter, row.doc, Some(row.id))
            && CmpValues(ExtractPath(row.doc, idx.fields[0]), value) == Eq
  {
    hide Found, BuildIndexScan, EntriesSound, EntriesComplete, Holds, Matches, EntryKey, CmpValues, ExtractPath;
    var path := BuildIndexScan(v.prefix, v.coll.id, idx, [value], FREE);
    var hits := MatchesOf(v, filter, path);
    RowsMembers(hits, row);
    SingleAdmits(row.doc, idx.fields, value);
    IndexRows(v.entries, v.prefix, v.coll.id, filter, idx, [value], FREE, Hit(EntryKey(v.prefix, v.coll.id, idx, row.doc, row.id), row));
    if row in Rows(hits) {
      var h :| h in hits && h.row == row;
      IndexRows(v.entries, v.prefix, v.coll.id, filter, idx, [value], FREE, h);
    }
  }

  lemma RowsDistinct(hits: seq<Hit>)
    requires NoRepeats(hits)
    ensures Distinct(Rows(hits))
  {
  }

  lemma ProbedDistinct(v: View, filter: Filter, idx: IndexMeta, value: Value)
    requires Query.Ascending(v.entries) && EntriesSound(v.entries, v.prefix, v.coll.id, idx) && EntriesComplete(v.entries, v.prefix, v.coll.id, idx)
    requires idx.fields != []
    ensures Distinct(Probed(v, filter, idx, value))
  {
    hide Found, BuildIndexScan, EntriesSound, EntriesComplete, NoRepeats, Distinct, Query.Ascending;
    IndexNoRepeats(v.entries, v.prefix, v.coll.id, filter, idx, [value], FREE);
    RowsDistinct(MatchesOf(v, filter, BuildIndexScan(v.prefix, v.coll.id, idx, [value], FREE)));
  }

  /** A signed zero hides the document from the filter's own plan. */
  predicate Hidden(filter: Filter, path: AccessPath, doc: Value) {
    path.IndexScan? && ZeroClash(filter, path.fields, doc)
  }

  /** What a hash probe attaches. */
  function Hashed(v: View, filter: Filter, path: AccessPath, field: Path, value: Value): seq<Row> {
    Bucket(MatchesOf(v, filter, path), field, Encode(value))
  }

  lemma HashedRow(v: View, filter: Filter, path: AccessPath, field: Path, value: Value, row: Row)
    requires Agrees(v.entries, v.prefix, v.coll) && IdsFaithful(v.entries, v.prefix, v.coll)
    requires IsPlan(path, filter, v.prefix, v.coll)
    ensures row in Hashed(v, filter, path, field, value) <==>
            Holds(v.entries, v.prefix, v.coll.id, row) && Matches(filter, row.doc, Some(row.id)) && !Hidden(filter, path, row.doc)
            && JoinValue(row.doc, field).Some? && CmpValues(JoinValue(row.doc, field).value, value) == Eq
  {
    hide Agrees, IdsFaithful, IsPlan, Found, Holds, Matches, JoinValue, Encode, CmpValues, ZeroClash, Bucket;
    BucketExact(MatchesOf(v, filter, path), field, Encode(value), row);
    PlannerExact(v.entries, v.prefix, v.coll, filter, path, row);
    AgreesParts(v.entries, v.prefix, v.coll);
    CollectionVisits(v.entries, v.prefix, v.coll.id, filter, row);
    if JoinValue(row.doc, field).Some? {
      EncodingContract(JoinValue(row.doc, field).value, value);
    }
  }

  /** The field holds nothing joinable: it is missing, or an array or object. */
  predicate Unjoinable(row: Row, field: Path) {
    JoinValue(row.doc, field).None?
  }

  lemma NonNullJoins(doc: Value, field: Path, value: Value)
    requires value.Scalar()
    ensures CmpValues(ExtractPath(doc, field), value) == Eq <==>
            || (JoinValue(doc, field).Some? && CmpValues(JoinValue(doc, field).value, value) == Eq)
            || (JoinValue(doc, field).None? && value == Null)
  {
  }

  /** The document passes the join filter and holds the value in index order. */
  ghost predicate Sought(v: View, filter: Filter, field: Path, value: Value, row: Row) {
    && Holds(v.entries, v.prefix, v.coll.id, row) && Matches(filter, row.doc, Some(row.id))
    && CmpValues(ExtractPath(row.doc, field), value) == Eq
  }

  /** It is lost to the hash side: not joinable, or hidden from the filter's plan. */
  predicate Astray(filter: Filter, path: AccessPath, field: Path, row: Row) {
    Unjoinable(row, field) || Hidden(filter, path, row.doc)
  }

  /** Some document sought is lost to the hash side. */
  ghost predicate LosesSome(v: View, filter: Filter, path: AccessPath, field: Path, value: Value) {
    exists row :: Sought(v, filter, field, value, row) && Astray(filter, path, field, row)
  }

  /** Only null finds a document without the field, or with an array or object there. */
  lemma UnjoinableIsNull(v: View, filter: Filter, field: Path, value: Value, row: Row)
    requires value.Scalar() && Sought(v, filter, field, value, row)
    ensures Unjoinable(row, field) ==> value == Null
  {
    hide Holds, Matches;
    NonNullJoins(row.doc, field, value);
  }

  lemma ProbesDiffer(v: View, filter: Filter, path: AccessPath, idx: IndexMeta, value: Value, row: Row)
    requires Agrees(v.entries, v.prefix, v.coll) && IdsFaithful(v.entries, v.prefix, v.coll) && IsPlan(path, filter, v.prefix, v.coll)
    requires idx in v.coll.indexes && idx.fields != [] && value.Scalar()
    ensures row in Probed(v, filter, idx, value) <==> Sought(v, filter, idx.fields[0], value, row)
    ensures row in Hashed(v, filter, path, idx.fields[0], value) <==> Sought(v, filter, idx.fields[0], value, row) && !Astray(filter, path, idx.fields[0], row)
  {
    IndexAgrees(v, idx);
    hide Agrees, IdsFaithful, IsPlan, Found, Holds, Matches, JoinValue, Encode, CmpValues, Probed, Hashed, EntriesSound, EntriesComplete, Hidden;
    ProbedRow(v, filter, idx, value, row);
    HashedRow(v, filter, path, idx.fields[0], value, row);
    NonNullJoins(row.doc, idx.fields[0], value);
  }

  lemma IndexAgrees(v: View, idx: IndexMeta)
    requires Agrees(v.entries, v.prefix, v.coll) && idx in v.coll.indexes
    ensures Query.Ascending(v.entries) && EntriesSound(v.entries, v.prefix, v.coll.id, idx) && EntriesComplete(v.entries, v.prefix, v.coll.id, idx)
  {
  }

  /** The strategies attach the same multiset of inner documents, and so refuse alike, if and only if
      no document sought is lost to the hash side; what it attaches is always part of the other. */
  lemma StrategiesAgree(v: View, filter: Filter, path: AccessPath, idx: IndexMeta, value: Value)
    requires Agrees(v.entries, v.prefix, v.coll) && IdsFaithful(v.entries, v.prefix, v.coll) && IsPlan(path, filter, v.prefix, v.coll)
    requires idx in v.coll.indexes && idx.fields != [] && value.Scalar()
    ensures multiset(Probed(v, filter, idx, value)) == multiset(Hashed(v, filter, path, idx.fields[0], value))
       <==> !LosesSome(v, filter, path, idx.fields[0], value)
    ensures |Hashed(v, filter, path, idx.fields[0], value)| <= |Probed(v, filter, idx, value)|
  {
    hide Agrees, IdsFaithful, IsPlan, Found, Sought, Astray, Probed, Hashed, EntriesSound, EntriesComplete, NoRepeats, Distinct, Query.Ascending;
    IndexAgrees(v, idx);
    var field := idx.fields[0];
    var a, b := Probed(v, filter, idx, value), Hashed(v, filter, path, field, value);
    forall row ensures row in a <==> Sought(v, filter, field, value, row)
      ensures row in b <==> Sought(v, filter, field, value, row) && !Astray(filter, path, field, row)
    {
      ProbesDiffer(v, filter, path, idx, value, row);
    }
    ProbedDistinct(v, filter, idx, value);
    HashedDistinct(v, filter, path, field, value);
    PartOf(b, a);
    SameUnlessLost(a, b);
  }

  lemma SameUnlessLost(a: seq<Row>, b: seq<Row>)
    requires Distinct(a) && Distinct(b) && forall row :: row in b ==> row in a
    ensures multiset(a) == multiset(b) <==> forall row :: row in a ==> row in b
  {
    hide Distinct;
    if forall row :: row in a ==> row in b {
      SameMultiset(a, b);
    } else {
      var row :| row in a && row !in b;
      assert row in multiset(a) && row !in multiset(b);
    }
  }

  lemma PartOf(a: seq<Row>, b: seq<Row>)
    requires Distinct(a) && Distinct(b) && forall row :: row in a ==> row in b
    ensures |a| <= |b|
  {
    hide Distinct;
    forall row ensures multiset(a)[row] <= multiset(b)[row] {
      CountOne(a, row);
      CountOne(b, row);
    }
    assert multiset(b) == multiset(a) + (multiset(b) - multiset(a));
    assert |multiset(a)| == |a| && |multiset(b)| == |b|;
  }

  lemma HashedDistinct(v: View, filter: Filter, path: AccessPath, field: Path, value: Value)
    requires Agrees(v.entries, v.prefix, v.coll) && IsPlan(path, filter, v.prefix, v.coll)
    ensures Distinct(Hashed(v, filter, path, field, value))
  {
    hide Agrees, IsPlan, Found, NoRepeats, Distinct, Bucket;
    FoundAscends(v, filter, path);
    BucketDistinct(MatchesOf(v, filter, path), field, Encode(value));
  }

  // ---- The lookup stage --------------------------------------------------------

  datatype LookupSpec = LookupSpec(localField: Path, foreignField: Path, filter: Filter)

  datatype Joined = Joined(outer: Row, attached: seq<Row>)

  function OuterValue(spec: LookupSpec, outer: Row): Option<Value> {
    if spec.localField == ID_FIELD then Some(Str(outer.id)) else JoinValue(outer.doc, spec.localField)
  }

  /** An outer document with no joinable value, or a non-string value against `_id`, joins nothing. */
  predicate Matchless(spec: LookupSpec, outer: Row) {
    var value := OuterValue(spec, outer);
    value.None? || (spec.foreignField == ID_FIELD && !value.value.Str?)
  }

  function Bounded(rows: seq<Row>, maxMatches: nat): Option<seq<Row>> {
    if |rows| <= maxMatches then Some(rows) else None
  }

  /** Inner rows for one outer document, or a refusal. */
  function Attach(w: View, spec: LookupSpec, path: AccessPath, strategy: Strategy, maxMatches: nat, outer: Row): Option<seq<Row>> {
    if Matchless(spec, outer) then Some([])
    else
      var value := OuterValue(spec, outer).value;
      match strategy
      case Inlj =>
        (match PlanEquality(w.prefix, w.coll, spec.foreignField, value)
         case Some(p) => Bounded(Rows(MatchesOf(w, spec.filter, p)), maxMatches)
         case None => None)
      case Hash => Bounded(Hashed(w, spec.filter, path, spec.foreignField, value), maxMatches)
  }

  /** Choosing the indexed strategy before any outer document is read is safe: every joinable value
      then binds to a path, so only the match bound can refuse. With any other choice none would. */
  lemma StrategySound(w: View, spec: LookupSpec, docCount: nat, limits: Limits, path: AccessPath, maxMatches: nat, outer: Row)
    requires !Matchless(spec, outer)
    ensures var value := OuterValue(spec, outer).value;
            SelectStrategy(w.coll, docCount, spec.foreignField, limits) == Some(Inlj) <==> PlanEquality(w.prefix, w.coll, spec.foreignField, value).Some?
    ensures SelectStrategy(w.coll, docCount, spec.foreignField, limits) == Some(Inlj) ==>
              (Attach(w, spec, path, Inlj, maxMatches, outer).None? <==>
               |MatchesOf(w, spec.filter, PlanEquality(w.prefix, w.coll, spec.foreignField, OuterValue(spec, outer).value).value)| > maxMatches)
  {
    hide Found, BuildIndexScan;
    assert OuterValue(spec, outer).value.Scalar();
  }

  /** The hash side stays within the scan and memory bounds. */
  predicate HashFits(w: View, spec: LookupSpec, path: AccessPath, size: Row -> nat, limits: Limits) {
    && |Candidates(w.entries, w.prefix, w.coll.id, path)| <= limits.maxScanDocs
    && HashBytes(MatchesOf(w, spec.filter, path), spec.foreignField, size) <= limits.maxHashBytes
  }

  /** The outcome of a lookup: refused exactly when no strategy applies, the hash side does not fit or
      some outer document matches too much; otherwise every outer match in order with its rows. */
  ghost predicate LooksUp(outers: seq<Hit>, w: View, spec: LookupSpec, strategy: Option<Strategy>, path: AccessPath,
                          size: Row -> nat, limits: Limits, r: Option<seq<Joined>>)
  {
    && (r.Some? <==> && strategy.Some? && (strategy.value == Hash ==> HashFits(w, spec, path, size, limits))
                     && forall i :: 0 <= i < |outers| ==>
                          Attach(w, spec, path, strategy.value, limits.maxMatchesPerOuter, outers[i].row).Some?)
    && (r.Some? ==> && strategy.Some? && |r.value| == |outers|
                    && forall i :: 0 <= i < |outers| ==>
                         && r.value[i].outer == outers[i].row
                         && Some(r.value[i].attached) == Attach(w, spec, path, strategy.value, limits.maxMatchesPerOuter, outers[i].row))
  }

  /** Attach inner matches to every outer match, in outer order. */
  method ExecuteLookup(outers: seq<Hit>, w: View, spec: LookupSpec, docCount: nat, size: Row -> nat, limits: Limits)
    returns (r: Option<seq<Joined>>)
    ensures exists path :: IsPlan(path, spec.filter, w.prefix, w.coll)
              && LooksUp(outers, w, spec, SelectStrategy(w.coll, docCount, spec.foreignField, limits), path, size, limits, r)
  {
    hide Found, IsPlan, Bucket, HashBytes, Joinable, Candidates, Encode, JoinValue, BuildIndexScan;
    var strategy := SelectStrategy(w.coll, docCount, spec.foreignField, limits);
    var path := Plan(spec.filter, w.prefix, w.coll);
    if strategy.None? {
      assert LooksUp(outers, w, spec, strategy, path, size, limits, None);
      return None;
    }
    var side: map<bytes, seq<Row>> := map[];
    if strategy.value == Hash {
      var built := BuildHashSide(w, spec.filter, path, spec.foreignField, size, limits);
      if built.None? {
        assert LooksUp(outers, w, spec, strategy, path, size, limits, None);
        return None;
      }
      side := built.value;
    }
    var docs: seq<Joined> := [];
    for i := 0 to |outers|
      invariant |docs| == i
      invariant forall j :: 0 <= j < i ==>
        docs[j].outer == outers[j].row && Some(docs[j].attached) == Attach(w, spec, path, strategy.value, limits.maxMatchesPerOuter, outers[j].row)
    {
      var attached := AttachOne(w, spec, path, side, strategy.value, limits.maxMatchesPerOuter, outers[i].row);
      if attached.None? {
        assert LooksUp(outers, w, spec, strategy, path, size, limits, None);
        return None;
      }
      docs := docs + [Joined(outers[i].row, attached.value)];
    }
    assert LooksUp(outers, w, spec, strategy, path, size, limits, Some(docs));
    return Some(docs);
  }

  method AttachOne(w: View, spec: LookupSpec, ghost path: AccessPath, side: map<bytes, seq<Row>>, strategy: Strategy, maxMatches: nat, outer: Row)
    returns (r: Option<seq<Row>>)
    requires strategy == Hash ==> forall key :: Entries(side, key) == Bucket(MatchesOf(w, spec.filter, path), spec.foreignField, key)
    ensures r == Attach(w, spec, path, strategy, maxMatches, outer)
  {
    hide Found, Bucket, Encode, JoinValue, BuildIndexScan;
    if Matchless(spec, outer) {
      return Some([]);
    }
    var value := OuterValue(spec, outer).value;
    if strategy == Hash {
      return FetchHashMatches(side, value, maxMatches);
    }
    var p := PlanEquality(w.prefix, w.coll, spec.foreignField, value);
    if p.None? {
      return None;
    }
    r := FetchInnerMatches(w, p.value, spec.filter, maxMatches);
  }

  ghost predicate SameAttachment(a: Option<seq<Row>>, b: Option<seq<Row>>) {
    (a.None? && b.None?) || (a.Some? && b.Some? && multiset(a.value) == multiset(b.value))
  }

  lemma BoundedAlike(a: seq<Row>, b: seq<Row>, maxMatches: nat)
    requires multiset(a) == multiset(b)
    ensures SameAttachment(Bounded(a, maxMatches), Bounded(b, maxMatches))
  {
    assert |a| == |multiset(a)| && |b| == |multiset(b)|;
  }

  lemma BoundedUnlike(a: seq<Row>, b: seq<Row>, maxMatches: nat)
    requires multiset(a) != multiset(b) && |b| <= |a|
    ensures SameAttachment(Bounded(a, maxMatches), Bounded(b, maxMatches)) <==> |b| > maxMatches
  {
  }

  /** For an outer document the two operators attach the same multiset or refuse alike, if and only if
      it has no joinable value, or no inner document sought is lost to the hash side, or both refuse. */
  lemma LookupsAgree(w: View, spec: LookupSpec, path: AccessPath, maxMatches: nat, outer: Row)
    requires Agrees(w.entries, w.prefix, w.coll) && IdsFaithful(w.entries, w.prefix, w.coll) && IsPlan(path, spec.filter, w.prefix, w.coll)
    requires spec.foreignField != ID_FIELD && EqualityIndex(w.coll.indexes, spec.foreignField).Some?
    ensures SameAttachment(Attach(w, spec, path, Inlj, maxMatches, outer), Attach(w, spec, path, Hash, maxMatches, outer)) <==>
            || OuterValue(spec, outer).None?
            || !LosesSome(w, spec.filter, path, spec.foreignField, OuterValue(spec, outer).value)
            || |Hashed(w, spec.filter, path, spec.foreignField, OuterValue(spec, outer).value)| > maxMatches
  {
    hide Agrees, IdsFaithful, IsPlan, Found, LosesSome, BuildIndexScan, Bucket, EqualityIndex, Encode;
    if OuterValue(spec, outer).Some? {
      hide SameAttachment, Bounded;
      var value := OuterValue(spec, outer).value;
      var idx := EqualityIndex(w.coll.indexes, spec.foreignField).value;
      var a, b := Probed(w, spec.filter, idx, value), Hashed(w, spec.filter, path, spec.foreignField, value);
      assert value.Scalar() && !Matchless(spec, outer);
      StrategiesAgree(w, spec.filter, path, idx, value);
      if LosesSome(w, spec.filter, path, spec.foreignField, value) {
        BoundedUnlike(a, b, maxMatches);
      } else {
        BoundedAlike(a, b, maxMatches);
      }
    }
  }

  const FIELD_Y: Path := [[121]]  // "y"

  /** The exception is real: joining null against a document without the field, the indexed probe
      attaches it and the hash probe does not. */
  lemma NullJoinDiffers(path: AccessPath)
    requires IsPlan(path, MatchAll, [1], CollectionMeta(0, [IndexMeta(0, [FIELD_Y], [true], false)]))
    ensures var idx, row := IndexMeta(0, [FIELD_Y], [true], false), Row([97], Obj([]));
            var v := View(0, OneDocument(idx, row.doc), [1], CollectionMeta(0, [idx]));
            && Agrees(v.entries, v.prefix, v.coll)
            && row in Probed(v, MatchAll, idx, Null) && row !in Hashed(v, MatchAll, path, FIELD_Y, Null)
  {
    var idx, row := IndexMeta(0, [FIELD_Y], [true], false), Row([97], Obj([]));
    var v := View(0, OneDocument(idx, row.doc), [1], CollectionMeta(0, [idx]));
    assert FIELD_Y[0] != ID_FIELD[0];
    OneDocumentAgrees(idx, row.doc);
    OneDocumentHolds(idx, row.doc, row);
    EmptyObject();
    hide Agrees, IdsFaithful, IsPlan, Holds, Probed, Hashed, JoinValue, OneDocument, GetPath, Hidden;
    NonNullJoins(row.doc, FIELD_Y, Null);
    ProbesDiffer(v, MatchAll, path, idx, Null, row);
  }

  lemma EmptyObject()
    ensures JoinValue(Obj([]), FIELD_Y).None?
  {
  }

  /** So is hiding: joining -0.0 under the filter x == 0.0, the indexed probe attaches a document the
      hash side never sees. */
  lemma ZeroJoinDiffers(path: AccessPath)
    requires IsPlan(path, ZeroQuery(), [1], ZeroCollection())
    ensures var v := View(0, ZeroSnapshot(), [1], ZeroCollection());
            && Agrees(v.entries, v.prefix, v.coll)
            && ZeroRow() in Probed(v, ZeroQuery(), ZeroIndex(), Num(Float(NEGATIVE_ZERO)))
            && ZeroRow() !in Hashed(v, ZeroQuery(), path, FIELD_X, Num(Float(NEGATIVE_ZERO)))
  {
    hide Agrees, IdsFaithful, IsPlan, Holds, Probed, Hashed, JoinValue, ZeroSnapshot, Matches, ZeroClash, OneDocument, GetPath;
    var v, value := View(0, ZeroSnapshot(), [1], ZeroCollection()), Num(Float(NEGATIVE_ZERO));
    ZeroAgrees();
    ZeroHolds();
    ZeroMatches();
    ZeroStored();
    ZeroPlanned(path);
    assert ZeroCollection().indexes[0] == ZeroIndex();
    ProbesDiffer(v, ZeroQuery(), path, ZeroIndex(), value, ZeroRow());
  }

  lemma ZeroHolds()
    ensures Holds(ZeroSnapshot(), [1], 0, ZeroRow())
  {
    hide Holds;
    OneDocumentHolds(ZeroIndex(), ZeroRow().doc, ZeroRow());
  }
}
