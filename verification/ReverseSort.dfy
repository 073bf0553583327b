/** Exactly when a sort answered by scanning an index backwards comes out sorted. */
module ReverseSort {
  import opened Bytes
  import opened Words
  import opened Values
  import opened Encoding
  import opened Filters
  import opened Keys
  import opened Planner
  import opened Query
  import opened SortOrder
  import opened Paging
  import opened Find
  import ZDocView
  import opened StoreState
  import opened Consistency

  /** Every query planned on the index with `n` fields pinned, whose sort it matches in reverse, lists
      its matches in the order asked for. */
  ghost predicate ReverseSound(idx: IndexMeta, n: nat) {
    forall v, spec, path :: ReverseQuery(v, spec, path, idx, n) ==> SortedBy(Listing(v, spec, path), spec.sort)
  }

  ghost predicate ReverseQuery(v: View, spec: FindSpec, path: AccessPath, idx: IndexMeta, n: nat) {
    && Agrees(v.entries, v.prefix, v.coll) && IsPlan(path, spec.filter, v.prefix, v.coll)
    && idx in v.coll.indexes && path == IndexPath(v.prefix, v.coll.id, idx, TopLevel(spec.filter)) && path.IndexScan? && path.eqLen == n
    && KeyMode(spec.(cursor := None), path) && Backwards(spec, path)
  }

  /** The document holds `us` at the fields. */
  predicate Carries(doc: Value, fields: seq<Path>, us: seq<Value>)
    requires |us| == |fields|
  {
    forall i :: 0 <= i < |fields| ==> GetPath(doc, fields[i]) == Some(us[i])
  }

  /** An object with its members in key order, as documents are. */
  ghost predicate WellKeyed(doc: Value) {
    doc.Obj? && ZDocView.KeysAscend(doc.members)
  }

  /** Documents may hold any values at the fields; none of them is `_id`. */
  ghost predicate Independent(fields: seq<Path>) {
    && ID_FIELD !in fields
    && (forall i, j :: 0 <= i < j < |fields| ==> fields[i] != fields[j])
    && forall us: seq<Value> :: |us| == |fields| ==> exists doc :: WellKeyed(doc) && Carries(doc, fields, us)
  }

  // ---- A query planned with `n` fields pinned ------------------------------------

  function PinOf(fields: seq<Path>, n: nat, i: nat): FieldPred
    requires i <= n < |fields|
  {
    FieldPred(fields[i], [if i < n then Equal(Bool(true)) else GreaterEqual(Bool(false))])
  }

  function Pins(fields: seq<Path>, n: nat): (preds: seq<FieldPred>)
    requires n < |fields|
    ensures |preds| == n + 1
  {
    seq(n + 1, i requires 0 <= i <= n => PinOf(fields, n, i))
  }

  function Conjuncts(preds: seq<FieldPred>): (parts: seq<Filter>)
    ensures |parts| == |preds|
  {
    seq(|preds|, i requires 0 <= i < |preds| => Field(preds[i]))
  }

  lemma {:induction false} ConjunctsTopLevel(filter: Filter, parts: seq<Filter>, preds: seq<FieldPred>)
    requires |parts| == |preds| && forall i :: 0 <= i < |parts| ==> parts[i] < filter && parts[i] == Field(preds[i])
    ensures TopLevelParts(filter, parts) == preds
  {
    if parts != [] {
      ConjunctsTopLevel(filter, parts[1..], preds[1..]);
      assert TopLevel(parts[0]) == [preds[0]];
      assert preds == [preds[0]] + preds[1..];
    }
  }

  lemma {:induction false} OnePred(preds: seq<FieldPred>, p: Path, k: nat)
    requires k < |preds| && preds[k].path == p && forall i, j :: 0 <= i < j < |preds| ==> preds[i].path != preds[j].path
    ensures AtomsFor(preds, p) == preds[k].atoms
  {
    var n := |preds| - 1;
    if k == n {
      NoPred(preds[..n], p);
      assert [] + preds[n].atoms == preds[n].atoms;
    } else {
      OnePred(preds[..n], p, k);
      assert preds[k].atoms + [] == preds[k].atoms;
    }
  }

  lemma {:induction false} NoPred(preds: seq<FieldPred>, p: Path)
    requires forall i :: 0 <= i < |preds| ==> preds[i].path != p
    ensures AtomsFor(preds, p) == []
  {
    if preds != [] {
      NoPred(preds[..|preds| - 1], p);
    }
  }

  lemma OneAtom(atom: Atom)
    ensures Distill([atom]) == Tighten(FREE, atom)
  {
    assert [atom][..0] == [];
  }

  lemma PinConstraints(fields: seq<Path>, n: nat, i: nat)
    requires n < |fields| && i <= n && ID_FIELD !in fields && forall i, j :: 0 <= i < j < |fields| ==> fields[i] != fields[j]
    ensures ConstraintFor(Pins(fields, n), fields[i]) == if i < n then Constraint(Some(Bool(true)), None, None) else Constraint(None, Some(Bool(false)), None)
    ensures ConstraintFor(Pins(fields, n), ID_FIELD) == FREE
  {
    var preds := Pins(fields, n);
    OnePred(preds, fields[i], i);
    OneAtom(preds[i].atoms[0]);
    NoPred(preds, ID_FIELD);
  }

  lemma PinsLength(fields: seq<Path>, n: nat)
    requires n < |fields| && ID_FIELD !in fields && forall i, j :: 0 <= i < j < |fields| ==> fields[i] != fields[j]
    ensures EqLen(fields, Pins(fields, n)) == n
  {
    hide EqLen, ConstraintFor, Pins;
    var m := EqLen(fields, Pins(fields, n));
    PinConstraints(fields, n, n);
    if m < n {
      PinConstraints(fields, n, m);
    }
  }

  function PinQuery(fields: seq<Path>, n: nat): Filter
    requires n < |fields|
  {
    And(Conjuncts(Pins(fields, n)))
  }

  lemma QueryTopLevel(fields: seq<Path>, n: nat)
    requires n < |fields|
    ensures TopLevel(PinQuery(fields, n)) == Pins(fields, n)
  {
    hide Pins;
    var preds := Pins(fields, n);
    var filter := And(Conjuncts(preds));
    assert forall i :: 0 <= i < |filter.parts| ==> filter.parts[i] == Field(preds[i]);
    ConjunctsTopLevel(filter, filter.parts, preds);
  }

  lemma QueryPlanned(idx: IndexMeta, n: nat, prefix: bytes, c: nat)
    requires n < |idx.fields| && ID_FIELD !in idx.fields && forall i, j :: 0 <= i < j < |idx.fields| ==> idx.fields[i] != idx.fields[j]
    ensures var filter := PinQuery(idx.fields, n);
            IsPlan(IndexPath(prefix, c, idx, TopLevel(filter)), filter, prefix, CollectionMeta(c, [idx]))
  {
    hide EqLen, ConstraintFor, TopLevel, PinQuery, Pins, IndexPath;
    var filter := PinQuery(idx.fields, n);
    QueryTopLevel(idx.fields, n);
    PinsLength(idx.fields, n);
    PinConstraints(idx.fields, n, n);
    assert Usable(idx, TopLevel(filter));
    assert [idx][0] == idx;
    assert Best([idx], 0, TopLevel(filter));
  }

  // ---- Two documents the wrong way round -----------------------------------------

  /** Pinned fields true, the first and last free fields in opposite senses, the rest true. */
  function Differing(dirs: seq<bool>, n: nat, first: bool): (us: seq<Value>)
    requires n + 2 <= |dirs|
    ensures |us| == |dirs|
  {
    seq(|dirs|, i requires 0 <= i < |dirs| =>
      if i == n then Bool(first == dirs[n])
      else if i == |dirs| - 1 then Bool(first != dirs[i])
      else Bool(true))
  }

  lemma CarriedValues(doc: Value, fields: seq<Path>, us: seq<Value>)
    requires |us| == |fields| && Carries(doc, fields, us)
    ensures FieldValues(doc, fields) == us
  {
  }

  lemma DocMatches(doc: Value, fields: seq<Path>, dirs: seq<bool>, n: nat, first: bool, id: bytes)
    requires |dirs| == |fields| && n + 2 <= |fields| && ID_FIELD !in fields && Carries(doc, fields, Differing(dirs, n, first))
    ensures Matches(PinQuery(fields, n), doc, Some(id))
  {
    var preds := Pins(fields, n);
    forall i | 0 <= i <= n ensures Matches(Field(preds[i]), doc, Some(id)) {
      assert fields[i] in fields;
      assert GetPath(doc, fields[i]) == Some(Differing(dirs, n, first)[i]);
      PinHolds(i < n, Differing(dirs, n, first)[i]);
    }
  }

  lemma PinHolds(pinned: bool, v: Value)
    requires v.Bool? && (pinned ==> v.b)
    ensures AtomMatches(if pinned then Equal(Bool(true)) else GreaterEqual(Bool(false)), Some(v))
  {
  }

  lemma DocAdmitted(doc: Value, idx: IndexMeta, n: nat, first: bool)
    requires n + 2 <= |idx.fields| && ID_FIELD !in idx.fields && forall i, j :: 0 <= i < j < |idx.fields| ==> idx.fields[i] != idx.fields[j]
    requires Carries(doc, idx.fields, Differing(idx.Ascending(), n, first))
    ensures var preds := Pins(idx.fields, n);
            && EqLen(idx.fields, preds) == n
            && Admits(EqValues(idx.fields, n, preds), RangeFor(idx.fields, n, preds), FieldValues(doc, idx.fields))
  {
    hide EqLen, ConstraintFor, Pins, FieldValues;
    var preds, us := Pins(idx.fields, n), Differing(idx.Ascending(), n, first);
    PinsLength(idx.fields, n);
    CarriedValues(doc, idx.fields, us);
    forall i | 0 <= i < n ensures CmpValues(us[i], EqValues(idx.fields, n, preds)[i]) == Eq {
      PinConstraints(idx.fields, n, i);
    }
    PinConstraints(idx.fields, n, n);
  }

  /** The index puts the first document above the second. */
  lemma DifferingOrder(dirs: seq<bool>, n: nat)
    requires n + 2 <= |dirs|
    ensures CmpFields(Differing(dirs, n, true), Differing(dirs, n, false), dirs) == Gt
  {
    hide CmpFields;
    var us, vs := Differing(dirs, n, true), Differing(dirs, n, false);
    PrefixTies(us, vs, n, dirs);
    HeadWins(us[n..], vs[n..], dirs[n..]);
  }

  /** The sort asked for: the free fields last to first, directions flipped. */
  function BackwardSort(idx: IndexMeta, n: nat): seq<SortKey>
    requires n <= |idx.fields|
  {
    Backward(Physical(idx.fields, idx.Ascending())[n..])
  }

  lemma PhysicalWhole(idx: IndexMeta)
    ensures |Physical(idx.fields, idx.Ascending())| == |idx.fields|
    ensures forall i :: 0 <= i < |idx.fields| ==> Physical(idx.fields, idx.Ascending())[i] == SortKey(idx.fields[i], idx.Ascending()[i])
  {
  }

  lemma BackwardMatches(idx: IndexMeta, n: nat)
    requires n + 2 <= |idx.fields| && forall i, j :: 0 <= i < j < |idx.fields| ==> idx.fields[i] != idx.fields[j]
    ensures SortMatchesIndex(BackwardSort(idx, n), idx.fields, idx.Ascending(), n) == Some(Reverse)
    ensures BackwardSort(idx, n) != [] && BackwardSort(idx, n)[0] == SortKey(idx.fields[|idx.fields| - 1], !idx.Ascending()[|idx.fields| - 1])
  {
    hide Physical, IndexMeta.Ascending;
    var physical, last := Physical(idx.fields, idx.Ascending()), |idx.fields| - 1;
    PhysicalWhole(idx);
    var sort := BackwardSort(idx, n);
    assert sort[0].path == idx.fields[last];
    assert physical[n..][0].path == idx.fields[n] != idx.fields[last];
    assert physical[0].path == idx.fields[0] != idx.fields[last];
  }

  lemma Misordered(d: Value, e: Value, idx: IndexMeta, n: nat)
    requires n + 2 <= |idx.fields| && forall i, j :: 0 <= i < j < |idx.fields| ==> idx.fields[i] != idx.fields[j]
    requires Carries(d, idx.fields, Differing(idx.Ascending(), n, true)) && Carries(e, idx.fields, Differing(idx.Ascending(), n, false))
    ensures CompareDocs(d, e, BackwardSort(idx, n)) == Gt
  {
    hide CompareDocs, FieldValues, BackwardSort, CmpFields, IndexMeta.Ascending;
    var sort, last := BackwardSort(idx, n), |idx.fields| - 1;
    BackwardMatches(idx, n);
    ComparesAsFields(d, e, sort);
    var xs, ys := FieldValues(d, Paths(sort)), FieldValues(e, Paths(sort));
    ValueAt(d, sort, 0);
    ValueAt(e, sort, 0);
    assert GetPath(d, idx.fields[last]) == Some(Differing(idx.Ascending(), n, true)[last]);
    assert GetPath(e, idx.fields[last]) == Some(Differing(idx.Ascending(), n, false)[last]);
    HeadWins(xs, ys, Flags(sort));
  }

  // ---- A store holding both ------------------------------------------------------

  /** A store of two documents, its snapshot, and both documents in it. */
  lemma TwoDocuments(s: Space, d: Value, e: Value) returns (snap: seq<Entry>)
    requires s.Valid()
    ensures Agrees(snap, s.prefix, s.coll)
    ensures Holds(snap, s.prefix, s.coll.id, Row([2], d)) && Holds(snap, s.prefix, s.coll.id, Row([1], e))
  {
    hide Exact, UpsertDb, IsSnapshot, IsScan, Holds, Agrees;
    var one := UpsertDb(s, map[], [1], e, 0);
    var db := UpsertDb(s, one, [2], d, 0);
    EmptyStore(s);
    UpsertExact(s, map[], [1], e, 0);
    UpsertExact(s, one, [2], d, 0);
    snap := ScanExists(db, [], 0);
    assert IsSnapshot(db, 0, snap) by {
      SnapshotOf(db, 0, snap);
    }
    SnapshotAgrees(s, db, 0, snap);
    UpsertCells(s, map[], [1], e, 0, s.BodyKey([1]));
    OtherBodies(s, one, [2], d, 0, [1]);
    UpsertCells(s, one, [2], d, 0, s.BodyKey([2]));
    SnapshotHolds(s, db, 0, snap, Row([2], d));
    SnapshotHolds(s, db, 0, snap, Row([1], e));
  }

  lemma SnapshotOf(db: Db, now: nat, snap: seq<Entry>)
    requires IsScan(db, [], now, snap)
    ensures IsSnapshot(db, now, snap)
  {
  }

  lemma EmptyStore(s: Space)
    ensures Exact(s, map[])
  {
  }

  lemma BothFound(snap: seq<Entry>, prefix: bytes, idx: IndexMeta, n: nat, c: nat, doc: Value, id: bytes, first: bool)
    requires Agrees(snap, prefix, CollectionMeta(c, [idx])) && Holds(snap, prefix, c, Row(id, doc))
    requires n + 2 <= |idx.fields| && ID_FIELD !in idx.fields && forall i, j :: 0 <= i < j < |idx.fields| ==> idx.fields[i] != idx.fields[j]
    requires Carries(doc, idx.fields, Differing(idx.Ascending(), n, first))
    ensures var filter := PinQuery(idx.fields, n);
            Hit(EntryKey(prefix, c, idx, doc, id), Row(id, doc)) in Found(snap, prefix, c, filter, IndexPath(prefix, c, idx, TopLevel(filter)))
  {
    hide EqLen, ConstraintFor, TopLevel, PinQuery, Pins, Found, EntryKey, Holds, EntriesSound, EntriesComplete, BuildIndexScan, Matches, Admits, Differing, Carries;
    var filter, preds := PinQuery(idx.fields, n), Pins(idx.fields, n);
    QueryTopLevel(idx.fields, n);
    DocMatches(doc, idx.fields, idx.Ascending(), n, first, id);
    DocAdmitted(doc, idx, n, first);
    IndexPathParts(prefix, c, idx, preds);
    assert [idx][0] == idx;
    OnlyIndex(snap, prefix, c, idx);
    IndexRows(snap, prefix, c, filter, idx, EqValues(idx.fields, n, preds), RangeFor(idx.fields, n, preds), Hit(EntryKey(prefix, c, idx, doc, id), Row(id, doc)));
  }

  lemma OnlyIndex(snap: seq<Entry>, prefix: bytes, c: nat, idx: IndexMeta)
    requires Agrees(snap, prefix, CollectionMeta(c, [idx]))
    ensures EntriesSound(snap, prefix, c, idx) && EntriesComplete(snap, prefix, c, idx)
  {
    hide EntriesSound, EntriesComplete;
    assert CollectionMeta(c, [idx]).indexes[0] == idx;
  }

  lemma KeysOrdered(idx: IndexMeta, n: nat, prefix: bytes, c: nat, d: Value, e: Value)
    requires n + 2 <= |idx.fields|
    requires Carries(d, idx.fields, Differing(idx.Ascending(), n, true)) && Carries(e, idx.fields, Differing(idx.Ascending(), n, false))
    ensures Less(EntryKey(prefix, c, idx, e, [1]), EntryKey(prefix, c, idx, d, [2]))
  {
    hide EncodeFields, FieldValues, Differing, Less;
    var us, vs := FieldValues(d, idx.fields), FieldValues(e, idx.fields);
    CarriedValues(d, idx.fields, Differing(idx.Ascending(), n, true));
    CarriedValues(e, idx.fields, Differing(idx.Ascending(), n, false));
    DifferingOrder(idx.Ascending(), n);
    CmpFieldsReverse(us, vs, idx.Ascending());
    IndexKeyOrder(IndexPrefix(prefix, c, idx.id), vs, us, idx.Ascending(), [1], [2]);
  }

  lemma NotSortedBackwards(found: seq<Hit>, sort: seq<SortKey>, g: Hit, h: Hit)
    requires HitsAscend(found) && g in found && h in found && Less(g.key, h.key)
    requires CompareDocs(h.row.doc, g.row.doc, sort) == Gt
    ensures !SortedBy(Reversed(found), sort)
  {
    hide CompareDocs, Less;
    var i :| 0 <= i < |found| && found[i] == g;
    var j :| 0 <= j < |found| && found[j] == h;
    LessIrreflexive(g.key);
    if j < i {
      LessAsymmetric(g.key, h.key);
    }
    var back, m := Reversed(found), |found|;
    assert back[m - 1 - j] == h && back[m - 1 - i] == g;
  }

  /** Two free fields are enough: a query planned on the index alone, over a store of two documents,
      that lists them the wrong way round. */
  lemma MisorderedQuery(idx: IndexMeta, n: nat) returns (v: View, spec: FindSpec, path: AccessPath)
    requires idx.id < U32 && n + 2 <= |idx.fields| && Independent(idx.fields)
    ensures ReverseQuery(v, spec, path, idx, n) && v.coll.indexes == [idx] && spec.filter == PinQuery(idx.fields, n)
    ensures !SortedBy(Listing(v, spec, path), spec.sort)
  {
    hide Found, IndexPath, TopLevel, PinQuery, Differing, Carries, EntryKey, Agrees, IsPlan, Holds, SortMatchesIndex, SortedBy, CompareDocs, BackwardSort, HitsAscend, NoRepeats, Less;
    var us, vs := Differing(idx.Ascending(), n, true), Differing(idx.Ascending(), n, false);
    var d :| WellKeyed(d) && Carries(d, idx.fields, us);
    var e :| WellKeyed(e) && Carries(e, idx.fields, vs);
    var s := Space([], CollectionMeta(0, [idx]));
    var snap := TwoDocuments(s, d, e);
    var filter := PinQuery(idx.fields, n);
    v := View(0, snap, [], CollectionMeta(0, [idx]));
    spec := FindSpec(filter, BackwardSort(idx, n), 0, 1, None);
    path := IndexPath([], 0, idx, TopLevel(filter));
    QueryPlanned(idx, n, [], 0);
    QueryTopLevel(idx.fields, n);
    PinsLength(idx.fields, n);
    IndexPathParts([], 0, idx, TopLevel(filter));
    BackwardMatches(idx, n);
    assert idx in [idx];
    assert spec.(cursor := None) == spec;
    BothFound(snap, [], idx, n, 0, d, [2], true);
    BothFound(snap, [], idx, n, 0, e, [1], false);
    FoundAscends(v, filter, path);
    KeysOrdered(idx, n, [], 0, d, e);
    Misordered(d, e, idx, n);
    NotSortedBackwards(MatchesOf(v, filter, path), spec.sort, Hit(EntryKey([], 0, idx, e, [1]), Row([1], e)), Hit(EntryKey([], 0, idx, d, [2]), Row([2], d)));
  }

  /** Answering a sort by a backward scan of an index over independent fields is sound if and only if
      at most one of its fields lies past the equality prefix. */
  lemma ReverseExact(idx: IndexMeta, n: nat)
    requires idx.id < U32 && n <= |idx.fields| && Independent(idx.fields)
    ensures ReverseSound(idx, n) <==> |idx.fields| - n <= 1
  {
    hide Listing, SortedBy, Independent, Agrees, IsPlan, TopLevel, KeyMode, Backwards, IndexPath;
    if n + 2 <= |idx.fields| {
      var v, spec, path := MisorderedQuery(idx, n);
      assert ReverseQuery(v, spec, path, idx, n);
    } else {
      forall v, spec, path | ReverseQuery(v, spec, path, idx, n) ensures SortedBy(Listing(v, spec, path), spec.sort) {
        IndexPathParts(v.prefix, v.coll.id, idx, TopLevel(spec.filter));
        ListingSorted(v, spec, path);
      }
    }
  }

  // ---- Distinct top-level fields ---------------------------------------------------

  /** Distinct names of members, none of them `_id`. */
  ghost predicate TopLevelFields(fields: seq<Path>) {
    && (forall i :: 0 <= i < |fields| ==> |fields[i]| == 1 && fields[i] != ID_FIELD)
    && (forall i, j :: 0 <= i < j < |fields| ==> fields[i] != fields[j])
  }

  /** A member for each field, in key order. */
  function Members(fields: seq<Path>, us: seq<Value>): seq<Member>
    requires |us| == |fields| && forall i :: 0 <= i < |fields| ==> |fields[i]| == 1
  {
    if fields == [] then []
    else
      var n := |fields| - 1;
      ZDocView.InsertMember(Members(fields[..n], us[..n]), fields[n][0], us[n])
  }

  lemma {:induction false} LookupInserted(ms: seq<Member>, key: bytes, val: Value, k: bytes)
    ensures Lookup(ZDocView.InsertMember(ms, key, val), k) == if k == key then Some(val) else Lookup(ms, k)
  {
    hide Less;
    if ms != [] && !Less(key, ms[0].key) && ms[0].key != key {
      LookupInserted(ms[1..], key, val, k);
      assert ([ms[0]] + ZDocView.InsertMember(ms[1..], key, val))[1..] == ZDocView.InsertMember(ms[1..], key, val);
    } else if ms != [] && ms[0].key != key {
      assert ([Member(key, val)] + ms)[1..] == ms;
    }
  }

  lemma {:induction false} InsertedKeys(ms: seq<Member>, key: bytes, val: Value)
    requires ZDocView.KeysAscend(ms)
    ensures ZDocView.KeysAscend(ZDocView.InsertMember(ms, key, val))
    ensures forall i :: 0 <= i < |ZDocView.InsertMember(ms, key, val)| ==>
              ZDocView.InsertMember(ms, key, val)[i].key == key || exists j :: 0 <= j < |ms| && ms[j].key == ZDocView.InsertMember(ms, key, val)[i].key
  {
    hide Less;
    var out := ZDocView.InsertMember(ms, key, val);
    if ms != [] && Less(key, ms[0].key) {
      forall j | 0 < j < |ms| ensures Less(key, ms[j].key) {
        LessTransitive(key, ms[0].key, ms[j].key);
      }
      assert forall i :: 0 < i < |out| ==> out[i] == ms[i - 1];
    } else if ms != [] && ms[0].key != key {
      InsertedKeys(ms[1..], key, val);
      LessTotal(key, ms[0].key);
      var rest := ZDocView.InsertMember(ms[1..], key, val);
      forall i | 0 <= i < |rest| ensures Less(ms[0].key, rest[i].key) && (rest[i].key == key || exists j :: 0 <= j < |ms| && ms[j].key == rest[i].key) {
        if rest[i].key != key {
          var j :| 0 <= j < |ms[1..]| && ms[1..][j].key == rest[i].key;
          assert ms[j + 1].key == rest[i].key;
        }
      }
    } else {
      assert forall i :: 0 < i < |out| ==> out[i] == ms[i];
    }
  }

  lemma {:induction false} MembersHold(fields: seq<Path>, us: seq<Value>)
    requires |us| == |fields| && TopLevelFields(fields)
    ensures ZDocView.KeysAscend(Members(fields, us)) && forall i :: 0 <= i < |fields| ==> Lookup(Members(fields, us), fields[i][0]) == Some(us[i])
  {
    if fields != [] {
      hide ZDocView.InsertMember, Lookup;
      var n := |fields| - 1;
      MembersHold(fields[..n], us[..n]);
      var front := Members(fields[..n], us[..n]);
      InsertedKeys(front, fields[n][0], us[n]);
      forall i | 0 <= i < |fields| ensures Lookup(ZDocView.InsertMember(front, fields[n][0], us[n]), fields[i][0]) == Some(us[i]) {
        LookupInserted(front, fields[n][0], us[n], fields[i][0]);
        if i < n {
          assert fields[i] == [fields[i][0]] && fields[n] == [fields[n][0]];
          assert fields[..n][i] == fields[i] && us[..n][i] == us[i];
        }
      }
    }
  }

  /** Distinct top-level fields are independent. */
  lemma TopLevelIndependent(fields: seq<Path>)
    requires TopLevelFields(fields)
    ensures Independent(fields)
  {
    forall us: seq<Value> | |us| == |fields| ensures exists doc :: WellKeyed(doc) && Carries(doc, fields, us) {
      var doc := Obj(Members(fields, us));
      MembersHold(fields, us);
      forall i | 0 <= i < |fields| ensures GetPath(doc, fields[i]) == Some(us[i]) {
        assert fields[i][1..] == [];
      }
      assert Carries(doc, fields, us);
    }
  }

  const FIELD_A: Path := [[97]]  // "a"
  const FIELD_B: Path := [[98]]  // "b"

  /** On an index over (a, b), the query `a >= false` sorted by b then a, both descending, lists two
      documents of some store the wrong way round. */
  lemma ReverseMisorders() returns (v: View, spec: FindSpec, path: AccessPath)
    ensures var idx := IndexMeta(0, [FIELD_A, FIELD_B], [], false);
            && v.coll == CollectionMeta(v.coll.id, [idx]) && Agrees(v.entries, v.prefix, v.coll) && IsPlan(path, spec.filter, v.prefix, v.coll)
            && spec.filter == And([Field(FieldPred(FIELD_A, [GreaterEqual(Bool(false))]))])
            && !SortedBy(Listing(v, spec, path), spec.sort)
  {
    hide SortedBy, Listing, Independent, Agrees, IsPlan, KeyMode, Backwards, IndexPath, TopLevel;
    var idx := IndexMeta(0, [FIELD_A, FIELD_B], [], false);
    assert FIELD_A[0][0] != FIELD_B[0][0] && |ID_FIELD[0]| == 3;
    TopLevelIndependent(idx.fields);
    v, spec, path := MisorderedQuery(idx, 0);
    assert spec.filter.parts == [Field(FieldPred(FIELD_A, [GreaterEqual(Bool(false))]))];
  }
}
