/** When an index scan already delivers a requested sort. */
module SortOrder {
  import opened Bytes
  import opened Values
  import opened Encoding
  import opened Filters
  import opened Keys
  import opened Planner
  import opened Query

  datatype SortKey = SortKey(path: Path, ascending: bool)

  datatype SortMatch = Forward | Reverse

  // ---- Comparing documents -----------------------------------------------------

  function Paths(sort: seq<SortKey>): (r: seq<Path>)
    ensures |r| == |sort|
  {
    seq(|sort|, i requires 0 <= i < |sort| => sort[i].path)
  }

  function Flags(sort: seq<SortKey>): (r: seq<bool>)
    ensures |r| == |sort|
  {
    seq(|sort|, i requires 0 <= i < |sort| => sort[i].ascending)
  }

  /** The encoded sort keys buffered for one document. */
  function SortKeys(doc: Value, sort: seq<SortKey>): (r: seq<bytes>)
    ensures |r| == |sort|
  {
    seq(|sort|, i requires 0 <= i < |sort| => Encode(ExtractPath(doc, sort[i].path)))
  }

  function CmpSortKeys(a: seq<bytes>, b: seq<bytes>, flags: seq<bool>): Ordering
    requires |a| == |b| == |flags|
  {
    if flags == [] then Eq
    else
      var o := if flags[0] then CmpBytes(a[0], b[0]) else CmpBytes(a[0], b[0]).Reverse();
      if o != Eq then o else CmpSortKeys(a[1..], b[1..], flags[1..])
  }

  method CompareSortKeys(a: seq<bytes>, b: seq<bytes>, sort: seq<SortKey>) returns (o: Ordering)
    requires |a| == |b| == |sort|
    ensures o == CmpSortKeys(a, b, Flags(sort))
  {
    ghost var flags := Flags(sort);
    for i := 0 to |sort|
      invariant CmpSortKeys(a, b, flags) == CmpSortKeys(a[i..], b[i..], flags[i..])
    {
      var ord := CmpBytes(a[i], b[i]);
      ord := if sort[i].ascending then ord else ord.Reverse();
      assert a[i..][1..] == a[i + 1..] && b[i..][1..] == b[i + 1..] && flags[i..][1..] == flags[i + 1..];
      if ord != Eq {
        return ord;
      }
    }
    return Eq;
  }

  function CompareDocs(d: Value, e: Value, sort: seq<SortKey>): Ordering {
    CmpSortKeys(SortKeys(d, sort), SortKeys(e, sort), Flags(sort))
  }

  function EncodeEach(us: seq<Value>): (r: seq<bytes>)
    ensures |r| == |us|
  {
    seq(|us|, i requires 0 <= i < |us| => Encode(us[i]))
  }

  lemma EncodingCompares(u: Value, v: Value)
    ensures CmpBytes(Encode(u), Encode(v)) == CmpValues(u, v)
  {
    EncodingContract(u, v);
    LessTotal(Encode(u), Encode(v));
    ScalarOrder(u, v);
    RealisesCompares(CmpValues(u, v), Encode(u), Encode(v));
  }

  lemma {:induction false} SortKeysCompare(us: seq<Value>, vs: seq<Value>, flags: seq<bool>)
    requires |us| == |vs| == |flags|
    ensures CmpSortKeys(EncodeEach(us), EncodeEach(vs), flags) == CmpFields(us, vs, flags)
  {
    if us != [] {
      EncodingCompares(us[0], vs[0]);
      SortKeysCompare(us[1..], vs[1..], flags[1..]);
      assert EncodeEach(us)[1..] == EncodeEach(us[1..]) && EncodeEach(vs)[1..] == EncodeEach(vs[1..]);
    }
  }

  /** Comparing encoded sort keys compares the sorted fields in the logical order. */
  lemma ComparesAsFields(d: Value, e: Value, sort: seq<SortKey>)
    ensures CompareDocs(d, e, sort) == CmpFields(FieldValues(d, Paths(sort)), FieldValues(e, Paths(sort)), Flags(sort))
  {
    var us, vs := FieldValues(d, Paths(sort)), FieldValues(e, Paths(sort));
    SortKeysCompare(us, vs, Flags(sort));
    assert SortKeys(d, sort) == EncodeEach(us) && SortKeys(e, sort) == EncodeEach(vs);
  }

  // ---- Matching a sort against an index ----------------------------------------

  function Physical(fields: seq<Path>, directions: seq<bool>): seq<SortKey> {
    var n := if directions == [] || |fields| <= |directions| then |fields| else |directions|;
    seq(n, i requires 0 <= i < n => SortKey(fields[i], directions == [] || directions[i]))
  }

  function Backward(keys: seq<SortKey>): (r: seq<SortKey>)
    ensures |r| == |keys|
  {
    seq(|keys|, i requires 0 <= i < |keys| => SortKey(keys[|keys| - 1 - i].path, !keys[|keys| - 1 - i].ascending))
  }

  function SortMatchesIndex(sort: seq<SortKey>, fields: seq<Path>, directions: seq<bool>, eqLen: nat): Option<SortMatch> {
    if sort == [] then Some(Forward)
    else
      var physical := Physical(fields, directions);
      var suffix := physical[if eqLen <= |physical| then eqLen else |physical|..];
      if sort == suffix || sort == physical then Some(Forward)
      else if sort == Backward(suffix) || sort == Backward(physical) then Some(Reverse)
      else None
  }

  ghost predicate SortedBy(hits: seq<Hit>, sort: seq<SortKey>) {
    forall i, j :: 0 <= i < j < |hits| ==> CompareDocs(hits[i].row.doc, hits[j].row.doc, sort) != Gt
  }

  // ---- Order of scanned tuples -------------------------------------------------

  lemma CmpValuesReverse(u: Value, v: Value)
    ensures CmpValues(v, u) == CmpValues(u, v).Reverse()
  {
    if u.Str? && v.Str? {
      LessTotal(u.s, v.s);
      if Less(u.s, v.s) { LessAsymmetric(u.s, v.s); }
      if Less(v.s, u.s) { LessAsymmetric(v.s, u.s); }
    }
    if u.Num? && v.Num? {
      var x, y := u.n.AsF64(), v.n.AsF64();
      if Numeric(x) == Numeric(y) && x != y {
        EqualNumeric(x, y);
        ZeroBits(x);
        ZeroBits(y);
      }
    }
  }

  lemma {:induction false} CmpFieldsReverse(us: seq<Value>, vs: seq<Value>, dirs: seq<bool>)
    requires |us| == |vs|
    ensures CmpFields(vs, us, dirs) == CmpFields(us, vs, dirs).Reverse()
  {
    if us != [] {
      CmpValuesReverse(us[0], vs[0]);
      CmpFieldsReverse(us[1..], vs[1..], TailDirections(dirs));
    }
  }

  lemma SameEncoding(u: Value, v: Value, e: Value)
    requires CmpValues(u, e) == Eq && CmpValues(v, e) == Eq
    ensures CmpValues(u, v) == Eq
  {
    EncodingContract(u, e);
    EncodingContract(v, e);
    EncodingContract(u, v);
  }

  lemma AdmittedPrefix(us: seq<Value>, vs: seq<Value>, eqs: seq<Value>, range: Constraint)
    requires |us| == |vs| && |eqs| <= |us| && Admits(eqs, range, us) && Admits(eqs, range, vs)
    ensures forall i :: 0 <= i < |eqs| ==> CmpValues(us[i], vs[i]) == Eq
  {
    hide CmpValues, RangeAdmits;
    forall i | 0 <= i < |eqs| ensures CmpValues(us[i], vs[i]) == Eq {
      SameEncoding(us[i], vs[i], eqs[i]);
    }
  }

  lemma PrefixTies(us: seq<Value>, vs: seq<Value>, n: nat, dirs: seq<bool>)
    requires |us| == |vs| == |dirs| && n <= |us|
    requires forall i :: 0 <= i < n ==> CmpValues(us[i], vs[i]) == Eq
    ensures CmpFields(us, vs, dirs) == CmpFields(us[n..], vs[n..], dirs[n..])
  {
    hide CmpValues, CmpFields;
    CmpFieldsEq(us[..n], vs[..n], dirs);
    CmpFieldsConcat(us[..n], vs[..n], us[n..], vs[n..], dirs);
    assert us == us[..n] + us[n..] && vs == vs[..n] + vs[n..];
  }

  /** Two scanned entries agree on the equality prefix, so their order is the order of the rest. */
  lemma ScannedPair(us: seq<Value>, vs: seq<Value>, eqs: seq<Value>, range: Constraint, dirs: seq<bool>)
    requires |us| == |vs| == |dirs| && |eqs| <= |us| && Admits(eqs, range, us) && Admits(eqs, range, vs)
    ensures forall i :: 0 <= i < |eqs| ==> CmpValues(us[i], vs[i]) == Eq
    ensures CmpFields(us, vs, dirs) == CmpFields(us[|eqs|..], vs[|eqs|..], dirs[|eqs|..])
  {
    hide *;
    AdmittedPrefix(us, vs, eqs, range);
    PrefixTies(us, vs, |eqs|, dirs);
  }

  /** When all but the first field tie, the first one decides. */
  lemma HeadDecides(us: seq<Value>, vs: seq<Value>, dirs: seq<bool>)
    requires |us| == |vs| == |dirs| && us != []
    requires forall i :: 1 <= i < |us| ==> CmpValues(us[i], vs[i]) == Eq
    ensures var o := CmpValues(us[0], vs[0]);
            CmpFields(us, vs, dirs) == if dirs[0] then o else o.Reverse()
  {
    hide CmpValues;
    CmpFieldsEq(us[1..], vs[1..], dirs[1..]);
  }

  lemma PhysicalParts(fields: seq<Path>, dirs: seq<bool>, n: nat)
    requires |fields| == |dirs| && n <= |fields|
    ensures Paths(Physical(fields, dirs)) == fields && Flags(Physical(fields, dirs)) == dirs
    ensures Paths(Physical(fields, dirs)[n..]) == fields[n..] && Flags(Physical(fields, dirs)[n..]) == dirs[n..]
  {
  }

  /** A forward match is no sort at all, the fields past the equality prefix, or all of them. */
  lemma ForwardShape(fields: seq<Path>, dirs: seq<bool>, n: nat, sort: seq<SortKey>)
    requires |fields| == |dirs| && n <= |fields|
    requires SortMatchesIndex(sort, fields, dirs, n) == Some(Forward)
    ensures || sort == []
            || (Paths(sort) == fields[n..] && Flags(sort) == dirs[n..])
            || (Paths(sort) == fields && Flags(sort) == dirs)
  {
    PhysicalParts(fields, dirs, n);
  }

  lemma SuffixValues(d: Value, fields: seq<Path>, n: nat)
    requires n <= |fields|
    ensures FieldValues(d, fields[n..]) == FieldValues(d, fields)[n..]
  {
  }

  lemma NoFields(d: Value, e: Value)
    ensures CompareDocs(d, e, []) == Eq
  {
  }

  lemma ForwardPair(d: Value, e: Value, fields: seq<Path>, dirs: seq<bool>, eqs: seq<Value>, range: Constraint, sort: seq<SortKey>)
    requires |fields| == |dirs| && |eqs| <= |fields|
    requires Admits(eqs, range, FieldValues(d, fields)) && Admits(eqs, range, FieldValues(e, fields))
    requires SortMatchesIndex(sort, fields, dirs, |eqs|) == Some(Forward)
    requires CmpFields(FieldValues(d, fields), FieldValues(e, fields), dirs) != Gt
    ensures CompareDocs(d, e, sort) != Gt
  {
    hide *;
    ScannedPair(FieldValues(d, fields), FieldValues(e, fields), eqs, range, dirs);
    ForwardShape(fields, dirs, |eqs|, sort);
    ComparesAsFields(d, e, sort);
    NoFields(d, e);
    SuffixValues(d, fields, |eqs|);
    SuffixValues(e, fields, |eqs|);
  }

  /** The sort asked for, when a reverse match has at most one field past the equality prefix:
      that field backwards, then fields on which every scanned row ties. */
  lemma BackwardShape(fields: seq<Path>, dirs: seq<bool>, n: nat, sort: seq<SortKey>)
    requires |fields| == |dirs| && n <= |fields| <= n + 1
    requires SortMatchesIndex(sort, fields, dirs, n) == Some(Reverse)
    ensures sort != []
    ensures |fields| == n + 1 ==> sort[0] == SortKey(fields[n], !dirs[n])
    ensures forall i :: 0 <= i < |sort| ==> (i == 0 && |fields| == n + 1) || sort[i].path in fields[..n]
  {
    var physical := Physical(fields, dirs);
    var m := |fields|;
    if sort == Backward(physical) {
      forall i | 0 <= i < |sort| && !(i == 0 && m == n + 1) ensures sort[i].path in fields[..n] {
        assert sort[i].path == fields[m - 1 - i] == fields[..n][m - 1 - i];
      }
    }
  }

  lemma TiedValues(d: Value, e: Value, fields: seq<Path>, n: nat, path: Path)
    requires n <= |fields| && path in fields[..n]
    requires var us, vs := FieldValues(d, fields), FieldValues(e, fields);
             forall i :: 0 <= i < n ==> CmpValues(us[i], vs[i]) == Eq
    ensures CmpValues(ExtractPath(d, path), ExtractPath(e, path)) == Eq
  {
    hide CmpValues;
    var k :| 0 <= k < n && fields[..n][k] == path;
    assert FieldValues(d, fields)[k] == ExtractPath(d, path);
  }

  lemma ValueAt(d: Value, sort: seq<SortKey>, i: nat)
    requires i < |sort|
    ensures FieldValues(d, Paths(sort))[i] == ExtractPath(d, sort[i].path) && Flags(sort)[i] == sort[i].ascending
  {
  }

  lemma LastValue(d: Value, fields: seq<Path>, n: nat)
    requires |fields| == n + 1
    ensures FieldValues(d, fields)[n..] == [ExtractPath(d, fields[n])]
  {
  }

  lemma ReversePair(d: Value, e: Value, fields: seq<Path>, dirs: seq<bool>, eqs: seq<Value>, range: Constraint, sort: seq<SortKey>)
    requires |fields| == |dirs| && |eqs| <= |fields| <= |eqs| + 1
    requires Admits(eqs, range, FieldValues(d, fields)) && Admits(eqs, range, FieldValues(e, fields))
    requires SortMatchesIndex(sort, fields, dirs, |eqs|) == Some(Reverse)
    requires CmpFields(FieldValues(d, fields), FieldValues(e, fields), dirs) != Lt
    ensures CompareDocs(d, e, sort) != Gt
  {
    hide *;
    var n, us, vs := |eqs|, FieldValues(d, fields), FieldValues(e, fields);
    ScannedPair(us, vs, eqs, range, dirs);
    BackwardShape(fields, dirs, n, sort);
    ComparesAsFields(d, e, sort);
    var xs, ys := FieldValues(d, Paths(sort)), FieldValues(e, Paths(sort));
    forall i | 0 <= i < |sort| && !(i == 0 && |fields| == n + 1) ensures CmpValues(xs[i], ys[i]) == Eq {
      TiedValues(d, e, fields, n, sort[i].path);
      ValueAt(d, sort, i);
      ValueAt(e, sort, i);
    }
    if |fields| == n + 1 {
      ValueAt(d, sort, 0);
      ValueAt(e, sort, 0);
      LastValue(d, fields, n);
      LastValue(e, fields, n);
      HeadDecides(xs, ys, Flags(sort));
      HeadDecides(us[n..], vs[n..], dirs[n..]);
      OppositeDirections(CmpValues(xs[0], ys[0]), dirs[n]);
    } else {
      CmpFieldsEq(xs, ys, Flags(sort));
    }
  }

  lemma OppositeDirections(o: Ordering, ascending: bool)
    ensures (if ascending then o else o.Reverse()) != Lt ==> (if !ascending then o else o.Reverse()) != Gt
  {
  }

  // ---- Streaming in sort order -------------------------------------------------

  lemma ScannedOrder(prefix: bytes, c: nat, idx: IndexMeta, h: Hit, g: Hit)
    requires h.key == EntryKey(prefix, c, idx, h.row.doc, h.row.id) && g.key == EntryKey(prefix, c, idx, g.row.doc, g.row.id)
    requires Less(h.key, g.key)
    ensures CmpFields(FieldValues(h.row.doc, idx.fields), FieldValues(g.row.doc, idx.fields), idx.Ascending()) != Gt
    ensures CmpFields(FieldValues(g.row.doc, idx.fields), FieldValues(h.row.doc, idx.fields), idx.Ascending()) != Lt
  {
    var us, vs := FieldValues(h.row.doc, idx.fields), FieldValues(g.row.doc, idx.fields);
    IndexKeyOrder(IndexPrefix(prefix, c, idx.id), us, vs, idx.Ascending(), h.row.id, g.row.id);
    CmpFieldsReverse(us, vs, idx.Ascending());
  }

  /** A forward match streams matches already in the requested order. */
  lemma ForwardSorted(snap: seq<Entry>, prefix: bytes, c: nat, filter: Filter, idx: IndexMeta, eqs: seq<Value>, range: Constraint, sort: seq<SortKey>)
    requires Query.Ascending(snap) && EntriesSound(snap, prefix, c, idx) && EntriesComplete(snap, prefix, c, idx)
    requires |eqs| <= |idx.fields| && (|eqs| == |idx.fields| ==> range == FREE)
    requires SortMatchesIndex(sort, idx.fields, idx.Ascending(), |eqs|) == Some(Forward)
    ensures SortedBy(Found(snap, prefix, c, filter, BuildIndexScan(prefix, c, idx, eqs, range)), sort)
  {
    hide Found, BuildIndexScan, EntriesSound, EntriesComplete, EntryKey, Admits, CompareDocs, SortMatchesIndex, FieldValues, NoRepeats, Query.Ascending;
    var hits := Found(snap, prefix, c, filter, BuildIndexScan(prefix, c, idx, eqs, range));
    IndexNoRepeats(snap, prefix, c, filter, idx, eqs, range);
    forall i, j | 0 <= i < j < |hits| ensures CompareDocs(hits[i].row.doc, hits[j].row.doc, sort) != Gt {
      ScannedAt(snap, prefix, c, filter, idx, eqs, range, i, j);
      ScannedOrder(prefix, c, idx, hits[i], hits[j]);
      ForwardPair(hits[i].row.doc, hits[j].row.doc, idx.fields, idx.Ascending(), eqs, range, sort);
    }
  }

  lemma ScannedAt(snap: seq<Entry>, prefix: bytes, c: nat, filter: Filter, idx: IndexMeta, eqs: seq<Value>, range: Constraint, i: nat, j: nat)
    requires EntriesSound(snap, prefix, c, idx) && EntriesComplete(snap, prefix, c, idx)
    requires |eqs| <= |idx.fields| && (|eqs| == |idx.fields| ==> range == FREE)
    requires var hits := Found(snap, prefix, c, filter, BuildIndexScan(prefix, c, idx, eqs, range));
             i < j < |hits| && HitsAscend(hits)
    ensures var hits := Found(snap, prefix, c, filter, BuildIndexScan(prefix, c, idx, eqs, range));
            && Less(hits[i].key, hits[j].key)
            && hits[i].key == EntryKey(prefix, c, idx, hits[i].row.doc, hits[i].row.id)
            && hits[j].key == EntryKey(prefix, c, idx, hits[j].row.doc, hits[j].row.id)
            && Admits(eqs, range, FieldValues(hits[i].row.doc, idx.fields))
            && Admits(eqs, range, FieldValues(hits[j].row.doc, idx.fields))
  {
    hide Found, BuildIndexScan, EntriesSound, EntriesComplete, EntryKey, Admits, Holds, Matches;
    var hits := Found(snap, prefix, c, filter, BuildIndexScan(prefix, c, idx, eqs, range));
    assert hits[i] in hits && hits[j] in hits;
    IndexRows(snap, prefix, c, filter, idx, eqs, range, hits[i]);
    IndexRows(snap, prefix, c, filter, idx, eqs, range, hits[j]);
  }

  /** A reverse match does too, when at most one index field lies past the equality prefix. */
  lemma ReverseSorted(snap: seq<Entry>, prefix: bytes, c: nat, filter: Filter, idx: IndexMeta, eqs: seq<Value>, range: Constraint, sort: seq<SortKey>)
    requires Query.Ascending(snap) && EntriesSound(snap, prefix, c, idx) && EntriesComplete(snap, prefix, c, idx)
    requires |eqs| <= |idx.fields| <= |eqs| + 1 && (|eqs| == |idx.fields| ==> range == FREE)
    requires SortMatchesIndex(sort, idx.fields, idx.Ascending(), |eqs|) == Some(Reverse)
    ensures SortedBy(Reversed(Found(snap, prefix, c, filter, BuildIndexScan(prefix, c, idx, eqs, range))), sort)
  {
    hide Found, BuildIndexScan, EntriesSound, EntriesComplete, EntryKey, Admits, CompareDocs, SortMatchesIndex, FieldValues, NoRepeats, Query.Ascending;
    var hits := Found(snap, prefix, c, filter, BuildIndexScan(prefix, c, idx, eqs, range));
    IndexNoRepeats(snap, prefix, c, filter, idx, eqs, range);
    forall i, j | 0 <= i < j < |hits| ensures CompareDocs(hits[j].row.doc, hits[i].row.doc, sort) != Gt {
      ScannedAt(snap, prefix, c, filter, idx, eqs, range, i, j);
      ScannedOrder(prefix, c, idx, hits[i], hits[j]);
      ReversePair(hits[j].row.doc, hits[i].row.doc, idx.fields, idx.Ascending(), eqs, range, sort);
    }
  }

  lemma HeadWins(us: seq<Value>, vs: seq<Value>, dirs: seq<bool>)
    requires |us| == |vs| == |dirs| && us != []
    requires us[0] == Bool(dirs[0]) && vs[0] == Bool(!dirs[0])
    ensures CmpFields(us, vs, dirs) == Gt
  {
  }
}
