/** Choosing an access path from a filter and a collection's indexes, and what the chosen key
    range contains. */
module Planner {
  import opened Bytes
  import opened Values
  import opened Encoding
  import opened Filters
  import opened Keys

  datatype IndexMeta = IndexMeta(id: nat, fields: seq<Path>, directions: seq<bool>, unique: bool) {
    /** One flag per field; missing flags read as ascending. */
    function Ascending(): (r: seq<bool>)
      ensures |r| == |fields|
    {
      seq(|fields|, i requires 0 <= i < |fields| => i < |directions| ==> directions[i])
    }
  }

  datatype CollectionMeta = CollectionMeta(id: nat, indexes: seq<IndexMeta>)

  datatype AccessPath =
    | ById(id: bytes)
    | IndexScan(lo: bytes, hi: bytes, fields: seq<Path>, directions: seq<bool>, eqLen: nat)
    | CollectionScan

  // ---- Constraints -------------------------------------------------------------

  datatype Constraint = Constraint(eq: Option<Value>, lo: Option<Value>, hi: Option<Value>) {
    predicate HasRange() {
      lo.Some? || hi.Some?
    }
  }

  const FREE := Constraint(None, None, None)

  /** Only scalar literals constrain a range; a later atom of the same kind replaces an earlier one. */
  function Tighten(c: Constraint, atom: Atom): Constraint {
    match atom
    case Equal(v) => if v.Scalar() then c.(eq := Some(v)) else c
    case Greater(v) => if v.Scalar() then c.(lo := Some(v)) else c
    case GreaterEqual(v) => if v.Scalar() then c.(lo := Some(v)) else c
    case Smaller(v) => if v.Scalar() then c.(hi := Some(v)) else c
    case SmallerEqual(v) => if v.Scalar() then c.(hi := Some(v)) else c
    case _ => c
  }

  function Distill(atoms: seq<Atom>): Constraint {
    if atoms == [] then FREE else Tighten(Distill(atoms[..|atoms| - 1]), atoms[|atoms| - 1])
  }

  function AtomsFor(preds: seq<FieldPred>, path: Path): seq<Atom> {
    if preds == [] then []
    else
      var last := preds[|preds| - 1];
      AtomsFor(preds[..|preds| - 1], path) + if last.path == path then last.atoms else []
  }

  function ConstraintFor(preds: seq<FieldPred>, path: Path): Constraint {
    Distill(AtomsFor(preds, path))
  }

  function At(constraints: map<Path, Constraint>, path: Path): Constraint {
    if path in constraints then constraints[path] else FREE
  }

  lemma AtomsForStep(preds: seq<FieldPred>, i: nat, path: Path)
    requires i < |preds|
    ensures AtomsFor(preds[..i + 1], path)
         == AtomsFor(preds[..i], path) + if preds[i].path == path then preds[i].atoms else []
  {
    assert preds[..i + 1][..i] == preds[..i];
  }

  method Absorb(start: Constraint, atoms: seq<Atom>, ghost before: seq<Atom>) returns (c: Constraint)
    requires start == Distill(before)
    ensures c == Distill(before + atoms)
  {
    c := start;
    assert before + atoms[..0] == before;
    for j := 0 to |atoms|
      invariant c == Distill(before + atoms[..j])
    {
      assert (before + atoms[..j + 1])[..|before| + j] == before + atoms[..j];
      c := Tighten(c, atoms[j]);
    }
    assert atoms[..|atoms|] == atoms;
  }

  method CollectConstraints(filter: Filter) returns (constraints: map<Path, Constraint>)
    ensures forall p :: At(constraints, p) == ConstraintFor(TopLevel(filter), p)
  {
    hide Distill, AtomsFor, TopLevel;
    var preds := CollectTopLevel(filter, []);
    assert preds == TopLevel(filter);
    constraints := map[];
    Unconstrained();
    for i := 0 to |preds|
      invariant forall p :: At(constraints, p) == ConstraintFor(preds[..i], p)
    {
      var pred := preds[i];
      var c := Absorb(At(constraints, pred.path), pred.atoms, AtomsFor(preds[..i], pred.path));
      ghost var was := constraints;
      constraints := constraints[pred.path := c];
      forall p ensures At(constraints, p) == ConstraintFor(preds[..i + 1], p) {
        AtomsForStep(preds, i, p);
        assert p != pred.path ==> AtomsFor(preds[..i], p) + [] == AtomsFor(preds[..i], p);
        assert p != pred.path ==> At(constraints, p) == At(was, p);
      }
    }
    assert preds[..|preds|] == preds;
  }

  lemma Unconstrained()
    ensures forall p :: ConstraintFor([], p) == FREE
  {
  }

  // ---- Selection ---------------------------------------------------------------

  /** Length of the longest leading run of fields pinned by equality. */
  function EqLen(fields: seq<Path>, preds: seq<FieldPred>): (n: nat)
    ensures n <= |fields|
    ensures forall i :: 0 <= i < n ==> ConstraintFor(preds, fields[i]).eq.Some?
    ensures n < |fields| ==> ConstraintFor(preds, fields[n]).eq.None?
  {
    if fields == [] || ConstraintFor(preds, fields[0]).eq.None? then 0
    else 1 + EqLen(fields[1..], preds)
  }

  predicate RangeNext(fields: seq<Path>, preds: seq<FieldPred>) {
    var n := EqLen(fields, preds);
    n < |fields| && ConstraintFor(preds, fields[n]).HasRange()
  }

  predicate Usable(idx: IndexMeta, preds: seq<FieldPred>) {
    EqLen(idx.fields, preds) > 0 || RangeNext(idx.fields, preds)
  }

  /** A longer equality prefix wins, then having a range on the next field. */
  predicate Better(a: IndexMeta, b: IndexMeta, preds: seq<FieldPred>) {
    var m, n := EqLen(a.fields, preds), EqLen(b.fields, preds);
    m > n || (m == n && RangeNext(a.fields, preds) && !RangeNext(b.fields, preds))
  }

  /** Index `k` is usable, none beats it, and it beats every usable one defined before it. */
  ghost predicate Best(indexes: seq<IndexMeta>, k: nat, preds: seq<FieldPred>) {
    && k < |indexes| && Usable(indexes[k], preds)
    && (forall j :: 0 <= j < |indexes| && Usable(indexes[j], preds) ==> !Better(indexes[j], indexes[k], preds))
    && (forall j :: 0 <= j < k && Usable(indexes[j], preds) ==> Better(indexes[k], indexes[j], preds))
  }

  function EqValues(fields: seq<Path>, n: nat, preds: seq<FieldPred>): (eqs: seq<Value>)
    requires n <= |fields|
    requires forall i :: 0 <= i < n ==> ConstraintFor(preds, fields[i]).eq.Some?
    ensures |eqs| == n
  {
    seq(n, i requires 0 <= i < n => ConstraintFor(preds, fields[i]).eq.value)
  }

  function RangeFor(fields: seq<Path>, n: nat, preds: seq<FieldPred>): Constraint {
    if n < |fields| then ConstraintFor(preds, fields[n]) else FREE
  }

  /** The path planned for a filter. */
  ghost predicate IsPlan(path: AccessPath, filter: Filter, prefix: bytes, coll: CollectionMeta) {
    var preds := TopLevel(filter);
    var onId := ConstraintFor(preds, ID_FIELD).eq;
    if onId.Some? && onId.value.Str? then path == ById(onId.value.s)
    else if forall k :: 0 <= k < |coll.indexes| ==> !Usable(coll.indexes[k], preds) then path == CollectionScan
    else exists k: nat :: Best(coll.indexes, k, preds) && path == IndexPath(prefix, coll.id, coll.indexes[k], preds)
  }

  function IndexPath(prefix: bytes, collection: nat, idx: IndexMeta, preds: seq<FieldPred>): AccessPath {
    var n := EqLen(idx.fields, preds);
    BuildIndexScan(prefix, collection, idx, EqValues(idx.fields, n, preds), RangeFor(idx.fields, n, preds))
  }

  /** The best of the first `k` indexes, if any is usable. */
  ghost predicate Leads(best: Option<nat>, indexes: seq<IndexMeta>, k: nat, preds: seq<FieldPred>)
    requires k <= |indexes|
  {
    if best.Some? then Best(indexes[..k], best.value, preds)
    else forall j :: 0 <= j < k ==> !Usable(indexes[j], preds)
  }

  lemma LeadsStep(best: Option<nat>, indexes: seq<IndexMeta>, k: nat, preds: seq<FieldPred>)
    requires k < |indexes| && Leads(best, indexes, k, preds)
    ensures !Usable(indexes[k], preds) ==> Leads(best, indexes, k + 1, preds)
    ensures Usable(indexes[k], preds) && (best.None? || Better(indexes[k], indexes[best.value], preds)) ==>
              Leads(Some(k), indexes, k + 1, preds)
    ensures Usable(indexes[k], preds) && best.Some? && !Better(indexes[k], indexes[best.value], preds) ==>
              Leads(best, indexes, k + 1, preds)
  {
    hide Usable, EqLen, RangeNext;
    assert indexes[..k + 1] == indexes[..k] + [indexes[k]];
  }

  method Plan(filter: Filter, prefix: bytes, coll: CollectionMeta) returns (path: AccessPath)
    ensures IsPlan(path, filter, prefix, coll)
  {
    hide EqLen, RangeNext, ConstraintFor, TopLevel, BuildIndexScan, Best;
    ghost var preds := TopLevel(filter);
    var constraints := CollectConstraints(filter);
    var onId := At(constraints, ID_FIELD).eq;
    if onId.Some? && onId.value.Str? {
      return ById(onId.value.s);
    }
    var best: Option<nat>, bestEq: nat, bestRange := None, 0, false;
    for k := 0 to |coll.indexes|
      invariant Leads(best, coll.indexes, k, preds)
      invariant best.Some? ==> best.value < k
      invariant best.Some? ==> bestEq == EqLen(coll.indexes[best.value].fields, preds)
      invariant best.Some? ==> bestRange == RangeNext(coll.indexes[best.value].fields, preds)
    {
      var n, hasRange := Score(coll.indexes[k], constraints, preds);
      LeadsStep(best, coll.indexes, k, preds);
      if n > 0 || hasRange {
        if best.None? || n > bestEq || (n == bestEq && hasRange && !bestRange) {
          best, bestEq, bestRange := Some(k), n, hasRange;
        }
      }
    }
    assert coll.indexes[..|coll.indexes|] == coll.indexes;
    if best.None? {
      return CollectionScan;
    }
    var idx := coll.indexes[best.value];
    BestUsable(coll.indexes, best.value, preds);
    var eqs := seq(bestEq, i requires 0 <= i < bestEq => At(constraints, idx.fields[i]).eq.value);
    var range := if bestEq < |idx.fields| then At(constraints, idx.fields[bestEq]) else FREE;
    assert eqs == EqValues(idx.fields, bestEq, preds);
    path := BuildIndexScan(prefix, coll.id, idx, eqs, range);
  }

  lemma BestUnique(indexes: seq<IndexMeta>, j: nat, k: nat, preds: seq<FieldPred>)
    requires Best(indexes, j, preds) && Best(indexes, k, preds)
    ensures j == k
  {
    hide Usable, Better;
  }

  lemma BestUsable(indexes: seq<IndexMeta>, k: nat, preds: seq<FieldPred>)
    requires Best(indexes, k, preds)
    ensures k < |indexes| && Usable(indexes[k], preds)
  {
  }

  /** Planning is deterministic, so every page of a query takes the same path. */
  lemma PlanUnique(p: AccessPath, q: AccessPath, filter: Filter, prefix: bytes, coll: CollectionMeta)
    requires IsPlan(p, filter, prefix, coll) && IsPlan(q, filter, prefix, coll)
    ensures p == q
  {
    hide ConstraintFor, Usable, TopLevel, IndexPath, Best;
    var preds := TopLevel(filter);
    var onId := ConstraintFor(preds, ID_FIELD).eq;
    forall k: nat | Best(coll.indexes, k, preds) ensures k < |coll.indexes| {
      BestUsable(coll.indexes, k, preds);
    }
    if !(onId.Some? && onId.value.Str?) && exists k :: 0 <= k < |coll.indexes| && Usable(coll.indexes[k], preds) {
      var j: nat :| Best(coll.indexes, j, preds) && p == IndexPath(prefix, coll.id, coll.indexes[j], preds);
      var k: nat :| Best(coll.indexes, k, preds) && q == IndexPath(prefix, coll.id, coll.indexes[k], preds);
      BestUnique(coll.indexes, j, k, preds);
    }
  }

  /** How much of one index the constraints can use. */
  method Score(idx: IndexMeta, constraints: map<Path, Constraint>, ghost preds: seq<FieldPred>) returns (n: nat, hasRange: bool)
    requires forall p :: At(constraints, p) == ConstraintFor(preds, p)
    ensures n == EqLen(idx.fields, preds) && hasRange == RangeNext(idx.fields, preds)
  {
    n := 0;
    while n < |idx.fields| && At(constraints, idx.fields[n]).eq.Some?
      invariant n <= |idx.fields|
      invariant n + EqLen(idx.fields[n..], preds) == EqLen(idx.fields, preds)
    {
      assert idx.fields[n..][1..] == idx.fields[n + 1..];
      n := n + 1;
    }
    hasRange := n < |idx.fields| && At(constraints, idx.fields[n]).HasRange();
  }

  // ---- Key ranges --------------------------------------------------------------

  /** Bounds of the scan: the equality prefix, narrowed on the next field. On a descending field
      the logical bounds swap. */
  function BuildIndexScan(prefix: bytes, collection: nat, idx: IndexMeta, eqs: seq<Value>, range: Constraint): AccessPath
    requires |eqs| <= |idx.fields|
    requires |eqs| == |idx.fields| ==> range == FREE
  {
    var dirs := idx.Ascending();
    var base := IndexPrefix(prefix, collection, idx.id) + EncodeFields(eqs, dirs[..|eqs|]);
    if !range.HasRange() then
      IndexScan(base, UpperBound(base), idx.fields, dirs, |eqs|)
    else if dirs[|eqs|] then
      var lo := if range.lo.Some? then base + Encode(range.lo.value) else base;
      var hi := if range.hi.Some? then UpperBound(base + Encode(range.hi.value)) else UpperBound(base);
      IndexScan(lo, hi, idx.fields, dirs, |eqs|)
    else
      var lo := if range.hi.Some? then base + Complement(Encode(range.hi.value)) else base;
      var hi := if range.lo.Some? then UpperBound(base + Complement(Encode(range.lo.value))) else UpperBound(base);
      IndexScan(lo, hi, idx.fields, dirs, |eqs|)
  }

  function FieldValues(doc: Value, fields: seq<Path>): (us: seq<Value>)
    ensures |us| == |fields|
  {
    seq(|fields|, i requires 0 <= i < |fields| => ExtractPath(doc, fields[i]))
  }

  /** The entry a document has in an index. */
  function EntryKey(prefix: bytes, collection: nat, idx: IndexMeta, doc: Value, id: bytes): bytes {
    IndexKey(prefix, collection, idx.id, EncodeFields(FieldValues(doc, idx.fields), idx.Ascending()), id)
  }

  predicate RangeAdmits(range: Constraint, v: Value) {
    && (range.lo.Some? ==> CmpValues(v, range.lo.value) != Lt)
    && (range.hi.Some? ==> CmpValues(v, range.hi.value) != Gt)
  }

  /** The field values satisfy the constraints in the index's own order. */
  predicate Admits(eqs: seq<Value>, range: Constraint, us: seq<Value>)
    requires |eqs| <= |us|
  {
    && (forall i :: 0 <= i < |eqs| ==> CmpValues(us[i], eqs[i]) == Eq)
    && (|eqs| < |us| ==> RangeAdmits(range, us[|eqs|]))
  }

  lemma {:induction false} DirectionsPrefix(values: seq<Value>, dirs: seq<bool>)
    requires |values| <= |dirs|
    ensures EncodeFields(values, dirs[..|values|]) == EncodeFields(values, dirs)
  {
    if values != [] {
      DirectionsPrefix(values[1..], dirs[1..]);
      assert dirs[..|values|][1..] == dirs[1..][..|values| - 1];
    }
  }

  lemma {:induction false} CmpFieldsEq(us: seq<Value>, ws: seq<Value>, dirs: seq<bool>)
    requires |us| == |ws|
    ensures CmpFields(us, ws, dirs) == Eq <==> forall i :: 0 <= i < |us| ==> CmpValues(us[i], ws[i]) == Eq
  {
    if us != [] {
      CmpFieldsEq(us[1..], ws[1..], TailDirections(dirs));
      assert (forall i :: 0 <= i < |us| ==> CmpValues(us[i], ws[i]) == Eq) <==>
        CmpValues(us[0], ws[0]) == Eq && forall i :: 0 <= i < |us[1..]| ==> CmpValues(us[1..][i], ws[1..][i]) == Eq;
    }
  }

  /** Where a key sits against a bound made of leading field values. */
  lemma FragmentBounds(ip: bytes, us: seq<Value>, ws: seq<Value>, dirs: seq<bool>, id: bytes)
    requires |ws| <= |us|
    ensures var q := ip + EncodeFields(ws, dirs);
            var k := ip + EncodeFields(us, dirs) + id;
            var o := CmpFields(us[..|ws|], ws, dirs);
            && (Leq(q, k) <==> o != Lt)
            && (UpperBound(q) == [] || Less(k, UpperBound(q)) <==> o != Gt)
            && ip <= q
  {
    hide *;
    var m := |ws|;
    var a, b := EncodeFields(us[..m], dirs), EncodeFields(ws, dirs);
    var tail := EncodeFields(us[m..], DropDirections(dirs, m)) + id;
    var q, k := ip + b, ip + EncodeFields(us, dirs) + id;
    var o := CmpFields(us[..m], ws, dirs);
    assert us == us[..m] + us[m..];
    EncodeFieldsConcat(us[..m], us[m..], dirs);
    KeySplit(ip, a, EncodeFields(us[m..], DropDirections(dirs, m)), id);
    FieldsOrder(us[..m], ws, dirs);
    UnderUpperBound(q, k);
    Compare(o, ip, a, b, tail);
  }

  lemma KeySplit(ip: bytes, a: bytes, x: bytes, id: bytes)
    ensures ip + (a + x) + id == ip + (a + (x + id))
  {
  }

  lemma Compare(o: Ordering, ip: bytes, a: bytes, b: bytes, tail: bytes)
    requires Realises(o, a, b)
    ensures var q, k := ip + b, ip + (a + tail);
            && (Leq(q, k) <==> o != Lt)
            && (Less(k, q) || q <= k <==> o != Gt)
  {
    var q, k := ip + b, ip + (a + tail);
    if o == Eq {
      assert k == q + tail;
      PrefixLeq(q, k);
    } else {
      RealisesExtends(o, a, b, tail, []);
      assert b + [] == b;
      RealisesPrepend(o, ip, a + tail, b);
      RealisesCompares(o, k, q);
    }
  }

  /** Appending one directed value to a fragment. */
  lemma FragmentSnoc(ip: bytes, eqs: seq<Value>, v: Value, dirs: seq<bool>)
    requires |eqs| < |dirs|
    ensures ip + EncodeFields(eqs + [v], dirs) == ip + EncodeFields(eqs, dirs) + EncodeDirected(v, dirs[|eqs|])
  {
    EncodeFieldsConcat(eqs, [v], dirs);
    var rest := DropDirections(dirs, |eqs|);
    assert EncodeFields([v], rest) == EncodeDirected(v, dirs[|eqs|]) + EncodeFields([], TailDirections(rest));
    assert EncodeFields([v], rest) == EncodeDirected(v, dirs[|eqs|]);
    Associative(ip, EncodeFields(eqs, dirs), EncodeDirected(v, dirs[|eqs|]));
  }

  lemma CmpSnoc(us: seq<Value>, eqs: seq<Value>, v: Value, dirs: seq<bool>)
    requires |eqs| < |us| && |eqs| < |dirs|
    ensures CmpFields(us[..|eqs| + 1], eqs + [v], dirs)
         == var c := CmpFields(us[..|eqs|], eqs, dirs);
            var o := CmpValues(us[|eqs|], v);
            if c != Eq then c else if dirs[|eqs|] then o else o.Reverse()
  {
    var n := |eqs|;
    assert us[..n + 1] == us[..n] + [us[n]];
    CmpFieldsConcat(us[..n], eqs, [us[n]], [v], dirs);
    assert [us[n]][1..] == [] && [v][1..] == [];
  }

  /** A fragment is the equality values, perhaps followed by one bound. */
  function Fragment(eqs: seq<Value>, bound: Option<Value>): seq<Value> {
    if bound.Some? then eqs + [bound.value] else eqs
  }

  lemma FragmentKey(ip: bytes, eqs: seq<Value>, bound: Option<Value>, dirs: seq<bool>)
    requires |eqs| <= |dirs| && (bound.Some? ==> |eqs| < |dirs|)
    ensures ip + EncodeFields(Fragment(eqs, bound), dirs)
         == var base := ip + EncodeFields(eqs, dirs[..|eqs|]);
            if bound.Some? then base + EncodeDirected(bound.value, dirs[|eqs|]) else base
  {
    DirectionsPrefix(eqs, dirs);
    if bound.Some? {
      FragmentSnoc(ip, eqs, bound.value, dirs);
    }
  }

  /** The bounds of a scan are fragments in byte order. */
  lemma ScanBounds(prefix: bytes, collection: nat, idx: IndexMeta, eqs: seq<Value>, range: Constraint)
    requires |eqs| <= |idx.fields| && (|eqs| == |idx.fields| ==> range == FREE)
    ensures var path := BuildIndexScan(prefix, collection, idx, eqs, range);
            var ip := IndexPrefix(prefix, collection, idx.id);
            var dirs := idx.Ascending();
            var asc := |eqs| < |dirs| ==> dirs[|eqs|];
            && path.IndexScan? && path.fields == idx.fields && path.directions == dirs && path.eqLen == |eqs|
            && path.lo == ip + EncodeFields(Fragment(eqs, if asc then range.lo else range.hi), dirs)
            && path.hi == UpperBound(ip + EncodeFields(Fragment(eqs, if asc then range.hi else range.lo), dirs))
  {
    var ip := IndexPrefix(prefix, collection, idx.id);
    FragmentKey(ip, eqs, range.lo, idx.Ascending());
    FragmentKey(ip, eqs, range.hi, idx.Ascending());
  }

  lemma IndexPathParts(prefix: bytes, collection: nat, idx: IndexMeta, preds: seq<FieldPred>)
    ensures var n := EqLen(idx.fields, preds);
            var eqs, range := EqValues(idx.fields, n, preds), RangeFor(idx.fields, n, preds);
            var path := IndexPath(prefix, collection, idx, preds);
            && path == BuildIndexScan(prefix, collection, idx, eqs, range)
            && path.IndexScan? && path.fields == idx.fields && path.directions == idx.Ascending() && path.eqLen == |eqs| == n
  {
    hide EqLen, ConstraintFor, EncodeFields, UpperBound;
    var n := EqLen(idx.fields, preds);
    ScanBounds(prefix, collection, idx, EqValues(idx.fields, n, preds), RangeFor(idx.fields, n, preds));
  }

  lemma FragmentAdmits(us: seq<Value>, eqs: seq<Value>, bound: Option<Value>, dirs: seq<bool>)
    requires |eqs| <= |us| && |us| == |dirs| && (bound.Some? ==> |eqs| < |us|)
    ensures var c := CmpFields(us[..|eqs|], eqs, dirs);
            var o := CmpFields(us[..|Fragment(eqs, bound)|], Fragment(eqs, bound), dirs);
            && (c != Eq || bound.None? ==> o == c)
            && (c == Eq && bound.Some? ==>
                  var d := CmpValues(us[|eqs|], bound.value);
                  o == if dirs[|eqs|] then d else d.Reverse())
  {
    if bound.Some? {
      CmpSnoc(us, eqs, bound.value, dirs);
    }
  }

  lemma FragmentsAdmit(us: seq<Value>, eqs: seq<Value>, range: Constraint, dirs: seq<bool>)
    requires |eqs| <= |us| && |us| == |dirs| && (|eqs| == |us| ==> range == FREE)
    ensures var asc := |eqs| < |dirs| ==> dirs[|eqs|];
            var low := Fragment(eqs, if asc then range.lo else range.hi);
            var high := Fragment(eqs, if asc then range.hi else range.lo);
            && |low| <= |us| && |high| <= |us|
            && (CmpFields(us[..|low|], low, dirs) != Lt && CmpFields(us[..|high|], high, dirs) != Gt
                <==> Admits(eqs, range, us))
  {
    hide CmpFields, CmpValues;
    FragmentAdmits(us, eqs, range.lo, dirs);
    FragmentAdmits(us, eqs, range.hi, dirs);
    CmpFieldsEq(us[..|eqs|], eqs, dirs);
  }

  /** The scanned range holds exactly the entries whose field values satisfy the constraints, for
      ascending, descending and mixed composite indexes. */
  lemma RangeExact(prefix: bytes, collection: nat, idx: IndexMeta, eqs: seq<Value>, range: Constraint, us: seq<Value>, id: bytes)
    requires |eqs| <= |idx.fields| == |us| && (|eqs| == |idx.fields| ==> range == FREE)
    ensures var path := BuildIndexScan(prefix, collection, idx, eqs, range);
            var key := IndexKey(prefix, collection, idx.id, EncodeFields(us, idx.Ascending()), id);
            path.IndexScan? && (InRange(key, path.lo, path.hi) <==> Admits(eqs, range, us))
  {
    hide EncodeFields, CmpValues, CmpFields, UpperBound, Less, BuildIndexScan, Fragment, Admits, IndexPrefix;
    var ip, dirs := IndexPrefix(prefix, collection, idx.id), idx.Ascending();
    var asc := |eqs| < |dirs| ==> dirs[|eqs|];
    var low := Fragment(eqs, if asc then range.lo else range.hi);
    var high := Fragment(eqs, if asc then range.hi else range.lo);
    ScanBounds(prefix, collection, idx, eqs, range);
    FragmentsAdmit(us, eqs, range, dirs);
    FragmentBounds(ip, us, low, dirs, id);
    FragmentBounds(ip, us, high, dirs, id);
  }

  /** Nothing outside the index is ever scanned. */
  lemma ScanInsideIndex(prefix: bytes, collection: nat, idx: IndexMeta, eqs: seq<Value>, range: Constraint, key: bytes)
    requires |eqs| <= |idx.fields| && (|eqs| == |idx.fields| ==> range == FREE)
    requires var path := BuildIndexScan(prefix, collection, idx, eqs, range);
             path.IndexScan? && InRange(key, path.lo, path.hi)
    ensures IndexPrefix(prefix, collection, idx.id) <= key
  {
    var ip, dirs := IndexPrefix(prefix, collection, idx.id), idx.Ascending();
    var asc := |eqs| < |dirs| ==> dirs[|eqs|];
    ScanBounds(prefix, collection, idx, eqs, range);
    var path := BuildIndexScan(prefix, collection, idx, eqs, range);
    ScanStaysUnder(ip, path.lo, ip + EncodeFields(Fragment(eqs, if asc then range.hi else range.lo), dirs), key);
  }

  // ---- Matching documents are in range -----------------------------------------

  lemma {:induction false} DistillSound(atoms: seq<Atom>)
    ensures var c := Distill(atoms);
            && (c.eq.Some? ==> c.eq.value.Scalar() && Equal(c.eq.value) in atoms)
            && (c.lo.Some? ==> c.lo.value.Scalar() && (Greater(c.lo.value) in atoms || GreaterEqual(c.lo.value) in atoms))
            && (c.hi.Some? ==> c.hi.value.Scalar() && (Smaller(c.hi.value) in atoms || SmallerEqual(c.hi.value) in atoms))
  {
    if atoms != [] {
      DistillSound(atoms[..|atoms| - 1]);
    }
  }

  lemma {:induction false} AtomsForOrigin(preds: seq<FieldPred>, path: Path, atom: Atom)
    requires atom in AtomsFor(preds, path)
    ensures exists p :: p in preds && p.path == path && atom in p.atoms
  {
    var n := |preds| - 1;
    if preds[n].path == path && atom in preds[n].atoms {
      assert preds[n] in preds;
    } else {
      AtomsForOrigin(preds[..n], path, atom);
    }
  }

  lemma AtomHolds(filter: Filter, doc: Value, id: bytes, path: Path, atom: Atom)
    requires Matches(filter, doc, Some(id)) && atom in AtomsFor(TopLevel(filter), path)
    ensures AtomMatches(atom, FieldSeen(path, doc, id))
  {
    AtomsForOrigin(TopLevel(filter), path, atom);
    TopLevelHolds(filter, doc, id);
    var p :| p in TopLevel(filter) && p.path == path && atom in p.atoms;
    IdShortcutAgrees(atom, id);
  }

  /** A matching document satisfies the constraints in the filter's order. */
  lemma ConstraintHolds(filter: Filter, doc: Value, id: bytes, path: Path)
    requires Matches(filter, doc, Some(id))
    ensures var c, seen := ConstraintFor(TopLevel(filter), path), FieldSeen(path, doc, id);
            && (c.eq.Some? ==> c.eq.value.Scalar() && EqMatch(seen, c.eq.value))
            && (c.lo.Some? ==> c.lo.value.Scalar() && OrderMatch(seen, c.lo.value, {Gt, Eq}))
            && (c.hi.Some? ==> c.hi.value.Scalar() && OrderMatch(seen, c.hi.value, {Lt, Eq}))
  {
    var atoms := AtomsFor(TopLevel(filter), path);
    DistillSound(atoms);
    forall atom | atom in atoms ensures AtomMatches(atom, FieldSeen(path, doc, id)) {
      AtomHolds(filter, doc, id, path, atom);
    }
    hide Distill, AtomsFor, TopLevel, Matches, FieldSeen, OrderMatch, EqMatch;
    var c, seen := ConstraintFor(TopLevel(filter), path), FieldSeen(path, doc, id);
    if c.lo.Some? {
      OrderWeakens(seen, c.lo.value);
      assert AtomMatches(Greater(c.lo.value), seen) || AtomMatches(GreaterEqual(c.lo.value), seen);
    }
    if c.hi.Some? {
      OrderWeakens(seen, c.hi.value);
      assert AtomMatches(Smaller(c.hi.value), seen) || AtomMatches(SmallerEqual(c.hi.value), seen);
    }
    if c.eq.Some? {
      assert AtomMatches(Equal(c.eq.value), seen);
    }
  }

  lemma OrderWeakens(seen: Option<Value>, target: Value)
    ensures OrderMatch(seen, target, {Gt}) ==> OrderMatch(seen, target, {Gt, Eq})
    ensures OrderMatch(seen, target, {Lt}) ==> OrderMatch(seen, target, {Lt, Eq})
  {
  }

  /** The body's `_id`, where it is indexed, is the document's id. */
  predicate IdFaithful(fields: seq<Path>, doc: Value, id: bytes) {
    ID_FIELD in fields ==> ExtractPath(doc, ID_FIELD) == Str(id)
  }

  /** A bound is a zero and the stored value the other zero, on the side the index excludes. */
  predicate RangeClashes(range: Constraint, v: Value) {
    || (range.lo.Some? && IsPositiveZero(range.lo.value) && IsNegativeZero(v))
    || (range.hi.Some? && IsNegativeZero(range.hi.value) && IsPositiveZero(v))
  }

  /** Some literal the range was built from meets a zero of the other sign. */
  predicate Clashes(eqs: seq<Value>, range: Constraint, us: seq<Value>)
    requires |eqs| <= |us|
  {
    || (exists i :: 0 <= i < |eqs| && OppositeZeros(us[i], eqs[i]))
    || (|eqs| < |us| && RangeClashes(range, us[|eqs|]))
  }

  lemma EqAdmits(seen: Option<Value>, u: Value, target: Value)
    requires target.Scalar() && EqMatch(seen, target)
    requires u == if seen.Some? then seen.value else Null
    ensures CmpValues(u, target) == Eq <==> !OppositeZeros(u, target)
  {
    if seen.Some? {
      OrdersAgree(u, target);
    }
  }

  lemma RangeAdmitsMatching(seen: Option<Value>, u: Value, range: Constraint)
    requires u == if seen.Some? then seen.value else Null
    requires range.lo.Some? ==> range.lo.value.Scalar() && OrderMatch(seen, range.lo.value, {Gt, Eq})
    requires range.hi.Some? ==> range.hi.value.Scalar() && OrderMatch(seen, range.hi.value, {Lt, Eq})
    ensures RangeAdmits(range, u) <==> !RangeClashes(range, u)
  {
    if range.lo.Some? {
      OrdersAgree(u, range.lo.value);
    }
    if range.hi.Some? {
      OrdersAgree(u, range.hi.value);
    }
    hide CmpScalar, CmpValues, IsPositiveZero, IsNegativeZero;
  }

  /** A matching document's entry is in the planned range, unless a zero meets its opposite. */
  lemma MatchingAdmitted(filter: Filter, idx: IndexMeta, doc: Value, id: bytes)
    requires Matches(filter, doc, Some(id)) && IdFaithful(idx.fields, doc, id)
    ensures var preds, us := TopLevel(filter), FieldValues(doc, idx.fields);
            var n := EqLen(idx.fields, preds);
            var eqs, range := EqValues(idx.fields, n, preds), RangeFor(idx.fields, n, preds);
            Admits(eqs, range, us) <==> !Clashes(eqs, range, us)
  {
    var preds, us := TopLevel(filter), FieldValues(doc, idx.fields);
    var n := EqLen(idx.fields, preds);
    var eqs, range := EqValues(idx.fields, n, preds), RangeFor(idx.fields, n, preds);
    forall i | 0 <= i < n ensures CmpValues(us[i], eqs[i]) == Eq <==> !OppositeZeros(us[i], eqs[i]) {
      ConstraintHolds(filter, doc, id, idx.fields[i]);
      assert idx.fields[i] in idx.fields;
      EqAdmits(FieldSeen(idx.fields[i], doc, id), us[i], eqs[i]);
    }
    if n < |us| {
      ConstraintHolds(filter, doc, id, idx.fields[n]);
      assert idx.fields[n] in idx.fields;
      RangeAdmitsMatching(FieldSeen(idx.fields[n], doc, id), us[n], range);
    }
  }
}
