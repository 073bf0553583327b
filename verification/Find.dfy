/** A filtered find, page by page: the dispatcher over access paths and paging modes, and what
    following its cursors to the end returns. */
module Find {
  import opened Bytes
  import opened Words
  import opened Values
  import opened Encoding
  import opened Filters
  import opened Keys
  import opened Planner
  import opened Query
  import opened SortOrder
  import opened Paging

  // ---- What one call answers ---------------------------------------------------

  function KeyAfter(cursor: Option<bytes>): Option<bytes> {
    if cursor.Some? then
      match DecodeCursor(cursor.value)
      case Some(KeyCursor(k)) => Some(k)
      case _ => None
    else None
  }

  /** The scan already satisfies the sort and the cursor, if any, is a key. */
  predicate KeyMode(spec: FindSpec, path: AccessPath) {
    && path.IndexScan? && spec.skip == 0
    && (spec.cursor.None? || KeyAfter(spec.cursor).Some?)
    && SortMatchesIndex(spec.sort, path.fields, path.directions, path.eqLen).Some?
  }

  predicate Backwards(spec: FindSpec, path: AccessPath)
    requires path.IndexScan?
  {
    SortMatchesIndex(spec.sort, path.fields, path.directions, path.eqLen) == Some(Reverse)
  }

  function OffsetFrom(v: View, spec: FindSpec, path: AccessPath, maxSort: nat, offset: nat): Result {
    var found := MatchesOf(v, spec.filter, path);
    if spec.sort == [] then Ok(OffsetPage(v, found, offset, spec.PageSize()))
    else if |found| > maxSort then SortTooLarge
    else Ok(OffsetPage(v, StableSort(found, spec.sort), offset, spec.PageSize()))
  }

  function OffsetAnswer(v: View, spec: FindSpec, path: AccessPath, maxSort: nat): Result {
    if spec.cursor.None? then OffsetFrom(v, spec, path, maxSort, spec.skip)
    else
      match DecodeCursor(spec.cursor.value)
      case None => MalformedCursor
      case Some(KeyCursor(_)) => ModeChanged
      case Some(OffsetCursor(o)) => OffsetFrom(v, spec, path, maxSort, o)
  }

  function Answer(v: View, spec: FindSpec, path: AccessPath, maxSort: nat): Result {
    if path.ById? then
      Ok(Page(if spec.skip == 0 then Rows(MatchesOf(v, spec.filter, path)) else [], None))
    else if KeyMode(spec, path) then
      Ok(KeyPage(v, HitsOf(v, spec.filter, KeyScan(v, path.lo, path.hi, Backwards(spec, path), KeyAfter(spec.cursor))), spec.PageSize()))
    else OffsetAnswer(v, spec, path, maxSort)
  }

  // ---- The dispatcher ----------------------------------------------------------

  /** Every row a planned path yields is a live document. */
  lemma FoundLive(v: View, filter: Filter, path: AccessPath, h: Hit)
    requires Agrees(v.entries, v.prefix, v.coll) && IsPlan(path, filter, v.prefix, v.coll)
    requires h in MatchesOf(v, filter, path)
    ensures Holds(v.entries, v.prefix, v.coll.id, h.row)
  {
    hide ConstraintFor, Usable, Best, TopLevel, IndexPath, Hits, EntriesSound, EntriesComplete, Matches;
    var snap, prefix, c := v.entries, v.prefix, v.coll.id;
    HitsExact(snap, prefix, c, filter, Candidates(snap, prefix, c, path), h);
    if path.ById? {
      DocKeyRoundTrip(prefix, c, path.id);
    } else if path.CollectionScan? {
      CollectionRows(snap, prefix, c, filter, h);
    } else {
      forall k: nat | Best(v.coll.indexes, k, TopLevel(filter)) ensures k < |v.coll.indexes| {
        BestUsable(v.coll.indexes, k, TopLevel(filter));
      }
      var k: nat :| k < |v.coll.indexes| && path == IndexPath(prefix, c, v.coll.indexes[k], TopLevel(filter));
      IndexLive(v, filter, v.coll.indexes[k], h);
    }
  }

  lemma IndexLive(v: View, filter: Filter, idx: IndexMeta, h: Hit)
    requires EntriesSound(v.entries, v.prefix, v.coll.id, idx) && EntriesComplete(v.entries, v.prefix, v.coll.id, idx)
    requires h in MatchesOf(v, filter, IndexPath(v.prefix, v.coll.id, idx, TopLevel(filter)))
    ensures Holds(v.entries, v.prefix, v.coll.id, h.row)
  {
    hide Found, BuildIndexScan, EqLen, EntriesSound, EntriesComplete, TopLevel, Holds, Matches;
    var n := EqLen(idx.fields, TopLevel(filter));
    IndexRows(v.entries, v.prefix, v.coll.id, filter, idx, EqValues(idx.fields, n, TopLevel(filter)), RangeFor(idx.fields, n, TopLevel(filter)), h);
  }

  lemma SortedLive(v: View, filter: Filter, path: AccessPath, sort: seq<SortKey>)
    requires Agrees(v.entries, v.prefix, v.coll) && IsPlan(path, filter, v.prefix, v.coll)
    ensures forall h :: h in StableSort(MatchesOf(v, filter, path), sort) ==> Holds(v.entries, v.prefix, v.coll.id, h.row)
  {
    hide *;
    var found := MatchesOf(v, filter, path);
    var sorted := StableSort(found, sort);
    FoundAscends(v, filter, path);
    StableSortSpec(found, sort);
    forall h | h in sorted ensures Holds(v.entries, v.prefix, v.coll.id, h.row) {
      assert h in multiset(sorted);
      FoundLive(v, filter, path, h);
    }
  }

  lemma FoundAscends(v: View, filter: Filter, path: AccessPath)
    requires Agrees(v.entries, v.prefix, v.coll) && IsPlan(path, filter, v.prefix, v.coll)
    ensures HitsAscend(MatchesOf(v, filter, path)) && NoRepeats(MatchesOf(v, filter, path))
  {
    hide Agrees, IsPlan, HitsAscend, NoRepeats, Found;
    PlannedOnce(v.entries, v.prefix, v.coll, filter, path);
  }

  method BufferMatches(found: seq<Hit>, maxSort: nat) returns (all: Option<seq<Hit>>)
    ensures all == if |found| <= maxSort then Some(found) else None
  {
    var buffer: seq<Hit> := [];
    for i := 0 to |found|
      invariant buffer == found[..i] && i <= maxSort
    {
      if |buffer| >= maxSort {
        return None;
      }
      buffer := buffer + [found[i]];
    }
    assert buffer == found;
    return Some(buffer);
  }

  /** Buffer every match up to the limit, sort, cut the window and fetch its bodies again. */
  method BufferedSortPage(v: View, spec: FindSpec, path: AccessPath, offset: nat, maxSort: nat) returns (r: Result)
    requires Agrees(v.entries, v.prefix, v.coll) && IsPlan(path, spec.filter, v.prefix, v.coll) && spec.sort != []
    ensures r == OffsetFrom(v, spec, path, maxSort, offset)
  {
    hide Agrees, IsPlan, MatchesOf, StableSort, EncodeCursor, Holds;
    var all := BufferMatches(MatchesOf(v, spec.filter, path), maxSort);
    if all.None? {
      return SortTooLarge;
    }
    SortedLive(v, spec.filter, path, spec.sort);
    var sorted := StableSort(all.value, spec.sort);
    var total := |sorted|;
    var end, start := Min(offset + spec.PageSize(), total), Min(offset, total);
    var rows := FetchRows(v, sorted[start..end]);
    r := Ok(Page(rows, if end < total then Some(EncodeCursor(v.seqno, OffsetCursor(end))) else None));
  }

  method FetchRows(v: View, hits: seq<Hit>) returns (rows: seq<Row>)
    requires forall h :: h in hits ==> Holds(v.entries, v.prefix, v.coll.id, h.row)
    ensures rows == Rows(hits)
  {
    rows := [];
    for i := 0 to |hits|
      invariant rows == Rows(hits[..i])
    {
      assert hits[i] in hits && hits[..i + 1] == hits[..i] + [hits[i]];
      match Get(v.entries, DocKey(v.prefix, v.coll.id, hits[i].row.id)) {
        case Some(Body(doc)) => rows := rows + [Row(hits[i].row.id, doc)];
        case _ =>
      }
    }
    assert hits[..|hits|] == hits;
  }

  method OffsetModePage(v: View, spec: FindSpec, path: AccessPath, maxSort: nat) returns (r: Result)
    requires Agrees(v.entries, v.prefix, v.coll) && IsPlan(path, spec.filter, v.prefix, v.coll)
    ensures r == OffsetAnswer(v, spec, path, maxSort)
  {
    hide Agrees, IsPlan, Found, StableSort, DecodeCursor;
    var offset := spec.skip;
    if spec.cursor.Some? {
      match DecodeCursor(spec.cursor.value) {
        case None => return MalformedCursor;
        case Some(KeyCursor(_)) => return ModeChanged;
        case Some(OffsetCursor(o)) => offset := o;
      }
    }
    if spec.sort == [] {
      var page := StreamOffsetPage(v, MatchesOf(v, spec.filter, path), offset, spec.PageSize());
      r := Ok(page);
    } else {
      r := BufferedSortPage(v, spec, path, offset, maxSort);
    }
  }

  method ExecuteFind(v: View, spec: FindSpec, maxSort: nat) returns (r: Result)
    requires Agrees(v.entries, v.prefix, v.coll)
    ensures exists path :: IsPlan(path, spec.filter, v.prefix, v.coll) && r == Answer(v, spec, path, maxSort)
  {
    hide Agrees, IsPlan, Found, OffsetAnswer, KeyPage, KeyScan, Hits, SortMatchesIndex;
    var path := Plan(spec.filter, v.prefix, v.coll);
    match path {
      case ById(id) =>
        var rows: seq<Row> := [];
        if spec.skip == 0 {
          rows := Rows(MatchesOf(v, spec.filter, path));
        }
        r := Ok(Page(rows, None));
      case IndexScan(lo, hi, fields, directions, eqLen) =>
        if spec.skip == 0 && (spec.cursor.None? || KeyAfter(spec.cursor).Some?) {
          match SortMatchesIndex(spec.sort, fields, directions, eqLen) {
            case Some(m) =>
              var page := KeyModePage(v, spec.filter, lo, hi, spec.PageSize(), m == Reverse, KeyAfter(spec.cursor));
              r := Ok(page);
            case None =>
              r := OffsetModePage(v, spec, path, maxSort);
          }
        } else {
          r := OffsetModePage(v, spec, path, maxSort);
        }
      case CollectionScan =>
        r := OffsetModePage(v, spec, path, maxSort);
    }
    assert r == Answer(v, spec, path, maxSort);
  }

  // ---- The list being paged ----------------------------------------------------

  /** All matches in the order the query delivers them. */
  function Listing(v: View, spec: FindSpec, path: AccessPath): seq<Hit> {
    var found := MatchesOf(v, spec.filter, path);
    if path.ById? then found
    else if KeyMode(spec.(cursor := None), path) then
      (if Backwards(spec, path) then Reversed(found) else found)
    else if spec.sort == [] then found
    else StableSort(found, spec.sort)
  }

  function CursorAt(v: View, spec: FindSpec, path: AccessPath, m: nat): bytes {
    var list := Listing(v, spec, path);
    if KeyMode(spec.(cursor := None), path) then
      (if 0 < m <= |list| then EncodeCursor(v.seqno, KeyCursor(list[m - 1].key)) else [])
    else EncodeCursor(v.seqno, OffsetCursor(m))
  }

  function PageFrom(v: View, spec: FindSpec, path: AccessPath, m: nat): Page {
    PageAt(Listing(v, spec, path), m, spec.PageSize(), CursorAt(v, spec, path, m + spec.PageSize()))
  }

  lemma {:induction false} HitsAgree(r: seq<Hit>, s: seq<Hit>)
    requires HitsAscend(r) && HitsAscend(s) && forall h :: h in r <==> h in s
    ensures r == s
  {
    assert r != [] ==> r[0] in r;
    assert s != [] ==> s[0] in s;
    if r != [] && s != [] {
      FirstHits(r, s);
      HitsTail(r);
      HitsTail(s);
      HitsAgree(r[1..], s[1..]);
      assert r == [r[0]] + r[1..] && s == [s[0]] + s[1..];
    }
  }

  lemma FirstHits(r: seq<Hit>, s: seq<Hit>)
    requires HitsAscend(r) && HitsAscend(s) && r != [] && s != [] && forall h :: h in r <==> h in s
    ensures r[0] == s[0]
  {
    assert r[0] in r && s[0] in s;
    var i :| 0 <= i < |s| && s[i] == r[0];
    var j :| 0 <= j < |r| && r[j] == s[0];
    assert i > 0 && j > 0 ==> Less(s[0].key, r[0].key) && Less(r[0].key, s[0].key);
    if Less(s[0].key, r[0].key) {
      LessAsymmetric(s[0].key, r[0].key);
    }
  }

  lemma HitsTail(r: seq<Hit>)
    requires HitsAscend(r) && r != []
    ensures HitsAscend(r[1..]) && forall h :: h in r[1..] <==> h in r && h != r[0]
  {
    assert r == [r[0]] + r[1..];
    LessIrreflexive(r[0].key);
    forall h | h in r[1..] ensures h != r[0] {
      var i :| 0 <= i < |r[1..]| && r[1..][i] == h;
      assert Less(r[0].key, r[i + 1].key);
    }
  }

  /** Splitting an ascending list by key is splitting it by position. */
  lemma SplitByKey(list: seq<Hit>, m: nat, h: Hit)
    requires HitsAscend(list) && m < |list|
    ensures h in list[m + 1..] <==> h in list && Less(list[m].key, h.key)
    ensures h in list[..m] <==> h in list && Less(h.key, list[m].key)
  {
    if h in list {
      var i :| 0 <= i < |list| && list[i] == h;
      LessIrreflexive(h.key);
      if i < m {
        LessAsymmetric(list[i].key, list[m].key);
        assert list[..m][i] == h;
      }
      if i > m {
        LessAsymmetric(list[m].key, list[i].key);
        assert list[m + 1..][i - m - 1] == h;
      }
    }
  }

  lemma ScanHits(v: View, filter: Filter, lo: bytes, hi: bytes, h: Hit)
    ensures h in HitsOf(v, filter, Scan(v.entries, lo, hi)) <==>
            exists e :: e in v.entries && e.key == h.key && RowOf(v.entries, v.prefix, v.coll.id, filter, e) == Some(h.row) && InRange(h.key, lo, hi)
  {
    hide RowOf, Hits, Scan;
    ScanExact(v.entries, lo, hi);
    HitsExact(v.entries, v.prefix, v.coll.id, filter, Scan(v.entries, lo, hi), h);
  }

  lemma ScanHitsAscend(v: View, filter: Filter, lo: bytes, hi: bytes)
    requires Query.Ascending(v.entries)
    ensures HitsAscend(HitsOf(v, filter, Scan(v.entries, lo, hi)))
  {
    ScanAscending(v.entries, lo, hi);
    HitsOrdered(v.entries, v.prefix, v.coll.id, filter, Scan(v.entries, lo, hi));
  }

  lemma KeyAbove(lo: bytes, hi: bytes, k: bytes, x: bytes)
    requires InRange(k, lo, hi)
    ensures InRange(x, k + [0], hi) <==> InRange(x, lo, hi) && Less(k, x)
  {
    SuccessorKey(k, x);
    if Less(k, x) && Less(x, lo) {
      LessTransitive(k, x, lo);
    }
  }

  lemma KeyBelow(lo: bytes, hi: bytes, k: bytes, x: bytes)
    requires InRange(k, lo, hi) && k != []
    ensures InRange(x, lo, k) <==> InRange(x, lo, hi) && Less(x, k)
  {
    if Less(x, k) && hi != [] {
      LessTransitive(x, k, hi);
    }
  }

  /** Resuming strictly after a delivered key continues right behind it. */
  lemma ResumeForward(v: View, filter: Filter, lo: bytes, hi: bytes, m: nat)
    requires Query.Ascending(v.entries)
    requires m < |HitsOf(v, filter, Scan(v.entries, lo, hi))|
    ensures var list := HitsOf(v, filter, Scan(v.entries, lo, hi));
            HitsOf(v, filter, Scan(v.entries, list[m].key + [0], hi)) == list[m + 1..]
  {
    hide HitsOf, Scan, InRange;
    var list := HitsOf(v, filter, Scan(v.entries, lo, hi));
    var k := list[m].key;
    ScanHitsAscend(v, filter, lo, hi);
    ScanHitsAscend(v, filter, k + [0], hi);
    assert list[m] in list;
    ScanHits(v, filter, lo, hi, list[m]);
    forall h ensures h in HitsOf(v, filter, Scan(v.entries, k + [0], hi)) <==> h in list[m + 1..] {
      ScanHits(v, filter, lo, hi, h);
      ScanHits(v, filter, k + [0], hi, h);
      SplitByKey(list, m, h);
      KeyAbove(lo, hi, k, h.key);
    }
    HitsAgree(HitsOf(v, filter, Scan(v.entries, k + [0], hi)), list[m + 1..]);
  }

  /** Resuming strictly before a delivered key continues with everything below it. */
  lemma ResumeBackward(v: View, filter: Filter, lo: bytes, hi: bytes, m: nat)
    requires Query.Ascending(v.entries) && lo != []
    requires m < |HitsOf(v, filter, Scan(v.entries, lo, hi))|
    ensures var list := HitsOf(v, filter, Scan(v.entries, lo, hi));
            HitsOf(v, filter, Scan(v.entries, lo, list[m].key)) == list[..m]
  {
    hide HitsOf, Scan;
    var list := HitsOf(v, filter, Scan(v.entries, lo, hi));
    var k := list[m].key;
    ScanHitsAscend(v, filter, lo, hi);
    ScanHitsAscend(v, filter, lo, k);
    assert list[m] in list;
    ScanHits(v, filter, lo, hi, list[m]);
    assert Leq(lo, k) && k != [];
    hide InRange;
    forall h ensures h in HitsOf(v, filter, Scan(v.entries, lo, k)) <==> h in list[..m] {
      ScanHits(v, filter, lo, hi, h);
      ScanHits(v, filter, lo, k, h);
      SplitByKey(list, m, h);
      KeyBelow(lo, hi, k, h.key);
    }
    HitsAgree(HitsOf(v, filter, Scan(v.entries, lo, k)), list[..m]);
  }

  lemma {:induction false} HitsReversed(v: View, filter: Filter, es: seq<Entry>)
    ensures HitsOf(v, filter, Reversed(es)) == Reversed(HitsOf(v, filter, es))
  {
    hide RowOf;
    if es != [] {
      var n := |es| - 1;
      HitsReversed(v, filter, es[..n]);
      assert Reversed(es) == [es[n]] + Reversed(es[..n]);
      HitsConcat(v, filter, [es[n]], Reversed(es[..n]));
      assert es == es[..n] + [es[n]];
      HitsConcat(v, filter, es[..n], [es[n]]);
      assert [es[n]][..0] == [];
    }
  }

  // ---- Pages are windows of the list -------------------------------------------

  lemma ScanStart(path: AccessPath, filter: Filter, prefix: bytes, coll: CollectionMeta)
    requires IsPlan(path, filter, prefix, coll) && path.IndexScan?
    ensures path.lo != []
  {
    hide ConstraintFor, Usable, Best, TopLevel, EqLen, UpperBound, EncodeFields;
    var preds := TopLevel(filter);
    forall k: nat | Best(coll.indexes, k, preds) ensures k < |coll.indexes| {
      BestUsable(coll.indexes, k, preds);
    }
    var k: nat :| k < |coll.indexes| && path == IndexPath(prefix, coll.id, coll.indexes[k], preds);
    IndexPathStart(prefix, coll.id, coll.indexes[k], preds);
  }

  lemma IndexPathStart(prefix: bytes, c: nat, idx: IndexMeta, preds: seq<FieldPred>)
    ensures IndexPath(prefix, c, idx, preds).IndexScan? && IndexPath(prefix, c, idx, preds).lo != []
  {
    hide EqLen, UpperBound, EncodeFields, Encode, ConstraintFor;
  }

  /** With no cursor, the first page is the list from `skip`. */
  lemma FirstPage(v: View, spec: FindSpec, path: AccessPath, maxSort: nat)
    requires spec.cursor.None? && Answer(v, spec, path, maxSort).Ok?
    ensures Answer(v, spec, path, maxSort).page == PageFrom(v, spec, path, spec.skip)
  {
    hide Found, Hits, StableSort, SortMatchesIndex, EncodeCursor, Scan;
    assert spec.(cursor := None) == spec;
    var list := Listing(v, spec, path);
    if path.ById? {
      AtMostOne(v.entries, v.prefix, v.coll.id, spec.filter, path.id);
      assert spec.skip == 0 ==> list[0..|list|] == list;
    } else if KeyMode(spec, path) {
      FoundByScan(v, spec.filter, path);
      HitsReversed(v, spec.filter, Scan(v.entries, path.lo, path.hi));
    }
  }

  lemma FoundByScan(v: View, filter: Filter, path: AccessPath)
    requires path.IndexScan?
    ensures MatchesOf(v, filter, path) == HitsOf(v, filter, Scan(v.entries, path.lo, path.hi))
  {
  }

  /** Once the first page is answered, a cursor for position `m` is too, and resumes the list exactly
      there. */
  lemma NextPage(v: View, spec: FindSpec, path: AccessPath, maxSort: nat, m: nat)
    requires Agrees(v.entries, v.prefix, v.coll) && IsPlan(path, spec.filter, v.prefix, v.coll) && v.seqno < U64
    requires 0 < m < |Listing(v, spec, path)| < U64 && Answer(v, spec.(cursor := None), path, maxSort).Ok?
    ensures Answer(v, spec.(cursor := Some(CursorAt(v, spec, path, m))), path, maxSort) == Ok(PageFrom(v, spec, path, m))
  {
    hide Found, Hits, StableSort, SortMatchesIndex, EncodeCursor, DecodeCursor, Scan, Agrees, IsPlan, PageAt;
    if path.ById? {
      AtMostOne(v.entries, v.prefix, v.coll.id, spec.filter, path.id);
    } else if KeyMode(spec.(cursor := None), path) {
      var list := Listing(v, spec, path);
      CursorRoundTrip(v.seqno, KeyCursor(list[m - 1].key));
      KeyRest(v, spec, path, m);
      ShiftedPage(v, list, m, spec.PageSize(), CursorAt(v, spec, path, m + spec.PageSize()));
    } else {
      CursorRoundTrip(v.seqno, OffsetCursor(m));
    }
  }

  /** A key page over the rest of the list is a window of the whole. */
  lemma ShiftedPage(v: View, list: seq<Hit>, m: nat, limit: nat, next: bytes)
    requires m <= |list| && limit > 0
    requires m + limit < |list| ==> next == EncodeCursor(v.seqno, KeyCursor(list[m + limit - 1].key))
    ensures KeyPage(v, list[m..], limit) == PageAt(list, m, limit, next)
  {
    hide EncodeCursor;
    var hi := Min(m + limit, |list|);
    assert list[m..][0..hi - m] == list[m..hi];
  }

  lemma KeyRest(v: View, spec: FindSpec, path: AccessPath, m: nat)
    requires Agrees(v.entries, v.prefix, v.coll) && IsPlan(path, spec.filter, v.prefix, v.coll)
    requires KeyMode(spec.(cursor := None), path) && 0 < m < |Listing(v, spec, path)|
    ensures var list := Listing(v, spec, path);
            HitsOf(v, spec.filter, KeyScan(v, path.lo, path.hi, Backwards(spec, path), Some(list[m - 1].key))) == list[m..]
  {
    hide Found, Hits, StableSort, SortMatchesIndex, Scan, IsPlan;
    var filter, lo, hi := spec.filter, path.lo, path.hi;
    FoundByScan(v, filter, path);
    ScanStart(path, filter, v.prefix, v.coll);
    var found := MatchesOf(v, filter, path);
    if Backwards(spec, path) {
      var j := |found| - m;
      assert Listing(v, spec, path)[m - 1] == found[j];
      ResumeBackward(v, filter, lo, hi, j);
      HitsReversed(v, filter, Scan(v.entries, lo, found[j].key));
      assert Reversed(found)[m..] == Reversed(found[..j]);
    } else {
      ResumeForward(v, filter, lo, hi, m - 1);
    }
  }

  // ---- Following cursors to the end --------------------------------------------

  /** Each page answers the cursor of the page before it, and the last one has none. */
  ghost predicate Followed(v: View, spec: FindSpec, path: AccessPath, maxSort: nat, pages: seq<Page>) {
    && pages != []
    && if |pages| == 1 then pages[0].next.None?
       else && pages[0].next.Some? && Answer(v, spec.(cursor := pages[0].next), path, maxSort) == Ok(pages[1])
            && Followed(v, spec, path, maxSort, pages[1..])
  }

  function AllRows(pages: seq<Page>): seq<Row> {
    if pages == [] then [] else pages[0].rows + AllRows(pages[1..])
  }

  ghost predicate FullButLast(pages: seq<Page>, limit: nat) {
    && (forall i :: 0 <= i < |pages| - 1 ==> |pages[i].rows| == limit)
    && (pages != [] ==> |pages[|pages| - 1].rows| <= limit)
  }

  lemma RowsSplit(list: seq<Hit>, a: nat, b: nat)
    requires a <= b <= |list|
    ensures Rows(list[a..b]) + Rows(list[b..]) == Rows(list[a..])
  {
  }

  lemma FullCons(pages: seq<Page>, limit: nat)
    requires |pages| > 1 && |pages[0].rows| == limit && FullButLast(pages[1..], limit)
    ensures FullButLast(pages, limit)
  {
    assert forall i :: 0 < i < |pages| ==> pages[i] == pages[1..][i - 1];
  }

  lemma WindowOf(list: seq<Hit>, m: nat, limit: nat, next: bytes)
    ensures var page := PageAt(list, m, limit, next);
            && (page.next.Some? <==> m + limit < |list|)
            && (m + limit < |list| ==> page.next == Some(next) && page.rows == Rows(list[m..m + limit]))
            && (m + limit >= |list| ==> page.rows == Rows(list[Min(m, |list|)..]) && |page.rows| <= limit)
  {
    assert list[Min(m, |list|)..|list|] == list[Min(m, |list|)..];
  }

  lemma {:induction false} FollowFrom(v: View, spec: FindSpec, path: AccessPath, maxSort: nat, pages: seq<Page>, m: nat)
    requires Agrees(v.entries, v.prefix, v.coll) && IsPlan(path, spec.filter, v.prefix, v.coll) && v.seqno < U64
    requires |Listing(v, spec, path)| < U64 && Answer(v, spec.(cursor := None), path, maxSort).Ok?
    requires Followed(v, spec, path, maxSort, pages) && pages[0] == PageFrom(v, spec, path, m)
    ensures AllRows(pages) == Rows(Listing(v, spec, path)[Min(m, |Listing(v, spec, path)|)..])
    ensures FullButLast(pages, spec.PageSize())
    decreases |pages|
  {
    hide Agrees, IsPlan, Listing, Answer, CursorAt, PageAt, FullButLast;
    var list, limit := Listing(v, spec, path), spec.PageSize();
    WindowOf(list, m, limit, CursorAt(v, spec, path, m + limit));
    if |pages| == 1 {
      OnePage(pages, limit);
    } else {
      NextPage(v, spec, path, maxSort, m + limit);
      FollowFrom(v, spec, path, maxSort, pages[1..], m + limit);
      RowsSplit(list, m, m + limit);
      FullCons(pages, limit);
    }
  }

  lemma OnePage(pages: seq<Page>, limit: nat)
    requires |pages| == 1 && |pages[0].rows| <= limit
    ensures AllRows(pages) == pages[0].rows && FullButLast(pages, limit)
  {
    assert AllRows(pages[1..]) == [] && pages[0].rows + [] == pages[0].rows;
  }

  /** From any position there is a chain of pages to the end. */
  lemma {:induction false} ChainFrom(v: View, spec: FindSpec, path: AccessPath, maxSort: nat, m: nat) returns (pages: seq<Page>)
    requires Agrees(v.entries, v.prefix, v.coll) && IsPlan(path, spec.filter, v.prefix, v.coll) && v.seqno < U64
    requires |Listing(v, spec, path)| < U64 && Answer(v, spec.(cursor := None), path, maxSort).Ok?
    ensures Followed(v, spec, path, maxSort, pages) && pages[0] == PageFrom(v, spec, path, m)
    decreases |Listing(v, spec, path)| - m
  {
    hide Agrees, IsPlan, Listing, Answer, CursorAt, PageAt;
    var list, limit := Listing(v, spec, path), spec.PageSize();
    var first := PageFrom(v, spec, path, m);
    WindowOf(list, m, limit, CursorAt(v, spec, path, m + limit));
    if m + limit < |list| {
      var rest := ChainFrom(v, spec, path, maxSort, m + limit);
      NextPage(v, spec, path, maxSort, m + limit);
      pages := [first] + rest;
      assert pages[1..] == rest;
    } else {
      pages := [first];
    }
  }

  /** A query and the pages its cursors lead to, to the end. */
  ghost predicate Paged(v: View, spec: FindSpec, path: AccessPath, maxSort: nat, pages: seq<Page>) {
    Followed(v, spec, path, maxSort, pages) && Answer(v, spec, path, maxSort) == Ok(pages[0])
  }

  /** A query whose first page is answered can be followed to the end, and doing so returns the whole
      list from `skip`, once, in order, with full pages except the last: in every mode. */
  lemma PaginationExact(v: View, spec: FindSpec, path: AccessPath, maxSort: nat)
    requires Agrees(v.entries, v.prefix, v.coll) && IsPlan(path, spec.filter, v.prefix, v.coll) && v.seqno < U64
    requires spec.cursor.None? && |Listing(v, spec, path)| < U64 && Answer(v, spec, path, maxSort).Ok?
    ensures exists pages :: Paged(v, spec, path, maxSort, pages)
    ensures forall pages :: Paged(v, spec, path, maxSort, pages) ==>
              && AllRows(pages) == Rows(Listing(v, spec, path)[Min(spec.skip, |Listing(v, spec, path)|)..])
              && FullButLast(pages, spec.PageSize())
  {
    hide Agrees, IsPlan, Listing, Answer, PageFrom, Followed, FullButLast, AllRows;
    assert spec.(cursor := None) == spec;
    FirstPage(v, spec, path, maxSort);
    var pages := ChainFrom(v, spec, path, maxSort, spec.skip);
    assert Paged(v, spec, path, maxSort, pages);
    forall pages | Paged(v, spec, path, maxSort, pages)
      ensures AllRows(pages) == Rows(Listing(v, spec, path)[Min(spec.skip, |Listing(v, spec, path)|)..])
      ensures FullButLast(pages, spec.PageSize())
    {
      FollowedSome(v, spec, path, maxSort, pages);
      FollowFrom(v, spec, path, maxSort, pages, spec.skip);
    }
  }

  lemma FollowedSome(v: View, spec: FindSpec, path: AccessPath, maxSort: nat, pages: seq<Page>)
    requires Followed(v, spec, path, maxSort, pages)
    ensures pages != []
  {
  }

  // ---- The list is the matches, in the order asked for -------------------------

  lemma {:induction false} ReversedPermutes(hits: seq<Hit>)
    ensures multiset(Reversed(hits)) == multiset(hits)
  {
    if hits != [] {
      var n := |hits| - 1;
      ReversedPermutes(hits[..n]);
      assert Reversed(hits) == [hits[n]] + Reversed(hits[..n]);
      assert hits == hits[..n] + [hits[n]];
    }
  }

  lemma ListingPermutes(v: View, spec: FindSpec, path: AccessPath)
    requires Agrees(v.entries, v.prefix, v.coll) && IsPlan(path, spec.filter, v.prefix, v.coll)
    ensures multiset(Listing(v, spec, path)) == multiset(MatchesOf(v, spec.filter, path))
  {
    hide Agrees, IsPlan, MatchesOf, StableSort, KeyMode, Backwards;
    var found := MatchesOf(v, spec.filter, path);
    FoundAscends(v, spec.filter, path);
    ReversedPermutes(found);
    StableSortSpec(found, spec.sort);
  }

  lemma StableIsSorted(list: seq<Hit>, sort: seq<SortKey>)
    requires StablySorted(list, sort)
    ensures SortedBy(list, sort)
  {
    hide CompareDocs;
    forall i, j | 0 <= i < j < |list| ensures CompareDocs(list[i].row.doc, list[j].row.doc, sort) != Gt {
      assert Before(list[i], list[j], sort);
    }
  }

  lemma UnsortedIsSorted(list: seq<Hit>)
    ensures SortedBy(list, [])
  {
  }

  lemma KeyModeSorted(v: View, spec: FindSpec, idx: IndexMeta)
    requires Query.Ascending(v.entries) && EntriesSound(v.entries, v.prefix, v.coll.id, idx) && EntriesComplete(v.entries, v.prefix, v.coll.id, idx)
    requires var path := IndexPath(v.prefix, v.coll.id, idx, TopLevel(spec.filter));
             KeyMode(spec, path) && (Backwards(spec, path) ==> |path.fields| <= path.eqLen + 1)
    ensures var path := IndexPath(v.prefix, v.coll.id, idx, TopLevel(spec.filter));
            path.IndexScan? && SortedBy(if Backwards(spec, path) then Reversed(MatchesOf(v, spec.filter, path)) else MatchesOf(v, spec.filter, path), spec.sort)
  {
    hide Found, EqLen, EntriesSound, EntriesComplete, TopLevel, Query.Ascending, SortedBy, SortMatchesIndex, BuildIndexScan, IndexPath, RangeFor;
    var preds := TopLevel(spec.filter);
    var n := EqLen(idx.fields, preds);
    var eqs, range := EqValues(idx.fields, n, preds), RangeFor(idx.fields, n, preds);
    var path := IndexPath(v.prefix, v.coll.id, idx, preds);
    IndexPathParts(v.prefix, v.coll.id, idx, preds);
    NoFieldNoRange(idx.fields, n, preds);
    if Backwards(spec, path) {
      ReverseSorted(v.entries, v.prefix, v.coll.id, spec.filter, idx, eqs, range, spec.sort);
    } else {
      assert SortMatchesIndex(spec.sort, path.fields, path.directions, path.eqLen).value.Forward?;
      ForwardSorted(v.entries, v.prefix, v.coll.id, spec.filter, idx, eqs, range, spec.sort);
    }
  }

  lemma NoFieldNoRange(fields: seq<Path>, n: nat, preds: seq<FieldPred>)
    ensures n == |fields| ==> RangeFor(fields, n, preds) == FREE
  {
  }

  /** What is paged is exactly the matches in the requested order; a backward scan needs at most
      one index field past the equality prefix. */
  lemma ListingSorted(v: View, spec: FindSpec, path: AccessPath)
    requires Agrees(v.entries, v.prefix, v.coll) && IsPlan(path, spec.filter, v.prefix, v.coll)
    requires path.IndexScan? && KeyMode(spec.(cursor := None), path) && Backwards(spec, path) ==> |path.fields| <= path.eqLen + 1
    ensures multiset(Listing(v, spec, path)) == multiset(MatchesOf(v, spec.filter, path))
    ensures SortedBy(Listing(v, spec, path), spec.sort)
  {
    hide ConstraintFor, Usable, Best, TopLevel, IndexPath, EntriesSound, EntriesComplete, StableSort, SortMatchesIndex, Found, Query.Ascending;
    ListingPermutes(v, spec, path);
    var found := MatchesOf(v, spec.filter, path);
    var first := spec.(cursor := None);
    if path.ById? {
      AtMostOne(v.entries, v.prefix, v.coll.id, spec.filter, path.id);
    } else if KeyMode(first, path) {
      forall k: nat | Best(v.coll.indexes, k, TopLevel(spec.filter)) ensures k < |v.coll.indexes| {
        BestUsable(v.coll.indexes, k, TopLevel(spec.filter));
      }
      var k: nat :| k < |v.coll.indexes| && path == IndexPath(v.prefix, v.coll.id, v.coll.indexes[k], TopLevel(spec.filter));
      KeyModeSorted(v, first, v.coll.indexes[k]);
    } else if spec.sort == [] {
      UnsortedIsSorted(found);
    } else {
      FoundAscends(v, spec.filter, path);
      StableSortSpec(found, spec.sort);
      StableIsSorted(StableSort(found, spec.sort), spec.sort);
    }
  }
}
