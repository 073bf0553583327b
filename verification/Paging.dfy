/** Cursor pagination: every mode pages through one ordered list of matches. */
module Paging {
  import opened Bytes
  import opened Words
  import opened Values
  import opened Encoding
  import opened Filters
  import opened Planner
  import opened Query
  import opened SortOrder

  // ---- Cursors -----------------------------------------------------------------

  datatype Cursor = KeyCursor(key: bytes) | OffsetCursor(offset: nat)

  const CUR_KEY: byte := 1
  const CUR_OFFSET: byte := 2

  /** The snapshot's sequence ceiling, a mode tag, and the position. */
  function EncodeCursor(seqno: nat, cursor: Cursor): bytes {
    ToBE(8, seqno) + match cursor
                     case KeyCursor(k) => [CUR_KEY] + k
                     case OffsetCursor(o) => [CUR_OFFSET] + ToBE(8, o)
  }

  function DecodeCursor(c: bytes): Option<Cursor> {
    if |c| < 9 then None
    else if c[8] == CUR_KEY then Some(KeyCursor(c[9..]))
    else if c[8] == CUR_OFFSET && |c| == 17 then Some(OffsetCursor(FromBE(c[9..])))
    else None
  }

  function CursorSeq(c: bytes): Option<nat> {
    if |c| < 8 then None else Some(FromBE(c[..8]))
  }

  /** A cursor gives back its position and the snapshot to re-pin. */
  lemma CursorRoundTrip(seqno: nat, cursor: Cursor)
    requires seqno < U64 && (cursor.OffsetCursor? ==> cursor.offset < U64)
    ensures DecodeCursor(EncodeCursor(seqno, cursor)) == Some(cursor)
    ensures CursorSeq(EncodeCursor(seqno, cursor)) == Some(seqno)
  {
    Spans();
    BERoundTrip(8, seqno);
    var c := EncodeCursor(seqno, cursor);
    assert c[..8] == ToBE(8, seqno);
    match cursor {
      case KeyCursor(k) => assert c[9..] == k;
      case OffsetCursor(o) =>
        BERoundTrip(8, o);
        assert c[9..] == ToBE(8, o);
    }
  }

  // ---- Requests and answers ----------------------------------------------------

  /** A pinned snapshot and the collection being read. */
  datatype View = View(seqno: nat, entries: seq<Entry>, prefix: bytes, coll: CollectionMeta)

  datatype FindSpec = FindSpec(filter: Filter, sort: seq<SortKey>, skip: nat, limit: nat, cursor: Option<bytes>) {
    function PageSize(): nat {
      if limit == 0 then 1 else limit
    }
  }

  datatype Page = Page(rows: seq<Row>, next: Option<bytes>)

  datatype Result = Ok(page: Page) | MalformedCursor | ModeChanged | SortTooLarge

  function Rows(hits: seq<Hit>): (r: seq<Row>)
    ensures |r| == |hits|
  {
    seq(|hits|, i requires 0 <= i < |hits| => hits[i].row)
  }

  function Min(a: nat, b: nat): nat {
    if a < b then a else b
  }

  /** The rows from position `start`, and a cursor exactly when rows remain past them. */
  function PageAt(list: seq<Hit>, start: nat, limit: nat, next: bytes): Page {
    var lo, hi := Min(start, |list|), Min(start + limit, |list|);
    Page(Rows(list[lo..hi]), if start + limit < |list| then Some(next) else None)
  }

  function MatchesOf(v: View, filter: Filter, path: AccessPath): seq<Hit> {
    Found(v.entries, v.prefix, v.coll.id, filter, path)
  }

  function HitsOf(v: View, filter: Filter, es: seq<Entry>): seq<Hit> {
    Hits(v.entries, v.prefix, v.coll.id, filter, es)
  }

  // ---- Key mode ----------------------------------------------------------------

  /** Entries still to scan: all of them, or those strictly past the cursor's key. */
  function KeyScan(v: View, lo: bytes, hi: bytes, reverse: bool, after: Option<bytes>): seq<Entry> {
    if reverse then Reversed(Scan(v.entries, lo, if after.Some? then after.value else hi))
    else Scan(v.entries, if after.Some? then after.value + [0] else lo, hi)
  }

  function KeyPage(v: View, rest: seq<Hit>, limit: nat): Page
    requires limit > 0
  {
    PageAt(rest, 0, limit, if limit <= |rest| then EncodeCursor(v.seqno, KeyCursor(rest[limit - 1].key)) else [])
  }

  lemma {:induction false} HitsConcat(v: View, filter: Filter, a: seq<Entry>, b: seq<Entry>)
    ensures HitsOf(v, filter, a + b) == HitsOf(v, filter, a) + HitsOf(v, filter, b)
  {
    hide RowOf;
    if b == [] {
      assert a + b == a;
    } else {
      var n := |b| - 1;
      HitsConcat(v, filter, a, b[..n]);
      assert (a + b)[..|a| + n] == a + b[..n];
    }
  }

  /** Stream matches until the page is full and one more is known to exist. */
  method KeyModePage(v: View, filter: Filter, lo: bytes, hi: bytes, limit: nat, reverse: bool, after: Option<bytes>) returns (page: Page)
    requires limit > 0
    ensures page == KeyPage(v, HitsOf(v, filter, KeyScan(v, lo, hi, reverse, after)), limit)
  {
    hide RowOf, Hits, KeyScan, EncodeCursor;
    var es := KeyScan(v, lo, hi, reverse, after);
    ghost var rest := HitsOf(v, filter, es);
    var rows: seq<Row> := [];
    var last: Option<bytes> := None;
    ghost var hits: seq<Hit> := [];
    HitsNil(v, filter);
    for i := 0 to |es|
      invariant hits == HitsOf(v, filter, es[..i]) && rows == Rows(hits) && |hits| <= limit
      invariant last == if hits == [] then None else Some(hits[|hits| - 1].key)
    {
      HitsStep(v, filter, es, i);
      var row := RowOf(v.entries, v.prefix, v.coll.id, filter, es[i]);
      if row.Some? {
        if |rows| == limit {
          HitsConcat(v, filter, es[..i + 1], es[i + 1..]);
          assert es == es[..i + 1] + es[i + 1..];
          assert rest[..limit] == hits && |rest| > limit;
          assert rest[0..limit] == rest[..limit];
          return Page(rows, Some(EncodeCursor(v.seqno, KeyCursor(last.value))));
        }
        rows := rows + [row.value];
        last := Some(es[i].key);
        hits := hits + [Hit(es[i].key, row.value)];
      }
    }
    assert es[..|es|] == es;
    assert rest[0..|rest|] == rest;
    return Page(rows, None);
  }

  lemma HitsNil(v: View, filter: Filter)
    ensures HitsOf(v, filter, []) == []
  {
  }

  lemma HitsStep(v: View, filter: Filter, es: seq<Entry>, i: nat)
    requires i < |es|
    ensures var row := RowOf(v.entries, v.prefix, v.coll.id, filter, es[i]);
            HitsOf(v, filter, es[..i + 1]) == HitsOf(v, filter, es[..i]) + if row.Some? then [Hit(es[i].key, row.value)] else []
  {
    hide RowOf;
    assert es[..i + 1][..i] == es[..i];
  }

  // ---- Offset modes ------------------------------------------------------------

  function OffsetPage(v: View, list: seq<Hit>, offset: nat, limit: nat): Page {
    PageAt(list, offset, limit, EncodeCursor(v.seqno, OffsetCursor(offset + limit)))
  }

  /** Skip `offset` matches in scan order, then fill the page. */
  method StreamOffsetPage(v: View, list: seq<Hit>, offset: nat, limit: nat) returns (page: Page)
    ensures page == OffsetPage(v, list, offset, limit)
  {
    var rows: seq<Row> := [];
    var seen := 0;
    for i := 0 to |list|
      invariant seen == Min(i, offset)
      invariant i - seen <= limit && rows == Rows(list[seen..i])
    {
      if seen < offset {
        seen := seen + 1;
        assert list[seen..i + 1] == [];
      } else if |rows| == limit {
        assert list[offset..i] == list[Min(offset, |list|)..Min(offset + limit, |list|)];
        return Page(rows, Some(EncodeCursor(v.seqno, OffsetCursor(offset + limit))));
      } else {
        assert list[seen..i + 1] == list[seen..i] + [list[i]];
        rows := rows + [list[i].row];
      }
    }
    return Page(rows, None);
  }

  // ---- Buffered sort -----------------------------------------------------------

  function InsertSorted(list: seq<Hit>, h: Hit, sort: seq<SortKey>): seq<Hit> {
    if list == [] || CompareDocs(h.row.doc, list[0].row.doc, sort) == Lt then [h] + list
    else [list[0]] + InsertSorted(list[1..], h, sort)
  }

  /** The stable sort of the buffered matches. */
  function StableSort(hits: seq<Hit>, sort: seq<SortKey>): seq<Hit> {
    if hits == [] then [] else InsertSorted(StableSort(hits[..|hits| - 1], sort), hits[|hits| - 1], sort)
  }

  /** Sort order, with scan order between documents that compare equal. */
  predicate Before(a: Hit, b: Hit, sort: seq<SortKey>) {
    var o := CompareDocs(a.row.doc, b.row.doc, sort);
    o == Lt || (o == Eq && Less(a.key, b.key))
  }

  ghost predicate StablySorted(list: seq<Hit>, sort: seq<SortKey>) {
    forall i, j :: 0 <= i < j < |list| ==> Before(list[i], list[j], sort)
  }

  lemma CompareAsBytes(d: Value, e: Value, sort: seq<SortKey>)
    ensures CompareDocs(d, e, sort)
         == CmpBytes(EncodeFields(FieldValues(d, Paths(sort)), Flags(sort)), EncodeFields(FieldValues(e, Paths(sort)), Flags(sort)))
  {
    var us, vs, flags := FieldValues(d, Paths(sort)), FieldValues(e, Paths(sort)), Flags(sort);
    ComparesAsFields(d, e, sort);
    FieldsOrder(us, vs, flags);
    RealisesCompares(CmpFields(us, vs, flags), EncodeFields(us, flags), EncodeFields(vs, flags));
  }

  lemma CompareTransitive(a: Value, b: Value, c: Value, sort: seq<SortKey>)
    requires CompareDocs(a, b, sort) != Gt && CompareDocs(b, c, sort) != Gt
    ensures CompareDocs(a, c, sort) == if CompareDocs(a, b, sort) == Eq then CompareDocs(b, c, sort) else Lt
  {
    hide CompareDocs, EncodeFields, FieldValues;
    CompareAsBytes(a, b, sort);
    CompareAsBytes(b, c, sort);
    CompareAsBytes(a, c, sort);
    var x, y, z := EncodeFields(FieldValues(a, Paths(sort)), Flags(sort)), EncodeFields(FieldValues(b, Paths(sort)), Flags(sort)), EncodeFields(FieldValues(c, Paths(sort)), Flags(sort));
    if Less(x, y) && Less(y, z) {
      LessTransitive(x, y, z);
    }
  }

  lemma CompareOpposite(a: Value, b: Value, sort: seq<SortKey>)
    ensures CompareDocs(b, a, sort) == CompareDocs(a, b, sort).Reverse()
  {
    ComparesAsFields(a, b, sort);
    ComparesAsFields(b, a, sort);
    CmpFieldsReverse(FieldValues(a, Paths(sort)), FieldValues(b, Paths(sort)), Flags(sort));
  }

  lemma {:induction false} InsertPermutes(list: seq<Hit>, h: Hit, sort: seq<SortKey>)
    ensures multiset(InsertSorted(list, h, sort)) == multiset(list) + multiset{h}
  {
    hide CompareDocs;
    if list != [] {
      assert list == [list[0]] + list[1..];
      InsertPermutes(list[1..], h, sort);
    }
  }

  lemma InsertMembers(list: seq<Hit>, h: Hit, sort: seq<SortKey>, x: Hit)
    ensures x in InsertSorted(list, h, sort) <==> x == h || x in list
  {
    hide InsertSorted;
    InsertPermutes(list, h, sort);
    assert x in InsertSorted(list, h, sort) <==> x in multiset(InsertSorted(list, h, sort));
  }

  lemma ConsSorted(h: Hit, list: seq<Hit>, sort: seq<SortKey>)
    requires StablySorted(list, sort) && forall x :: x in list ==> Before(h, x, sort)
    ensures StablySorted([h] + list, sort)
  {
    hide Before;
    assert forall j :: 0 <= j < |list| ==> list[j] in list;
  }

  lemma TailSorted(list: seq<Hit>, sort: seq<SortKey>)
    requires StablySorted(list, sort) && list != []
    ensures StablySorted(list[1..], sort)
    ensures forall x :: x in list[1..] ==> Before(list[0], x, sort)
  {
    hide Before;
  }

  lemma BeforeTransitive(h: Hit, a: Hit, b: Hit, sort: seq<SortKey>)
    requires CompareDocs(h.row.doc, a.row.doc, sort) == Lt && Before(a, b, sort)
    ensures Before(h, b, sort)
  {
    hide CompareDocs;
    CompareTransitive(h.row.doc, a.row.doc, b.row.doc, sort);
  }

  lemma NotBefore(h: Hit, a: Hit, sort: seq<SortKey>)
    requires CompareDocs(h.row.doc, a.row.doc, sort) != Lt && Less(a.key, h.key)
    ensures Before(a, h, sort)
  {
    hide CompareDocs;
    CompareOpposite(h.row.doc, a.row.doc, sort);
  }

  lemma {:induction false} InsertKeepsSorted(list: seq<Hit>, h: Hit, sort: seq<SortKey>)
    requires StablySorted(list, sort) && forall x :: x in list ==> Less(x.key, h.key)
    ensures StablySorted(InsertSorted(list, h, sort), sort)
  {
    hide CompareDocs, Less, Before, StablySorted;
    if list == [] {
      ConsSorted(h, list, sort);
    } else {
      TailSorted(list, sort);
      if CompareDocs(h.row.doc, list[0].row.doc, sort) == Lt {
        forall x | x in list ensures Before(h, x, sort) {
          if x in list[1..] {
            BeforeTransitive(h, list[0], x, sort);
          } else {
            assert Before(h, list[0], sort) by { LtIsBefore(h, list[0], sort); }
          }
        }
        ConsSorted(h, list, sort);
      } else {
        assert list[0] in list;
        NotBefore(h, list[0], sort);
        InsertKeepsSorted(list[1..], h, sort);
        forall x | x in InsertSorted(list[1..], h, sort) ensures Before(list[0], x, sort) {
          InsertMembers(list[1..], h, sort, x);
        }
        ConsSorted(list[0], InsertSorted(list[1..], h, sort), sort);
      }
    }
  }

  lemma LtIsBefore(a: Hit, b: Hit, sort: seq<SortKey>)
    requires CompareDocs(a.row.doc, b.row.doc, sort) == Lt
    ensures Before(a, b, sort)
  {
    hide CompareDocs;
  }

  /** The buffered page is cut from the matches in sort order, ties in scan order, none lost. */
  lemma {:induction false} StableSortSpec(hits: seq<Hit>, sort: seq<SortKey>)
    requires HitsAscend(hits)
    ensures StablySorted(StableSort(hits, sort), sort)
    ensures multiset(StableSort(hits, sort)) == multiset(hits)
  {
    hide StablySorted, InsertSorted;
    if hits == [] {
      assert StablySorted([], sort) by { NilSorted(sort); }
    } else {
      var n := |hits| - 1;
      StableSortSpec(hits[..n], sort);
      var front := StableSort(hits[..n], sort);
      forall x | x in front ensures Less(x.key, hits[n].key) {
        assert x in multiset(front);
        assert x in hits[..n];
      }
      InsertKeepsSorted(front, hits[n], sort);
      InsertPermutes(front, hits[n], sort);
      assert hits == hits[..n] + [hits[n]];
    }
  }

  lemma NilSorted(sort: seq<SortKey>)
    ensures StablySorted([], sort)
  {
  }
}
