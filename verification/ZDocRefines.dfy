/** The writer and the reader are inverse, binary search is map lookup, and keys derived from a view
    are keys derived from the value. */
module ZDocRefines {
  import opened Bytes
  import opened Words
  import opened Values
  import opened Encoding
  import opened Keys
  import opened Planner
  import opened ZDoc
  import opened ZDocView

  // ---- Round trip --------------------------------------------------------------

  lemma {:induction false} PartFits(parts: seq<bytes>, i: nat)
    requires i < |parts|
    ensures |parts[i]| <= |Flat(parts)|
  {
    FlatAt(parts, i);
  }

  lemma ItemsFit(items: seq<Value>)
    requires |Enc(Arr(items))| < U32
    ensures Enc(Arr(items)) == ArrayBytes(EncItems(items))
    ensures forall i :: 0 <= i < |items| ==> |Enc(items[i])| < U32
  {
    hide Flat, Table;
    assert EncItems(items) == seq(|items|, i requires 0 <= i < |items| => Enc(items[i]));
    forall i | 0 <= i < |items| ensures |Enc(items[i])| < U32 {
      PartFits(EncItems(items), i);
    }
  }

  lemma MembersFit(members: seq<Member>)
    requires |Enc(Obj(members))| < U32
    ensures Enc(Obj(members)) == ObjectBytes(MemberKeys(members), EncVals(members))
    ensures forall i :: 0 <= i < |members| ==> |Enc(members[i].val)| < U32
  {
    hide Flat, Table, KeyOffsets, ValOffsets;
    assert EncVals(members) == seq(|members|, i requires 0 <= i < |members| => Enc(members[i].val));
    var parts := EntryParts(MemberKeys(members), EncVals(members));
    forall i | 0 <= i < |members| ensures |Enc(members[i].val)| < U32 {
      PartFits(parts, i);
    }
  }

  /** The elements of an encoded array, read back through its offset table. */
  ghost predicate ItemsAt(data: bytes, items: seq<Value>) {
    forall i :: 0 <= i < |items| ==>
      && Storable(items[i]) && |Enc(items[i])| < U32
      && ArrayGet(data, i).Some? && Enc(items[i]) <= ArrayGet(data, i).value
  }

  ghost predicate MembersAt(data: bytes, members: seq<Member>) {
    forall i :: 0 <= i < |members| ==>
      && Storable(members[i].val) && |Enc(members[i].val)| < U32
      && KeyStr(data, i) == Some(members[i].key)
      && ValAt(data, i, |members|).Some? && Enc(members[i].val) <= ValAt(data, i, |members|).value
  }

  lemma ReadsArray(data: bytes, items: seq<Value>)
    requires Storable(Arr(items)) && |Enc(Arr(items))| < U32 && Enc(Arr(items)) <= data
    ensures TypeByte(data) == TYPE_ARRAY && CheckedLen(data, 4) == Some(|items|) && ItemsAt(data, items)
  {
    hide ArrayBytes, ArrayGet, CheckedLen;
    ItemsFit(items);
    ArrayReads(data, EncItems(items));
    forall i | 0 <= i < |items| ensures Enc(items[i]) == EncItems(items)[i] {
    }
  }

  lemma ReadsObject(data: bytes, members: seq<Member>)
    requires Storable(Obj(members)) && |Enc(Obj(members))| < U32 && Enc(Obj(members)) <= data
    ensures TypeByte(data) == TYPE_OBJECT && CheckedLen(data, 8) == Some(|members|) && MembersAt(data, members)
  {
    hide ObjectBytes, KeyStr, ValAt, CheckedLen, Utf8;
    MembersFit(members);
    ObjectReads(data, MemberKeys(members), EncVals(members));
    forall i | 0 <= i < |members| ensures Enc(members[i].val) == EncVals(members)[i] {
    }
  }

  lemma ReadsWord(data: bytes, tag: byte, bits: u64)
    requires [tag] + ToLE(8, bits) <= data
    ensures TypeByte(data) == tag && Read8(data, 1) == Some(bits)
  {
    Spans();
    LERoundTrip(8, bits);
    var whole := [tag] + ToLE(8, bits);
    assert data[..9] == whole && data[0] == whole[0];
    assert data[1..9] == whole[1..9] == ToLE(8, bits);
  }

  /** The length and the text of an encoded string lie where they are read. */
  lemma StrParts(data: bytes, s: bytes)
    requires [TYPE_STRING] + Le4(|s|) + s <= data
    ensures TypeByte(data) == TYPE_STRING && ZDocView.At(data, 1, Le4(|s|)) && ZDocView.At(data, 5, s)
  {
    hide Le4, ZDocView.At;
    Le4Length(|s|);
    var head := [TYPE_STRING] + Le4(|s|);
    TypeRead(data, head + s);
    AtPrefix(data, [TYPE_STRING], Le4(|s|), s);
    assert head + s + [] == head + s;
    AtPrefix(data, head, s, []);
  }

  lemma Le4Length(n: nat)
    ensures |Le4(n)| == 4
  {
  }

  lemma TypeRead(data: bytes, whole: bytes)
    requires whole <= data && whole != []
    ensures TypeByte(data) == whole[0]
  {
  }

  lemma SpanRead(data: bytes, pos: nat, part: bytes)
    requires ZDocView.At(data, pos, part) && Utf8(part)
    ensures Text(ReadSpan(data, pos, |part|)) == Some(part)
  {
    hide Utf8;
  }

  lemma ReadsStr(data: bytes, s: bytes)
    requires [TYPE_STRING] + Le4(|s|) + s <= data && |s| < U32 && Utf8(s)
    ensures TypeByte(data) == TYPE_STRING && AsStr(data) == Some(s)
  {
    hide Le4, Utf8, ZDocView.At, Text, ReadSpan, ReadU32, TypeByte;
    StrParts(data, s);
    ReadAt(data, 1, |s|);
    SpanRead(data, 5, s);
  }

  lemma BitsRoundTrip(i: i64)
    ensures BitsI64(I64Bits(i)) == i
  {
  }

  lemma DepthOfItems(items: seq<Value>, depth: nat)
    ensures depth + Depth(Arr(items)) <= MAX_DEPTH <==>
            depth < MAX_DEPTH && forall k :: 0 <= k < |items| ==> depth + 1 + Depth(items[k]) <= MAX_DEPTH
  {
    var ds := seq(|items|, i requires 0 <= i < |items| => Depth(items[i]));
    assert forall k :: 0 <= k < |items| ==> ds[k] == Depth(items[k]);
  }

  lemma DepthOfMembers(members: seq<Member>, depth: nat)
    ensures depth + Depth(Obj(members)) <= MAX_DEPTH <==>
            depth < MAX_DEPTH && forall k :: 0 <= k < |members| ==> depth + 1 + Depth(members[k].val) <= MAX_DEPTH
  {
    var ds := seq(|members|, i requires 0 <= i < |members| => Depth(members[i].val));
    assert forall k :: 0 <= k < |members| ==> ds[k] == Depth(members[k].val);
  }

  lemma {:induction false} ScalarRoundTrip(v: Value, data: bytes, depth: nat)
    requires v.Scalar() && Storable(v) && |Enc(v)| < U32 && Enc(v) <= data && depth < MAX_DEPTH
    ensures ToValueAt(data, depth) == Good(v) && Depth(v) == 1
  {
    assert data[0] == Enc(v)[0];
    match v {
      case Num(Int(i)) =>
        ReadsWord(data, TYPE_I64, I64Bits(i));
        BitsRoundTrip(i);
      case Num(Float(f)) => ReadsWord(data, TYPE_F64, f);
      case Str(s) => ReadsStr(data, s);
      case _ =>
    }
  }

  /** Decoding what was written gives the value back exactly when it nests at most 256 levels below
      the starting depth, whatever bytes follow; deeper values are refused. */
  lemma {:induction false} RoundTrip(v: Value, data: bytes, depth: nat)
    requires Storable(v) && |Enc(v)| < U32 && Enc(v) <= data
    ensures ToValueAt(data, depth) == if depth + Depth(v) <= MAX_DEPTH then Good(v) else TooDeep
    decreases v, 1
  {
    hide Enc, Depth, CheckedLen, AsStr, AsI64, AsF64, Storable;
    if depth < MAX_DEPTH {
      match v {
        case Arr(items) =>
          ReadsArray(data, items);
          DepthOfItems(items, depth);
          ItemsRoundTrip(items, data, 0, depth);
          assert items[..0] == [];
        case Obj(members) =>
          ReadsObject(data, members);
          ObjectKeys(members);
          DepthOfMembers(members, depth);
          MembersRoundTrip(members, data, 0, depth);
          assert members[..0] == [];
        case _ => ScalarRoundTrip(v, data, depth);
      }
    }
  }

  /** What an update may produce. */
  predicate CheckResultDepth(doc: Value) {
    Depth(doc) <= MAX_DEPTH
  }

  /** The check on an update's result is exact: a document it accepts always reads back once stored,
      and one it refuses never would. */
  lemma AcceptedReadsBack(doc: Value)
    requires Storable(doc) && |Enc(doc)| < U32
    ensures CheckResultDepth(doc) <==> ToValueAt(Enc(doc), 0) == Good(doc)
    ensures !CheckResultDepth(doc) ==> ToValueAt(Enc(doc), 0) == TooDeep
  {
    hide Enc, Depth, Storable, ToValueAt;
    RoundTrip(doc, Enc(doc), 0);
  }

  lemma ObjectKeys(members: seq<Member>)
    requires Storable(Obj(members))
    ensures KeysAscend(members)
  {
  }

  lemma {:induction false} ItemsRoundTrip(items: seq<Value>, data: bytes, i: nat, depth: nat)
    requires i <= |items| && depth < MAX_DEPTH && ItemsAt(data, items)
    ensures ItemsFrom(data, |items|, i, depth, items[..i])
         == if forall k :: i <= k < |items| ==> depth + 1 + Depth(items[k]) <= MAX_DEPTH then Good(Arr(items)) else TooDeep
    decreases items, 0, |items| - i
  {
    hide Enc, Depth, ArrayGet, ToValueAt, Storable;
    if i == |items| {
      assert items[..i] == items;
    } else {
      RoundTrip(items[i], ArrayGet(data, i).value, depth + 1);
      ItemsRoundTrip(items, data, i + 1, depth);
      assert items[..i] + [items[i]] == items[..i + 1];
    }
  }

  lemma {:induction false} InsertLast(members: seq<Member>, key: bytes, val: Value)
    requires forall k :: 0 <= k < |members| ==> Less(members[k].key, key)
    ensures InsertMember(members, key, val) == members + [Member(key, val)]
  {
    if members != [] {
      LessAsymmetric(members[0].key, key);
      InsertLast(members[1..], key, val);
      assert members == [members[0]] + members[1..];
    }
  }

  lemma {:induction false} MembersRoundTrip(members: seq<Member>, data: bytes, i: nat, depth: nat)
    requires i <= |members| && depth < MAX_DEPTH && MembersAt(data, members) && KeysAscend(members)
    ensures MembersFrom(data, |members|, i, depth, members[..i])
         == if forall k :: i <= k < |members| ==> depth + 1 + Depth(members[k].val) <= MAX_DEPTH then Good(Obj(members)) else TooDeep
    decreases members, 0, |members| - i
  {
    hide Enc, Depth, KeyStr, ValAt, ToValueAt, Storable, Less, InsertMember;
    if i == |members| {
      assert members[..i] == members;
    } else {
      RoundTrip(members[i].val, ValAt(data, i, |members|).value, depth + 1);
      MembersRoundTrip(members, data, i + 1, depth);
      InsertLast(members[..i], members[i].key, members[i].val);
      assert members[..i] + [members[i]] == members[..i + 1];
    }
  }

  // ---- Lookup ------------------------------------------------------------------

  function SearchKey(data: bytes, count: nat, key: bytes, low: nat, high: nat): Option<bytes>
    requires low <= high
    decreases high - low
  {
    var mid := low + (high - low) / 2;
    match KeyStr(data, mid)
    case None => None
    case Some(k) =>
      if k == key then ValAt(data, mid, count)
      else if Less(k, key) then (if mid + 1 > high then None else SearchKey(data, count, key, mid + 1, high))
      else if mid == 0 || low > mid - 1 then None
      else SearchKey(data, count, key, low, mid - 1)
  }

  function ObjectLookup(data: bytes, key: bytes): Option<bytes> {
    match CheckedLen(data, 8)
    case Some(n) => if n == 0 then None else SearchKey(data, n, key, 0, n - 1)
    case None => None
  }

  /** Binary search over the key offset table; a corrupt entry ends it. */
  method ObjectGet(data: bytes, key: bytes) returns (r: Option<bytes>)
    ensures r == ObjectLookup(data, key)
  {
    hide KeyStr, ValAt, CheckedLen, Less;
    var count := CheckedLen(data, 8);
    if count.None? || count.value == 0 {
      return None;
    }
    var n := count.value;
    var low, high := 0, n - 1;
    while true
      invariant 0 <= low <= high < n
      invariant ObjectLookup(data, key) == SearchKey(data, n, key, low, high)
      decreases high - low
    {
      var mid := low + (high - low) / 2;
      var midKey := KeyStr(data, mid);
      if midKey.None? {
        return None;
      }
      if midKey.value == key {
        return ValAt(data, mid, n);
      } else if Less(midKey.value, key) {
        low := mid + 1;
      } else {
        if mid == 0 {
          return None;
        }
        high := mid - 1;
      }
      if low > high {
        return None;
      }
    }
  }

  lemma {:induction false} SearchFinds(data: bytes, members: seq<Member>, key: bytes, low: nat, high: nat)
    requires MembersAt(data, members) && KeysAscend(members) && low <= high < |members|
    ensures forall p :: low <= p <= high && members[p].key == key ==> SearchKey(data, |members|, key, low, high) == ValAt(data, p, |members|)
    ensures (forall p :: low <= p <= high ==> members[p].key != key) ==> SearchKey(data, |members|, key, low, high) == None
    decreases high - low
  {
    hide Enc, KeyStr, ValAt, Storable, Less;
    var mid := low + (high - low) / 2;
    var k := members[mid].key;
    LessIrreflexive(key);
    LessTotal(k, key);
    forall p | 0 <= p < |members| && members[p].key == key
      ensures (Less(k, key) ==> p > mid) && (Less(key, k) ==> p < mid) && (k == key ==> p == mid)
    {
      Positions(members, mid, p);
    }
    if k != key {
      if Less(k, key) {
        if mid + 1 <= high {
          SearchFinds(data, members, key, mid + 1, high);
        }
      } else if mid > 0 && low <= mid - 1 {
        SearchFinds(data, members, key, low, mid - 1);
      }
    }
  }

  lemma Positions(members: seq<Member>, a: nat, b: nat)
    requires KeysAscend(members) && a < |members| && b < |members|
    ensures Less(members[a].key, members[b].key) ==> b > a
    ensures Less(members[b].key, members[a].key) ==> b < a
    ensures members[a].key == members[b].key ==> a == b
  {
    LessIrreflexive(members[a].key);
    if a < b { LessAsymmetric(members[a].key, members[b].key); }
    if b < a { LessAsymmetric(members[b].key, members[a].key); }
  }

  lemma {:induction false} LookupExact(members: seq<Member>, key: bytes)
    ensures forall p :: 0 <= p < |members| && members[p].key == key && KeysAscend(members) ==> Lookup(members, key) == Some(members[p].val)
    ensures (forall p :: 0 <= p < |members| ==> members[p].key != key) ==> Lookup(members, key) == None
  {
    if members != [] {
      LookupExact(members[1..], key);
      forall p | 0 <= p < |members| && members[p].key == key && KeysAscend(members) ensures Lookup(members, key) == Some(members[p].val) {
        Positions(members, 0, p);
        assert p > 0 ==> members[1..][p - 1] == members[p];
      }
      assert forall p :: 0 <= p < |members[1..]| ==> members[1..][p] == members[p + 1];
    }
  }

  /** Binary search in the encoded object is lookup in the map it came from. */
  lemma SearchIsLookup(data: bytes, members: seq<Member>, key: bytes)
    requires Storable(Obj(members)) && |Enc(Obj(members))| < U32 && Enc(Obj(members)) <= data
    ensures match Lookup(members, key)
            case None => ObjectLookup(data, key) == None
            case Some(w) => ObjectLookup(data, key).Some? && Enc(w) <= ObjectLookup(data, key).value && Storable(w) && |Enc(w)| < U32
  {
    hide Enc, Storable, KeyStr, ValAt, SearchKey, CheckedLen, Less;
    ReadsObject(data, members);
    ObjectKeys(members);
    LookupExact(members, key);
    if members != [] {
      SearchFinds(data, members, key, 0, |members| - 1);
    }
    if exists p :: 0 <= p < |members| && members[p].key == key {
      var p :| 0 <= p < |members| && members[p].key == key;
      assert Lookup(members, key) == Some(members[p].val);
    }
  }

  /** Walk a dotted path through nested objects. */
  function ViewPath(data: bytes, path: Path): Option<bytes>
    decreases |path|
  {
    if path == [] then Some(data)
    else if TypeByte(data) != TYPE_OBJECT then None
    else
      match ObjectLookup(data, path[0])
      case Some(child) => ViewPath(child, path[1..])
      case None => None
  }

  lemma TypeOf(v: Value, data: bytes)
    requires Enc(v) <= data
    ensures TypeByte(data) == TYPE_OBJECT <==> v.Obj?
  {
    assert data[0] == Enc(v)[0];
  }

  /** Path access on the bytes refines path access on the value. */
  lemma {:induction false} ViewPathRefines(v: Value, data: bytes, path: Path)
    requires Storable(v) && |Enc(v)| < U32 && Enc(v) <= data
    ensures match GetPath(v, path)
            case None => ViewPath(data, path) == None
            case Some(w) => ViewPath(data, path).Some? && Enc(w) <= ViewPath(data, path).value && Storable(w) && |Enc(w)| < U32
    decreases |path|
  {
    hide Enc, Storable, ObjectLookup, TypeByte, Lookup;
    if path != [] {
      TypeOf(v, data);
      if v.Obj? {
        SearchIsLookup(data, v.members, path[0]);
        var found := Lookup(v.members, path[0]);
        if found.Some? {
          ViewPathRefines(found.value, ObjectLookup(data, path[0]).value, path[1..]);
        }
      }
    }
  }

  // ---- Index keys from a view --------------------------------------------------

  /** Encode a scalar straight from its bytes; missing paths and containers read as null. */
  function EncodeView(view: Option<bytes>): bytes {
    if view.None? then [TAG_NULL]
    else
      var data := view.value;
      if TypeByte(data) == TYPE_FALSE then [TAG_BOOL, 0]
      else if TypeByte(data) == TYPE_TRUE then [TAG_BOOL, 1]
      else if TypeByte(data) == TYPE_I64 || TypeByte(data) == TYPE_F64 then
        [TAG_NUM] + ToBE(8, TotalOrder(if AsF64(data).Some? then AsF64(data).value else ZERO))
      else if TypeByte(data) == TYPE_STRING then
        [TAG_STR] + EncodeStr(if AsStr(data).Some? then AsStr(data).value else [])
      else [TAG_NULL]
  }

  lemma {:induction false} EncodeViewRefines(v: Value, data: bytes)
    requires Storable(v) && |Enc(v)| < U32 && Enc(v) <= data
    ensures EncodeView(Some(data)) == Encode(v)
  {
    hide EncodeStr, TotalOrder, ToBE, ToLE, Le4, Read8, AsStr, Utf8;
    assert data[0] == Enc(v)[0];
    match v {
      case Num(Int(i)) =>
        ReadsWord(data, TYPE_I64, I64Bits(i));
        BitsRoundTrip(i);
      case Num(Float(f)) => ReadsWord(data, TYPE_F64, f);
      case Str(s) => ReadsStr(data, s);
      case _ =>
    }
  }

  function EncodeFieldsFromView(data: bytes, fields: seq<Path>, directions: seq<bool>): bytes {
    if fields == [] then []
    else
      var asc := EncodeView(ViewPath(data, fields[0]));
      (if HeadDirection(directions) then asc else Complement(asc))
      + EncodeFieldsFromView(data, fields[1..], TailDirections(directions))
  }

  lemma ViewField(v: Value, data: bytes, path: Path)
    requires Storable(v) && |Enc(v)| < U32 && Enc(v) <= data
    ensures EncodeView(ViewPath(data, path)) == Encode(ExtractPath(v, path))
  {
    hide Enc, Storable, EncodeView, ViewPath;
    ViewPathRefines(v, data, path);
    match GetPath(v, path) {
      case Some(w) => EncodeViewRefines(w, ViewPath(data, path).value);
      case None => MissingReadsNull();
    }
  }

  lemma MissingReadsNull()
    ensures EncodeView(None) == Encode(Null)
  {
  }

  lemma {:induction false} ViewFields(v: Value, data: bytes, fields: seq<Path>, directions: seq<bool>)
    requires Storable(v) && |Enc(v)| < U32 && Enc(v) <= data
    ensures EncodeFieldsFromView(data, fields, directions) == EncodeFields(FieldValues(v, fields), directions)
  {
    hide Enc, Storable, EncodeView, ViewPath, Encode;
    if fields != [] {
      ViewField(v, data, fields[0]);
      ViewFields(v, data, fields[1..], TailDirections(directions));
      assert FieldValues(v, fields)[1..] == FieldValues(v, fields[1..]);
      assert FieldValues(v, fields)[0] == ExtractPath(v, fields[0]);
    }
  }

  /** Index keys read off a stored body are the keys derived from the document. */
  lemma IndexKeyFromView(prefix: bytes, collection: nat, idx: IndexMeta, v: Value, id: bytes)
    requires Storable(v) && |Enc(v)| < U32
    ensures IndexKey(prefix, collection, idx.id, EncodeFieldsFromView(Enc(v), idx.fields, idx.Ascending()), id)
         == EntryKey(prefix, collection, idx, v, id)
  {
    hide Enc, Storable, EncodeFieldsFromView, EncodeFields;
    ViewFields(v, Enc(v), idx.fields, idx.Ascending());
  }
}
