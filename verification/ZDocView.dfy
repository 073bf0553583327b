/** Reading ZDoc bytes: bounds-checked accessors, materialisation with a depth limit, and lookup by
    binary search. Every accessor is total over arbitrary bytes. */
module ZDocView {
  import opened Bytes
  import opened Words
  import opened Values
  import opened ZDoc

  // ---- Accessors ---------------------------------------------------------------

  function ReadU32(data: bytes, pos: nat): Option<nat> {
    if pos + 4 <= |data| then Some(FromLE(data[pos..pos + 4])) else None
  }

  function Read8(data: bytes, pos: nat): (r: Option<nat>)
    ensures r.Some? ==> r.value < U64
  {
    if pos + 8 <= |data| then
      Spans();
      FromLEBound(data[pos..pos + 8]);
      Some(FromLE(data[pos..pos + 8]))
    else None
  }

  function ReadSpan(data: bytes, pos: nat, len: nat): Option<bytes> {
    if pos + len <= |data| then Some(data[pos..pos + len]) else None
  }

  /** A child must start strictly inside the buffer. */
  function Child(data: bytes, offset: nat): Option<bytes> {
    if offset < |data| then Some(data[offset..]) else None
  }

  function TypeByte(data: bytes): byte {
    if data == [] then TYPE_NULL else data[0]
  }

  predicate Continuation(b: byte) {
    0x80 <= b <= 0xBF
  }

  /** Well-formed UTF-8, as in Table 3-7 of the Unicode Standard. */
  predicate Utf8(s: bytes) {
    if s == [] then true
    else if s[0] < 0x80 then Utf8(s[1..])
    else if 0xC2 <= s[0] <= 0xDF then |s| >= 2 && Continuation(s[1]) && Utf8(s[2..])
    else if 0xE0 <= s[0] <= 0xEF then
      && |s| >= 3 && Continuation(s[1]) && Continuation(s[2])
      && (s[0] == 0xE0 ==> s[1] >= 0xA0) && (s[0] == 0xED ==> s[1] <= 0x9F) && Utf8(s[3..])
    else if 0xF0 <= s[0] <= 0xF4 then
      && |s| >= 4 && Continuation(s[1]) && Continuation(s[2]) && Continuation(s[3])
      && (s[0] == 0xF0 ==> s[1] >= 0x90) && (s[0] == 0xF4 ==> s[1] <= 0x8F) && Utf8(s[4..])
    else false
  }

  function Text(raw: Option<bytes>): Option<bytes> {
    if raw.Some? && Utf8(raw.value) then raw else None
  }

  function AsI64(data: bytes): Option<i64> {
    if TypeByte(data) == TYPE_I64 && Read8(data, 1).Some? then Some(BitsI64(Read8(data, 1).value)) else None
  }

  /** Bits of the double a number reads as. */
  function AsF64(data: bytes): Option<u64> {
    if TypeByte(data) == TYPE_F64 then
      (match Read8(data, 1) case Some(b) => Some(b) case None => None)
    else
      match AsI64(data)
      case Some(i) => Some(IntToF64(i))
      case None => None
  }

  function AsStr(data: bytes): Option<bytes> {
    if TypeByte(data) != TYPE_STRING then None
    else
      match ReadU32(data, 1)
      case Some(len) => Text(ReadSpan(data, 5, len))
      case None => None
  }

  /** Entry count, when the header and the offset tables it implies fit; `width` is 4 for arrays
      and 8 for objects. */
  function CheckedLen(data: bytes, width: nat): (r: Option<nat>)
    ensures r.Some? ==> 9 + width * r.value <= |data|
  {
    match ReadU32(data, 5)
    case Some(count) => if 9 + width * count <= |data| then Some(count) else None
    case None => None
  }

  function ArrayGet(data: bytes, i: nat): Option<bytes> {
    var n := CheckedLen(data, 4);
    if n.None? || i >= n.value then None
    else
      match ReadU32(data, 9 + 4 * i)
      case Some(off) => Child(data, off)
      case None => None
  }

  function KeyStr(data: bytes, i: nat): Option<bytes> {
    match ReadU32(data, 9 + 4 * i)
    case None => None
    case Some(off) =>
      match ReadU32(data, off)
      case Some(len) => Text(ReadSpan(data, off + 4, len))
      case None => None
  }

  function ValAt(data: bytes, i: nat, count: nat): Option<bytes> {
    match ReadU32(data, 9 + 4 * count + 4 * i)
    case Some(off) => Child(data, off)
    case None => None
  }

  // ---- Materialisation ---------------------------------------------------------

  datatype Decoded<+T> = Good(value: T) | TooDeep | Corrupt

  /** Insert into an ordered map, replacing an equal key. */
  function InsertMember(members: seq<Member>, key: bytes, val: Value): seq<Member> {
    if members == [] || Less(key, members[0].key) then [Member(key, val)] + members
    else if key == members[0].key then [Member(key, val)] + members[1..]
    else [members[0]] + InsertMember(members[1..], key, val)
  }

  function ToValueAt(data: bytes, depth: nat): Decoded<Value>
    decreases MAX_DEPTH - depth, 1, 0
  {
    if depth >= MAX_DEPTH then TooDeep
    else if TypeByte(data) == TYPE_NULL then Good(Null)
    else if TypeByte(data) == TYPE_FALSE then Good(Bool(false))
    else if TypeByte(data) == TYPE_TRUE then Good(Bool(true))
    else if TypeByte(data) == TYPE_I64 then
      (match AsI64(data) case Some(i) => Good(Num(Int(i))) case None => Corrupt)
    else if TypeByte(data) == TYPE_F64 then
      (match AsF64(data) case Some(b) => Good(if Finite(b) then Num(Float(b)) else Null) case None => Corrupt)
    else if TypeByte(data) == TYPE_STRING then
      (match AsStr(data) case Some(s) => Good(Str(s)) case None => Corrupt)
    else if TypeByte(data) == TYPE_ARRAY then
      (match CheckedLen(data, 4) case Some(n) => ItemsFrom(data, n, 0, depth, []) case None => Corrupt)
    else if TypeByte(data) == TYPE_OBJECT then
      (match CheckedLen(data, 8) case Some(n) => MembersFrom(data, n, 0, depth, []) case None => Corrupt)
    else Corrupt
  }

  function ItemsFrom(data: bytes, n: nat, i: nat, depth: nat, got: seq<Value>): Decoded<Value>
    requires i <= n && depth < MAX_DEPTH
    decreases MAX_DEPTH - depth, 0, n - i
  {
    if i == n then Good(Arr(got))
    else
      match ArrayGet(data, i)
      case None => Corrupt
      case Some(child) =>
        match ToValueAt(child, depth + 1)
        case Good(v) => ItemsFrom(data, n, i + 1, depth, got + [v])
        case TooDeep => TooDeep
        case Corrupt => Corrupt
  }

  function MembersFrom(data: bytes, n: nat, i: nat, depth: nat, got: seq<Member>): Decoded<Value>
    requires i <= n && depth < MAX_DEPTH
    decreases MAX_DEPTH - depth, 0, n - i
  {
    if i == n then Good(Obj(got))
    else if KeyStr(data, i).None? || ValAt(data, i, n).None? then Corrupt
    else
      match ToValueAt(ValAt(data, i, n).value, depth + 1)
      case Good(v) => MembersFrom(data, n, i + 1, depth, InsertMember(got, KeyStr(data, i).value, v))
      case TooDeep => TooDeep
      case Corrupt => Corrupt
  }

  // ---- What the reader is owed -------------------------------------------------

  function Max(s: seq<nat>): (m: nat)
    ensures forall i :: 0 <= i < |s| ==> s[i] <= m
    ensures s == [] ==> m == 0
    ensures s != [] ==> m in s
  {
    if s == [] then 0
    else
      var rest := Max(s[..|s| - 1]);
      if s[|s| - 1] > rest then s[|s| - 1] else rest
  }

  /** Scalars are one level deep, a container one deeper than its deepest child. */
  function Depth(v: Value): (d: nat)
    ensures d > 0
  {
    match v
    case Arr(items) => 1 + Max(seq(|items|, i requires 0 <= i < |items| => Depth(items[i])))
    case Obj(members) => 1 + Max(seq(|members|, i requires 0 <= i < |members| => Depth(members[i].val)))
    case _ => 1
  }

  ghost predicate KeysAscend(members: seq<Member>) {
    forall i, j :: 0 <= i < j < |members| ==> Less(members[i].key, members[j].key)
  }

  /** Strings are UTF-8 and object keys are distinct, in order. */
  ghost predicate Storable(v: Value) {
    match v
    case Str(s) => Utf8(s)
    case Arr(items) => forall i :: 0 <= i < |items| ==> Storable(items[i])
    case Obj(members) =>
      KeysAscend(members) && forall i :: 0 <= i < |members| ==> Utf8(members[i].key) && Storable(members[i].val)
    case _ => true
  }

  // ---- Finding parts in a buffer -----------------------------------------------

  /** `part` lies at `pos`. */
  predicate At(data: bytes, pos: nat, part: bytes) {
    pos + |part| <= |data| && data[pos..pos + |part|] == part
  }

  lemma AtPrefix(data: bytes, a: bytes, part: bytes, rest: bytes)
    requires a + part + rest <= data
    ensures At(data, |a|, part)
  {
    assert data[..|a + part + rest|] == a + part + rest;
    assert data[|a|..|a| + |part|] == (a + part + rest)[|a|..|a| + |part|];
  }

  lemma AtInside(data: bytes, pos: nat, part: bytes, off: nat, inner: bytes)
    requires At(data, pos, part) && At(part, off, inner)
    ensures At(data, pos + off, inner)
  {
    forall k | 0 <= k < |inner| ensures data[pos + off + k] == inner[k] {
      assert data[pos..pos + |part|][off + k] == part[off + k];
      assert part[off..off + |inner|][k] == inner[k];
    }
  }

  lemma AtWithin(data: bytes, pos: nat, part: bytes, a: bytes, inner: bytes, rest: bytes)
    requires At(data, pos, part) && part == a + inner + rest
    ensures At(data, pos + |a|, inner)
  {
    AtPrefix(part, a, inner, rest);
    AtInside(data, pos, part, |a|, inner);
  }

  lemma AtTail(data: bytes, pos: nat, part: bytes)
    requires At(data, pos, part) && part != []
    ensures pos < |data| && part <= data[pos..]
  {
  }

  lemma ReadAt(data: bytes, pos: nat, x: nat)
    requires At(data, pos, Le4(x)) && x < U32
    ensures ReadU32(data, pos) == Some(x)
  {
    Spans();
    LERoundTrip(4, x);
  }

  lemma {:induction false} FlatAt(parts: seq<bytes>, i: nat)
    requires i < |parts|
    ensures At(Flat(parts), |Flat(parts[..i])|, parts[i])
  {
    var n := |parts| - 1;
    assert parts[..n + 1] == parts;
    if i < n {
      FlatAt(parts[..n], i);
      assert parts[..n][..i] == parts[..i];
      AtExtends(Flat(parts[..n]), parts[n], |Flat(parts[..i])|, parts[i]);
    } else {
      AtPrefix(Flat(parts), Flat(parts[..n]), parts[n], []);
      assert Flat(parts[..n]) + parts[n] + [] == Flat(parts);
    }
  }

  lemma AtExtends(data: bytes, more: bytes, pos: nat, part: bytes)
    requires At(data, pos, part)
    ensures At(data + more, pos, part)
  {
    assert (data + more)[pos..pos + |part|] == data[pos..pos + |part|];
  }

  lemma {:induction false} TableAt(words: seq<nat>, i: nat)
    requires i < |words|
    ensures At(Table(words), 4 * i, Le4(words[i]))
  {
    hide Le4;
    var n := |words| - 1;
    if i < n {
      TableAt(words[..n], i);
      AtExtends(Table(words[..n]), Le4(words[n]), 4 * i, Le4(words[i]));
    } else {
      AtPrefix(Table(words), Table(words[..n]), Le4(words[n]), []);
      assert Table(words[..n]) + Le4(words[n]) + [] == Table(words);
    }
  }

  /** Header, tables and body of a container at the front of a buffer. */
  lemma ContainerAt(data: bytes, tag: byte, count: nat, tables: bytes, body: bytes)
    requires Container(tag, count, tables, body) <= data
    ensures data != [] && data[0] == tag
    ensures At(data, 5, Le4(count)) && At(data, 9, tables) && At(data, 9 + |tables|, body)
  {
    hide Le4;
    var total := Le4(9 + |tables| + |body|);
    var whole := Container(tag, count, tables, body);
    assert whole == ([tag] + total) + Le4(count) + (tables + body);
    AtPrefix(data, [tag] + total, Le4(count), tables + body);
    assert whole == ([tag] + total + Le4(count)) + tables + body;
    AtPrefix(data, [tag] + total + Le4(count), tables, body);
    assert whole == ([tag] + total + Le4(count) + tables) + body + [];
    AtPrefix(data, [tag] + total + Le4(count) + tables, body, []);
    assert whole[0] == tag && data[0] == whole[0];
  }

  /** Each offset of a table laid over its parts leads to its part. */
  lemma OffsetLeads(data: bytes, base: nat, parts: seq<bytes>, i: nat)
    requires i < |parts| && At(data, base, Flat(parts))
    ensures At(data, Offsets(base, parts)[i], parts[i])
    ensures Offsets(base, parts)[i] + |parts[i]| <= base + |Flat(parts)|
  {
    FlatAt(parts, i);
    AtInside(data, base, Flat(parts), |Flat(parts[..i])|, parts[i]);
  }

  lemma WordLeads(data: bytes, pos: nat, words: seq<nat>, i: nat)
    requires i < |words| && At(data, pos, Table(words)) && words[i] < U32
    ensures ReadU32(data, pos + 4 * i) == Some(words[i])
  {
    hide *;
    TableAt(words, i);
    AtInside(data, pos, Table(words), 4 * i, Le4(words[i]));
    ReadAt(data, pos + 4 * i, words[i]);
  }

  // ---- Arrays ------------------------------------------------------------------

  /** Every element of an array is reached through its offset. */
  lemma ArrayReads(data: bytes, items: seq<bytes>)
    requires ArrayBytes(items) <= data && |ArrayBytes(items)| < U32 && forall i :: 0 <= i < |items| ==> items[i] != []
    ensures data != [] && data[0] == TYPE_ARRAY && CheckedLen(data, 4) == Some(|items|)
    ensures forall i :: 0 <= i < |items| ==> ArrayGet(data, i).Some? && items[i] <= ArrayGet(data, i).value
  {
    hide Flat, Table, Le4, ReadU32;
    var n := |items|;
    var offsets := Offsets(9 + 4 * n, items);
    ContainerAt(data, TYPE_ARRAY, n, Table(offsets), Flat(items));
    ReadAt(data, 5, n);
    forall i | 0 <= i < n ensures ArrayGet(data, i).Some? && items[i] <= ArrayGet(data, i).value {
      OffsetLeads(data, 9 + 4 * n, items, i);
      WordLeads(data, 9, offsets, i);
      AtTail(data, offsets[i], items[i]);
    }
  }

  // ---- Objects -----------------------------------------------------------------

  /** Every key and value of an object is reached through its offsets. */
  lemma ObjectReads(data: bytes, keys: seq<bytes>, vals: seq<bytes>)
    requires |keys| == |vals| && ObjectBytes(keys, vals) <= data && |ObjectBytes(keys, vals)| < U32
    requires forall i :: 0 <= i < |keys| ==> Utf8(keys[i]) && vals[i] != []
    ensures data != [] && data[0] == TYPE_OBJECT && CheckedLen(data, 8) == Some(|keys|)
    ensures forall i :: 0 <= i < |keys| ==> KeyStr(data, i) == Some(keys[i])
    ensures forall i :: 0 <= i < |keys| ==> ValAt(data, i, |keys|).Some? && vals[i] <= ValAt(data, i, |keys|).value
  {
    hide Flat, Table, Le4, ReadU32, Utf8, EntryParts, KeyOffsets, ValOffsets;
    var n := |keys|;
    var parts := EntryParts(keys, vals);
    ContainerAt(data, TYPE_OBJECT, n, Table(KeyOffsets(keys, vals)) + Table(ValOffsets(keys, vals)), Flat(parts));
    ReadAt(data, 5, n);
    forall i | 0 <= i < n
      ensures KeyStr(data, i) == Some(keys[i]) && ValAt(data, i, n).Some? && vals[i] <= ValAt(data, i, n).value
    {
      ObjectEntry(data, keys, vals, i);
    }
  }

  lemma EntryLeads(data: bytes, keys: seq<bytes>, vals: seq<bytes>, i: nat)
    requires |keys| == |vals| && i < |keys| && At(data, 9 + 8 * |keys|, Flat(EntryParts(keys, vals)))
    ensures At(data, KeyOffsets(keys, vals)[i], Le4(|keys[i]|))
    ensures At(data, KeyOffsets(keys, vals)[i] + 4, keys[i])
    ensures At(data, ValOffsets(keys, vals)[i], vals[i])
    ensures KeyOffsets(keys, vals)[i] + 4 + |keys[i]| + |vals[i]| <= 9 + 8 * |keys| + |Flat(EntryParts(keys, vals))|
  {
    hide Flat, Le4;
    var parts := EntryParts(keys, vals);
    OffsetLeads(data, 9 + 8 * |keys|, parts, i);
    var off, len := KeyOffsets(keys, vals)[i], Le4(|keys[i]|);
    assert parts[i] == [] + len + (keys[i] + vals[i]);
    AtWithin(data, off, parts[i], [], len, keys[i] + vals[i]);
    assert parts[i] == len + keys[i] + vals[i];
    AtWithin(data, off, parts[i], len, keys[i], vals[i]);
    assert parts[i] == (len + keys[i]) + vals[i] + [];
    AtWithin(data, off, parts[i], len + keys[i], vals[i], []);
  }

  lemma ObjectEntry(data: bytes, keys: seq<bytes>, vals: seq<bytes>, i: nat)
    requires |keys| == |vals| && i < |keys| && Utf8(keys[i]) && vals[i] != []
    requires ObjectBytes(keys, vals) <= data && |ObjectBytes(keys, vals)| < U32
    ensures KeyStr(data, i) == Some(keys[i])
    ensures ValAt(data, i, |keys|).Some? && vals[i] <= ValAt(data, i, |keys|).value
  {
    hide Flat, Table, Le4, ReadU32, Utf8, EntryParts, KeyOffsets, ValOffsets;
    var n, kos, vos := |keys|, KeyOffsets(keys, vals), ValOffsets(keys, vals);
    var tables := Table(kos) + Table(vos);
    ContainerAt(data, TYPE_OBJECT, n, tables, Flat(EntryParts(keys, vals)));
    EntryLeads(data, keys, vals, i);
    ValFollowsKey(keys, vals, i);
    assert tables == [] + Table(kos) + Table(vos) && tables == Table(kos) + Table(vos) + [];
    AtWithin(data, 9, tables, [], Table(kos), Table(vos));
    AtWithin(data, 9, tables, Table(kos), Table(vos), []);
    WordLeads(data, 9, kos, i);
    WordLeads(data, 9 + 4 * n, vos, i);
    ReadAt(data, kos[i], |keys[i]|);
    AtTail(data, vos[i], vals[i]);
  }

  lemma ValFollowsKey(keys: seq<bytes>, vals: seq<bytes>, i: nat)
    requires |keys| == |vals| && i < |keys|
    ensures ValOffsets(keys, vals)[i] == KeyOffsets(keys, vals)[i] + 4 + |keys[i]|
  {
  }
}
