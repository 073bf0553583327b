/** The ZDoc binary document format: its layout and the back-patching writer. */
module ZDoc {
  import opened Bytes
  import opened Words
  import opened Values

  const TYPE_NULL: byte := 0
  const TYPE_FALSE: byte := 1
  const TYPE_TRUE: byte := 2
  const TYPE_I64: byte := 3
  const TYPE_F64: byte := 4
  const TYPE_STRING: byte := 5
  const TYPE_ARRAY: byte := 6
  const TYPE_OBJECT: byte := 7

  const MAX_DEPTH: nat := 256

  // ---- Layout ------------------------------------------------------------------

  /** Two's complement. */
  function I64Bits(i: i64): u64 {
    if i >= 0 then i else i + U64
  }

  function BitsI64(b: u64): i64 {
    if b < U63 then b else b - U64
  }

  /** A length or offset; anything past 32 bits is truncated, as the casts in the writer do. */
  function Le4(x: nat): (r: bytes)
    ensures |r| == 4
  {
    ToLE(4, x)
  }

  function Flat(parts: seq<bytes>): bytes {
    if parts == [] then [] else Flat(parts[..|parts| - 1]) + parts[|parts| - 1]
  }

  function Table(words: seq<nat>): (r: bytes)
    ensures |r| == 4 * |words|
  {
    if words == [] then [] else Table(words[..|words| - 1]) + Le4(words[|words| - 1])
  }

  /** Where each part starts when parts are laid out from `base`. */
  function Offsets(base: nat, parts: seq<bytes>): (r: seq<nat>)
    ensures |r| == |parts|
  {
    seq(|parts|, i requires 0 <= i < |parts| => base + |Flat(parts[..i])|)
  }

  /** Tag, total length, count, offset tables, contents. */
  function Container(tag: byte, count: nat, tables: bytes, body: bytes): bytes {
    [tag] + Le4(9 + |tables| + |body|) + Le4(count) + tables + body
  }

  function ArrayBytes(items: seq<bytes>): bytes {
    Container(TYPE_ARRAY, |items|, Table(Offsets(9 + 4 * |items|, items)), Flat(items))
  }

  function KeyPart(key: bytes): bytes {
    Le4(|key|) + key
  }

  function EntryParts(keys: seq<bytes>, vals: seq<bytes>): (r: seq<bytes>)
    requires |keys| == |vals|
    ensures |r| == |keys|
  {
    seq(|keys|, i requires 0 <= i < |keys| => KeyPart(keys[i]) + vals[i])
  }

  function KeyOffsets(keys: seq<bytes>, vals: seq<bytes>): (r: seq<nat>)
    requires |keys| == |vals|
    ensures |r| == |keys|
  {
    Offsets(9 + 8 * |keys|, EntryParts(keys, vals))
  }

  function ValOffsets(keys: seq<bytes>, vals: seq<bytes>): (r: seq<nat>)
    requires |keys| == |vals|
    ensures |r| == |keys|
  {
    seq(|keys|, i requires 0 <= i < |keys| => ValOffset(keys, vals, i))
  }

  function ValOffset(keys: seq<bytes>, vals: seq<bytes>, i: nat): nat
    requires |keys| == |vals| && i < |keys|
  {
    KeyOffsets(keys, vals)[i] + 4 + |keys[i]|
  }

  function ObjectBytes(keys: seq<bytes>, vals: seq<bytes>): bytes
    requires |keys| == |vals|
  {
    Container(TYPE_OBJECT, |keys|, Table(KeyOffsets(keys, vals)) + Table(ValOffsets(keys, vals)), Flat(EntryParts(keys, vals)))
  }

  function MemberKeys(members: seq<Member>): (r: seq<bytes>)
    ensures |r| == |members|
  {
    seq(|members|, i requires 0 <= i < |members| => members[i].key)
  }

  /** The bytes of a value. */
  function Enc(v: Value): (r: bytes)
    ensures r != []
  {
    match v
    case Null => [TYPE_NULL]
    case Bool(b) => [if b then TYPE_TRUE else TYPE_FALSE]
    case Num(Int(i)) => [TYPE_I64] + ToLE(8, I64Bits(i))
    case Num(Float(f)) => [TYPE_F64] + ToLE(8, f)
    case Str(s) => [TYPE_STRING] + Le4(|s|) + s
    case Arr(items) => ArrayBytes(seq(|items|, i requires 0 <= i < |items| => Enc(items[i])))
    case Obj(members) =>
      ObjectBytes(MemberKeys(members), seq(|members|, i requires 0 <= i < |members| => Enc(members[i].val)))
  }

  function EncItems(items: seq<Value>): (r: seq<bytes>)
    ensures |r| == |items|
  {
    seq(|items|, i requires 0 <= i < |items| => Enc(items[i]))
  }

  function EncVals(members: seq<Member>): (r: seq<bytes>)
    ensures |r| == |members|
  {
    seq(|members|, i requires 0 <= i < |members| => Enc(members[i].val))
  }

  // ---- The writer --------------------------------------------------------------

  function Zeros(n: nat): (r: bytes)
    ensures |r| == n
  {
    seq(n, i => 0)
  }

  function Patch(s: bytes, pos: nat, word: bytes): bytes
    requires pos + |word| <= |s|
  {
    s[..pos] + word + s[pos + |word|..]
  }

  lemma PatchMiddle(a: bytes, was: bytes, b: bytes, word: bytes)
    requires |was| == |word|
    ensures Patch(a + was + b, |a|, word) == a + word + b
  {
  }

  lemma FlatSnoc(parts: seq<bytes>, i: nat)
    requires i < |parts|
    ensures Flat(parts[..i + 1]) == Flat(parts[..i]) + parts[i]
  {
    assert parts[..i + 1][..i] == parts[..i];
  }

  lemma TableSnoc(words: seq<nat>, i: nat)
    requires i < |words|
    ensures Table(words[..i + 1]) == Table(words[..i]) + Le4(words[i])
  {
    assert words[..i + 1][..i] == words[..i];
  }

  lemma TableNil()
    ensures Table([]) == [] && Flat([]) == []
  {
  }

  lemma BackfillStep(done: bytes, left: nat, rest: bytes, word: nat)
    requires left > 0
    ensures Patch(done + Zeros(4 * left) + rest, |done|, Le4(word)) == done + Le4(word) + Zeros(4 * (left - 1)) + rest
  {
    hide Le4;
    assert Zeros(4 * left) == Zeros(4) + Zeros(4 * (left - 1));
    assert done + Zeros(4 * left) + rest == done + Zeros(4) + (Zeros(4 * (left - 1)) + rest);
    PatchMiddle(done, Zeros(4), Zeros(4 * (left - 1)) + rest, Le4(word));
  }

  /** Overwrite a zeroed offset table word by word. */
  method Backfill(buffer: bytes, pos: nat, words: seq<nat>, ghost front: bytes, ghost rest: bytes) returns (out: bytes)
    requires buffer == front + Zeros(4 * |words|) + rest && pos == |front|
    ensures out == front + Table(words) + rest
  {
    hide Table, Le4;
    out := buffer;
    TableNil();
    assert words[..0] == [] && front + [] == front;
    for i := 0 to |words|
      invariant out == front + Table(words[..i]) + Zeros(4 * (|words| - i)) + rest
    {
      BackfillStep(front + Table(words[..i]), |words| - i, rest, words[i]);
      TableSnoc(words, i);
      Associative(front, Table(words[..i]), Le4(words[i]));
      out := Patch(out, pos + 4 * i, Le4(words[i]));
    }
    assert words[..|words|] == words;
    assert Zeros(0) == [];
    assert front + Table(words) + [] == front + Table(words);
  }

  /** The total length is written last, over its placeholder. */
  lemma PatchTotal(start: bytes, tag: byte, count: nat, tables: bytes, body: bytes)
    ensures var before := start + [tag] + Le4(0) + Le4(count) + tables + body;
            && |before| - |start| == 9 + |tables| + |body|
            && Patch(before, |start| + 1, Le4(9 + |tables| + |body|)) == start + Container(tag, count, tables, body)
  {
    hide Le4;
    var rest := Le4(count) + tables + body;
    assert start + [tag] + Le4(0) + Le4(count) + tables + body == (start + [tag]) + Le4(0) + rest;
    PatchMiddle(start + [tag], Le4(0), rest, Le4(9 + |tables| + |body|));
    assert (start + [tag]) + Le4(9 + |tables| + |body|) + rest == start + Container(tag, count, tables, body);
  }

  lemma OffsetAt(base: nat, parts: seq<bytes>, i: nat)
    requires i < |parts|
    ensures Offsets(base, parts)[..i + 1] == Offsets(base, parts)[..i] + [base + |Flat(parts[..i])|]
  {
  }

  method WriteArray(items: seq<Value>, start: bytes) returns (out: bytes)
    ensures out == start + ArrayBytes(EncItems(items))
    decreases items, 0
  {
    hide Flat, Table, Le4, Enc;
    var n := |items|;
    ghost var encs := EncItems(items);
    ghost var head := start + [TYPE_ARRAY] + Le4(0) + Le4(n);
    out := start + [TYPE_ARRAY] + Le4(0) + Le4(n);
    out := out + Zeros(4 * n);
    var offsets: seq<nat> := [];
    TableNil();
    assert encs[..0] == [];
    for i := 0 to n
      invariant out == head + Zeros(4 * n) + Flat(encs[..i])
      invariant offsets == Offsets(9 + 4 * n, encs)[..i]
    {
      OffsetAt(9 + 4 * n, encs, i);
      offsets := offsets + [|out| - |start|];
      FlatSnoc(encs, i);
      Associative(head + Zeros(4 * n), Flat(encs[..i]), encs[i]);
      out := WriteValue(items[i], out);
    }
    assert encs[..n] == encs && offsets == Offsets(9 + 4 * n, encs);
    out := Backfill(out, |start| + 9, offsets, head, Flat(encs));
    PatchTotal(start, TYPE_ARRAY, n, Table(offsets), Flat(encs));
    out := Patch(out, |start| + 1, Le4(|out| - |start|));
  }

  lemma EntrySnoc(keys: seq<bytes>, vals: seq<bytes>, i: nat, before: bytes)
    requires |keys| == |vals| && i < |keys|
    ensures var parts := EntryParts(keys, vals);
            before + Flat(parts[..i]) + Le4(|keys[i]|) + keys[i] + vals[i] == before + Flat(parts[..i + 1])
    ensures KeyOffsets(keys, vals)[i] == 9 + 8 * |keys| + |Flat(EntryParts(keys, vals)[..i])|
    ensures ValOffsets(keys, vals)[i] == KeyOffsets(keys, vals)[i] + 4 + |keys[i]|
  {
    hide Flat, Le4;
    var parts := EntryParts(keys, vals);
    FlatSnoc(parts, i);
    assert before + Flat(parts[..i]) + Le4(|keys[i]|) + keys[i] + vals[i] == before + (Flat(parts[..i]) + (Le4(|keys[i]|) + keys[i] + vals[i]));
  }

  lemma Extended(words: seq<nat>, i: nat)
    requires i < |words|
    ensures words[..i + 1] == words[..i] + [words[i]]
  {
  }

  method WriteObject(members: seq<Member>, start: bytes) returns (out: bytes)
    ensures out == start + ObjectBytes(MemberKeys(members), EncVals(members))
    decreases members, 0
  {
    hide Flat, Table, Le4, Enc, EntryParts, KeyOffsets, ValOffsets;
    var n := |members|;
    ghost var keys, vals := MemberKeys(members), EncVals(members);
    ghost var parts := EntryParts(keys, vals);
    ghost var head := start + [TYPE_OBJECT] + Le4(0) + Le4(n);
    out := start + [TYPE_OBJECT] + Le4(0) + Le4(n);
    out := out + Zeros(4 * n);
    out := out + Zeros(4 * n);
    var keyOffsets: seq<nat>, valOffsets: seq<nat> := [], [];
    ghost var before := head + Zeros(4 * n) + Zeros(4 * n);
    TableNil();
    assert parts[..0] == [] && before + [] == before;
    for i := 0 to n
      invariant out == before + Flat(parts[..i])
      invariant keyOffsets == KeyOffsets(keys, vals)[..i] && valOffsets == ValOffsets(keys, vals)[..i]
    {
      EntrySnoc(keys, vals, i, before);
      Extended(KeyOffsets(keys, vals), i);
      Extended(ValOffsets(keys, vals), i);
      keyOffsets := keyOffsets + [|out| - |start|];
      out := out + Le4(|members[i].key|) + members[i].key;
      valOffsets := valOffsets + [|out| - |start|];
      out := WriteValue(members[i].val, out);
    }
    assert parts[..n] == parts && keyOffsets == KeyOffsets(keys, vals) && valOffsets == ValOffsets(keys, vals);
    out := FillTables(out, |start| + 9, keyOffsets, valOffsets, head, Flat(parts));
    PatchTotal(start, TYPE_OBJECT, n, Table(keyOffsets) + Table(valOffsets), Flat(parts));
    out := Patch(out, |start| + 1, Le4(|out| - |start|));
  }

  method FillTables(buffer: bytes, pos: nat, first: seq<nat>, second: seq<nat>, ghost front: bytes, ghost rest: bytes) returns (out: bytes)
    requires buffer == front + Zeros(4 * |first|) + Zeros(4 * |second|) + rest && pos == |front|
    ensures out == front + (Table(first) + Table(second)) + rest
  {
    hide Table, Zeros;
    Associative(front + Zeros(4 * |first|), Zeros(4 * |second|), rest);
    out := Backfill(buffer, pos, first, front, Zeros(4 * |second|) + rest);
    Associative(front + Table(first), Zeros(4 * |second|), rest);
    out := Backfill(out, pos + 4 * |first|, second, front + Table(first), rest);
    Associative(front, Table(first), Table(second));
  }

  /** Append a value: placeholders first, contents next, offsets and total length back-patched. */
  method WriteValue(v: Value, start: bytes) returns (out: bytes)
    ensures out == start + Enc(v)
    decreases v, 1
  {
    hide ArrayBytes, ObjectBytes, Le4;
    match v {
      case Null => out := start + [TYPE_NULL];
      case Bool(b) => out := start + [if b then TYPE_TRUE else TYPE_FALSE];
      case Num(Int(i)) => out := start + [TYPE_I64] + ToLE(8, I64Bits(i));
      case Num(Float(f)) => out := start + [TYPE_F64] + ToLE(8, f);
      case Str(s) =>
        out := start + [TYPE_STRING] + Le4(|s|) + s;
        assert out == start + ([TYPE_STRING] + Le4(|s|) + s);
      case Arr(items) =>
        out := WriteArray(items, start);
        assert EncItems(items) == seq(|items|, i requires 0 <= i < |items| => Enc(items[i]));
      case Obj(members) =>
        out := WriteObject(members, start);
        assert EncVals(members) == seq(|members|, i requires 0 <= i < |members| => Enc(members[i].val));
    }
  }
}
