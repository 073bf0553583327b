/** Order-preserving encoding of scalars and composite index keys. */
module Encoding {
  import opened Bytes
  import opened Words
  import opened Values

  datatype Ordering = Lt | Eq | Gt {
    function Reverse(): Ordering {
      match this case Lt => Gt case Eq => Eq case Gt => Lt
    }
  }

  // ---- The logical order -------------------------------------------------------

  /** null (and every non-scalar) < bool < number < string. */
  function Rank(v: Value): nat {
    match v
    case Null => 0
    case Bool(_) => 1
    case Num(_) => 2
    case Str(_) => 3
    case Arr(_) => 0
    case Obj(_) => 0
  }

  function CmpInt(a: int, b: int): Ordering {
    if a < b then Lt else if a == b then Eq else Gt
  }

  function CmpBytes(a: bytes, b: bytes): Ordering {
    if Less(a, b) then Lt else if a == b then Eq else Gt
  }

  /** Numeric order, with -0.0 placed just below 0.0 as in totalOrder of IEEE 754. */
  function CmpF64(a: F64, b: F64): Ordering {
    if Numeric(a) != Numeric(b) then CmpInt(Numeric(a), Numeric(b))
    else if a == b then Eq
    else if Negative(a) then Lt
    else Gt
  }

  /** The order a secondary index is meant to realise. */
  function CmpValues(a: Value, b: Value): Ordering {
    if Rank(a) != Rank(b) then CmpInt(Rank(a), Rank(b))
    else
      match a
      case Bool(x) => CmpInt(if x then 1 else 0, if b.b then 1 else 0)
      case Num(x) => CmpF64(x.AsF64(), b.n.AsF64())
      case Str(x) => CmpBytes(x, b.s)
      case _ => Eq
  }

  // ---- The encoding ------------------------------------------------------------

  const TAG_NULL: byte := 0
  const TAG_BOOL: byte := 1
  const TAG_NUM: byte := 2
  const TAG_STR: byte := 3

  /** Set the sign bit of a non-negative double, complement a negative one. */
  function TotalOrder(f: u64): u64 {
    if Negative(f) then U64 - 1 - f else f + U63
  }

  function Escape(s: bytes): bytes {
    if s == [] then []
    else EscapeByte(s[0]) + Escape(s[1..])
  }

  function EncodeStr(s: bytes): bytes {
    Escape(s) + [0, 0]
  }

  function Encode(v: Value): bytes {
    match v
    case Null => [TAG_NULL]
    case Bool(b) => [TAG_BOOL, if b then 1 else 0]
    case Num(n) => [TAG_NUM] + ToBE(8, TotalOrder(n.AsF64()))
    case Str(s) => [TAG_STR] + EncodeStr(s)
    case Arr(_) => [TAG_NULL]
    case Obj(_) => [TAG_NULL]
  }

  function EncodeDirected(v: Value, ascending: bool): bytes {
    if ascending then Encode(v) else Complement(Encode(v))
  }

  /** Direction flags past the end default to ascending. */
  function HeadDirection(directions: seq<bool>): bool {
    directions == [] || directions[0]
  }

  function TailDirections(directions: seq<bool>): seq<bool> {
    if directions == [] then [] else directions[1..]
  }

  function EncodeFields(values: seq<Value>, directions: seq<bool>): bytes {
    if values == [] then []
    else EncodeDirected(values[0], HeadDirection(directions))
         + EncodeFields(values[1..], TailDirections(directions))
  }

  // ---- The appending encoders --------------------------------------------------

  method AppendStr(s: bytes, buffer: bytes) returns (out: bytes)
    ensures out == buffer + EncodeStr(s)
  {
    out := buffer;
    for i := 0 to |s|
      invariant out + Escape(s[i..]) == buffer + Escape(s)
    {
      assert s[i..][1..] == s[i + 1..];
      ghost var before := out;
      if s[i] == 0 {
        out := out + [0, 255];
        assert before + ([0, 255] + Escape(s[i + 1..])) == out + Escape(s[i + 1..]);
      } else {
        out := out + [s[i]];
        assert before + ([s[i]] + Escape(s[i + 1..])) == out + Escape(s[i + 1..]);
      }
    }
    assert s[|s|..] == [] && out + Escape([]) == out;
    out := out + [0, 0];
    assert buffer + Escape(s) + [0, 0] == buffer + EncodeStr(s);
  }

  method AppendValue(v: Value, buffer: bytes) returns (out: bytes)
    ensures out == buffer + Encode(v)
  {
    match v {
      case Bool(b) => out := buffer + [TAG_BOOL, if b then 1 else 0];
      case Num(n) => out := buffer + [TAG_NUM] + ToBE(8, TotalOrder(n.AsF64()));
      case Str(s) =>
        out := AppendStr(s, buffer + [TAG_STR]);
      case _ => out := buffer + [TAG_NULL];
    }
  }

  method AppendDirected(v: Value, ascending: bool, buffer: bytes) returns (out: bytes)
    ensures out == buffer + EncodeDirected(v, ascending)
  {
    if ascending {
      out := AppendValue(v, buffer);
    } else {
      var asc := AppendValue(v, []);
      assert asc == Encode(v);
      out := buffer + Complement(asc);
    }
  }

  lemma EncodeFieldsStep(values: seq<Value>, directions: seq<bool>, i: nat, out: bytes)
    requires i < |values|
    ensures out + EncodeFields(values[i..], DropDirections(directions, i))
            == out + EncodeDirected(values[i], i < |directions| ==> directions[i])
               + EncodeFields(values[i + 1..], DropDirections(directions, i + 1))
  {
    var dirs := DropDirections(directions, i);
    assert values[i..][1..] == values[i + 1..];
    assert TailDirections(dirs) == DropDirections(directions, i + 1);
    Associative(out, EncodeDirected(values[i], HeadDirection(dirs)),
                EncodeFields(values[i + 1..], DropDirections(directions, i + 1)));
  }

  method AppendFields(values: seq<Value>, directions: seq<bool>) returns (out: bytes)
    ensures out == EncodeFields(values, directions)
  {
    out := [];
    for i := 0 to |values|
      invariant out + EncodeFields(values[i..], DropDirections(directions, i)) == EncodeFields(values, directions)
    {
      EncodeFieldsStep(values, directions, i, out);
      out := AppendDirected(values[i], i < |directions| ==> directions[i], out);
    }
    assert values[|values|..] == [];
  }

  // ---- Order theorems ----------------------------------------------------------

  /** What a comparison says about two encodings: equal, or diverging in that direction. */
  predicate Realises(o: Ordering, a: bytes, b: bytes) {
    match o
    case Lt => Below(a, b)
    case Eq => a == b
    case Gt => Below(b, a)
  }

  lemma RealisesExtends(o: Ordering, a: bytes, b: bytes, x: bytes, y: bytes)
    requires o != Eq && Realises(o, a, b)
    ensures Realises(o, a + x, b + y)
  {
    if o == Lt { BelowExtends(a, b, x, y); } else { BelowExtends(b, a, y, x); }
  }

  lemma RealisesPrepend(o: Ordering, p: bytes, a: bytes, b: bytes)
    requires Realises(o, a, b)
    ensures Realises(o, p + a, p + b)
  {
    BelowPrepend(p, a, b);
    BelowPrepend(p, b, a);
  }

  lemma RealisesComplement(o: Ordering, a: bytes, b: bytes)
    requires Realises(o, a, b)
    ensures Realises(o.Reverse(), Complement(a), Complement(b))
  {
    if o == Lt { ComplementReverses(a, b); }
    if o == Gt { ComplementReverses(b, a); }
  }

  lemma RealisesCompares(o: Ordering, a: bytes, b: bytes)
    requires Realises(o, a, b)
    ensures Less(a, b) <==> o == Lt
    ensures a == b <==> o == Eq
    ensures Leq(a, b) <==> o != Gt
    ensures o != Eq ==> !(a <= b) && !(b <= a)
  {
    assert a + [] == a && b + [] == b;
    match o {
      case Lt => BelowExtends(a, b, [], []); LessAsymmetric(a, b); BelowNotPrefix(a, b);
      case Eq => LessIrreflexive(a);
      case Gt => BelowExtends(b, a, [], []); LessAsymmetric(b, a); BelowNotPrefix(b, a);
    }
  }

  lemma MagnitudeCompares(p: nat, q: nat)
    ensures CmpInt(Magnitude(p), Magnitude(q)) == CmpInt(p, q)
    ensures p > 0 ==> Magnitude(p) > 0
  {
    if p < q { MagnitudeMonotone(p, q); }
    if q < p { MagnitudeMonotone(q, p); }
  }

  lemma SignedCompares(a: u64, b: u64, m: nat, n: nat)
    requires CmpInt(m, n) == CmpInt(Payload(a), Payload(b))
    requires m == 0 <==> Payload(a) == 0
    requires n == 0 <==> Payload(b) == 0
    ensures var x: int := if Negative(a) then 0 - m else m;
            var y: int := if Negative(b) then 0 - n else n;
            var c: int := if Negative(a) then U64 - 1 - a else a + U63;
            var d: int := if Negative(b) then U64 - 1 - b else b + U63;
            CmpInt(c, d) == if x != y then CmpInt(x, y) else if a == b then Eq
                            else if Negative(a) then Lt else Gt
  {
    assert Payload(a) == if Negative(a) then a - U63 else a;
    assert Payload(b) == if Negative(b) then b - U63 else b;
  }

  /** The bit transform turns numeric order into unsigned order. */
  lemma F64Order(a: F64, b: F64)
    ensures CmpF64(a, b) == CmpInt(TotalOrder(a), TotalOrder(b))
  {
    var p, q := Payload(a), Payload(b);
    MagnitudeCompares(p, q);
    MagnitudeCompares(0, p);
    MagnitudeCompares(0, q);
    SignedCompares(a, b, Magnitude(p), Magnitude(q));
  }

  function EscapeByte(c: byte): bytes {
    if c == 0 then [0, 255] else [c]
  }

  lemma EncodeStrCons(s: bytes)
    requires s != []
    ensures EncodeStr(s) == EscapeByte(s[0]) + EncodeStr(s[1..])
  {
    Associative(EscapeByte(s[0]), Escape(s[1..]), [0, 0]);
  }

  lemma {:induction false} StrOrder(a: bytes, b: bytes)
    requires Less(a, b)
    ensures Below(EncodeStr(a), EncodeStr(b))
  {
    EncodeStrCons(b);
    if a == [] {
      assert Below([0, 0], EscapeByte(b[0]));
      BelowExtends([0, 0], EscapeByte(b[0]), [], EncodeStr(b[1..]));
      assert EncodeStr(a) == [0, 0] + [];
    } else {
      EncodeStrCons(a);
      if a[0] == b[0] {
        StrOrder(a[1..], b[1..]);
        BelowPrepend(EscapeByte(a[0]), EncodeStr(a[1..]), EncodeStr(b[1..]));
      } else {
        BelowExtends(EscapeByte(a[0]), EscapeByte(b[0]), EncodeStr(a[1..]), EncodeStr(b[1..]));
      }
    }
  }

  /** Encodings of scalars are equal exactly when the values are, and otherwise diverge in the
      logical order: the encoding is order-preserving and prefix-free. */
  lemma ScalarOrder(a: Value, b: Value)
    ensures Realises(CmpValues(a, b), Encode(a), Encode(b))
  {
    if Rank(a) == Rank(b) {
      match a {
        case Bool(x) =>
          assert Encode(a)[1..] == [if x then 1 else 0];
          assert Encode(b)[1..] == [if b.b then 1 else 0];
        case Num(x) =>
          var c, d := TotalOrder(x.AsF64()), TotalOrder(b.n.AsF64());
          F64Order(x.AsF64(), b.n.AsF64());
          Spans();
          if c < d { BEOrder(8, c, d); }
          if d < c { BEOrder(8, d, c); }
          RealisesPrepend(CmpInt(c, d), [TAG_NUM], ToBE(8, c), ToBE(8, d));
        case Str(x) =>
          LessTotal(x, b.s);
          if Less(x, b.s) { StrOrder(x, b.s); }
          if Less(b.s, x) { StrOrder(b.s, x); }
          RealisesPrepend(CmpBytes(x, b.s), [TAG_STR], EncodeStr(x), EncodeStr(b.s));
        case _ =>
      }
    }
  }

  lemma DirectedOrder(a: Value, b: Value, ascending: bool)
    ensures var o := CmpValues(a, b);
            Realises(if ascending then o else o.Reverse(),
                     EncodeDirected(a, ascending), EncodeDirected(b, ascending))
  {
    ScalarOrder(a, b);
    RealisesComplement(CmpValues(a, b), Encode(a), Encode(b));
  }

  /** Lexicographic over fields, each in its own direction. */
  function CmpFields(us: seq<Value>, vs: seq<Value>, directions: seq<bool>): Ordering
    requires |us| == |vs|
  {
    if us == [] then Eq
    else
      var o := CmpValues(us[0], vs[0]);
      if o != Eq then (if HeadDirection(directions) then o else o.Reverse())
      else CmpFields(us[1..], vs[1..], TailDirections(directions))
  }

  lemma {:induction false} FieldsOrder(us: seq<Value>, vs: seq<Value>, directions: seq<bool>)
    requires |us| == |vs|
    ensures Realises(CmpFields(us, vs, directions),
                     EncodeFields(us, directions), EncodeFields(vs, directions))
  {
    if us != [] {
      var asc, rest := HeadDirection(directions), TailDirections(directions);
      var a, b := EncodeDirected(us[0], asc), EncodeDirected(vs[0], asc);
      var x, y := EncodeFields(us[1..], rest), EncodeFields(vs[1..], rest);
      DirectedOrder(us[0], vs[0], asc);
      var o := CmpValues(us[0], vs[0]);
      if o == Eq {
        FieldsOrder(us[1..], vs[1..], rest);
        RealisesPrepend(CmpFields(us[1..], vs[1..], rest), a, x, y);
      } else {
        RealisesExtends(if asc then o else o.Reverse(), a, b, x, y);
      }
    }
  }

  /** Index keys sort by fields first, then by document id, whatever prefix they share. */
  lemma IndexKeyOrder(prefix: bytes, us: seq<Value>, vs: seq<Value>, directions: seq<bool>, id: bytes, id': bytes)
    requires |us| == |vs|
    ensures Less(prefix + EncodeFields(us, directions) + id, prefix + EncodeFields(vs, directions) + id')
            <==> var o := CmpFields(us, vs, directions); o == Lt || (o == Eq && Less(id, id'))
  {
    var a, b := EncodeFields(us, directions), EncodeFields(vs, directions);
    var o := CmpFields(us, vs, directions);
    FieldsOrder(us, vs, directions);
    assert prefix + a + id == prefix + (a + id) && prefix + b + id' == prefix + (b + id');
    LessPrepend(prefix, a + id, b + id');
    if o == Eq {
      LessPrepend(a, id, id');
    } else {
      RealisesExtends(o, a, b, id, id');
      RealisesCompares(o, a + id, b + id');
    }
  }

  /** The boundary between encoded fields and document id is recoverable. */
  lemma FieldsPrefixFree(us: seq<Value>, vs: seq<Value>, directions: seq<bool>, id: bytes, id': bytes)
    requires |us| == |vs|
    requires EncodeFields(us, directions) + id == EncodeFields(vs, directions) + id'
    ensures EncodeFields(us, directions) == EncodeFields(vs, directions) && id == id'
    ensures CmpFields(us, vs, directions) == Eq
  {
    var a, b := EncodeFields(us, directions), EncodeFields(vs, directions);
    var o := CmpFields(us, vs, directions);
    FieldsOrder(us, vs, directions);
    if o != Eq {
      RealisesExtends(o, a, b, id, id');
      RealisesCompares(o, a + id, b + id');
    }
    assert id == (a + id)[|a|..] && id' == (b + id')[|b|..];
  }

  /** The encoding contract as documented: byte order is logical order, both ways, and no
      encoding is a proper prefix of another. */
  lemma EncodingContract(a: Value, b: Value)
    ensures Leq(Encode(a), Encode(b)) <==> CmpValues(a, b) != Gt
    ensures Encode(a) == Encode(b) <==> CmpValues(a, b) == Eq
    ensures Encode(a) != Encode(b) ==> !(Encode(a) <= Encode(b))
  {
    ScalarOrder(a, b);
    RealisesCompares(CmpValues(a, b), Encode(a), Encode(b));
  }

  /** Two doubles denote the same number only when identical or both zero. */
  lemma EqualNumeric(a: F64, b: F64)
    requires Numeric(a) == Numeric(b)
    ensures a == b || (Payload(a) == 0 && Payload(b) == 0)
  {
    hide Magnitude;
    var p, q := Payload(a), Payload(b);
    MagnitudeCompares(p, q);
    MagnitudeCompares(0, p);
    MagnitudeCompares(0, q);
  }

  lemma MonotoneCompares(a: F64, b: F64)
    requires Numeric(a) <= Numeric(b) && a != NEGATIVE_ZERO && b != NEGATIVE_ZERO
    ensures CmpF64(a, b) != Gt
  {
    if Numeric(a) == Numeric(b) {
      EqualNumeric(a, b);
    }
  }

  /** An index on integers never misorders two of them, even past 2^53 where they may tie. */
  lemma IntegerOrder(i: i64, j: i64)
    requires i <= j
    ensures Leq(Encode(Num(Int(i))), Encode(Num(Int(j))))
  {
    IntToF64Monotone(i, j);
    MonotoneCompares(IntToF64(i), IntToF64(j));
    EncodingContract(Num(Int(i)), Num(Int(j)));
  }

  // ---- Concatenation -----------------------------------------------------------

  function DropDirections(directions: seq<bool>, n: nat): seq<bool> {
    if n <= |directions| then directions[n..] else []
  }

  lemma {:induction false} EncodeFieldsConcat(us: seq<Value>, vs: seq<Value>, directions: seq<bool>)
    ensures EncodeFields(us + vs, directions)
            == EncodeFields(us, directions) + EncodeFields(vs, DropDirections(directions, |us|))
  {
    if us == [] {
      assert us + vs == vs;
    } else {
      var rest := TailDirections(directions);
      TailOfConcat(us, vs);
      EncodeFieldsConcat(us[1..], vs, rest);
      assert DropDirections(rest, |us| - 1) == DropDirections(directions, |us|);
      Associative(EncodeDirected(us[0], HeadDirection(directions)), EncodeFields(us[1..], rest),
                  EncodeFields(vs, DropDirections(directions, |us|)));
    }
  }

  lemma {:induction false} CmpFieldsConcat(us: seq<Value>, vs: seq<Value>, xs: seq<Value>, ys: seq<Value>, directions: seq<bool>)
    requires |us| == |vs| && |xs| == |ys|
    ensures CmpFields(us + xs, vs + ys, directions)
            == if CmpFields(us, vs, directions) != Eq then CmpFields(us, vs, directions)
               else CmpFields(xs, ys, DropDirections(directions, |us|))
  {
    if us == [] {
      assert us + xs == xs && vs + ys == ys;
    } else {
      CmpFieldsConcat(us[1..], vs[1..], xs, ys, TailDirections(directions));
      assert DropDirections(TailDirections(directions), |us| - 1) == DropDirections(directions, |us|);
      assert (us + xs)[1..] == us[1..] + xs && (vs + ys)[1..] == vs[1..] + ys;
    }
  }
}
