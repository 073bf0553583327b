/** The filter language: predicate trees evaluated against a document. */
module Filters {
  import opened Bytes
  import opened Values
  import opened Encoding

  datatype TypeName = StringType | NumberType | BoolType | NullType | ArrayType | ObjectType | BinaryType

  datatype Filter =
    | MatchAll
    | And(parts: seq<Filter>)
    | Or(parts: seq<Filter>)
    | Not(inner: Filter)
    | Field(pred: FieldPred)

  /** A conjunction of atoms on one path. */
  datatype FieldPred = FieldPred(path: Path, atoms: seq<Atom>)

  /** `Regex` carries the compiled pattern as the strings it accepts. */
  datatype Atom =
    | Equal(target: Value)
    | NotEqual(target: Value)
    | Greater(target: Value)
    | GreaterEqual(target: Value)
    | Smaller(target: Value)
    | SmallerEqual(target: Value)
    | OneOf(targets: seq<Value>)
    | NoneOf(targets: seq<Value>)
    | Exists(want: bool)
    | HasType(name: TypeName)
    | All(operands: seq<Value>)
    | ElemMatch(sub: Filter)
    | Regex(accepts: bytes -> bool)

  /** The virtual field whose value is the document id. */
  const ID_FIELD: Path := [[95, 105, 100]]  // "_id"

  // ---- Comparing a stored value with a literal ---------------------------------

  /** Scalars compare by type, then by value; doubles compare as numbers, so -0.0 equals 0.0.
      Containers compare with nothing. */
  function CmpScalar(a: Value, b: Value): Option<Ordering> {
    if !a.Scalar() || !b.Scalar() then None
    else if Rank(a) != Rank(b) then Some(CmpInt(Rank(a), Rank(b)))
    else
      match a
      case Bool(x) => Some(CmpInt(if x then 1 else 0, if b.b then 1 else 0))
      case Num(x) => Some(CmpInt(Numeric(x.AsF64()), Numeric(b.n.AsF64())))
      case Str(x) => Some(CmpBytes(x, b.s))
      case _ => Some(Eq)
  }

  predicate ValueEq(a: Value, b: Value)
    decreases a
  {
    if a.Arr? && b.Arr? then
      |a.items| == |b.items| && forall i :: 0 <= i < |a.items| ==> ValueEq(a.items[i], b.items[i])
    else if a.Obj? && b.Obj? then
      && |a.members| == |b.members|
      && forall i :: 0 <= i < |a.members| ==>
           var found := Lookup(b.members, a.members[i].key);
           found.Some? && ValueEq(a.members[i].val, found.value)
    else CmpScalar(a, b) == Some(Eq)
  }

  // ---- Evaluation --------------------------------------------------------------

  predicate EqMatch(field: Option<Value>, target: Value) {
    match field
    case Some(v) => ValueEq(v, target)
    case None => target == Null
  }

  predicate OrderMatch(field: Option<Value>, target: Value, accept: set<Ordering>) {
    field.Some? && CmpScalar(field.value, target).Some? && CmpScalar(field.value, target).value in accept
  }

  predicate InMatch(field: Option<Value>, targets: seq<Value>) {
    exists i :: 0 <= i < |targets| && EqMatch(field, targets[i])
  }

  predicate TypeMatch(field: Option<Value>, name: TypeName) {
    field.Some? &&
    match name
    case StringType => field.value.Str?
    case NumberType => field.value.Num?
    case BoolType => field.value.Bool?
    case NullType => field.value.Null?
    case ArrayType => field.value.Arr?
    case ObjectType => field.value.Obj?
    case BinaryType => false
  }

  predicate AtomMatches(atom: Atom, field: Option<Value>)
    decreases atom
  {
    match atom
    case Equal(t) => EqMatch(field, t)
    case NotEqual(t) => !EqMatch(field, t)
    case Greater(t) => OrderMatch(field, t, {Gt})
    case GreaterEqual(t) => OrderMatch(field, t, {Gt, Eq})
    case Smaller(t) => OrderMatch(field, t, {Lt})
    case SmallerEqual(t) => OrderMatch(field, t, {Lt, Eq})
    case OneOf(ts) => InMatch(field, ts)
    case NoneOf(ts) => !InMatch(field, ts)
    case Exists(want) => field.Some? == want
    case HasType(name) => TypeMatch(field, name)
    case All(ops) =>
      && field.Some? && field.value.Arr?
      && forall j :: 0 <= j < |ops| ==>
           exists i :: 0 <= i < |field.value.items| && ValueEq(field.value.items[i], ops[j])
    case ElemMatch(sub) =>
      && field.Some? && field.value.Arr?
      && exists i :: 0 <= i < |field.value.items| && Matches(sub, field.value.items[i], None)
    case Regex(accepts) => field.Some? && field.value.Str? && accepts(field.value.s)
  }

  predicate StrEq(id: bytes, target: Value) {
    target.Str? && target.s == id
  }

  predicate StrOrder(id: bytes, target: Value, accept: set<Ordering>) {
    target.Scalar() && (if target.Str? then CmpBytes(id, target.s) else Gt) in accept
  }

  /** The shortcut used for `_id`: match the id string without building a value. */
  predicate AtomMatchesStr(atom: Atom, id: bytes) {
    match atom
    case Equal(t) => StrEq(id, t)
    case NotEqual(t) => !StrEq(id, t)
    case Greater(t) => StrOrder(id, t, {Gt})
    case GreaterEqual(t) => StrOrder(id, t, {Gt, Eq})
    case Smaller(t) => StrOrder(id, t, {Lt})
    case SmallerEqual(t) => StrOrder(id, t, {Lt, Eq})
    case OneOf(ts) => exists i :: 0 <= i < |ts| && StrEq(id, ts[i])
    case NoneOf(ts) => !exists i :: 0 <= i < |ts| && StrEq(id, ts[i])
    case Exists(want) => want
    case HasType(name) => name == StringType
    case All(_) => false
    case ElemMatch(_) => false
    case Regex(accepts) => accepts(id)
  }

  predicate FieldMatches(pred: FieldPred, doc: Value, id: Option<bytes>)
    decreases pred
  {
    if pred.path == ID_FIELD && id.Some? then
      forall i :: 0 <= i < |pred.atoms| ==> AtomMatchesStr(pred.atoms[i], id.value)
    else
      forall i :: 0 <= i < |pred.atoms| ==> AtomMatches(pred.atoms[i], GetPath(doc, pred.path))
  }

  predicate Matches(filter: Filter, doc: Value, id: Option<bytes>)
    decreases filter
  {
    match filter
    case MatchAll => true
    case And(parts) => forall i :: 0 <= i < |parts| ==> Matches(parts[i], doc, id)
    case Or(parts) => exists i :: 0 <= i < |parts| && Matches(parts[i], doc, id)
    case Not(inner) => !Matches(inner, doc, id)
    case Field(pred) => FieldMatches(pred, doc, id)
  }

  /** What a predicate on `path` looks at: the id for `_id`, otherwise the body. */
  function FieldSeen(path: Path, doc: Value, id: bytes): Option<Value> {
    if path == ID_FIELD then Some(Str(id)) else GetPath(doc, path)
  }

  lemma StrEqAgrees(id: bytes, target: Value)
    ensures StrEq(id, target) <==> EqMatch(Some(Str(id)), target)
  {
    LessIrreflexive(id);
  }

  /** The id shortcut is the general evaluation on a string value, for every atom. */
  lemma IdShortcutAgrees(atom: Atom, id: bytes)
    ensures AtomMatchesStr(atom, id) <==> AtomMatches(atom, Some(Str(id)))
  {
    forall t ensures StrEq(id, t) <==> EqMatch(Some(Str(id)), t) {
      StrEqAgrees(id, t);
    }
  }

  // ---- Top-level conjuncts -----------------------------------------------------

  /** Field predicates every matching document must satisfy: a bare field, or those reached
      through nested conjunctions. */
  function TopLevel(filter: Filter): seq<FieldPred>
    decreases filter, 1
  {
    match filter
    case Field(pred) => [pred]
    case And(parts) => TopLevelParts(filter, parts)
    case _ => []
  }

  function TopLevelParts(ghost filter: Filter, parts: seq<Filter>): seq<FieldPred>
    requires forall i :: 0 <= i < |parts| ==> parts[i] < filter
    decreases filter, 0, |parts|
  {
    if parts == [] then []
    else TopLevel(parts[0]) + TopLevelParts(filter, parts[1..])
  }

  method CollectTopLevel(filter: Filter, start: seq<FieldPred>) returns (out: seq<FieldPred>)
    ensures out == start + TopLevel(filter)
    decreases filter
  {
    match filter {
      case Field(pred) => out := start + [pred];
      case And(parts) =>
        out := start;
        for i := 0 to |parts|
          invariant out + TopLevelParts(filter, parts[i..]) == start + TopLevel(filter)
        {
          assert parts[i..][1..] == parts[i + 1..];
          Associative(out, TopLevel(parts[i]), TopLevelParts(filter, parts[i + 1..]));
          out := CollectTopLevel(parts[i], out);
        }
      case _ => out := start;
    }
  }

  lemma {:induction false} TopLevelPartsHold(filter: Filter, parts: seq<Filter>, doc: Value, id: bytes)
    requires forall i :: 0 <= i < |parts| ==> parts[i] < filter
    requires forall i :: 0 <= i < |parts| ==> Matches(parts[i], doc, Some(id))
    ensures forall pred :: pred in TopLevelParts(filter, parts) ==> FieldMatches(pred, doc, Some(id))
    decreases filter, 0, |parts|
  {
    if parts != [] {
      TopLevelHolds(parts[0], doc, id);
      TopLevelPartsHold(filter, parts[1..], doc, id);
    }
  }

  /** A matching document satisfies every predicate the planner gets to see. */
  lemma {:induction false} TopLevelHolds(filter: Filter, doc: Value, id: bytes)
    requires Matches(filter, doc, Some(id))
    ensures forall pred :: pred in TopLevel(filter) ==> FieldMatches(pred, doc, Some(id))
    decreases filter, 1
  {
    if filter.And? {
      TopLevelPartsHold(filter, filter.parts, doc, id);
    }
  }

  // ---- The filter's order and the index order ----------------------------------

  predicate IsNegativeZero(v: Value) {
    v.Num? && v.n.AsF64() == NEGATIVE_ZERO
  }

  predicate IsPositiveZero(v: Value) {
    v.Num? && v.n.AsF64() == ZERO
  }

  /** -0.0 against 0.0: equal to the filter, apart in the index. */
  predicate OppositeZeros(a: Value, b: Value) {
    (IsNegativeZero(a) && IsPositiveZero(b)) || (IsPositiveZero(a) && IsNegativeZero(b))
  }

  lemma ZeroBits(f: F64)
    requires Payload(f) == 0
    ensures f == ZERO || f == NEGATIVE_ZERO
  {
  }

  /** The two orders on scalars differ on opposite zeros and nowhere else. */
  lemma OrdersAgree(a: Value, b: Value)
    requires a.Scalar() && b.Scalar()
    ensures CmpScalar(a, b) == Some(CmpValues(a, b)) <==> !OppositeZeros(a, b)
    ensures IsNegativeZero(a) && IsPositiveZero(b) ==> CmpScalar(a, b) == Some(Eq) && CmpValues(a, b) == Lt
    ensures IsPositiveZero(a) && IsNegativeZero(b) ==> CmpScalar(a, b) == Some(Eq) && CmpValues(a, b) == Gt
  {
    if a.Num? && b.Num? {
      var x, y := a.n.AsF64(), b.n.AsF64();
      assert Payload(ZERO) == 0 && Payload(NEGATIVE_ZERO) == 0;
      if Numeric(x) == Numeric(y) {
        EqualNumeric(x, y);
        if x != y {
          ZeroBits(x);
          ZeroBits(y);
        }
      }
    }
  }
}
