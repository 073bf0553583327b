/** Parsed JSON values as the document layer sees them, with doubles kept as bit patterns. */
module Values {
  import opened Bytes
  import opened Words

  const U52: nat := 0x10_0000_0000_0000
  const U53: nat := 0x20_0000_0000_0000

  // ---- Doubles -----------------------------------------------------------------

  /** The low 63 bits of a double: biased exponent above a 52-bit fraction. */
  function Payload(bits: u64): nat {
    bits % U63
  }

  predicate Negative(bits: u64) {
    bits >= U63
  }

  predicate Finite(bits: u64) {
    Payload(bits) / U52 < 2047
  }

  type F64 = b: u64 | Finite(b)

  const ZERO: F64 := 0
  const NEGATIVE_ZERO: F64 := U63

  function Pow2(n: nat): (p: nat)
    ensures p > 0
  {
    if n == 0 then 1 else 2 * Pow2(n - 1)
  }

  lemma {:induction false} Pow2Monotone(m: nat, n: nat)
    requires m <= n
    ensures Pow2(m) <= Pow2(n)
  {
    if m < n {
      Pow2Monotone(m, n - 1);
    }
  }

  /** Absolute value of a finite double in units of 2^-1074, the least subnormal. */
  function Magnitude(payload: nat): nat {
    if payload < U52 then payload
    else (U52 + payload % U52) * Pow2(payload / U52 - 1)
  }

  /** The number a finite double denotes, in units of 2^-1074. */
  function Numeric(f: F64): int {
    var m: int := Magnitude(Payload(f));
    if Negative(f) then -m else m
  }

  lemma MulMonotone(a: nat, b: nat, c: nat)
    ensures a <= b ==> a * c <= b * c
    ensures a < b && c > 0 ==> a * c < b * c
  {
  }

  lemma MagnitudeNormal(p: nat)
    requires p >= U52
    ensures Magnitude(p) == (U52 + p % U52) * Pow2(p / U52 - 1) && Pow2(p / U52) == 2 * Pow2(p / U52 - 1)
  {
  }

  lemma MagnitudeAbove(p: nat)
    ensures Magnitude(p) < U52 * Pow2(p / U52)
  {
    if p >= U52 {
      hide Magnitude, Pow2;
      var unit := Pow2(p / U52 - 1);
      MagnitudeNormal(p);
      MulMonotone(U52 + p % U52, 2 * U52, unit);
      Doubled(U52, unit);
    }
  }

  lemma Doubled(a: nat, c: nat)
    ensures (2 * a) * c == a * (2 * c)
  {
  }

  lemma MagnitudeAtLeast(q: nat)
    requires q >= U52
    ensures U52 * Pow2(q / U52 - 1) <= Magnitude(q)
  {
    hide Magnitude, Pow2;
    MagnitudeNormal(q);
    MulMonotone(U52, U52 + q % U52, Pow2(q / U52 - 1));
  }

  lemma Commuted(a: nat, b: nat, c: nat)
    requires a <= b
    ensures c * a <= c * b
  {
    MulMonotone(a, b, c);
  }

  /** A larger payload is a larger magnitude: IEEE 754 orders like its bits. */
  lemma MagnitudeMonotone(p: nat, q: nat)
    requires p < q
    ensures Magnitude(p) < Magnitude(q)
  {
    var e, g := p / U52, q / U52;
    if e < g {
      hide Magnitude, Pow2;
      MagnitudeAbove(p);
      Pow2Monotone(e, g - 1);
      Commuted(Pow2(e), Pow2(g - 1), U52);
      MagnitudeAtLeast(q);
    } else if e > 0 {
      hide Magnitude, Pow2;
      MagnitudeNormal(p);
      MagnitudeNormal(q);
      MulMonotone(U52 + p % U52, U52 + q % U52, Pow2(e - 1));
    }
  }

  lemma MagnitudeLeq(p: nat, q: nat)
    requires p <= q
    ensures Magnitude(p) <= Magnitude(q)
  {
    if p < q {
      MagnitudeMonotone(p, q);
    }
  }

  // ---- Integers as doubles -----------------------------------------------------

  function BitLength(n: nat): nat {
    if n == 0 then 0 else 1 + BitLength(n / 2)
  }

  lemma {:induction false} BitLengthBounds(n: nat)
    requires n > 0
    ensures BitLength(n) > 0
    ensures Pow2(BitLength(n) - 1) <= n < Pow2(BitLength(n))
  {
    if n > 1 {
      BitLengthBounds(n / 2);
    }
  }

  lemma {:induction false} Pow2Add(m: nat, n: nat)
    ensures Pow2(m + n) == Pow2(m) * Pow2(n)
  {
    if m > 0 {
      Pow2Add(m - 1, n);
    }
  }

  /** Significand of a positive integer at bit length `BitLength(n)`, rounded to nearest with
      ties to even; a carry out of 53 bits is `U53`. */
  function Significand(n: nat): nat
    requires n > 0
  {
    var len := BitLength(n);
    if len <= 53 then n * Pow2(53 - len)
    else
      Rounded(n, Pow2(len - 53))
  }

  lemma QuotientBounds(n: nat, d: nat, lo: nat, hi: nat)
    requires d > 0 && lo * d <= n < hi * d
    ensures lo <= n / d < hi
  {
    MulMonotone(n / d + 1, lo, d);
    MulMonotone(hi, n / d, d);
    assert n == (n / d) * d + n % d;
  }

  lemma QuotientMonotone(m: nat, n: nat, d: nat)
    requires m <= n && d > 0
    ensures m / d <= n / d
  {
    MulMonotone(n / d + 1, m / d, d);
    assert m == (m / d) * d + m % d && n == (n / d) * d + n % d;
  }

  lemma Pow2Literals()
    ensures Pow2(52) == U52 && Pow2(53) == U53 && Pow2(64) == U64
  {
    SmallPowers();
    hide Pow2;
    Pow2Add(13, 13);
    Pow2Add(26, 26);
    Pow2Add(52, 1);
    Pow2Add(52, 12);
  }

  lemma SmallPowers()
    ensures Pow2(1) == 2 && Pow2(12) == 0x1000 && Pow2(13) == 0x2000
  {
    assert Pow2(4) == 16;
    assert Pow2(8) == 256;
  }

  lemma SignificandSmall(n: nat, len: nat)
    requires 0 < len <= 53 && Pow2(len - 1) <= n < Pow2(len)
    ensures U52 <= n * Pow2(53 - len) <= U53
  {
    Pow2Literals();
    Pow2Add(len, 53 - len);
    Pow2Add(len - 1, 53 - len);
    MulMonotone(Pow2(len - 1), n, Pow2(53 - len));
    MulMonotone(n, Pow2(len), Pow2(53 - len));
  }

  lemma SignificandLarge(n: nat, len: nat)
    requires len > 53 && Pow2(len - 1) <= n < Pow2(len)
    ensures U52 <= n / Pow2(len - 53) < U53
  {
    Pow2Literals();
    Pow2Add(53, len - 53);
    Pow2Add(52, len - 53);
    QuotientBounds(n, Pow2(len - 53), U52, U53);
  }

  lemma SignificandBounds(n: nat)
    requires n > 0
    ensures U52 <= Significand(n) <= U53
  {
    hide Pow2, BitLength;
    BitLengthBounds(n);
    var len := BitLength(n);
    if len <= 53 {
      SignificandSmall(n, len);
    } else {
      SignificandLarge(n, len);
    }
  }

  /** `i as f64` for a non-negative integer, as a payload. */
  function IntPayload(n: nat): nat
    requires n <= U63
  {
    if n == 0 then 0
    else
      SignificandBounds(n);
      (1022 + BitLength(n)) * U52 + (Significand(n) - U52)
  }

  lemma {:induction false} BitLengthMonotone(m: nat, n: nat)
    requires m <= n
    ensures BitLength(m) <= BitLength(n)
  {
    if m > 0 {
      BitLengthMonotone(m / 2, n / 2);
    }
  }

  /** Rounding to nearest even at a fixed unit is monotone. */
  function Rounded(n: nat, unit: nat): nat
    requires unit > 0
  {
    var q, r := n / unit, n % unit;
    if 2 * r > unit || (2 * r == unit && q % 2 == 1) then q + 1 else q
  }

  lemma RoundedMonotone(m: nat, n: nat, unit: nat)
    requires m <= n && unit > 0
    ensures Rounded(m, unit) <= Rounded(n, unit)
  {
    QuotientMonotone(m, n, unit);
    assert m == (m / unit) * unit + m % unit && n == (n / unit) * unit + n % unit;
    if m / unit == n / unit {
      assert (m / unit) * unit == (n / unit) * unit;
    }
  }

  /** Rounding never inverts two integers. */
  lemma IntPayloadMonotone(m: nat, n: nat)
    requires m <= n <= U63
    ensures IntPayload(m) <= IntPayload(n)
  {
    hide Pow2, BitLength, Rounded;
    if m > 0 {
      BitLengthMonotone(m, n);
      SignificandBounds(m);
      SignificandBounds(n);
      var len := BitLength(m);
      if len < BitLength(n) {
        MulMonotone(1023 + len, 1022 + BitLength(n), U52);
      } else if len <= 53 {
        MulMonotone(m, n, Pow2(53 - len));
      } else {
        RoundedMonotone(m, n, Pow2(len - 53));
      }
    }
  }

  lemma BitLengthOfI64(n: nat)
    requires 0 < n <= U63
    ensures 0 < BitLength(n) <= 64
  {
    BitLengthBounds(n);
    Pow2Literals();
    if BitLength(n) > 64 {
      Pow2Monotone(64, BitLength(n) - 1);
    }
  }

  lemma IntPayloadFinite(n: nat)
    requires n <= U63
    ensures IntPayload(n) / U52 < 2047 && IntPayload(n) < U63
    ensures IntPayload(n) == 0 <==> n == 0
  {
    if n > 0 {
      SignificandBounds(n);
      BitLengthOfI64(n);
    }
  }

  type i64 = i: int | -0x8000_0000_0000_0000 <= i < 0x8000_0000_0000_0000

  function Abs(i: i64): nat {
    var n: int := i;
    if n < 0 then -n else n
  }

  function IntToF64(i: i64): (f: F64)
    ensures f != NEGATIVE_ZERO
  {
    IntPayloadFinite(Abs(i));
    Signed(i, IntPayload(Abs(i)))
  }

  /** The payload with the sign of the integer. */
  function Signed(i: int, payload: nat): (f: F64)
    requires payload / U52 < 2047 && payload < U63 && (i < 0 ==> payload != 0)
    ensures f != NEGATIVE_ZERO && Payload(f) == payload && (Negative(f) <==> i < 0)
  {
    if i < 0 then U63 + payload else payload
  }

  lemma NumericOfInt(i: i64)
    ensures var m: int := Magnitude(IntPayload(Abs(i)));
            Numeric(IntToF64(i)) == if i < 0 then -m else m
  {
    hide Magnitude, IntPayload;
    IntPayloadFinite(Abs(i));
  }

  /** Converting to a double never inverts two integers (it may equate them above 2^53). */
  lemma IntToF64Monotone(i: i64, j: i64)
    requires i <= j
    ensures Numeric(IntToF64(i)) <= Numeric(IntToF64(j))
  {
    NumericOfInt(i);
    NumericOfInt(j);
    if i >= 0 {
      IntPayloadMonotone(Abs(i), Abs(j));
      MagnitudeLeq(IntPayload(Abs(i)), IntPayload(Abs(j)));
    } else if j < 0 {
      IntPayloadMonotone(Abs(j), Abs(i));
      MagnitudeLeq(IntPayload(Abs(j)), IntPayload(Abs(i)));
    }
  }

  // ---- The number converted ----------------------------------------------------

  /** A normal payload denotes its significand at its exponent, carry included. */
  lemma PayloadMagnitude(e: nat, sig: nat)
    requires e > 0 && U52 <= sig <= U53
    ensures Magnitude(e * U52 + (sig - U52)) == sig * Pow2(e - 1)
  {
    var p := e * U52 + (sig - U52);
    MagnitudeNormal(p);
    if sig == U53 {
      assert p == (e + 1) * U52;
      assert Pow2(e) == 2 * Pow2(e - 1);
      Doubled(U52, Pow2(e - 1));
    } else {
      assert p / U52 == e && p % U52 == sig - U52;
    }
  }

  /** The unit in the last place of an integer's double. */
  function Unit(n: nat): nat {
    if BitLength(n) <= 53 then 1 else Pow2(BitLength(n) - 53)
  }

  lemma Regroup(a: nat, b: nat, c: nat)
    ensures a * b * c == a * (b * c)
  {
  }

  /** The double of a positive integer is its rounding to a multiple of its unit. */
  lemma IntMagnitude(n: nat)
    requires 0 < n <= U63
    ensures Magnitude(IntPayload(n)) == (if BitLength(n) <= 53 then n else Rounded(n, Unit(n)) * Unit(n)) * Pow2(1074)
  {
    hide Pow2, Magnitude, BitLength, Rounded;
    var len := BitLength(n);
    BitLengthBounds(n);
    SignificandBounds(n);
    PayloadMagnitude(1022 + len, Significand(n));
    SignificandScaled(n, len);
  }

  lemma SignificandScaled(n: nat, len: nat)
    requires n > 0 && len == BitLength(n) > 0
    ensures Significand(n) * Pow2(1021 + len) == (if len <= 53 then n else Rounded(n, Unit(n)) * Unit(n)) * Pow2(1074)
  {
    hide Pow2, BitLength, Rounded;
    if len <= 53 {
      Pow2Add(53 - len, 1021 + len);
      Regroup(n, Pow2(53 - len), Pow2(1021 + len));
    } else {
      Pow2Add(len - 53, 1074);
      Regroup(Rounded(n, Unit(n)), Unit(n), Pow2(1074));
    }
  }

  lemma RoundedNear(n: nat, unit: nat)
    requires unit > 0
    ensures 0 - unit <= 2 * (Rounded(n, unit) * unit - n) <= unit
    ensures n % unit == 0 ==> Rounded(n, unit) * unit == n
  {
    var q, r := n / unit, n % unit;
    assert n == q * unit + r;
    assert (q + 1) * unit == q * unit + unit;
  }

  lemma ScaledNear(x: int, n: nat, unit: nat, c: nat)
    requires 0 - unit <= 2 * (x - n) <= unit
    ensures 0 - unit * c <= 2 * (x * c - n * c) <= unit * c
  {
    assert x * c - n * c == (x - n) * c;
    var d := 2 * (x - n);
    assert d * c <= unit * c && 0 - unit * c <= d * c by {
      if d >= 0 {
        MulMonotone(d, unit, c);
      } else {
        MulMonotone(-d, unit, c);
      }
    }
  }

  lemma SmallUnit(n: nat)
    requires 0 < n <= U53
    ensures n % Unit(n) == 0
  {
    BitLengthBounds(n);
    Pow2Literals();
    assert Pow2(54) == 2 * Pow2(53) && Pow2(1) == 2;
    if BitLength(n) > 54 {
      Pow2Monotone(54, BitLength(n) - 1);
    }
    if BitLength(n) > 53 {
      Pow2Monotone(53, BitLength(n) - 1);
    }
  }

  lemma MagnitudeNear(n: nat, m: nat)
    requires 0 < n <= U63 && m == Magnitude(IntPayload(n))
    ensures 0 - Unit(n) * Pow2(1074) <= 2 * (m - n * Pow2(1074)) <= Unit(n) * Pow2(1074)
    ensures n <= U53 ==> m == n * Pow2(1074)
  {
    hide Pow2, Magnitude, IntPayload, BitLength, Rounded;
    IntMagnitude(n);
    var unit: nat := Unit(n);
    var x: nat := if BitLength(n) <= 53 then n else Rounded(n, unit) * unit;
    UnitPositive(n);
    RoundedNear(n, unit);
    if n <= U53 {
      SmallUnit(n);
    }
    hide Unit;
    ScaledNear(x, n, unit, Pow2(1074));
  }

  /** Conversion is exact up to 2^53 and otherwise to within half a unit, in units of 2^-1074. */
  lemma IntToF64Nearest(i: i64)
    ensures 0 - Unit(Abs(i)) * Pow2(1074) <= 2 * (Numeric(IntToF64(i)) - i * Pow2(1074)) <= Unit(Abs(i)) * Pow2(1074)
    ensures Abs(i) <= U53 ==> Numeric(IntToF64(i)) == i * Pow2(1074)
  {
    hide Pow2, Magnitude, IntPayload, Unit, Numeric, IntToF64;
    NumericOfInt(i);
    ZeroMagnitude();
    if i != 0 {
      var n := Abs(i);
      MagnitudeNear(n, Magnitude(IntPayload(n)));
      Negated(n, Pow2(1074));
    }
  }

  lemma ZeroMagnitude()
    ensures Magnitude(IntPayload(0)) == 0
  {
  }

  lemma UnitPositive(n: nat)
    ensures Unit(n) > 0
  {
  }

  lemma Negated(a: int, c: int)
    ensures (-a) * c == -(a * c)
  {
  }

  // ---- Values ------------------------------------------------------------------

  datatype Number = Int(i: i64) | Float(f: F64) {
    function AsF64(): F64 {
      match this
      case Int(i) => IntToF64(i)
      case Float(f) => f
    }
  }

  /** Strings are their UTF-8 bytes. Object members are held in key order, which is how the
      source's ordered map iterates. */
  datatype Value =
    | Null
    | Bool(b: bool)
    | Num(n: Number)
    | Str(s: bytes)
    | Arr(items: seq<Value>)
    | Obj(members: seq<Member>)
  {
    predicate Scalar() {
      !Arr? && !Obj?
    }
  }

  datatype Member = Member(key: bytes, val: Value)

  /** A dotted path after splitting on '.'. */
  type Path = seq<bytes>

  function Lookup(members: seq<Member>, key: bytes): Option<Value> {
    if members == [] then None
    else if members[0].key == key then Some(members[0].val)
    else Lookup(members[1..], key)
  }

  /** The value at a path, or `None` when a segment is missing or not an object. */
  function GetPath(v: Value, path: Path): Option<Value>
    decreases |path|
  {
    if path == [] then Some(v)
    else
      match v
      case Obj(members) =>
        (match Lookup(members, path[0])
         case Some(child) => GetPath(child, path[1..])
         case None => None)
      case _ => None
  }

  /** The value an index stores for a path: missing reads as null. */
  function ExtractPath(v: Value, path: Path): Value {
    match GetPath(v, path)
    case Some(w) => w
    case None => Null
  }
}
