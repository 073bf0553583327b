/** Byte strings under the slice order every key comparison in the store uses, and the
    exclusive upper bound of a prefix scan. */
module Bytes {
  type byte = b: int | 0 <= b < 256
  type bytes = seq<byte>

  datatype Option<+T> = None | Some(value: T)

  /** Lexicographic order on byte slices. */
  predicate Less(a: bytes, b: bytes) {
    b != [] && (a == [] || a[0] < b[0] || (a[0] == b[0] && Less(a[1..], b[1..])))
  }

  predicate Leq(a: bytes, b: bytes) {
    !Less(b, a)
  }

  /** `a` and `b` differ at a position both have, and `a` is smaller at the first such
      position. Unlike `Less` this survives appending anything to either side. */
  predicate Below(a: bytes, b: bytes) {
    a != [] && b != [] && (a[0] < b[0] || (a[0] == b[0] && Below(a[1..], b[1..])))
  }

  lemma TailOfConcat<T>(a: seq<T>, b: seq<T>)
    requires a != []
    ensures (a + b)[1..] == a[1..] + b && (a + b)[0] == a[0]
  {
  }

  lemma Associative<T>(a: seq<T>, b: seq<T>, c: seq<T>)
    ensures a + (b + c) == a + b + c
  {
  }

  function Reversed<T(!new)>(s: seq<T>): (r: seq<T>)
    ensures |r| == |s|
    ensures forall i :: 0 <= i < |s| ==> r[i] == s[|s| - 1 - i]
    ensures forall x :: x in r <==> x in s
  {
    var r := seq(|s|, i requires 0 <= i < |s| => s[|s| - 1 - i]);
    assert forall i :: 0 <= i < |s| ==> s[i] == r[|s| - 1 - i];
    r
  }

  /** Half-open scan range; an empty `hi` means unbounded above. */
  predicate InRange(k: bytes, lo: bytes, hi: bytes) {
    Leq(lo, k) && (hi == [] || Less(k, hi))
  }

  // ---- The order is total ------------------------------------------------------

  lemma {:induction false} LessIrreflexive(a: bytes)
    ensures !Less(a, a)
  {
    if a != [] {
      LessIrreflexive(a[1..]);
    }
  }

  lemma {:induction false} LessTransitive(a: bytes, b: bytes, c: bytes)
    requires Less(a, b) && Less(b, c)
    ensures Less(a, c)
  {
    if a != [] && a[0] == b[0] == c[0] {
      LessTransitive(a[1..], b[1..], c[1..]);
    }
  }

  lemma {:induction false} LessTotal(a: bytes, b: bytes)
    ensures a == b || Less(a, b) || Less(b, a)
  {
    if a != [] && b != [] && a[0] == b[0] {
      LessTotal(a[1..], b[1..]);
      assert a == [a[0]] + a[1..] && b == [b[0]] + b[1..];
    }
  }

  lemma LessAsymmetric(a: bytes, b: bytes)
    requires Less(a, b)
    ensures !Less(b, a) && a != b
  {
    LessIrreflexive(a);
    if Less(b, a) {
      LessTransitive(a, b, a);
    }
  }

  lemma LeqLess(a: bytes, b: bytes, c: bytes)
    requires Leq(a, b) && Less(b, c)
    ensures Less(a, c)
  {
    LessTotal(a, b);
    if a != b {
      LessTransitive(a, b, c);
    }
  }

  lemma LessLeq(a: bytes, b: bytes, c: bytes)
    requires Less(a, b) && Leq(b, c)
    ensures Less(a, c)
  {
    LessTotal(b, c);
    if b != c {
      LessTransitive(a, b, c);
    }
  }

  lemma LeqTransitive(a: bytes, b: bytes, c: bytes)
    requires Leq(a, b) && Leq(b, c)
    ensures Leq(a, c)
  {
    if Less(c, a) {
      LessLeq(c, a, b);
    }
  }

  // ---- Divergence --------------------------------------------------------------

  lemma {:induction false} BelowExtends(a: bytes, b: bytes, x: bytes, y: bytes)
    requires Below(a, b)
    ensures Below(a + x, b + y) && Less(a + x, b + y)
  {
    if a[0] == b[0] {
      BelowExtends(a[1..], b[1..], x, y);
      assert (a + x)[1..] == a[1..] + x && (b + y)[1..] == b[1..] + y;
    }
  }

  lemma BelowDiffers(a: bytes, b: bytes, x: bytes, y: bytes)
    requires Below(a, b)
    ensures a + x != b + y
  {
    BelowExtends(a, b, x, y);
    LessIrreflexive(a + x);
  }

  lemma BelowNotPrefix(a: bytes, b: bytes)
    requires Below(a, b)
    ensures !(a <= b) && !(b <= a)
  {
    if a <= b {
      assert a + b[|a|..] == b + [];
      BelowDiffers(a, b, b[|a|..], []);
    }
    if b <= a {
      assert a + [] == b + a[|b|..];
      BelowDiffers(a, b, [], a[|b|..]);
    }
  }

  lemma {:induction false} BelowPrepend(p: bytes, a: bytes, b: bytes)
    ensures Below(p + a, p + b) <==> Below(a, b)
  {
    if p == [] {
      assert p + a == a && p + b == b;
    } else {
      BelowPrepend(p[1..], a, b);
      assert (p + a)[1..] == p[1..] + a && (p + b)[1..] == p[1..] + b;
    }
  }

  lemma {:induction false} LessPrepend(p: bytes, a: bytes, b: bytes)
    ensures Less(p + a, p + b) <==> Less(a, b)
  {
    if p == [] {
      assert p + a == a && p + b == b;
    } else {
      LessPrepend(p[1..], a, b);
      assert (p + a)[1..] == p[1..] + a && (p + b)[1..] == p[1..] + b;
    }
  }

  /** A proper prefix sorts first, so `k + [0]` is the immediate successor of `k`. */
  lemma {:induction false} SuccessorKey(k: bytes, x: bytes)
    ensures Leq(k + [0], x) <==> Less(k, x)
  {
    if k == [] {
      assert k + [0] == [0];
      if x != [] {
        assert !Less(x[1..], []);
      }
    } else if x != [] && x[0] == k[0] {
      SuccessorKey(k[1..], x[1..]);
      assert (k + [0])[1..] == k[1..] + [0];
    }
  }

  // ---- Complement --------------------------------------------------------------

  function Complement(a: bytes): (r: bytes)
    ensures |r| == |a|
    ensures forall i :: 0 <= i < |a| ==> r[i] == 255 - a[i]
  {
    seq(|a|, i requires 0 <= i < |a| => 255 - a[i])
  }

  /** Complementing every byte reverses the order of diverging strings. */
  lemma {:induction false} ComplementReverses(a: bytes, b: bytes)
    requires Below(a, b)
    ensures Below(Complement(b), Complement(a))
  {
    if a[0] == b[0] {
      ComplementReverses(a[1..], b[1..]);
      assert Complement(a)[1..] == Complement(a[1..]);
      assert Complement(b)[1..] == Complement(b[1..]);
    }
  }

  // ---- Prefix upper bound ------------------------------------------------------

  function UpperBound(p: bytes): bytes {
    if p == [] then []
    else
      var rest := UpperBound(p[1..]);
      if rest != [] then [p[0]] + rest
      else if p[0] == 255 then []
      else [p[0] + 1]
  }

  lemma {:induction false} UpperBoundSnoc(p: bytes, c: byte)
    ensures UpperBound(p + [c]) == if c == 255 then UpperBound(p) else p + [c + 1]
  {
    if p == [] {
      assert p + [c] == [c];
      assert [c][1..] == [];
    } else {
      UpperBoundSnoc(p[1..], c);
      assert (p + [c])[1..] == p[1..] + [c];
      assert p == [p[0]] + p[1..];
    }
  }

  /** Pops trailing 0xFF bytes and bumps the last remaining one. */
  method PrefixUpperBound(prefix: bytes) returns (out: bytes)
    ensures out == UpperBound(prefix)
    ensures forall k :: prefix <= k <==> InRange(k, prefix, out)
  {
    forall k ensures prefix <= k <==> InRange(k, prefix, UpperBound(prefix)) {
      PrefixRange(prefix, k);
    }
    out := prefix;
    while out != []
      invariant UpperBound(out) == UpperBound(prefix)
      decreases |out|
    {
      var last := out[|out| - 1];
      assert out == out[..|out| - 1] + [last];
      UpperBoundSnoc(out[..|out| - 1], last);
      if last == 255 {
        out := out[..|out| - 1];
      } else {
        out := out[..|out| - 1] + [last + 1];
        return;
      }
    }
  }

  /** A key has prefix `p` exactly when it lies in `[p, UpperBound(p))`. */
  lemma {:induction false} PrefixRange(p: bytes, k: bytes)
    ensures p <= k <==> InRange(k, p, UpperBound(p))
  {
    if p != [] && k != [] {
      PrefixRange(p[1..], k[1..]);
      assert p == [p[0]] + p[1..] && k == [k[0]] + k[1..];
      assert p <= k <==> p[0] == k[0] && p[1..] <= k[1..];
      var rest := UpperBound(p[1..]);
      if rest != [] {
        assert UpperBound(p)[1..] == rest;
      } else if p[0] < 255 {
        assert UpperBound(p) == [p[0] + 1] && !Less(k[1..], UpperBound(p)[1..]);
      }
    }
  }

  /** It is the least bound: nothing smaller is above every key with the prefix. */
  lemma UpperBoundLeast(p: bytes, u: bytes)
    requires UpperBound(p) != []
    requires forall k | p <= k :: Less(k, u)
    ensures Leq(UpperBound(p), u)
  {
    if Less(u, UpperBound(p)) {
      assert p <= p;
      LessAsymmetric(p, u);
      PrefixRange(p, u);
      assert Less(u, u);
      LessIrreflexive(u);
    }
  }

  /** Below the upper bound of `p`: before `p`, or extending it. */
  lemma UnderUpperBound(p: bytes, k: bytes)
    ensures UpperBound(p) == [] || Less(k, UpperBound(p)) <==> Less(k, p) || p <= k
  {
    PrefixRange(p, k);
    PrefixRange(p, p);
    if Less(k, p) && UpperBound(p) != [] {
      LessTransitive(k, p, UpperBound(p));
    }
  }

  lemma PrefixLeq(p: bytes, k: bytes)
    requires p <= k
    ensures Leq(p, k)
  {
    PrefixRange(p, k);
  }

  /** A scan whose bounds both start with `p` only meets keys that do. */
  lemma ScanStaysUnder(p: bytes, lo: bytes, q: bytes, k: bytes)
    requires p <= lo && p <= q && InRange(k, lo, UpperBound(q))
    ensures p <= k
  {
    PrefixLeq(p, lo);
    LeqTransitive(p, lo, k);
    UnderUpperBound(q, k);
    UnderUpperBound(p, q);
    UnderUpperBound(p, k);
    if Less(k, q) && UpperBound(p) != [] {
      LessTransitive(k, q, UpperBound(p));
    }
  }
}
