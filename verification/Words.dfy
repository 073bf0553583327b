/** Fixed-width unsigned words: big-endian (keys, cursors) and little-endian (document bodies). */
module Words {
  import opened Bytes

  const U32: nat := 0x1_0000_0000
  const U63: nat := 0x8000_0000_0000_0000
  const U64: nat := 0x1_0000_0000_0000_0000

  type u64 = x: int | 0 <= x < U64

  /** The exclusive bound of an `n`-byte word. */
  function Span(n: nat): (s: nat)
    ensures s > 0
  {
    if n == 0 then 1 else 256 * Span(n - 1)
  }

  lemma Spans()
    ensures Span(4) == U32 && Span(8) == U64
  {
    assert Span(2) == 0x1_0000;
    assert Span(4) == 0x1_0000_0000;
    assert Span(6) == 0x1_0000_0000_0000;
  }

  function ToBE(n: nat, x: nat): (r: bytes)
    ensures |r| == n
  {
    if n == 0 then [] else ToBE(n - 1, x / 256) + [x % 256]
  }

  function FromBE(s: bytes): nat {
    if s == [] then 0 else 256 * FromBE(s[..|s| - 1]) + s[|s| - 1]
  }

  function ToLE(n: nat, x: nat): (r: bytes)
    ensures |r| == n
  {
    if n == 0 then [] else [x % 256] + ToLE(n - 1, x / 256)
  }

  function FromLE(s: bytes): nat {
    if s == [] then 0 else s[0] + 256 * FromLE(s[1..])
  }

  lemma {:induction false} BERoundTrip(n: nat, x: nat)
    requires x < Span(n)
    ensures FromBE(ToBE(n, x)) == x
  {
    if n > 0 {
      BERoundTrip(n - 1, x / 256);
      assert ToBE(n, x)[..n - 1] == ToBE(n - 1, x / 256);
    }
  }

  lemma {:induction false} LERoundTrip(n: nat, x: nat)
    requires x < Span(n)
    ensures FromLE(ToLE(n, x)) == x
  {
    if n > 0 {
      LERoundTrip(n - 1, x / 256);
      assert ToLE(n, x)[1..] == ToLE(n - 1, x / 256);
    }
  }

  lemma {:induction false} FromLEBound(s: bytes)
    ensures FromLE(s) < Span(|s|)
  {
    if s != [] {
      FromLEBound(s[1..]);
    }
  }

  /** Big-endian bytes order as the words do, and differ inside the word. */
  lemma {:induction false} BEOrder(n: nat, x: nat, y: nat)
    requires x < y < Span(n)
    ensures Below(ToBE(n, x), ToBE(n, y))
  {
    if x / 256 < y / 256 {
      BEOrder(n - 1, x / 256, y / 256);
      BelowExtends(ToBE(n - 1, x / 256), ToBE(n - 1, y / 256), [x % 256], [y % 256]);
    } else {
      BelowPrepend(ToBE(n - 1, x / 256), [x % 256], [y % 256]);
    }
  }
}
