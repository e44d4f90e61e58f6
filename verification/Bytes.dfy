/** Byte strings: bytewise order, prefixes, and the fixed-width integer encodings used for keys and runs. */
module Bytes {

  type byte = x: int | 0 <= x < 256

  type Data = seq<byte>

  const TWO_64 := 0x1_0000_0000_0000_0000
  const MIN_INT64 := -0x8000_0000_0000_0000
  const MAX_INT64 := 0x7fff_ffff_ffff_ffff

  predicate IsInt64(n: int) { MIN_INT64 <= n <= MAX_INT64 }

  // ----- bytewise order ---------------------------------------------------------------------

  /** Unsigned lexicographic order, the order of every namespace and of every lock interval. */
  predicate Less(a: Data, b: Data) {
    if b == [] then false
    else if a == [] then true
    else a[0] < b[0] || (a[0] == b[0] && Less(a[1..], b[1..]))
  }

  predicate AtMost(a: Data, b: Data) { a == b || Less(a, b) }

  lemma {:induction false} LessIrreflexive(a: Data)
    ensures !Less(a, a)
  {
    if a != [] { LessIrreflexive(a[1..]); }
  }

  lemma {:induction false} LessTransitive(a: Data, b: Data, c: Data)
    requires Less(a, b) && Less(b, c)
    ensures Less(a, c)
  {
    if a != [] && a[0] == b[0] == c[0] { LessTransitive(a[1..], b[1..], c[1..]); }
  }

  lemma {:induction false} LessTotal(a: Data, b: Data)
    ensures a == b || Less(a, b) || Less(b, a)
  {
    if a != [] && b != [] && a[0] == b[0] {
      LessTotal(a[1..], b[1..]);
      if a[1..] == b[1..] { assert a == [a[0]] + a[1..] && b == [b[0]] + b[1..]; }
    }
  }

  lemma LessAsymmetric(a: Data, b: Data)
    requires Less(a, b)
    ensures !Less(b, a)
  {
    if Less(b, a) {
      LessTransitive(a, b, a);
      LessIrreflexive(a);
    }
  }

  /** A shared prefix never decides an order. */
  lemma {:induction false} LessCommonPrefix(p: Data, a: Data, b: Data)
    ensures Less(p + a, p + b) == Less(a, b)
  {
    if p == [] {
      assert p + a == a && p + b == b;
    } else {
      LessCommonPrefix(p[1..], a, b);
      assert (p + a)[1..] == p[1..] + a && (p + b)[1..] == p[1..] + b;
    }
  }

  /** Equal-length strings that already differ in order stay in that order whatever follows them. */
  lemma {:induction false} LessExtend(a: Data, b: Data, x: Data, y: Data)
    requires Less(a, b) && !(a <= b)
    ensures Less(a + x, b + y)
  {
    assert (a + x)[0] == a[0] && (b + y)[0] == b[0];
    if a[0] == b[0] {
      LessExtend(a[1..], b[1..], x, y);
      assert (a + x)[1..] == a[1..] + x && (b + y)[1..] == b[1..] + y;
    }
  }

  // ----- fixed-width integers ----------------------------------------------------------------

  function Pow256(k: nat): (r: nat)
    ensures r >= 1
  {
    if k == 0 then 1 else 256 * Pow256(k - 1)
  }

  lemma Pow256Eight()
    ensures Pow256(8) == TWO_64
  {
    assert Pow256(1) == 0x100;
    assert Pow256(2) == 0x1_0000;
    assert Pow256(3) == 0x100_0000;
    assert Pow256(4) == 0x1_0000_0000;
    assert Pow256(5) == 0x100_0000_0000;
    assert Pow256(6) == 0x1_0000_0000_0000;
    assert Pow256(7) == 0x100_0000_0000_0000;
  }

  /** The low k bytes of n, least significant first (binary.LittleEndian). */
  function LittleEndian(n: nat, k: nat): (r: Data)
    ensures |r| == k
  {
    if k == 0 then [] else [n % 256] + LittleEndian(n / 256, k - 1)
  }

  function FromLittleEndian(s: Data): nat {
    if s == [] then 0 else s[0] + 256 * FromLittleEndian(s[1..])
  }

  lemma {:induction false} LittleEndianRoundTrip(n: nat, k: nat)
    requires n < Pow256(k)
    ensures FromLittleEndian(LittleEndian(n, k)) == n
  {
    if k > 0 {
      LittleEndianRoundTrip(n / 256, k - 1);
      assert LittleEndian(n, k)[1..] == LittleEndian(n / 256, k - 1);
    }
  }

  /** The low k bytes of n, most significant first (binary.BigEndian). */
  function BigEndian(n: nat, k: nat): (r: Data)
    ensures |r| == k
  {
    if k == 0 then [] else BigEndian(n / 256, k - 1) + [n % 256]
  }

  function FromBigEndian(s: Data): nat {
    if s == [] then 0 else 256 * FromBigEndian(s[..|s| - 1]) + s[|s| - 1]
  }

  lemma {:induction false} BigEndianRoundTrip(n: nat, k: nat)
    requires n < Pow256(k)
    ensures FromBigEndian(BigEndian(n, k)) == n
  {
    if k > 0 {
      BigEndianRoundTrip(n / 256, k - 1);
      assert BigEndian(n, k)[..k - 1] == BigEndian(n / 256, k - 1);
    }
  }

  /** Bytewise order of big-endian keys of one width is numeric order. */
  lemma {:induction false} BigEndianOrder(n: nat, m: nat, k: nat)
    requires n < m < Pow256(k)
    ensures Less(BigEndian(n, k), BigEndian(m, k))
    ensures !(BigEndian(n, k) <= BigEndian(m, k))
  {
    var a, b := BigEndian(n / 256, k - 1), BigEndian(m / 256, k - 1);
    if n / 256 == m / 256 {
      LessCommonPrefix(a, [n % 256], [m % 256]);
    } else {
      BigEndianOrder(n / 256, m / 256, k - 1);
      LessExtend(a, b, [n % 256], [m % 256]);
    }
    BigEndianRoundTrip(n, k);
    BigEndianRoundTrip(m, k);
  }

  /** sqllayout.SignedInteger: eight big-endian bytes of the value with its sign bit flipped. */
  function SignedInteger(n: int): (key: Data)
    requires IsInt64(n)
    ensures |key| == 8
  {
    BigEndian(n - MIN_INT64, 8)
  }

  /** The integer key encoding is injective and keeps the numeric order, negative values included. */
  lemma SignedIntegerOrder(n: int, m: int)
    requires IsInt64(n) && IsInt64(m)
    ensures Less(SignedInteger(n), SignedInteger(m)) <==> n < m
    ensures SignedInteger(n) == SignedInteger(m) <==> n == m
  {
    Pow256Eight();
    if n < m {
      BigEndianOrder(n - MIN_INT64, m - MIN_INT64, 8);
    } else if m < n {
      BigEndianOrder(m - MIN_INT64, n - MIN_INT64, 8);
      LessAsymmetric(SignedInteger(m), SignedInteger(n));
    } else {
      LessIrreflexive(SignedInteger(n));
    }
  }
}
