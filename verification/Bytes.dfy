/** Byte strings in RocksDB's order, and big-endian integers. */
module Bytes {
  type byte = x: int | 0 <= x < 256

  /** Byte-wise lexicographic order, a proper prefix first. */
  predicate Less(a: seq<byte>, b: seq<byte>) {
    if b == [] then false
    else if a == [] then true
    else if a[0] != b[0] then a[0] < b[0]
    else Less(a[1..], b[1..])
  }

  predicate LessEq(a: seq<byte>, b: seq<byte>) {
    a == b || Less(a, b)
  }

  lemma {:induction false} LessIrreflexive(a: seq<byte>)
    ensures !Less(a, a)
  {
    if a != [] {
      LessIrreflexive(a[1..]);
    }
  }

  lemma {:induction false} LessTransitive(a: seq<byte>, b: seq<byte>, c: seq<byte>)
    requires Less(a, b) && Less(b, c)
    ensures Less(a, c)
  {
    if a != [] && a[0] == b[0] == c[0] {
      LessTransitive(a[1..], b[1..], c[1..]);
    }
  }

  lemma {:induction false} LessTotal(a: seq<byte>, b: seq<byte>)
    ensures a == b || Less(a, b) || Less(b, a)
  {
    if a != [] && b != [] && a[0] == b[0] {
      LessTotal(a[1..], b[1..]);
      assert a == [a[0]] + a[1..] && b == [b[0]] + b[1..];
    }
  }

  lemma NotLess(a: seq<byte>, b: seq<byte>)
    ensures Less(a, b) <==> !LessEq(b, a)
  {
  }

  /** A common prefix does not affect the order. */
  lemma {:induction false} LessSamePrefix(p: seq<byte>, a: seq<byte>, b: seq<byte>)
    ensures Less(p + a, p + b) <==> Less(a, b)
  {
    if p == [] {
      assert p + a == a && p + b == b;
    } else {
      assert (p + a)[1..] == p[1..] + a && (p + b)[1..] == p[1..] + b;
      LessSamePrefix(p[1..], a, b);
    }
  }

  /** The first difference decides, whatever follows. */
  lemma {:induction false} LessEqualLength(a: seq<byte>, b: seq<byte>, x: seq<byte>, y: seq<byte>)
    requires |a| == |b|
    ensures Less(a + x, b + y) <==> Less(a, b) || (a == b && Less(x, y))
  {
    if a == [] {
      assert a + x == x && b + y == y;
    } else {
      assert (a + x)[1..] == a[1..] + x && (b + y)[1..] == b[1..] + y;
      assert a == [a[0]] + a[1..] && b == [b[0]] + b[1..];
      LessEqualLength(a[1..], b[1..], x, y);
      if a == b {
        LessIrreflexive(a);
      }
    }
  }

  function Pow256(n: nat): nat {
    if n == 0 then 1 else 256 * Pow256(n - 1)
  }

  /** `n` in big-endian order on `len` bytes. */
  function ToBe(n: nat, len: nat): (r: seq<byte>)
    requires n < Pow256(len)
    ensures |r| == len
  {
    if len == 0 then [] else ToBe(n / 256, len - 1) + [n % 256]
  }

  function FromBe(bytes: seq<byte>): (n: nat)
    ensures n < Pow256(|bytes|)
  {
    if bytes == [] then 0 else FromBe(bytes[..|bytes| - 1]) * 256 + bytes[|bytes| - 1]
  }

  lemma {:induction false} BeRoundTrip(n: nat, len: nat)
    requires n < Pow256(len)
    ensures FromBe(ToBe(n, len)) == n
  {
    if len > 0 {
      BeRoundTrip(n / 256, len - 1);
      assert ToBe(n, len)[..len - 1] == ToBe(n / 256, len - 1);
    }
  }

  lemma {:induction false} BeInverse(bytes: seq<byte>)
    ensures ToBe(FromBe(bytes), |bytes|) == bytes
  {
    if bytes != [] {
      BeInverse(bytes[..|bytes| - 1]);
      assert bytes == bytes[..|bytes| - 1] + [bytes[|bytes| - 1]];
    }
  }

  /** Big-endian integers sort as numbers. */
  lemma {:induction false} BeOrder(a: nat, b: nat, len: nat)
    requires a < Pow256(len) && b < Pow256(len)
    ensures Less(ToBe(a, len), ToBe(b, len)) <==> a < b
  {
    if len > 0 {
      BeOrder(a / 256, b / 256, len - 1);
      BeRoundTrip(a / 256, len - 1);
      BeRoundTrip(b / 256, len - 1);
      LessEqualLength(ToBe(a / 256, len - 1), ToBe(b / 256, len - 1), [a % 256], [b % 256]);
    }
  }

  lemma PowersOf256()
    ensures Pow256(2) == 0x1_0000
    ensures Pow256(4) == 0x1_0000_0000
    ensures Pow256(8) == 0x1_0000_0000_0000_0000
  {
  }

  /** Dropping the last bytes divides. */
  lemma {:induction false} BeTruncate(n: nat, len: nat, k: nat)
    requires n < Pow256(len) && k <= len
    ensures FromBe(ToBe(n, len)[..len - k]) == DivPow(n, k)
    decreases k
  {
    if k == 0 {
      assert ToBe(n, len)[..len] == ToBe(n, len);
      BeRoundTrip(n, len);
    } else {
      assert ToBe(n, len)[..len - k] == ToBe(n / 256, len - 1)[..len - 1 - (k - 1)];
      BeTruncate(n / 256, len - 1, k - 1);
    }
  }

  function DivPow(n: nat, k: nat): nat
    decreases k
  {
    if k == 0 then n else DivPow(n / 256, k - 1)
  }
}
