/** 32-bit little-endian integers and length-prefixed byte strings. */
module LittleEndian {
  import opened Bytes

  const INT32_MAX: int := 0x7fff_ffff
  const INT32_MIN: int := -0x8000_0000

  predicate IsInt32(n: int) {
    INT32_MIN <= n <= INT32_MAX
  }

  function Int32Bytes(n: int): (b: Bytes)
    requires IsInt32(n)
    ensures |b| == 4
  {
    var u := if n < 0 then n + 0x1_0000_0000 else n;
    [u % 0x100, u / 0x100 % 0x100, u / 0x1_0000 % 0x100, u / 0x100_0000]
  }

  function Int32Of(b: Bytes): (n: int)
    requires |b| == 4
    ensures IsInt32(n)
  {
    var b0: int, b1: int, b2: int, b3: int := b[0], b[1], b[2], b[3];
    var u := b0 + 0x100 * b1 + 0x1_0000 * b2 + 0x100_0000 * b3;
    if u > INT32_MAX then u - 0x1_0000_0000 else u
  }

  lemma Int32RoundTrip(n: int)
    requires IsInt32(n)
    ensures Int32Of(Int32Bytes(n)) == n
  {
    var u := if n < 0 then n + 0x1_0000_0000 else n;
    var u1 := u / 0x100;
    var u2 := u1 / 0x100;
    assert u == u % 0x100 + 0x100 * u1 && u1 == u1 % 0x100 + 0x100 * u2 && u2 == u2 % 0x100 + 0x100 * (u2 / 0x100);
    assert u / 0x1_0000 == u2 && u / 0x100_0000 == u2 / 0x100;
  }

  /** The digits of a number to base 256 are unique. */
  lemma ByteDigits(u: int, b0: byte, b1: byte, b2: byte, b3: byte)
    requires u == b0 as int + 0x100 * (b1 as int + 0x100 * (b2 as int + 0x100 * (b3 as int)))
    ensures u % 0x100 == b0 as int && u / 0x100 % 0x100 == b1 as int
    ensures u / 0x1_0000 % 0x100 == b2 as int && u / 0x100_0000 == b3 as int
  {
    var u1 := b1 as int + 0x100 * (b2 as int + 0x100 * (b3 as int));
    var u2 := b2 as int + 0x100 * (b3 as int);
    assert u == b0 as int + 0x100 * u1 && u1 == b1 as int + 0x100 * u2;
    assert u / 0x100 == u1 && u1 / 0x100 == u2;
    assert u / 0x1_0000 == u1 / 0x100 && u / 0x100_0000 == u2 / 0x100;
  }

  /** The four bytes are the digits of the number to base 256, lowest first; a negative number is written as
      its sum with 2 to the power of 32. */
  lemma Int32Exactly(n: int, b: Bytes)
    requires IsInt32(n) && |b| == 4
    ensures b == Int32Bytes(n)
       <==> b[0] as int + 0x100 * (b[1] as int + 0x100 * (b[2] as int + 0x100 * (b[3] as int)))
            == if n < 0 then n + 0x1_0000_0000 else n
  {
    var u := if n < 0 then n + 0x1_0000_0000 else n;
    if b == Int32Bytes(n) {
      Int32RoundTrip(n);
    }
    if u == b[0] as int + 0x100 * (b[1] as int + 0x100 * (b[2] as int + 0x100 * (b[3] as int))) {
      ByteDigits(u, b[0], b[1], b[2], b[3]);
    }
  }

  /** Every four bytes are those of one integer. */
  lemma Int32OfBytes(b: Bytes)
    requires |b| == 4
    ensures Int32Bytes(Int32Of(b)) == b
  {
    Int32Exactly(Int32Of(b), b);
  }

  /** A byte string behind its length. */
  function Blob(b: Bytes): Bytes
    requires |b| <= INT32_MAX
  {
    Int32Bytes(|b|) + b
  }

  // ---------------------------------------------------------------- streams that can be told apart

  /** Equal streams that start with equal-length pieces have equal pieces and equal rests. */
  lemma SplitEqual(a: Bytes, b: Bytes, r: Bytes, s: Bytes)
    requires a + r == b + s && |a| == |b|
    ensures a == b && r == s
  {
    assert (a + r)[..|a|] == a && (b + s)[..|b|] == b;
    assert (a + r)[|a|..] == r && (b + s)[|b|..] == s;
  }

  lemma Int32PrefixFree(m: int, n: int, r: Bytes, s: Bytes)
    requires IsInt32(m) && IsInt32(n) && Int32Bytes(m) + r == Int32Bytes(n) + s
    ensures m == n && r == s
  {
    SplitEqual(Int32Bytes(m), Int32Bytes(n), r, s);
    Int32RoundTrip(m);
    Int32RoundTrip(n);
  }

  lemma BlobPrefixFree(a: Bytes, b: Bytes, r: Bytes, s: Bytes)
    requires |a| <= INT32_MAX && |b| <= INT32_MAX && Blob(a) + r == Blob(b) + s
    ensures a == b && r == s
  {
    assert Blob(a) + r == Int32Bytes(|a|) + (a + r) && Blob(b) + s == Int32Bytes(|b|) + (b + s);
    Int32PrefixFree(|a|, |b|, a + r, b + s);
    SplitEqual(a, b, r, s);
  }
}
