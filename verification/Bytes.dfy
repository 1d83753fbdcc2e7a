/** Bytes, digests and the ordinal order on byte sequences. */
module Bytes {
  type byte = b: int | 0 <= b < 256
  type Bytes = seq<byte>

  const DIGEST_LENGTH: nat := 32

  /** A 32-byte digest. The all-zero digest doubles as "no entry" in the history. */
  type IoHash = h: Bytes | |h| == DIGEST_LENGTH witness seq(DIGEST_LENGTH, _ => 0)

  const ZERO_HASH: IoHash := ZeroBytes(DIGEST_LENGTH)

  function ZeroBytes(n: nat): (b: Bytes)
    ensures |b| == n && forall i :: 0 <= i < n ==> b[i] == 0
  {
    if n == 0 then [] else [0] + ZeroBytes(n - 1)
  }

  /** File paths and other strings, in their UTF-8 form. */
  type Path = Bytes

  /** Ordinal comparison: the first differing byte decides, and a proper prefix comes first. */
  predicate Below(a: Bytes, b: Bytes) {
    b != [] && (a == [] || a[0] < b[0] || (a[0] == b[0] && Below(a[1..], b[1..])))
  }

  /** The two agree up to position `k`, and there `a` ends or has the smaller byte. */
  predicate FirstDifference(a: Bytes, b: Bytes, k: nat) {
    k <= |a| && k < |b| && a[..k] == b[..k] && (k == |a| || a[k] < b[k])
  }

  /** The order that is meant, without recursion. */
  ghost predicate Precedes(a: Bytes, b: Bytes) {
    exists k: nat :: FirstDifference(a, b, k)
  }

  lemma {:induction false} BelowExactly(a: Bytes, b: Bytes)
    ensures Below(a, b) <==> Precedes(a, b)
    decreases |a|
  {
    if b != [] && (a == [] || a[0] < b[0]) {
      assert FirstDifference(a, b, 0);
    } else if a != [] && b != [] && a[0] == b[0] {
      BelowExactly(a[1..], b[1..]);
      PrecedesInTails(a, b);
    } else {
      forall k: nat
        ensures !FirstDifference(a, b, k)
      {
        if 0 < k <= |a| && k <= |b| {
          assert a[..k][0] == a[0] && b[..k][0] == b[0];
        }
      }
    }
  }

  lemma PrecedesInTails(a: Bytes, b: Bytes)
    requires a != [] && b != [] && a[0] == b[0]
    ensures Precedes(a, b) <==> Precedes(a[1..], b[1..])
  {
    if k: nat :| FirstDifference(a, b, k) {
      assert a[1..][..k - 1] == a[..k][1..] && b[1..][..k - 1] == b[..k][1..];
      assert FirstDifference(a[1..], b[1..], k - 1);
    }
    if k: nat :| FirstDifference(a[1..], b[1..], k) {
      assert a[..k + 1] == [a[0]] + a[1..][..k] && b[..k + 1] == [b[0]] + b[1..][..k];
      assert FirstDifference(a, b, k + 1);
    }
  }

  lemma {:induction false} BelowIrreflexive(a: Bytes)
    ensures !Below(a, a)
  {
    if a != [] {
      BelowIrreflexive(a[1..]);
    }
  }

  lemma {:induction false} BelowTransitive(a: Bytes, b: Bytes, c: Bytes)
    requires Below(a, b) && Below(b, c)
    ensures Below(a, c)
  {
    if a != [] && a[0] == b[0] == c[0] {
      BelowTransitive(a[1..], b[1..], c[1..]);
    }
  }

  lemma {:induction false} BelowTotal(a: Bytes, b: Bytes)
    ensures Below(a, b) || a == b || Below(b, a)
  {
    if a != [] && b != [] && a[0] == b[0] {
      BelowTotal(a[1..], b[1..]);
      assert a == [a[0]] + a[1..] && b == [b[0]] + b[1..];
    }
  }

  lemma BelowAsymmetric(a: Bytes, b: Bytes)
    requires Below(a, b)
    ensures !Below(b, a) && a != b
  {
    BelowIrreflexive(a);
    if Below(b, a) {
      BelowTransitive(a, b, a);
    }
  }

  /** The comparer of the action graph: byte by byte over the whole digest. */
  method CompareDigests(a: IoHash, b: IoHash) returns (cmp: int)
    ensures cmp < 0 <==> Precedes(a, b)
    ensures cmp > 0 <==> Precedes(b, a)
    ensures cmp == 0 <==> a == b
  {
    hide Precedes;
    BelowExactly(a, b);
    BelowExactly(b, a);
    var i := 0;
    while i < DIGEST_LENGTH
      invariant 0 <= i <= DIGEST_LENGTH
      invariant a[..i] == b[..i]
      invariant Below(a, b) <==> Below(a[i..], b[i..])
      invariant Below(b, a) <==> Below(b[i..], a[i..])
    {
      var x: int, y: int := a[i], b[i];
      cmp := x - y;
      if cmp != 0 {
        BelowAsymmetricAt(a, b, i);
        return;
      }
      assert a[i..][1..] == a[i + 1..] && b[i..][1..] == b[i + 1..];
      assert a[..i + 1] == a[..i] + [a[i]] && b[..i + 1] == b[..i] + [b[i]];
      i := i + 1;
    }
    cmp := 0;
    assert a[..i] == a && b[..i] == b;
    BelowIrreflexive(a);
  }

  lemma BelowAsymmetricAt(a: IoHash, b: IoHash, i: nat)
    requires i < DIGEST_LENGTH && a[i] != b[i]
    ensures Below(a[i..], b[i..]) <==> a[i] < b[i]
    ensures Below(b[i..], a[i..]) <==> b[i] < a[i]
    ensures a != b
  {
    assert a[i..][0] == a[i] && b[i..][0] == b[i];
  }
}
