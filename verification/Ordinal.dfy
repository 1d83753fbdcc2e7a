/** Paths in ordinal order: the one increasing list of a set, and how to get it from any list. */
module Ordinal {
  import opened Bytes

  predicate Increasing(ps: seq<Path>) {
    forall i, j :: 0 <= i < j < |ps| ==> Below(ps[i], ps[j])
  }

  ghost predicate IsSorted(ps: seq<Path>, s: set<Path>) {
    Increasing(ps) && forall p :: p in ps <==> p in s
  }

  /** Two increasing lists with the same elements are equal. */
  lemma {:induction false} SortedUnique(ps: seq<Path>, qs: seq<Path>, s: set<Path>)
    requires IsSorted(ps, s) && IsSorted(qs, s)
    ensures ps == qs
    decreases |ps|
  {
    SortedEmpty(ps, s);
    SortedEmpty(qs, s);
    if ps != [] {
      assert ps[0] in s;
      var i :| 0 <= i < |qs| && qs[i] == ps[0];
      assert qs[0] in s;
      var j :| 0 <= j < |ps| && ps[j] == qs[0];
      if i > 0 && j > 0 {
        BelowAsymmetric(qs[0], qs[i]);
      }
      SortedTail(ps, s);
      SortedTail(qs, s);
      SortedUnique(ps[1..], qs[1..], s - {ps[0]});
      assert ps == [ps[0]] + ps[1..] && qs == [qs[0]] + qs[1..];
    }
  }

  lemma SortedEmpty(ps: seq<Path>, s: set<Path>)
    requires IsSorted(ps, s)
    ensures ps == [] <==> s == {}
  {
    if ps != [] {
      assert ps[0] in s;
    }
    if s != {} {
      var p :| p in s;
      assert p in ps;
    }
  }

  lemma SortedTail(ps: seq<Path>, s: set<Path>)
    requires IsSorted(ps, s) && ps != []
    ensures IsSorted(ps[1..], s - {ps[0]})
  {
    forall p ensures p in ps[1..] <==> p in s - {ps[0]} {
      if p in ps[1..] {
        var i :| 0 <= i < |ps[1..]| && ps[1..][i] == p;
        assert p == ps[i + 1];
        BelowAsymmetric(ps[0], ps[i + 1]);
      }
      if p in s - {ps[0]} {
        var i :| 0 <= i < |ps| && ps[i] == p;
        assert ps[1..][i - 1] == p;
      }
    }
  }

  // ---------------------------------------------------------------- inserting one path

  /** How many of the paths come before `p`. */
  method PlaceOf(ps: seq<Path>, p: Path) returns (k: nat)
    requires Increasing(ps)
    ensures k <= |ps|
    ensures forall i :: 0 <= i < k ==> Below(ps[i], p)
    ensures forall i :: k <= i < |ps| ==> ps[i] == p || Below(p, ps[i])
  {
    k := 0;
    while k < |ps| && Below(ps[k], p)
      invariant k <= |ps|
      invariant forall i :: 0 <= i < k ==> Below(ps[i], p)
    {
      k := k + 1;
    }
    forall i | k <= i < |ps| ensures ps[i] == p || Below(p, ps[i]) {
      BelowTotal(ps[k], p);
      if i > k && ps[k] != p {
        BelowTransitive(p, ps[k], ps[i]);
      }
    }
  }

  lemma InsertIncreasing(ps: seq<Path>, k: nat, p: Path)
    requires Increasing(ps) && k <= |ps|
    requires forall i :: 0 <= i < k ==> Below(ps[i], p)
    requires forall i :: k <= i < |ps| ==> Below(p, ps[i])
    ensures Increasing(ps[..k] + [p] + ps[k..])
  {
  }

  /** What an increasing list is, in terms of first differences. */
  lemma IncreasingPrecedes(ps: seq<Path>)
    ensures Increasing(ps) <==> forall i, j :: 0 <= i < j < |ps| ==> Precedes(ps[i], ps[j])
  {
    hide Below, Precedes;
    forall i, j | 0 <= i < j < |ps| ensures Below(ps[i], ps[j]) <==> Precedes(ps[i], ps[j]) {
      BelowExactly(ps[i], ps[j]);
    }
  }

  /** Distinct and in ordinal order, whatever the order and the repetitions of the input. */
  method Sort(input: seq<Path>) returns (sorted: seq<Path>)
    ensures forall p :: p in sorted <==> p in input
    ensures forall i, j :: 0 <= i < j < |sorted| ==> Precedes(sorted[i], sorted[j])
    ensures IsSorted(sorted, set p | p in input)
  {
    hide Precedes;
    sorted := [];
    var n := 0;
    while n < |input|
      invariant n <= |input|
      invariant IsSorted(sorted, set p | p in input[..n])
    {
      var p := input[n];
      var k := PlaceOf(sorted, p);
      ghost var before := sorted;
      if k == |sorted| || sorted[k] != p {
        Room(sorted, k, p);
        InsertIncreasing(sorted, k, p);
        sorted := sorted[..k] + [p] + sorted[k..];
      }
      Grown(before, k, p, sorted);
      assert input[..n + 1] == input[..n] + [p];
      n := n + 1;
    }
    assert input[..n] == input;
    IncreasingPrecedes(sorted);
  }

  lemma Room(ps: seq<Path>, k: nat, p: Path)
    requires Increasing(ps) && k <= |ps| && (k == |ps| || ps[k] != p)
    requires forall i :: k <= i < |ps| ==> ps[i] == p || Below(p, ps[i])
    ensures forall i :: k <= i < |ps| ==> Below(p, ps[i])
  {
    forall i | k <= i < |ps| ensures Below(p, ps[i]) {
      if i > k {
        BelowTransitive(p, ps[k], ps[i]);
      }
    }
  }

  lemma Grown(ps: seq<Path>, k: nat, p: Path, qs: seq<Path>)
    requires k <= |ps|
    requires if k == |ps| || ps[k] != p then qs == ps[..k] + [p] + ps[k..] else qs == ps
    ensures forall q :: q in qs <==> q in ps || q == p
  {
    forall q ensures q in qs <==> q in ps || q == p {
      if q in ps {
        var i :| 0 <= i < |ps| && ps[i] == q;
        if qs != ps {
          assert qs[if i < k then i else i + 1] == q;
        }
      }
      if qs != ps {
        assert qs[k] == p;
      }
    }
  }

  // ---------------------------------------------------------------- the sorted list of a set

  lemma {:induction false} SortedExists(s: set<Path>) returns (ps: seq<Path>)
    ensures IsSorted(ps, s)
    decreases |s|
  {
    if s == {} {
      ps := [];
    } else {
      var p :| p in s;
      var rest := SortedExists(s - {p});
      var k := CutExists(rest, p);
      ps := rest[..k] + [p] + rest[k..];
      assert forall i :: 0 <= i < |rest| ==> rest[i] in rest;
      Room(rest, k, p);
      InsertIncreasing(rest, k, p);
      Grown(rest, k, p, ps);
    }
  }

  lemma {:induction false} CutExists(ps: seq<Path>, p: Path) returns (k: nat)
    requires Increasing(ps)
    ensures k <= |ps|
    ensures forall i :: 0 <= i < k ==> Below(ps[i], p)
    ensures forall i :: k <= i < |ps| ==> ps[i] == p || Below(p, ps[i])
    decreases |ps|
  {
    if ps == [] {
      k := 0;
    } else {
      var last := |ps| - 1;
      k := CutExists(ps[..last], p);
      BelowTotal(ps[last], p);
      if Below(ps[last], p) {
        forall i | 0 <= i < last ensures Below(ps[i], p) {
          BelowTransitive(ps[i], ps[last], p);
        }
        k := |ps|;
      } else {
        assert forall i :: k <= i < last ==> ps[..last][i] == ps[i];
      }
    }
  }

  /** The paths of a set in ordinal order. */
  ghost function Sorted(s: set<Path>): (ps: seq<Path>)
    ensures IsSorted(ps, s)
  {
    assert exists ps :: IsSorted(ps, s) by {
      var ps := SortedExists(s);
    }
    var ps :| IsSorted(ps, s);
    ps
  }

  lemma SortedIs(ps: seq<Path>, s: set<Path>)
    requires IsSorted(ps, s)
    ensures ps == Sorted(s)
  {
    SortedUnique(ps, Sorted(s), s);
  }
}
