/**
 The order that sorting an action graph produces.

 At every step the canonical order takes the ready action whose version is strictly below the
 versions of all other ready actions. This module says what such an order is worth (it is a
 topological order, the least of all of them, and independent of how the actions were numbered)
 and exactly when one exists.
 */
module SortOrder {
  import opened Bytes
  import opened Graphs

  ghost predicate Topological(g: Graph, order: seq<nat>) {
    && |order| == g.Size()
    && Distinct(order)
    && (forall i :: 0 <= i < |order| ==> order[i] < g.Size())
    && (forall i, p :: 0 <= i < |order| && p in g.prereqs[order[i]] ==> p in order[..i])
  }

  /** `x` is ready once `done` is finished, and its version is strictly below every other ready one. */
  ghost predicate StrictlyLeast(g: Graph, versions: seq<IoHash>, done: set<nat>, x: nat)
    requires |versions| == g.Size()
  {
    && x in g.ReadyAfter(done)
    && (forall r :: r in g.ReadyAfter(done) && r != x ==> Below(versions[x], versions[r]))
  }

  ghost predicate CanonicalPrefix(g: Graph, versions: seq<IoHash>, order: seq<nat>)
    requires |versions| == g.Size()
  {
    forall i :: 0 <= i < |order| ==> StrictlyLeast(g, versions, Elements(order[..i]), order[i])
  }

  ghost predicate Canonical(g: Graph, versions: seq<IoHash>, order: seq<nat>)
    requires |versions| == g.Size()
  {
    |order| == g.Size() && CanonicalPrefix(g, versions, order)
  }

  ghost predicate DistinctVersions(versions: seq<IoHash>) {
    Distinct(versions)
  }

  /** `a` comes before `b` when the two are compared version by version. */
  ghost predicate VersionsBefore(versions: seq<IoHash>, a: seq<nat>, b: seq<nat>)
    requires |a| == |b|
    requires forall i :: 0 <= i < |a| ==> a[i] < |versions| && b[i] < |versions|
  {
    exists i :: 0 <= i < |a| && a[..i] == b[..i] && Precedes(versions[a[i]], versions[b[i]])
  }

  // ---------------------------------------------------------------- what a canonical order is

  lemma CanonicalPrefixDistinct(g: Graph, versions: seq<IoHash>, order: seq<nat>)
    requires |versions| == g.Size() && CanonicalPrefix(g, versions, order)
    ensures Distinct(order)
    ensures forall i :: 0 <= i < |order| ==> order[i] < g.Size()
    ensures forall i, p :: 0 <= i < |order| && p in g.prereqs[order[i]] ==> p in order[..i]
  {
    forall i | 0 <= i < |order|
      ensures order[i] < g.Size()
      ensures forall p :: p in g.prereqs[order[i]] ==> p in order[..i]
      ensures forall j :: 0 <= j < i ==> order[j] != order[i]
    {
      assert StrictlyLeast(g, versions, Elements(order[..i]), order[i]);
      forall j | 0 <= j < i
        ensures order[j] != order[i]
      {
        assert order[..i][j] in Elements(order[..i]);
      }
    }
  }

  /** A canonical order lists every action once, after all its prerequisites. */
  lemma CanonicalIsTopological(g: Graph, versions: seq<IoHash>, order: seq<nat>)
    requires |versions| == g.Size() && Canonical(g, versions, order)
    ensures Topological(g, order)
    ensures Elements(order) == Nodes(g.Size())
  {
    CanonicalPrefixDistinct(g, versions, order);
    DistinctNodesBound(order, g.Size());
  }

  lemma FirstDeparture(a: seq<nat>, b: seq<nat>) returns (i: nat)
    requires |a| == |b| && a != b
    ensures i < |a| && a[..i] == b[..i] && a[i] != b[i]
  {
    i := 0;
    while a[i] == b[i]
      invariant i < |a| && a[..i] == b[..i]
      invariant exists j :: i <= j < |a| && a[j] != b[j]
      decreases |a| - i
    {
      assert a[..i + 1] == a[..i] + [a[i]] && b[..i + 1] == b[..i] + [b[i]];
      i := i + 1;
    }
  }

  /** It is the least topological order: any other one first departs from it at a larger version. */
  lemma CanonicalIsLeast(g: Graph, versions: seq<IoHash>, order: seq<nat>, other: seq<nat>)
    requires |versions| == g.Size() && Canonical(g, versions, order)
    requires Topological(g, other) && other != order
    ensures CanonicalPrefix(g, versions, order) && forall i :: 0 <= i < |order| ==> order[i] < |versions|
    ensures VersionsBefore(versions, order, other)
  {
    hide Precedes;
    CanonicalIsTopological(g, versions, order);
    var i := FirstDeparture(order, other);
    BelowExactly(versions[order[i]], versions[other[i]]);
    var done := Elements(order[..i]);
    assert StrictlyLeast(g, versions, done, order[i]);
    assert other[i] in g.ReadyAfter(done) by {
      forall p | p in g.prereqs[other[i]]
        ensures p in done
      {
        assert p in other[..i];
      }
    }
  }

  lemma CanonicalUnique(g: Graph, versions: seq<IoHash>, a: seq<nat>, b: seq<nat>)
    requires |versions| == g.Size() && Canonical(g, versions, a) && Canonical(g, versions, b)
    ensures a == b
  {
    if a != b {
      var i := FirstDeparture(a, b);
      assert StrictlyLeast(g, versions, Elements(a[..i]), a[i]);
      assert StrictlyLeast(g, versions, Elements(b[..i]), b[i]);
      BelowAsymmetric(versions[a[i]], versions[b[i]]);
    }
  }

  /** The same actions numbered differently: `rename` maps the handles of one graph to the other's. */
  ghost predicate Renaming(rename: seq<nat>, g: Graph, versions: seq<IoHash>, h: Graph, versions': seq<IoHash>) {
    && |rename| == g.Size() == h.Size() == |versions| == |versions'|
    && Distinct(rename)
    && (forall a :: 0 <= a < |rename| ==> rename[a] < h.Size() && versions'[rename[a]] == versions[a])
    && (forall a, p :: 0 <= a < |rename| && 0 <= p < |rename| ==>
          (p in g.prereqs[a] <==> rename[p] in h.prereqs[rename[a]]))
  }

  function Rename(rename: seq<nat>, s: seq<nat>): (r: seq<nat>)
    requires forall i :: 0 <= i < |s| ==> s[i] < |rename|
    ensures |r| == |s| && forall i :: 0 <= i < |s| ==> r[i] == rename[s[i]]
  {
    seq(|s|, i requires 0 <= i < |s| => rename[s[i]])
  }

  lemma PrereqInRange(g: Graph, a: nat, p: nat)
    requires g.Valid() && a < g.Size() && p in g.prereqs[a]
    ensures p < g.Size()
  {
  }

  lemma Preimage(rename: seq<nat>, q: nat) returns (p: nat)
    requires Distinct(rename) && q < |rename| && forall i :: 0 <= i < |rename| ==> rename[i] < |rename|
    ensures p < |rename| && rename[p] == q
  {
    DistinctNodesBound(rename, |rename|);
    assert q in Nodes(|rename|) && q in Elements(rename);
    p :| p < |rename| && rename[p] == q;
  }

  lemma RenamedMember(rename: seq<nat>, done: seq<nat>, b: nat)
    requires Distinct(rename) && b < |rename| && forall i :: 0 <= i < |done| ==> done[i] < |rename|
    ensures b in done <==> rename[b] in Rename(rename, done)
  {
    var done' := Rename(rename, done);
    if b in done {
      var i :| 0 <= i < |done| && done[i] == b;
      assert done'[i] == rename[b];
    }
    if rename[b] in done' {
      var i :| 0 <= i < |done'| && done'[i] == rename[b];
      assert rename[done[i]] == rename[b];
    }
  }

  lemma RenamedReady(rename: seq<nat>, g: Graph, versions: seq<IoHash>, h: Graph, versions': seq<IoHash>,
                     done: seq<nat>, a: nat)
    requires g.Valid() && h.Valid() && Renaming(rename, g, versions, h, versions')
    requires a < g.Size() && forall i :: 0 <= i < |done| ==> done[i] < g.Size()
    ensures a in g.ReadyAfter(Elements(done)) <==> rename[a] in h.ReadyAfter(Elements(Rename(rename, done)))
  {
    hide Graph.Valid, Distinct, Rename;
    var done' := Rename(rename, done);
    RenamedMember(rename, done, a);
    if forall p :: p in g.prereqs[a] ==> p in done {
      forall q | q in h.prereqs[rename[a]] ensures q in done' {
        PrereqInRange(h, rename[a], q);
        var p := Preimage(rename, q);
        RenamedMember(rename, done, p);
      }
    }
    if forall q :: q in h.prereqs[rename[a]] ==> q in done' {
      forall p | p in g.prereqs[a] ensures p in done {
        PrereqInRange(g, a, p);
        assert rename[p] in h.prereqs[rename[a]];
        RenamedMember(rename, done, p);
      }
    }
  }

  lemma RenamedLeast(rename: seq<nat>, g: Graph, versions: seq<IoHash>, h: Graph, versions': seq<IoHash>,
                     done: seq<nat>, x: nat)
    requires g.Valid() && h.Valid() && Renaming(rename, g, versions, h, versions')
    requires forall i :: 0 <= i < |done| ==> done[i] < g.Size()
    requires x < g.Size() && StrictlyLeast(g, versions, Elements(done), x)
    ensures StrictlyLeast(h, versions', Elements(Rename(rename, done)), rename[x])
  {
    hide Graph.Valid, Distinct, Rename;
    RenamedReady(rename, g, versions, h, versions', done, x);
    forall r | r in h.ReadyAfter(Elements(Rename(rename, done))) && r != rename[x]
      ensures Below(versions'[rename[x]], versions'[r])
    {
      var a := Preimage(rename, r);
      RenamedReady(rename, g, versions, h, versions', done, a);
    }
  }

  /** The canonical order of one graph, renamed, is that of the other. */
  lemma RenamedCanonical(rename: seq<nat>, g: Graph, versions: seq<IoHash>, order: seq<nat>,
                         h: Graph, versions': seq<IoHash>)
    requires g.Valid() && h.Valid() && Renaming(rename, g, versions, h, versions')
    requires Canonical(g, versions, order)
    ensures forall i :: 0 <= i < |order| ==> order[i] < |rename|
    ensures Canonical(h, versions', Rename(rename, order))
  {
    hide Graph.Valid, Distinct, StrictlyLeast, Rename, Below;
    CanonicalIsTopological(g, versions, order);
    var image := Rename(rename, order);
    forall i | 0 <= i < |image|
      ensures StrictlyLeast(h, versions', Elements(image[..i]), image[i])
    {
      assert StrictlyLeast(g, versions, Elements(order[..i]), order[i]);
      assert image[..i] == Rename(rename, order[..i]);
      RenamedLeast(rename, g, versions, h, versions', order[..i], order[i]);
    }
  }

  /** Sorting the same actions in another input order yields the same actions in the same order. */
  lemma CanonicalIgnoresInputOrder(rename: seq<nat>, g: Graph, versions: seq<IoHash>, order: seq<nat>,
                                   h: Graph, versions': seq<IoHash>, order': seq<nat>)
    requires g.Valid() && h.Valid() && Renaming(rename, g, versions, h, versions')
    requires Canonical(g, versions, order) && Canonical(h, versions', order')
    ensures forall i :: 0 <= i < |order| ==> order[i] < |rename|
    ensures order' == Rename(rename, order)
  {
    hide Graph.Valid, Canonical;
    RenamedCanonical(rename, g, versions, order, h, versions');
    CanonicalUnique(h, versions', Rename(rename, order), order');
  }

  // ---------------------------------------------------------------- when one exists

  /** No two members of the set share a version. */
  ghost predicate ApartIn(versions: seq<IoHash>, s: set<nat>) {
    && (forall a :: a in s ==> a < |versions|)
    && (forall a, b :: a in s && b in s && a != b ==> versions[a] != versions[b])
  }

  /** Wherever the sort can get to, the ready actions have distinct versions. */
  ghost predicate NeverClash(g: Graph, versions: seq<IoHash>)
    requires |versions| == g.Size()
  {
    forall prefix :: CanonicalPrefix(g, versions, prefix) ==> ApartIn(versions, g.ReadyAfter(Elements(prefix)))
  }

  lemma {:induction false} LeastVersion(versions: seq<IoHash>, s: set<nat>) returns (x: nat)
    requires s != {} && ApartIn(versions, s)
    ensures x in s && forall r :: r in s && r != x ==> Below(versions[x], versions[r])
    decreases |s|
  {
    x :| x in s;
    if s != {x} {
      var y := LeastVersion(versions, s - {x});
      BelowTotal(versions[x], versions[y]);
      if Below(versions[y], versions[x]) {
        x := y;
      } else {
        forall r | r in s && r != x
          ensures Below(versions[x], versions[r])
        {
          if r != y {
            BelowTransitive(versions[x], versions[y], versions[r]);
          }
        }
      }
    }
  }

  lemma {:induction false} ExtendCanonical(g: Graph, versions: seq<IoHash>, prefix: seq<nat>) returns (order: seq<nat>)
    requires g.Valid() && g.Acyclic()
    requires |versions| == g.Size() && NeverClash(g, versions)
    requires CanonicalPrefix(g, versions, prefix) && |prefix| <= g.Size()
    ensures Canonical(g, versions, order)
    decreases g.Size() - |prefix|
  {
    if |prefix| == g.Size() {
      order := prefix;
    } else {
      var done := Elements(prefix);
      CanonicalPrefixDistinct(g, versions, prefix);
      DistinctElements(prefix);
      if g.ReadyAfter(done) == {} {
        if forall a: nat :: a < g.Size() ==> a in done {
          SubsetSize(Nodes(g.Size()), done);
        }
        var a: nat :| a < g.Size() && a !in done;
        NothingReadyIsUnsafe(g, done, a);
      }
      var x := LeastVersion(versions, g.ReadyAfter(done));
      var longer := prefix + [x];
      forall i | 0 <= i < |longer|
        ensures StrictlyLeast(g, versions, Elements(longer[..i]), longer[i])
      {
        assert i < |prefix| ==> longer[..i] == prefix[..i];
        assert i == |prefix| ==> longer[..i] == prefix;
      }
      order := ExtendCanonical(g, versions, longer);
    }
  }

  /** A topological order shows that there is no cycle. */
  lemma TopologicalIsAcyclic(g: Graph, order: seq<nat>)
    requires Topological(g, order)
    ensures g.Acyclic()
  {
    DistinctNodesBound(order, g.Size());
    forall a | 0 <= a < g.Size()
      ensures g.Safe(a)
    {
      assert a in Nodes(g.Size()) && a in Elements(order);
      var i :| 0 <= i < |order| && order[i] == a;
      GroundedByPosition(g, order, i);
      assert g.Grounded(a, i + 1);
    }
    AllSafeIsAcyclic(g);
  }

  lemma {:induction false} GroundedByPosition(g: Graph, order: seq<nat>, i: nat)
    requires Topological(g, order) && i < |order|
    ensures forall k :: k > i ==> g.Grounded(order[i], k)
    decreases i
  {
    forall k: nat | k > i
      ensures g.Grounded(order[i], k)
    {
      forall p | p in g.prereqs[order[i]]
        ensures g.Grounded(p, k - 1)
      {
        var j :| 0 <= j < i && order[..i][j] == p;
        GroundedByPosition(g, order, j);
      }
    }
  }

  /** Two actions with one version that are ready together spoil every order that gets there. */
  lemma ReadyTwinsBlock(g: Graph, versions: seq<IoHash>, prefix: seq<nat>, r: nat, s: nat)
    requires |versions| == g.Size() && CanonicalPrefix(g, versions, prefix)
    requires r != s && r in g.ReadyAfter(Elements(prefix)) && s in g.ReadyAfter(Elements(prefix))
    requires versions[r] == versions[s]
    ensures !exists order :: Canonical(g, versions, order)
  {
    forall order
      ensures !Canonical(g, versions, order)
    {
      if Canonical(g, versions, order) {
        CanonicalIsTopological(g, versions, order);
        PrefixOfCanonical(g, versions, prefix, order);
        assert r in Nodes(g.Size()) && s in Nodes(g.Size());
        var i :| 0 <= i < |order| && order[i] == r;
        var j :| 0 <= j < |order| && order[j] == s;
        if i < j {
          TwinNotLeast(g, versions, prefix, order, i, s);
        } else {
          TwinNotLeast(g, versions, prefix, order, j, r);
        }
      }
    }
  }

  lemma TwinNotLeast(g: Graph, versions: seq<IoHash>, prefix: seq<nat>, order: seq<nat>, i: nat, s: nat)
    requires |versions| == g.Size() && prefix <= order
    requires |prefix| <= i < |order| && order[i] != s && s !in order[..i]
    requires s in g.ReadyAfter(Elements(prefix))
    requires order[i] < |versions| && versions[order[i]] == versions[s]
    ensures !StrictlyLeast(g, versions, Elements(order[..i]), order[i])
  {
    assert prefix == order[..|prefix|];
    forall p | p in Elements(prefix)
      ensures p in Elements(order[..i])
    {
      var k :| 0 <= k < |prefix| && prefix[k] == p;
      assert order[..i][k] == p;
    }
    assert s in g.ReadyAfter(Elements(order[..i]));
    BelowIrreflexive(versions[s]);
  }

  lemma {:induction false} PrefixOfCanonical(g: Graph, versions: seq<IoHash>, prefix: seq<nat>, order: seq<nat>)
    requires |versions| == g.Size() && CanonicalPrefix(g, versions, prefix) && Canonical(g, versions, order)
    ensures prefix <= order
    decreases |prefix|
  {
    if prefix != [] {
      var n := |prefix| - 1;
      CanonicalPrefixDistinct(g, versions, prefix);
      DistinctNodesBound(prefix, g.Size());
      forall i | 0 <= i < n
        ensures StrictlyLeast(g, versions, Elements(prefix[..n][..i]), prefix[..n][i])
      {
        assert prefix[..n][..i] == prefix[..i];
      }
      PrefixOfCanonical(g, versions, prefix[..n], order);
      assert prefix[..n] == order[..n];
      assert StrictlyLeast(g, versions, Elements(prefix[..n]), prefix[n]);
      assert StrictlyLeast(g, versions, Elements(order[..n]), order[n]);
      if prefix[n] != order[n] {
        BelowAsymmetric(versions[prefix[n]], versions[order[n]]);
      }
      assert prefix == prefix[..n] + [prefix[n]];
    }
  }

  /** Two actions are twins when nothing tells them apart: one version, one set of prerequisites. */
  ghost predicate Twins(g: Graph, versions: seq<IoHash>, a: nat, b: nat)
    requires |versions| == g.Size()
  {
    a < g.Size() && b < g.Size() && a != b && versions[a] == versions[b]
    && Elements(g.prereqs[a]) == Elements(g.prereqs[b])
  }

  lemma {:induction false} CanonicalPrefixOf(g: Graph, versions: seq<IoHash>, order: seq<nat>, m: nat)
    requires |versions| == g.Size() && CanonicalPrefix(g, versions, order) && m <= |order|
    ensures CanonicalPrefix(g, versions, order[..m])
  {
    forall k | 0 <= k < m
      ensures StrictlyLeast(g, versions, Elements(order[..m][..k]), order[..m][k])
    {
      assert order[..m][..k] == order[..k];
    }
  }

  /** Twins become ready together, so no canonical order exists. */
  lemma TwinsBlock(g: Graph, versions: seq<IoHash>, a: nat, b: nat)
    requires |versions| == g.Size() && Twins(g, versions, a, b)
    ensures !exists order :: Canonical(g, versions, order)
  {
    forall order
      ensures !Canonical(g, versions, order)
    {
      if Canonical(g, versions, order) {
        CanonicalIsTopological(g, versions, order);
        assert a in Nodes(g.Size()) && b in Nodes(g.Size());
        var i :| 0 <= i < |order| && order[i] == a;
        var j :| 0 <= j < |order| && order[j] == b;
        var m := if i < j then i else j;
        TwinsReadyTogether(g, versions, order, m, a, b);
        CanonicalPrefixOf(g, versions, order, m);
        ReadyTwinsBlock(g, versions, order[..m], a, b);
      }
    }
  }

  lemma TwinsReadyTogether(g: Graph, versions: seq<IoHash>, order: seq<nat>, m: nat, a: nat, b: nat)
    requires |versions| == g.Size() && Canonical(g, versions, order) && Twins(g, versions, a, b)
    requires m < |order| && (order[m] == a || order[m] == b)
    requires a !in order[..m] && b !in order[..m]
    ensures a in g.ReadyAfter(Elements(order[..m])) && b in g.ReadyAfter(Elements(order[..m]))
  {
    assert StrictlyLeast(g, versions, Elements(order[..m]), order[m]);
    forall p
      ensures p in g.prereqs[a] <==> p in g.prereqs[b]
    {
      assert p in Elements(g.prereqs[a]) <==> p in Elements(g.prereqs[b]);
    }
  }

  /** A canonical order exists exactly if the graph is acyclic and no two actions with one version are
      ever ready together while the order is built. */
  lemma CanonicalExistsExactly(g: Graph, versions: seq<IoHash>)
    requires g.Valid() && |versions| == g.Size()
    ensures (exists order :: Canonical(g, versions, order)) <==> g.Acyclic() && NeverClash(g, versions)
  {
    if g.Acyclic() && NeverClash(g, versions) {
      var _ := ExtendCanonical(g, versions, []);
    }
    if order :| Canonical(g, versions, order) {
      CanonicalIsTopological(g, versions, order);
      TopologicalIsAcyclic(g, order);
      forall prefix | CanonicalPrefix(g, versions, prefix)
        ensures ApartIn(versions, g.ReadyAfter(Elements(prefix)))
      {
        var ready := g.ReadyAfter(Elements(prefix));
        if !ApartIn(versions, ready) {
          var r, s :| r in ready && s in ready && r != s && versions[r] == versions[s];
          ReadyTwinsBlock(g, versions, prefix, r, s);
        }
      }
    }
  }

  /** Actions that share a version are ordered by the graph. */
  ghost predicate SharersOrdered(g: Graph, versions: seq<IoHash>)
    requires |versions| == g.Size()
  {
    forall a: nat, b: nat :: a < g.Size() && b < g.Size() && a != b && versions[a] == versions[b] ==>
      g.ProperAncestor(a, b) || g.ProperAncestor(b, a)
  }

  /** An ancestor is done before its descendant is ready. */
  lemma AncestorIsDone(g: Graph, versions: seq<IoHash>, prefix: seq<nat>, a: nat, b: nat)
    requires |versions| == g.Size() && CanonicalPrefix(g, versions, prefix)
    requires a in g.ReadyAfter(Elements(prefix)) && g.ProperAncestor(b, a)
    ensures b in Elements(prefix)
  {
    var done := Elements(prefix);
    CanonicalPrefixDistinct(g, versions, prefix);
    forall x, p | x in done ensures x < g.Size() && (p in g.prereqs[x] ==> p in done) {
      var i :| 0 <= i < |prefix| && prefix[i] == x;
      assert p in g.prereqs[x] ==> p in prefix[..i];
    }
    var path :| g.PathBetween(path, a, b) && |path| >= 2;
    assert path[0 + 1] in g.prereqs[path[0]];
    ClosedHoldsAncestors(g, done, path[1..]);
  }

  /** A condition on the input alone: if only actions of which one needs the other share a version, in
      particular if no two actions do, then a canonical order exists exactly for the acyclic graphs. */
  lemma CanonicalExistsIfOrdered(g: Graph, versions: seq<IoHash>)
    requires g.Valid() && |versions| == g.Size() && SharersOrdered(g, versions)
    ensures (exists order :: Canonical(g, versions, order)) <==> g.Acyclic()
  {
    forall prefix | CanonicalPrefix(g, versions, prefix)
      ensures ApartIn(versions, g.ReadyAfter(Elements(prefix)))
    {
      var ready := g.ReadyAfter(Elements(prefix));
      forall a, b | a in ready && b in ready && a != b ensures versions[a] != versions[b] {
        if versions[a] == versions[b] {
          if g.ProperAncestor(b, a) {
            AncestorIsDone(g, versions, prefix, a, b);
          } else {
            AncestorIsDone(g, versions, prefix, b, a);
          }
        }
      }
    }
    CanonicalExistsExactly(g, versions);
  }

  /** If equal versions mean equal prerequisites, then a canonical order exists exactly for the acyclic
      graphs with pairwise distinct versions. */
  lemma CanonicalExistsForTwins(g: Graph, versions: seq<IoHash>)
    requires g.Valid() && |versions| == g.Size()
    requires forall a, b :: 0 <= a < g.Size() && 0 <= b < g.Size() && versions[a] == versions[b] && a != b
                            ==> Twins(g, versions, a, b)
    ensures (exists order :: Canonical(g, versions, order)) <==> g.Acyclic() && DistinctVersions(versions)
  {
    if DistinctVersions(versions) {
      CanonicalExistsIfOrdered(g, versions);
    } else {
      var a, b :| 0 <= a < b < |versions| && versions[a] == versions[b];
      TwinsBlock(g, versions, a, b);
    }
  }
}
