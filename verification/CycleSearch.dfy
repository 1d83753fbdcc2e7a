/**
 Why the cycle search stops, and what it has established when it does.

 The search keeps no global visited set: a node that has been popped may be entered again along
 another path. What shrinks is a weight over the simple path on the stack, in which a frame counts
 for more the nearer it is to the bottom.
 */
module CycleSearch {
  import opened Graphs

  /** A stack entry: a node, and the index of the prerequisite to visit next. */
  datatype Frame = Frame(node: nat, next: nat)

  // ---------------------------------------------------------------- safe nodes

  lemma {:induction false} GroundedMonotone(g: Graph, a: nat, k: nat, m: nat)
    requires g.Grounded(a, k) && k <= m
    ensures g.Grounded(a, m)
    decreases k
  {
    forall p | p in g.prereqs[a]
      ensures g.Grounded(p, m - 1)
    {
      GroundedMonotone(g, p, k - 1, m - 1);
    }
  }

  lemma {:induction false} CommonBound(g: Graph, ps: seq<nat>) returns (k: nat)
    requires forall p :: p in ps ==> g.Safe(p)
    ensures forall p :: p in ps ==> g.Grounded(p, k)
  {
    if ps == [] {
      k := 0;
    } else {
      var init, last := ps[..|ps| - 1], ps[|ps| - 1];
      var m := CommonBound(g, init);
      assert g.Safe(last);
      var n :| g.Grounded(last, n);
      k := if m < n then n else m;
      forall p | p in ps
        ensures g.Grounded(p, k)
      {
        if p in init {
          GroundedMonotone(g, p, m, k);
        } else {
          GroundedMonotone(g, last, n, k);
        }
      }
    }
  }

  /** A node is safe once all its prerequisites are. */
  lemma SafeFromPrerequisites(g: Graph, a: nat)
    requires a < g.Size() && forall p :: p in g.prereqs[a] ==> g.Safe(p)
    ensures g.Safe(a)
  {
    var k := CommonBound(g, g.prereqs[a]);
    assert g.Grounded(a, k + 1);
  }

  // ---------------------------------------------------------------- the shape of the stack

  function Trail(work: seq<Frame>): (r: seq<nat>)
    ensures |r| == |work| && forall i :: 0 <= i < |work| ==> r[i] == work[i].node
  {
    seq(|work|, i requires 0 <= i < |work| => work[i].node)
  }

  /** The frames of a well-formed stack are within the graph. */
  predicate FramesOk(g: Graph, work: seq<Frame>) {
    forall i :: 0 <= i < |work| ==> work[i].node < g.Size() && work[i].next <= |g.prereqs[work[i].node]|
  }

  /** The stack holds a simple path of prerequisite edges. Below the top, a frame's index has just
      passed the edge that leads to the next frame; every prerequisite a frame has finished with is
      safe. */
  ghost predicate StackOk(g: Graph, work: seq<Frame>) {
    && FramesOk(g, work)
    && Distinct(Trail(work))
    && (forall i :: 0 <= i < |work| - 1 ==> LeadsTo(g, work[i], work[i + 1].node))
    && (forall i :: 0 <= i < |work| ==> Finished(g, work[i], if i < |work| - 1 then work[i].next - 1 else work[i].next))
  }

  ghost predicate LeadsTo(g: Graph, frame: Frame, child: nat)
    requires frame.node < g.Size() && frame.next <= |g.prereqs[frame.node]|
  {
    frame.next > 0 && g.prereqs[frame.node][frame.next - 1] == child
  }

  ghost predicate Finished(g: Graph, frame: Frame, n: int)
    requires frame.node < g.Size() && frame.next <= |g.prereqs[frame.node]| && n <= frame.next
  {
    forall j :: 0 <= j < n ==> g.Safe(g.prereqs[frame.node][j])
  }

  lemma TrailIsPath(g: Graph, work: seq<Frame>)
    requires StackOk(g, work) && work != []
    ensures g.IsPath(Trail(work))
    ensures |work| <= g.Size()
  {
    forall i | 0 <= i < |work| - 1
      ensures work[i + 1].node in g.prereqs[work[i].node]
    {
      assert LeadsTo(g, work[i], work[i + 1].node);
    }
    DistinctNodesBound(Trail(work), g.Size());
  }

  // ---------------------------------------------------------------- the weight

  function Power(b: nat, n: nat): nat {
    if n == 0 then 1 else b * Power(b, n - 1)
  }

  lemma {:induction false} PowerPositive(b: nat, n: nat)
    requires b > 0
    ensures Power(b, n) > 0
  {
    if n > 0 {
      PowerPositive(b, n - 1);
    }
  }

  /** More than the number of prerequisites of any node, with room for one unit per visit. */
  function Base(g: Graph): nat {
    MaxLength(g.prereqs) + 2
  }

  function MaxLength(lists: seq<seq<nat>>): nat {
    if lists == [] then 0
    else
      var m, n := MaxLength(lists[..|lists| - 1]), |lists[|lists| - 1]|;
      if m < n then n else m
  }

  lemma {:induction false} MaxLengthBounds(lists: seq<seq<nat>>, i: nat)
    requires i < |lists|
    ensures |lists[i]| <= MaxLength(lists)
  {
    if i < |lists| - 1 {
      MaxLengthBounds(lists[..|lists| - 1], i);
    }
  }

  /** The unvisited prerequisites of a frame, plus one for leaving it. */
  function Pending(g: Graph, frame: Frame): nat
    requires frame.node < g.Size() && frame.next <= |g.prereqs[frame.node]|
  {
    |g.prereqs[frame.node]| - frame.next + 1
  }

  function Weight(g: Graph, work: seq<Frame>): nat
    requires FramesOk(g, work) && |work| <= g.Size()
  {
    if work == [] then 0
    else
      var n := |work| - 1;
      Weight(g, work[..n]) + Pending(g, work[n]) * Power(Base(g), g.Size() - n)
  }

  lemma WeightOnTop(g: Graph, work: seq<Frame>, top: Frame)
    requires FramesOk(g, work) && |work| < g.Size()
    requires top.node < g.Size() && top.next <= |g.prereqs[top.node]|
    ensures FramesOk(g, work + [top])
    ensures Weight(g, work + [top]) == Weight(g, work) + Pending(g, top) * Power(Base(g), g.Size() - |work|)
  {
    hide Power, Base, Pending;
    assert (work + [top])[..|work|] == work && (work + [top])[|work|] == top;
  }

  /** Leaving a frame lowers the weight. */
  lemma WeightAfterPop(g: Graph, work: seq<Frame>)
    requires FramesOk(g, work) && work != [] && |work| <= g.Size()
    ensures Weight(g, work[..|work| - 1]) < Weight(g, work)
  {
    hide Power, Base, Weight;
    var n := |work| - 1;
    assert work[..n] + [work[n]] == work;
    WeightOnTop(g, work[..n], work[n]);
    BasePositive(g);
    PowerPositive(Base(g), g.Size() - n);
    Scaled(1, Pending(g, work[n]), Power(Base(g), g.Size() - n));
  }

  lemma BasePositive(g: Graph)
    ensures Base(g) >= 2
  {
  }

  lemma Scaled(a: nat, b: nat, c: nat)
    requires a <= b
    ensures a * c <= b * c
  {
  }

  /** One unit of the parent outweighs all that a child can hold. */
  lemma Outweighs(base: nat, pending: nat, held: nat, below: nat)
    requires 0 < base && held <= base - 1 && below > 0 && pending > 0
    ensures (pending - 1) * (base * below) + held * below < pending * (base * below)
  {
    Scaled(held, base - 1, below);
    assert base * below == (base - 1) * below + below;
    assert pending * (base * below) == (pending - 1) * (base * below) + base * below;
  }

  /** Entering a child lowers it too: what the parent gives up outweighs all the child can hold. */
  lemma WeightAfterPush(g: Graph, work: seq<Frame>, child: nat)
    requires FramesOk(g, work) && work != [] && |work| < g.Size() && child < g.Size()
    requires work[|work| - 1].next < |g.prereqs[work[|work| - 1].node]|
    ensures FramesOk(g, PushChild(work, child))
    ensures Weight(g, PushChild(work, child)) < Weight(g, work)
  {
    hide Power, Weight;
    var n := |work| - 1;
    var rest, top := work[..n], work[n];
    var advanced, entered := Frame(top.node, top.next + 1), Frame(child, 0);
    assert rest + [top] == work;
    WeightOnTop(g, rest, top);
    WeightOnTop(g, rest, advanced);
    WeightOnTop(g, rest + [advanced], entered);
    MaxLengthBounds(g.prereqs, child);
    var below := Power(Base(g), g.Size() - n - 1);
    BasePositive(g);
    PowerPositive(Base(g), g.Size() - n - 1);
    PowerStep(Base(g), g.Size() - n);
    Outweighs(Base(g), Pending(g, top), Pending(g, entered), below);
  }

  lemma PowerStep(b: nat, n: nat)
    requires n > 0
    ensures Power(b, n) == b * Power(b, n - 1)
  {
  }

  /** The stack after the top frame has moved on into `child`. */
  function PushChild(work: seq<Frame>, child: nat): seq<Frame>
    requires work != []
  {
    var top := work[|work| - 1];
    work[..|work| - 1] + [Frame(top.node, top.next + 1)] + [Frame(child, 0)]
  }

  // ---------------------------------------------------------------- the position index

  /** The index maps exactly the nodes of the trail, each to its position. */
  ghost predicate Indexed(index: map<nat, nat>, trail: seq<nat>) {
    && (forall i :: 0 <= i < |trail| ==> trail[i] in index && index[trail[i]] == i)
    && (forall v :: v in index ==> index[v] < |trail| && trail[index[v]] == v)
  }

  lemma IndexedPush(index: map<nat, nat>, trail: seq<nat>, child: nat)
    requires Indexed(index, trail) && child !in index
    ensures Indexed(index[child := |trail|], trail + [child])
    ensures child !in trail
  {
  }

  lemma IndexedPop(index: map<nat, nat>, trail: seq<nat>)
    requires Indexed(index, trail) && trail != []
    ensures Indexed(index - {trail[|trail| - 1]}, trail[..|trail| - 1])
  {
    var last, init, smaller := trail[|trail| - 1], trail[..|trail| - 1], index - {trail[|trail| - 1]};
    forall i | 0 <= i < |init|
      ensures init[i] in smaller && smaller[init[i]] == i
    {
      assert index[trail[i]] == i && index[last] == |trail| - 1;
    }
  }

  // ---------------------------------------------------------------- the two moves

  /** A frame with nothing left to visit is safe, and so its parent has finished one prerequisite more. */
  lemma StackAfterPop(g: Graph, work: seq<Frame>)
    requires StackOk(g, work) && work != []
    requires work[|work| - 1].next == |g.prereqs[work[|work| - 1].node]|
    ensures g.Safe(work[|work| - 1].node)
    ensures StackOk(g, work[..|work| - 1])
    ensures Trail(work[..|work| - 1]) == Trail(work)[..|work| - 1]
  {
    var n := |work| - 1;
    var top, rest := work[n], work[..n];
    assert Finished(g, top, top.next);
    forall p | p in g.prereqs[top.node]
      ensures g.Safe(p)
    {
      var j :| 0 <= j < top.next && g.prereqs[top.node][j] == p;
    }
    SafeFromPrerequisites(g, top.node);
    assert Trail(rest) == Trail(work)[..n];
    forall i | 0 <= i < n
      ensures Finished(g, rest[i], if i < n - 1 then rest[i].next - 1 else rest[i].next)
    {
      assert Finished(g, work[i], work[i].next - 1);
      assert LeadsTo(g, work[i], work[i + 1].node);
    }
    forall i | 0 <= i < n - 1
      ensures LeadsTo(g, rest[i], rest[i + 1].node)
    {
      assert LeadsTo(g, work[i], work[i + 1].node);
    }
  }

  lemma StackAfterPush(g: Graph, work: seq<Frame>)
    requires g.Valid() && StackOk(g, work) && work != []
    requires work[|work| - 1].next < |g.prereqs[work[|work| - 1].node]|
    requires g.prereqs[work[|work| - 1].node][work[|work| - 1].next] !in Trail(work)
    ensures var top := work[|work| - 1];
            var pushed := PushChild(work, g.prereqs[top.node][top.next]);
            && StackOk(g, pushed)
            && Trail(pushed) == Trail(work) + [g.prereqs[top.node][top.next]]
  {
    var n := |work| - 1;
    var top := work[n];
    var child := g.prereqs[top.node][top.next];
    var pushed := PushChild(work, child);
    assert Trail(pushed) == Trail(work) + [child];
    forall i | 0 <= i < |pushed| - 1
      ensures LeadsTo(g, pushed[i], pushed[i + 1].node)
    {
      if i < n {
        assert LeadsTo(g, work[i], work[i + 1].node);
      }
    }
    forall i | 0 <= i < |pushed|
      ensures Finished(g, pushed[i], if i < |pushed| - 1 then pushed[i].next - 1 else pushed[i].next)
    {
      if i <= n {
        assert Finished(g, work[i], if i < n then work[i].next - 1 else work[i].next);
      }
    }
  }

  /** Meeting a node of the trail again closes a cycle whose nodes are otherwise distinct. */
  lemma TrailCloses(g: Graph, work: seq<Frame>, from: nat, child: nat)
    requires g.Valid() && StackOk(g, work) && from < |work|
    requires child in g.prereqs[work[|work| - 1].node] && Trail(work)[from] == child
    ensures var cycle := Trail(work)[from..] + [child];
            g.IsCycle(cycle) && Distinct(cycle[..|cycle| - 1])
  {
    TrailIsPath(g, work);
    var cycle := Trail(work)[from..] + [child];
    assert cycle[..|cycle| - 1] == Trail(work)[from..];
    forall i | 0 <= i < |cycle| - 1
      ensures cycle[i + 1] in g.prereqs[cycle[i]]
    {
      assert cycle[i] == Trail(work)[from + i];
    }
  }
}
