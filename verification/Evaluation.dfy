/**
 What an expression means, and what evaluating it under a budget and a depth limit computes.

 `Meaning` is the limit-free semantics, by recursion on the tree. `Limited` follows the interpreter:
 one counter goes up at every visited node, another follows the nesting. `Ideal` is the link between
 the two: the limit-free evaluation together with what it would cost.
 */
module Evaluation {
  import opened Wrappers
  import opened Syntax
  import opened Values

  const INSTRUCTION_BUDGET: nat := 100_000
  const MAX_EVAL_DEPTH: nat := 32

  // ---------------------------------------------------------------- the limit-free semantics

  function Meaning(e: Expr, b: Bindings): Outcome
    decreases e
  {
    match e
    case StringLit(text) => Ok(StrV(text))
    case IntLit(n) => Ok(IntV(n))
    case BoolLit(truth) => Ok(BoolV(truth))
    case NoneLit => Ok(Nothing)
    case Ref(root, fields) => ResolveRef(root, fields, b)
    case ListLit(items) =>
      var vs := Meanings(items, b);
      if vs.Err? then Err(vs.error) else Ok(ListV(vs.value))
    case Unary(op, inner) =>
      var v := Meaning(inner, b);
      if v.Err? then v else ApplyUnary(op, v.value)
    case Binary(op, lhs, rhs) =>
      var l := Meaning(lhs, b);
      if l.Err? then l
      else if op == And || op == Or then
        if !l.value.BoolV? then Err(BooleanRequired)
        else if l.value.truth == (op == Or) then l
        else
          var r := Meaning(rhs, b);
          if r.Err? then r else ToBool(r.value)
      else
        var r := Meaning(rhs, b);
        if r.Err? then r else ApplyComparison(op, l.value, r.value)
    case In(negate, lhs, rhs) =>
      var l := Meaning(lhs, b);
      if l.Err? then l
      else
        var r := Meaning(rhs, b);
        if r.Err? then r else ApplyIn(negate, l.value, r.value)
    case Cond(thenBranch, cond, elseBranch) =>
      var c := Meaning(cond, b);
      if c.Err? then c
      else if !c.value.BoolV? then Err(BooleanRequired)
      else if c.value.truth then Meaning(thenBranch, b)
      else Meaning(elseBranch, b)
    case Call(receiver, name, args) =>
      if receiver.NoneLit? then
        if name != "len" then Err(UnknownFunction)
        else if |args| != 1 then Err(WrongArgumentCount)
        else
          var v := Meaning(args[0], b);
          if v.Err? then v else Length(v.value)
      else
        var v := Meaning(receiver, b);
        if v.Err? then v
        else if TakesArgument(v.value, name, |args|) then
          var a := Meaning(args[0], b);
          if a.Err? then a else ApplyMethod(v.value, name, a.value)
        else ApplyPlain(v.value, name, |args|, b)
  }

  /** The meanings of a list of trees, up to the first error. */
  function Meanings(es: seq<Expr>, b: Bindings): (r: Result<seq<Value>, EvalError>)
    ensures r.Ok? ==> |r.value| == |es|
    decreases es
  {
    if es == [] then Ok([])
    else
      var v := Meaning(es[0], b);
      if v.Err? then Err(v.error)
      else
        var vs := Meanings(es[1..], b);
        if vs.Err? then vs else Ok([v.value] + vs.value)
  }

  // ---------------------------------------------------------------- one node at a time

  function Children(e: Expr): seq<Expr> {
    match e
    case ListLit(items) => items
    case Unary(_, inner) => [inner]
    case Binary(_, l, r) => [l, r]
    case In(_, l, r) => [l, r]
    case Cond(t, c, f) => [c, t, f]
    case Call(receiver, _, args) => if receiver.NoneLit? then args else [receiver] + args
    case _ => []
  }

  /** Having the values of the children visited so far, a node visits one more child or is done. */
  datatype Move = Visit(child: nat) | Done(outcome: Outcome)

  function Next(e: Expr, vals: seq<Value>, b: Bindings): (m: Move)
    ensures m.Visit? ==> |vals| <= m.child < |Children(e)|
  {
    match e
    case StringLit(text) => Done(Ok(StrV(text)))
    case IntLit(n) => Done(Ok(IntV(n)))
    case BoolLit(truth) => Done(Ok(BoolV(truth)))
    case NoneLit => Done(Ok(Nothing))
    case Ref(root, fields) => Done(ResolveRef(root, fields, b))
    case ListLit(items) => if |vals| < |items| then Visit(|vals|) else Done(Ok(ListV(vals)))
    case Unary(op, _) => if |vals| == 0 then Visit(0) else Done(ApplyUnary(op, vals[0]))
    case Binary(op, _, _) =>
      if |vals| == 0 then Visit(0)
      else if op == And || op == Or then
        if |vals| > 1 then Done(ToBool(vals[1]))
        else if !vals[0].BoolV? then Done(Err(BooleanRequired))
        else if vals[0].truth == (op == Or) then Done(Ok(vals[0]))
        else Visit(1)
      else if |vals| == 1 then Visit(1)
      else Done(ApplyComparison(op, vals[0], vals[1]))
    case In(negate, _, _) => if |vals| < 2 then Visit(|vals|) else Done(ApplyIn(negate, vals[0], vals[1]))
    case Cond(_, _, _) =>
      if |vals| == 0 then Visit(0)
      else if |vals| > 1 then Done(Ok(vals[1]))
      else if !vals[0].BoolV? then Done(Err(BooleanRequired))
      else Visit(if vals[0].truth then 1 else 2)
    case Call(receiver, name, args) =>
      if receiver.NoneLit? then
        if name != "len" then Done(Err(UnknownFunction))
        else if |args| != 1 then Done(Err(WrongArgumentCount))
        else if |vals| == 0 then Visit(0)
        else Done(Length(vals[0]))
      else if |vals| == 0 then Visit(0)
      else if !TakesArgument(vals[0], name, |args|) then Done(ApplyPlain(vals[0], name, |args|, b))
      else if |vals| == 1 then Visit(1)
      else Done(ApplyMethod(vals[0], name, vals[1]))
  }

  lemma ChildIsSmaller(e: Expr, i: nat)
    requires i < |Children(e)|
    ensures Children(e)[i] < e
  {
  }

  // ---------------------------------------------------------------- evaluation under the limits

  /** The result and the instruction count afterwards, from `n` instructions at nesting `d`. */
  function Limited(e: Expr, b: Bindings, n: nat, d: nat): (Outcome, nat)
    decreases e, 1, 0
  {
    if n + 1 > INSTRUCTION_BUDGET then (Err(BudgetExceeded), n + 1)
    else if d + 1 > MAX_EVAL_DEPTH then (Err(DepthExceeded), n + 1)
    else LimitedFrom(e, [], b, n + 1, d + 1)
  }

  function LimitedFrom(e: Expr, vals: seq<Value>, b: Bindings, n: nat, d: nat): (Outcome, nat)
    decreases e, 0, |Children(e)| - |vals|
  {
    match Next(e, vals, b)
    case Done(outcome) => (outcome, n)
    case Visit(i) =>
      ChildIsSmaller(e, i);
      var (r, after) := Limited(Children(e)[i], b, n, d);
      if r.Err? then (r, after) else LimitedFrom(e, vals + [r.value], b, after, d)
  }

  lemma VisitTurn(e: Expr, vals: seq<Value>, b: Bindings, n: nat, d: nat)
    requires Next(e, vals, b).Visit?
    ensures var (r, after) := Limited(Children(e)[Next(e, vals, b).child], b, n, d);
            LimitedFrom(e, vals, b, n, d)
            == if r.Err? then (r, after) else LimitedFrom(e, vals + [r.value], b, after, d)
  {
    hide Limited, Next, Children;
  }

  lemma DoneTurn(e: Expr, vals: seq<Value>, b: Bindings, n: nat, d: nat)
    requires Next(e, vals, b).Done?
    ensures LimitedFrom(e, vals, b, n, d) == (Next(e, vals, b).outcome, n)
  {
    hide Limited, Next, Children;
  }

  // ---------------------------------------------------------------- what the limit-free evaluation costs

  /** A limit-free evaluation: its outcome, the nodes it visits and how deep it nests. */
  datatype Run = Run(outcome: Outcome, visits: nat, height: nat)

  function Max(x: nat, y: nat): nat {
    if x < y then y else x
  }

  function Ideal(e: Expr, b: Bindings): Run
    decreases e, 1, 0
  {
    var r := IdealFrom(e, [], b);
    Run(r.outcome, r.visits + 1, r.height + 1)
  }

  function IdealFrom(e: Expr, vals: seq<Value>, b: Bindings): Run
    decreases e, 0, |Children(e)| - |vals|
  {
    match Next(e, vals, b)
    case Done(outcome) => Run(outcome, 0, 0)
    case Visit(i) =>
      ChildIsSmaller(e, i);
      var r := Ideal(Children(e)[i], b);
      if r.outcome.Err? then r
      else
        var s := IdealFrom(e, vals + [r.outcome.value], b);
        Run(s.outcome, r.visits + s.visits, Max(r.height, s.height))
  }

  lemma NothingMore(e: Expr, vals: seq<Value>, b: Bindings)
    requires Next(e, vals, b).Done?
    ensures IdealFrom(e, vals, b) == Run(Next(e, vals, b).outcome, 0, 0)
  {
    hide Ideal, Next, Children;
  }

  lemma IdealTurn(e: Expr, vals: seq<Value>, b: Bindings)
    requires Next(e, vals, b).Visit?
    ensures var r := Ideal(Children(e)[Next(e, vals, b).child], b);
            if r.outcome.Err? then IdealFrom(e, vals, b) == r
            else
              var s := IdealFrom(e, vals + [r.outcome.value], b);
              IdealFrom(e, vals, b) == Run(s.outcome, r.visits + s.visits, Max(r.height, s.height))
  {
    hide Ideal, Next, Children;
  }

  /** An evaluation that stays within both limits. */
  predicate Fits(r: Run, n: nat, d: nat) {
    n + r.visits <= INSTRUCTION_BUDGET && d + r.height <= MAX_EVAL_DEPTH
  }

  predicate LimitError(r: Outcome) {
    r == Err(BudgetExceeded) || r == Err(DepthExceeded)
  }

  /** Limited evaluation gives the ideal outcome exactly when the ideal run fits, else a limit error. */
  ghost predicate Exact(limited: (Outcome, nat), ideal: Run, n: nat, d: nat) {
    if Fits(ideal, n, d) then limited == (ideal.outcome, n + ideal.visits)
    else LimitError(limited.0)
  }

  lemma {:induction false} LimitedIsExact(e: Expr, b: Bindings, n: nat, d: nat)
    ensures Exact(Limited(e, b, n, d), Ideal(e, b), n, d)
    decreases e, 1, 0
  {
    if n + 1 <= INSTRUCTION_BUDGET && d + 1 <= MAX_EVAL_DEPTH {
      LimitedFromIsExact(e, [], b, n + 1, d + 1);
    }
  }

  lemma {:induction false} LimitedFromIsExact(e: Expr, vals: seq<Value>, b: Bindings, n: nat, d: nat)
    requires n <= INSTRUCTION_BUDGET && d <= MAX_EVAL_DEPTH
    ensures Exact(LimitedFrom(e, vals, b, n, d), IdealFrom(e, vals, b), n, d)
    decreases e, 0, |Children(e)| - |vals|
  {
    var m := Next(e, vals, b);
    if m.Done? {
      return;
    }
    hide Limited, LimitedFrom, Ideal, IdealFrom;
    ChildIsSmaller(e, m.child);
    var child := Children(e)[m.child];
    LimitedIsExact(child, b, n, d);
    var (limited, after) := Limited(child, b, n, d);
    var ideal := Ideal(child, b);
    VisitTurn(e, vals, b, n, d);
    IdealTurn(e, vals, b);
    if limited.Ok? {
      LimitedFromIsExact(e, vals + [limited.value], b, after, d);
    }
  }

  // ---------------------------------------------------------------- the ideal run has the meaning

  /** The run of a node that visits at most two children. */
  function TwoVisits(e: Expr, b: Bindings): Run
    requires !e.ListLit?
  {
    var m := Next(e, [], b);
    if m.Done? then Run(m.outcome, 1, 1)
    else
      var first := Ideal(Children(e)[m.child], b);
      if first.outcome.Err? then Run(first.outcome, 1 + first.visits, 1 + first.height)
      else
        var m1 := Next(e, [first.outcome.value], b);
        if m1.Done? then Run(m1.outcome, 1 + first.visits, 1 + first.height)
        else
          var second := Ideal(Children(e)[m1.child], b);
          var outcome := if second.outcome.Err? then second.outcome
                         else Next(e, [first.outcome.value, second.outcome.value], b).outcome;
          Run(outcome, 1 + first.visits + second.visits, 1 + Max(first.height, second.height))
  }

  lemma TwoAreEnough(e: Expr, vals: seq<Value>, b: Bindings)
    requires !e.ListLit? && |vals| == 2
    ensures Next(e, vals, b).Done?
  {
  }

  lemma IdealStart(e: Expr, b: Bindings)
    ensures var r := IdealFrom(e, [], b); Ideal(e, b) == Run(r.outcome, r.visits + 1, r.height + 1)
  {
  }

  /** Every node but a list literal visits two children at most. */
  lemma AtMostTwoVisits(e: Expr, b: Bindings)
    requires !e.ListLit?
    ensures Ideal(e, b) == TwoVisits(e, b)
  {
    hide Ideal, IdealFrom, Next, Children;
    IdealStart(e, b);
    var m := Next(e, [], b);
    if m.Done? {
      NothingMore(e, [], b);
      return;
    }
    IdealTurn(e, [], b);
    var first := Ideal(Children(e)[m.child], b).outcome;
    if first.Err? {
      return;
    }
    var v := first.value;
    assert [] + [v] == [v];
    var m1 := Next(e, [v], b);
    if m1.Done? {
      NothingMore(e, [v], b);
      return;
    }
    IdealTurn(e, [v], b);
    var second := Ideal(Children(e)[m1.child], b).outcome;
    if second.Ok? {
      assert [v] + [second.value] == [v, second.value];
      TwoAreEnough(e, [v, second.value], b);
      NothingMore(e, [v, second.value], b);
    }
  }

  lemma {:induction false} IdealMeans(e: Expr, b: Bindings)
    ensures Ideal(e, b).outcome == Meaning(e, b)
    decreases e, 1, 0
  {
    match e {
      case ListLit(items) =>
        IdealListMeans(e, [], b);
        assert items[0..] == items;
        var vs := Meanings(items, b);
        assert vs.Ok? ==> [] + vs.value == vs.value;
        assert Ideal(e, b).outcome == IdealFrom(e, [], b).outcome;
      case Unary(_, inner) => IdealMeans(inner, b); AtMostTwoVisits(e, b);
      case Binary(_, l, r) => IdealMeans(l, b); IdealMeans(r, b); AtMostTwoVisits(e, b);
      case In(_, l, r) => IdealMeans(l, b); IdealMeans(r, b); AtMostTwoVisits(e, b);
      case Cond(t, c, f) => IdealMeans(t, b); IdealMeans(c, b); IdealMeans(f, b); AtMostTwoVisits(e, b);
      case Call(receiver, _, args) =>
        IdealMeans(receiver, b);
        if |args| == 1 {
          IdealMeans(args[0], b);
        }
        AtMostTwoVisits(e, b);
      case _ =>
    }
  }

  lemma ListNext(e: Expr, vals: seq<Value>, b: Bindings)
    requires e.ListLit? && |vals| <= |e.items|
    ensures Children(e) == e.items
    ensures Next(e, vals, b) == if |vals| == |e.items| then Done(Ok(ListV(vals))) else Visit(|vals|)
  {
  }

  lemma {:induction false} IdealListMeans(e: Expr, vals: seq<Value>, b: Bindings)
    requires e.ListLit? && |vals| <= |e.items|
    ensures var vs := Meanings(e.items[|vals|..], b);
            IdealFrom(e, vals, b).outcome == if vs.Err? then Err(vs.error) else Ok(ListV(vals + vs.value))
    decreases e, 0, |e.items| - |vals|
  {
    hide Ideal, IdealFrom, Next, Children, Meaning;
    ListNext(e, vals, b);
    var left := e.items[|vals|..];
    if left == [] {
      NothingMore(e, vals, b);
      assert vals + [] == vals;
    } else {
      var item := e.items[|vals|];
      assert left[0] == item && left[1..] == e.items[|vals| + 1..];
      IdealMeans(item, b);
      IdealTurn(e, vals, b);
      var v := Meaning(item, b);
      if v.Ok? {
        var more := vals + [v.value];
        IdealListMeans(e, more, b);
        var vs := Meanings(left[1..], b);
        if vs.Ok? {
          assert vals + ([v.value] + vs.value) == more + vs.value;
        }
      }
    }
  }

  // ---------------------------------------------------------------- static bounds on the cost

  function Size(e: Expr): nat
    decreases e, 1, 0
  {
    1 + SizesFrom(e, 0)
  }

  function SizesFrom(e: Expr, k: nat): nat
    decreases e, 0, |Children(e)| - k
  {
    if k >= |Children(e)| then 0
    else
      ChildIsSmaller(e, k);
      Size(Children(e)[k]) + SizesFrom(e, k + 1)
  }

  function Height(e: Expr): nat
    decreases e, 1, 0
  {
    1 + HeightsFrom(e, 0)
  }

  function HeightsFrom(e: Expr, k: nat): nat
    decreases e, 0, |Children(e)| - k
  {
    if k >= |Children(e)| then 0
    else
      ChildIsSmaller(e, k);
      Max(Height(Children(e)[k]), HeightsFrom(e, k + 1))
  }

  lemma {:induction false} ChildWithin(e: Expr, k: nat, i: nat)
    requires k <= i < |Children(e)|
    ensures Size(Children(e)[i]) <= SizesFrom(e, k)
    ensures Height(Children(e)[i]) <= HeightsFrom(e, k)
    decreases i - k
  {
    if k < i {
      ChildWithin(e, k + 1, i);
    }
  }

  /** Evaluation visits no node twice and nests no deeper than the tree. */
  lemma {:induction false} CostIsBounded(e: Expr, b: Bindings)
    ensures Ideal(e, b).visits <= Size(e) && Ideal(e, b).height <= Height(e)
    decreases e, 1, 0
  {
    CostFromIsBounded(e, [], b);
  }

  /** A node that leaves a child out visits no other child afterwards. */
  lemma SkippingEnds(e: Expr, vals: seq<Value>, v: Value, b: Bindings)
    requires Next(e, vals, b).Visit? && Next(e, vals, b).child != |vals|
    ensures IdealFrom(e, vals + [v], b).visits == 0 && IdealFrom(e, vals + [v], b).height == 0
  {
    hide Ideal;
    assert Next(e, vals + [v], b).Done?;
  }

  lemma {:induction false} CostFromIsBounded(e: Expr, vals: seq<Value>, b: Bindings)
    ensures IdealFrom(e, vals, b).visits <= SizesFrom(e, |vals|)
    ensures IdealFrom(e, vals, b).height <= HeightsFrom(e, |vals|)
    decreases e, 0, |Children(e)| - |vals|
  {
    hide Next, Ideal, IdealFrom;
    var m := Next(e, vals, b);
    if m.Done? {
      NothingMore(e, vals, b);
      return;
    }
    ChildIsSmaller(e, m.child);
    ChildWithin(e, |vals|, m.child);
    CostIsBounded(Children(e)[m.child], b);
    var r := Ideal(Children(e)[m.child], b);
    IdealTurn(e, vals, b);
    if r.outcome.Err? {
      return;
    }
    var more := vals + [r.outcome.value];
    if m.child == |vals| {
      CostFromIsBounded(e, more, b);
      assert SizesFrom(e, |vals|) == Size(Children(e)[|vals|]) + SizesFrom(e, |vals| + 1);
    } else {
      SkippingEnds(e, vals, r.outcome.value, b);
    }
  }

  // ---------------------------------------------------------------- the theorems

  /** The outcome of a top-level evaluation. */
  function Evaluate(e: Expr, b: Bindings): Outcome {
    Limited(e, b, 0, 0).0
  }

  lemma {:induction false} MeaningIsNoLimitError(e: Expr, b: Bindings)
    ensures !LimitError(Meaning(e, b))
    decreases e
  {
    match e {
      case ListLit(items) => MeaningsAreNoLimitError(items, b);
      case Unary(_, inner) => MeaningIsNoLimitError(inner, b);
      case Binary(_, l, r) => MeaningIsNoLimitError(l, b); MeaningIsNoLimitError(r, b);
      case In(_, l, r) => MeaningIsNoLimitError(l, b); MeaningIsNoLimitError(r, b);
      case Cond(t, c, f) =>
        MeaningIsNoLimitError(t, b); MeaningIsNoLimitError(c, b); MeaningIsNoLimitError(f, b);
      case Call(receiver, _, args) =>
        MeaningIsNoLimitError(receiver, b);
        if |args| == 1 {
          MeaningIsNoLimitError(args[0], b);
        }
      case _ =>
    }
  }

  lemma {:induction false} MeaningsAreNoLimitError(es: seq<Expr>, b: Bindings)
    ensures var r := Meanings(es, b); r.Err? ==> r.error != BudgetExceeded && r.error != DepthExceeded
    decreases es
  {
    if es != [] {
      MeaningIsNoLimitError(es[0], b);
      MeaningsAreNoLimitError(es[1..], b);
    }
  }

  /** Limited evaluation refines the limit-free semantics: it gives the same outcome, unless the
      limit-free evaluation visits too many nodes or nests too deep, and then it says so. */
  lemma LimitedRefinesMeaning(e: Expr, b: Bindings)
    ensures LimitError(Evaluate(e, b)) <==> !Fits(Ideal(e, b), 0, 0)
    ensures !LimitError(Evaluate(e, b)) ==> Evaluate(e, b) == Meaning(e, b)
  {
    LimitedIsExact(e, b, 0, 0);
    IdealMeans(e, b);
    MeaningIsNoLimitError(e, b);
  }

  /** On a tree within both limits the two semantics agree on every outcome. */
  lemma SmallTreesAgree(e: Expr, b: Bindings)
    requires Size(e) <= 100_000 && Height(e) <= 32
    ensures Evaluate(e, b) == Meaning(e, b)
  {
    CostIsBounded(e, b);
    LimitedRefinesMeaning(e, b);
  }

  // ---------------------------------------------------------------- integers stay in range

  /** Integers within plus or minus 2^63-1, and lengths that a runtime string or list can have. */
  predicate InRange(v: Value) {
    match v
    case IntV(n) => -MAX_LONG <= n <= MAX_LONG
    case StrV(s) => |s| <= INT_MAX
    case ListV(items) => |items| <= INT_MAX && forall i :: 0 <= i < |items| ==> InRange(items[i])
    case _ => true
  }

  /** A tree whose texts and lists have lengths the runtime can hold. */
  predicate Storable(e: Expr) {
    match e
    case StringLit(s) => |s| <= INT_MAX
    case ListLit(items) => |items| <= INT_MAX && forall i :: 0 <= i < |items| ==> Storable(items[i])
    case Unary(_, inner) => Storable(inner)
    case Binary(_, l, r) => Storable(l) && Storable(r)
    case In(_, l, r) => Storable(l) && Storable(r)
    case Cond(t, c, f) => Storable(t) && Storable(c) && Storable(f)
    case Call(receiver, _, args) => Storable(receiver) && forall i :: 0 <= i < |args| ==> Storable(args[i])
    case _ => true
  }

  /** Bindings the runtime can hold; case mapping keeps the length of a text. */
  ghost predicate StorableBindings(b: Bindings) {
    && |b.platform| <= INT_MAX && |b.configuration| <= INT_MAX && |b.stationRole| <= INT_MAX
    && |b.architecture| <= INT_MAX && |b.tier| <= INT_MAX && |b.simdLevel| <= INT_MAX
    && (forall s :: |b.toLower(s)| == |s|)
    && (forall s :: |b.toUpper(s)| == |s|)
  }

  ghost predicate InRangeOutcome(r: Outcome) {
    r.Ok? ==> InRange(r.value)
  }

  lemma {:induction false} IntegersStayInRange(e: Expr, b: Bindings)
    requires Buildable(e) && Storable(e) && StorableBindings(b)
    ensures InRangeOutcome(Meaning(e, b))
    decreases e
  {
    match e {
      case ListLit(items) => ListsStayInRange(items, b);
      case Unary(_, inner) => IntegersStayInRange(inner, b);
      case Binary(_, l, r) => IntegersStayInRange(l, b); IntegersStayInRange(r, b);
      case In(_, l, r) => IntegersStayInRange(l, b); IntegersStayInRange(r, b);
      case Cond(t, c, f) =>
        IntegersStayInRange(t, b); IntegersStayInRange(c, b); IntegersStayInRange(f, b);
      case Call(receiver, _, args) =>
        IntegersStayInRange(receiver, b);
        if |args| == 1 {
          IntegersStayInRange(args[0], b);
        }
      case _ =>
    }
  }

  predicate AllInRange(vs: seq<Value>) {
    forall i :: 0 <= i < |vs| ==> InRange(vs[i])
  }

  lemma PrependInRange(v: Value, vs: seq<Value>)
    requires InRange(v) && AllInRange(vs)
    ensures AllInRange([v] + vs)
  {
  }

  lemma {:induction false} ListsStayInRange(es: seq<Expr>, b: Bindings)
    requires StorableBindings(b)
    requires forall i :: 0 <= i < |es| ==> Buildable(es[i]) && Storable(es[i])
    ensures Meanings(es, b).Ok? ==> AllInRange(Meanings(es, b).value)
    decreases es
  {
    if es != [] {
      IntegersStayInRange(es[0], b);
      ListsStayInRange(es[1..], b);
      var v, tail := Meaning(es[0], b), Meanings(es[1..], b);
      if v.Ok? && tail.Ok? {
        PrependInRange(v.value, tail.value);
        assert Meanings(es, b).value == [v.value] + tail.value;
      }
    }
  }

  /** Negation is never asked for the one integer it would get wrong. */
  lemma NegationIsExact(e: Expr, b: Bindings, n: int)
    requires Buildable(e) && Storable(e) && StorableBindings(b)
    requires Meaning(e, b) == Ok(IntV(n))
    ensures Meaning(Unary(Neg, e), b) == Ok(IntV(-n))
  {
    IntegersStayInRange(e, b);
  }
}
