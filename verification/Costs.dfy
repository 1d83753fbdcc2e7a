/**
 What an evaluation costs, told from the tree and the values of its parts: every visited node counts one
 instruction, and every node is one level deeper than the one that visits it.
 */
module Costs {
  import opened Wrappers
  import opened Syntax
  import opened Values
  import opened Evaluation

  /** The right operand is looked at. */
  predicate NeedsRight(op: BinaryOp, l: Outcome) {
    l.Ok? && (op == And ==> l.value == BoolV(true)) && (op == Or ==> l.value == BoolV(false))
  }

  /** The argument of a method call is looked at: a text is asked one of the three questions. */
  predicate NeedsArgument(o: Outcome, name: string, count: nat) {
    o.Ok? && o.value.StrV? && count == 1 && (name == "startswith" || name == "endswith" || name == "contains")
  }

  /** How many nodes the limit-free evaluation visits. */
  function Visits(e: Expr, b: Bindings): nat
    decreases e
  {
    match e
    case ListLit(items) => 1 + VisitsOfItems(items, b)
    case Unary(_, inner) => 1 + Visits(inner, b)
    case Binary(op, l, r) => 1 + Visits(l, b) + if NeedsRight(op, Meaning(l, b)) then Visits(r, b) else 0
    case In(_, l, r) => 1 + Visits(l, b) + if Meaning(l, b).Ok? then Visits(r, b) else 0
    case Cond(t, c, f) =>
      1 + Visits(c, b) + if Meaning(c, b) == Ok(BoolV(true)) then Visits(t, b)
                         else if Meaning(c, b) == Ok(BoolV(false)) then Visits(f, b) else 0
    case Call(receiver, name, args) =>
      if receiver.NoneLit? then 1 + if name == "len" && |args| == 1 then Visits(args[0], b) else 0
      else 1 + Visits(receiver, b) + if NeedsArgument(Meaning(receiver, b), name, |args|) then Visits(args[0], b) else 0
    case _ => 1
  }

  /** The items of a list literal are visited up to the first error. */
  function VisitsOfItems(es: seq<Expr>, b: Bindings): nat
    decreases es
  {
    if es == [] then 0
    else Visits(es[0], b) + if Meaning(es[0], b).Ok? then VisitsOfItems(es[1..], b) else 0
  }

  /** How deep the limit-free evaluation nests. */
  function Nesting(e: Expr, b: Bindings): nat
    decreases e
  {
    match e
    case ListLit(items) => 1 + NestingOfItems(items, b)
    case Unary(_, inner) => 1 + Nesting(inner, b)
    case Binary(op, l, r) => 1 + Max(Nesting(l, b), if NeedsRight(op, Meaning(l, b)) then Nesting(r, b) else 0)
    case In(_, l, r) => 1 + Max(Nesting(l, b), if Meaning(l, b).Ok? then Nesting(r, b) else 0)
    case Cond(t, c, f) =>
      1 + Max(Nesting(c, b), if Meaning(c, b) == Ok(BoolV(true)) then Nesting(t, b)
                             else if Meaning(c, b) == Ok(BoolV(false)) then Nesting(f, b) else 0)
    case Call(receiver, name, args) =>
      if receiver.NoneLit? then 1 + if name == "len" && |args| == 1 then Nesting(args[0], b) else 0
      else
        1 + Max(Nesting(receiver, b),
                if NeedsArgument(Meaning(receiver, b), name, |args|) then Nesting(args[0], b) else 0)
    case _ => 1
  }

  function NestingOfItems(es: seq<Expr>, b: Bindings): nat
    decreases es
  {
    if es == [] then 0
    else Max(Nesting(es[0], b), if Meaning(es[0], b).Ok? then NestingOfItems(es[1..], b) else 0)
  }

  /** The node-by-node evaluation visits and nests exactly that much. */
  lemma {:induction false} IdealCosts(e: Expr, b: Bindings)
    ensures Ideal(e, b).visits == Visits(e, b) && Ideal(e, b).height == Nesting(e, b)
    decreases e, 1, 0
  {
    match e {
      case ListLit(items) =>
        ItemsCost(e, [], b);
        assert items[0..] == items;
      case Unary(_, _) => UnaryCost(e, b);
      case Binary(_, _, _) => BinaryCost(e, b);
      case In(_, _, _) => InCost(e, b);
      case Cond(_, _, _) => CondCost(e, b);
      case Call(_, _, _) => CallCost(e, b);
      case _ => AtMostTwoVisits(e, b);
    }
  }

  lemma {:induction false} UnaryCost(e: Expr, b: Bindings)
    requires e.Unary?
    ensures Ideal(e, b).visits == Visits(e, b) && Ideal(e, b).height == Nesting(e, b)
    decreases e, 0, 0
  {
    hide Ideal, Meaning;
    IdealCosts(e.inner, b);
    AtMostTwoVisits(e, b);
  }

  lemma {:induction false} BinaryCost(e: Expr, b: Bindings)
    requires e.Binary?
    ensures Ideal(e, b).visits == Visits(e, b) && Ideal(e, b).height == Nesting(e, b)
    decreases e, 0, 0
  {
    hide Ideal, Meaning;
    IdealCosts(e.lhs, b);
    IdealCosts(e.rhs, b);
    IdealMeans(e.lhs, b);
    AtMostTwoVisits(e, b);
  }

  lemma {:induction false} InCost(e: Expr, b: Bindings)
    requires e.In?
    ensures Ideal(e, b).visits == Visits(e, b) && Ideal(e, b).height == Nesting(e, b)
    decreases e, 0, 0
  {
    hide Ideal, Meaning;
    IdealCosts(e.lhs, b);
    IdealCosts(e.rhs, b);
    IdealMeans(e.lhs, b);
    AtMostTwoVisits(e, b);
  }

  lemma {:induction false} CondCost(e: Expr, b: Bindings)
    requires e.Cond?
    ensures Ideal(e, b).visits == Visits(e, b) && Ideal(e, b).height == Nesting(e, b)
    decreases e, 0, 0
  {
    hide Ideal, Meaning;
    IdealCosts(e.thenBranch, b);
    IdealCosts(e.cond, b);
    IdealCosts(e.elseBranch, b);
    IdealMeans(e.cond, b);
    AtMostTwoVisits(e, b);
  }

  lemma {:induction false} CallCost(e: Expr, b: Bindings)
    requires e.Call?
    ensures Ideal(e, b).visits == Visits(e, b) && Ideal(e, b).height == Nesting(e, b)
    decreases e, 0, 0
  {
    hide Ideal, Meaning;
    IdealCosts(e.receiver, b);
    IdealMeans(e.receiver, b);
    if |e.args| == 1 {
      IdealCosts(e.args[0], b);
    }
    AtMostTwoVisits(e, b);
  }

  lemma {:induction false} ItemsCost(e: Expr, vals: seq<Value>, b: Bindings)
    requires e.ListLit? && |vals| <= |e.items|
    ensures IdealFrom(e, vals, b).visits == VisitsOfItems(e.items[|vals|..], b)
    ensures IdealFrom(e, vals, b).height == NestingOfItems(e.items[|vals|..], b)
    decreases e, 0, |e.items| - |vals|
  {
    var left := e.items[|vals|..];
    if left == [] {
      NothingMore(e, vals, b);
    } else {
      var item := e.items[|vals|];
      assert left[0] == item && left[1..] == e.items[|vals| + 1..];
      IdealCosts(item, b);
      IdealMeans(item, b);
      IdealTurn(e, vals, b);
      hide Ideal, IdealFrom, Meaning;
      if Meaning(item, b).Ok? {
        ItemsCost(e, vals + [Meaning(item, b).value], b);
      }
    }
  }

  /** The limits: an expression is refused exactly if its evaluation visits more than 100,000 nodes or nests
      deeper than 32, and otherwise it has its limit-free meaning. */
  lemma LimitsExactly(e: Expr, b: Bindings)
    ensures LimitError(Evaluate(e, b)) <==> Visits(e, b) > 100_000 || Nesting(e, b) > 32
    ensures !LimitError(Evaluate(e, b)) ==> Evaluate(e, b) == Meaning(e, b)
  {
    hide Evaluate, Visits, Nesting, Meaning, Ideal;
    LimitedRefinesMeaning(e, b);
    IdealCosts(e, b);
  }
}
