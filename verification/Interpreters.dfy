/** The interpreter itself: an object that counts instructions and nesting while it walks the tree. */
module Interpreters {
  import opened Wrappers
  import opened Syntax
  import opened Values
  import opened Evaluation
  import opened Costs

  class Interpreter {
    const bindings: Bindings
    var instructions: nat
    var evalDepth: nat

    constructor (bindings: Bindings)
      ensures this.bindings == bindings && instructions == 0 && evalDepth == 0
    {
      this.bindings, instructions, evalDepth := bindings, 0, 0;
    }

    /** The nesting counter is back where it was, whether a value or an error comes out. */
    method Eval(n: Expr) returns (r: Outcome)
      modifies this
      ensures (r, instructions) == Limited(n, bindings, old(instructions), old(evalDepth))
      ensures evalDepth == old(evalDepth)
      decreases n, 1
    {
      instructions := instructions + 1;
      if instructions > INSTRUCTION_BUDGET {
        return Err(BudgetExceeded);
      }
      evalDepth := evalDepth + 1;
      if evalDepth > MAX_EVAL_DEPTH {
        evalDepth := evalDepth - 1;
        return Err(DepthExceeded);
      }
      r := EvalNode(n);
      evalDepth := evalDepth - 1;
    }

    /** The switch over the node types, between taking a frame and giving it back. */
    method EvalNode(n: Expr) returns (r: Outcome)
      modifies this
      ensures (r, instructions) == LimitedFrom(n, [], bindings, old(instructions), old(evalDepth))
      ensures evalDepth == old(evalDepth)
      decreases n, 0, 1
    {
      hide Limited, LimitedFrom;
      match n {
        case ListLit(_) => r := EvalList(n);
        case Unary(_, _) => r := EvalUnary(n);
        case Binary(_, _, _) => r := EvalBinary(n);
        case In(_, _, _) => r := EvalIn(n);
        case Cond(_, _, _) => r := EvalConditional(n);
        case Call(_, _, _) => r := EvalCall(n);
        case _ =>
          DoneTurn(n, [], bindings, instructions, evalDepth);
          match n {
            case StringLit(text) => r := Ok(StrV(text));
            case IntLit(number) => r := Ok(IntV(number));
            case BoolLit(truth) => r := Ok(BoolV(truth));
            case NoneLit => r := Ok(Nothing);
            case Ref(root, fields) => r := ResolveRef(root, fields, bindings);
          }
      }
    }

    method EvalList(n: Expr) returns (r: Outcome)
      requires n.ListLit?
      modifies this
      ensures (r, instructions) == LimitedFrom(n, [], bindings, old(instructions), old(evalDepth))
      ensures evalDepth == old(evalDepth)
      decreases n, 0, 0
    {
      hide Limited, LimitedFrom;
      var items: seq<Value> := [];
      while |items| < |n.items|
        invariant |items| <= |n.items| && evalDepth == old(evalDepth)
        invariant LimitedFrom(n, [], bindings, old(instructions), old(evalDepth))
               == LimitedFrom(n, items, bindings, instructions, evalDepth)
      {
        VisitTurn(n, items, bindings, instructions, evalDepth);
        r := Eval(n.items[|items|]);
        if r.Err? {
          return;
        }
        items := items + [r.value];
      }
      DoneTurn(n, items, bindings, instructions, evalDepth);
      r := Ok(ListV(items));
    }

    method EvalUnary(u: Expr) returns (r: Outcome)
      requires u.Unary?
      modifies this
      ensures (r, instructions) == LimitedFrom(u, [], bindings, old(instructions), old(evalDepth))
      ensures evalDepth == old(evalDepth)
      decreases u, 0, 0
    {
      hide Limited, LimitedFrom;
      VisitTurn(u, [], bindings, instructions, evalDepth);
      r := Eval(u.inner);
      if r.Err? {
        return;
      }
      var v := r.value;
      assert [] + [v] == [v];
      DoneTurn(u, [v], bindings, instructions, evalDepth);
      match u.uop {
        case Not => r := if v.BoolV? then Ok(BoolV(!v.truth)) else Err(BooleanRequired);
        case Pos => r := if v.IntV? then Ok(v) else Err(IntegerRequired);
        case Neg => r := if v.IntV? then Ok(IntV(Negate64(v.number))) else Err(IntegerRequired);
      }
    }

    method EvalBinary(e: Expr) returns (r: Outcome)
      requires e.Binary?
      modifies this
      ensures (r, instructions) == LimitedFrom(e, [], bindings, old(instructions), old(evalDepth))
      ensures evalDepth == old(evalDepth)
      decreases e, 0, 0
    {
      hide Limited, LimitedFrom;
      VisitTurn(e, [], bindings, instructions, evalDepth);
      r := Eval(e.lhs);
      if r.Err? {
        return;
      }
      var l := r.value;
      assert [] + [l] == [l];
      if e.bop == And || e.bop == Or {
        if !l.BoolV? || l.truth == (e.bop == Or) {
          DoneTurn(e, [l], bindings, instructions, evalDepth);
          return ToBool(l);
        }
      }
      VisitTurn(e, [l], bindings, instructions, evalDepth);
      r := Eval(e.rhs);
      if r.Err? {
        return;
      }
      assert [l] + [r.value] == [l, r.value];
      DoneTurn(e, [l, r.value], bindings, instructions, evalDepth);
      if e.bop == And || e.bop == Or {
        r := ToBool(r.value);
      } else {
        r := ApplyComparison(e.bop, l, r.value);
      }
    }

    method EvalIn(e: Expr) returns (r: Outcome)
      requires e.In?
      modifies this
      ensures (r, instructions) == LimitedFrom(e, [], bindings, old(instructions), old(evalDepth))
      ensures evalDepth == old(evalDepth)
      decreases e, 0, 0
    {
      hide Limited, LimitedFrom;
      VisitTurn(e, [], bindings, instructions, evalDepth);
      r := Eval(e.lhs);
      if r.Err? {
        return;
      }
      var l := r.value;
      assert [] + [l] == [l];
      VisitTurn(e, [l], bindings, instructions, evalDepth);
      r := Eval(e.rhs);
      if r.Err? {
        return;
      }
      assert [l] + [r.value] == [l, r.value];
      DoneTurn(e, [l, r.value], bindings, instructions, evalDepth);
      r := Membership(e.negate, l, r.value);
    }

    method EvalConditional(e: Expr) returns (r: Outcome)
      requires e.Cond?
      modifies this
      ensures (r, instructions) == LimitedFrom(e, [], bindings, old(instructions), old(evalDepth))
      ensures evalDepth == old(evalDepth)
      decreases e, 0, 0
    {
      hide Limited, LimitedFrom;
      VisitTurn(e, [], bindings, instructions, evalDepth);
      r := Eval(e.cond);
      if r.Err? {
        return;
      }
      var c := r.value;
      assert [] + [c] == [c];
      if !c.BoolV? {
        DoneTurn(e, [c], bindings, instructions, evalDepth);
        return Err(BooleanRequired);
      }
      VisitTurn(e, [c], bindings, instructions, evalDepth);
      if c.truth {
        r := Eval(e.thenBranch);
      } else {
        r := Eval(e.elseBranch);
      }
      if r.Ok? {
        assert [c] + [r.value] == [c, r.value];
        DoneTurn(e, [c, r.value], bindings, instructions, evalDepth);
      }
    }

    method EvalCall(call: Expr) returns (r: Outcome)
      requires call.Call?
      modifies this
      ensures (r, instructions) == LimitedFrom(call, [], bindings, old(instructions), old(evalDepth))
      ensures evalDepth == old(evalDepth)
      decreases call, 0, 0
    {
      hide Limited, LimitedFrom;
      if call.receiver.NoneLit? {
        if call.name != "len" {
          DoneTurn(call, [], bindings, instructions, evalDepth);
          return Err(UnknownFunction);
        }
        if |call.args| != 1 {
          DoneTurn(call, [], bindings, instructions, evalDepth);
          return Err(WrongArgumentCount);
        }
        VisitTurn(call, [], bindings, instructions, evalDepth);
        r := Eval(call.args[0]);
        if r.Ok? {
          assert [] + [r.value] == [r.value];
          DoneTurn(call, [r.value], bindings, instructions, evalDepth);
          r := Length(r.value);
        }
        return;
      }
      VisitTurn(call, [], bindings, instructions, evalDepth);
      r := Eval(call.receiver);
      if r.Err? {
        return;
      }
      var v := r.value;
      assert [] + [v] == [v];
      if !TakesArgument(v, call.name, |call.args|) {
        DoneTurn(call, [v], bindings, instructions, evalDepth);
        return ApplyPlain(v, call.name, |call.args|, bindings);
      }
      VisitTurn(call, [v], bindings, instructions, evalDepth);
      r := Eval(call.args[0]);
      if r.Ok? {
        assert [v] + [r.value] == [v, r.value];
        DoneTurn(call, [v, r.value], bindings, instructions, evalDepth);
        r := ApplyMethod(v, call.name, r.value);
      }
    }
  }

  /** The `in` test: the list is searched up to the first equal item. */
  method Membership(negate: bool, a: Value, b: Value) returns (r: Outcome)
    ensures r == ApplyIn(negate, a, b)
  {
    if b.ListV? {
      var i := 0;
      while i < |b.items| && !ScalarEquals(a, b.items[i])
        invariant 0 <= i <= |b.items|
        invariant forall k :: 0 <= k < i ==> !ScalarEquals(a, b.items[k])
      {
        i := i + 1;
      }
      r := Ok(BoolV((i < |b.items|) != negate));
    } else if b.StrV? && a.StrV? {
      r := Ok(BoolV(Contains(b.text, a.text) != negate));
    } else {
      r := Err(BadContainer);
    }
  }

  /** Evaluate a whole expression: a fresh interpreter, both counters at zero. */
  method EvaluateExpression(e: Expr, bindings: Bindings) returns (r: Outcome)
    ensures !LimitError(r) ==> r == Meaning(e, bindings)
    ensures LimitError(r) <==> Visits(e, bindings) > 100_000 || Nesting(e, bindings) > 32
    ensures Size(e) <= 100_000 && Height(e) <= 32 ==> r == Meaning(e, bindings)
  {
    var interpreter := new Interpreter(bindings);
    r := interpreter.Eval(e);
    assert r == Evaluate(e, bindings);
    hide Visits, Nesting, Evaluate, Meaning;
    LimitsExactly(e, bindings);
    if Size(e) <= 100_000 && Height(e) <= 32 {
      SmallTreesAgree(e, bindings);
    }
  }
}
