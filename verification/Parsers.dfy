/** The recursive-descent parser itself: a position in a token list, moved by the parsing methods. */
module Parsers {
  import opened Wrappers
  import opened Syntax
  import G = Grammar

  type Outcome = Result<Expr, G.ParseError>

  class Parser {
    const tokens: seq<Token>
    var pos: nat

    /** The position never leaves the token list, which ends in `Eof`. */
    ghost predicate Valid()
      reads this
    {
      G.Terminated(tokens) && pos < |tokens|
    }

    ghost function Rest(): (r: seq<Token>)
      requires Valid()
      reads this
      ensures G.Terminated(r) && |r| == |tokens| - pos && r[0] == tokens[pos]
      ensures |r| > 1 ==> r[1] == tokens[pos + 1]
    {
      tokens[pos..]
    }

    /** A result, with the position it leaves, is what the grammar function says. */
    ghost predicate Agrees(r: Outcome, p: G.Parse)
      requires Valid()
      reads this
    {
      match p
      case Parsed(node, rest) => r == Ok(node) && rest == Rest()
      case Failed(error) => r == Err(error)
    }

    ghost predicate AgreesList(r: Result<seq<Expr>, G.ParseError>, p: G.ParseList)
      requires Valid()
      reads this
    {
      match p
      case ParsedItems(items, rest) => r == Ok(items) && rest == Rest()
      case FailedList(error) => r == Err(error)
    }

    constructor (tokens: seq<Token>)
      requires G.Terminated(tokens)
      ensures this.tokens == tokens && pos == 0 && Valid()
    {
      this.tokens, pos := tokens, 0;
    }

    /** Step over the current token, which must not be the final `Eof`. */
    method Consume() returns (t: Token)
      requires Valid() && pos + 1 < |tokens|
      modifies this`pos
      ensures Valid() && pos == old(pos) + 1 && t == old(Rest())[0] && Rest() == old(Rest())[1..]
    {
      t := tokens[pos];
      pos := pos + 1;
    }

    method ParseConditional() returns (r: Outcome)
      requires Valid()
      modifies this`pos
      ensures Valid() && old(pos) <= pos && (r.Ok? ==> old(pos) < pos && Buildable(r.value))
      ensures Agrees(r, G.ParseConditional(old(Rest())))
      decreases |tokens| - pos, 9
    {
      hide Rest, Buildable, G.ParseConditional, G.IfRest, G.ElseRest, G.ParseOr, G.Good, G.GoodMore;
      G.ConditionalTurn(Rest());
      r := ParseOr();
      if r.Err? {
        return;
      }
      if tokens[pos] != KwIf {
        G.LoopStops(r.value, Rest());
        return;
      }
      var thenBranch := r.value;
      G.IfTurn(thenBranch, Rest());
      var _ := Consume();
      r := ParseOr();
      if r.Err? {
        return;
      }
      var cond := r.value;
      if tokens[pos] != KwElse {
        G.ElseMissing(thenBranch, cond, Rest());
        return Err(G.ExpectedElse);
      }
      G.ElseTurn(thenBranch, cond, Rest());
      var _ := Consume();
      r := ParseConditional();
      if r.Err? {
        return;
      }
      CondBuildable(thenBranch, cond, r.value);
      r := Ok(Cond(thenBranch, cond, r.value));
    }

    method ParseOr() returns (r: Outcome)
      requires Valid()
      modifies this`pos
      ensures Valid() && old(pos) <= pos && (r.Ok? ==> old(pos) < pos && Buildable(r.value))
      ensures Agrees(r, G.ParseOr(old(Rest())))
      decreases |tokens| - pos, 8
    {
      hide Rest, G.ParseOr, G.OrRest, G.ParseAnd, G.Good, G.GoodMore;
      G.OrStart(Rest());
      r := ParseAnd();
      if r.Err? {
        return;
      }
      var lhs := r.value;
      while tokens[pos] == KwOr
        invariant Valid() && old(pos) < pos && Buildable(lhs)
        invariant G.ParseOr(old(Rest())) == G.OrRest(lhs, Rest())
        decreases |tokens| - pos
      {
        G.OrTurn(lhs, Rest());
        var _ := Consume();
        r := ParseAnd();
        if r.Err? {
          return;
        }
        lhs := Binary(Or, lhs, r.value);
      }
      G.LoopStops(lhs, Rest());
      r := Ok(lhs);
    }

    method ParseAnd() returns (r: Outcome)
      requires Valid()
      modifies this`pos
      ensures Valid() && old(pos) <= pos && (r.Ok? ==> old(pos) < pos && Buildable(r.value))
      ensures Agrees(r, G.ParseAnd(old(Rest())))
      decreases |tokens| - pos, 7
    {
      hide Rest, G.ParseAnd, G.AndRest, G.ParseNot, G.Good, G.GoodMore;
      G.AndStart(Rest());
      r := ParseNot();
      if r.Err? {
        return;
      }
      var lhs := r.value;
      while tokens[pos] == KwAnd
        invariant Valid() && old(pos) < pos && Buildable(lhs)
        invariant G.ParseAnd(old(Rest())) == G.AndRest(lhs, Rest())
        decreases |tokens| - pos
      {
        G.AndTurn(lhs, Rest());
        var _ := Consume();
        r := ParseNot();
        if r.Err? {
          return;
        }
        lhs := Binary(And, lhs, r.value);
      }
      G.LoopStops(lhs, Rest());
      r := Ok(lhs);
    }

    method ParseNot() returns (r: Outcome)
      requires Valid()
      modifies this`pos
      ensures Valid() && old(pos) <= pos && (r.Ok? ==> old(pos) < pos && Buildable(r.value))
      ensures Agrees(r, G.ParseNot(old(Rest())))
      decreases |tokens| - pos, 6
    {
      hide Rest, G.Good, G.GoodMore, G.ParseComparison;
      if tokens[pos] == KwNot {
        var _ := Consume();
        if tokens[pos] == KwIn {
          return Err(G.UnexpectedIn);
        }
        r := ParseNot();
        if r.Err? {
          return;
        }
        return Ok(Unary(Not, r.value));
      }
      r := ParseComparison();
    }

    method ParseUnary() returns (r: Outcome)
      requires Valid()
      modifies this`pos
      ensures Valid() && old(pos) <= pos && (r.Ok? ==> old(pos) < pos && Buildable(r.value))
      ensures Agrees(r, G.ParseUnary(old(Rest())))
      decreases |tokens| - pos, 4
    {
      hide Rest, G.Good, G.GoodMore, G.ParseCall;
      if tokens[pos] == Plus || tokens[pos] == Minus {
        var op := Consume();
        r := ParseUnary();
        if r.Err? {
          return;
        }
        return Ok(Unary(if op == Plus then Pos else Neg, r.value));
      }
      r := ParseCall();
    }

    /** Step over `in` or `not in` and read the operand after it. */
    method ParseContainer(negate: bool) returns (r: Outcome)
      requires Valid()
      requires if negate then G.NotIn(Rest()) else Rest()[0] == KwIn
      modifies this`pos
      ensures Valid() && old(pos) < pos && (r.Ok? ==> Buildable(r.value))
      ensures Agrees(r, G.ParseUnary(if negate then old(Rest())[2..] else old(Rest())[1..]))
      decreases |tokens| - pos, 5
    {
      hide Rest, G.ParseUnary, G.Good;
      if negate {
        DropTwice(Rest());
        var _ := Consume();
      }
      var _ := Consume();
      r := ParseUnary();
    }

    /** Take one operator with the operand after it, if an operator comes next. */
    method ExtendComparison(lhs: Expr) returns (r: Option<Outcome>)
      requires Valid() && Buildable(lhs)
      modifies this`pos
      ensures Valid() && old(pos) <= pos
      ensures r.None? ==> Rest() == old(Rest()) && G.ComparisonRest(lhs, Rest()) == G.Parsed(lhs, Rest())
      ensures r.Some? && r.value.Ok? ==>
        && old(pos) < pos && Buildable(r.value.value)
        && G.ComparisonRest(lhs, old(Rest())) == G.ComparisonRest(r.value.value, Rest())
      ensures r.Some? && r.value.Err? ==> G.ComparisonRest(lhs, old(Rest())) == G.Failed(r.value.error)
      decreases |tokens| - pos, 6
    {
      hide Rest, Buildable, G.ComparisonRest, G.ParseUnary, G.Good, G.GoodMore;
      ghost var before := Rest();
      var op := ComparisonOp(tokens[pos]);
      if op.Some? {
        G.OperatorTurn(lhs, before, op.value);
        var _ := Consume();
        var operand := ParseUnary();
        if operand.Err? {
          return Some(operand);
        }
        PairBuildable(op.value, false, lhs, operand.value);
        return Some(Ok(Binary(op.value, lhs, operand.value)));
      }
      var negate := tokens[pos] == KwNot && pos + 1 < |tokens| && tokens[pos + 1] == KwIn;
      if tokens[pos] != KwIn && !negate {
        G.ComparisonStops(lhs, before);
        return None;
      }
      if negate {
        G.NotInTurn(lhs, before);
      } else {
        G.InTurn(lhs, before);
      }
      var container := ParseContainer(negate);
      if container.Err? {
        return Some(container);
      }
      PairBuildable(Eq, negate, lhs, container.value);
      r := Some(Ok(In(negate, lhs, container.value)));
    }

    method ParseComparison() returns (r: Outcome)
      requires Valid()
      modifies this`pos
      ensures Valid() && old(pos) <= pos && (r.Ok? ==> old(pos) < pos && Buildable(r.value))
      ensures Agrees(r, G.ParseComparison(old(Rest())))
      decreases |tokens| - pos, 5
    {
      hide Rest, G.ParseComparison, G.ComparisonRest, G.ParseUnary, G.Good, G.GoodMore;
      G.ComparisonStart(Rest());
      r := ParseUnary();
      if r.Err? {
        return;
      }
      while true
        invariant Valid() && old(pos) < pos && r.Ok? && Buildable(r.value)
        invariant G.ParseComparison(old(Rest())) == G.ComparisonRest(r.value, Rest())
        decreases |tokens| - pos
      {
        var extended := ExtendComparison(r.value);
        if extended.None? {
          return;
        }
        r := extended.value;
        if r.Err? {
          return;
        }
      }
    }

    /** Step over a dot and the name behind it, and over the arguments if it is a method call. */
    method ParseMember(receiver: Expr) returns (r: Outcome)
      requires Valid() && tokens[pos] == Dot && Buildable(receiver)
      modifies this`pos
      ensures Valid() && old(pos) < pos && (r.Ok? ==> Buildable(r.value))
      ensures G.CallRest(receiver, old(Rest()))
           == if r.Ok? then G.CallRest(r.value, Rest()) else G.Failed(r.error)
      decreases |tokens| - pos, 2
    {
      hide Rest, G.ParseCall, G.CallRest, G.ParseArguments, G.Good, G.GoodMore, G.GoodList;
      ghost var before := Rest();
      var _ := Consume();
      if !tokens[pos].Ident? {
        G.NameMissing(receiver, before);
        return Err(G.ExpectedIdentifier);
      }
      DropTwice(before);
      var methodTok := Consume();
      if tokens[pos] != LParen {
        G.FieldTurn(receiver, before);
        if !receiver.Ref? {
          return Err(G.DotWithoutCall);
        }
        return Ok(Ref(receiver.root, receiver.fields + [methodTok.name]));
      }
      G.MethodTurn(receiver, before);
      var _ := Consume();
      var args := ParseArguments();
      if args.Err? {
        return Err(args.error);
      }
      r := Ok(Call(receiver, methodTok.name, args.value));
    }

    method ParseCall() returns (r: Outcome)
      requires Valid()
      modifies this`pos
      ensures Valid() && old(pos) <= pos && (r.Ok? ==> old(pos) < pos && Buildable(r.value))
      ensures Agrees(r, G.ParseCall(old(Rest())))
      decreases |tokens| - pos, 3
    {
      hide Rest, G.ParseCall, G.CallRest, G.ParseAtom, G.Good, G.GoodMore;
      G.CallStart(Rest());
      r := ParseAtom();
      if r.Err? {
        return;
      }
      while tokens[pos] == Dot
        invariant Valid() && old(pos) < pos && r.Ok? && Buildable(r.value)
        invariant G.ParseCall(old(Rest())) == G.CallRest(r.value, Rest())
        decreases |tokens| - pos
      {
        r := ParseMember(r.value);
        if r.Err? {
          return;
        }
      }
      G.LoopStops(r.value, Rest());
    }

    method ParseArguments() returns (r: Result<seq<Expr>, G.ParseError>)
      requires Valid()
      modifies this`pos
      ensures Valid() && old(pos) <= pos && (r.Ok? ==> old(pos) < pos && AllBuildable(r.value))
      ensures AgreesList(r, G.ParseArguments(old(Rest())))
      decreases |tokens| - pos, 10
    {
      hide Rest, G.ParseArguments, G.ArgumentsRest, G.ParseConditional, G.Good, G.GoodMore, G.GoodList;
      var args: seq<Expr> := [];
      if tokens[pos] == RParen {
        G.EmptyList(Rest());
      } else {
        G.ArgumentsStart(Rest());
        var arg := ParseConditional();
        if arg.Err? {
          return Err(arg.error);
        }
        args := [arg.value];
        while tokens[pos] == Comma
          invariant Valid() && old(pos) < pos && AllBuildable(args)
          invariant G.ParseArguments(old(Rest())) == G.ArgumentsRest(args, Rest())
          decreases |tokens| - pos
        {
          G.ArgumentsTurn(args, Rest());
          var _ := Consume();
          arg := ParseConditional();
          if arg.Err? {
            return Err(arg.error);
          }
          args := args + [arg.value];
        }
        G.ArgumentsStop(args, Rest());
      }
      if tokens[pos] != RParen {
        return Err(G.ExpectedCloseArguments);
      }
      var _ := Consume();
      r := Ok(args);
    }

    method ParseItems() returns (r: Result<seq<Expr>, G.ParseError>)
      requires Valid()
      modifies this`pos
      ensures Valid() && old(pos) <= pos && (r.Ok? ==> old(pos) < pos && AllBuildable(r.value))
      ensures AgreesList(r, G.ParseItems(old(Rest())))
      decreases |tokens| - pos, 10
    {
      hide Rest, G.ParseItems, G.ItemsRest, G.ParseConditional, G.Good, G.GoodMore, G.GoodList;
      var items: seq<Expr> := [];
      if tokens[pos] == RBracket {
        G.EmptyList(Rest());
      } else {
        G.ItemsStart(Rest());
        var item := ParseConditional();
        if item.Err? {
          return Err(item.error);
        }
        items := [item.value];
        while tokens[pos] == Comma
          invariant Valid() && old(pos) < pos && AllBuildable(items)
          invariant G.ParseItems(old(Rest())) == G.ItemsRest(items, Rest())
          decreases |tokens| - pos
        {
          ghost var before := Rest();
          var _ := Consume();
          if tokens[pos] == RBracket {
            G.ItemsStop(items, before);
            var _ := Consume();
            assert Rest() == before[2..];
            return Ok(items);
          }
          G.ItemsTurn(items, before);
          item := ParseConditional();
          if item.Err? {
            return Err(item.error);
          }
          items := items + [item.value];
        }
        G.ItemsStop(items, Rest());
      }
      if tokens[pos] != RBracket {
        return Err(G.ExpectedCloseList);
      }
      var _ := Consume();
      r := Ok(items);
    }

    /** The identifier case of an atom: a call when a parenthesis follows, a reference otherwise. */
    method ParseName(name: string) returns (r: Outcome)
      requires Valid() && tokens[pos] == Ident(name)
      modifies this`pos
      ensures Valid() && old(pos) <= pos && (r.Ok? ==> old(pos) < pos && Buildable(r.value))
      ensures Agrees(r, G.ParseAtom(old(Rest())))
      decreases |tokens| - pos, 1
    {
      hide Rest, G.ParseAtom, G.ParseArguments, G.Good, G.GoodList, Buildable, AllBuildable;
      ghost var before := Rest();
      var _ := Consume();
      if tokens[pos] == LParen {
        G.FunctionAtom(before);
        var _ := Consume();
        assert Rest() == before[2..];
        var args := ParseArguments();
        if args.Err? {
          return Err(args.error);
        }
        ListBuildable(args.value, name);
        r := Ok(Call(NoneLit, name, args.value));
      } else {
        G.TokenAtom(before);
        LeafBuildable(Ref(name, []));
        r := Ok(Ref(name, []));
      }
    }

    method ParseAtom() returns (r: Outcome)
      requires Valid()
      modifies this`pos
      ensures Valid() && old(pos) <= pos && (r.Ok? ==> old(pos) < pos && Buildable(r.value))
      ensures Agrees(r, G.ParseAtom(old(Rest())))
      decreases |tokens| - pos, 2
    {
      hide Rest, G.ParseAtom, G.ParseConditional, G.ParseItems, G.Good, G.GoodList;
      hide ParseLong, Buildable, AllBuildable;
      ghost var before := Rest();
      match tokens[pos] {
        case Str(text) =>
          G.TokenAtom(before);
          LeafBuildable(StringLit(text));
          var _ := Consume();
          r := Ok(StringLit(text));
        case Integer(digits) =>
          G.TokenAtom(before);
          var _ := Consume();
          var n := ParseLong(digits);
          if n.None? {
            return Err(G.IntegerOutOfRange);
          }
          LeafBuildable(IntLit(n.value));
          r := Ok(IntLit(n.value));
        case BoolTok(value) =>
          G.TokenAtom(before);
          LeafBuildable(BoolLit(value));
          var _ := Consume();
          r := Ok(BoolLit(value));
        case NoneTok =>
          G.TokenAtom(before);
          LeafBuildable(NoneLit);
          var _ := Consume();
          r := Ok(NoneLit);
        case Ident(name) =>
          r := ParseName(name);
        case LParen =>
          G.GroupAtom(before);
          var _ := Consume();
          r := ParseConditional();
          if r.Err? {
            return;
          }
          if tokens[pos] != RParen {
            return Err(G.ExpectedCloseParen);
          }
          var _ := Consume();
        case LBracket =>
          G.ListAtom(before);
          var _ := Consume();
          var items := ParseItems();
          if items.Err? {
            return Err(items.error);
          }
          ListBuildable(items.value, "");
          r := Ok(ListLit(items.value));
        case _ =>
          G.TokenAtom(before);
          r := Err(G.UnexpectedToken);
      }
    }
  }

  lemma DropTwice(toks: seq<Token>)
    requires |toks| >= 2
    ensures toks[1..][1..] == toks[2..] && (|toks| >= 3 ==> toks[2..][1..] == toks[3..])
  {
  }

  lemma CondBuildable(t: Expr, c: Expr, f: Expr)
    requires Buildable(t) && Buildable(c) && Buildable(f)
    ensures Buildable(Cond(t, c, f))
  {
  }

  lemma PairBuildable(op: BinaryOp, negate: bool, l: Expr, r: Expr)
    requires Buildable(l) && Buildable(r)
    ensures Buildable(Binary(op, l, r)) && Buildable(In(negate, l, r))
  {
  }

  lemma LeafBuildable(e: Expr)
    requires e.StringLit? || (e.IntLit? && 0 <= e.number <= MAX_LONG) || e.BoolLit? || e.NoneLit? || e.Ref?
    ensures Buildable(e)
  {
  }

  lemma ListBuildable(es: seq<Expr>, name: string)
    requires AllBuildable(es)
    ensures Buildable(ListLit(es)) && Buildable(Call(NoneLit, name, es))
  {
  }

  /** Parse one expression that spans the whole token list. */
  method ParseExpression(tokens: seq<Token>) returns (r: Outcome)
    requires G.Terminated(tokens)
    ensures r == G.ParseAll(tokens)
  {
    var parser := new Parser(tokens);
    assert parser.Rest() == tokens;
    r := parser.ParseConditional();
    if r.Ok? && parser.tokens[parser.pos] != Eof {
      return Err(G.TrailingToken);
    }
  }
}
