/**
 The parser reads every phrase: at each level, what it makes of the words of a phrase is the phrase's
 tree, and it goes on with what follows.
 */
module Rendering {
  import opened Wrappers
  import opened Sequences
  import opened Decimal
  import opened Syntax
  import opened Grammar
  import opened Phrases

  // ---------------------------------------------------------------- parsing by level

  function ParseAt(l: nat, toks: seq<Token>): Parse
    requires Terminated(toks) && l <= CALL
  {
    if l == CONDITIONAL then ParseConditional(toks)
    else if l == OR then ParseOr(toks)
    else if l == AND then ParseAnd(toks)
    else if l == NOT then ParseNot(toks)
    else if l == COMPARISON then ParseComparison(toks)
    else if l == UNARY then ParseUnary(toks)
    else ParseCall(toks)
  }

  /** What a level's loop makes of a tree it has just read. */
  function Continue(l: nat, e: Expr, rest: seq<Token>): Parse
    requires Terminated(rest) && Buildable(e) && l <= CALL
  {
    if l == OR then OrRest(e, rest)
    else if l == AND then AndRest(e, rest)
    else if l == COMPARISON then ComparisonRest(e, rest)
    else if l == CALL then CallRest(e, rest)
    else Parsed(e, rest)
  }

  /** Nothing that would continue a tree of a tighter level, nor this level unless it loops. */
  predicate Follows(l: nat, rest: seq<Token>)
    requires Terminated(rest)
  {
    && rest[0] != LParen
    && (l <= UNARY ==> rest[0] != Dot)
    && (l <= NOT ==> ComparisonOp(rest[0]).None? && rest[0] != KwIn && !NotIn(rest))
    && (l <= OR ==> rest[0] != KwAnd)
    && (l <= CONDITIONAL ==> rest[0] != KwOr && rest[0] != KwIf)
  }

  /** The first token does not send the parser of level `l` down another branch. */
  predicate Starts(l: nat, t: Token) {
    (l <= CALL && l == NOT ==> t != KwNot) && (l == UNARY ==> t != Plus && t != Minus)
  }

  lemma UpToConditional(e: Expr, toks: seq<Token>, rest: seq<Token>)
    requires Terminated(toks) && Terminated(rest) && Buildable(e) && Follows(CONDITIONAL, rest)
    requires ParseOr(toks) == OrRest(e, rest)
    ensures ParseConditional(toks) == Parsed(e, rest)
  {
  }

  lemma UpToOr(e: Expr, toks: seq<Token>, rest: seq<Token>)
    requires Terminated(toks) && Terminated(rest) && Buildable(e) && Follows(OR, rest)
    requires ParseAnd(toks) == AndRest(e, rest)
    ensures ParseOr(toks) == OrRest(e, rest)
  {
  }

  lemma UpToAnd(e: Expr, toks: seq<Token>, rest: seq<Token>)
    requires Terminated(toks) && Terminated(rest) && Buildable(e)
    requires ParseNot(toks) == Parsed(e, rest)
    ensures ParseAnd(toks) == AndRest(e, rest)
  {
  }

  lemma UpToNot(e: Expr, toks: seq<Token>, rest: seq<Token>)
    requires Terminated(toks) && Terminated(rest) && Buildable(e) && Follows(NOT, rest) && toks[0] != KwNot
    requires ParseComparison(toks) == ComparisonRest(e, rest)
    ensures ParseNot(toks) == Parsed(e, rest)
  {
  }

  lemma UpToComparison(e: Expr, toks: seq<Token>, rest: seq<Token>)
    requires Terminated(toks) && Terminated(rest) && Buildable(e)
    requires ParseUnary(toks) == Parsed(e, rest)
    ensures ParseComparison(toks) == ComparisonRest(e, rest)
  {
  }

  lemma UpToUnary(e: Expr, toks: seq<Token>, rest: seq<Token>)
    requires Terminated(toks) && Terminated(rest) && Buildable(e) && Follows(UNARY, rest)
    requires toks[0] != Plus && toks[0] != Minus
    requires ParseCall(toks) == CallRest(e, rest)
    ensures ParseUnary(toks) == Parsed(e, rest)
  {
  }

  /** If the next tighter level has read `e`, then so has this one. */
  lemma StepUp(l: nat, e: Expr, toks: seq<Token>, rest: seq<Token>)
    requires Terminated(toks) && Terminated(rest) && Buildable(e)
    requires l < CALL && Follows(l, rest) && Starts(l, toks[0])
    requires ParseAt(l + 1, toks) == Continue(l + 1, e, rest)
    ensures ParseAt(l, toks) == Continue(l, e, rest)
  {
    if l == CONDITIONAL { UpToConditional(e, toks, rest); }
    else if l == OR { UpToOr(e, toks, rest); }
    else if l == AND { UpToAnd(e, toks, rest); }
    else if l == NOT { UpToNot(e, toks, rest); }
    else if l == COMPARISON { UpToComparison(e, toks, rest); }
    else { UpToUnary(e, toks, rest); }
  }

  // ---------------------------------------------------------------- first tokens

  lemma {:induction false} FirstToken(p: Phrase)
    requires WellFormed(p)
    ensures Strength(p) > NOT ==> Words(p)[0] != KwNot
    ensures Strength(p) > UNARY ==> Words(p)[0] != KwNot && Words(p)[0] != Plus && Words(p)[0] != Minus
    decreases p
  {
    hide List;
    match p {
      case Infixed(_, left, _) => FirstToken(left);
      case Membered(_, left, _) => FirstToken(left);
      case Method(owner, _, _) => FirstToken(owner);
      case Field(owner, _) => ChainStrength(owner); FirstToken(owner);
      case _ =>
    }
  }

  lemma ChainStrength(p: Phrase)
    requires IsChain(p)
    ensures Strength(p) == CALL
  {
  }

  /** No phrase begins with `in` or with a closing token. */
  lemma {:induction false} FirstIsNoEnd(p: Phrase)
    ensures Words(p)[0] != KwIn && Words(p)[0] != RParen && Words(p)[0] != RBracket
    decreases p
  {
    hide List;
    match p {
      case Infixed(_, left, _) => FirstIsNoEnd(left);
      case Membered(_, left, _) => FirstIsNoEnd(left);
      case Choice(yes, _, _) => FirstIsNoEnd(yes);
      case Method(owner, _, _) => FirstIsNoEnd(owner);
      case Field(owner, _) => FirstIsNoEnd(owner);
      case _ =>
    }
  }

  // ---------------------------------------------------------------- reading a phrase, level by level

  /** Parsing the words of a phrase at any level it can stand at reads exactly its tree, and then goes on
      as the level's loop would. */
  lemma {:induction false} ReadsAt(l: nat, p: Phrase, rest: seq<Token>)
    requires WellFormed(p) && l <= Strength(p) && Terminated(rest) && Follows(l, rest)
    ensures Terminated(Words(p) + rest) && Buildable(Tree(p))
    ensures ParseAt(l, Words(p) + rest) == Continue(l, Tree(p), rest)
    decreases p, 1, CALL - l
  {
    if l < Strength(p) {
      assert Follows(l + 1, rest);
      hide *;
      ReadsAt(l + 1, p, rest);
      FirstStarts(l, p, rest);
      StepUp(l, Tree(p), Words(p) + rest, rest);
    } else {
      hide *;
      ReadsOwn(p, rest);
    }
  }

  lemma FirstStarts(l: nat, p: Phrase, rest: seq<Token>)
    requires WellFormed(p) && l < Strength(p)
    ensures Starts(l, (Words(p) + rest)[0])
  {
    hide WellFormed, Words;
    FirstToken(p);
    assert (Words(p) + rest)[0] == Words(p)[0];
  }

  /** The same at the level of the phrase itself. */
  lemma {:induction false} ReadsOwn(p: Phrase, rest: seq<Token>)
    requires WellFormed(p) && Terminated(rest) && Follows(Strength(p), rest)
    ensures Terminated(Words(p) + rest) && Buildable(Tree(p))
    ensures ParseAt(Strength(p), Words(p) + rest) == Continue(Strength(p), Tree(p), rest)
    decreases p, 0, 1
  {
    hide Words, Tree, Buildable, WellFormed, Follows, ParseComparison, ParseConditional, ParseCall, CallRest;
    hide ComparisonRest;
    assert Strength(p) == CALL ==> rest[0] != LParen by { FollowsCall(rest); }
    match p {
      case Choice(_, _, _) => OwnChoice(p, rest);
      case Infixed(op, _, _) => OwnInfix(p, rest);
      case Membered(_, _, _) => OwnMember(p, rest);
      case Prefixed(op, _) => OwnPrefix(p, rest);
      case Field(_, _) => OwnField(p, rest);
      case Method(_, _, _) => OwnMethod(p, rest);
      case Function(_, _) => OwnFunction(p, rest);
      case Bracketed(_, _) => OwnList(p, rest);
      case Grouped(_) => OwnGroup(p, rest);
      case _ => OwnToken(p, rest);
    }
  }

  lemma FollowsCall(rest: seq<Token>)
    requires Terminated(rest)
    ensures Follows(CALL, rest) <==> rest[0] != LParen
  {
  }

  lemma {:induction false} ReadWhole(p: Phrase, rest: seq<Token>)
    requires WellFormed(p) && Terminated(rest) && Follows(CONDITIONAL, rest)
    ensures Terminated(Words(p) + rest) && Buildable(Tree(p))
    ensures ParseConditional(Words(p) + rest) == Parsed(Tree(p), rest)
    decreases p, 2, 0
  {
    hide WellFormed, Words, Tree, Buildable, ParseConditional;
    ReadsAt(CONDITIONAL, p, rest);
  }

  /** A part of a conditional in front of its keyword. */
  lemma {:induction false} ReadPart(p: Phrase, k: Token, rest: seq<Token>)
    requires WellFormed(p) && Strength(p) >= OR && Terminated(rest) && (k == KwIf || k == KwElse)
    ensures Terminated(Words(p) + ([k] + rest)) && Buildable(Tree(p))
    ensures ParseOr(Words(p) + ([k] + rest)) == Parsed(Tree(p), [k] + rest)
    decreases p, 2, 0
  {
    hide WellFormed, Words, Tree, Buildable, ParseOr, OrRest;
    ReadsAt(OR, p, [k] + rest);
    OrEnds(Tree(p), [k] + rest);
  }

  lemma OrEnds(e: Expr, rest: seq<Token>)
    requires Terminated(rest) && Buildable(e) && rest[0] != KwOr
    ensures OrRest(e, rest) == Parsed(e, rest)
  {
  }

  lemma ReadConditional(t: Expr, c: Expr, f: Expr,
                        toks: seq<Token>, middle: seq<Token>, last: seq<Token>, rest: seq<Token>)
    requires Terminated(toks) && Terminated(middle) && Terminated(last) && Terminated(rest)
    requires Buildable(t) && Buildable(c) && Buildable(f)
    requires ParseOr(toks) == Parsed(t, [KwIf] + middle)
    requires ParseOr(middle) == Parsed(c, [KwElse] + last)
    requires ParseConditional(last) == Parsed(f, rest)
    ensures ParseConditional(toks) == Parsed(Cond(t, c, f), rest)
  {
    hide Good, GoodMore, ParseOr, ParseConditional, IfRest, ElseRest;
    var after1, after2 := [KwIf] + middle, [KwElse] + last;
    assert after1[1..] == middle && after2[1..] == last;
    ConditionalTurn(toks);
    IfTurn(t, after1);
    ElseTurn(t, c, after2);
  }

  lemma {:induction false} OwnChoice(p: Phrase, rest: seq<Token>)
    requires WellFormed(p) && p.Choice? && Terminated(rest) && Follows(CONDITIONAL, rest)
    ensures Terminated(Words(p) + rest) && Buildable(Tree(p))
    ensures ParseConditional(Words(p) + rest) == Parsed(Tree(p), rest)
    decreases p, 0, 0
  {
    var yes, test, no := p.yes, p.test, p.no;
    assert WellFormed(yes) && WellFormed(test) && WellFormed(no) && Strength(yes) >= OR && Strength(test) >= OR;
    ChoiceText(yes, test, no, rest);
    TreeBuildable(p);
    assert Tree(p) == Cond(Tree(yes), Tree(test), Tree(no));
    hide *;
    var last := Words(no) + rest;
    var middle := Words(test) + ([KwElse] + last);
    ReadWhole(no, rest);
    ReadPart(test, KwElse, last);
    ReadPart(yes, KwIf, middle);
    ReadConditional(Tree(yes), Tree(test), Tree(no), Words(p) + rest, middle, last, rest);
  }

  lemma ChoiceText(yes: Phrase, test: Phrase, no: Phrase, rest: seq<Token>)
    ensures Words(Choice(yes, test, no)) + rest
         == Words(yes) + ([KwIf] + (Words(test) + ([KwElse] + (Words(no) + rest))))
  {
    var a, b, c := Words(yes), Words(test), Words(no);
    assert Words(Choice(yes, test, no)) == a + [KwIf] + b + [KwElse] + c;
    hide Words;
    Regroup(a + [KwIf] + b + [KwElse], c, rest);
    Regroup(a + [KwIf] + b, [KwElse], c + rest);
    Regroup(a + [KwIf], b, [KwElse] + (c + rest));
    Regroup(a, [KwIf], b + ([KwElse] + (c + rest)));
  }

  lemma {:induction false} OwnInfix(p: Phrase, rest: seq<Token>)
    requires WellFormed(p) && p.Infixed? && Terminated(rest) && Follows(Strength(p), rest)
    ensures Terminated(Words(p) + rest) && Buildable(Tree(p))
    ensures ParseAt(Strength(p), Words(p) + rest) == Continue(Strength(p), Tree(p), rest)
    decreases p, 0, 0
  {
    var op, left, right, l := p.infix, p.left, p.right, Strength(p);
    var tail := Words(right) + rest;
    TreeBuildable(p);
    InfixText(op, left, right, rest);
    InfixFollows(op, tail);
    assert Follows(l + 1, rest) && Terminated(tail) && (op == Or ==> rest[0] != KwAnd);
    assert WellFormed(left) && WellFormed(right) && Strength(left) >= l && Strength(right) >= l + 1;
    assert Tree(p) == Binary(op, Tree(left), Tree(right));
    hide Words, Tree, Buildable, WellFormed, Strength, Follows, Terminated, ParseAt, Continue;
    ReadsAt(l + 1, right, rest);
    ReadsAt(l, left, [OperatorToken(op)] + tail);
    InfixTurn(op, l, Tree(left), Tree(right), tail, rest);
  }

  lemma InfixText(op: BinaryOp, left: Phrase, right: Phrase, rest: seq<Token>)
    ensures Words(Infixed(op, left, right)) + rest == Words(left) + ([OperatorToken(op)] + (Words(right) + rest))
  {
    var a, b := Words(left), Words(right);
    assert Words(Infixed(op, left, right)) == a + [OperatorToken(op)] + b;
    hide Words;
    Regroup(a + [OperatorToken(op)], b, rest);
    Regroup(a, [OperatorToken(op)], b + rest);
  }

  /** Where the operator stands, its left operand is complete. */
  lemma InfixFollows(op: BinaryOp, tail: seq<Token>)
    requires Terminated(tail)
    ensures Terminated([OperatorToken(op)] + tail)
    ensures Follows(Strength(Infixed(op, NoneWord, NoneWord)), [OperatorToken(op)] + tail)
  {
  }

  /** The level's loop takes the operator and its right operand. */
  lemma InfixTurn(op: BinaryOp, l: nat, left: Expr, right: Expr, tail: seq<Token>, rest: seq<Token>)
    requires Terminated(tail) && Terminated(rest) && Buildable(left) && Buildable(right)
    requires l == (if op == Or then OR else if op == And then AND else COMPARISON)
    requires Follows(l + 1, rest) && (op == Or ==> rest[0] != KwAnd)
    requires ParseAt(l + 1, tail) == Continue(l + 1, right, rest)
    ensures Terminated([OperatorToken(op)] + tail)
    ensures Continue(l, left, [OperatorToken(op)] + tail) == Continue(l, Binary(op, left, right), rest)
  {
    hide Good, GoodMore, GoodList, ParseConditional, ParseOr, ParseAnd, ParseNot, ParseComparison, ParseUnary;
    hide ParseCall, OrRest, AndRest, ComparisonRest, CallRest;
    var after := [OperatorToken(op)] + tail;
    assert after[1..] == tail;
    if op == Or {
      OrTurn(left, after);
      LoopStops(right, rest);
    } else if op == And {
      AndTurn(left, after);
    } else {
      OperatorTurn(left, after, op);
    }
  }

  lemma {:induction false} OwnMember(p: Phrase, rest: seq<Token>)
    requires WellFormed(p) && p.Membered? && Terminated(rest) && Follows(COMPARISON, rest)
    ensures Terminated(Words(p) + rest) && Buildable(Tree(p))
    ensures ParseComparison(Words(p) + rest) == ComparisonRest(Tree(p), rest)
    decreases p, 0, 0
  {
    MemberParts(p);
    assert Follows(UNARY, rest);
    hide *;
    var left, right, tail := p.left, p.right, Words(p.right) + rest;
    var after := (if p.negated then [KwNot, KwIn] else [KwIn]) + tail;
    MemberText(p.negated, left, right, rest);
    ReadOperand(right, rest);
    MemberFollows(p.negated, tail);
    ReadFirstOperand(left, after);
    MemberTurn(p.negated, Tree(left), Tree(right), after, tail, rest);
  }

  lemma MemberParts(p: Phrase)
    requires WellFormed(p) && p.Membered?
    ensures WellFormed(p.left) && WellFormed(p.right) && Strength(p.left) >= COMPARISON && Strength(p.right) >= UNARY
    ensures Buildable(Tree(p)) && Tree(p) == In(p.negated, Tree(p.left), Tree(p.right))
    ensures p == Membered(p.negated, p.left, p.right)
  {
    TreeBuildable(p);
  }

  lemma MemberFollows(negated: bool, tail: seq<Token>)
    requires Terminated(tail)
    ensures var after := (if negated then [KwNot, KwIn] else [KwIn]) + tail;
            Terminated(after) && Follows(COMPARISON, after)
  {
  }

  lemma {:induction false} ReadOperand(p: Phrase, rest: seq<Token>)
    requires WellFormed(p) && Strength(p) >= UNARY && Terminated(rest) && Follows(UNARY, rest)
    ensures Terminated(Words(p) + rest) && Buildable(Tree(p))
    ensures ParseUnary(Words(p) + rest) == Parsed(Tree(p), rest)
    decreases p, 2, 0
  {
    hide WellFormed, Words, Tree, Buildable, ParseUnary;
    ReadsAt(UNARY, p, rest);
  }

  lemma {:induction false} ReadFirstOperand(p: Phrase, rest: seq<Token>)
    requires WellFormed(p) && Strength(p) >= COMPARISON && Terminated(rest) && Follows(COMPARISON, rest)
    ensures Terminated(Words(p) + rest) && Buildable(Tree(p))
    ensures ParseComparison(Words(p) + rest) == ComparisonRest(Tree(p), rest)
    decreases p, 2, 0
  {
    hide WellFormed, Words, Tree, Buildable, ParseComparison, ComparisonRest;
    ReadsAt(COMPARISON, p, rest);
  }

  lemma {:induction false} ReadOwner(p: Phrase, rest: seq<Token>)
    requires WellFormed(p) && Strength(p) == CALL && Terminated(rest) && Follows(CALL, rest)
    ensures Terminated(Words(p) + rest) && Buildable(Tree(p))
    ensures ParseCall(Words(p) + rest) == CallRest(Tree(p), rest)
    decreases p, 2, 0
  {
    hide WellFormed, Words, Tree, Buildable, ParseCall, CallRest;
    ReadsAt(CALL, p, rest);
  }

  lemma MemberText(negated: bool, left: Phrase, right: Phrase, rest: seq<Token>)
    ensures Words(Membered(negated, left, right)) + rest
         == Words(left) + ((if negated then [KwNot, KwIn] else [KwIn]) + (Words(right) + rest))
  {
    var a, k, b := Words(left), if negated then [KwNot, KwIn] else [KwIn], Words(right);
    assert Words(Membered(negated, left, right)) == a + k + b;
    hide Words;
    Regroup(a + k, b, rest);
    Regroup(a, k, b + rest);
  }

  lemma MemberTurn(negated: bool, left: Expr, right: Expr, after: seq<Token>, tail: seq<Token>, rest: seq<Token>)
    requires Terminated(after) && Terminated(tail) && Terminated(rest) && Buildable(left) && Buildable(right)
    requires after == (if negated then [KwNot, KwIn] else [KwIn]) + tail
    requires ParseUnary(tail) == Parsed(right, rest)
    ensures ComparisonRest(left, after) == ComparisonRest(In(negated, left, right), rest)
  {
    hide Good, GoodMore, ParseUnary, ComparisonRest;
    if negated {
      assert after[2..] == tail;
      NotInTurn(left, after);
    } else {
      assert after[1..] == tail;
      InTurn(left, after);
    }
  }

  lemma {:induction false} OwnPrefix(p: Phrase, rest: seq<Token>)
    requires WellFormed(p) && p.Prefixed? && Terminated(rest) && Follows(Strength(p), rest)
    ensures Terminated(Words(p) + rest) && Buildable(Tree(p))
    ensures ParseAt(Strength(p), Words(p) + rest) == Continue(Strength(p), Tree(p), rest)
    decreases p, 0, 0
  {
    var x, l, tail := p.operand, Strength(p), Words(p.operand) + rest;
    TreeBuildable(p);
    Regroup([PrefixToken(p.prefix)], Words(x), rest);
    assert Terminated(tail) && tail[0] == Words(x)[0];
    assert Words(p) + rest == [PrefixToken(p.prefix)] + tail;
    assert WellFormed(x) && Strength(x) >= l && Tree(p) == Unary(p.prefix, Tree(x));
    FirstIsNoEnd(x);
    hide Words, Tree, Buildable, WellFormed, Follows, ParseNot, ParseUnary;
    ReadsAt(l, x, rest);
    PrefixTurn(p.prefix, Tree(x), tail, rest);
  }

  lemma PrefixTurn(op: UnaryOp, inner: Expr, tail: seq<Token>, rest: seq<Token>)
    requires Terminated(tail) && Terminated(rest) && Buildable(inner) && tail[0] != KwIn
    requires (if op == Not then ParseNot(tail) else ParseUnary(tail)) == Parsed(inner, rest)
    ensures Terminated([PrefixToken(op)] + tail)
    ensures (if op == Not then ParseNot([PrefixToken(op)] + tail) else ParseUnary([PrefixToken(op)] + tail))
         == Parsed(Unary(op, inner), rest)
  {
    hide Good, GoodMore, ParseComparison, ParseCall;
    var toks := [PrefixToken(op)] + tail;
    assert toks[1..] == tail && toks[1] == tail[0];
  }

  lemma {:induction false} OwnField(p: Phrase, rest: seq<Token>)
    requires WellFormed(p) && p.Field? && Terminated(rest) && Follows(CALL, rest)
    ensures Terminated(Words(p) + rest) && Buildable(Tree(p))
    ensures ParseCall(Words(p) + rest) == CallRest(Tree(p), rest)
    decreases p, 0, 0
  {
    var owner, after := p.owner, [Dot, Ident(p.field)] + rest;
    TreeBuildable(p);
    ChainIsRef(owner);
    ChainStrength(owner);
    Regroup(Words(owner), [Dot, Ident(p.field)], rest);
    assert Words(p) + rest == Words(owner) + after;
    assert Tree(p) == Ref(Tree(owner).root, Tree(owner).fields + [p.field]);
    assert Terminated(after) && Follows(CALL, after) && after[2] == rest[0] && after[2..] == rest;
    hide Words, Tree, WellFormed, IsChain, Strength, ParseCall, CallRest, Follows, Terminated;
    ReadOwner(owner, after);
    FieldTurn(Tree(owner), after);
  }

  lemma {:induction false} OwnMethod(p: Phrase, rest: seq<Token>)
    requires WellFormed(p) && p.Method? && Terminated(rest)
    ensures Terminated(Words(p) + rest) && Buildable(Tree(p))
    ensures ParseCall(Words(p) + rest) == CallRest(Tree(p), rest)
    decreases p, 0, 0
  {
    hide *;
    var owner, name, args := p.owner, p.called, p.arguments;
    var inside := List(args) + ([RParen] + rest);
    var after := [Dot, Ident(name), LParen] + inside;
    MethodParts(p);
    MethodText(owner, name, args, rest);
    ArgumentsRead(args, rest);
    MethodFollows(name, inside);
    ReadOwner(owner, after);
    MethodTurn(Tree(owner), after);
  }

  lemma MethodParts(p: Phrase)
    requires WellFormed(p) && p.Method?
    ensures AllWellFormed(p.arguments) && WellFormed(p.owner) && Strength(p.owner) == CALL
    ensures Buildable(Tree(p)) && Tree(p) == Call(Tree(p.owner), p.called, Trees(p.arguments))
    ensures p == Method(p.owner, p.called, p.arguments)
  {
    TreeBuildable(p);
  }

  lemma MethodFollows(name: string, inside: seq<Token>)
    requires Terminated(inside)
    ensures var after := [Dot, Ident(name), LParen] + inside;
            && Terminated(after) && Follows(CALL, after) && |after| > 3 && after[3..] == inside
            && after[0] == Dot && after[1] == Ident(name) && after[2] == LParen
  {
  }

  lemma MethodText(owner: Phrase, name: string, args: seq<Phrase>, rest: seq<Token>)
    ensures Words(Method(owner, name, args)) + rest
         == Words(owner) + ([Dot, Ident(name), LParen] + (List(args) + ([RParen] + rest)))
  {
    var a, k, b := Words(owner), [Dot, Ident(name), LParen], List(args);
    assert Words(Method(owner, name, args)) == a + k + b + [RParen];
    hide Words, List;
    Regroup(a + k + b, [RParen], rest);
    Regroup(a + k, b, [RParen] + rest);
    Regroup(a, k, b + ([RParen] + rest));
  }

  lemma {:induction false} OwnFunction(p: Phrase, rest: seq<Token>)
    requires WellFormed(p) && p.Function? && Terminated(rest)
    ensures Terminated(Words(p) + rest) && Buildable(Tree(p))
    ensures ParseCall(Words(p) + rest) == CallRest(Tree(p), rest)
    decreases p, 0, 0
  {
    var name, args := p.called, p.arguments;
    var inside := List(args) + ([RParen] + rest);
    var toks := [Ident(name), LParen] + inside;
    TreeBuildable(p);
    BracketText([Ident(name), LParen], List(args), [RParen], rest);
    assert AllWellFormed(args) && Words(p) + rest == toks && Tree(p) == Call(NoneLit, name, Trees(args));
    assert Terminated(toks) && |toks| > 2 && toks[2..] == inside;
    hide Words, List, Tree, Trees, WellFormed, AllWellFormed, ParseCall, CallRest, ParseAtom, ParseArguments;
    ArgumentsRead(args, rest);
    FunctionAtom(toks);
    CallStart(toks);
  }

  lemma BracketText(open: seq<Token>, inside: seq<Token>, close: seq<Token>, rest: seq<Token>)
    ensures open + inside + close + rest == open + (inside + (close + rest))
  {
    Regroup(open + inside, close, rest);
    Regroup(open, inside, close + rest);
  }

  lemma {:induction false} OwnGroup(p: Phrase, rest: seq<Token>)
    requires WellFormed(p) && p.Grouped? && Terminated(rest)
    ensures Terminated(Words(p) + rest) && Buildable(Tree(p))
    ensures ParseCall(Words(p) + rest) == CallRest(Tree(p), rest)
    decreases p, 0, 0
  {
    var inner, closing := p.inner, [RParen] + rest;
    var toks := [LParen] + (Words(inner) + closing);
    TreeBuildable(p);
    BracketText([LParen], Words(inner), [RParen], rest);
    assert Words(p) + rest == toks && WellFormed(inner) && Tree(p) == Tree(inner);
    assert Terminated(toks) && |toks| > 1 && toks[1..] == Words(inner) + closing && closing[1..] == rest;
    ClosingFollows(RParen, rest);
    hide Words, Tree, WellFormed, ParseConditional, ParseCall, CallRest, ParseAtom, Follows;
    ReadWhole(inner, closing);
    GroupAtom(toks);
    CallStart(toks);
  }

  lemma ClosingFollows(close: Token, rest: seq<Token>)
    requires Terminated(rest) && (close == RParen || close == RBracket || close == Comma)
    ensures Terminated([close] + rest) && Follows(CONDITIONAL, [close] + rest)
  {
  }

  lemma {:induction false} OwnList(p: Phrase, rest: seq<Token>)
    requires WellFormed(p) && p.Bracketed? && Terminated(rest)
    ensures Terminated(Words(p) + rest) && Buildable(Tree(p))
    ensures ParseCall(Words(p) + rest) == CallRest(Tree(p), rest)
    decreases p, 0, 0
  {
    var items, tail := p.items, ListEnd(p.comma);
    var inside := List(items) + (tail + rest);
    var toks := [LBracket] + inside;
    TreeBuildable(p);
    Regroup([LBracket] + List(items), if p.comma then [Comma] else [], [RBracket]);
    BracketText([LBracket], List(items), tail, rest);
    assert AllWellFormed(items) && Words(p) + rest == toks && Tree(p) == ListLit(Trees(items));
    assert Terminated(toks) && |toks| > 1 && toks[1..] == inside;
    hide Words, List, Tree, Trees, WellFormed, AllWellFormed, ParseCall, CallRest, ParseAtom, ParseItems;
    ItemsRead(items, p.comma, rest);
    ListAtom(toks);
    CallStart(toks);
  }

  function ListEnd(comma: bool): seq<Token> {
    (if comma then [Comma] else []) + [RBracket]
  }

  lemma OwnToken(p: Phrase, rest: seq<Token>)
    requires WellFormed(p) && Terminated(rest) && rest[0] != LParen
    requires p.Quote? || p.Numeral? || p.Truth? || p.NoneWord? || p.Name?
    ensures Terminated(Words(p) + rest) && Buildable(Tree(p))
    ensures ParseCall(Words(p) + rest) == CallRest(Tree(p), rest)
  {
    hide CallRest, ParseAtom, ParseCall;
    var toks := Words(p) + rest;
    assert toks[1..] == rest && toks[1] == rest[0];
    TokenAtom(toks);
    CallStart(toks);
  }

  // ---------------------------------------------------------------- argument and item lists

  lemma {:induction false} ArgumentsRead(ps: seq<Phrase>, rest: seq<Token>)
    requires AllWellFormed(ps) && Terminated(rest)
    ensures Terminated(List(ps) + ([RParen] + rest)) && AllBuildable(Trees(ps))
    ensures ParseArguments(List(ps) + ([RParen] + rest)) == ParsedItems(Trees(ps), rest)
    decreases ps, 4, 0
  {
    TreesBuildable(ps);
    var closing := [RParen] + rest;
    assert closing[1..] == rest;
    if ps == [] {
      assert List(ps) + closing == closing;
      EmptyList(closing);
    } else {
      var after := More(ps[1..]) + closing;
      assert AllWellFormed(ps[1..]) && WellFormed(ps[0]) && Trees(ps) == [Tree(ps[0])] + Trees(ps[1..]);
      TreeBuildable(ps[0]);
      assert AllBuildable([Tree(ps[0])]);
      ListText(ps, closing);
      FirstIsNoEnd(ps[0]);
      assert (Words(ps[0]) + after)[0] == Words(ps[0])[0];
      hide *;
      MoreArguments([Tree(ps[0])], ps[1..], rest);
      ReadWhole(ps[0], after);
      ArgumentsStart(Words(ps[0]) + after);
    }
  }

  lemma ListText(ps: seq<Phrase>, closing: seq<Token>)
    requires ps != []
    ensures List(ps) + closing == Words(ps[0]) + (More(ps[1..]) + closing)
  {
    var a, b := Words(ps[0]), More(ps[1..]);
    assert List(ps) == a + b;
    Regroup(a, b, closing);
  }

  lemma MoreText(ps: seq<Phrase>, closing: seq<Token>)
    requires ps != []
    ensures More(ps) + closing == [Comma] + (Words(ps[0]) + (More(ps[1..]) + closing))
  {
    var a, b := Words(ps[0]), More(ps[1..]);
    assert More(ps) == [Comma] + a + b;
    hide Words, More;
    Regroup([Comma] + a, b, closing);
    Regroup([Comma], a, b + closing);
  }

  lemma {:induction false} MoreArguments(read: seq<Expr>, ps: seq<Phrase>, rest: seq<Token>)
    requires AllBuildable(read) && AllWellFormed(ps) && Terminated(rest)
    ensures Terminated(More(ps) + ([RParen] + rest)) && Follows(CONDITIONAL, More(ps) + ([RParen] + rest))
    ensures ArgumentsRest(read, More(ps) + ([RParen] + rest)) == ParsedItems(read + Trees(ps), rest)
    decreases ps, 3, 0
  {
    var closing := [RParen] + rest;
    assert closing[1..] == rest;
    ClosingFollows(RParen, rest);
    if ps == [] {
      assert More(ps) + closing == closing && read + Trees(ps) == read;
      ArgumentsStop(read, closing);
    } else {
      var after := More(ps[1..]) + closing;
      var e, toks := Tree(ps[0]), Words(ps[0]) + after;
      TreesTurn(read, ps);
      MoreText(ps, closing);
      CommaStarts(toks);
      hide *;
      MoreArguments(read + [e], ps[1..], rest);
      ReadWhole(ps[0], after);
      ArgumentsTurn(read, [Comma] + toks);
    }
  }

  lemma TreesTurn(read: seq<Expr>, ps: seq<Phrase>)
    requires AllBuildable(read) && AllWellFormed(ps) && ps != []
    ensures AllWellFormed(ps[1..]) && WellFormed(ps[0]) && Buildable(Tree(ps[0]))
    ensures AllBuildable(read + [Tree(ps[0])]) && read + [Tree(ps[0])] + Trees(ps[1..]) == read + Trees(ps)
  {
    TreeBuildable(ps[0]);
    Regroup(read, [Tree(ps[0])], Trees(ps[1..]));
  }

  lemma CommaStarts(toks: seq<Token>)
    ensures var all := [Comma] + toks; all[0] == Comma && all[1..] == toks
    ensures Terminated(toks) ==> Terminated([Comma] + toks) && Follows(CONDITIONAL, [Comma] + toks)
    ensures toks != [] ==> ([Comma] + toks)[1] == toks[0]
  {
  }

  lemma {:induction false} ItemsRead(ps: seq<Phrase>, comma: bool, rest: seq<Token>)
    requires AllWellFormed(ps) && (comma ==> ps != []) && Terminated(rest)
    ensures Terminated(List(ps) + (ListEnd(comma) + rest)) && AllBuildable(Trees(ps))
    ensures ParseItems(List(ps) + (ListEnd(comma) + rest)) == ParsedItems(Trees(ps), rest)
    decreases ps, 4, 0
  {
    TreesBuildable(ps);
    var closing := ListEnd(comma) + rest;
    if ps == [] {
      assert List(ps) + closing == closing && closing[1..] == rest;
      EmptyList(closing);
    } else {
      var after := More(ps[1..]) + closing;
      assert AllWellFormed(ps[1..]) && WellFormed(ps[0]) && Trees(ps) == [Tree(ps[0])] + Trees(ps[1..]);
      TreeBuildable(ps[0]);
      assert AllBuildable([Tree(ps[0])]);
      ListText(ps, closing);
      FirstIsNoEnd(ps[0]);
      assert (Words(ps[0]) + after)[0] == Words(ps[0])[0];
      hide *;
      MoreItems([Tree(ps[0])], ps[1..], comma, rest);
      ReadWhole(ps[0], after);
      ItemsStart(Words(ps[0]) + after);
    }
  }

  lemma ListEnds(read: seq<Expr>, comma: bool, rest: seq<Token>)
    requires AllBuildable(read) && Terminated(rest)
    ensures Terminated(ListEnd(comma) + rest) && Follows(CONDITIONAL, ListEnd(comma) + rest)
    ensures ItemsRest(read, ListEnd(comma) + rest) == ParsedItems(read, rest)
  {
    hide ItemsRest;
    var closing := ListEnd(comma) + rest;
    assert closing[|ListEnd(comma)|..] == rest;
    ItemsStop(read, closing);
  }

  lemma {:induction false} MoreItems(read: seq<Expr>, ps: seq<Phrase>, comma: bool, rest: seq<Token>)
    requires AllBuildable(read) && AllWellFormed(ps) && Terminated(rest)
    ensures Terminated(More(ps) + (ListEnd(comma) + rest))
    ensures Follows(CONDITIONAL, More(ps) + (ListEnd(comma) + rest))
    ensures ItemsRest(read, More(ps) + (ListEnd(comma) + rest)) == ParsedItems(read + Trees(ps), rest)
    decreases ps, 3, 0
  {
    var closing := ListEnd(comma) + rest;
    if ps == [] {
      ListEnds(read, comma, rest);
      assert More(ps) + closing == closing && read + Trees(ps) == read;
    } else {
      var after := More(ps[1..]) + closing;
      var e, toks := Tree(ps[0]), Words(ps[0]) + after;
      TreesTurn(read, ps);
      MoreText(ps, closing);
      CommaStarts(toks);
      FirstIsNoEnd(ps[0]);
      assert toks[0] == Words(ps[0])[0];
      hide *;
      MoreItems(read + [e], ps[1..], comma, rest);
      ReadWhole(ps[0], after);
      ItemsTurn(read, [Comma] + toks);
    }
  }

  // ---------------------------------------------------------------- a phrase for every tree

  /** A phrase of the tree with parentheses only around a tree that binds less than its place asks for. */
  function Fit(e: Expr, l: nat): Phrase
    requires Buildable(e)
    decreases e, 1
  {
    if l <= Strength(Bare(e)) then Bare(e) else Grouped(Bare(e))
  }

  function Bare(e: Expr): Phrase
    requires Buildable(e)
    decreases e, 0
  {
    match e
    case StringLit(text) => Quote(text)
    case IntLit(n) => Numeral(Digits(n))
    case BoolLit(value) => Truth(value)
    case NoneLit => NoneWord
    case Ref(root, fields) => Dotted(root, fields)
    case ListLit(items) => Bracketed(Bares(items), false)
    case Unary(op, inner) => Prefixed(op, Fit(inner, if op == Not then NOT else UNARY))
    case Binary(op, lhs, rhs) =>
      var l := if op == Or then OR else if op == And then AND else COMPARISON;
      Infixed(op, Fit(lhs, l), Fit(rhs, l + 1))
    case In(negate, lhs, rhs) => Membered(negate, Fit(lhs, COMPARISON), Fit(rhs, UNARY))
    case Cond(yes, test, no) => Choice(Fit(yes, OR), Fit(test, OR), Fit(no, CONDITIONAL))
    case Call(receiver, name, args) =>
      if receiver.NoneLit? then Function(name, Bares(args)) else Method(Fit(receiver, CALL), name, Bares(args))
  }

  function Bares(es: seq<Expr>): (ps: seq<Phrase>)
    requires AllBuildable(es)
    ensures |ps| == |es|
    decreases es, 0
  {
    if es == [] then [] else [Fit(es[0], CONDITIONAL)] + Bares(es[1..])
  }

  function Dotted(root: string, fields: seq<string>): Phrase {
    if fields == [] then Name(root) else Field(Dotted(root, fields[..|fields| - 1]), fields[|fields| - 1])
  }

  lemma {:induction false} DottedIs(root: string, fields: seq<string>)
    ensures IsChain(Dotted(root, fields)) && WellFormed(Dotted(root, fields))
    ensures Tree(Dotted(root, fields)) == Ref(root, fields)
    decreases |fields|
  {
    if fields != [] {
      var init, last := fields[..|fields| - 1], fields[|fields| - 1];
      DottedIs(root, init);
      assert fields == init + [last] && Dotted(root, fields) == Field(Dotted(root, init), last);
      hide Dotted;
      assert Tree(Field(Dotted(root, init), last)) == Ref(root, init + [last]);
    }
  }

  lemma {:induction false} FitIs(e: Expr, l: nat)
    requires Buildable(e) && l <= CALL
    ensures WellFormed(Fit(e, l)) && Strength(Fit(e, l)) >= l && Tree(Fit(e, l)) == e
    decreases e, 1
  {
    hide Bare;
    BareIs(e);
  }

  lemma {:induction false} BareIs(e: Expr)
    requires Buildable(e)
    ensures WellFormed(Bare(e)) && Tree(Bare(e)) == e
    decreases e, 0
  {
    hide Fit;
    match e {
      case IntLit(n) => NumeralIs(n);
      case Ref(root, fields) => DottedIs(root, fields);
      case ListLit(items) => BaresAre(items);
      case Unary(op, inner) => FitIs(inner, if op == Not then NOT else UNARY);
      case Binary(_, _, _) => BareInfix(e);
      case In(_, lhs, rhs) => FitIs(lhs, COMPARISON); FitIs(rhs, UNARY);
      case Cond(_, _, _) => BareChoice(e);
      case Call(_, _, _) => BareCall(e);
      case _ =>
    }
  }

  lemma {:induction false} BareInfix(e: Expr)
    requires Buildable(e) && e.Binary?
    ensures WellFormed(Bare(e)) && Tree(Bare(e)) == e
    decreases e, -1
  {
    hide Fit;
    var l := if e.bop == Or then OR else if e.bop == And then AND else COMPARISON;
    FitIs(e.lhs, l);
    FitIs(e.rhs, l + 1);
  }

  lemma {:induction false} BareChoice(e: Expr)
    requires Buildable(e) && e.Cond?
    ensures WellFormed(Bare(e)) && Tree(Bare(e)) == e
    decreases e, -1
  {
    hide Fit;
    FitIs(e.thenBranch, OR);
    FitIs(e.cond, OR);
    FitIs(e.elseBranch, CONDITIONAL);
  }

  lemma {:induction false} BareCall(e: Expr)
    requires Buildable(e) && e.Call?
    ensures WellFormed(Bare(e)) && Tree(Bare(e)) == e
    decreases e, -1
  {
    hide Fit, Bares;
    BaresAre(e.args);
    if !e.receiver.NoneLit? {
      FitIs(e.receiver, CALL);
    }
  }

  lemma NumeralIs(n: nat)
    requires n <= MAX_LONG
    ensures WellFormed(Numeral(Digits(n))) && Tree(Numeral(Digits(n))) == IntLit(n)
  {
    ValueOfDigits(n);
  }

  lemma {:induction false} BaresAre(es: seq<Expr>)
    requires AllBuildable(es)
    ensures AllWellFormed(Bares(es)) && Trees(Bares(es)) == es
    decreases es, 0
  {
    hide Fit, Buildable, WellFormed;
    if es != [] {
      FitIs(es[0], CONDITIONAL);
      BaresAre(es[1..]);
      assert es == [es[0]] + es[1..];
    }
  }

  // ---------------------------------------------------------------- the theorem

  /** Every tree the parser can build is what parsing its rendering returns. */
  lemma RoundTrip(e: Expr)
    requires Buildable(e)
    ensures Terminated(Words(Bare(e)) + [Eof])
    ensures ParseAll(Words(Bare(e)) + [Eof]) == Ok(e)
  {
    hide Words, Bare, Tree, WellFormed, Buildable, ParseConditional, Good;
    BareIs(e);
    ReadWhole(Bare(e), [Eof]);
  }

  /** A tree is the result of parsing some token list exactly when its integer literals are in range. */
  lemma ParserImage(e: Expr)
    ensures (exists toks :: Terminated(toks) && ParseAll(toks) == Ok(e)) <==> Buildable(e)
  {
    hide Words, Bare, ParseConditional;
    if Buildable(e) {
      RoundTrip(e);
    }
  }
}
