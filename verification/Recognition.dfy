/**
 The parser accepts nothing but phrases: what it has read is the words of a well-formed phrase, and the
 tree it returns is that phrase's.
 */
module Recognition {
  import opened Wrappers
  import opened Sequences
  import opened Decimal
  import opened Syntax
  import opened Grammar
  import opened Phrases
  import Rendering

  /** The tokens in front of `rest` are the words of `p`, a phrase of `e` that binds at least as tightly as `l`. */
  predicate Spells(p: Phrase, l: nat, e: Expr, toks: seq<Token>, rest: seq<Token>) {
    WellFormed(p) && Strength(p) >= l && Tree(p) == e && toks == Words(p) + rest
  }

  // ---------------------------------------------------------------- putting phrases together

  lemma Behind(a: seq<Token>, x: Token, toks: seq<Token>)
    requires toks != [] && toks[0] == x
    ensures a + toks == a + [x] + toks[1..] && toks == [x] + toks[1..]
  {
  }

  lemma SpellsChoice(yes: Phrase, test: Phrase, no: Phrase, toks: seq<Token>, rest1: seq<Token>, rest2: seq<Token>,
                     rest: seq<Token>)
    requires rest1 != [] && rest1[0] == KwIf && rest2 != [] && rest2[0] == KwElse
    requires Spells(yes, OR, Tree(yes), toks, rest1) && Spells(test, OR, Tree(test), rest1[1..], rest2)
    requires Spells(no, CONDITIONAL, Tree(no), rest2[1..], rest)
    ensures Spells(Choice(yes, test, no), CONDITIONAL, Cond(Tree(yes), Tree(test), Tree(no)), toks, rest)
  {
    Rendering.ChoiceText(yes, test, no, rest);
    hide Words, WellFormed;
    Behind([], KwIf, rest1);
    Behind([], KwElse, rest2);
    assert WellFormed(Choice(yes, test, no)) by { ChoiceFits(yes, test, no); }
  }

  lemma ChoiceFits(yes: Phrase, test: Phrase, no: Phrase)
    requires WellFormed(yes) && WellFormed(test) && WellFormed(no) && Strength(yes) >= OR && Strength(test) >= OR
    ensures WellFormed(Choice(yes, test, no))
  {
  }

  lemma SpellsInfix(op: BinaryOp, l: nat, left: Phrase, right: Phrase, toks: seq<Token>, rest: seq<Token>)
    requires l == Strength(Infixed(op, left, right))
    requires WellFormed(left) && Strength(left) >= l && toks != [] && toks[0] == OperatorToken(op)
    requires Spells(right, l + 1, Tree(right), toks[1..], rest)
    ensures Spells(Infixed(op, left, right), l, Binary(op, Tree(left), Tree(right)), Words(left) + toks, rest)
  {
    Rendering.InfixText(op, left, right, rest);
    hide Words;
    Behind([], OperatorToken(op), toks);
  }

  lemma SpellsMember(negated: bool, left: Phrase, right: Phrase, toks: seq<Token>, rest: seq<Token>)
    requires WellFormed(left) && Strength(left) >= COMPARISON
    requires if negated then NotIn(toks) else toks != [] && toks[0] == KwIn
    requires Spells(right, UNARY, Tree(right), if negated then toks[2..] else toks[1..], rest)
    ensures Spells(Membered(negated, left, right), COMPARISON, In(negated, Tree(left), Tree(right)),
                   Words(left) + toks, rest)
  {
    Rendering.MemberText(negated, left, right, rest);
    hide Words;
    if negated {
      assert toks == [KwNot, KwIn] + toks[2..];
    } else {
      Behind([], KwIn, toks);
    }
  }

  lemma SpellsPrefix(op: UnaryOp, operand: Phrase, toks: seq<Token>, rest: seq<Token>)
    requires toks != [] && toks[0] == PrefixToken(op)
    requires Spells(operand, if op == Not then NOT else UNARY, Tree(operand), toks[1..], rest)
    ensures Spells(Prefixed(op, operand), if op == Not then NOT else UNARY, Unary(op, Tree(operand)), toks, rest)
  {
    Regroup([PrefixToken(op)], Words(operand), rest);
    Behind([], PrefixToken(op), toks);
  }

  lemma SpellsField(owner: Phrase, toks: seq<Token>)
    requires WellFormed(owner) && Tree(owner).Ref? && |toks| > 2 && toks[0] == Dot && toks[1].Ident?
    ensures Spells(Field(owner, toks[1].name), CALL, Ref(Tree(owner).root, Tree(owner).fields + [toks[1].name]),
                   Words(owner) + toks, toks[2..])
  {
    RefIsChain(owner);
    Regroup(Words(owner), [Dot, Ident(toks[1].name)], toks[2..]);
    assert toks == [Dot, Ident(toks[1].name)] + toks[2..];
  }

  lemma SpellsMethod(owner: Phrase, args: seq<Phrase>, toks: seq<Token>, rest: seq<Token>)
    requires WellFormed(owner) && Strength(owner) == CALL && AllWellFormed(args)
    requires |toks| > 3 && toks[0] == Dot && toks[1].Ident? && toks[2] == LParen
    requires toks[3..] == List(args) + ([RParen] + rest)
    ensures Spells(Method(owner, toks[1].name, args), CALL, Call(Tree(owner), toks[1].name, Trees(args)),
                   Words(owner) + toks, rest)
  {
    Rendering.MethodText(owner, toks[1].name, args, rest);
    hide Words, List;
    assert toks == [Dot, Ident(toks[1].name), LParen] + toks[3..];
  }

  lemma SpellsFunction(args: seq<Phrase>, toks: seq<Token>, rest: seq<Token>)
    requires AllWellFormed(args) && |toks| > 2 && toks[0].Ident? && toks[1] == LParen
    requires toks[2..] == List(args) + ([RParen] + rest)
    ensures Spells(Function(toks[0].name, args), CALL, Call(NoneLit, toks[0].name, Trees(args)), toks, rest)
  {
    Rendering.BracketText([Ident(toks[0].name), LParen], List(args), [RParen], rest);
    assert toks == [Ident(toks[0].name), LParen] + toks[2..];
  }

  lemma SpellsList(items: seq<Phrase>, comma: bool, toks: seq<Token>, rest: seq<Token>)
    requires AllWellFormed(items) && (comma ==> items != []) && toks != [] && toks[0] == LBracket
    requires toks[1..] == List(items) + (Rendering.ListEnd(comma) + rest)
    ensures Spells(Bracketed(items, comma), CALL, ListLit(Trees(items)), toks, rest)
  {
    Rendering.BracketText([LBracket], List(items), Rendering.ListEnd(comma), rest);
    Regroup([LBracket] + List(items), if comma then [Comma] else [], [RBracket]);
    Behind([], LBracket, toks);
  }

  lemma SpellsGroup(inner: Phrase, toks: seq<Token>, rest: seq<Token>)
    requires toks != [] && toks[0] == LParen && rest != [] && rest[0] == RParen
    requires Spells(inner, CONDITIONAL, Tree(inner), toks[1..], rest)
    ensures Spells(Grouped(inner), CALL, Tree(inner), toks, rest[1..])
  {
    Rendering.BracketText([LParen], Words(inner), [RParen], rest[1..]);
    Behind([], LParen, toks);
    Behind([], RParen, rest);
  }

  // ---------------------------------------------------------------- one lemma per parsing function

  lemma {:induction false} SoundConditional(toks: seq<Token>) returns (p: Phrase)
    requires Terminated(toks) && ParseConditional(toks).Parsed?
    ensures Spells(p, CONDITIONAL, ParseConditional(toks).node, toks, ParseConditional(toks).rest)
    decreases |toks|, 9
  {
    hide ParseConditional, ParseOr, IfRest, ElseRest, Buildable, Words, WellFormed, Tree, Strength;
    ConditionalTurn(toks);
    var yes := SoundOr(toks);
    var rest1 := ParseOr(toks).rest;
    if rest1[0] != KwIf {
      LoopStops(Tree(yes), rest1);
      return yes;
    }
    IfTurn(Tree(yes), rest1);
    var test := SoundOr(rest1[1..]);
    var rest2 := ParseOr(rest1[1..]).rest;
    if rest2[0] != KwElse {
      ElseMissing(Tree(yes), Tree(test), rest2);
      assert false;
    }
    ElseTurn(Tree(yes), Tree(test), rest2);
    var no := SoundConditional(rest2[1..]);
    p := Choice(yes, test, no);
    SpellsChoice(yes, test, no, toks, rest1, rest2, ParseConditional(rest2[1..]).rest);
  }

  lemma {:induction false} SoundOr(toks: seq<Token>) returns (p: Phrase)
    requires Terminated(toks) && ParseOr(toks).Parsed?
    ensures Spells(p, OR, ParseOr(toks).node, toks, ParseOr(toks).rest)
    decreases |toks|, 8
  {
    hide ParseOr, ParseAnd, OrRest, Buildable, Words, WellFormed, Tree, Strength;
    OrStart(toks);
    var left := SoundAnd(toks);
    p := OrLoop(left, ParseAnd(toks).rest);
  }

  lemma {:induction false} OrLoop(left: Phrase, toks: seq<Token>) returns (p: Phrase)
    requires WellFormed(left) && Strength(left) >= OR && Terminated(toks) && Buildable(Tree(left))
    requires OrRest(Tree(left), toks).Parsed?
    ensures var r := OrRest(Tree(left), toks); Spells(p, OR, r.node, Words(left) + toks, r.rest)
    decreases |toks|, 8
  {
    hide ParseAnd, OrRest, Buildable, Words, WellFormed, Tree;
    if toks[0] != KwOr {
      LoopStops(Tree(left), toks);
      return left;
    }
    OrTurn(Tree(left), toks);
    var right := SoundAnd(toks[1..]);
    SpellsInfix(Or, OR, left, right, toks, ParseAnd(toks[1..]).rest);
    TreeBuildable(Infixed(Or, left, right));
    p := OrLoop(Infixed(Or, left, right), ParseAnd(toks[1..]).rest);
  }

  lemma {:induction false} SoundAnd(toks: seq<Token>) returns (p: Phrase)
    requires Terminated(toks) && ParseAnd(toks).Parsed?
    ensures Spells(p, AND, ParseAnd(toks).node, toks, ParseAnd(toks).rest)
    decreases |toks|, 7
  {
    hide ParseAnd, ParseNot, AndRest, Buildable, Words, WellFormed, Tree, Strength;
    AndStart(toks);
    var left := SoundNot(toks);
    p := AndLoop(left, ParseNot(toks).rest);
  }

  lemma {:induction false} AndLoop(left: Phrase, toks: seq<Token>) returns (p: Phrase)
    requires WellFormed(left) && Strength(left) >= AND && Terminated(toks) && Buildable(Tree(left))
    requires AndRest(Tree(left), toks).Parsed?
    ensures var r := AndRest(Tree(left), toks); Spells(p, AND, r.node, Words(left) + toks, r.rest)
    decreases |toks|, 7
  {
    hide ParseNot, AndRest, Buildable, Words, WellFormed, Tree;
    if toks[0] != KwAnd {
      LoopStops(Tree(left), toks);
      return left;
    }
    AndTurn(Tree(left), toks);
    var right := SoundNot(toks[1..]);
    SpellsInfix(And, AND, left, right, toks, ParseNot(toks[1..]).rest);
    TreeBuildable(Infixed(And, left, right));
    p := AndLoop(Infixed(And, left, right), ParseNot(toks[1..]).rest);
  }

  lemma {:induction false} SoundNot(toks: seq<Token>) returns (p: Phrase)
    requires Terminated(toks) && ParseNot(toks).Parsed?
    ensures Spells(p, NOT, ParseNot(toks).node, toks, ParseNot(toks).rest)
    decreases |toks|, 6
  {
    hide ParseComparison, Buildable, Words, WellFormed, Tree, Strength;
    if toks[0] != KwNot {
      p := SoundComparison(toks);
    } else {
      var operand := SoundNot(toks[1..]);
      p := Prefixed(Not, operand);
      SpellsPrefix(Not, operand, toks, ParseNot(toks[1..]).rest);
    }
  }

  lemma {:induction false} SoundComparison(toks: seq<Token>) returns (p: Phrase)
    requires Terminated(toks) && ParseComparison(toks).Parsed?
    ensures Spells(p, COMPARISON, ParseComparison(toks).node, toks, ParseComparison(toks).rest)
    decreases |toks|, 5
  {
    hide ParseComparison, ParseUnary, ComparisonRest, Buildable, Words, WellFormed, Tree, Strength;
    ComparisonStart(toks);
    var left := SoundUnary(toks);
    p := ComparisonLoop(left, ParseUnary(toks).rest);
  }

  lemma {:induction false} ComparisonLoop(left: Phrase, toks: seq<Token>) returns (p: Phrase)
    requires WellFormed(left) && Strength(left) >= COMPARISON && Terminated(toks) && Buildable(Tree(left))
    requires ComparisonRest(Tree(left), toks).Parsed?
    ensures var r := ComparisonRest(Tree(left), toks); Spells(p, COMPARISON, r.node, Words(left) + toks, r.rest)
    decreases |toks|, 5
  {
    hide ParseUnary, ComparisonRest, Buildable, Words, WellFormed, Tree;
    var op := ComparisonOp(toks[0]);
    if op.Some? {
      OperatorTurn(Tree(left), toks, op.value);
      var right := SoundUnary(toks[1..]);
      SpellsInfix(op.value, COMPARISON, left, right, toks, ParseUnary(toks[1..]).rest);
      TreeBuildable(Infixed(op.value, left, right));
      p := ComparisonLoop(Infixed(op.value, left, right), ParseUnary(toks[1..]).rest);
    } else if toks[0] == KwIn {
      InTurn(Tree(left), toks);
      var right := SoundUnary(toks[1..]);
      SpellsMember(false, left, right, toks, ParseUnary(toks[1..]).rest);
      TreeBuildable(Membered(false, left, right));
      p := ComparisonLoop(Membered(false, left, right), ParseUnary(toks[1..]).rest);
    } else if NotIn(toks) {
      NotInTurn(Tree(left), toks);
      var right := SoundUnary(toks[2..]);
      SpellsMember(true, left, right, toks, ParseUnary(toks[2..]).rest);
      TreeBuildable(Membered(true, left, right));
      p := ComparisonLoop(Membered(true, left, right), ParseUnary(toks[2..]).rest);
    } else {
      ComparisonStops(Tree(left), toks);
      p := left;
    }
  }

  lemma {:induction false} SoundUnary(toks: seq<Token>) returns (p: Phrase)
    requires Terminated(toks) && ParseUnary(toks).Parsed?
    ensures Spells(p, UNARY, ParseUnary(toks).node, toks, ParseUnary(toks).rest)
    decreases |toks|, 4
  {
    hide ParseCall, Buildable, Words, WellFormed, Tree, Strength;
    if toks[0] != Plus && toks[0] != Minus {
      p := SoundCall(toks);
    } else {
      var operand := SoundUnary(toks[1..]);
      var op := if toks[0] == Plus then Pos else Neg;
      p := Prefixed(op, operand);
      SpellsPrefix(op, operand, toks, ParseUnary(toks[1..]).rest);
    }
  }

  lemma {:induction false} SoundCall(toks: seq<Token>) returns (p: Phrase)
    requires Terminated(toks) && ParseCall(toks).Parsed?
    ensures Spells(p, CALL, ParseCall(toks).node, toks, ParseCall(toks).rest)
    decreases |toks|, 3
  {
    hide ParseCall, ParseAtom, CallRest, Buildable, Words, WellFormed, Tree, Strength;
    CallStart(toks);
    var owner := SoundAtom(toks);
    p := CallLoop(owner, ParseAtom(toks).rest);
  }

  lemma {:induction false} CallLoop(owner: Phrase, toks: seq<Token>) returns (p: Phrase)
    requires WellFormed(owner) && Strength(owner) >= CALL && Terminated(toks) && Buildable(Tree(owner))
    requires CallRest(Tree(owner), toks).Parsed?
    ensures var r := CallRest(Tree(owner), toks); Spells(p, CALL, r.node, Words(owner) + toks, r.rest)
    decreases |toks|, 3
  {
    hide CallRest, ParseArguments, Buildable, Words, List, WellFormed, Tree, Trees;
    if toks[0] != Dot {
      LoopStops(Tree(owner), toks);
      return owner;
    }
    if !toks[1].Ident? {
      NameMissing(Tree(owner), toks);
      assert false;
    }
    if toks[2] == LParen {
      MethodTurn(Tree(owner), toks);
      var args := SoundArguments(toks[3..]);
      var rest := ParseArguments(toks[3..]).rest;
      SpellsMethod(owner, args, toks, rest);
      TreeBuildable(Method(owner, toks[1].name, args));
      p := CallLoop(Method(owner, toks[1].name, args), rest);
    } else {
      FieldTurn(Tree(owner), toks);
      SpellsField(owner, toks);
      TreeBuildable(Field(owner, toks[1].name));
      p := CallLoop(Field(owner, toks[1].name), toks[2..]);
    }
  }

  lemma {:induction false} SoundAtom(toks: seq<Token>) returns (p: Phrase)
    requires Terminated(toks) && ParseAtom(toks).Parsed?
    ensures Spells(p, CALL, ParseAtom(toks).node, toks, ParseAtom(toks).rest)
    decreases |toks|, 2
  {
    if toks[0] == LParen {
      p := SoundGroup(toks);
    } else if toks[0] == LBracket {
      p := SoundList(toks);
    } else if toks[0].Ident? && toks[1] == LParen {
      p := SoundFunction(toks);
    } else {
      p := SoundToken(toks);
    }
  }

  lemma {:induction false} SoundGroup(toks: seq<Token>) returns (p: Phrase)
    requires Terminated(toks) && ParseAtom(toks).Parsed? && toks[0] == LParen
    ensures Spells(p, CALL, ParseAtom(toks).node, toks, ParseAtom(toks).rest)
    decreases |toks|, 1
  {
    hide ParseAtom, ParseConditional, Buildable, Words, WellFormed, Tree, Strength;
    GroupAtom(toks);
    var inner := SoundConditional(toks[1..]);
    p := Grouped(inner);
    SpellsGroup(inner, toks, ParseConditional(toks[1..]).rest);
  }

  lemma {:induction false} SoundList(toks: seq<Token>) returns (p: Phrase)
    requires Terminated(toks) && ParseAtom(toks).Parsed? && toks[0] == LBracket
    ensures Spells(p, CALL, ParseAtom(toks).node, toks, ParseAtom(toks).rest)
    decreases |toks|, 1
  {
    hide ParseAtom, ParseItems, Buildable, Words, List, WellFormed, Tree, Trees, Strength;
    ListAtom(toks);
    var items, comma := SoundItems(toks[1..]);
    p := Bracketed(items, comma);
    SpellsList(items, comma, toks, ParseItems(toks[1..]).rest);
  }

  lemma {:induction false} SoundFunction(toks: seq<Token>) returns (p: Phrase)
    requires Terminated(toks) && ParseAtom(toks).Parsed? && toks[0].Ident? && toks[1] == LParen
    ensures Spells(p, CALL, ParseAtom(toks).node, toks, ParseAtom(toks).rest)
    decreases |toks|, 1
  {
    hide ParseAtom, ParseArguments, Buildable, Words, List, WellFormed, Tree, Trees, Strength;
    FunctionAtom(toks);
    var args := SoundArguments(toks[2..]);
    p := Function(toks[0].name, args);
    SpellsFunction(args, toks, ParseArguments(toks[2..]).rest);
  }

  lemma SoundToken(toks: seq<Token>) returns (p: Phrase)
    requires Terminated(toks) && ParseAtom(toks).Parsed?
    requires toks[0] != LParen && toks[0] != LBracket && !(toks[0].Ident? && toks[1] == LParen)
    ensures Spells(p, CALL, ParseAtom(toks).node, toks, ParseAtom(toks).rest)
  {
    hide ParseAtom;
    TokenAtom(toks);
    p := match toks[0]
      case Str(text) => Quote(text)
      case Integer(digits) => Numeral(digits)
      case BoolTok(value) => Truth(value)
      case Ident(name) => Name(name)
      case _ => NoneWord;
    Behind([], toks[0], toks);
  }

  // ---------------------------------------------------------------- argument and item lists

  lemma {:induction false} SoundArguments(toks: seq<Token>) returns (ps: seq<Phrase>)
    requires Terminated(toks) && ParseArguments(toks).ParsedItems?
    ensures AllWellFormed(ps) && Trees(ps) == ParseArguments(toks).items
    ensures toks == List(ps) + ([RParen] + ParseArguments(toks).rest)
    decreases |toks|, 10
  {
    if toks[0] == RParen {
      EmptyList(toks);
      ps := [];
      Behind([], RParen, toks);
      return;
    }
    hide ParseArguments, ParseConditional, ArgumentsRest, Buildable, Words, WellFormed, Tree, Strength;
    ArgumentsStart(toks);
    var p := SoundConditional(toks);
    Single(p);
    ps := ArgumentsLoop([p], ParseConditional(toks).rest);
  }

  lemma Single(p: Phrase)
    requires WellFormed(p)
    ensures AllWellFormed([p]) && Trees([p]) == [Tree(p)] && List([p]) == Words(p) && AllBuildable([Tree(p)])
  {
    TreeBuildable(p);
    assert [p][1..] == [] && Trees([]) == [] && More([]) == [];
  }

  lemma OneMore(ps: seq<Phrase>, p: Phrase, toks: seq<Token>, rest: seq<Token>)
    requires AllWellFormed(ps) && WellFormed(p) && ps != [] && toks != [] && toks[0] == Comma
    requires toks[1..] == Words(p) + rest
    ensures AllWellFormed(ps + [p]) && Trees(ps + [p]) == Trees(ps) + [Tree(p)] && AllBuildable(Trees(ps + [p]))
    ensures List(ps) + toks == List(ps + [p]) + rest
  {
    TreesAppend(ps, p);
    ListAppend(ps, p);
    TreesBuildable(ps + [p]);
    hide Words, List, Trees, WellFormed;
    Behind([], Comma, toks);
    Rendering.BracketText(List(ps), [Comma], Words(p), rest);
    Regroup(List(ps), [Comma], Words(p));
  }

  lemma {:induction false} ArgumentsLoop(read: seq<Phrase>, toks: seq<Token>) returns (ps: seq<Phrase>)
    requires AllWellFormed(read) && read != [] && Terminated(toks) && AllBuildable(Trees(read))
    requires ArgumentsRest(Trees(read), toks).ParsedItems?
    ensures var r := ArgumentsRest(Trees(read), toks);
            AllWellFormed(ps) && Trees(ps) == r.items && List(read) + toks == List(ps) + ([RParen] + r.rest)
    decreases |toks|, 10
  {
    hide ArgumentsRest, ParseConditional, Buildable, Words, List, Trees, WellFormed, Tree, Strength;
    if toks[0] != Comma {
      ArgumentsStop(Trees(read), toks);
      Behind([], RParen, toks);
      return read;
    }
    ArgumentsTurn(Trees(read), toks);
    var p := SoundConditional(toks[1..]);
    var rest := ParseConditional(toks[1..]).rest;
    OneMore(read, p, toks, rest);
    ps := ArgumentsLoop(read + [p], rest);
  }

  lemma {:induction false} SoundItems(toks: seq<Token>) returns (ps: seq<Phrase>, comma: bool)
    requires Terminated(toks) && ParseItems(toks).ParsedItems?
    ensures AllWellFormed(ps) && (comma ==> ps != []) && Trees(ps) == ParseItems(toks).items
    ensures toks == List(ps) + (Rendering.ListEnd(comma) + ParseItems(toks).rest)
    decreases |toks|, 10
  {
    if toks[0] == RBracket {
      EmptyList(toks);
      ps, comma := [], false;
      Behind([], RBracket, toks);
      return;
    }
    hide ParseItems, ParseConditional, ItemsRest, Buildable, Words, WellFormed, Tree, Strength;
    ItemsStart(toks);
    var p := SoundConditional(toks);
    Single(p);
    ps, comma := ItemsLoop([p], ParseConditional(toks).rest);
  }

  lemma {:induction false} ItemsLoop(read: seq<Phrase>, toks: seq<Token>) returns (ps: seq<Phrase>, comma: bool)
    requires AllWellFormed(read) && read != [] && Terminated(toks) && AllBuildable(Trees(read))
    requires ItemsRest(Trees(read), toks).ParsedItems?
    ensures var r := ItemsRest(Trees(read), toks);
            && AllWellFormed(ps) && ps != [] && Trees(ps) == r.items
            && List(read) + toks == List(ps) + (Rendering.ListEnd(comma) + r.rest)
    decreases |toks|, 10
  {
    hide ItemsRest, ParseConditional, Buildable, Words, List, Trees, WellFormed, Tree, Strength;
    if toks[0] != Comma || toks[1] == RBracket {
      ItemsStop(Trees(read), toks);
      comma := toks[0] == Comma;
      assert toks == Rendering.ListEnd(comma) + toks[if comma then 2 else 1..];
      return read, comma;
    }
    ItemsTurn(Trees(read), toks);
    var p := SoundConditional(toks[1..]);
    var rest := ParseConditional(toks[1..]).rest;
    OneMore(read, p, toks, rest);
    ps, comma := ItemsLoop(read + [p], rest);
  }

  // ---------------------------------------------------------------- the theorem

  lemma AcceptedIsPhrase(toks: seq<Token>) returns (p: Phrase)
    requires Terminated(toks) && ParseAll(toks).Ok?
    ensures WellFormed(p) && Tree(p) == ParseAll(toks).value && Words(p) + [Eof] <= toks
  {
    hide ParseConditional, Words, WellFormed, Tree, Buildable, Strength;
    p := SoundConditional(toks);
    var rest := ParseConditional(toks).rest;
    Behind([], Eof, rest);
    Regroup(Words(p), [Eof], rest[1..]);
  }

  lemma PhraseIsAccepted(p: Phrase, toks: seq<Token>)
    requires WellFormed(p) && Terminated(toks) && Words(p) + [Eof] <= toks
    ensures ParseAll(toks) == Ok(Tree(p))
  {
    hide ParseConditional, Words, WellFormed, Tree, Buildable, Strength;
    var rest := toks[|Words(p)|..];
    assert toks == Words(p) + rest && rest[0] == Eof;
    Rendering.ReadWhole(p, rest);
  }

  /** The parser accepts a token list exactly if it is the words of a well-formed phrase with `Eof` behind
      them, and returns the tree of that phrase. */
  lemma ParsesExactly(toks: seq<Token>, e: Expr)
    requires Terminated(toks)
    ensures ParseAll(toks) == Ok(e) <==> exists p :: WellFormed(p) && Tree(p) == e && Words(p) + [Eof] <= toks
  {
    hide ParseAll, Words, WellFormed, Tree;
    if ParseAll(toks) == Ok(e) {
      var p := AcceptedIsPhrase(toks);
    }
    if p :| WellFormed(p) && Tree(p) == e && Words(p) + [Eof] <= toks {
      PhraseIsAccepted(p, toks);
    }
  }
}
