/** Which error the lexer and the parser report: one law for each kind, with what is wrong at the front of the input. */
module Diagnostics {
  import opened Wrappers
  import opened Sequences
  import opened Syntax
  import opened Grammar
  import opened Phrases
  import opened Rendering
  import Lexing
  import Layouts

  // ---------------------------------------------------------------- unexpected characters

  /** The characters no token begins with; an `=` or `!` needs another `=`. */
  lemma UnexpectedCharacter(a: Lexing.Alphabet, c: char, rest: string)
    requires Lexing.Standard(a)
    ensures Lexing.LexToken(a, [c] + rest) == Lexing.Bad(Lexing.UnexpectedCharacter)
       <==> && !a.letter(c) && !a.digit(c) && c !in "_\"'()[],.+-<>"
            && !((c == '=' || c == '!') && rest != "" && rest[0] == '=')
  {
    var s := [c] + rest;
    assert s[1..] == rest;
    if rest != "" {
      assert s[1] == rest[0] && s[..2] == [c, rest[0]];
    }
    if c == '"' || c == '\'' {
      LiteralErrors(c, "", rest);
    }
  }

  lemma {:induction false} LiteralErrors(quote: char, text: string, s: string)
    ensures Lexing.LexString(quote, text, s) != Lexing.Bad(Lexing.UnexpectedCharacter)
    decreases |s|
  {
    if |s| > 1 && s[0] == '\\' && Lexing.Unescape(s[1]).Some? {
      LiteralErrors(quote, text + [Lexing.Unescape(s[1]).value], s[2..]);
    } else if s != "" {
      LiteralErrors(quote, text + [s[0]], s[1..]);
    }
  }

  // ---------------------------------------------------------------- where the parser gives up

  /** An error in the first operand is that of the whole. */
  lemma FirstOperandFails(toks: seq<Token>, e: ParseError)
    requires Terminated(toks) && toks[0] != KwNot && toks[0] != Plus && toks[0] != Minus
    requires ParseCall(toks) == Failed(e)
    ensures ParseAll(toks) == Err(e)
  {
    assert ParseUnary(toks) == Failed(e);
    assert ParseComparison(toks) == Failed(e);
    assert ParseNot(toks) == Failed(e);
    assert ParseAnd(toks) == Failed(e);
    assert ParseOr(toks) == Failed(e);
  }

  /** A complete expression may be followed by nothing. */
  lemma TrailingTokens(p: Phrase, rest: seq<Token>)
    requires WellFormed(p) && Terminated(rest) && Follows(CONDITIONAL, rest) && rest[0] != Eof
    ensures Terminated(Words(p) + rest) && ParseAll(Words(p) + rest) == Err(TrailingToken)
  {
    hide Words, WellFormed, Tree, Buildable, ParseConditional, Follows;
    ReadWhole(p, rest);
  }

  lemma UnclosedGroup(p: Phrase, rest: seq<Token>)
    requires WellFormed(p) && Terminated(rest) && Follows(CONDITIONAL, rest) && rest[0] != RParen
    ensures Terminated([LParen] + (Words(p) + rest))
    ensures ParseAll([LParen] + (Words(p) + rest)) == Err(ExpectedCloseParen)
  {
    hide Words, WellFormed, Tree, Buildable, ParseConditional, Follows, ParseAll;
    ReadWhole(p, rest);
    var toks := [LParen] + (Words(p) + rest);
    assert toks[1..] == Words(p) + rest;
    assert ParseAtom(toks) == Failed(ExpectedCloseParen);
    FirstOperandFails(toks, ExpectedCloseParen);
  }

  lemma UnclosedList(p: Phrase, rest: seq<Token>)
    requires WellFormed(p) && Terminated(rest) && Follows(CONDITIONAL, rest)
    requires rest[0] != RBracket && rest[0] != Comma
    ensures Terminated([LBracket] + (Words(p) + rest))
    ensures ParseAll([LBracket] + (Words(p) + rest)) == Err(ExpectedCloseList)
  {
    FirstIsNoEnd(p);
    hide Words, WellFormed, Tree, Buildable, ParseConditional, Follows, ParseAll;
    ReadWhole(p, rest);
    var toks := [LBracket] + (Words(p) + rest);
    assert toks[1..] == Words(p) + rest && (Words(p) + rest)[0] == Words(p)[0];
    assert ParseItems(toks[1..]) == FailedList(ExpectedCloseList);
    assert ParseAtom(toks) == Failed(ExpectedCloseList);
    FirstOperandFails(toks, ExpectedCloseList);
  }

  lemma UnclosedArguments(name: string, p: Phrase, rest: seq<Token>)
    requires WellFormed(p) && Terminated(rest) && Follows(CONDITIONAL, rest)
    requires rest[0] != RParen && rest[0] != Comma
    ensures Terminated([Ident(name), LParen] + (Words(p) + rest))
    ensures ParseAll([Ident(name), LParen] + (Words(p) + rest)) == Err(ExpectedCloseArguments)
  {
    FirstIsNoEnd(p);
    hide Words, WellFormed, Tree, Buildable, ParseConditional, Follows, ParseAll;
    ReadWhole(p, rest);
    var toks := [Ident(name), LParen] + (Words(p) + rest);
    assert toks[2..] == Words(p) + rest && (Words(p) + rest)[0] == Words(p)[0];
    assert ParseArguments(toks[2..]) == FailedList(ExpectedCloseArguments);
    assert ParseAtom(toks) == Failed(ExpectedCloseArguments);
    FirstOperandFails(toks, ExpectedCloseArguments);
  }

  lemma MissingElse(p: Phrase, test: Phrase, rest: seq<Token>)
    requires WellFormed(p) && Strength(p) >= OR && WellFormed(test) && Strength(test) >= OR
    requires Terminated(rest) && Follows(OR, rest) && rest[0] != KwOr && rest[0] != KwElse
    ensures Terminated(Words(p) + ([KwIf] + (Words(test) + rest)))
    ensures ParseAll(Words(p) + ([KwIf] + (Words(test) + rest))) == Err(ExpectedElse)
  {
    hide Words, WellFormed, Tree, Buildable, Follows, Strength, ParseOr;
    ReadsAt(OR, test, rest);
    var more := Words(test) + rest;
    ReadPart(p, KwIf, more);
    var toks := [KwIf] + more;
    assert toks[1..] == more;
    assert IfRest(Tree(p), toks) == Failed(ExpectedElse);
  }

  /** `not in` needs an operand in front of it. */
  lemma NotInWithoutOperand(rest: seq<Token>)
    requires Terminated(rest)
    ensures Terminated([KwNot, KwIn] + rest) && ParseAll([KwNot, KwIn] + rest) == Err(UnexpectedIn)
  {
    var toks := [KwNot, KwIn] + rest;
    assert toks[1] == KwIn;
    assert ParseNot(toks) == Failed(UnexpectedIn);
    assert ParseAnd(toks) == Failed(UnexpectedIn);
    assert ParseOr(toks) == Failed(UnexpectedIn);
  }

  /** A literal must be a signed 64-bit integer. */
  lemma HugeInteger(digits: string)
    requires digits != "" && AllDigits(digits)
    ensures ParseAll([Integer(digits), Eof])
         == if Decimal.Value(digits) < 0x8000_0000_0000_0000 then Ok(IntLit(Decimal.Value(digits)))
            else Err(IntegerOutOfRange)
  {
    var toks := [Integer(digits), Eof];
    if Decimal.Value(digits) < 0x8000_0000_0000_0000 {
      var p := Numeral(digits);
      assert Words(p) + [Eof] == toks;
      hide ParseConditional;
      ReadWhole(p, [Eof]);
    } else {
      assert ParseAtom(toks) == Failed(IntegerOutOfRange);
      hide ParseAll;
      FirstOperandFails(toks, IntegerOutOfRange);
    }
  }

  /** The tokens that cannot begin an operand. */
  lemma UnexpectedTokens(t: Token, rest: seq<Token>)
    requires Terminated([t] + rest)
    requires t in {RParen, RBracket, Comma, Dot, EqTok, NEqTok, LtTok, GtTok, LEqTok, GEqTok} || t == Eof
             || t == KwAnd || t == KwOr || t == KwIf || t == KwElse || t == KwIn
    ensures ParseAll([t] + rest) == Err(UnexpectedToken)
  {
    var toks := [t] + rest;
    assert toks[0] == t;
    assert ParseAtom(toks) == Failed(UnexpectedToken);
    hide ParseAll;
    FirstOperandFails(toks, UnexpectedToken);
  }

  /** A dot needs a name behind it, and without a call a reference in front of it. */
  lemma BadDots(name: string, t: Token, text: string, rest: seq<Token>)
    requires Terminated([t] + rest)
    ensures Terminated([Ident(name), Dot, t] + rest) && Terminated([Str(text), Dot, Ident(name), t] + rest)
    ensures !t.Ident? ==> ParseAll([Ident(name), Dot, t] + rest) == Err(ExpectedIdentifier)
    ensures t != LParen ==> ParseAll([Str(text), Dot, Ident(name), t] + rest) == Err(DotWithoutCall)
  {
    hide ParseAll;
    var toks, others := [Ident(name), Dot, t] + rest, [Str(text), Dot, Ident(name), t] + rest;
    assert toks[1..] == [Dot, t] + rest && others[1..] == [Dot, Ident(name), t] + rest;
    if !t.Ident? {
      assert CallRest(Ref(name, []), toks[1..]) == Failed(ExpectedIdentifier);
      FirstOperandFails(toks, ExpectedIdentifier);
    }
    if t != LParen {
      assert CallRest(StringLit(text), others[1..]) == Failed(DotWithoutCall);
      FirstOperandFails(others, DotWithoutCall);
    }
  }
}
