/** The lexer itself: a position in the source text, moved by the lexing methods. */
module Lexers {
  import opened Wrappers
  import opened Syntax
  import opened Lexing

  class Lexer {
    const alphabet: Alphabet
    const src: string
    var pos: nat

    ghost predicate Valid()
      reads this
    {
      pos <= |src|
    }

    ghost function Rest(): (s: string)
      requires Valid()
      reads this
      ensures |s| == |src| - pos && (s != "" ==> s[0] == src[pos])
    {
      src[pos..]
    }

    constructor (alphabet: Alphabet, src: string)
      ensures Valid() && this.alphabet == alphabet && this.src == src && pos == 0
    {
      this.alphabet, this.src, pos := alphabet, src, 0;
    }

    method Advance()
      requires Valid() && pos < |src|
      modifies this
      ensures Valid() && pos == old(pos) + 1 && Rest() == old(Rest())[1..]
    {
      pos := pos + 1;
    }

    method SkipWhitespaceAndComments()
      requires Valid()
      modifies this
      ensures Valid() && Rest() == Skip(old(Rest()))
    {
      ghost var target := Skip(Rest());
      hide Rest;
      while pos < |src|
        invariant Valid() && target == Skip(Rest())
        decreases |src| - pos
      {
        var c := src[pos];
        if IsSpace(c) {
          Advance();
          continue;
        }
        if c == '#' {
          Advance();
          SkipToLineBreak();
          continue;
        }
        return;
      }
    }

    method SkipToLineBreak()
      requires Valid()
      modifies this
      ensures Valid() && old(pos) <= pos && Rest() == SkipLine(old(Rest()))
    {
      ghost var target := SkipLine(Rest());
      hide Rest;
      while pos < |src| && src[pos] != '\n'
        invariant Valid() && old(pos) <= pos && target == SkipLine(Rest())
      {
        Advance();
      }
    }

    /** A string literal, from its opening quote on. */
    method LexStringToken() returns (r: Result<Token, LexError>)
      requires Valid() && pos < |src|
      modifies this
      ensures Valid() && Agrees(r, LexString(old(Rest())[0], "", old(Rest())[1..]))
    {
      var quote := src[pos];
      ghost var target := LexString(quote, "", Rest()[1..]);
      hide Rest;
      Advance();
      var text := "";
      while pos < |src| && src[pos] != quote
        invariant Valid() && target == LexString(quote, text, Rest())
        decreases |src| - pos
      {
        var c := src[pos];
        ghost var before := Rest();
        if c == '\\' {
          Advance();
          if pos >= |src| {
            return Err(UnterminatedEscape);
          }
          var unescaped := Unescape(src[pos]);
          if unescaped.None? {
            return Err(UnknownEscape);
          }
          text := text + [unescaped.value];
          Advance();
          assert Rest() == before[2..];
          continue;
        }
        if c == '\n' {
          return Err(NewlineInString);
        }
        text := text + [c];
        Advance();
      }
      if pos >= |src| {
        return Err(UnterminatedString);
      }
      Advance();
      r := Ok(Str(text));
    }

    /** The characters that satisfy `p`, up to the first that does not. */
    method TakeWhile(p: char -> bool) returns (text: string)
      requires Valid()
      modifies this
      ensures Valid() && var n := Span(p, old(Rest())); text == old(Rest())[..n] && Rest() == old(Rest())[n..]
    {
      var start := pos;
      while pos < |src| && p(src[pos])
        invariant start <= pos <= |src|
        invariant Span(p, src[start..]) == pos - start + Span(p, src[pos..])
      {
        assert src[pos..][1..] == src[pos + 1..];
        pos := pos + 1;
      }
      text := src[start..pos];
    }

    /** Step over `needle` if it is next. */
    method TryMatch(needle: string) returns (matched: bool)
      requires Valid()
      modifies this
      ensures Valid() && (matched <==> needle <= old(Rest()))
      ensures if matched then Rest() == old(Rest())[|needle|..] else pos == old(pos) && Rest() == old(Rest())
    {
      if pos + |needle| > |src| {
        return false;
      }
      var i := 0;
      while i < |needle|
        invariant 0 <= i <= |needle| && pos == old(pos)
        invariant forall k :: 0 <= k < i ==> src[pos + k] == needle[k]
      {
        if src[pos + i] != needle[i] {
          assert Rest()[i] != needle[i];
          return false;
        }
        i := i + 1;
      }
      assert needle == Rest()[..|needle|];
      pos := pos + |needle|;
      matched := true;
    }

    method LexSymbolToken() returns (r: Result<Token, LexError>)
      requires Valid() && pos < |src|
      modifies this
      ensures Valid()
      ensures var s := old(Rest());
              if Symbol(s).None? then r == Err(UnexpectedCharacter)
              else r == Ok(Symbol(s).value.0) && Symbol(s).value.1 <= |s| && Rest() == s[Symbol(s).value.1..]
    {
      hide Rest;
      var matched := TryMatch("==");
      if matched { return Ok(EqTok); }
      matched := TryMatch("!=");
      if matched { return Ok(NEqTok); }
      matched := TryMatch("<=");
      if matched { return Ok(LEqTok); }
      matched := TryMatch(">=");
      if matched { return Ok(GEqTok); }
      match src[pos] {
        case '(' => r := Ok(LParen);
        case ')' => r := Ok(RParen);
        case '[' => r := Ok(LBracket);
        case ']' => r := Ok(RBracket);
        case ',' => r := Ok(Comma);
        case '.' => r := Ok(Dot);
        case '+' => r := Ok(Plus);
        case '-' => r := Ok(Minus);
        case '<' => r := Ok(LtTok);
        case '>' => r := Ok(GtTok);
        case _ => return Err(UnexpectedCharacter);
      }
      Advance();
    }

    /** A token and the position behind it, or the same error. */
    ghost predicate Agrees(r: Result<Token, LexError>, p: Piece)
      requires Valid()
      reads this
    {
      match p
      case Piece(token, rest) => r == Ok(token) && rest == Rest()
      case Bad(error) => r == Err(error)
    }

    method NextToken() returns (r: Result<Token, LexError>)
      requires Valid() && pos < |src|
      modifies this
      ensures Valid() && Agrees(r, LexToken(alphabet, old(Rest())))
    {
      hide Rest, LexString, Span, Symbol;
      var c := src[pos];
      if IsQuote(c) {
        r := LexStringToken();
      } else if alphabet.digit(c) {
        var text := TakeWhile(alphabet.digit);
        r := Ok(Integer(text));
      } else if IdentStart(alphabet, c) {
        var a := alphabet;
        var text := TakeWhile(c => IdentCont(a, c));
        r := Ok(Word(text));
      } else {
        r := LexSymbolToken();
      }
    }

    method Tokenize() returns (result: Result<seq<Token>, LexError>)
      requires Valid() && pos == 0
      modifies this
      ensures result == Tokens(alphabet, src)
    {
      var tokens: seq<Token> := [];
      assert Rest() == src;
      hide Rest, LexToken, Skip;
      while true
        invariant Valid() && Tokens(alphabet, src) == Lex(alphabet, tokens, Rest())
        decreases |src| - pos
      {
        SkipWhitespaceAndComments();
        if pos >= |src| {
          return Ok(tokens + [Eof]);
        }
        var token := NextToken();
        if token.Err? {
          return Err(token.error);
        }
        tokens := tokens + [token.value];
      }
    }
  }
}
