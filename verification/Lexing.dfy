/** The tokens of a `.Build.expr` source text: what the lexer computes, on the text still to be read. */
module Lexing {
  import opened Wrappers
  import opened Decimal
  import opened Syntax

  datatype LexError = UnterminatedEscape | UnknownEscape | NewlineInString | UnterminatedString | UnexpectedCharacter

  /** The runtime's classification of characters. */
  datatype Alphabet = Alphabet(letter: char -> bool, digit: char -> bool)

  /** It classifies the ASCII characters as everyone does. */
  ghost predicate Standard(a: Alphabet) {
    forall c: char :: c < 128 as char ==>
      && (a.letter(c) <==> 'a' <= c <= 'z' || 'A' <= c <= 'Z')
      && (a.digit(c) <==> IsDigit(c))
  }

  predicate IdentStart(a: Alphabet, c: char) {
    a.letter(c) || c == '_'
  }

  predicate IdentCont(a: Alphabet, c: char) {
    a.letter(c) || a.digit(c) || c == '_'
  }

  predicate IsSpace(c: char) {
    c == ' ' || c == '\t' || c == '\r' || c == '\n'
  }

  predicate IsQuote(c: char) {
    c == '"' || c == '\''
  }

  // ---------------------------------------------------------------- what the lexer computes

  /** From the next line break on. */
  function SkipLine(s: string): (r: string)
    ensures |r| <= |s| && (r == "" || r[0] == '\n')
  {
    if s == "" || s[0] == '\n' then s else SkipLine(s[1..])
  }

  /** Behind white space and comments. */
  function Skip(s: string): (r: string)
    ensures |r| <= |s| && (r == "" || (!IsSpace(r[0]) && r[0] != '#'))
    decreases |s|
  {
    if s == "" then ""
    else if IsSpace(s[0]) then Skip(s[1..])
    else if s[0] == '#' then Skip(SkipLine(s[1..]))
    else s
  }

  /** How many characters at the front satisfy `p`. */
  function Span(p: char -> bool, s: string): (n: nat)
    ensures n <= |s| && (n < |s| ==> !p(s[n])) && forall i :: 0 <= i < n ==> p(s[i])
  {
    if s == "" || !p(s[0]) then 0 else 1 + Span(p, s[1..])
  }

  function Unescape(c: char): Option<char> {
    if c == 'n' then Some('\n')
    else if c == 't' then Some('\t')
    else if c == 'r' then Some('\r')
    else if c == '\\' || IsQuote(c) then Some(c)
    else None
  }

  datatype Piece = Piece(token: Token, rest: string) | Bad(error: LexError)

  /** The rest of a string literal, `text` being what has been read of it. */
  function LexString(quote: char, text: string, s: string): (r: Piece)
    ensures r.Piece? ==> |r.rest| < |s| && r.token.Str?
    decreases |s|
  {
    if s == "" then Bad(UnterminatedString)
    else if s[0] == quote then Piece(Str(text), s[1..])
    else if s[0] == '\\' then
      if |s| == 1 then Bad(UnterminatedEscape)
      else
        var c := Unescape(s[1]);
        if c.None? then Bad(UnknownEscape) else LexString(quote, text + [c.value], s[2..])
    else if s[0] == '\n' then Bad(NewlineInString)
    else LexString(quote, text + [s[0]], s[1..])
  }

  /** A keyword or a name. */
  function Word(text: string): Token {
    if text == "and" then KwAnd
    else if text == "or" then KwOr
    else if text == "not" then KwNot
    else if text == "if" then KwIf
    else if text == "else" then KwElse
    else if text == "in" then KwIn
    else if text == "True" then BoolTok(true)
    else if text == "False" then BoolTok(false)
    else if text == "None" then NoneTok
    else Ident(text)
  }

  /** Operators of two characters first, then those of one. */
  function Symbol(s: string): Option<(Token, nat)>
    requires s != ""
  {
    if "==" <= s then Some((EqTok, 2))
    else if "!=" <= s then Some((NEqTok, 2))
    else if "<=" <= s then Some((LEqTok, 2))
    else if ">=" <= s then Some((GEqTok, 2))
    else if s[0] == '(' then Some((LParen, 1))
    else if s[0] == ')' then Some((RParen, 1))
    else if s[0] == '[' then Some((LBracket, 1))
    else if s[0] == ']' then Some((RBracket, 1))
    else if s[0] == ',' then Some((Comma, 1))
    else if s[0] == '.' then Some((Dot, 1))
    else if s[0] == '+' then Some((Plus, 1))
    else if s[0] == '-' then Some((Minus, 1))
    else if s[0] == '<' then Some((LtTok, 1))
    else if s[0] == '>' then Some((GtTok, 1))
    else None
  }

  /** The token at the front of a text that starts with neither white space nor a comment. */
  function LexToken(a: Alphabet, s: string): (r: Piece)
    requires s != ""
    ensures r.Piece? ==> |r.rest| < |s|
  {
    if IsQuote(s[0]) then LexString(s[0], "", s[1..])
    else if a.digit(s[0]) then
      var n := Span(a.digit, s);
      Piece(Integer(s[..n]), s[n..])
    else if IdentStart(a, s[0]) then
      var n := Span(c => IdentCont(a, c), s);
      Piece(Word(s[..n]), s[n..])
    else
      var symbol := Symbol(s);
      if symbol.None? then Bad(UnexpectedCharacter) else Piece(symbol.value.0, s[symbol.value.1..])
  }

  /** The tokens read so far and those of `s`, with `Eof` behind them. */
  function Lex(a: Alphabet, read: seq<Token>, s: string): Result<seq<Token>, LexError>
    decreases |s|
  {
    var t := Skip(s);
    if t == "" then Ok(read + [Eof])
    else
      var r := LexToken(a, t);
      if r.Bad? then Err(r.error) else Lex(a, read + [r.token], r.rest)
  }

  function Tokens(a: Alphabet, source: string): Result<seq<Token>, LexError> {
    Lex(a, [], source)
  }

  /** Whatever the text, a token list ends in its only `Eof`. */
  lemma {:induction false} EofIsLast(a: Alphabet, read: seq<Token>, s: string)
    requires forall i :: 0 <= i < |read| ==> read[i] != Eof
    ensures var r := Lex(a, read, s);
            r.Ok? ==> r.value != [] && forall i :: 0 <= i < |r.value| ==> (r.value[i] == Eof <==> i == |r.value| - 1)
    decreases |s|
  {
    var t := Skip(s);
    if t != "" {
      var r := LexToken(a, t);
      if r.Piece? {
        EofIsLast(a, read + [r.token], r.rest);
      }
    }
  }
}
