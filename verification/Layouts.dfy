/**
 How a source text is laid out: tokens as they are written, with white space and comments between them;
 and why the lexer reads exactly the tokens of every layout.
 */
module Layouts {
  import opened Wrappers
  import opened Sequences
  import opened Decimal
  import opened Syntax
  import opened Lexing

  // ---------------------------------------------------------------- how tokens are written

  const KEYWORDS: set<string> := {"and", "or", "not", "if", "else", "in", "True", "False", "None"}

  predicate NameGoesOn(a: Alphabet, c: char) {
    a.letter(c) || a.digit(c) || c == '_'
  }

  /** A name is written in letters, digits and underscores, does not begin with a digit, and is no keyword. */
  predicate IsName(a: Alphabet, text: string) {
    && text != "" && (a.letter(text[0]) || text[0] == '_') && !a.digit(text[0])
    && (forall i :: 0 <= i < |text| ==> NameGoesOn(a, text[i]))
    && text !in KEYWORDS
  }

  /** The tokens that are written in one way; string literals are not among them. */
  predicate Spellable(a: Alphabet, t: Token) {
    match t
    case Ident(name) => IsName(a, name)
    case Integer(digits) => digits != "" && forall i :: 0 <= i < |digits| ==> a.digit(digits[i])
    case Str(_) => false
    case Eof => false
    case _ => true
  }

  function Spell(t: Token): string {
    match t
    case Ident(name) => name
    case Str(_) => ""
    case Integer(digits) => digits
    case BoolTok(value) => if value then "True" else "False"
    case NoneTok => "None"
    case LParen => "("
    case RParen => ")"
    case LBracket => "["
    case RBracket => "]"
    case Comma => ","
    case Dot => "."
    case Plus => "+"
    case Minus => "-"
    case EqTok => "=="
    case NEqTok => "!="
    case LtTok => "<"
    case GtTok => ">"
    case LEqTok => "<="
    case GEqTok => ">="
    case KwAnd => "and"
    case KwOr => "or"
    case KwNot => "not"
    case KwIf => "if"
    case KwElse => "else"
    case KwIn => "in"
    case Eof => ""
  }

  /** What stands for one character of a literal: the character itself, or a letter behind a backslash. */
  datatype Mark = Raw(c: char) | Escape(letter: char)

  predicate IsMark(quote: char, m: Mark) {
    match m
    case Raw(c) => c != quote && c != '\\' && c != '\n'
    case Escape(c) => c == 'n' || c == 't' || c == 'r' || c == '\\' || c == '"' || c == '\''
  }

  function MarkText(m: Mark): string {
    match m
    case Raw(c) => [c]
    case Escape(c) => ['\\', c]
  }

  function MarkValue(m: Mark): char {
    match m
    case Raw(c) => c
    case Escape(c) => if c == 'n' then '\n' else if c == 't' then '\t' else if c == 'r' then '\r' else c
  }

  predicate AreMarks(quote: char, ms: seq<Mark>) {
    forall i :: 0 <= i < |ms| ==> IsMark(quote, ms[i])
  }

  function MarksText(ms: seq<Mark>): string {
    if ms == [] then "" else MarkText(ms[0]) + MarksText(ms[1..])
  }

  function MarksValue(ms: seq<Mark>): string {
    if ms == [] then "" else [MarkValue(ms[0])] + MarksValue(ms[1..])
  }

  /** A token as it is written. */
  datatype Lexeme = Plain(token: Token) | Literal(quote: char, marks: seq<Mark>) {

    predicate Valid(a: Alphabet) {
      match this
      case Plain(t) => Spellable(a, t)
      case Literal(quote, marks) => (quote == '"' || quote == '\'') && AreMarks(quote, marks)
    }

    function Text(): string {
      match this
      case Plain(t) => Spell(t)
      case Literal(quote, marks) => [quote] + (MarksText(marks) + [quote])
    }

    function Token(): Token {
      match this
      case Plain(t) => t
      case Literal(_, marks) => Str(MarksValue(marks))
    }
  }

  function TokensOf(xs: seq<Lexeme>): (toks: seq<Token>)
    ensures |toks| == |xs| && forall i :: 0 <= i < |xs| ==> toks[i] == xs[i].Token()
  {
    if xs == [] then [] else [xs[0].Token()] + TokensOf(xs[1..])
  }

  predicate AllValid(a: Alphabet, xs: seq<Lexeme>) {
    forall i :: 0 <= i < |xs| ==> xs[i].Valid(a)
  }

  // ---------------------------------------------------------------- what stands between them

  /** White space, or a comment with the line break that ends it. */
  datatype Blank = White(c: char) | Comment(text: string)

  predicate IsBlank(b: Blank) {
    match b
    case White(c) => c == ' ' || c == '\t' || c == '\r' || c == '\n'
    case Comment(text) => forall i :: 0 <= i < |text| ==> text[i] != '\n'
  }

  function BlankText(b: Blank): (s: string)
    ensures s != ""
  {
    match b
    case White(c) => [c]
    case Comment(text) => "#" + text + "\n"
  }

  function GapText(gap: seq<Blank>): string {
    if gap == [] then "" else BlankText(gap[0]) + GapText(gap[1..])
  }

  predicate IsGap(gap: seq<Blank>) {
    forall i :: 0 <= i < |gap| ==> IsBlank(gap[i])
  }

  /** A gap, possibly empty, behind each token. */
  predicate IsGaps(gaps: seq<seq<Blank>>, count: nat) {
    |gaps| == count && forall i :: 0 <= i < count ==> IsGap(gaps[i])
  }

  /** The end of a text: nothing, or a comment without a line break. */
  predicate IsTail(tail: string) {
    tail == "" || (tail[0] == '#' && forall i :: 0 <= i < |tail| ==> tail[i] != '\n')
  }

  function Text(xs: seq<Lexeme>, gaps: seq<seq<Blank>>, tail: string): string
    requires |gaps| == |xs|
  {
    if xs == [] then tail else xs[0].Text() + (GapText(gaps[0]) + Text(xs[1..], gaps[1..], tail))
  }

  /** The tokens that are spelled like names. */
  predicate IsWord(t: Token) {
    t.Ident? || t.BoolTok? || t.NoneTok? || t.KwAnd? || t.KwOr? || t.KwNot? || t.KwIf? || t.KwElse? || t.KwIn?
  }

  /** What follows does not run on from the token: a letter from a word, a digit from a number, an equals
      sign from `<` or `>`. */
  predicate Ends(a: Alphabet, t: Token, rest: string) {
    || rest == ""
    || if IsWord(t) then !NameGoesOn(a, rest[0])
       else if t.Integer? then !a.digit(rest[0])
       else if t.LtTok? || t.GtTok? then rest[0] != '='
       else true
  }

  /** Two tokens without a gap between them do not run into each other. */
  predicate KeptApart(a: Alphabet, xs: seq<Lexeme>, gaps: seq<seq<Blank>>)
    requires |gaps| == |xs|
  {
    forall i :: 0 <= i < |xs| - 1 && gaps[i] == [] ==> Ends(a, xs[i].Token(), xs[i + 1].Text())
  }

  /** A source text taken apart. */
  datatype Layout = Layout(lead: seq<Blank>, lexemes: seq<Lexeme>, gaps: seq<seq<Blank>>, tail: string) {

    predicate Valid(a: Alphabet) {
      AllValid(a, lexemes) && IsGap(lead) && IsGaps(gaps, |lexemes|) && IsTail(tail)
    }

    predicate Legible(a: Alphabet)
      requires Valid(a)
    {
      KeptApart(a, lexemes, gaps)
    }

    function Source(): string
      requires |gaps| == |lexemes|
    {
      GapText(lead) + Text(lexemes, gaps, tail)
    }

    function Tokens(): seq<Token> {
      TokensOf(lexemes)
    }
  }

  // ---------------------------------------------------------------- reading a spelling back

  lemma {:induction false} SkipComment(text: string, rest: string)
    requires forall i :: 0 <= i < |text| ==> text[i] != '\n'
    ensures SkipLine(text + ("\n" + rest)) == "\n" + rest
    decreases |text|
  {
    var s := text + ("\n" + rest);
    if text == "" {
      assert s == "\n" + rest;
    } else {
      assert s[1..] == text[1..] + ("\n" + rest);
      SkipComment(text[1..], rest);
    }
  }

  lemma SkipBlank(b: Blank, rest: string)
    requires IsBlank(b)
    ensures Skip(BlankText(b) + rest) == Skip(rest)
  {
    var s := BlankText(b) + rest;
    match b {
      case White(c) =>
        assert s[1..] == rest;
      case Comment(text) =>
        assert s[1..] == text + ("\n" + rest);
        SkipComment(text, rest);
        assert ("\n" + rest)[1..] == rest;
        assert Skip("\n" + rest) == Skip(rest);
    }
  }

  lemma {:induction false} SkipGap(gap: seq<Blank>, rest: string)
    requires IsGap(gap)
    ensures Skip(GapText(gap) + rest) == Skip(rest)
    decreases |gap|
  {
    if gap == [] {
      assert GapText(gap) + rest == rest;
    } else {
      assert GapText(gap) + rest == BlankText(gap[0]) + (GapText(gap[1..]) + rest);
      SkipBlank(gap[0], GapText(gap[1..]) + rest);
      SkipGap(gap[1..], rest);
    }
  }

  /** Where a gap stands, no token goes on. */
  lemma GapEnds(a: Alphabet, t: Token, gap: seq<Blank>, rest: string)
    requires Standard(a) && gap != [] && IsGap(gap)
    ensures Ends(a, t, GapText(gap) + rest)
  {
    assert IsBlank(gap[0]);
    var c := BlankText(gap[0])[0];
    assert (GapText(gap) + rest)[0] == c;
    assert c == '#' || IsSpace(c);
  }

  lemma {:induction false} SpanOf(p: char -> bool, w: string, rest: string)
    requires (forall i :: 0 <= i < |w| ==> p(w[i])) && (rest == "" || !p(rest[0]))
    ensures Span(p, w + rest) == |w|
    decreases |w|
  {
    if w == "" {
      assert w + rest == rest;
    } else {
      assert (w + rest)[1..] == w[1..] + rest;
      SpanOf(p, w[1..], rest);
    }
  }

  lemma LexWord(a: Alphabet, w: string, rest: string)
    requires rest == "" || !IdentCont(a, rest[0])
    requires w != "" && IdentStart(a, w[0]) && !a.digit(w[0]) && !IsQuote(w[0])
    requires forall i :: 0 <= i < |w| ==> IdentCont(a, w[i])
    ensures LexToken(a, w + rest) == Piece(Word(w), rest)
  {
    var s := w + rest;
    var p := c => IdentCont(a, c);
    assert s[0] == w[0];
    SpanOf(p, w, rest);
    assert s[..|w|] == w && s[|w|..] == rest;
  }

  lemma LexNumber(a: Alphabet, w: string, rest: string)
    requires Standard(a) && w != "" && (forall i :: 0 <= i < |w| ==> a.digit(w[i])) && (rest == "" || !a.digit(rest[0]))
    ensures LexToken(a, w + rest) == Piece(Integer(w), rest)
  {
    var s := w + rest;
    assert s[0] == w[0];
    SpanOf(a.digit, w, rest);
    assert s[..|w|] == w && s[|w|..] == rest;
  }

  lemma LexSymbol(a: Alphabet, w: string, rest: string, t: Token)
    requires 1 <= |w| <= 2 && (rest == "" || rest[0] != '=' || (!t.LtTok? && !t.GtTok?))
    requires w[0] < 128 as char && !IsQuote(w[0]) && !IdentStart(a, w[0]) && !a.digit(w[0])
    requires Symbol(w) == Some((t, |w|))
    ensures LexToken(a, w + rest) == Piece(t, rest)
  {
    var s := w + rest;
    assert s[0] == w[0] && s[|w|..] == rest;
    assert |w| == 2 ==> s[1] == w[1];
    assert |w| == 1 && rest != "" ==> s[1] == rest[0];
    SymbolOfPrefix(w, rest);
  }

  lemma SymbolOfPrefix(w: string, rest: string)
    requires 1 <= |w| <= 2 && Symbol(w).Some? && Symbol(w).value.1 == |w|
    requires rest == "" || rest[0] != '=' || (w[0] != '<' && w[0] != '>') || |w| == 2
    ensures Symbol(w + rest) == Symbol(w)
  {
    var s := w + rest;
    assert s[0] == w[0];
    if |w| == 2 {
      assert s[..2] == w;
    } else if rest != "" {
      assert s[1] == rest[0];
    }
  }

  lemma WordSpelling(a: Alphabet, t: Token)
    requires Standard(a) && Spellable(a, t) && IsWord(t)
    ensures var w := Spell(t);
            && w != "" && IdentStart(a, w[0]) && !a.digit(w[0]) && !IsQuote(w[0])
            && (forall i :: 0 <= i < |w| ==> IdentCont(a, w[i]))
            && Word(w) == t
  {
  }

  lemma SymbolSpelling(a: Alphabet, t: Token)
    requires Standard(a) && Spellable(a, t) && !IsWord(t) && !t.Integer?
    ensures var w := Spell(t);
            && 1 <= |w| <= 2 && w[0] < 128 as char && !IsQuote(w[0]) && !IdentStart(a, w[0]) && !a.digit(w[0])
            && Symbol(w) == Some((t, |w|))
  {
  }

  /** A token that is written in one way is read back from its spelling if it ends there. */
  lemma LexSpelled(a: Alphabet, t: Token, rest: string)
    requires Standard(a) && Spellable(a, t) && Ends(a, t, rest)
    ensures Spell(t) != "" && LexToken(a, Spell(t) + rest) == Piece(t, rest)
  {
    hide LexToken, Word, Symbol;
    if IsWord(t) {
      WordSpelling(a, t);
      LexWord(a, Spell(t), rest);
    } else if t.Integer? {
      LexNumber(a, t.digits, rest);
    } else {
      SymbolSpelling(a, t);
      LexSymbol(a, Spell(t), rest, t);
    }
  }

  /** If it does not, another token is read. */
  lemma LexRunOn(a: Alphabet, t: Token, rest: string)
    requires Standard(a) && Spellable(a, t) && !Ends(a, t, rest)
    ensures Spell(t) != "" && var r := LexToken(a, Spell(t) + rest); r.Piece? ==> r.token != t
  {
    hide LexToken, Word;
    var w := Spell(t);
    if IsWord(t) {
      WordSpelling(a, t);
      WordRunsOn(a, w, rest);
    } else if t.Integer? {
      NumberRunsOn(a, t.digits, rest);
    } else {
      ComparisonRunsOn(a, t, rest);
    }
  }

  lemma LongerSpan(p: char -> bool, w: string, rest: string)
    requires (forall i :: 0 <= i < |w| ==> p(w[i])) && rest != "" && p(rest[0])
    ensures Span(p, w + rest) > |w|
  {
    var s := w + rest;
    assert s[|w|] == rest[0] && forall i :: 0 <= i < |w| ==> s[i] == w[i];
  }

  lemma WordRunsOn(a: Alphabet, w: string, rest: string)
    requires rest != "" && IdentCont(a, rest[0])
    requires w != "" && IdentStart(a, w[0]) && !a.digit(w[0]) && !IsQuote(w[0])
    requires forall i :: 0 <= i < |w| ==> IdentCont(a, w[i])
    ensures var r := LexToken(a, w + rest); r.Piece? && r.token != Word(w)
  {
    var s := w + rest;
    var n := Span(c => IdentCont(a, c), s);
    assert s[0] == w[0];
    LongerSpan(c => IdentCont(a, c), w, rest);
    assert s[..n] != w;
    WordInjective(s[..n], w);
  }

  lemma WordInjective(x: string, y: string)
    requires x != y
    ensures Word(x) != Word(y)
  {
  }

  lemma NumberRunsOn(a: Alphabet, w: string, rest: string)
    requires Standard(a) && w != "" && (forall i :: 0 <= i < |w| ==> a.digit(w[i])) && rest != "" && a.digit(rest[0])
    ensures var r := LexToken(a, w + rest); r.Piece? && r.token != Integer(w)
  {
    var s := w + rest;
    assert s[0] == w[0];
    LongerSpan(a.digit, w, rest);
  }

  lemma ComparisonRunsOn(a: Alphabet, t: Token, rest: string)
    requires Standard(a) && (t.LtTok? || t.GtTok?) && rest != "" && rest[0] == '='
    ensures var r := LexToken(a, Spell(t) + rest); r.Piece? && r.token != t
  {
    var s := Spell(t) + rest;
    assert s[0] == Spell(t)[0] && s[1] == '=' && s[..2] == Spell(t) + "=";
  }

  lemma LexGap(a: Alphabet, read: seq<Token>, gap: seq<Blank>, rest: string)
    requires IsGap(gap)
    ensures Lex(a, read, GapText(gap) + rest) == Lex(a, read, rest)
  {
    hide LexToken, Skip;
    SkipGap(gap, rest);
  }

  lemma {:induction false} LexExtends(a: Alphabet, read: seq<Token>, s: string)
    ensures var r := Lex(a, read, s); r.Ok? ==> read < r.value
    decreases |s|
  {
    hide LexToken, Skip;
    var t := Skip(s);
    if t != "" {
      var r := LexToken(a, t);
      if r.Piece? {
        LexExtends(a, read + [r.token], r.rest);
      }
    }
  }

  // ---------------------------------------------------------------- literals

  lemma {:induction false} LexMarks(quote: char, read: string, ms: seq<Mark>, rest: string)
    requires (quote == '"' || quote == '\'') && AreMarks(quote, ms)
    ensures LexString(quote, read, MarksText(ms) + ([quote] + rest)) == Piece(Str(read + MarksValue(ms)), rest)
    decreases |ms|
  {
    hide LexString;
    var closing := [quote] + rest;
    if ms == [] {
      assert MarksText(ms) + closing == closing && closing[1..] == rest && read + MarksValue(ms) == read;
      ClosingTurn(quote, read, rest);
    } else {
      var more := MarksText(ms[1..]) + closing;
      assert IsMark(quote, ms[0]);
      Regroup(MarkText(ms[0]), MarksText(ms[1..]), closing);
      MarkTurn(quote, read, ms[0], more);
      LexMarks(quote, read + [MarkValue(ms[0])], ms[1..], rest);
      Regroup(read, [MarkValue(ms[0])], MarksValue(ms[1..]));
    }
  }

  lemma ClosingTurn(quote: char, read: string, rest: string)
    ensures LexString(quote, read, [quote] + rest) == Piece(Str(read), rest)
  {
    assert ([quote] + rest)[1..] == rest;
  }

  lemma MarkTurn(quote: char, read: string, m: Mark, more: string)
    requires (quote == '"' || quote == '\'') && IsMark(quote, m)
    ensures LexString(quote, read, MarkText(m) + more) == LexString(quote, read + [MarkValue(m)], more)
  {
    var s := MarkText(m) + more;
    assert s[|MarkText(m)|..] == more;
  }

  lemma LexLiteral(a: Alphabet, x: Lexeme, rest: string)
    requires x.Literal? && x.Valid(a)
    ensures LexToken(a, x.Text() + rest) == Piece(x.Token(), rest)
  {
    hide LexString, MarksText, MarksValue;
    var body := MarksText(x.marks);
    var s := x.Text() + rest;
    Regroup([x.quote], body + [x.quote], rest);
    Regroup(body, [x.quote], rest);
    assert s[0] == x.quote && s[1..] == body + ([x.quote] + rest);
    LexMarks(x.quote, "", x.marks, rest);
    assert "" + MarksValue(x.marks) == MarksValue(x.marks);
  }

  /** What ends a literal badly behind any valid marks: the end of the text, alone or behind a backslash,
      a letter that no escape has, and a line break. */
  lemma {:induction false} BrokenLiteral(quote: char, read: string, ms: seq<Mark>, rest: string)
    requires (quote == '"' || quote == '\'') && AreMarks(quote, ms)
    ensures rest == "" ==> LexString(quote, read, MarksText(ms) + rest) == Bad(UnterminatedString)
    ensures rest == "\\" ==> LexString(quote, read, MarksText(ms) + rest) == Bad(UnterminatedEscape)
    ensures |rest| > 1 && rest[0] == '\\' && !IsMark(quote, Escape(rest[1])) ==>
      LexString(quote, read, MarksText(ms) + rest) == Bad(UnknownEscape)
    ensures rest != "" && rest[0] == '\n' ==> LexString(quote, read, MarksText(ms) + rest) == Bad(NewlineInString)
    decreases |ms|
  {
    if ms == [] {
      assert MarksText(ms) + rest == rest;
    } else {
      hide LexString;
      assert IsMark(quote, ms[0]);
      Regroup(MarkText(ms[0]), MarksText(ms[1..]), rest);
      MarkTurn(quote, read, ms[0], MarksText(ms[1..]) + rest);
      BrokenLiteral(quote, read + [MarkValue(ms[0])], ms[1..], rest);
    }
  }

  // ---------------------------------------------------------------- the tokens of a layout

  /** A token as it is written is read back if it ends there, and another one is read if not. */
  lemma LexLexeme(a: Alphabet, x: Lexeme, rest: string)
    requires Standard(a) && x.Valid(a)
    ensures x.Text() != ""
    ensures Ends(a, x.Token(), rest) ==> LexToken(a, x.Text() + rest) == Piece(x.Token(), rest)
    ensures !Ends(a, x.Token(), rest) ==>
      var r := LexToken(a, x.Text() + rest); r.Piece? ==> r.token != x.Token()
  {
    hide LexToken, Spell, Spellable;
    if x.Literal? {
      LexLiteral(a, x, rest);
    } else if Ends(a, x.token, rest) {
      LexSpelled(a, x.token, rest);
    } else {
      LexRunOn(a, x.token, rest);
    }
  }

  lemma LexemeStarts(a: Alphabet, x: Lexeme, rest: string)
    requires Standard(a) && x.Valid(a)
    ensures x.Text() != "" && Skip(x.Text() + rest) == x.Text() + rest
  {
    var c := x.Text()[0];
    assert (x.Text() + rest)[0] == c;
    assert !IsSpace(c) && c != '#';
  }

  /** The first token ends where the rest of a legible text begins, and only there. */
  lemma EndsInText(a: Alphabet, xs: seq<Lexeme>, gaps: seq<seq<Blank>>, tail: string)
    requires Standard(a) && AllValid(a, xs) && IsGaps(gaps, |xs|) && IsTail(tail) && xs != []
    ensures Ends(a, xs[0].Token(), GapText(gaps[0]) + Text(xs[1..], gaps[1..], tail))
       <==> gaps[0] != [] || |xs| == 1 || Ends(a, xs[0].Token(), xs[1].Text())
  {
    hide Lexeme.Text, Lexeme.Valid, Lexeme.Token, IsGap, NameGoesOn;
    var t, rest := xs[0].Token(), GapText(gaps[0]) + Text(xs[1..], gaps[1..], tail);
    if gaps[0] != [] {
      GapEnds(a, t, gaps[0], Text(xs[1..], gaps[1..], tail));
    } else if |xs| == 1 {
      assert rest == tail;
      TailEnds(a, t, tail);
    } else {
      LexemeStarts(a, xs[1], "");
      assert rest[0] == xs[1].Text()[0];
    }
  }

  lemma TailEnds(a: Alphabet, t: Token, tail: string)
    requires Standard(a) && IsTail(tail)
    ensures Ends(a, t, tail)
  {
  }

  lemma LegibleTurn(a: Alphabet, xs: seq<Lexeme>, gaps: seq<seq<Blank>>)
    requires |gaps| == |xs| > 0
    ensures KeptApart(a, xs, gaps)
       <==> && (gaps[0] != [] || |xs| == 1 || Ends(a, xs[0].Token(), xs[1].Text()))
            && KeptApart(a, xs[1..], gaps[1..])
  {
    hide Ends, Lexeme.Text, Lexeme.Token;
    var xs', gaps' := xs[1..], gaps[1..];
    if KeptApart(a, xs', gaps') {
      forall i | 0 < i < |xs| - 1 && gaps[i] == [] ensures Ends(a, xs[i].Token(), xs[i + 1].Text()) {
        assert gaps'[i - 1] == [] && xs'[i - 1] == xs[i] && xs'[i - 1 + 1] == xs[i + 1];
      }
    }
    if KeptApart(a, xs, gaps) {
      forall i | 0 <= i < |xs'| - 1 && gaps'[i] == [] ensures Ends(a, xs'[i].Token(), xs'[i + 1].Text()) {
        assert gaps[i + 1] == [] && xs[i + 1] == xs'[i] && xs[i + 1 + 1] == xs'[i + 1];
      }
    }
  }

  lemma {:induction false} LexText(
    a: Alphabet, read: seq<Token>, xs: seq<Lexeme>, gaps: seq<seq<Blank>>, tail: string)
    requires Standard(a) && AllValid(a, xs) && IsGaps(gaps, |xs|) && IsTail(tail)
    ensures Lex(a, read, Text(xs, gaps, tail)) == Ok(read + TokensOf(xs) + [Eof]) <==> KeptApart(a, xs, gaps)
    decreases |xs|
  {
    hide LexToken, Skip, Lexeme.Text, Lexeme.Valid, Lexeme.Token, GapText, IsGap, Ends, KeptApart;
    if xs == [] {
      SkipTail(tail);
      assert read + TokensOf(xs) == read;
      assert KeptApart(a, xs, gaps) by { NothingIsLegible(a); }
    } else {
      var t, more := xs[0].Token(), Text(xs[1..], gaps[1..], tail);
      var rest := GapText(gaps[0]) + more;
      LexemeStarts(a, xs[0], rest);
      EndsInText(a, xs, gaps, tail);
      LegibleTurn(a, xs, gaps);
      LexLexeme(a, xs[0], rest);
      if Ends(a, t, rest) {
        LexGap(a, read + [t], gaps[0], more);
        LexText(a, read + [t], xs[1..], gaps[1..], tail);
        Regroup(read, [t], TokensOf(xs[1..]));
      } else {
        RunOnSpoils(a, read, xs[0].Text() + rest, TokensOf(xs));
      }
    }
  }

  /** A text that begins with another token is not read as these. */
  lemma RunOnSpoils(a: Alphabet, read: seq<Token>, s: string, tokens: seq<Token>)
    requires tokens != [] && s != "" && Skip(s) == s
    requires var r := LexToken(a, s); r.Piece? ==> r.token != tokens[0]
    ensures Lex(a, read, s) != Ok(read + tokens + [Eof])
  {
    hide LexToken, Skip;
    var r := LexToken(a, s);
    if r.Piece? {
      var longer := read + [r.token];
      LexExtends(a, longer, r.rest);
      assert longer[|read|] != (read + tokens + [Eof])[|read|];
    }
  }

  lemma NothingIsLegible(a: Alphabet)
    ensures KeptApart(a, [], [])
  {
  }

  lemma {:induction false} SkipToEnd(s: string)
    requires forall i :: 0 <= i < |s| ==> s[i] != '\n'
    ensures SkipLine(s) == ""
  {
    if s != "" {
      SkipToEnd(s[1..]);
    }
  }

  lemma SkipTail(tail: string)
    requires IsTail(tail)
    ensures Skip(tail) == ""
  {
    if tail != "" {
      SkipToEnd(tail[1..]);
    }
  }

  /** A layout is read as its tokens, with `Eof` behind them, exactly if it is legible: white space and
      comments may stand anywhere between tokens, and must where two tokens would run into each other. */
  lemma RoundTrip(a: Alphabet, y: Layout)
    requires Standard(a) && y.Valid(a)
    ensures Tokens(a, y.Source()) == Ok(y.Tokens() + [Eof]) <==> y.Legible(a)
  {
    hide Lex, GapText, Text, KeptApart, Lexeme.Valid;
    LexGap(a, [], y.lead, Text(y.lexemes, y.gaps, y.tail));
    LexText(a, [], y.lexemes, y.gaps, y.tail);
    assert [] + y.Tokens() == y.Tokens();
  }

  // ---------------------------------------------------------------- taking a text apart

  lemma {:induction false} LineOf(s: string) returns (text: string)
    ensures s == text + SkipLine(s) && forall i :: 0 <= i < |text| ==> text[i] != '\n'
  {
    if s == "" || s[0] == '\n' {
      text := "";
    } else {
      text := LineOf(s[1..]);
      text := [s[0]] + text;
    }
  }

  /** What is skipped is a gap, or a gap and a tail at the end of the text. */
  lemma {:induction false} SkippedIsGap(s: string) returns (gap: seq<Blank>, tail: string)
    ensures IsGap(gap) && IsTail(tail)
    ensures s == GapText(gap) + (if Skip(s) == "" then tail else Skip(s))
    decreases |s|, 1
  {
    if s == "" {
      gap, tail := [], "";
    } else if IsSpace(s[0]) {
      gap, tail := SkippedIsGap(s[1..]);
      OneMoreBlank(White(s[0]), gap, s, s[1..], if Skip(s) == "" then tail else Skip(s));
      gap := [White(s[0])] + gap;
    } else if s[0] == '#' {
      gap, tail := SkippedComment(s);
    } else {
      gap, tail := [], "";
    }
  }

  lemma {:induction false} SkippedComment(s: string) returns (gap: seq<Blank>, tail: string)
    requires s != "" && s[0] == '#'
    ensures IsGap(gap) && IsTail(tail)
    ensures s == GapText(gap) + (if Skip(s) == "" then tail else Skip(s))
    decreases |s|, 0
  {
    var text := LineOf(s[1..]);
    var line := SkipLine(s[1..]);
    assert s == "#" + s[1..];
    if line == "" {
      gap, tail := [], s;
      assert Skip(line) == "";
      assert s == "#" + text;
    } else {
      assert Skip(s) == Skip(line) == Skip(line[1..]) && line == "\n" + line[1..];
      hide Skip, SkipLine;
      gap, tail := SkippedIsGap(line[1..]);
      Regroup("#" + text, "\n", line[1..]);
      Regroup("#", text, line);
      OneMoreBlank(Comment(text), gap, s, line[1..], if Skip(s) == "" then tail else Skip(s));
      gap := [Comment(text)] + gap;
    }
  }

  lemma OneMoreBlank(b: Blank, gap: seq<Blank>, s: string, more: string, rest: string)
    requires IsBlank(b) && IsGap(gap) && s == BlankText(b) + more && more == GapText(gap) + rest
    ensures IsGap([b] + gap) && s == GapText([b] + gap) + rest
  {
    assert ([b] + gap)[0] == b && ([b] + gap)[1..] == gap;
    Regroup(BlankText(b), GapText(gap), rest);
  }

  lemma FirstMark(quote: char, read: string, s: string) returns (m: Mark, more: string)
    requires (quote == '"' || quote == '\'') && LexString(quote, read, s).Piece? && s[0] != quote
    ensures IsMark(quote, m) && s == MarkText(m) + more && |more| < |s|
    ensures LexString(quote, read, s) == LexString(quote, read + [MarkValue(m)], more)
  {
    m := if s[0] == '\\' then Escape(s[1]) else Raw(s[0]);
    more := s[|MarkText(m)|..];
    assert s == MarkText(m) + more && IsMark(quote, m);
    MarkTurn(quote, read, m, more);
  }

  /** What is read of a literal is its marks and the closing quote. */
  lemma {:induction false} ReadIsMarks(quote: char, read: string, s: string) returns (ms: seq<Mark>)
    requires (quote == '"' || quote == '\'') && LexString(quote, read, s).Piece?
    ensures var r := LexString(quote, read, s);
            AreMarks(quote, ms) && r.token == Str(read + MarksValue(ms)) && s == MarksText(ms) + ([quote] + r.rest)
    decreases |s|
  {
    if s[0] == quote {
      ms := [];
      assert s == [quote] + s[1..] && MarksText(ms) + s == s && read + MarksValue(ms) == read;
    } else {
      var m, more := FirstMark(quote, read, s);
      hide LexString, MarkText, MarkValue, IsMark;
      ms := ReadIsMarks(quote, read + [MarkValue(m)], more);
      OneMoreMark(quote, m, ms, [quote] + LexString(quote, read, s).rest);
      Regroup(read, [MarkValue(m)], MarksValue(ms));
      ms := [m] + ms;
    }
  }

  lemma OneMoreMark(quote: char, m: Mark, ms: seq<Mark>, rest: string)
    requires IsMark(quote, m) && AreMarks(quote, ms)
    ensures AreMarks(quote, [m] + ms) && MarksValue([m] + ms) == [MarkValue(m)] + MarksValue(ms)
    ensures MarksText([m] + ms) + rest == MarkText(m) + (MarksText(ms) + rest)
  {
    assert ([m] + ms)[0] == m && ([m] + ms)[1..] == ms;
    Regroup(MarkText(m), MarksText(ms), rest);
  }

  /** What is read as one token is that token as it is written, and it ends there. */
  lemma ReadIsLexeme(a: Alphabet, s: string) returns (x: Lexeme)
    requires Standard(a) && s != "" && LexToken(a, s).Piece?
    ensures var r := LexToken(a, s);
            x.Valid(a) && x.Token() == r.token && s == x.Text() + r.rest && Ends(a, r.token, r.rest)
  {
    if IsQuote(s[0]) {
      var ms := ReadIsMarks(s[0], "", s[1..]);
      x := Literal(s[0], ms);
      assert "" + MarksValue(ms) == MarksValue(ms);
      Regroup(MarksText(ms), [s[0]], LexToken(a, s).rest);
      Regroup([s[0]], MarksText(ms) + [s[0]], LexToken(a, s).rest);
      assert s == [s[0]] + s[1..];
    } else if a.digit(s[0]) {
      var n := Span(a.digit, s);
      x := Plain(Integer(s[..n]));
    } else if IdentStart(a, s[0]) {
      x := ReadWord(a, s);
    } else {
      x := ReadSymbol(s);
      SymbolIsPlain(a, s, x);
    }
  }

  lemma ReadWord(a: Alphabet, s: string) returns (x: Lexeme)
    requires Standard(a) && s != "" && IdentStart(a, s[0]) && !a.digit(s[0]) && !IsQuote(s[0])
    ensures var r := LexToken(a, s);
            r.Piece? && x.Valid(a) && x.Token() == r.token && s == x.Text() + r.rest && Ends(a, r.token, r.rest)
  {
    var n := Span(c => IdentCont(a, c), s);
    var w := s[..n];
    assert n > 0 && w[0] == s[0] && s == w + s[n..];
    assert LexToken(a, s) == Piece(Word(w), s[n..]);
    assert n < |s| ==> !IdentCont(a, s[n]);
    hide LexToken;
    WordIsSpelled(a, w);
    x := Plain(Word(w));
  }

  lemma WordIsSpelled(a: Alphabet, w: string)
    requires w != "" && IdentStart(a, w[0]) && !a.digit(w[0]) && forall i :: 0 <= i < |w| ==> IdentCont(a, w[i])
    ensures Spell(Word(w)) == w && Spellable(a, Word(w)) && IsWord(Word(w))
  {
  }

  lemma ReadSymbol(s: string) returns (x: Lexeme)
    requires s != "" && Symbol(s).Some?
    ensures x.Plain? && x.token == Symbol(s).value.0 && s[..|x.Text()|] == x.Text()
    ensures |x.Text()| == Symbol(s).value.1 <= |s|
    ensures !IsWord(x.token) && !x.token.Integer? && !x.token.Str? && !x.token.Eof?
    ensures x.token.LtTok? || x.token.GtTok? ==> |s| == 1 || s[1] != '='
  {
    x := Plain(Symbol(s).value.0);
    if |s| > 1 {
      assert s[..2] == [s[0], s[1]];
    }
    assert s[..1] == [s[0]];
  }

  lemma SymbolIsPlain(a: Alphabet, s: string, x: Lexeme)
    requires s != "" && !IsQuote(s[0]) && !a.digit(s[0]) && !IdentStart(a, s[0]) && Symbol(s).Some?
    requires x.Plain? && x.token == Symbol(s).value.0 && s[..|x.Text()|] == x.Text()
    requires |x.Text()| == Symbol(s).value.1 <= |s|
    requires !IsWord(x.token) && !x.token.Integer? && !x.token.Str? && !x.token.Eof?
    requires x.token.LtTok? || x.token.GtTok? ==> |s| == 1 || s[1] != '='
    ensures var r := LexToken(a, s);
            r.Piece? && x.Valid(a) && x.Token() == r.token && s == x.Text() + r.rest && Ends(a, r.token, r.rest)
  {
    hide Symbol;
    var n := |x.Text()|;
    assert s == s[..n] + s[n..];
  }

  /** A text whose first token is read is laid out as that token in front of the layout of the rest. */
  lemma {:induction false} TakeApart(a: Alphabet, read: seq<Token>, s: string)
    returns (lead: seq<Blank>, xs: seq<Lexeme>, gaps: seq<seq<Blank>>, tail: string)
    requires Standard(a) && Lex(a, read, s).Ok?
    ensures AllValid(a, xs) && IsGap(lead) && IsGaps(gaps, |xs|) && IsTail(tail) && KeptApart(a, xs, gaps)
    ensures s == GapText(lead) + Text(xs, gaps, tail)
    ensures Lex(a, read, s) == Ok(read + TokensOf(xs) + [Eof])
    decreases |s|
  {
    hide LexToken, GapText, IsGap, IsTail, Ends, Lexeme.Valid, Lexeme.Text, Lexeme.Token;
    var t := Skip(s);
    lead, tail := SkippedIsGap(s);
    if t == "" {
      xs, gaps := [], [];
      NothingIsLegible(a);
      assert read + TokensOf(xs) == read;
    } else {
      var r := LexToken(a, t);
      var x := ReadIsLexeme(a, t);
      var gap, xs', gaps';
      gap, xs', gaps', tail := TakeApart(a, read + [r.token], r.rest);
      PutInFront(a, x, gap, xs', gaps', tail);
      xs, gaps := [x] + xs', [gap] + gaps';
      Regroup(read, [r.token], TokensOf(xs'));
    }
  }

  lemma PutInFront(a: Alphabet, x: Lexeme, gap: seq<Blank>, xs: seq<Lexeme>, gaps: seq<seq<Blank>>, tail: string)
    requires Standard(a) && x.Valid(a) && IsGap(gap) && AllValid(a, xs) && IsGaps(gaps, |xs|) && IsTail(tail)
    requires KeptApart(a, xs, gaps) && Ends(a, x.Token(), GapText(gap) + Text(xs, gaps, tail))
    ensures AllValid(a, [x] + xs) && IsGaps([gap] + gaps, |xs| + 1) && KeptApart(a, [x] + xs, [gap] + gaps)
    ensures Text([x] + xs, [gap] + gaps, tail) == x.Text() + (GapText(gap) + Text(xs, gaps, tail))
    ensures TokensOf([x] + xs) == [x.Token()] + TokensOf(xs)
  {
    hide IsGap, IsTail, Ends, Lexeme.Valid, Lexeme.Text, Lexeme.Token, KeptApart, GapText;
    var xs', gaps' := [x] + xs, [gap] + gaps;
    assert xs'[0] == x && xs'[1..] == xs && gaps'[0] == gap && gaps'[1..] == gaps;
    EndsInText(a, xs', gaps', tail);
    LegibleTurn(a, xs', gaps');
  }

  /** The lexer accepts a text exactly if it is a legible layout, and returns the tokens of that layout. */
  lemma TokensExactly(a: Alphabet, s: string, tokens: seq<Token>)
    requires Standard(a)
    ensures Tokens(a, s) == Ok(tokens + [Eof])
       <==> exists y: Layout :: y.Valid(a) && y.Legible(a) && y.Source() == s && y.Tokens() == tokens
  {
    hide Lex, KeptApart, Lexeme.Valid, GapText, Text;
    if Tokens(a, s) == Ok(tokens + [Eof]) {
      var lead, xs, gaps, tail := TakeApart(a, [], s);
      var y := Layout(lead, xs, gaps, tail);
      assert [] + TokensOf(xs) == TokensOf(xs);
      assert (tokens + [Eof])[..|tokens|] == tokens && (TokensOf(xs) + [Eof])[..|xs|] == TokensOf(xs);
      assert y.Valid(a) && y.Legible(a) && y.Source() == s && y.Tokens() == tokens;
    }
    if y: Layout :| y.Valid(a) && y.Legible(a) && y.Source() == s && y.Tokens() == tokens {
      RoundTrip(a, y);
    }
  }
}
