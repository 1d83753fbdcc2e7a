/** From source text to value: lexer, parser and interpreter together. */
module Sources {
  import opened Wrappers
  import opened Sequences
  import opened Decimal
  import opened Syntax
  import opened Lexing
  import opened Layouts
  import opened Phrases
  import opened Values
  import opened Evaluation
  import Grammar
  import Interpreters
  import Lexers
  import Parsers
  import Recognition
  import Rendering

  // ---------------------------------------------------------------- source text to value

  datatype Failure = Lexical(lexical: LexError) | Syntactic(syntactic: Grammar.ParseError) | Runtime(runtime: EvalError)

  /** A token list of the lexer is one the parser can start from. */
  lemma TokensTerminate(a: Alphabet, source: string)
    ensures Tokens(a, source).Ok? ==> Grammar.Terminated(Tokens(a, source).value)
  {
    hide Lex;
    EofIsLast(a, [], source);
  }

  function ParseSource(a: Alphabet, source: string): (r: Result<Expr, Failure>)
    ensures r.Ok? ==> Buildable(r.value)
  {
    var tokens := Tokens(a, source);
    if tokens.Err? then Err(Lexical(tokens.error))
    else
      TokensTerminate(a, source);
      var e := Grammar.ParseAll(tokens.value);
      if e.Err? then Err(Syntactic(e.error)) else Ok(e.value)
  }

  function EvaluateSource(a: Alphabet, source: string, b: Bindings): Result<Value, Failure> {
    var e := ParseSource(a, source);
    if e.Err? then Err(e.error)
    else
      var v := Evaluation.Evaluate(e.value, b);
      if v.Err? then Err(Runtime(v.error)) else Ok(v.value)
  }

  method EvaluateExpression(a: Alphabet, source: string, b: Bindings) returns (r: Result<Value, Failure>)
    ensures r == EvaluateSource(a, source, b)
  {
    var lexer := new Lexers.Lexer(a, source);
    var tokens := lexer.Tokenize();
    if tokens.Err? {
      return Err(Lexical(tokens.error));
    }
    TokensTerminate(a, source);
    var e := Parsers.ParseExpression(tokens.value);
    if e.Err? {
      return Err(Syntactic(e.error));
    }
    var interpreter := new Interpreters.Interpreter(b);
    var v := interpreter.Eval(e.value);
    r := if v.Err? then Err(Runtime(v.error)) else Ok(v.value);
  }

  // ---------------------------------------------------------------- which texts are read, and as what

  lemma {:induction false} NoEofAmong(a: Alphabet, xs: seq<Lexeme>)
    requires AllValid(a, xs)
    ensures Eof !in TokensOf(xs)
  {
    forall i | 0 <= i < |xs| ensures TokensOf(xs)[i] != Eof {
      assert xs[i].Valid(a);
    }
  }

  lemma PrefixWithEof(words: seq<Token>, tokens: seq<Token>)
    requires Eof !in tokens && words + [Eof] <= tokens + [Eof]
    ensures words == tokens
  {
    var n := |words|;
    assert (tokens + [Eof])[n] == (words + [Eof])[n] == Eof;
    assert n == |tokens|;
    assert words == (words + [Eof])[..n] == (tokens + [Eof])[..n];
  }

  /** A source text says this tree: it is a legible layout of the words of a well-formed phrase of the tree. */
  ghost predicate Says(a: Alphabet, s: string, e: Expr) {
    exists y: Layout, p: Phrase :: SaysBy(a, s, e, y, p)
  }

  predicate SaysBy(a: Alphabet, s: string, e: Expr, y: Layout, p: Phrase) {
    y.Valid(a) && y.Legible(a) && y.Source() == s && WellFormed(p) && Words(p) == y.Tokens() && Tree(p) == e
  }

  /** The language: a text is read as a tree exactly if it says the tree. */
  lemma SourceExactly(a: Alphabet, s: string, e: Expr)
    requires Standard(a)
    ensures ParseSource(a, s) == Ok(e) <==> Says(a, s, e)
  {
    hide Tokens, Layout.Valid, Layout.Legible, Words, WellFormed, Tree, Grammar.ParseAll;
    if ParseSource(a, s) == Ok(e) {
      var y, p := TextSays(a, s);
      assert SaysBy(a, s, e, y, p);
    }
    if y: Layout, p: Phrase :| SaysBy(a, s, e, y, p) {
      SourceRoundTrip(a, s, e, y, p);
    }
  }

  lemma TextSays(a: Alphabet, s: string) returns (y: Layout, p: Phrase)
    requires Standard(a) && ParseSource(a, s).Ok?
    ensures SaysBy(a, s, ParseSource(a, s).value, y, p)
  {
    hide Tokens, Layout.Legible, Words, WellFormed, Tree, Grammar.ParseAll, Lexeme.Valid;
    TokensTerminate(a, s);
    var all := Tokens(a, s).value;
    var tokens := all[..|all| - 1];
    assert all == tokens + [Eof];
    TokensExactly(a, s, tokens);
    y :| y.Valid(a) && y.Legible(a) && y.Source() == s && y.Tokens() == tokens;
    p := Recognition.AcceptedIsPhrase(all);
    NoEofAmong(a, y.lexemes);
    PrefixWithEof(Words(p), tokens);
  }

  /** Every such text, from single-spaced to as tight as it can be and with any redundant parentheses, is
      read as its tree. */
  lemma SourceRoundTrip(a: Alphabet, s: string, e: Expr, y: Layout, p: Phrase)
    requires Standard(a) && SaysBy(a, s, e, y, p)
    ensures ParseSource(a, s) == Ok(e)
  {
    hide Tokens, Layout.Valid, Layout.Legible, Layout.Source, Words, WellFormed, Tree, Grammar.ParseAll;
    Layouts.RoundTrip(a, y);
    Recognition.PhraseIsAccepted(p, y.Tokens() + [Eof]);
  }

  /** And so, within the limits, it evaluates to what the tree means. */
  lemma SourceMeaning(a: Alphabet, s: string, e: Expr, y: Layout, p: Phrase, b: Bindings)
    requires Standard(a) && SaysBy(a, s, e, y, p)
    requires Size(e) <= 100_000 && Height(e) <= 32
    ensures EvaluateSource(a, s, b)
         == var v := Meaning(e, b); if v.Err? then Err(Runtime(v.error)) else Ok(v.value)
  {
    hide ParseSource, SaysBy, Meaning, Evaluation.Evaluate;
    SourceRoundTrip(a, s, e, y, p);
    SmallTreesAgree(e, b);
  }

  // ---------------------------------------------------------------- trees that a text can say

  /** A token some text can spell: any but `Eof`, with names that are names. */
  predicate Writable(a: Alphabet, t: Token) {
    t.Str? || Spellable(a, t)
  }

  predicate AllWritable(a: Alphabet, toks: seq<Token>) {
    forall i :: 0 <= i < |toks| ==> Writable(a, toks[i])
  }

  /** All names in the tree are names to the lexer. */
  predicate Named(a: Alphabet, e: Expr) {
    match e
    case Ref(root, fields) => IsName(a, root) && forall i :: 0 <= i < |fields| ==> IsName(a, fields[i])
    case ListLit(items) => forall i :: 0 <= i < |items| ==> Named(a, items[i])
    case Unary(_, inner) => Named(a, inner)
    case Binary(_, l, r) => Named(a, l) && Named(a, r)
    case In(_, l, r) => Named(a, l) && Named(a, r)
    case Cond(t, c, f) => Named(a, t) && Named(a, c) && Named(a, f)
    case Call(receiver, name, args) =>
      Named(a, receiver) && IsName(a, name) && forall i :: 0 <= i < |args| ==> Named(a, args[i])
    case _ => true
  }

  predicate AllNamed(a: Alphabet, es: seq<Expr>) {
    forall i :: 0 <= i < |es| ==> Named(a, es[i])
  }

  lemma WritableConcat(a: Alphabet, x: seq<Token>, y: seq<Token>)
    ensures AllWritable(a, x + y) <==> AllWritable(a, x) && AllWritable(a, y)
  {
    hide Writable;
    if AllWritable(a, x + y) {
      forall i | 0 <= i < |x| ensures Writable(a, x[i]) {
        assert (x + y)[i] == x[i];
      }
      forall i | 0 <= i < |y| ensures Writable(a, y[i]) {
        assert (x + y)[|x| + i] == y[i];
      }
    }
  }

  /** Tokens that are no names can always be written. */
  lemma PlainWritable(a: Alphabet, toks: seq<Token>)
    requires forall i :: 0 <= i < |toks| ==> !toks[i].Ident? && !toks[i].Integer? && !toks[i].Eof?
    ensures AllWritable(a, toks)
  {
  }

  /** Three parts in a row. */
  lemma ThreeParts(a: Alphabet, x: seq<Token>, y: seq<Token>, z: seq<Token>)
    ensures AllWritable(a, x + y + z) <==> AllWritable(a, x) && AllWritable(a, y) && AllWritable(a, z)
  {
    WritableConcat(a, x, y);
    WritableConcat(a, x + y, z);
  }

  /** The words of a phrase can be written exactly if the names in its tree are names. */
  lemma {:induction false} WordsWritable(a: Alphabet, p: Phrase)
    requires Standard(a) && WellFormed(p)
    ensures AllWritable(a, Words(p)) <==> Named(a, Tree(p))
    decreases p, 1
  {
    hide Strength, AllWritable, IsName, List, Trees;
    match p {
      case Field(_, _) => FieldWritable(a, p);
      case Bracketed(_, _) => BracketedWritable(a, p);
      case Grouped(inner) =>
        WordsWritable(a, inner);
        PlainWritable(a, [LParen]);
        PlainWritable(a, [RParen]);
        ThreeParts(a, [LParen], Words(inner), [RParen]);
      case Prefixed(op, operand) =>
        WordsWritable(a, operand);
        PlainWritable(a, [PrefixToken(op)]);
        WritableConcat(a, [PrefixToken(op)], Words(operand));
      case Infixed(op, left, right) =>
        WordsWritable(a, left);
        WordsWritable(a, right);
        PlainWritable(a, [OperatorToken(op)]);
        ThreeParts(a, Words(left), [OperatorToken(op)], Words(right));
      case Membered(negated, left, right) =>
        WordsWritable(a, left);
        WordsWritable(a, right);
        PlainWritable(a, if negated then [KwNot, KwIn] else [KwIn]);
        ThreeParts(a, Words(left), if negated then [KwNot, KwIn] else [KwIn], Words(right));
      case Choice(_, _, _) => ChoiceWritable(a, p);
      case Function(_, _) => FunctionWritable(a, p);
      case Method(_, _, _) => MethodWritable(a, p);
      case _ => TokenWritable(a, p);
    }
  }

  lemma TokenWritable(a: Alphabet, p: Phrase)
    requires Standard(a) && WellFormed(p) && (p.Quote? || p.Numeral? || p.Truth? || p.NoneWord? || p.Name?)
    ensures AllWritable(a, Words(p)) <==> Named(a, Tree(p))
  {
    assert |Words(p)| == 1;
    assert AllWritable(a, Words(p)) <==> Writable(a, Words(p)[0]);
    if p.Numeral? {
      assert forall i :: 0 <= i < |p.digits| ==> IsDigit(p.digits[i]);
    }
  }

  lemma {:induction false} FieldWritable(a: Alphabet, p: Phrase)
    requires Standard(a) && WellFormed(p) && p.Field?
    ensures AllWritable(a, Words(p)) <==> Named(a, Tree(p))
    decreases p, 0
  {
    hide IsName;
    ChainIsRef(p.owner);
    WordsWritable(a, p.owner);
    var e, dotted := Tree(p.owner), [Dot, Ident(p.field)];
    assert AllWritable(a, dotted) <==> IsName(a, p.field) by {
      assert Writable(a, dotted[0]);
      assert Writable(a, dotted[1]) <==> IsName(a, p.field);
    }
    WritableConcat(a, Words(p.owner), dotted);
    assert Tree(p) == Ref(e.root, e.fields + [p.field]);
    OneMoreName(a, e.fields, p.field);
  }

  lemma OneMoreName(a: Alphabet, fields: seq<string>, field: string)
    ensures (forall i :: 0 <= i < |fields + [field]| ==> IsName(a, (fields + [field])[i]))
       <==> (forall i :: 0 <= i < |fields| ==> IsName(a, fields[i])) && IsName(a, field)
  {
    hide IsName;
    var more := fields + [field];
    assert more[|fields|] == field && forall i :: 0 <= i < |fields| ==> more[i] == fields[i];
  }

  lemma {:induction false} BracketedWritable(a: Alphabet, p: Phrase)
    requires Standard(a) && WellFormed(p) && p.Bracketed?
    ensures AllWritable(a, Words(p)) <==> Named(a, Tree(p))
    decreases p, 0
  {
    var comma := if p.comma then [Comma] else [];
    ListWritable(a, p.items);
    PlainWritable(a, [LBracket]);
    PlainWritable(a, comma);
    PlainWritable(a, [RBracket]);
    hide AllWritable, List, Trees;
    ThreeParts(a, [LBracket], List(p.items), comma);
    WritableConcat(a, [LBracket] + List(p.items) + comma, [RBracket]);
    assert Words(p) == [LBracket] + List(p.items) + comma + [RBracket];
    assert Named(a, Tree(p)) <==> AllNamed(a, Trees(p.items));
  }

  lemma {:induction false} ChoiceWritable(a: Alphabet, p: Phrase)
    requires Standard(a) && WellFormed(p) && p.Choice?
    ensures AllWritable(a, Words(p)) <==> Named(a, Tree(p))
    decreases p, 0
  {
    hide AllWritable;
    var yes, test, no := p.yes, p.test, p.no;
    WordsWritable(a, yes);
    WordsWritable(a, test);
    WordsWritable(a, no);
    PlainWritable(a, [KwIf]);
    PlainWritable(a, [KwElse]);
    ThreeParts(a, Words(yes), [KwIf], Words(test));
    ThreeParts(a, Words(yes) + [KwIf] + Words(test), [KwElse], Words(no));
    assert Words(p) == Words(yes) + [KwIf] + Words(test) + [KwElse] + Words(no);
  }

  lemma {:induction false} FunctionWritable(a: Alphabet, p: Phrase)
    requires Standard(a) && WellFormed(p) && p.Function?
    ensures AllWritable(a, Words(p)) <==> Named(a, Tree(p))
    decreases p, 0
  {
    hide IsName, List, Trees;
    ListWritable(a, p.arguments);
    PlainWritable(a, [RParen]);
    var open := [Ident(p.called), LParen];
    assert AllWritable(a, open) <==> IsName(a, p.called) by {
      assert Writable(a, open[0]) <==> IsName(a, p.called);
      assert Writable(a, open[1]);
    }
    ThreeParts(a, open, List(p.arguments), [RParen]);
    assert Words(p) == open + List(p.arguments) + [RParen];
    assert Named(a, Tree(p)) <==> IsName(a, p.called) && AllNamed(a, Trees(p.arguments));
  }

  lemma {:induction false} MethodWritable(a: Alphabet, p: Phrase)
    requires Standard(a) && WellFormed(p) && p.Method?
    ensures AllWritable(a, Words(p)) <==> Named(a, Tree(p))
    decreases p, 0
  {
    hide IsName, List, Trees;
    WordsWritable(a, p.owner);
    ListWritable(a, p.arguments);
    PlainWritable(a, [RParen]);
    var open := [Dot, Ident(p.called), LParen];
    assert AllWritable(a, open) <==> IsName(a, p.called) by {
      assert Writable(a, open[0]) && Writable(a, open[2]);
      assert Writable(a, open[1]) <==> IsName(a, p.called);
    }
    ThreeParts(a, Words(p.owner), open, List(p.arguments));
    WritableConcat(a, Words(p.owner) + open + List(p.arguments), [RParen]);
    assert Words(p) == Words(p.owner) + open + List(p.arguments) + [RParen];
    assert Named(a, Tree(p))
      <==> Named(a, Tree(p.owner)) && IsName(a, p.called) && AllNamed(a, Trees(p.arguments));
  }

  lemma {:induction false} ListWritable(a: Alphabet, ps: seq<Phrase>)
    requires Standard(a) && AllWellFormed(ps)
    ensures AllWritable(a, List(ps)) <==> AllNamed(a, Trees(ps))
    decreases ps, 2
  {
    hide Words, Tree, WellFormed, Writable, Named;
    if ps != [] {
      WordsWritable(a, ps[0]);
      MoreWritable(a, ps[1..]);
      WritableConcat(a, Words(ps[0]), More(ps[1..]));
      NamedTurn(a, ps);
    }
  }

  lemma {:induction false} MoreWritable(a: Alphabet, ps: seq<Phrase>)
    requires Standard(a) && AllWellFormed(ps)
    ensures AllWritable(a, More(ps)) <==> AllNamed(a, Trees(ps))
    decreases ps, 1
  {
    hide Words, Tree, WellFormed, Writable, Named;
    if ps != [] {
      WordsWritable(a, ps[0]);
      MoreWritable(a, ps[1..]);
      PlainWritable(a, [Comma]);
      ThreeParts(a, [Comma], Words(ps[0]), More(ps[1..]));
      NamedTurn(a, ps);
    }
  }

  lemma NamedTurn(a: Alphabet, ps: seq<Phrase>)
    requires ps != []
    ensures AllNamed(a, Trees(ps)) <==> Named(a, Tree(ps[0])) && AllNamed(a, Trees(ps[1..]))
  {
    hide Named, Tree;
    var es, more := Trees(ps), Trees(ps[1..]);
    assert es == [Tree(ps[0])] + more;
    assert forall i :: 0 <= i < |more| ==> es[i + 1] == more[i];
    if AllNamed(a, es) {
      assert Named(a, es[0]);
      forall i | 0 <= i < |more| ensures Named(a, more[i]) {
        assert Named(a, es[i + 1]);
      }
    }
    if AllNamed(a, more) && Named(a, Tree(ps[0])) {
      forall i | 0 <= i < |es| ensures Named(a, es[i]) {
        assert i > 0 ==> es[i] == more[i - 1];
      }
    }
  }

  // ---------------------------------------------------------------- a text for a token list

  function MarksOf(text: string): (ms: seq<Mark>)
    ensures AreMarks('"', ms)
  {
    if text == "" then []
    else
      var c := text[0];
      [if c == '\n' then Escape('n') else if c == '\\' || c == '"' then Escape(c) else Raw(c)] + MarksOf(text[1..])
  }

  lemma {:induction false} MarksOfText(text: string)
    ensures MarksValue(MarksOf(text)) == text
  {
    if text != "" {
      MarksOfText(text[1..]);
      assert MarksOf(text)[1..] == MarksOf(text[1..]);
    }
  }

  /** The tokens one after the other, each with a space behind it. */
  lemma {:induction false} SpacedOut(a: Alphabet, toks: seq<Token>) returns (xs: seq<Lexeme>, gaps: seq<seq<Blank>>)
    requires AllWritable(a, toks)
    ensures AllValid(a, xs) && TokensOf(xs) == toks && IsGaps(gaps, |xs|)
    ensures forall i :: 0 <= i < |gaps| ==> gaps[i] != []
    decreases |toks|
  {
    if toks == [] {
      xs, gaps := [], [];
    } else {
      assert Writable(a, toks[0]);
      var x := if toks[0].Str? then Literal('"', MarksOf(toks[0].text)) else Plain(toks[0]);
      if toks[0].Str? {
        MarksOfText(toks[0].text);
      }
      hide Lexeme.Valid, Lexeme.Token, Writable;
      var xs', gaps' := SpacedOut(a, toks[1..]);
      xs, gaps := [x] + xs', [[White(' ')]] + gaps';
      assert xs[0] == x && xs[1..] == xs' && toks == [toks[0]] + toks[1..];
    }
  }

  lemma TextFor(a: Alphabet, toks: seq<Token>) returns (y: Layout)
    requires Standard(a) && AllWritable(a, toks)
    ensures y.Valid(a) && y.Legible(a) && y.Tokens() == toks
  {
    hide Writable, Lexeme.Valid;
    var xs, gaps := SpacedOut(a, toks);
    y := Layout([], xs, gaps, "");
  }

  /** The tokens of a layout can be written. */
  lemma LayoutWritable(a: Alphabet, y: Layout)
    requires y.Valid(a)
    ensures AllWritable(a, y.Tokens())
  {
    forall i | 0 <= i < |y.lexemes| ensures Writable(a, y.Tokens()[i]) {
      assert y.lexemes[i].Valid(a);
    }
  }

  /** Some text says the tree exactly if its integer literals are in range and its names are names. */
  lemma SourceImage(a: Alphabet, e: Expr)
    requires Standard(a)
    ensures (exists s :: ParseSource(a, s) == Ok(e)) <==> Buildable(e) && Named(a, e)
  {
    hide ParseSource, SaysBy, Named, Buildable;
    if Buildable(e) && Named(a, e) {
      var s := TextOf(a, e);
      SourceExactly(a, s, e);
    }
    if s :| ParseSource(a, s) == Ok(e) {
      SourceExactly(a, s, e);
      var y: Layout, p: Phrase :| SaysBy(a, s, e, y, p);
      SaidIsNamed(a, s, e, y, p);
    }
  }

  lemma ValidSize(a: Alphabet, y: Layout)
    requires y.Valid(a)
    ensures |y.gaps| == |y.lexemes|
  {
  }

  lemma TextOf(a: Alphabet, e: Expr) returns (s: string)
    requires Standard(a) && Buildable(e) && Named(a, e)
    ensures Says(a, s, e)
  {
    hide Named, Buildable, Words, Tree, WellFormed, Rendering.Bare, AllWritable, Layout.Valid, Layout.Legible;
    var p := Rendering.Bare(e);
    Rendering.BareIs(e);
    WordsWritable(a, p);
    var y := TextFor(a, Words(p));
    assert |y.gaps| == |y.lexemes| by { ValidSize(a, y); }
    s := y.Source();
    assert SaysBy(a, s, e, y, p);
  }

  lemma SaidIsNamed(a: Alphabet, s: string, e: Expr, y: Layout, p: Phrase)
    requires Standard(a) && SaysBy(a, s, e, y, p)
    ensures Buildable(e) && Named(a, e)
  {
    hide Named, Buildable, Words, Tree, WellFormed, AllWritable, Layout.Valid, Layout.Legible;
    TreeBuildable(p);
    LayoutWritable(a, y);
    WordsWritable(a, p);
  }
}
