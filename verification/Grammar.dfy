/**
 What the recursive-descent parser computes, as functions on the tokens still to be read.

 One function per parsing method; a loop becomes a function of the node built so far.
 */
module Grammar {
  import opened Wrappers
  import opened Syntax

  datatype ParseError =
    | ExpectedElse | UnexpectedIn | ExpectedIdentifier | ExpectedCloseArguments | DotWithoutCall
    | ExpectedCloseParen | ExpectedCloseList | IntegerOutOfRange | UnexpectedToken | TrailingToken

  datatype Parse = Parsed(node: Expr, rest: seq<Token>) | Failed(error: ParseError)

  datatype ParseList = ParsedItems(items: seq<Expr>, rest: seq<Token>) | FailedList(error: ParseError)

  /** A token list that ends in `Eof`. */
  predicate Terminated(toks: seq<Token>) {
    toks != [] && toks[|toks| - 1] == Eof
  }

  /** `rest` still ends in `Eof` and is shorter: at least one token has been read. */
  predicate Consumed(toks: seq<Token>, rest: seq<Token>) {
    Terminated(rest) && |rest| < |toks|
  }

  /** As above, but nothing need have been read. */
  predicate Remains(toks: seq<Token>, rest: seq<Token>) {
    Terminated(rest) && |rest| <= |toks|
  }

  ghost predicate Good(toks: seq<Token>, r: Parse) {
    r.Parsed? ==> Consumed(toks, r.rest) && Buildable(r.node)
  }

  ghost predicate GoodMore(toks: seq<Token>, r: Parse) {
    r.Parsed? ==> Remains(toks, r.rest) && Buildable(r.node)
  }

  ghost predicate GoodList(toks: seq<Token>, r: ParseList) {
    r.ParsedItems? ==> Consumed(toks, r.rest) && AllBuildable(r.items)
  }

  function ParseConditional(toks: seq<Token>): (r: Parse)
    requires Terminated(toks)
    ensures Good(toks, r)
    decreases |toks|, 9
  {
    match ParseOr(toks)
    case Failed(e) => Failed(e)
    case Parsed(thenBranch, rest) => IfRest(thenBranch, rest)
  }

  function IfRest(thenBranch: Expr, toks: seq<Token>): (r: Parse)
    requires Terminated(toks) && Buildable(thenBranch)
    ensures GoodMore(toks, r)
    decreases |toks|, 9
  {
    if toks[0] != KwIf then Parsed(thenBranch, toks)
    else
      match ParseOr(toks[1..])
      case Failed(e) => Failed(e)
      case Parsed(cond, rest) => ElseRest(thenBranch, cond, rest)
  }

  function ElseRest(thenBranch: Expr, cond: Expr, toks: seq<Token>): (r: Parse)
    requires Terminated(toks) && Buildable(thenBranch) && Buildable(cond)
    ensures GoodMore(toks, r)
    decreases |toks|, 9
  {
    if toks[0] != KwElse then Failed(ExpectedElse)
    else
      match ParseConditional(toks[1..])
      case Failed(e) => Failed(e)
      case Parsed(elseBranch, rest) => Parsed(Cond(thenBranch, cond, elseBranch), rest)
  }

  function ParseOr(toks: seq<Token>): (r: Parse)
    requires Terminated(toks)
    ensures Good(toks, r)
    decreases |toks|, 8
  {
    match ParseAnd(toks)
    case Failed(e) => Failed(e)
    case Parsed(lhs, rest) => OrRest(lhs, rest)
  }

  function OrRest(lhs: Expr, toks: seq<Token>): (r: Parse)
    requires Terminated(toks) && Buildable(lhs)
    ensures GoodMore(toks, r)
    decreases |toks|, 8
  {
    if toks[0] != KwOr then Parsed(lhs, toks)
    else
      match ParseAnd(toks[1..])
      case Failed(e) => Failed(e)
      case Parsed(rhs, rest) => OrRest(Binary(Or, lhs, rhs), rest)
  }

  function ParseAnd(toks: seq<Token>): (r: Parse)
    requires Terminated(toks)
    ensures Good(toks, r)
    decreases |toks|, 7
  {
    match ParseNot(toks)
    case Failed(e) => Failed(e)
    case Parsed(lhs, rest) => AndRest(lhs, rest)
  }

  function AndRest(lhs: Expr, toks: seq<Token>): (r: Parse)
    requires Terminated(toks) && Buildable(lhs)
    ensures GoodMore(toks, r)
    decreases |toks|, 7
  {
    if toks[0] != KwAnd then Parsed(lhs, toks)
    else
      match ParseNot(toks[1..])
      case Failed(e) => Failed(e)
      case Parsed(rhs, rest) => AndRest(Binary(And, lhs, rhs), rest)
  }

  function ParseNot(toks: seq<Token>): (r: Parse)
    requires Terminated(toks)
    ensures Good(toks, r)
    decreases |toks|, 6
  {
    if toks[0] != KwNot then ParseComparison(toks)
    else if toks[1] == KwIn then Failed(UnexpectedIn)
    else
      match ParseNot(toks[1..])
      case Failed(e) => Failed(e)
      case Parsed(inner, rest) => Parsed(Unary(Not, inner), rest)
  }

  function ParseComparison(toks: seq<Token>): (r: Parse)
    requires Terminated(toks)
    ensures Good(toks, r)
    decreases |toks|, 5
  {
    match ParseUnary(toks)
    case Failed(e) => Failed(e)
    case Parsed(lhs, rest) => ComparisonRest(lhs, rest)
  }

  predicate NotIn(toks: seq<Token>) {
    |toks| > 1 && toks[0] == KwNot && toks[1] == KwIn
  }

  function ComparisonRest(lhs: Expr, toks: seq<Token>): (r: Parse)
    requires Terminated(toks) && Buildable(lhs)
    ensures GoodMore(toks, r)
    decreases |toks|, 5
  {
    var op := ComparisonOp(toks[0]);
    if op.Some? then
      match ParseUnary(toks[1..])
      case Failed(e) => Failed(e)
      case Parsed(rhs, rest) => ComparisonRest(Binary(op.value, lhs, rhs), rest)
    else if toks[0] == KwIn then
      match ParseUnary(toks[1..])
      case Failed(e) => Failed(e)
      case Parsed(rhs, rest) => ComparisonRest(In(false, lhs, rhs), rest)
    else if NotIn(toks) then
      match ParseUnary(toks[2..])
      case Failed(e) => Failed(e)
      case Parsed(rhs, rest) => ComparisonRest(In(true, lhs, rhs), rest)
    else Parsed(lhs, toks)
  }

  function ParseUnary(toks: seq<Token>): (r: Parse)
    requires Terminated(toks)
    ensures Good(toks, r)
    decreases |toks|, 4
  {
    if toks[0] != Plus && toks[0] != Minus then ParseCall(toks)
    else
      match ParseUnary(toks[1..])
      case Failed(e) => Failed(e)
      case Parsed(inner, rest) => Parsed(Unary(if toks[0] == Plus then Pos else Neg, inner), rest)
  }

  function ParseCall(toks: seq<Token>): (r: Parse)
    requires Terminated(toks)
    ensures Good(toks, r)
    decreases |toks|, 3
  {
    match ParseAtom(toks)
    case Failed(e) => Failed(e)
    case Parsed(receiver, rest) => CallRest(receiver, rest)
  }

  function CallRest(receiver: Expr, toks: seq<Token>): (r: Parse)
    requires Terminated(toks) && Buildable(receiver)
    ensures GoodMore(toks, r)
    decreases |toks|, 3
  {
    if toks[0] != Dot then Parsed(receiver, toks)
    else if !toks[1].Ident? then Failed(ExpectedIdentifier)
    else if toks[2] == LParen then
      match ParseArguments(toks[3..])
      case FailedList(e) => Failed(e)
      case ParsedItems(args, rest) => CallRest(Call(receiver, toks[1].name, args), rest)
    else if receiver.Ref? then CallRest(Ref(receiver.root, receiver.fields + [toks[1].name]), toks[2..])
    else Failed(DotWithoutCall)
  }

  /** The arguments after an opening parenthesis, up to and including the closing one. */
  function ParseArguments(toks: seq<Token>): (r: ParseList)
    requires Terminated(toks)
    ensures GoodList(toks, r)
    decreases |toks|, 10
  {
    if toks[0] == RParen then ParsedItems([], toks[1..])
    else
      match ParseConditional(toks)
      case Failed(e) => FailedList(e)
      case Parsed(arg, rest) => ArgumentsRest([arg], rest)
  }

  function ArgumentsRest(args: seq<Expr>, toks: seq<Token>): (r: ParseList)
    requires Terminated(toks) && AllBuildable(args)
    ensures GoodList(toks, r)
    decreases |toks|, 10
  {
    if toks[0] == Comma then
      match ParseConditional(toks[1..])
      case Failed(e) => FailedList(e)
      case Parsed(arg, rest) => ArgumentsRest(args + [arg], rest)
    else if toks[0] == RParen then ParsedItems(args, toks[1..])
    else FailedList(ExpectedCloseArguments)
  }

  /** The items after an opening bracket; one trailing comma is tolerated. */
  function ParseItems(toks: seq<Token>): (r: ParseList)
    requires Terminated(toks)
    ensures GoodList(toks, r)
    decreases |toks|, 10
  {
    if toks[0] == RBracket then ParsedItems([], toks[1..])
    else
      match ParseConditional(toks)
      case Failed(e) => FailedList(e)
      case Parsed(item, rest) => ItemsRest([item], rest)
  }

  function ItemsRest(items: seq<Expr>, toks: seq<Token>): (r: ParseList)
    requires Terminated(toks) && AllBuildable(items)
    ensures GoodList(toks, r)
    decreases |toks|, 10
  {
    if toks[0] == Comma then
      if toks[1] == RBracket then ParsedItems(items, toks[2..])
      else
        match ParseConditional(toks[1..])
        case Failed(e) => FailedList(e)
        case Parsed(item, rest) => ItemsRest(items + [item], rest)
    else if toks[0] == RBracket then ParsedItems(items, toks[1..])
    else FailedList(ExpectedCloseList)
  }

  function ParseAtom(toks: seq<Token>): (r: Parse)
    requires Terminated(toks)
    ensures Good(toks, r)
    decreases |toks|, 2
  {
    match toks[0]
    case Str(text) => Parsed(StringLit(text), toks[1..])
    case Integer(digits) =>
      var n := ParseLong(digits);
      if n.None? then Failed(IntegerOutOfRange) else Parsed(IntLit(n.value), toks[1..])
    case BoolTok(value) => Parsed(BoolLit(value), toks[1..])
    case NoneTok => Parsed(NoneLit, toks[1..])
    case Ident(name) =>
      if toks[1] != LParen then Parsed(Ref(name, []), toks[1..])
      else
        (match ParseArguments(toks[2..])
         case FailedList(e) => Failed(e)
         case ParsedItems(args, rest) => Parsed(Call(NoneLit, name, args), rest))
    case LParen =>
      (match ParseConditional(toks[1..])
       case Failed(e) => Failed(e)
       case Parsed(inner, rest) =>
         CloseGroup(inner, rest))
    case LBracket =>
      (match ParseItems(toks[1..])
       case FailedList(e) => Failed(e)
       case ParsedItems(items, rest) => Parsed(ListLit(items), rest))
    case _ => Failed(UnexpectedToken)
  }

  function CloseGroup(inner: Expr, toks: seq<Token>): (r: Parse)
    requires Terminated(toks) && Buildable(inner)
    ensures GoodMore(toks, r)
  {
    if toks[0] != RParen then Failed(ExpectedCloseParen) else Parsed(inner, toks[1..])
  }

  /** The whole expression, with nothing but `Eof` after it. */
  function ParseAll(toks: seq<Token>): (r: Result<Expr, ParseError>)
    requires Terminated(toks)
    ensures r.Ok? ==> Buildable(r.value)
  {
    match ParseConditional(toks)
    case Failed(e) => Err(e)
    case Parsed(node, rest) => if rest[0] == Eof then Ok(node) else Err(TrailingToken)
  }

  // ---------------------------------------------------------------- one step of a parsing method

  lemma ConditionalTurn(toks: seq<Token>)
    requires Terminated(toks)
    ensures var r := ParseOr(toks); ParseConditional(toks) == if r.Failed? then r else IfRest(r.node, r.rest)
  {
    hide ParseOr, IfRest;
  }

  lemma IfTurn(thenBranch: Expr, toks: seq<Token>)
    requires Terminated(toks) && Buildable(thenBranch) && |toks| > 1 && toks[0] == KwIf
    ensures var r := ParseOr(toks[1..]);
            IfRest(thenBranch, toks) == if r.Failed? then r else ElseRest(thenBranch, r.node, r.rest)
  {
    hide ParseOr, ElseRest;
  }

  lemma ElseTurn(thenBranch: Expr, cond: Expr, toks: seq<Token>)
    requires Terminated(toks) && Buildable(thenBranch) && Buildable(cond) && |toks| > 1 && toks[0] == KwElse
    ensures var r := ParseConditional(toks[1..]);
            ElseRest(thenBranch, cond, toks)
            == if r.Failed? then r else Parsed(Cond(thenBranch, cond, r.node), r.rest)
  {
    hide ParseConditional;
  }

  lemma OrTurn(lhs: Expr, toks: seq<Token>)
    requires Terminated(toks) && Buildable(lhs) && |toks| > 1 && toks[0] == KwOr
    ensures var r := ParseAnd(toks[1..]);
            OrRest(lhs, toks) == if r.Failed? then r else OrRest(Binary(Or, lhs, r.node), r.rest)
  {
    hide ParseAnd;
  }

  lemma AndTurn(lhs: Expr, toks: seq<Token>)
    requires Terminated(toks) && Buildable(lhs) && |toks| > 1 && toks[0] == KwAnd
    ensures var r := ParseNot(toks[1..]);
            AndRest(lhs, toks) == if r.Failed? then r else AndRest(Binary(And, lhs, r.node), r.rest)
  {
    hide ParseNot;
  }

  lemma OperatorTurn(lhs: Expr, toks: seq<Token>, op: BinaryOp)
    requires Terminated(toks) && Buildable(lhs) && ComparisonOp(toks[0]) == Some(op)
    ensures var r := ParseUnary(toks[1..]);
            ComparisonRest(lhs, toks) == if r.Failed? then r else ComparisonRest(Binary(op, lhs, r.node), r.rest)
  {
    hide ParseUnary;
  }

  lemma InTurn(lhs: Expr, toks: seq<Token>)
    requires Terminated(toks) && Buildable(lhs) && toks[0] == KwIn
    ensures var r := ParseUnary(toks[1..]);
            ComparisonRest(lhs, toks) == if r.Failed? then r else ComparisonRest(In(false, lhs, r.node), r.rest)
  {
    hide ParseUnary;
  }

  lemma NotInTurn(lhs: Expr, toks: seq<Token>)
    requires Terminated(toks) && Buildable(lhs) && NotIn(toks)
    ensures var r := ParseUnary(toks[2..]);
            ComparisonRest(lhs, toks) == if r.Failed? then r else ComparisonRest(In(true, lhs, r.node), r.rest)
  {
    hide ParseUnary;
  }

  lemma ComparisonStops(lhs: Expr, toks: seq<Token>)
    requires Terminated(toks) && Buildable(lhs)
    requires ComparisonOp(toks[0]).None? && toks[0] != KwIn && !NotIn(toks)
    ensures ComparisonRest(lhs, toks) == Parsed(lhs, toks)
  {
    hide ParseUnary;
  }

  lemma MethodTurn(receiver: Expr, toks: seq<Token>)
    requires Terminated(toks) && Buildable(receiver)
    requires |toks| > 3 && toks[0] == Dot && toks[1].Ident? && toks[2] == LParen
    ensures var r := ParseArguments(toks[3..]);
            CallRest(receiver, toks)
            == if r.FailedList? then Failed(r.error) else CallRest(Call(receiver, toks[1].name, r.items), r.rest)
  {
    hide ParseArguments;
  }

  lemma FieldTurn(receiver: Expr, toks: seq<Token>)
    requires Terminated(toks) && Buildable(receiver)
    requires |toks| > 2 && toks[0] == Dot && toks[1].Ident? && toks[2] != LParen
    ensures CallRest(receiver, toks)
         == if receiver.Ref? then CallRest(Ref(receiver.root, receiver.fields + [toks[1].name]), toks[2..])
            else Failed(DotWithoutCall)
  {
    hide ParseArguments;
  }

  /** Without its operator in front, a loop leaves the node it has. */
  lemma LoopStops(node: Expr, toks: seq<Token>)
    requires Terminated(toks) && Buildable(node)
    ensures toks[0] != KwIf ==> IfRest(node, toks) == Parsed(node, toks)
    ensures toks[0] != KwOr ==> OrRest(node, toks) == Parsed(node, toks)
    ensures toks[0] != KwAnd ==> AndRest(node, toks) == Parsed(node, toks)
    ensures toks[0] != Dot ==> CallRest(node, toks) == Parsed(node, toks)
  {
    hide ParseOr, ParseAnd, ParseNot, ParseArguments, Good, GoodMore, GoodList;
  }

  lemma ElseMissing(thenBranch: Expr, cond: Expr, toks: seq<Token>)
    requires Terminated(toks) && Buildable(thenBranch) && Buildable(cond) && toks[0] != KwElse
    ensures ElseRest(thenBranch, cond, toks) == Failed(ExpectedElse)
  {
    hide ParseConditional;
  }

  lemma NameMissing(receiver: Expr, toks: seq<Token>)
    requires Terminated(toks) && Buildable(receiver) && |toks| > 1 && toks[0] == Dot && !toks[1].Ident?
    ensures CallRest(receiver, toks) == Failed(ExpectedIdentifier)
  {
    hide ParseArguments;
  }

  lemma OrStart(toks: seq<Token>)
    requires Terminated(toks)
    ensures var r := ParseAnd(toks); ParseOr(toks) == if r.Failed? then r else OrRest(r.node, r.rest)
  {
    hide ParseAnd, OrRest;
  }

  lemma AndStart(toks: seq<Token>)
    requires Terminated(toks)
    ensures var r := ParseNot(toks); ParseAnd(toks) == if r.Failed? then r else AndRest(r.node, r.rest)
  {
    hide ParseNot, AndRest;
  }

  lemma ComparisonStart(toks: seq<Token>)
    requires Terminated(toks)
    ensures var r := ParseUnary(toks);
            ParseComparison(toks) == if r.Failed? then r else ComparisonRest(r.node, r.rest)
  {
    hide ParseUnary, ComparisonRest;
  }

  lemma CallStart(toks: seq<Token>)
    requires Terminated(toks)
    ensures var r := ParseAtom(toks); ParseCall(toks) == if r.Failed? then r else CallRest(r.node, r.rest)
  {
    hide ParseAtom, CallRest;
  }

  lemma ArgumentsStart(toks: seq<Token>)
    requires Terminated(toks) && toks[0] != RParen
    ensures var r := ParseConditional(toks);
            ParseArguments(toks) == if r.Failed? then FailedList(r.error) else ArgumentsRest([r.node], r.rest)
  {
    hide ParseConditional, ArgumentsRest;
  }

  lemma ArgumentsTurn(args: seq<Expr>, toks: seq<Token>)
    requires Terminated(toks) && AllBuildable(args) && |toks| > 1 && toks[0] == Comma
    ensures var r := ParseConditional(toks[1..]);
            ArgumentsRest(args, toks)
            == if r.Failed? then FailedList(r.error) else ArgumentsRest(args + [r.node], r.rest)
  {
    hide ParseConditional;
  }

  lemma ArgumentsStop(args: seq<Expr>, toks: seq<Token>)
    requires Terminated(toks) && AllBuildable(args) && toks[0] != Comma
    ensures ArgumentsRest(args, toks)
         == if toks[0] == RParen then ParsedItems(args, toks[1..]) else FailedList(ExpectedCloseArguments)
  {
    hide ParseConditional;
  }

  lemma ItemsStart(toks: seq<Token>)
    requires Terminated(toks) && toks[0] != RBracket
    ensures var r := ParseConditional(toks);
            ParseItems(toks) == if r.Failed? then FailedList(r.error) else ItemsRest([r.node], r.rest)
  {
    hide ParseConditional, ItemsRest;
  }

  lemma ItemsTurn(items: seq<Expr>, toks: seq<Token>)
    requires Terminated(toks) && AllBuildable(items) && |toks| > 1 && toks[0] == Comma && toks[1] != RBracket
    ensures var r := ParseConditional(toks[1..]);
            ItemsRest(items, toks) == if r.Failed? then FailedList(r.error) else ItemsRest(items + [r.node], r.rest)
  {
    hide ParseConditional;
  }

  lemma ItemsStop(items: seq<Expr>, toks: seq<Token>)
    requires Terminated(toks) && AllBuildable(items) && (toks[0] == Comma ==> |toks| > 1 && toks[1] == RBracket)
    ensures ItemsRest(items, toks)
         == if toks[0] == Comma then ParsedItems(items, toks[2..])
            else if toks[0] == RBracket then ParsedItems(items, toks[1..])
            else FailedList(ExpectedCloseList)
  {
    hide ParseConditional;
  }

  lemma EmptyList(toks: seq<Token>)
    requires Terminated(toks)
    ensures toks[0] == RParen ==> ParseArguments(toks) == ParsedItems([], toks[1..])
    ensures toks[0] == RBracket ==> ParseItems(toks) == ParsedItems([], toks[1..])
  {
    hide ParseConditional;
  }

  lemma FunctionAtom(toks: seq<Token>)
    requires Terminated(toks) && |toks| > 2 && toks[0].Ident? && toks[1] == LParen
    ensures var r := ParseArguments(toks[2..]);
            ParseAtom(toks)
            == if r.FailedList? then Failed(r.error) else Parsed(Call(NoneLit, toks[0].name, r.items), r.rest)
  {
    hide ParseArguments;
  }

  lemma GroupAtom(toks: seq<Token>)
    requires Terminated(toks) && |toks| > 1 && toks[0] == LParen
    ensures var r := ParseConditional(toks[1..]);
            ParseAtom(toks)
            == if r.Failed? then r
               else if r.rest[0] != RParen then Failed(ExpectedCloseParen)
               else Parsed(r.node, r.rest[1..])
  {
    hide ParseConditional;
  }

  lemma ListAtom(toks: seq<Token>)
    requires Terminated(toks) && |toks| > 1 && toks[0] == LBracket
    ensures var r := ParseItems(toks[1..]);
            ParseAtom(toks) == if r.FailedList? then Failed(r.error) else Parsed(ListLit(r.items), r.rest)
  {
    hide ParseItems;
  }

  /** The atoms of one token, and the tokens that start none. */
  lemma TokenAtom(toks: seq<Token>)
    requires Terminated(toks) && toks[0] != LParen && toks[0] != LBracket
    requires toks[0].Ident? ==> |toks| > 1 && toks[1] != LParen
    ensures ParseAtom(toks)
         == match toks[0]
            case Str(text) => Parsed(StringLit(text), toks[1..])
            case Integer(digits) =>
              if ParseLong(digits).None? then Failed(IntegerOutOfRange)
              else Parsed(IntLit(ParseLong(digits).value), toks[1..])
            case BoolTok(value) => Parsed(BoolLit(value), toks[1..])
            case NoneTok => Parsed(NoneLit, toks[1..])
            case Ident(name) => Parsed(Ref(name, []), toks[1..])
            case _ => Failed(UnexpectedToken)
  {
    hide ParseConditional, ParseArguments, ParseItems, ParseLong, Good;
  }
}
