/** Tokens and expression trees of the `.Build.expr` language. Source positions are left out. */
module Syntax {
  import opened Wrappers
  import opened Decimal

  const MAX_LONG: int := 0x7fff_ffff_ffff_ffff

  datatype Token =
    | Ident(name: string) | Str(text: string) | Integer(digits: string) | BoolTok(value: bool) | NoneTok
    | LParen | RParen | LBracket | RBracket | Comma | Dot | Plus | Minus
    | EqTok | NEqTok | LtTok | GtTok | LEqTok | GEqTok
    | KwAnd | KwOr | KwNot | KwIf | KwElse | KwIn
    | Eof

  datatype UnaryOp = Not | Pos | Neg

  datatype BinaryOp = And | Or | Eq | NEq | Lt | Gt | LEq | GEq

  datatype Expr =
    | StringLit(text: string)
    | IntLit(number: int)
    | BoolLit(truth: bool)
    | NoneLit
    | Ref(root: string, fields: seq<string>)
    | ListLit(items: seq<Expr>)
    | Unary(uop: UnaryOp, inner: Expr)
    | Binary(bop: BinaryOp, lhs: Expr, rhs: Expr)
    | In(negate: bool, lhs: Expr, rhs: Expr)
    | Cond(thenBranch: Expr, cond: Expr, elseBranch: Expr)
    | Call(receiver: Expr, name: string, args: seq<Expr>)

  /** Trees whose integer literals a digit token can spell. */
  predicate Buildable(e: Expr) {
    match e
    case StringLit(_) => true
    case IntLit(n) => 0 <= n <= MAX_LONG
    case BoolLit(_) => true
    case NoneLit => true
    case Ref(_, _) => true
    case ListLit(items) => forall i :: 0 <= i < |items| ==> Buildable(items[i])
    case Unary(_, inner) => Buildable(inner)
    case Binary(_, l, r) => Buildable(l) && Buildable(r)
    case In(_, l, r) => Buildable(l) && Buildable(r)
    case Cond(t, c, f) => Buildable(t) && Buildable(c) && Buildable(f)
    case Call(receiver, _, args) => Buildable(receiver) && forall i :: 0 <= i < |args| ==> Buildable(args[i])
  }

  predicate AllBuildable(es: seq<Expr>) {
    forall i :: 0 <= i < |es| ==> Buildable(es[i])
  }

  predicate AllDigits(s: string) {
    forall i :: 0 <= i < |s| ==> IsDigit(s[i])
  }

  /** A digit string as a 64-bit literal, if it fits. */
  function ParseLong(s: string): (r: Option<int>)
    ensures r.Some? ==> 0 <= r.value <= MAX_LONG
  {
    if s != [] && AllDigits(s) && Value(s) <= MAX_LONG then Some(Value(s)) else None
  }

  /** The comparison operator a token stands for. */
  function ComparisonOp(t: Token): Option<BinaryOp> {
    match t
    case EqTok => Some(Eq)
    case NEqTok => Some(NEq)
    case LtTok => Some(Lt)
    case GtTok => Some(Gt)
    case LEqTok => Some(LEq)
    case GEqTok => Some(GEq)
    case _ => None
  }
}
