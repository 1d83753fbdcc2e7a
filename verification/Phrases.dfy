/**
 Expressions as they are written: the grammar of `.Build.expr`, with no mention of a parser.

 A phrase keeps what a tree forgets: parentheses, a trailing comma, leading zeros, and whether a call of
 a function is written as one or as a method of `None`.
 */
module Phrases {
  import opened Decimal
  import opened Sequences
  import opened Syntax

  datatype Phrase =
    | Quote(text: string)
    | Numeral(digits: string)
    | Truth(truth: bool)
    | NoneWord
    | Name(root: string)
    | Field(owner: Phrase, field: string)
    | Bracketed(items: seq<Phrase>, comma: bool)
    | Grouped(inner: Phrase)
    | Prefixed(prefix: UnaryOp, operand: Phrase)
    | Infixed(infix: BinaryOp, left: Phrase, right: Phrase)
    | Membered(negated: bool, left: Phrase, right: Phrase)
    | Choice(yes: Phrase, test: Phrase, no: Phrase)
    | Function(called: string, arguments: seq<Phrase>)
    | Method(owner: Phrase, called: string, arguments: seq<Phrase>)

  // Binding strength, from the conditional down to calls and what binds as tightly.
  const CONDITIONAL: nat := 0
  const OR: nat := 1
  const AND: nat := 2
  const NOT: nat := 3
  const COMPARISON: nat := 4
  const UNARY: nat := 5
  const CALL: nat := 6

  function Strength(p: Phrase): (l: nat)
    ensures l <= CALL
  {
    match p
    case Choice(_, _, _) => CONDITIONAL
    case Infixed(op, _, _) => if op == Or then OR else if op == And then AND else COMPARISON
    case Membered(_, _, _) => COMPARISON
    case Prefixed(op, _) => if op == Not then NOT else UNARY
    case _ => CALL
  }

  /** A dotted name, possibly with parentheses on the way. */
  predicate IsChain(p: Phrase) {
    p.Name? || (p.Field? && IsChain(p.owner)) || (p.Grouped? && IsChain(p.inner))
  }

  /** The grammar: operators of one strength associate to the left, prefixes to the right; a conditional
      takes another one as its last part only; a list may end in a comma, but not consist of one. */
  predicate WellFormed(p: Phrase) {
    match p
    case Numeral(digits) => digits != "" && AllDigits(digits) && Value(digits) <= MAX_LONG
    case Field(owner, _) => WellFormed(owner) && IsChain(owner)
    case Bracketed(items, comma) =>
      (comma ==> items != []) && forall i :: 0 <= i < |items| ==> WellFormed(items[i])
    case Grouped(inner) => WellFormed(inner)
    case Prefixed(_, operand) => WellFormed(operand) && Strength(operand) >= Strength(p)
    case Infixed(_, left, right) =>
      WellFormed(left) && WellFormed(right) && Strength(left) >= Strength(p) && Strength(right) > Strength(p)
    case Membered(_, left, right) =>
      WellFormed(left) && WellFormed(right) && Strength(left) >= Strength(p) && Strength(right) > Strength(p)
    case Choice(yes, test, no) =>
      && WellFormed(yes) && WellFormed(test) && WellFormed(no)
      && Strength(yes) > Strength(p) && Strength(test) > Strength(p)
    case Function(_, arguments) => forall i :: 0 <= i < |arguments| ==> WellFormed(arguments[i])
    case Method(owner, _, arguments) =>
      && WellFormed(owner) && Strength(owner) == CALL
      && forall i :: 0 <= i < |arguments| ==> WellFormed(arguments[i])
    case _ => true
  }

  predicate AllWellFormed(ps: seq<Phrase>) {
    forall i :: 0 <= i < |ps| ==> WellFormed(ps[i])
  }

  // ---------------------------------------------------------------- the tokens of a phrase

  function OperatorToken(op: BinaryOp): Token {
    match op
    case And => KwAnd
    case Or => KwOr
    case Eq => EqTok
    case NEq => NEqTok
    case Lt => LtTok
    case Gt => GtTok
    case LEq => LEqTok
    case GEq => GEqTok
  }

  function PrefixToken(op: UnaryOp): Token {
    match op
    case Not => KwNot
    case Pos => Plus
    case Neg => Minus
  }

  function Words(p: Phrase): (toks: seq<Token>)
    ensures toks != []
    decreases p, 0
  {
    match p
    case Quote(text) => [Str(text)]
    case Numeral(digits) => [Integer(digits)]
    case Truth(value) => [BoolTok(value)]
    case NoneWord => [NoneTok]
    case Name(root) => [Ident(root)]
    case Field(owner, field) => Words(owner) + [Dot, Ident(field)]
    case Bracketed(items, comma) => [LBracket] + List(items) + (if comma then [Comma] else []) + [RBracket]
    case Grouped(inner) => [LParen] + Words(inner) + [RParen]
    case Prefixed(op, operand) => [PrefixToken(op)] + Words(operand)
    case Infixed(op, left, right) => Words(left) + [OperatorToken(op)] + Words(right)
    case Membered(negated, left, right) =>
      Words(left) + (if negated then [KwNot, KwIn] else [KwIn]) + Words(right)
    case Choice(yes, test, no) => Words(yes) + [KwIf] + Words(test) + [KwElse] + Words(no)
    case Function(name, arguments) => [Ident(name), LParen] + List(arguments) + [RParen]
    case Method(owner, name, arguments) =>
      Words(owner) + [Dot, Ident(name), LParen] + List(arguments) + [RParen]
  }

  /** The phrases with commas between them. */
  function List(ps: seq<Phrase>): seq<Token>
    decreases ps, 0
  {
    if ps == [] then [] else Words(ps[0]) + More(ps[1..])
  }

  /** The phrases with a comma in front of each. */
  function More(ps: seq<Phrase>): seq<Token>
    decreases ps, 0
  {
    if ps == [] then [] else [Comma] + Words(ps[0]) + More(ps[1..])
  }

  // ---------------------------------------------------------------- the tree of a phrase

  function Tree(p: Phrase): Expr
    decreases p, 0
  {
    match p
    case Quote(text) => StringLit(text)
    case Numeral(digits) => if AllDigits(digits) then IntLit(Value(digits)) else NoneLit
    case Truth(value) => BoolLit(value)
    case NoneWord => NoneLit
    case Name(root) => Ref(root, [])
    case Field(owner, field) =>
      var e := Tree(owner);
      if e.Ref? then Ref(e.root, e.fields + [field]) else NoneLit
    case Bracketed(items, _) => ListLit(Trees(items))
    case Grouped(inner) => Tree(inner)
    case Prefixed(op, operand) => Unary(op, Tree(operand))
    case Infixed(op, left, right) => Binary(op, Tree(left), Tree(right))
    case Membered(negated, left, right) => In(negated, Tree(left), Tree(right))
    case Choice(yes, test, no) => Cond(Tree(yes), Tree(test), Tree(no))
    case Function(name, arguments) => Call(NoneLit, name, Trees(arguments))
    case Method(owner, name, arguments) => Call(Tree(owner), name, Trees(arguments))
  }

  function Trees(ps: seq<Phrase>): (es: seq<Expr>)
    ensures |es| == |ps|
    decreases ps, 0
  {
    if ps == [] then [] else [Tree(ps[0])] + Trees(ps[1..])
  }

  lemma {:induction false} ChainIsRef(p: Phrase)
    requires IsChain(p)
    ensures Tree(p).Ref?
  {
    if p.Field? {
      ChainIsRef(p.owner);
    } else if p.Grouped? {
      ChainIsRef(p.inner);
    }
  }

  /** What is written like a dotted name is one. */
  lemma {:induction false} RefIsChain(p: Phrase)
    requires WellFormed(p) && Tree(p).Ref?
    ensures IsChain(p)
  {
    if p.Grouped? {
      RefIsChain(p.inner);
    }
  }

  /** The parser can build the tree of any phrase. */
  lemma {:induction false} TreeBuildable(p: Phrase)
    requires WellFormed(p)
    ensures Buildable(Tree(p))
    decreases p, 0
  {
    match p {
      case Field(owner, _) => TreeBuildable(owner);
      case Bracketed(items, _) => TreesBuildable(items);
      case Grouped(inner) => TreeBuildable(inner);
      case Prefixed(_, operand) => TreeBuildable(operand);
      case Infixed(_, left, right) => TreeBuildable(left); TreeBuildable(right);
      case Membered(_, left, right) => TreeBuildable(left); TreeBuildable(right);
      case Choice(yes, test, no) => TreeBuildable(yes); TreeBuildable(test); TreeBuildable(no);
      case Function(_, arguments) => TreesBuildable(arguments);
      case Method(owner, _, arguments) => TreeBuildable(owner); TreesBuildable(arguments);
      case _ =>
    }
  }

  lemma {:induction false} TreesBuildable(ps: seq<Phrase>)
    requires AllWellFormed(ps)
    ensures AllBuildable(Trees(ps))
    decreases ps, 0
  {
    if ps != [] {
      TreeBuildable(ps[0]);
      TreesBuildable(ps[1..]);
    }
  }

  lemma {:induction false} TreesAppend(ps: seq<Phrase>, p: Phrase)
    ensures Trees(ps + [p]) == Trees(ps) + [Tree(p)]
    decreases |ps|
  {
    if ps == [] {
      assert ps + [p] == [p];
    } else {
      assert (ps + [p])[0] == ps[0] && (ps + [p])[1..] == ps[1..] + [p];
      TreesAppend(ps[1..], p);
    }
  }

  lemma {:induction false} MoreAppend(ps: seq<Phrase>, p: Phrase)
    ensures More(ps + [p]) == More(ps) + ([Comma] + Words(p))
    decreases |ps|
  {
    if ps == [] {
      assert ps + [p] == [p];
      assert More([]) == [] && [p][1..] == [];
    } else {
      assert (ps + [p])[0] == ps[0] && (ps + [p])[1..] == ps[1..] + [p];
      MoreAppend(ps[1..], p);
    }
  }

  lemma ListAppend(ps: seq<Phrase>, p: Phrase)
    requires ps != []
    ensures List(ps + [p]) == List(ps) + ([Comma] + Words(p))
  {
    var more := ps + [p];
    assert more[0] == ps[0] && more[1..] == ps[1..] + [p];
    MoreAppend(ps[1..], p);
    assert List(more) == Words(ps[0]) + More(more[1..]) && List(ps) == Words(ps[0]) + More(ps[1..]);
    hide Words, List, More;
    Regroup(Words(ps[0]), More(ps[1..]), [Comma] + Words(p));
  }
}
