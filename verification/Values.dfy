/** The values of the `.Build.expr` language and the operations that need no further evaluation. */
module Values {
  import opened Wrappers
  import opened Syntax

  const MIN_LONG: int := -MAX_LONG - 1
  const INT_MAX: int := 0x7fff_ffff

  datatype Value = StrV(text: string) | IntV(number: int) | BoolV(truth: bool) | ListV(items: seq<Value>) | Nothing

  datatype EvalError =
    | BudgetExceeded | DepthExceeded
    | UnboundName | TooDeepReference | IntegerRequired | BooleanRequired | MixedComparison | BadContainer
    | UnknownFunction | WrongArgumentCount | NoLength | UnsupportedMethod | StringRequired

  type Outcome = Result<Value, EvalError>

  /** The names an expression may use, and the invariant-culture case mappings. */
  datatype Bindings = Bindings(
    platform: string, configuration: string, stationRole: string, fipsMode: bool, architecture: string,
    tier: string, simPath: bool, simdLevel: string,
    toLower: string -> string, toUpper: string -> string)

  function ResolveRef(root: string, fields: seq<string>, b: Bindings): Outcome {
    if fields == [] then Err(UnboundName)
    else
      var bound := Lookup(root, fields[0], b);
      if bound.None? then Err(UnboundName)
      else if |fields| > 1 then Err(TooDeepReference)
      else Ok(bound.value)
  }

  function Lookup(root: string, field: string, b: Bindings): Option<Value> {
    if root == "target" then
      if field == "platform" then Some(StrV(b.platform))
      else if field == "configuration" then Some(StrV(b.configuration))
      else if field == "station_role" then Some(StrV(b.stationRole))
      else if field == "fips_mode" then Some(BoolV(b.fipsMode))
      else if field == "architecture" then Some(StrV(b.architecture))
      else None
    else if root == "module" then
      if field == "tier" then Some(StrV(b.tier))
      else if field == "sim_path" then Some(BoolV(b.simPath))
      else if field == "simd_level" then Some(StrV(b.simdLevel))
      else None
    else None
  }

  /** Unchecked 64-bit negation: the least value is its own negation. */
  function Negate64(n: int): int {
    if n == MIN_LONG then MIN_LONG else -n
  }

  function ApplyUnary(op: UnaryOp, v: Value): Outcome {
    match op
    case Not => if v.BoolV? then Ok(BoolV(!v.truth)) else Err(BooleanRequired)
    case Pos => if v.IntV? then Ok(v) else Err(IntegerRequired)
    case Neg => if v.IntV? then Ok(IntV(Negate64(v.number))) else Err(IntegerRequired)
  }

  function ToBool(v: Value): Outcome {
    if v.BoolV? then Ok(v) else Err(BooleanRequired)
  }

  predicate ScalarEquals(a: Value, b: Value) {
    match (a, b)
    case (StrV(s), StrV(t)) => s == t
    case (IntV(m), IntV(n)) => m == n
    case (BoolV(p), BoolV(q)) => p == q
    case _ => false
  }

  /** Ordinal order of two texts: negative, zero or positive. */
  function CompareOrdinal(s: string, t: string): int {
    if s == [] then (if t == [] then 0 else -1)
    else if t == [] then 1
    else if s[0] != t[0] then (if s[0] < t[0] then -1 else 1)
    else CompareOrdinal(s[1..], t[1..])
  }

  /** The sign of a comparison, where the operands are of one ordered scalar type. */
  function CompareScalars(a: Value, b: Value): Option<int> {
    match (a, b)
    case (IntV(m), IntV(n)) => Some(if m < n then -1 else if m > n then 1 else 0)
    case (StrV(s), StrV(t)) => Some(CompareOrdinal(s, t))
    case _ => None
  }

  function ApplyComparison(op: BinaryOp, a: Value, b: Value): Outcome
    requires op != And && op != Or
  {
    if op == Eq then Ok(BoolV(ScalarEquals(a, b)))
    else if op == NEq then Ok(BoolV(!ScalarEquals(a, b)))
    else
      var sign := CompareScalars(a, b);
      if sign.None? then Err(MixedComparison)
      else Ok(BoolV(match op
                    case Lt => sign.value < 0
                    case Gt => sign.value > 0
                    case LEq => sign.value <= 0
                    case GEq => sign.value >= 0))
  }

  predicate StartsWith(s: string, t: string) {
    |t| <= |s| && s[..|t|] == t
  }

  predicate EndsWith(s: string, t: string) {
    |t| <= |s| && s[|s| - |t|..] == t
  }

  predicate Contains(s: string, t: string) {
    exists i :: 0 <= i <= |s| && StartsWith(s[i..], t)
  }

  function ApplyIn(negate: bool, a: Value, b: Value): Outcome {
    if b.ListV? then Ok(BoolV((exists i :: 0 <= i < |b.items| && ScalarEquals(a, b.items[i])) != negate))
    else if b.StrV? && a.StrV? then Ok(BoolV(Contains(b.text, a.text) != negate))
    else Err(BadContainer)
  }

  function Length(v: Value): Outcome {
    match v
    case StrV(s) => Ok(IntV(|s|))
    case ListV(items) => Ok(IntV(|items|))
    case _ => Err(NoLength)
  }

  /** String methods that take one argument. */
  predicate TakesArgument(v: Value, name: string, count: nat) {
    v.StrV? && count == 1 && (name == "startswith" || name == "endswith" || name == "contains")
  }

  function ApplyMethod(receiver: Value, name: string, arg: Value): Outcome
    requires TakesArgument(receiver, name, 1)
  {
    if !arg.StrV? then Err(StringRequired)
    else if name == "startswith" then Ok(BoolV(StartsWith(receiver.text, arg.text)))
    else if name == "endswith" then Ok(BoolV(EndsWith(receiver.text, arg.text)))
    else Ok(BoolV(Contains(receiver.text, arg.text)))
  }

  /** String methods without arguments, and every call that is no method at all. */
  function ApplyPlain(v: Value, name: string, count: nat, b: Bindings): Outcome {
    if v.StrV? && count == 0 && name == "lower" then Ok(StrV(b.toLower(v.text)))
    else if v.StrV? && count == 0 && name == "upper" then Ok(StrV(b.toUpper(v.text)))
    else Err(UnsupportedMethod)
  }
}
