/**
 What each construct of the language evaluates to, told from the values of its parts and in terms of
 integers, texts and lists alone.
 */
module MeaningLaws {
  import opened Wrappers
  import opened Sequences
  import opened Syntax
  import opened Values
  import opened Evaluation

  // ---------------------------------------------------------------- texts

  /** `s` is before `t` in ordinal order: the first difference decides, and a proper prefix is before. */
  ghost predicate TextBefore(s: string, t: string) {
    exists k: nat :: FirstDifference(s, t, k)
  }

  predicate FirstDifference(s: string, t: string, k: nat) {
    k <= |s| && k < |t| && s[..k] == t[..k] && (k == |s| || s[k] < t[k])
  }

  lemma {:induction false} OrdinalIs(s: string, t: string)
    ensures CompareOrdinal(s, t) < 0 <==> TextBefore(s, t)
    ensures CompareOrdinal(s, t) > 0 <==> TextBefore(t, s)
    ensures CompareOrdinal(s, t) == 0 <==> s == t
    decreases |s|
  {
    if s == "" || t == "" {
      assert t != "" ==> FirstDifference("", t, 0);
      assert s != "" ==> FirstDifference("", s, 0);
    } else if s[0] != t[0] {
      assert FirstDifference(s, t, 0) || FirstDifference(t, s, 0);
      assert forall k: nat :: k > 0 && k <= |s| && k <= |t| ==> s[..k][0] != t[..k][0];
    } else {
      OrdinalIs(s[1..], t[1..]);
      BeforeInTails(s, t);
      BeforeInTails(t, s);
      assert s == [s[0]] + s[1..] && t == [t[0]] + t[1..];
    }
  }

  lemma BeforeInTails(s: string, t: string)
    requires s != "" && t != "" && s[0] == t[0]
    ensures TextBefore(s, t) <==> TextBefore(s[1..], t[1..])
  {
    if k: nat :| FirstDifference(s, t, k) {
      assert k > 0;
      assert s[1..][..k - 1] == s[..k][1..] && t[1..][..k - 1] == t[..k][1..];
      assert FirstDifference(s[1..], t[1..], k - 1);
    }
    if k: nat :| FirstDifference(s[1..], t[1..], k) {
      assert s[..k + 1] == [s[0]] + s[1..][..k] && t[..k + 1] == [t[0]] + t[1..][..k];
      assert FirstDifference(s, t, k + 1);
    }
  }

  // ---------------------------------------------------------------- literals and names

  lemma Literals(b: Bindings, text: string, n: int, truth: bool)
    ensures Meaning(StringLit(text), b) == Ok(StrV(text))
    ensures Meaning(IntLit(n), b) == Ok(IntV(n))
    ensures Meaning(BoolLit(truth), b) == Ok(BoolV(truth))
    ensures Meaning(NoneLit, b) == Ok(Nothing)
  {
  }

  /** A list literal has the values of its items, all of them, and otherwise the first error. */
  lemma {:induction false} ListLaw(items: seq<Expr>, b: Bindings, vs: seq<Value>)
    ensures Meaning(ListLit(items), b) == Ok(ListV(vs))
       <==> |vs| == |items| && forall i :: 0 <= i < |items| ==> Meaning(items[i], b) == Ok(vs[i])
  {
    MeaningsLaw(items, b, vs);
  }

  lemma {:induction false} MeaningsLaw(items: seq<Expr>, b: Bindings, vs: seq<Value>)
    ensures Meanings(items, b) == Ok(vs)
       <==> |vs| == |items| && forall i :: 0 <= i < |items| ==> Meaning(items[i], b) == Ok(vs[i])
    decreases |items|
  {
    hide Meaning;
    if items != [] {
      if vs != [] {
        MeaningsLaw(items[1..], b, vs[1..]);
        assert vs == [vs[0]] + vs[1..];
        assert forall i :: 0 < i < |items| ==> items[i] == items[1..][i - 1];
        assert forall i :: 0 < i < |vs| ==> vs[i] == vs[1..][i - 1];
        assert (forall i :: 0 <= i < |items| && |vs| == |items| ==> Meaning(items[i], b) == Ok(vs[i]))
          ==> (|vs| == |items| ==> forall i :: 0 <= i < |items[1..]| ==> Meaning(items[1..][i], b) == Ok(vs[1..][i]));
      }
      var tail := Meanings(items[1..], b);
      if tail.Ok? {
        MeaningsLaw(items[1..], b, tail.value);
        if Meanings(items, b) == Ok(vs) {
          assert vs[1..] == tail.value;
        }
      }
    }
  }

  lemma {:induction false} ListError(items: seq<Expr>, b: Bindings, k: nat)
    requires k < |items| && Meaning(items[k], b).Err? && forall i :: 0 <= i < k ==> Meaning(items[i], b).Ok?
    ensures Meaning(ListLit(items), b) == Meaning(items[k], b)
  {
    FirstError(items, b, k);
  }

  lemma {:induction false} FirstError(items: seq<Expr>, b: Bindings, k: nat)
    requires k < |items| && Meaning(items[k], b).Err? && forall i :: 0 <= i < k ==> Meaning(items[i], b).Ok?
    ensures Meanings(items, b) == Err(Meaning(items[k], b).error)
    decreases k
  {
    hide Meaning;
    if k > 0 {
      assert forall i :: 0 <= i < k - 1 ==> items[1..][i] == items[i + 1];
      FirstError(items[1..], b, k - 1);
    }
  }

  /** The eight bindings. */
  lemma Bound(b: Bindings)
    ensures Meaning(Ref("target", ["platform"]), b) == Ok(StrV(b.platform))
    ensures Meaning(Ref("target", ["configuration"]), b) == Ok(StrV(b.configuration))
    ensures Meaning(Ref("target", ["station_role"]), b) == Ok(StrV(b.stationRole))
    ensures Meaning(Ref("target", ["fips_mode"]), b) == Ok(BoolV(b.fipsMode))
    ensures Meaning(Ref("target", ["architecture"]), b) == Ok(StrV(b.architecture))
    ensures Meaning(Ref("module", ["tier"]), b) == Ok(StrV(b.tier))
    ensures Meaning(Ref("module", ["sim_path"]), b) == Ok(BoolV(b.simPath))
    ensures Meaning(Ref("module", ["simd_level"]), b) == Ok(StrV(b.simdLevel))
  {
  }

  predicate IsBinding(root: string, field: string) {
    || (root == "target" && field in {"platform", "configuration", "station_role", "fips_mode", "architecture"})
    || (root == "module" && field in {"tier", "sim_path", "simd_level"})
  }

  /** No other name has a value: not a bare one, not an unknown pair, and nothing deeper than a pair. */
  lemma Unbound(root: string, fields: seq<string>, b: Bindings)
    ensures Meaning(Ref(root, fields), b).Ok? <==> |fields| == 1 && IsBinding(root, fields[0])
    ensures fields == [] || !IsBinding(root, fields[0]) ==> Meaning(Ref(root, fields), b) == Err(UnboundName)
    ensures |fields| > 1 && IsBinding(root, fields[0]) ==> Meaning(Ref(root, fields), b) == Err(TooDeepReference)
  {
  }

  // ---------------------------------------------------------------- prefixes

  lemma Prefixes(x: Expr, b: Bindings, v: Value)
    requires Meaning(x, b) == Ok(v)
    ensures forall p :: v == BoolV(p) ==> Meaning(Unary(Not, x), b) == Ok(BoolV(!p))
    ensures forall n :: v == IntV(n) ==> Meaning(Unary(Pos, x), b) == Ok(IntV(n))
    ensures forall n :: v == IntV(n) && n != -0x8000_0000_0000_0000 ==> Meaning(Unary(Neg, x), b) == Ok(IntV(-n))
    ensures v == IntV(-0x8000_0000_0000_0000) ==> Meaning(Unary(Neg, x), b) == Ok(v)
    ensures !v.BoolV? ==> Meaning(Unary(Not, x), b) == Err(BooleanRequired)
    ensures !v.IntV? ==> Meaning(Unary(Pos, x), b) == Meaning(Unary(Neg, x), b) == Err(IntegerRequired)
  {
  }

  // ---------------------------------------------------------------- comparisons

  /** Integers compare as numbers. */
  lemma IntegerComparisons(l: Expr, r: Expr, b: Bindings, m: int, n: int)
    requires Meaning(l, b) == Ok(IntV(m)) && Meaning(r, b) == Ok(IntV(n))
    ensures Meaning(Binary(Lt, l, r), b) == Ok(BoolV(m < n))
    ensures Meaning(Binary(Gt, l, r), b) == Ok(BoolV(m > n))
    ensures Meaning(Binary(LEq, l, r), b) == Ok(BoolV(m <= n))
    ensures Meaning(Binary(GEq, l, r), b) == Ok(BoolV(m >= n))
  {
  }

  /** Texts compare in ordinal order. */
  lemma TextComparisons(l: Expr, r: Expr, b: Bindings, s: string, t: string)
    requires Meaning(l, b) == Ok(StrV(s)) && Meaning(r, b) == Ok(StrV(t))
    ensures Meaning(Binary(Lt, l, r), b) == Ok(BoolV(TextBefore(s, t)))
    ensures Meaning(Binary(Gt, l, r), b) == Ok(BoolV(TextBefore(t, s)))
    ensures Meaning(Binary(LEq, l, r), b) == Ok(BoolV(!TextBefore(t, s)))
    ensures Meaning(Binary(GEq, l, r), b) == Ok(BoolV(!TextBefore(s, t)))
  {
    hide CompareOrdinal, TextBefore;
    OrdinalIs(s, t);
  }

  /** Nothing else is ordered. */
  lemma MixedComparisons(l: Expr, r: Expr, b: Bindings, v: Value, w: Value, op: BinaryOp)
    requires Meaning(l, b) == Ok(v) && Meaning(r, b) == Ok(w)
    requires !(v.IntV? && w.IntV?) && !(v.StrV? && w.StrV?)
    requires op == Lt || op == Gt || op == LEq || op == GEq
    ensures Meaning(Binary(op, l, r), b) == Err(MixedComparison)
  {
  }

  /** Texts, integers and truth values; lists and `None` are not among them. */
  predicate IsScalar(v: Value) {
    v.StrV? || v.IntV? || v.BoolV?
  }

  /** Two values are equal if they are one and the same scalar: a list is not even equal to itself. */
  lemma Equality(l: Expr, r: Expr, b: Bindings, v: Value, w: Value)
    requires Meaning(l, b) == Ok(v) && Meaning(r, b) == Ok(w)
    ensures Meaning(Binary(Eq, l, r), b) == Ok(BoolV(v == w && IsScalar(v)))
    ensures Meaning(Binary(NEq, l, r), b) == Ok(BoolV(!(v == w && IsScalar(v))))
  {
  }

  // ---------------------------------------------------------------- membership

  lemma ListMembership(l: Expr, r: Expr, b: Bindings, v: Value, items: seq<Value>)
    requires Meaning(l, b) == Ok(v) && Meaning(r, b) == Ok(ListV(items))
    ensures Meaning(In(false, l, r), b) == Ok(BoolV(IsScalar(v) && v in items))
    ensures Meaning(In(true, l, r), b) == Ok(BoolV(!(IsScalar(v) && v in items)))
  {
    FoundIs(v, items);
    hide ScalarEquals, IsScalar;
  }

  lemma FoundIs(v: Value, items: seq<Value>)
    ensures (exists i :: 0 <= i < |items| && ScalarEquals(v, items[i])) <==> IsScalar(v) && v in items
  {
    forall i | 0 <= i < |items| ensures ScalarEquals(v, items[i]) <==> v == items[i] && IsScalar(v) {
    }
  }

  lemma StartsWithIs(s: string, t: string)
    ensures StartsWith(s, t) <==> exists v :: s == t + v
  {
    if StartsWith(s, t) {
      assert s == t + s[|t|..];
    }
    if v :| s == t + v {
      assert s[..|t|] == t;
    }
  }

  lemma EndsWithIs(s: string, t: string)
    ensures EndsWith(s, t) <==> exists u :: s == u + t
  {
    if EndsWith(s, t) {
      assert s == s[..|s| - |t|] + t;
    }
    if u :| s == u + t {
      assert s[|u|..] == t;
    }
  }

  lemma ContainsIs(s: string, t: string)
    ensures Contains(s, t) <==> exists u, v :: s == u + (t + v)
  {
    if i :| 0 <= i <= |s| && StartsWith(s[i..], t) {
      StartsWithIs(s[i..], t);
      var v :| s[i..] == t + v;
      assert s == s[..i] + (t + v);
    }
    if u, v :| s == u + (t + v) {
      assert s[|u|..] == t + v;
      StartsWithIs(s[|u|..], t);
    }
  }

  lemma TextMembership(l: Expr, r: Expr, b: Bindings, t: string, s: string)
    requires Meaning(l, b) == Ok(StrV(t)) && Meaning(r, b) == Ok(StrV(s))
    ensures Meaning(In(false, l, r), b) == Ok(BoolV(exists u, v :: s == u + (t + v)))
    ensures Meaning(In(true, l, r), b) == Ok(BoolV(!exists u, v :: s == u + (t + v)))
  {
    hide Contains;
    ContainsIs(s, t);
  }

  lemma NoContainer(l: Expr, r: Expr, b: Bindings, v: Value, w: Value, negate: bool)
    requires Meaning(l, b) == Ok(v) && Meaning(r, b) == Ok(w) && !w.ListV? && !(w.StrV? && v.StrV?)
    ensures Meaning(In(negate, l, r), b) == Err(BadContainer)
  {
  }

  // ---------------------------------------------------------------- conditional, `and`, `or`

  /** Only the branch that the condition selects matters. */
  lemma Conditional(t: Expr, c: Expr, f: Expr, b: Bindings)
    ensures Meaning(c, b) == Ok(BoolV(true)) ==> Meaning(Cond(t, c, f), b) == Meaning(t, b)
    ensures Meaning(c, b) == Ok(BoolV(false)) ==> Meaning(Cond(t, c, f), b) == Meaning(f, b)
    ensures Meaning(c, b).Err? ==> Meaning(Cond(t, c, f), b) == Meaning(c, b)
    ensures Meaning(c, b).Ok? && !Meaning(c, b).value.BoolV? ==> Meaning(Cond(t, c, f), b) == Err(BooleanRequired)
  {
  }

  /** The operator on truth values. */
  predicate Connective(op: BinaryOp, p: bool, q: bool)
    requires op == And || op == Or
  {
    if op == And then p && q else p || q
  }

  lemma Connectives(op: BinaryOp, l: Expr, r: Expr, b: Bindings)
    requires op == And || op == Or
    ensures forall p, q :: Meaning(l, b) == Ok(BoolV(p)) && Meaning(r, b) == Ok(BoolV(q)) ==>
      Meaning(Binary(op, l, r), b) == Ok(BoolV(Connective(op, p, q)))
    ensures Meaning(l, b) == Ok(BoolV(op == Or)) ==> Meaning(Binary(op, l, r), b) == Ok(BoolV(op == Or))
    ensures Meaning(l, b) == Ok(BoolV(op == And)) && Meaning(r, b).Err? ==>
      Meaning(Binary(op, l, r), b) == Meaning(r, b)
    ensures Meaning(l, b) == Ok(BoolV(op == And)) && Meaning(r, b).Ok? && !Meaning(r, b).value.BoolV? ==>
      Meaning(Binary(op, l, r), b) == Err(BooleanRequired)
    ensures Meaning(l, b).Ok? && !Meaning(l, b).value.BoolV? ==>
      Meaning(Binary(op, l, r), b) == Err(BooleanRequired)
    ensures Meaning(l, b).Err? ==> Meaning(Binary(op, l, r), b) == Meaning(l, b)
  {
  }

  // ---------------------------------------------------------------- errors of operands

  /** An error of an operand is that of the whole, the left operand's first. */
  lemma OperandErrors(l: Expr, r: Expr, b: Bindings)
    ensures Meaning(l, b).Err? ==>
      && (forall op :: Meaning(Unary(op, l), b) == Meaning(l, b))
      && (forall op :: Meaning(Binary(op, l, r), b) == Meaning(l, b))
      && (forall negate :: Meaning(In(negate, l, r), b) == Meaning(l, b))
    ensures Meaning(l, b).Ok? && Meaning(r, b).Err? ==>
      && (forall op :: op != And && op != Or ==> Meaning(Binary(op, l, r), b) == Meaning(r, b))
      && (forall negate :: Meaning(In(negate, l, r), b) == Meaning(r, b))
  {
  }

  // ---------------------------------------------------------------- calls

  lemma LenLaw(x: Expr, b: Bindings, v: Value)
    requires Meaning(x, b) == Ok(v)
    ensures v.StrV? ==> Meaning(Call(NoneLit, "len", [x]), b) == Ok(IntV(|v.text|))
    ensures v.ListV? ==> Meaning(Call(NoneLit, "len", [x]), b) == Ok(IntV(|v.items|))
    ensures !v.StrV? && !v.ListV? ==> Meaning(Call(NoneLit, "len", [x]), b) == Err(NoLength)
  {
    assert [x][0] == x;
  }

  lemma LenError(x: Expr, b: Bindings)
    requires Meaning(x, b).Err?
    ensures Meaning(Call(NoneLit, "len", [x]), b) == Meaning(x, b)
  {
    assert [x][0] == x;
  }

  lemma OtherFunctions(name: string, args: seq<Expr>, b: Bindings)
    ensures name != "len" ==> Meaning(Call(NoneLit, name, args), b) == Err(UnknownFunction)
    ensures name == "len" && |args| != 1 ==> Meaning(Call(NoneLit, name, args), b) == Err(WrongArgumentCount)
  {
  }

  /** The string methods with an argument, in terms of concatenation. */
  lemma TextTests(o: Expr, x: Expr, b: Bindings, s: string, t: string)
    requires !o.NoneLit? && Meaning(o, b) == Ok(StrV(s)) && Meaning(x, b) == Ok(StrV(t))
    ensures Meaning(Call(o, "startswith", [x]), b) == Ok(BoolV(exists v :: s == t + v))
    ensures Meaning(Call(o, "endswith", [x]), b) == Ok(BoolV(exists u :: s == u + t))
    ensures Meaning(Call(o, "contains", [x]), b) == Ok(BoolV(exists u, v :: s == u + (t + v)))
  {
    hide StartsWith, EndsWith, Contains;
    StartsWithIs(s, t);
    EndsWithIs(s, t);
    ContainsIs(s, t);
  }

  lemma CaseMappings(o: Expr, b: Bindings, s: string)
    requires !o.NoneLit? && Meaning(o, b) == Ok(StrV(s))
    ensures Meaning(Call(o, "lower", []), b) == Ok(StrV(b.toLower(s)))
    ensures Meaning(Call(o, "upper", []), b) == Ok(StrV(b.toUpper(s)))
  {
  }

  predicate IsTest(name: string) {
    name == "startswith" || name == "endswith" || name == "contains"
  }

  predicate IsCaseMapping(name: string) {
    name == "lower" || name == "upper"
  }

  /** Every other call on a value is refused, and without looking at the arguments. */
  lemma OtherMethods(o: Expr, name: string, args: seq<Expr>, b: Bindings, v: Value)
    requires !o.NoneLit? && Meaning(o, b) == Ok(v)
    ensures !(v.StrV? && |args| == 1 && IsTest(name)) && !(v.StrV? && args == [] && IsCaseMapping(name)) ==>
      Meaning(Call(o, name, args), b) == Err(UnsupportedMethod)
    ensures v.StrV? && |args| == 1 && IsTest(name) && Meaning(args[0], b).Err? ==>
      Meaning(Call(o, name, args), b) == Meaning(args[0], b)
    ensures v.StrV? && |args| == 1 && IsTest(name) && Meaning(args[0], b).Ok? && !Meaning(args[0], b).value.StrV? ==>
      Meaning(Call(o, name, args), b) == Err(StringRequired)
  {
  }

  lemma ReceiverErrors(o: Expr, name: string, args: seq<Expr>, b: Bindings)
    requires !o.NoneLit? && Meaning(o, b).Err?
    ensures Meaning(Call(o, name, args), b) == Meaning(o, b)
  {
  }
}
