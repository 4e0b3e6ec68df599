// Symbolic differentiation: scalar_expr.derivative, binop_expr.derivative,
// multiop_expr.derivative, function_expr.derivative, and the alternate form
// the function_expr constructor precomputes for a differentiated builtin.
// A derivative the source leaves undefined is None here.

module Derivatives {
  import opened Options
  import opened Numbers
  import opened Expressions
  import opened Normalize

  /** Math.LOG10E, the double nearest log10(e). */
  const Log10E: real := 0.4342944819032518

  /** The flatten step binop derivative applies when the engine asks for it. */
  function MaybeFlatten(env: Env, e: Expr): Expr {
    if env.doFlatten then Flatten(env, e) else e
  }

  /** Scalar 0 (create_scalar(0)). */
  function Zero(env: Env): (z: Expr)
    ensures z == Scalar(Exact(0.0))
  {
    ScalarOf(env, 0.0)
  }

  // ---------------------------------------------------------------------
  // function_expr.derivative

  /** The derivative table of function_expr.derivative, chosen by the
      function's name alone (its prime count plays no part); a name not in
      the table gets one more prime. */
  function FnTable(env: Env, f: Expr): Expr
    requires f.Fn?
  {
    var u := f.arg;
    var two := ScalarOf(env, 2.0);
    var one := ScalarOf(env, 1.0);
    var minusOne := ScalarOf(env, -1.0);
    match f.name
    case "sin" => MakeFunction("cos", u)
    case "cos" => Unary(Neg, MakeFunction("sin", u))
    case "tan" => Binary(Power, MakeFunction("sec", u), two)
    case "csc" => Unary(Neg, Binary(Times, f, MakeFunction("cot", u)))
    case "sec" => Binary(Times, f, MakeFunction("tan", u))
    case "cot" => Unary(Neg, Binary(Power, MakeFunction("csc", u), two))
    case "arcsin" => Binary(Divide, one, MakeFunction("sqrt", Binary(Minus, one, Binary(Power, u, two))))
    case "arccos" => Binary(Divide, minusOne, MakeFunction("sqrt", Binary(Minus, one, Binary(Power, u, two))))
    case "arctan" => Binary(Divide, one, Binary(Plus, one, Binary(Power, u, two)))
    case "arcsec" =>
      Binary(Divide, one, Binary(Times, MakeFunction("abs", u), MakeFunction("sqrt", Binary(Minus, Binary(Power, u, two), one))))
    case "arccsc" =>
      Binary(Divide, minusOne, Binary(Times, MakeFunction("abs", u), MakeFunction("sqrt", Binary(Minus, Binary(Power, u, two), one))))
    case "arccot" => Binary(Divide, minusOne, Binary(Plus, one, Binary(Power, u, two)))
    case "sqrt" => Binary(Divide, one, Binary(Times, two, f))
    case "abs" => Binary(Divide, f, u)
    case "exp" => MakeFunction(f.name, u)
    case "expb" => MakeFunction(f.name, u)
    case "ln" => Binary(Divide, one, u)
    case "log10" => Binary(Divide, ScalarOf(env, Log10E), u)
    case _ => MakeFunction(GetName(f.name, f.primes) + [PrimeMark], u)
  }

  /** The names the derivative table has a row of its own for: every
      builtin name but "root". */
  predicate InTable(name: string) {
    name in {"sin", "cos", "tan", "csc", "sec", "cot",
             "arcsin", "arccos", "arctan", "arcsec", "arccsc", "arccot",
             "sqrt", "abs", "exp", "expb", "ln", "log10"}
  }

  /** A builtin that falls through to the table's default row ("root"):
      the row constructs the name with one more prime, and the constructor
      of a primed builtin differentiates the unprimed builtin, which reaches
      this row again, so function_expr.derivative recurses without bound
      (in JavaScript, a stack-overflow RangeError). */
  predicate RowLoops(f: Expr)
    requires f.Fn?
  {
    IsBuiltinName(f.name) && !InTable(f.name)
  }

  /** function_expr.derivative given the derivative of the argument: zero
      when the argument does not depend on x; no result when the table row
      loops; the table entry itself when the argument is a variable,
      otherwise the chain rule. */
  function FnRule(env: Env, f: Expr, x: string, da: Option<Expr>): (r: Option<Expr>)
    requires f.Fn?
    ensures r.None? <==> x in Dependencies(f.arg) && (RowLoops(f) || (!f.arg.Var? && da.None?))
    ensures r.Some? && x in Dependencies(f.arg) ==> r.value.Binary? || r.value == FnTable(env, f)
  {
    if x !in Dependencies(f.arg) then Some(Zero(env))
    else if RowLoops(f) then None
    else if f.arg.Var? then Some(FnTable(env, f))
    else if da.Some? then Some(Binary(Times, FnTable(env, f), da.value))
    else None
  }

  // ---------------------------------------------------------------------
  // binop_expr.derivative

  /** binop derivative given the derivatives of its operands (used only for
      non-constant operands). Undefined for an operator without a rule.
      Both operand derivatives are computed before the operator is looked
      at; with flattening on, an undefined one has already thrown in its own
      flatten() call, even where the '^' rule never uses it. */
  function DerivBinary(env: Env, op: Op, u: Expr, v: Expr, x: string, du: Option<Expr>, dv: Option<Expr>): Option<Expr>
    decreases if op == Power then 2 else 0
  {
    if IsConstant(u) && IsConstant(v) then Some(MaybeFlatten(env, Zero(env)))
    else
      var dudx := if IsConstant(u) then Some(Zero(env)) else du;
      var dvdx := if IsConstant(v) then Some(Zero(env)) else dv;
      if env.doFlatten && (dudx.None? || dvdx.None?) then None
      else
        var t: Option<Expr> :=
          match op
          case Plus =>
            if dudx.Some? && dvdx.Some? then Some(Binary(Plus, dudx.value, dvdx.value)) else None
          case Minus =>
            if dudx.Some? && dvdx.Some? then Some(Binary(Minus, dudx.value, dvdx.value)) else None
          case Times =>
            if IsConstant(u) then
              if dvdx.Some? then Some(Binary(Times, u, dvdx.value)) else None
            else if IsConstant(v) then
              if dudx.Some? then Some(Binary(Times, dudx.value, v)) else None
            else if dudx.Some? && dvdx.Some? then
              Some(Binary(Plus, Binary(Times, dudx.value, v), Binary(Times, u, dvdx.value)))
            else None
          case Divide =>
            if IsConstant(v) then
              if dudx.Some? then Some(Binary(Divide, dudx.value, v)) else None
            else if IsConstant(u) then
              if dvdx.Some? then
                Some(Binary(Divide, Unary(Neg, Binary(Times, u, dvdx.value)), Binary(Power, v, ScalarOf(env, 2.0))))
              else None
            else if dudx.Some? && dvdx.Some? then
              Some(Binary(Divide,
                Binary(Minus, Binary(Times, dudx.value, v), Binary(Times, u, dvdx.value)),
                Binary(Power, v, ScalarOf(env, 2.0))))
            else None
          case Power =>
            if x in Dependencies(v) then DerivExpLn(env, u, v, x, du, dv)
            else if !IsConstant(u) then
              var dydu := PowerRule(env, u, v);
              if u == Var(x) then Some(dydu)
              else if du.Some? then Some(Binary(Times, dydu, du.value))
              else None
            else Some(Zero(env))
          case _ => None;
        if t.Some? then Some(MaybeFlatten(env, t.value)) else None
  }

  /** v * u^(v - 1). */
  function PowerRule(env: Env, u: Expr, v: Expr): Expr {
    Binary(Times, v, Binary(Power, u, Binary(Minus, v, ScalarOf(env, 1.0))))
  }

  /** The form a power with an x-dependent exponent is rewritten to. */
  function ExpLnForm(u: Expr, v: Expr): Expr {
    MakeFunction("exp", Binary(Times, v, MakeFunction("log", u)))
  }

  /** The derivative of exp(v * ln u), from the derivatives of u and v. */
  function DerivExpLn(env: Env, u: Expr, v: Expr, x: string, du: Option<Expr>, dv: Option<Expr>): Option<Expr>
    decreases 1
  {
    var lnU := MakeFunction("log", u);
    FnRule(env, ExpLnForm(u, v), x, DerivBinary(env, Times, v, lnU, x, dv, FnRule(env, lnU, x, du)))
  }

  // ---------------------------------------------------------------------
  // multiop_expr.derivative

  /** Factor i replaced by d, the other factors passed through compose({}). */
  function ProductTerm(env: Env, xs: seq<Expr>, i: nat, d: Expr): (t: seq<Expr>)
    requires i < |xs|
    ensures |t| == |xs| && t[i] == d
  {
    seq(|xs|, j requires 0 <= j < |xs| => if j == i then d else Compose(env, xs[j], map[]))
  }

  /** The terms of the first n operands: none for a constant operand, the
      operand's derivative for a sum, the product with that factor
      differentiated for a product. */
  function TermsUpTo(env: Env, op: Op, xs: seq<Expr>, ds: seq<Option<Expr>>, n: nat): Option<seq<Expr>>
    requires |ds| == |xs| && n <= |xs|
  {
    if n == 0 then Some([])
    else
      var prev := TermsUpTo(env, op, xs, ds, n - 1);
      var i := n - 1;
      if prev.None? then None
      else if IsConstant(xs[i]) || !(op in {Plus, Times}) then prev
      else if ds[i].None? then None
      else if op == Plus then Some(prev.value + [ds[i].value])
      else Some(prev.value + [CreateMultiOp(Times, ProductTerm(env, xs, i, ds[i].value))])
  }

  /** multiop derivative given the operands' derivatives. */
  function DerivMulti(env: Env, op: Op, xs: seq<Expr>, ds: seq<Option<Expr>>): Option<Expr>
    requires |ds| == |xs|
  {
    var terms := TermsUpTo(env, op, xs, ds, |xs|);
    if terms.None? then None
    else if |terms.value| == 0 then Some(Zero(env))
    else if |terms.value| == 1 then Some(terms.value[0])
    else Some(CreateMultiOp(Plus, terms.value))
  }

  // ---------------------------------------------------------------------
  // derivative(ivar) on a whole tree

  /** d/dx. A variable's derivative is 1 for x and 0 otherwise; '-' passes
      through, '/' gives -(du / u^2) (unop_expr.js and variable_expr.js are
      not part of this model; these two rules are assumed). */
  function Deriv(env: Env, e: Expr, x: string): Option<Expr> {
    match e
    case Scalar(_) => Some(Zero(env))
    case Var(y) => Some(ScalarOf(env, if y == x then 1.0 else 0.0))
    case Unary(u, a) =>
      var da := Deriv(env, a, x);
      if da.None? then None
      else if u == Neg then Some(Unary(Neg, da.value))
      else Some(Unary(Neg, Binary(Divide, da.value, Binary(Power, a, ScalarOf(env, 2.0)))))
    case Binary(op, u, v) => DerivBinary(env, op, u, v, x, Deriv(env, u, x), Deriv(env, v, x))
    case MultiOp(op, xs) =>
      DerivMulti(env, op, xs, seq(|xs|, i requires 0 <= i < |xs| => Deriv(env, xs[i], x)))
    case Fn(_, _, a, _) => FnRule(env, e, x, Deriv(env, a, x))
  }

  /** The multiop derivative: the terms of the loop below, then 0 for
      none, the term itself for one, their sum otherwise. */
  method MultiOpDerivative(env: Env, op: Op, xs: seq<Expr>, x: string) returns (r: Option<Expr>)
    ensures r == Deriv(env, MultiOp(op, xs), x)
  {
    var terms := OperandTerms(env, op, xs, x);
    MultiOpDerivIsDerivMulti(env, op, xs, x);
    if terms.None? {
      return None;
    }
    var dTerms := terms.value;
    if |dTerms| == 0 {
      r := Some(Zero(env));
    } else if |dTerms| == 1 {
      r := Some(dTerms[0]);
    } else {
      var sum := SpliceInputs(Plus, dTerms);
      r := Some(sum);
    }
  }

  /** The operands' derivatives, in order. */
  function OperandDerivs(env: Env, xs: seq<Expr>, x: string): (ds: seq<Option<Expr>>)
    ensures |ds| == |xs|
  {
    seq(|xs|, i requires 0 <= i < |xs| => Deriv(env, xs[i], x))
  }

  /** One more operand: TermsUpTo unfolded by one step. */
  lemma TermsStep(env: Env, op: Op, xs: seq<Expr>, ds: seq<Option<Expr>>, i: nat)
    requires |ds| == |xs| && i < |xs|
    ensures var prev := TermsUpTo(env, op, xs, ds, i);
      TermsUpTo(env, op, xs, ds, i + 1) ==
        if prev.None? then None
        else if IsConstant(xs[i]) || !(op in {Plus, Times}) then prev
        else if ds[i].None? then None
        else if op == Plus then Some(prev.value + [ds[i].value])
        else Some(prev.value + [CreateMultiOp(Times, ProductTerm(env, xs, i, ds[i].value))])
  {
  }

  /** The multiop derivative loop: one term per non-constant operand. */
  method OperandTerms(env: Env, op: Op, xs: seq<Expr>, x: string) returns (terms: Option<seq<Expr>>)
    ensures terms == TermsUpTo(env, op, xs, OperandDerivs(env, xs, x), |xs|)
  {
    ghost var ds := OperandDerivs(env, xs, x);
    var dTerms: seq<Expr> := [];
    var i := 0;
    while i < |xs|
      invariant 0 <= i <= |xs|
      invariant TermsUpTo(env, op, xs, ds, i) == Some(dTerms)
    {
      var step := OperandTerm(env, op, xs, x, i, ds, dTerms);
      if step.None? {
        NoneStays(env, op, xs, ds, i + 1);
        return None;
      }
      dTerms := dTerms + step.value;
      i := i + 1;
    }
    terms := Some(dTerms);
  }

  /** One pass of the multiop derivative loop: no term for a constant
      operand, the operand's term otherwise, None when its derivative is
      undefined. */
  method OperandTerm(env: Env, op: Op, xs: seq<Expr>, x: string, i: nat, ghost ds: seq<Option<Expr>>, ghost prev: seq<Expr>)
    returns (step: Option<seq<Expr>>)
    requires ds == OperandDerivs(env, xs, x)
    requires i < |xs| && TermsUpTo(env, op, xs, ds, i) == Some(prev)
    ensures TermsUpTo(env, op, xs, ds, i + 1) == if step.Some? then Some(prev + step.value) else None
  {
    TermsStep(env, op, xs, ds, i);
    step := Some([]);
    if !IsConstant(xs[i]) && op in {Plus, Times} {
      var dudx := Deriv(env, xs[i], x);
      assert dudx == ds[i];
      if dudx.None? {
        step := None;
      } else if op == Plus {
        step := Some([dudx.value]);
      } else {
        var factors := ProductFactors(env, xs, i, dudx.value);
        step := Some([CreateMultiOp(Times, factors)]);
      }
    } else {
      assert prev + [] == prev;
    }
  }

  /** The inner loop of the product rule. */
  method ProductFactors(env: Env, xs: seq<Expr>, i: nat, d: Expr) returns (t: seq<Expr>)
    requires i < |xs|
    ensures t == ProductTerm(env, xs, i, d)
  {
    t := [];
    var j := 0;
    while j < |xs|
      invariant 0 <= j <= |xs|
      invariant |t| == j
      invariant forall k :: 0 <= k < j ==> t[k] == ProductTerm(env, xs, i, d)[k]
    {
      if i == j {
        t := t + [d];
      } else {
        t := t + [Compose(env, xs[j], map[])];
      }
      j := j + 1;
    }
  }

  lemma {:induction false} NoneStays(env: Env, op: Op, xs: seq<Expr>, ds: seq<Option<Expr>>, n: nat)
    requires |ds| == |xs| && n <= |xs| && TermsUpTo(env, op, xs, ds, n).None?
    ensures TermsUpTo(env, op, xs, ds, |xs|).None?
    decreases |xs| - n
  {
    if n < |xs| {
      NoneStays(env, op, xs, ds, n + 1);
    }
  }

  // ---------------------------------------------------------------------
  // Higher derivatives and the alternate form of a differentiated builtin

  /** k successive derivatives with respect to x. */
  function IterDeriv(env: Env, e: Expr, x: string, k: nat): Option<Expr> {
    if k == 0 then Some(e)
    else
      var prev := IterDeriv(env, e, x, k - 1);
      if prev.None? then None else Deriv(env, prev.value, x)
  }

  lemma IterDerivStep(env: Env, e: Expr, x: string, k: nat)
    ensures var prev := IterDeriv(env, e, x, k);
      IterDeriv(env, e, x, k + 1) == if prev.None? then None else Deriv(env, prev.value, x)
  {
  }

  /** The alternate form the function_expr constructor gives a builtin with
      primes: the unprimed builtin of the variable x, differentiated once
      per prime, then composed with x bound to the real argument. Other
      functions have none. */
  function Alternate(env: Env, f: Expr): Option<Expr>
    requires f.Fn?
  {
    if f.builtin && f.primes > 0 then
      var d := IterDeriv(env, MakeFunction(f.name, Var("x")), "x", f.primes);
      if d.None? then None else Some(Compose(env, d.value, map["x" := f.arg]))
    else None
  }

  /** The function_expr constructor's alternate form for a builtin with
      primes. */
  method ComputeAlternate(env: Env, f: Expr) returns (alt: Option<Expr>)
    requires f.Fn?
    ensures alt == Alternate(env, f)
    ensures f.builtin && f.primes > 0 && InTable(f.name) ==> ConstructorReturns(env, f, 1)
    ensures f.builtin && f.primes > 0 && f.name == "root" ==>
      alt.None? && forall depth: nat :: !ConstructorReturns(env, f, depth)
  {
    if f.builtin && f.primes > 0 && InTable(f.name) {
      TableRowsReturn(env, f);
    }
    if f.builtin && f.primes > 0 && f.name == "root" {
      PrimedRootHasNoAlternate(env, f.primes, f.arg);
      forall depth: nat ensures !ConstructorReturns(env, f, depth) {
        PrimedRootNeverReturns(env, f.primes, f.arg, depth);
      }
    }
    if !(f.builtin && f.primes > 0) {
      return None;
    }
    var deriv := DifferentiateRepeatedly(env, MakeFunction(f.name, Var("x")), "x", f.primes);
    if deriv.None? {
      alt := None;
    } else {
      alt := Some(Compose(env, deriv.value, map["x" := f.arg]));
    }
  }

  /** The constructor's loop that rebinds deriv once per prime. */
  method DifferentiateRepeatedly(env: Env, e: Expr, x: string, k: nat) returns (deriv: Option<Expr>)
    ensures deriv == IterDeriv(env, e, x, k)
  {
    deriv := Some(e);
    var i := 0;
    while i < k
      invariant 0 <= i <= k
      invariant deriv == IterDeriv(env, e, x, i)
    {
      IterDerivStep(env, e, x, i);
      if deriv.Some? {
        deriv := Deriv(env, deriv.value, x);
      }
      i := i + 1;
    }
  }

  // ---------------------------------------------------------------------
  // Properties

  /** A Scalar's derivative is 0 whatever the variable. */
  lemma ScalarDerivativeIsZero(env: Env, n: Num, x: string)
    ensures Deriv(env, Scalar(n), x) == Some(Scalar(Exact(0.0)))
  {
  }

  /** A constant tree has a defined, constant derivative, and it is the
      Scalar 0 unless the tree is a negation or reciprocal. */
  lemma {:induction false} ConstantDerivative(env: Env, e: Expr, x: string)
    requires IsConstant(e)
    ensures Deriv(env, e, x).Some? && IsConstant(Deriv(env, e, x).value)
    ensures !e.Unary? ==> Deriv(env, e, x) == Some(Zero(env))
  {
    match e
    case Scalar(_) =>
    case Var(_) =>
    case Unary(_, a) =>
      ConstantDerivative(env, a, x);
      var d := Deriv(env, a, x).value;
      var two := ScalarOf(env, 2.0);
      assert Occurrences(two) == [];
      assert Occurrences(Binary(Divide, d, Binary(Power, a, two))) == [];
    case Binary(op, u, v) =>
      assert IsConstant(u) && IsConstant(v);
    case MultiOp(op, xs) =>
      OccurrencesAllEmpty(xs);
      var ds := seq(|xs|, i requires 0 <= i < |xs| => Deriv(env, xs[i], x));
      NoTermsFromConstants(env, op, xs, ds, |xs|);
    case Fn(_, _, a, _) =>
      assert Dependencies(a) == [];
  }

  lemma {:induction false} NoTermsFromConstants(env: Env, op: Op, xs: seq<Expr>, ds: seq<Option<Expr>>, n: nat)
    requires |ds| == |xs| && n <= |xs|
    requires forall i :: 0 <= i < |xs| ==> IsConstant(xs[i])
    ensures TermsUpTo(env, op, xs, ds, n) == Some([])
  {
    if n > 0 {
      NoTermsFromConstants(env, op, xs, ds, n - 1);
    }
  }

  /** A Binary whose operands are both constant differentiates to 0 for
      every operator, including those without a rule. */
  lemma ConstantBinaryIsZero(env: Env, op: Op, u: Expr, v: Expr, x: string)
    requires IsConstant(u) && IsConstant(v)
    ensures Deriv(env, Binary(op, u, v), x) == Some(Zero(env))
  {
  }

  /** Sum and difference rules. A constant operand contributes the Scalar 0. */
  lemma SumRule(env: Env, u: Expr, v: Expr, x: string)
    requires !(IsConstant(u) && IsConstant(v))
    requires IsConstant(u) || Deriv(env, u, x).Some?
    requires IsConstant(v) || Deriv(env, v, x).Some?
    ensures var du := if IsConstant(u) then Zero(env) else Deriv(env, u, x).value;
            var dv := if IsConstant(v) then Zero(env) else Deriv(env, v, x).value;
            Deriv(env, Binary(Plus, u, v), x) == Some(MaybeFlatten(env, Binary(Plus, du, dv))) &&
            Deriv(env, Binary(Minus, u, v), x) == Some(MaybeFlatten(env, Binary(Minus, du, dv)))
  {
  }

  /** Product rule: u*dv when u is constant, du*v when v is, otherwise
      du*v + u*dv. */
  lemma ProductRule(env: Env, u: Expr, v: Expr, x: string)
    requires !(IsConstant(u) && IsConstant(v))
    requires IsConstant(u) || Deriv(env, u, x).Some?
    requires IsConstant(v) || Deriv(env, v, x).Some?
    ensures IsConstant(u) ==>
      Deriv(env, Binary(Times, u, v), x) == Some(MaybeFlatten(env, Binary(Times, u, Deriv(env, v, x).value)))
    ensures IsConstant(v) ==>
      Deriv(env, Binary(Times, u, v), x) == Some(MaybeFlatten(env, Binary(Times, Deriv(env, u, x).value, v)))
    ensures !IsConstant(u) && !IsConstant(v) ==>
      Deriv(env, Binary(Times, u, v), x) ==
        Some(MaybeFlatten(env, Binary(Plus, Binary(Times, Deriv(env, u, x).value, v), Binary(Times, u, Deriv(env, v, x).value))))
  {
  }

  /** Quotient rule: du/v for a constant denominator, -(u*dv)/v^2 for a
      constant numerator, otherwise (du*v - u*dv)/v^2. */
  lemma QuotientRule(env: Env, u: Expr, v: Expr, x: string)
    requires !(IsConstant(u) && IsConstant(v))
    requires IsConstant(u) || Deriv(env, u, x).Some?
    requires IsConstant(v) || Deriv(env, v, x).Some?
    ensures IsConstant(v) ==>
      Deriv(env, Binary(Divide, u, v), x) == Some(MaybeFlatten(env, Binary(Divide, Deriv(env, u, x).value, v)))
    ensures IsConstant(u) ==>
      Deriv(env, Binary(Divide, u, v), x) ==
        Some(MaybeFlatten(env, Binary(Divide, Unary(Neg, Binary(Times, u, Deriv(env, v, x).value)),
                                               Binary(Power, v, ScalarOf(env, 2.0)))))
    ensures !IsConstant(u) && !IsConstant(v) ==>
      Deriv(env, Binary(Divide, u, v), x) ==
        Some(MaybeFlatten(env, Binary(Divide,
          Binary(Minus, Binary(Times, Deriv(env, u, x).value, v), Binary(Times, u, Deriv(env, v, x).value)),
          Binary(Power, v, ScalarOf(env, 2.0)))))
  {
  }

  /** A power whose exponent depends on x is differentiated as exp(v*ln u). */
  lemma PowerWithDependentExponent(env: Env, u: Expr, v: Expr, x: string)
    requires x in Dependencies(v)
    ensures var d := Deriv(env, ExpLnForm(u, v), x);
            Deriv(env, Binary(Power, u, v), x) ==
              if Thrown(env, u, v, Deriv(env, u, x), Deriv(env, v, x)) then None
              else if d.Some? then Some(MaybeFlatten(env, d.value)) else None
  {
    assert x in Occurrences(v);
    BinaryDeriv(env, Power, u, v, x);
    PowerCase(env, u, v, x, Deriv(env, u, x), Deriv(env, v, x));
    ExpLnFormDerivative(env, u, v, x);
  }

  /** Differentiating exp(v * ln u) as a tree is the rule DerivExpLn. */
  lemma ExpLnFormDerivative(env: Env, u: Expr, v: Expr, x: string)
    ensures Deriv(env, ExpLnForm(u, v), x) == DerivExpLn(env, u, v, x, Deriv(env, u, x), Deriv(env, v, x))
  {
    var lnU := MakeFunction("log", u);
    PlainName("log", u);
    PlainName("exp", Binary(Times, v, lnU));
    var e := ExpLnForm(u, v);
    assert e == Fn("exp", 0, Binary(Times, v, lnU), true);
    assert Deriv(env, lnU, x) == FnRule(env, lnU, x, Deriv(env, u, x));
    assert Deriv(env, e.arg, x) == DerivBinary(env, Times, v, lnU, x, Deriv(env, v, x), Deriv(env, lnU, x));
  }

  /** The classical power rule v*u^(v-1) for an exponent free of x, with no
      chain factor when the base is x itself; a constant base gives 0. */
  lemma ClassicalPowerRule(env: Env, u: Expr, v: Expr, x: string)
    requires x !in Dependencies(v)
    requires !(IsConstant(u) && IsConstant(v))
    ensures var unused := env.doFlatten && !IsConstant(v) && Deriv(env, v, x).None?;
      u == Var(x) ==> Deriv(env, Binary(Power, u, v), x) ==
                      (if unused then None else Some(MaybeFlatten(env, PowerRule(env, u, v))))
    ensures var unused := env.doFlatten && !IsConstant(v) && Deriv(env, v, x).None?;
      u != Var(x) && !IsConstant(u) ==>
      var du := Deriv(env, u, x);
      Deriv(env, Binary(Power, u, v), x) ==
        (if du.Some? && !unused then Some(MaybeFlatten(env, Binary(Times, PowerRule(env, u, v), du.value))) else None)
    ensures var unused := env.doFlatten && !IsConstant(v) && Deriv(env, v, x).None?;
      IsConstant(u) ==> Deriv(env, Binary(Power, u, v), x) ==
                        (if unused then None else Some(MaybeFlatten(env, Zero(env))))
  {
    BinaryDeriv(env, Power, u, v, x);
    PowerCase(env, u, v, x, Deriv(env, u, x), Deriv(env, v, x));
  }

  /** x^(y & z): '&' has no derivative rule, and the exponent's derivative
      is computed although the power rule does not use it. With flattening
      on it throws, so there is no result; without, the power rule applies. */
  lemma UnusedExponentDerivative(env: Env, x: string, y: string, z: string)
    requires x != y && x != z
    ensures var e := Binary(Power, Var(x), Binary(And, Var(y), Var(z)));
      Deriv(env, e, x) == if env.doFlatten then None else Some(PowerRule(env, Var(x), Binary(And, Var(y), Var(z))))
  {
    var v := Binary(And, Var(y), Var(z));
    assert y in Occurrences(v) && x !in Occurrences(v);
    NoRuleIsUndefined(env, And, Var(y), Var(z), x);
    ClassicalPowerRule(env, Var(x), v, x);
  }

  /** A Binary node differentiates by DerivBinary on its operands' derivatives. */
  lemma BinaryDeriv(env: Env, op: Op, u: Expr, v: Expr, x: string)
    ensures Deriv(env, Binary(op, u, v), x) == DerivBinary(env, op, u, v, x, Deriv(env, u, x), Deriv(env, v, x))
  {
  }

  /** With flattening on, an undefined derivative of a non-constant operand
      has thrown before the operator's rule is reached. */
  predicate Thrown(env: Env, u: Expr, v: Expr, du: Option<Expr>, dv: Option<Expr>) {
    env.doFlatten && ((!IsConstant(u) && du.None?) || (!IsConstant(v) && dv.None?))
  }

  /** The '^' branch of DerivBinary when an operand is not constant. */
  lemma PowerCase(env: Env, u: Expr, v: Expr, x: string, du: Option<Expr>, dv: Option<Expr>)
    requires !(IsConstant(u) && IsConstant(v))
    ensures DerivBinary(env, Power, u, v, x, du, dv) ==
      if Thrown(env, u, v, du, dv) then None
      else if x in Dependencies(v) then
        (var d := DerivExpLn(env, u, v, x, du, dv); if d.Some? then Some(MaybeFlatten(env, d.value)) else None)
      else if IsConstant(u) then Some(MaybeFlatten(env, Zero(env)))
      else if u == Var(x) then Some(MaybeFlatten(env, PowerRule(env, u, v)))
      else if du.Some? then Some(MaybeFlatten(env, Binary(Times, PowerRule(env, u, v), du.value)))
      else None
  {
    if Thrown(env, u, v, du, dv) {
      ThrownIsUndefined(env, Power, u, v, x, du, dv);
    } else {
      PowerRuleCase(env, u, v, x, du, dv);
    }
  }

  /** An operand derivative that has thrown leaves no result, whatever the operator. */
  lemma ThrownIsUndefined(env: Env, op: Op, u: Expr, v: Expr, x: string, du: Option<Expr>, dv: Option<Expr>)
    requires !(IsConstant(u) && IsConstant(v)) && Thrown(env, u, v, du, dv)
    ensures DerivBinary(env, op, u, v, x, du, dv).None?
  {
  }

  /** The '^' rule once no operand derivative has thrown. */
  lemma PowerRuleCase(env: Env, u: Expr, v: Expr, x: string, du: Option<Expr>, dv: Option<Expr>)
    requires !(IsConstant(u) && IsConstant(v)) && !Thrown(env, u, v, du, dv)
    ensures DerivBinary(env, Power, u, v, x, du, dv) ==
      if x in Dependencies(v) then
        (var d := DerivExpLn(env, u, v, x, du, dv); if d.Some? then Some(MaybeFlatten(env, d.value)) else None)
      else if IsConstant(u) then Some(MaybeFlatten(env, Zero(env)))
      else if u == Var(x) then Some(MaybeFlatten(env, PowerRule(env, u, v)))
      else if du.Some? then Some(MaybeFlatten(env, Binary(Times, PowerRule(env, u, v), du.value)))
      else None
  {
  }

  /** Operators without a derivative rule leave it undefined once an
      operand is not constant. */
  lemma NoRuleIsUndefined(env: Env, op: Op, u: Expr, v: Expr, x: string)
    requires op !in {Plus, Minus, Times, Divide, Power}
    requires !(IsConstant(u) && IsConstant(v))
    ensures Deriv(env, Binary(op, u, v), x).None?
  {
  }

  /** A function of an argument free of x differentiates to 0. */
  lemma FunctionOfConstant(env: Env, f: Expr, x: string)
    requires f.Fn? && x !in Dependencies(f.arg)
    ensures Deriv(env, f, x) == Some(Zero(env))
  {
  }

  /** Chain rule: the table entry itself when the argument is the variable,
      table entry times the inner derivative otherwise, undefined when the
      inner derivative is; no result at all for a looping row. */
  lemma ChainRule(env: Env, f: Expr, x: string)
    requires f.Fn? && x in Dependencies(f.arg)
    ensures RowLoops(f) ==> Deriv(env, f, x).None?
    ensures !RowLoops(f) && f.arg.Var? ==> Deriv(env, f, x) == Some(FnTable(env, f))
    ensures !RowLoops(f) && !f.arg.Var? ==>
      var da := Deriv(env, f.arg, x);
      Deriv(env, f, x) == (if da.Some? then Some(Binary(Times, FnTable(env, f), da.value)) else None)
  {
  }

  /** "root" is the only builtin name without a row of its own. */
  lemma OnlyRootLoops(f: Expr)
    requires f.Fn?
    ensures RowLoops(f) <==> f.name == "root"
  {
  }

  /** d/dx root(u) recurses without bound in the source when u depends on x, with
      any number of primes: the model gives no result. */
  lemma RootDerivativeUndefined(env: Env, k: nat, u: Expr, x: string)
    requires x in Dependencies(u)
    ensures Deriv(env, Fn("root", k, u, true), x).None?
  {
  }

  /** The default row of "root" is root with one more prime. */
  lemma RootRow(env: Env, k: nat, u: Expr)
    ensures FnTable(env, Fn("root", k, u, true)) == Fn("root", k + 1, u, true)
  {
    AddPrime("root", k, u);
  }

  /** Whether the function_expr constructor of g returns within `depth`
      nested constructor calls. A builtin with primes first differentiates
      the unprimed builtin of x, which builds the table row; only a row that
      is itself a function can call the constructor of a primed builtin
      again (the later derivative steps build unprimed builtins and user
      functions, whose constructors return at once). */
  predicate ConstructorReturns(env: Env, g: Expr, depth: nat)
    requires g.Fn?
    decreases depth
  {
    if !(g.builtin && g.primes > 0) then true
    else
      var row := FnTable(env, MakeFunction(g.name, Var("x")));
      !row.Fn? || (depth > 0 && ConstructorReturns(env, row, depth - 1))
  }

  /** The constructor of a primed root never returns, however deep the
      call stack may grow: it recurses without bound, and JavaScript ends
      it with a stack-overflow RangeError. */
  lemma {:induction false} PrimedRootNeverReturns(env: Env, k: nat, u: Expr, depth: nat)
    requires k > 0
    ensures !ConstructorReturns(env, Fn("root", k, u, true), depth)
    decreases depth
  {
    PlainName("root", Var("x"));
    RootRow(env, 0, Var("x"));
    if depth > 0 {
      PrimedRootNeverReturns(env, 1, Var("x"), depth - 1);
    }
  }

  /** The constructor of every other primed builtin returns after one
      nested call. */
  lemma TableRowsReturn(env: Env, g: Expr)
    requires g.Fn? && InTable(g.name)
    ensures ConstructorReturns(env, g, 1)
  {
    TableNamePlain(g.name);
    PlainName(g.name, Var("x"));
    TableRowUnprimed(env, g.name, Var("x"));
  }

  /** A table name is a builtin with no prime and no alias. */
  lemma TableNamePlain(name: string)
    requires InTable(name)
    ensures PrimeMark !in name && Rename(name) == name && IsBuiltinName(name)
  {
  }

  /** Every row of the table that is itself a function is unprimed. */
  lemma TableRowUnprimed(env: Env, name: string, u: Expr)
    requires InTable(name)
    ensures var row := FnTable(env, Fn(name, 0, u, true)); row.Fn? ==> row.primes == 0
  {
    PlainName("cos", u);
    PlainName("exp", u);
    PlainName("expb", u);
  }

  /** A primed root gets no alternate form: the model's None stands for a
      constructor that recurses without bound. */
  lemma {:induction false} PrimedRootHasNoAlternate(env: Env, k: nat, a: Expr)
    requires k > 0
    ensures Alternate(env, Fn("root", k, a, true)).None?
  {
    var r := MakeFunction("root", Var("x"));
    PlainName("root", Var("x"));
    assert "x" in Dependencies(Var("x"));
    RootDerivativeUndefined(env, 0, Var("x"), "x");
    IterDerivStaysNone(env, r, "x", 1, k);
  }

  /** Once a derivative is undefined, every further one is. */
  lemma IterDerivStaysNone(env: Env, e: Expr, x: string, j: nat, k: nat)
    requires 0 < j <= k && IterDeriv(env, e, x, j - 1).Some? && Deriv(env, IterDeriv(env, e, x, j - 1).value, x).None?
    ensures IterDeriv(env, e, x, k).None?
  {
    IterDerivStep(env, e, x, j - 1);
    IterDerivNone(env, e, x, j, k);
  }

  lemma {:induction false} IterDerivNone(env: Env, e: Expr, x: string, j: nat, k: nat)
    requires j <= k && IterDeriv(env, e, x, j).None?
    ensures IterDeriv(env, e, x, k).None?
    decreases k - j
  {
    if j < k {
      IterDerivStep(env, e, x, j);
      IterDerivNone(env, e, x, j + 1, k);
    }
  }

  /** A name without a prime builds an order-0 function. */
  lemma PlainName(raw: string, arg: Expr)
    requires PrimeMark !in raw
    ensures MakeFunction(raw, arg) == Fn(Rename(raw), 0, arg, IsBuiltinName(Rename(raw)))
  {
  }

  /** Entries of the derivative table: sin to cos, cos to -(sin). */
  lemma TrigEntries(env: Env, u: Expr)
    ensures FnTable(env, MakeFunction("sin", u)) == MakeFunction("cos", u)
    ensures FnTable(env, MakeFunction("cos", u)) == Unary(Neg, MakeFunction("sin", u))
  {
    PlainName("sin", u);
    PlainName("cos", u);
  }

  /** Entries of the derivative table: exp to itself, log (built as ln) to 1/u. */
  lemma ExpLogEntries(env: Env, u: Expr)
    ensures FnTable(env, MakeFunction("exp", u)) == MakeFunction("exp", u)
    ensures FnTable(env, MakeFunction("log", u)) == Binary(Divide, Scalar(Exact(1.0)), u)
  {
    PlainName("exp", u);
    PlainName("log", u);
  }

  /** Entries of the derivative table: sqrt to 1/(2*sqrt u), abs to abs(u)/u. */
  lemma RootAbsEntries(env: Env, u: Expr)
    ensures FnTable(env, MakeFunction("sqrt", u)) ==
      Binary(Divide, Scalar(Exact(1.0)), Binary(Times, Scalar(Exact(2.0)), MakeFunction("sqrt", u)))
    ensures FnTable(env, MakeFunction("abs", u)) == Binary(Divide, MakeFunction("abs", u), u)
  {
    SqrtEntry(env, u);
    AbsEntry(env, u);
  }

  /** Table entry: sqrt to 1/(2*sqrt u). */
  lemma SqrtEntry(env: Env, u: Expr)
    ensures FnTable(env, MakeFunction("sqrt", u)) ==
      Binary(Divide, Scalar(Exact(1.0)), Binary(Times, Scalar(Exact(2.0)), MakeFunction("sqrt", u)))
  {
    var f := Fn("sqrt", 0, u, true);
    SqrtIsPlain(u);
    assert FnTable(env, f) == Binary(Divide, ScalarOf(env, 1.0), Binary(Times, ScalarOf(env, 2.0), f));
  }

  /** "sqrt" is a builtin name with no primes and no alias. */
  lemma SqrtIsPlain(u: Expr)
    ensures MakeFunction("sqrt", u) == Fn("sqrt", 0, u, true)
  {
    PlainName("sqrt", u);
  }

  /** Table entry: abs to abs(u)/u. */
  lemma AbsEntry(env: Env, u: Expr)
    ensures FnTable(env, MakeFunction("abs", u)) == Binary(Divide, MakeFunction("abs", u), u)
  {
    PlainName("abs", u);
  }

  /** A function outside the builtin list differentiates to the same
      function with one more prime. */
  lemma NonBuiltinGetsPrime(env: Env, name: string, k: nat, u: Expr)
    requires name != "" && PrimeMark !in name && Rename(name) == name && !IsBuiltinName(name)
    ensures FnTable(env, Fn(name, k, u, false)) == Fn(name, k + 1, u, false)
  {
    AddPrime(name, k, u);
  }

  /** The table is chosen by name alone: sin' (whose alternate form is
      cos) differentiates like sin, to cos, not to -sin. */
  lemma TableIgnoresPrimes(env: Env, x: string, a: Expr)
    ensures Deriv(env, Fn("sin", 1, Var(x), true), x) == Some(Fn("cos", 0, Var(x), true))
    ensures Alternate(env, Fn("sin", 1, a, true)) == Some(Fn("cos", 0, a, true))
  {
    SineTableEntry(env, x, 1);
    SineTableEntry(env, "x", 0);
    var xv := Var("x");
    PlainName("sin", xv);
    assert IterDeriv(env, MakeFunction("sin", xv), "x", 1) == Some(Fn("cos", 0, xv, true));
    CosineComposed(env, a);
  }

  lemma CosineComposed(env: Env, a: Expr)
    ensures Compose(env, Fn("cos", 0, Var("x"), true), map["x" := a]) == Fn("cos", 0, a, true)
  {
    PlainName("cos", a);
    assert GetName("cos", 0) == "cos";
  }

  /** sin of a variable, with any number of primes, differentiates to the
      unprimed cos of it. */
  lemma SineTableEntry(env: Env, x: string, k: nat)
    ensures Deriv(env, Fn("sin", k, Var(x), true), x) == Some(Fn("cos", 0, Var(x), true))
  {
    PlainName("cos", Var(x));
    assert x in Occurrences(Var(x));
  }

  /** A MultiOp whose operands are all constant differentiates to 0. */
  lemma ConstantMultiOpIsZero(env: Env, op: Op, xs: seq<Expr>, x: string)
    requires forall i :: 0 <= i < |xs| ==> IsConstant(xs[i])
    ensures Deriv(env, MultiOp(op, xs), x) == Some(Zero(env))
  {
    var ds := seq(|xs|, i requires 0 <= i < |xs| => Deriv(env, xs[i], x));
    NoTermsFromConstants(env, op, xs, ds, |xs|);
  }

  /** A sum of non-constant operands is differentiated termwise. */
  lemma SumTermwise(env: Env, xs: seq<Expr>, x: string, ds: seq<Expr>)
    requires |xs| == |ds| >= 1
    requires forall i :: 0 <= i < |xs| ==> !IsConstant(xs[i]) && Deriv(env, xs[i], x) == Some(ds[i])
    ensures Deriv(env, MultiOp(Plus, xs), x) == Some(if |xs| == 1 then ds[0] else CreateMultiOp(Plus, ds))
  {
    var dos := OperandDerivs(env, xs, x);
    MultiOpDerivIsDerivMulti(env, Plus, xs, x);
    SumTerms(env, xs, dos, ds, |xs|);
    TakeAll(ds);
  }

  lemma {:induction false} SumTerms(env: Env, xs: seq<Expr>, dos: seq<Option<Expr>>, ds: seq<Expr>, n: nat)
    requires |xs| == |ds| == |dos| && n <= |xs|
    requires forall i :: 0 <= i < |xs| ==> !IsConstant(xs[i]) && dos[i] == Some(ds[i])
    ensures TermsUpTo(env, Plus, xs, dos, n) == Some(ds[..n])
  {
    if n > 0 {
      SumTerms(env, xs, dos, ds, n - 1);
      TermsStep(env, Plus, xs, dos, n - 1);
      TakeSnoc(ds, n);
    }
  }

  /** For each factor i, the product with factor i replaced by ds[i]. */
  function ProductRuleTerms(env: Env, xs: seq<Expr>, ds: seq<Expr>): (ts: seq<Expr>)
    requires |xs| == |ds|
    ensures |ts| == |xs|
    ensures forall i :: 0 <= i < |xs| ==> ts[i] == CreateMultiOp(Times, ProductTerm(env, xs, i, ds[i]))
  {
    seq(|xs|, i requires 0 <= i < |xs| => CreateMultiOp(Times, ProductTerm(env, xs, i, ds[i])))
  }

  /** A product of non-constant factors gives one term per factor: the
      product with that factor replaced by its derivative. */
  lemma ProductTermwise(env: Env, xs: seq<Expr>, x: string, ds: seq<Expr>)
    requires |xs| == |ds| >= 2
    requires forall i :: 0 <= i < |xs| ==> !IsConstant(xs[i]) && Deriv(env, xs[i], x) == Some(ds[i])
    ensures Deriv(env, MultiOp(Times, xs), x) == Some(CreateMultiOp(Plus, ProductRuleTerms(env, xs, ds)))
  {
    var dos := OperandDerivs(env, xs, x);
    var ts := ProductRuleTerms(env, xs, ds);
    MultiOpDerivIsDerivMulti(env, Times, xs, x);
    ProductTerms(env, xs, dos, ds, ts, |xs|);
    TakeAll(ts);
  }

  lemma MultiOpDerivIsDerivMulti(env: Env, op: Op, xs: seq<Expr>, x: string)
    ensures Deriv(env, MultiOp(op, xs), x) == DerivMulti(env, op, xs, OperandDerivs(env, xs, x))
  {
    assert OperandDerivs(env, xs, x) == seq(|xs|, i requires 0 <= i < |xs| => Deriv(env, xs[i], x));
  }

  lemma {:induction false} ProductTerms(env: Env, xs: seq<Expr>, dos: seq<Option<Expr>>, ds: seq<Expr>, ts: seq<Expr>, n: nat)
    requires |xs| == |ds| == |dos| == |ts| && n <= |xs|
    requires forall i :: 0 <= i < |xs| ==> !IsConstant(xs[i]) && dos[i] == Some(ds[i])
    requires forall i :: 0 <= i < |xs| ==> ts[i] == CreateMultiOp(Times, ProductTerm(env, xs, i, ds[i]))
    ensures TermsUpTo(env, Times, xs, dos, n) == Some(ts[..n])
  {
    if n > 0 {
      var i := n - 1;
      ProductTerms(env, xs, dos, ds, ts, i);
      assert !IsConstant(xs[i]) && dos[i] == Some(ds[i]);
      assert ts[i] == CreateMultiOp(Times, ProductTerm(env, xs, i, ds[i]));
      ProductTermStep(env, xs, dos, i, ts[..i], ts[i]);
      TakeSnoc(ts, n);
    }
  }

  /** One more non-constant factor adds its product term. */
  lemma ProductTermStep(env: Env, xs: seq<Expr>, dos: seq<Option<Expr>>, i: nat, prev: seq<Expr>, t: Expr)
    requires |dos| == |xs| && i < |xs| && !IsConstant(xs[i]) && dos[i].Some?
    requires TermsUpTo(env, Times, xs, dos, i) == Some(prev)
    requires t == CreateMultiOp(Times, ProductTerm(env, xs, i, dos[i].value))
    ensures TermsUpTo(env, Times, xs, dos, i + 1) == Some(prev + [t])
  {
  }
}
