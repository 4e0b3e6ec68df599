// The normaliser: simplifyConstants (scalar_expr.js, binop_expr.js,
// multiop_expr.js) and flatten (binop_expr.js, multiop_expr.js,
// function_expr.js).

module Normalize {
  import opened Options
  import opened Numbers
  import opened Expressions
  import opened KindSort

  // =====================================================================
  // simplifyConstants

  /** A Scalar whose value is r. */
  predicate IsScalarValue(e: Expr, r: real) {
    e.Scalar? && ValueIs(e.num, r)
  }

  /** The folding switch of binop simplifyConstants. '^' folds only a
      rational base raised to a positive whole rational exponent. */
  function FoldBinary(op: Op, a: Num, b: Num): (t: Option<Num>)
    ensures op in {Plus, Minus, Times, Divide} ==> t == Some(FoldArith(op, a, b))
    ensures op == Power ==> (t.Some? <==> a.Exact? && b.Exact? && IsIntegral(b.v) && b.v > 0.0)
    ensures !(op in {Plus, Minus, Times, Divide, Power}) ==> t.None?
  {
    match op
    case Plus => Some(Add(a, b))
    case Minus => Some(Sub(a, b))
    case Times => Some(Mul(a, b))
    case Divide => Some(Div(a, b))
    case Power =>
      if a.Exact? && b.Exact? && IsIntegral(b.v) && b.v > 0.0
      then Some(Exact(Pow(a.v, b.v.Floor as nat)))
      else None
    case _ => None
  }

  /** The folded power of p/q is p^k / q^k, as the source computes it. */
  lemma PowerFoldIsQuotientOfPowers(p: real, q: real, k: nat)
    requires q != 0.0 && k > 0
    ensures Pow(q, k) != 0.0
    ensures FoldBinary(Power, Exact(p / q), Exact(k as real)) == Some(Exact(Pow(p, k) / Pow(q, k)))
  {
    assert IsIntegral(k as real);
    assert (k as real).Floor == k;
    PowOfQuotient(p, q, k);
  }

  /** How a folded number is emitted: with negative literals off and a
      negative numerator, as '-' around create_scalar of its magnitude;
      otherwise through create_scalar. Both paths give create_scalar's
      result, so the negative-literal policy holds for every folded node. */
  function EmitFolded(env: Env, t: Num): (r: Expr)
    ensures r == CreateScalar(env, t)
  {
    if !env.negativeNumbers && NumeratorNegative(t)
    then
      NegateNegative(t);
      Unary(Neg, CreateScalar(env, Negate(t)))
    else CreateScalar(env, t)
  }

  /** The identity table for a Binary node whose operands are not both
      constants: the first rule that applies wins; with no rule the node is
      kept (with its simplified operands). */
  function IdentityTable(env: Env, op: Op, a: Expr, b: Expr): Expr {
    var self := Binary(op, a, b);
    match op
    case Plus =>
      if IsScalarValue(a, 0.0) then b
      else if IsScalarValue(b, 0.0) then a
      else if b.Scalar? && a.Binary? && a.op == Plus then
        if a.left.Scalar? then
          Binary(Plus, CreateScalar(env, Add(a.left.num, b.num)), Copy(env, a.right))
        else if a.right.Scalar? then
          Binary(Plus, Copy(env, a.left), CreateScalar(env, Add(a.right.num, b.num)))
        else self
      else if a.Scalar? && b.Binary? && b.op == Plus then
        if b.left.Scalar? then
          Binary(Plus, CreateScalar(env, Add(a.num, b.left.num)), Copy(env, b.right))
        else if b.right.Scalar? then
          Binary(Plus, CreateScalar(env, Add(a.num, b.right.num)), Copy(env, b.left))
        else self
      else self
    case Minus =>
      if IsScalarValue(a, 0.0) then Unary(Neg, b)
      else if IsScalarValue(b, 0.0) then a
      else if b.Scalar? && IsNegative(b.num) then
        Binary(Plus, Copy(env, a), CreateScalar(env, AddInverse(b.num)))
      else self
    case Times =>
      if IsScalarValue(a, 1.0) then b
      else if IsScalarValue(b, 1.0) then a
      else if b.Scalar? && a.Binary? && a.op == Times then
        if a.left.Scalar? then
          Binary(Times, CreateScalar(env, Mul(a.left.num, b.num)), Copy(env, a.right))
        else if a.right.Scalar? then
          Binary(Times, CreateScalar(env, Mul(a.right.num, b.num)), Copy(env, a.left))
        else self
      else if a.Scalar? && b.Binary? && b.op == Times then
        if b.left.Scalar? then
          Binary(Times, CreateScalar(env, Mul(a.num, b.left.num)), Copy(env, b.right))
        else if b.right.Scalar? then
          Binary(Times, CreateScalar(env, Mul(a.num, b.right.num)), Copy(env, b.left))
        else self
      else self
    case Divide =>
      if IsScalarValue(a, 1.0) then Unary(Recip, b)
      else if IsScalarValue(b, 1.0) then a
      else self
    case Power =>
      if IsScalarValue(a, 0.0) then CreateScalar(env, Exact(0.0))
      else if IsScalarValue(a, 1.0) then CreateScalar(env, Exact(1.0))
      else if IsScalarValue(b, 1.0) then a
      else self
    case _ => self
  }

  /** binop simplifyConstants once its operands have been simplified. */
  function SimplifyBinary(env: Env, op: Op, a: Expr, b: Expr): Expr {
    if IsNumberLike(a) && IsNumberLike(b) then
      match FoldBinary(op, OperandValue(a), OperandValue(b))
      case Some(t) => EmitFolded(env, t)
      case None => Binary(op, a, b)
    else IdentityTable(env, op, a, b)
  }

  // ---------------------------------------------------------------------
  // MultiOp constant grouping

  /** The constant operands, in order. */
  function Consts(ys: seq<Expr>): (cs: seq<Expr>)
    ensures forall i :: 0 <= i < |cs| ==> IsNumberLike(cs[i])
    ensures |cs| <= |ys|
  {
    if ys == [] then []
    else Consts(ys[..|ys| - 1]) + (if IsNumberLike(ys[|ys| - 1]) then [ys[|ys| - 1]] else [])
  }

  /** The other operands, in order. */
  function Others(ys: seq<Expr>): (os: seq<Expr>)
    ensures forall i :: 0 <= i < |os| ==> !IsNumberLike(os[i])
    ensures |os| <= |ys|
  {
    if ys == [] then []
    else Others(ys[..|ys| - 1]) + (if IsNumberLike(ys[|ys| - 1]) then [] else [ys[|ys| - 1]])
  }

  /** One more operand scanned: it joins the constants or the others. */
  lemma SplitStep(ys: seq<Expr>, i: nat)
    requires i < |ys|
    ensures Consts(ys[..i + 1]) == Consts(ys[..i]) + (if IsNumberLike(ys[i]) then [ys[i]] else [])
    ensures Others(ys[..i + 1]) == Others(ys[..i]) + (if IsNumberLike(ys[i]) then [] else [ys[i]])
  {
    assert ys[..i + 1][..i] == ys[..i] && ys[..i + 1][i] == ys[i];
  }

  /** One constant's contribution to the running constant, as the source
      writes it: for a sum '-' subtracts and '/' adds the reciprocal; for a
      product '-' multiplies by the negation and '/' divides. */
  function FoldStep(op: Op, acc: Num, c: Expr): Num
    requires IsNumberLike(c)
  {
    if op == Plus then
      if c.Scalar? then Add(acc, c.num)
      else if c.uop == Neg then Sub(acc, c.arg.num)
      else Add(acc, MultInverse(c.arg.num))
    else
      if c.Scalar? then Mul(acc, c.num)
      else if c.uop == Neg then Mul(acc, AddInverse(c.arg.num))
      else Div(acc, c.arg.num)
  }

  /** The running constant, starting from 0 for a sum and 1 for a product. */
  function FoldConsts(op: Op, cs: seq<Expr>): Num
    requires forall i :: 0 <= i < |cs| ==> IsNumberLike(cs[i])
  {
    if cs == [] then IdentityOf(op)
    else FoldStep(op, FoldConsts(op, cs[..|cs| - 1]), cs[|cs| - 1])
  }

  /** The reference meaning: the sum (or product) of the values the
      constant operands stand for. */
  function Total(op: Op, cs: seq<Expr>): Num
    requires forall i :: 0 <= i < |cs| ==> IsNumberLike(cs[i])
  {
    if cs == [] then IdentityOf(op)
    else
      var acc := Total(op, cs[..|cs| - 1]);
      var v := OperandValue(cs[|cs| - 1]);
      if op == Plus then Add(acc, v) else Mul(acc, v)
  }

  /** The source's per-kind contributions add up to the sum (product) of the
      operand values. */
  lemma {:induction false} FoldConstsIsTotal(op: Op, cs: seq<Expr>)
    requires forall i :: 0 <= i < |cs| ==> IsNumberLike(cs[i])
    ensures FoldConsts(op, cs) == Total(op, cs)
  {
    if cs != [] {
      var c := cs[|cs| - 1];
      FoldConstsIsTotal(op, cs[..|cs| - 1]);
      FoldStepAddsValue(op, FoldConsts(op, cs[..|cs| - 1]), c);
    }
  }

  /** One step of the fold adds (multiplies by) the operand's value. */
  lemma FoldStepAddsValue(op: Op, acc: Num, c: Expr)
    requires IsNumberLike(c)
    ensures FoldStep(op, acc, c) == if op == Plus then Add(acc, OperandValue(c)) else Mul(acc, OperandValue(c))
  {
    if c.Unary? && c.uop == Neg && op == Plus {
      SubIsAddInverse(acc, c.arg.num);
    } else if c.Unary? && c.uop != Neg && op != Plus {
      DivIsMulInverse(acc, c.arg.num);
    }
  }

  /** multiop simplifyConstants once its operands have been simplified:
      with at least two constants (and a '+' or '*' node) they fold into one
      constant, appended for a sum and prepended for a product; the folded
      constant alone is returned when nothing else is left. */
  function SimplifyMulti(env: Env, op: Op, ys: seq<Expr>): Expr {
    var cs := Consts(ys);
    var rest := Others(ys);
    if |cs| > 1 && op in {Plus, Times} then
      var k := CreateScalar(env, FoldConsts(op, cs));
      var newInputs := if op == Plus then rest + [k] else [k] + rest;
      if |newInputs| == 1 then newInputs[0] else CreateMultiOp(op, newInputs)
    else MultiOp(op, ys)
  }

  /** simplifyConstants on a whole tree. A Scalar is rewritten only under
      the negative-literal policy; unary nodes and function calls keep their
      shape around a simplified operand. */
  function Simplify(env: Env, e: Expr): Expr {
    match e
    case Scalar(n) =>
      if !env.negativeNumbers && IsNegative(n) then Unary(Neg, Scalar(Negate(n))) else e
    case Var(_) => e
    case Unary(u, a) => Unary(u, Simplify(env, a))
    case Binary(op, a, b) => SimplifyBinary(env, op, Simplify(env, a), Simplify(env, b))
    case MultiOp(op, xs) =>
      SimplifyMulti(env, op, seq(|xs|, i requires 0 <= i < |xs| => Simplify(env, xs[i])))
    case Fn(name, k, a, isBuiltin) => Fn(name, k, Simplify(env, a), isBuiltin)
  }

  /** The multiop simplifyConstants loops: each operand is replaced in place
      by its simplified form while the constants are set apart, then the
      constants are folded. */
  method SimplifyOperands(env: Env, op: Op, a: array<Expr>) returns (r: Expr)
    modifies a
    ensures forall i :: 0 <= i < a.Length ==> a[i] == Simplify(env, old(a[i]))
    ensures r == SimplifyMulti(env, op, a[..])
  {
    var consts: seq<Expr> := [];
    var newInputs: seq<Expr> := [];
    var i := 0;
    while i < a.Length
      invariant 0 <= i <= a.Length
      invariant forall j :: 0 <= j < i ==> a[j] == Simplify(env, old(a[j]))
      invariant forall j :: i <= j < a.Length ==> a[j] == old(a[j])
      invariant consts == Consts(a[..i]) && newInputs == Others(a[..i])
    {
      a[i] := Simplify(env, a[i]);
      SplitStep(a[..], i);
      if IsNumberLike(a[i]) {
        consts := consts + [a[i]];
      } else {
        newInputs := newInputs + [a[i]];
      }
      i := i + 1;
    }
    assert a[..i] == a[..];
    if |consts| > 1 && op in {Plus, Times} {
      var c := FoldConstants(op, consts);
      var folded := CreateScalar(env, c);
      if op == Plus {
        newInputs := newInputs + [folded];
      } else {
        newInputs := [folded] + newInputs;
      }
      if |newInputs| == 1 {
        r := newInputs[0];
      } else {
        r := SpliceInputs(op, newInputs);
      }
    } else {
      r := MultiOp(op, a[..]);
    }
  }

  /** The loop that folds the set-apart constants, starting from the
      operator's identity. */
  method FoldConstants(op: Op, consts: seq<Expr>) returns (c: Num)
    requires forall i :: 0 <= i < |consts| ==> IsNumberLike(consts[i])
    ensures c == FoldConsts(op, consts)
  {
    c := IdentityOf(op);
    var k := 0;
    while k < |consts|
      invariant 0 <= k <= |consts|
      invariant c == FoldConsts(op, consts[..k])
    {
      assert consts[..k + 1][..k] == consts[..k];
      c := FoldStep(op, c, consts[k]);
      k := k + 1;
    }
    TakeAll(consts);
  }

  // ---------------------------------------------------------------------
  // Properties of simplifyConstants

  /** A Scalar is rewritten exactly as create_scalar would build it (for
      every number other than NaN, which create_scalar wraps and
      simplifyConstants keeps). */
  lemma SimplifyScalarIsCreateScalar(env: Env, n: Num)
    ensures !n.NaN? ==> Simplify(env, Scalar(n)) == CreateScalar(env, n)
    ensures n.NaN? ==> Simplify(env, Scalar(n)) == Scalar(n) && (!env.negativeNumbers ==> CreateScalar(env, n) != Scalar(n))
    ensures !env.negativeNumbers ==> !(Simplify(env, Scalar(n)).Scalar? && IsNegative(Simplify(env, Scalar(n)).num))
  {
  }

  /** Two constant operands fold to one node that reads back as the exact
      result, and obeys the negative-literal policy. */
  lemma SimplifyBinaryFolds(env: Env, op: Op, a: Expr, b: Expr)
    requires IsNumberLike(a) && IsNumberLike(b) && op in {Plus, Minus, Times, Divide}
    ensures var r := SimplifyBinary(env, op, a, b);
      IsNumberLike(r) && OperandValue(r) == FoldArith(op, OperandValue(a), OperandValue(b)) &&
      (!env.negativeNumbers ==> !(r.Scalar? && IsNegative(r.num)))
  {
  }

  /** '^' on constants folds only for a rational base and a positive whole
      rational exponent; otherwise the node is returned as is. */
  lemma SimplifyPowerFold(env: Env, a: Expr, b: Expr)
    requires IsNumberLike(a) && IsNumberLike(b)
    ensures var x := OperandValue(a); var y := OperandValue(b);
      var r := SimplifyBinary(env, Power, a, b);
      (x.Exact? && y.Exact? && IsIntegral(y.v) && y.v > 0.0 ==>
         IsNumberLike(r) && OperandValue(r) == Exact(Pow(x.v, y.v.Floor as nat))) &&
      (!(x.Exact? && y.Exact? && IsIntegral(y.v) && y.v > 0.0) ==> r == Binary(Power, a, b))
  {
  }

  /** Boolean and unknown operators never fold. */
  lemma SimplifyOtherOpsKeep(env: Env, op: Op, a: Expr, b: Expr)
    requires !(op in {Plus, Minus, Times, Divide, Power})
    ensures SimplifyBinary(env, op, a, b) == Binary(op, a, b)
  {
  }

  /** The identity table, rule by rule, in first-match-wins order. */
  lemma IdentityRules(env: Env, a: Expr, b: Expr)
    requires !(IsNumberLike(a) && IsNumberLike(b))
    ensures IsScalarValue(a, 0.0) ==> SimplifyBinary(env, Plus, a, b) == b
    ensures !IsScalarValue(a, 0.0) && IsScalarValue(b, 0.0) ==> SimplifyBinary(env, Plus, a, b) == a
    ensures IsScalarValue(a, 0.0) ==> SimplifyBinary(env, Minus, a, b) == Unary(Neg, b)
    ensures !IsScalarValue(a, 0.0) && IsScalarValue(b, 0.0) ==> SimplifyBinary(env, Minus, a, b) == a
    ensures !IsScalarValue(a, 0.0) && b.Scalar? && IsNegative(b.num) ==>
      SimplifyBinary(env, Minus, a, b) == Binary(Plus, Copy(env, a), CreateScalar(env, AddInverse(b.num)))
    ensures IsScalarValue(a, 1.0) ==> SimplifyBinary(env, Times, a, b) == b
    ensures !IsScalarValue(a, 1.0) && IsScalarValue(b, 1.0) ==> SimplifyBinary(env, Times, a, b) == a
    ensures IsScalarValue(a, 1.0) ==> SimplifyBinary(env, Divide, a, b) == Unary(Recip, b)
    ensures !IsScalarValue(a, 1.0) && IsScalarValue(b, 1.0) ==> SimplifyBinary(env, Divide, a, b) == a
    ensures IsScalarValue(a, 0.0) ==> SimplifyBinary(env, Power, a, b) == Scalar(Exact(0.0))
    ensures IsScalarValue(a, 1.0) ==> SimplifyBinary(env, Power, a, b) == Scalar(Exact(1.0))
    ensures !IsScalarValue(a, 0.0) && !IsScalarValue(a, 1.0) && IsScalarValue(b, 1.0) ==>
      SimplifyBinary(env, Power, a, b) == a
  {
  }

  /** When no rule of the table applies, the node comes back with its
      operands as they are, for every operator. */
  lemma IdentityFallThrough(env: Env, a: Expr, b: Expr)
    requires !(IsNumberLike(a) && IsNumberLike(b))
    ensures !IsScalarValue(a, 0.0) && !IsScalarValue(b, 0.0) &&
            !(b.Scalar? && a.Binary? && a.op == Plus && (a.left.Scalar? || a.right.Scalar?)) &&
            !(a.Scalar? && b.Binary? && b.op == Plus && (b.left.Scalar? || b.right.Scalar?)) ==>
      SimplifyBinary(env, Plus, a, b) == Binary(Plus, a, b)
    ensures !IsScalarValue(a, 0.0) && !IsScalarValue(b, 0.0) && !(b.Scalar? && IsNegative(b.num)) ==>
      SimplifyBinary(env, Minus, a, b) == Binary(Minus, a, b)
    ensures !IsScalarValue(a, 1.0) && !IsScalarValue(b, 1.0) &&
            !(b.Scalar? && a.Binary? && a.op == Times && (a.left.Scalar? || a.right.Scalar?)) &&
            !(a.Scalar? && b.Binary? && b.op == Times && (b.left.Scalar? || b.right.Scalar?)) ==>
      SimplifyBinary(env, Times, a, b) == Binary(Times, a, b)
    ensures !IsScalarValue(a, 1.0) && !IsScalarValue(b, 1.0) ==>
      SimplifyBinary(env, Divide, a, b) == Binary(Divide, a, b)
    ensures !IsScalarValue(a, 0.0) && !IsScalarValue(a, 1.0) && !IsScalarValue(b, 1.0) ==>
      SimplifyBinary(env, Power, a, b) == Binary(Power, a, b)
  {
    FallThroughPlus(env, a, b);
    FallThroughMinus(env, a, b);
    FallThroughTimes(env, a, b);
    FallThroughDivide(env, a, b);
    FallThroughPower(env, a, b);
  }

  // IdentityFallThrough, one operator at a time.

  lemma FallThroughPlus(env: Env, a: Expr, b: Expr)
    requires !(IsNumberLike(a) && IsNumberLike(b))
    ensures !IsScalarValue(a, 0.0) && !IsScalarValue(b, 0.0) &&
            !(b.Scalar? && a.Binary? && a.op == Plus && (a.left.Scalar? || a.right.Scalar?)) &&
            !(a.Scalar? && b.Binary? && b.op == Plus && (b.left.Scalar? || b.right.Scalar?)) ==>
      SimplifyBinary(env, Plus, a, b) == Binary(Plus, a, b)
  {
  }

  lemma FallThroughMinus(env: Env, a: Expr, b: Expr)
    requires !(IsNumberLike(a) && IsNumberLike(b))
    ensures !IsScalarValue(a, 0.0) && !IsScalarValue(b, 0.0) && !(b.Scalar? && IsNegative(b.num)) ==>
      SimplifyBinary(env, Minus, a, b) == Binary(Minus, a, b)
  {
  }

  lemma FallThroughTimes(env: Env, a: Expr, b: Expr)
    requires !(IsNumberLike(a) && IsNumberLike(b))
    ensures !IsScalarValue(a, 1.0) && !IsScalarValue(b, 1.0) &&
            !(b.Scalar? && a.Binary? && a.op == Times && (a.left.Scalar? || a.right.Scalar?)) &&
            !(a.Scalar? && b.Binary? && b.op == Times && (b.left.Scalar? || b.right.Scalar?)) ==>
      SimplifyBinary(env, Times, a, b) == Binary(Times, a, b)
  {
  }

  lemma FallThroughDivide(env: Env, a: Expr, b: Expr)
    requires !(IsNumberLike(a) && IsNumberLike(b))
    ensures !IsScalarValue(a, 1.0) && !IsScalarValue(b, 1.0) ==>
      SimplifyBinary(env, Divide, a, b) == Binary(Divide, a, b)
  {
  }

  lemma FallThroughPower(env: Env, a: Expr, b: Expr)
    requires !(IsNumberLike(a) && IsNumberLike(b))
    ensures !IsScalarValue(a, 0.0) && !IsScalarValue(a, 1.0) && !IsScalarValue(b, 1.0) ==>
      SimplifyBinary(env, Power, a, b) == Binary(Power, a, b)
  {
  }

  /** The four sum regroupings: the two numbers become one constant that
      reads back as their sum, placed first, except for (u + a) + b, which
      keeps it second; the other operand is copied. A nested sum with no
      number is kept. */
  lemma SumRegroupings(env: Env, a: Expr, b: Expr)
    ensures var r := SimplifyBinary(env, Plus, a, b);
      b.Scalar? && !ValueIs(b.num, 0.0) && a.Binary? && a.op == Plus ==>
        (a.left.Scalar? ==>
           r.Binary? && r.op == Plus && IsNumberLike(r.left) && OperandValue(r.left) == Add(a.left.num, b.num) &&
           r.right == Copy(env, a.right)) &&
        (!a.left.Scalar? && a.right.Scalar? ==>
           r.Binary? && r.op == Plus && r.left == Copy(env, a.left) &&
           IsNumberLike(r.right) && OperandValue(r.right) == Add(a.right.num, b.num)) &&
        (!a.left.Scalar? && !a.right.Scalar? ==> r == Binary(Plus, a, b))
    ensures var r := SimplifyBinary(env, Plus, a, b);
      a.Scalar? && !ValueIs(a.num, 0.0) && b.Binary? && b.op == Plus ==>
        (b.left.Scalar? ==>
           r.Binary? && r.op == Plus && IsNumberLike(r.left) && OperandValue(r.left) == Add(a.num, b.left.num) &&
           r.right == Copy(env, b.right)) &&
        (!b.left.Scalar? && b.right.Scalar? ==>
           r.Binary? && r.op == Plus && IsNumberLike(r.left) && OperandValue(r.left) == Add(a.num, b.right.num) &&
           r.right == Copy(env, b.left)) &&
        (!b.left.Scalar? && !b.right.Scalar? ==> r == Binary(Plus, a, b))
  {
  }

  /** The four product regroupings: the two numbers become one constant
      that reads back as their product, always placed first; the other
      operand is copied. A nested product with no number is kept. */
  lemma ProductRegroupings(env: Env, a: Expr, b: Expr)
    ensures var r := SimplifyBinary(env, Times, a, b);
      b.Scalar? && !ValueIs(b.num, 1.0) && a.Binary? && a.op == Times ==>
        (a.left.Scalar? ==>
           r.Binary? && r.op == Times && IsNumberLike(r.left) && OperandValue(r.left) == Mul(a.left.num, b.num) &&
           r.right == Copy(env, a.right)) &&
        (!a.left.Scalar? && a.right.Scalar? ==>
           r.Binary? && r.op == Times && IsNumberLike(r.left) && OperandValue(r.left) == Mul(a.right.num, b.num) &&
           r.right == Copy(env, a.left)) &&
        (!a.left.Scalar? && !a.right.Scalar? ==> r == Binary(Times, a, b))
    ensures var r := SimplifyBinary(env, Times, a, b);
      a.Scalar? && !ValueIs(a.num, 1.0) && b.Binary? && b.op == Times ==>
        (b.left.Scalar? ==>
           r.Binary? && r.op == Times && IsNumberLike(r.left) && OperandValue(r.left) == Mul(a.num, b.left.num) &&
           r.right == Copy(env, b.right)) &&
        (!b.left.Scalar? && b.right.Scalar? ==>
           r.Binary? && r.op == Times && IsNumberLike(r.left) && OperandValue(r.left) == Mul(a.num, b.right.num) &&
           r.right == Copy(env, b.left)) &&
        (!b.left.Scalar? && !b.right.Scalar? ==> r == Binary(Times, a, b))
  {
  }

  /** u - (negative c) becomes u + |c|, a sum whose constant reads back as
      the magnitude of c. */
  lemma SubtractNegativeConstant(env: Env, a: Expr, c: Num)
    requires !IsNumberLike(a) && IsNegative(c)
    ensures var r := SimplifyBinary(env, Minus, a, Scalar(c));
      r.Binary? && r.op == Plus && IsNumberLike(r.right) && OperandValue(r.right) == AddInverse(c) &&
      NonNegative(OperandValue(r.right)) && r.right.Scalar?
  {
  }

  /** Regrouping (u + a) + b keeps the operands' numbers in one constant
      that reads back as a + b. */
  lemma RegroupSum(env: Env, u: Expr, a: Num, b: Num)
    ensures var r := SimplifyBinary(env, Plus, Binary(Plus, Scalar(a), u), Scalar(b));
      !ValueIs(b, 0.0) ==>
        r.Binary? && r.op == Plus && OperandValue(r.left) == Add(a, b) && r.right == Copy(env, u)
  {
  }

  /** With fewer than two constant operands, or an operator other than '+'
      and '*', the node keeps its simplified operands in place. */
  lemma SimplifyMultiKeeps(env: Env, op: Op, ys: seq<Expr>)
    requires |Consts(ys)| < 2 || !(op in {Plus, Times})
    ensures SimplifyMulti(env, op, ys) == MultiOp(op, ys)
  {
  }

  lemma {:induction false} PartitionSizes(ys: seq<Expr>)
    ensures |Consts(ys)| + |Others(ys)| == |ys|
  {
    if ys != [] {
      PartitionSizes(ys[..|ys| - 1]);
    }
  }

  /** With two or more constants the result holds one folded constant that
      reads back as their sum (product), last for a sum and first for a
      product, and the constant alone when every operand was constant. The
      non-constant operands are all kept, in order, spliced by
      create_multiop. */
  lemma SimplifyMultiFolds(env: Env, op: Op, ys: seq<Expr>)
    requires |Consts(ys)| >= 2 && op in {Plus, Times}
    ensures var r := SimplifyMulti(env, op, ys); var t := Total(op, Consts(ys));
      (Others(ys) == [] ==> IsNumberLike(r) && OperandValue(r) == t) &&
      (Others(ys) != [] ==>
        r.MultiOp? && r.op == op && |r.inputs| >= 1 &&
        (op == Plus ==> IsNumberLike(r.inputs[|r.inputs| - 1]) && OperandValue(r.inputs[|r.inputs| - 1]) == t &&
                        r.inputs[..|r.inputs| - 1] == Splice(op, Others(ys))) &&
        (op == Times ==> IsNumberLike(r.inputs[0]) && OperandValue(r.inputs[0]) == t &&
                         r.inputs[1..] == Splice(op, Others(ys))))
  {
    var cs := Consts(ys);
    var rest := Others(ys);
    FoldConstsIsTotal(op, cs);
    var k := CreateScalar(env, FoldConsts(op, cs));
    assert IsNumberLike(k) && OperandValue(k) == Total(op, cs);
    var r := SimplifyMulti(env, op, ys);
    if rest == [] {
      FoldedAlone(env, op, ys, k);
    } else if op == Plus {
      FoldedSum(env, ys, k);
      var ins := Splice(op, rest) + [k];
      assert r.inputs == ins;
      assert ins[..|ins| - 1] == Splice(op, rest);
    } else {
      FoldedProduct(env, ys, k);
      var ins := [k] + Splice(op, rest);
      assert r.inputs == ins;
      assert ins[1..] == Splice(op, rest);
    }
  }

  /** Only constants: the folded constant alone. */
  lemma FoldedAlone(env: Env, op: Op, ys: seq<Expr>, k: Expr)
    requires |Consts(ys)| >= 2 && op in {Plus, Times} && Others(ys) == []
    requires k == CreateScalar(env, FoldConsts(op, Consts(ys)))
    ensures SimplifyMulti(env, op, ys) == k
  {
  }

  /** A sum: the other operands, then the folded constant. */
  lemma FoldedSum(env: Env, ys: seq<Expr>, k: Expr)
    requires |Consts(ys)| >= 2 && Others(ys) != []
    requires k == CreateScalar(env, FoldConsts(Plus, Consts(ys)))
    ensures SimplifyMulti(env, Plus, ys) == MultiOp(Plus, Splice(Plus, Others(ys)) + [k])
  {
    SpliceSnoc(Plus, Others(ys), k);
  }

  /** A product: the folded constant, then the other operands. */
  lemma FoldedProduct(env: Env, ys: seq<Expr>, k: Expr)
    requires |Consts(ys)| >= 2 && Others(ys) != []
    requires k == CreateScalar(env, FoldConsts(Times, Consts(ys)))
    ensures SimplifyMulti(env, Times, ys) == MultiOp(Times, [k] + Splice(Times, Others(ys)))
  {
    SpliceCons(Times, k, Others(ys));
  }

  /** When no non-constant operand is itself a same-operator MultiOp, the
      folded node holds exactly those operands, in order, and the constant. */
  lemma SimplifyMultiKeepsOthers(env: Env, op: Op, ys: seq<Expr>)
    requires |Consts(ys)| >= 2 && op in {Plus, Times} && Others(ys) != []
    requires forall i :: 0 <= i < |Others(ys)| ==> !(Others(ys)[i].MultiOp? && Others(ys)[i].op == op)
    ensures var r := SimplifyMulti(env, op, ys);
      r.MultiOp? && |r.inputs| == |Others(ys)| + 1 &&
      (op == Plus ==> r.inputs[..|Others(ys)|] == Others(ys)) &&
      (op == Times ==> r.inputs[1..] == Others(ys))
  {
    SimplifyMultiFolds(env, op, ys);
    SpliceNoMerge(op, Others(ys));
  }

  // =====================================================================
  // flatten

  /** A Binary or MultiOp whose operator is '+' or '-'. */
  predicate IsSumLike(x: Expr) {
    (x.MultiOp? || x.Binary?) && x.op in {Plus, Minus}
  }

  /** A Binary or MultiOp whose operator is '*' or '/'. */
  predicate IsProductLike(x: Expr) {
    (x.MultiOp? || x.Binary?) && x.op in {Times, Divide}
  }

  lemma SingleWeight(x: Expr)
    ensures WeightSum([x]) == Weight(x)
  {
  }

  /** flatten. The operands of a '+'/'-' Binary become the operands of one
      '+' MultiOp, those of a '*'/'/' Binary the operands of one '*'
      MultiOp; a MultiOp splices its flattened same-operator children. */
  function Flatten(env: Env, e: Expr): (r: Expr)
    ensures Weight(r) <= Weight(e)
    decreases Weight(e), 0
  {
    match e
    case Scalar(_) => e
    case Var(_) => e
    case Unary(u, a) => Unary(u, Flatten(env, a))
    case Fn(name, k, a, _) => MakeFunction(GetName(name, k), Flatten(env, a))
    case Binary(op, a, b) =>
      if op in {Plus, Minus, Times, Divide} then FlattenArith(env, op, Flatten(env, a), Flatten(env, b))
      else Binary(op, Flatten(env, a), Flatten(env, b))
    case MultiOp(op, xs) =>
      WeightSumSplice(op, FlattenAll(env, xs));
      Collect(env, op, Splice(op, FlattenAll(env, xs)))
  }

  /** The push loops of binop flatten over the already flattened operands:
      a grouped left operand contributes the operands of its re-flattened
      form; the right one too, or else it is pushed, wrapped in '-' for a
      difference and in '/' for a quotient. */
  function FlattenArith(env: Env, op: Op, inA: Expr, inB: Expr): (r: Expr)
    requires op in {Plus, Minus, Times, Divide}
    ensures Weight(r) <= Weight(inA) + Weight(inB) + 2
    ensures r.MultiOp? && r.op == (if op in {Plus, Minus} then Plus else Times)
    decreases Weight(inA) + Weight(inB) + 1, 2
  {
    var sum := op in {Plus, Minus};
    var left := Group(env, inA, if sum then IsSumLike(inA) else IsProductLike(inA));
    var right :=
      if (if sum then IsSumLike(inB) else IsProductLike(inB)) then Group(env, inB, true)
      else if op == Minus then [Unary(Neg, inB)]
      else if op == Divide then [Unary(Recip, inB)]
      else [inB];
    SingleWeight(Unary(Neg, inB));
    SingleWeight(Unary(Recip, inB));
    SingleWeight(inB);
    WeightSumAppend(left, right);
    WeightSumSplice(if sum then Plus else Times, left + right);
    CreateMultiOp(if sum then Plus else Times, left + right)
  }

  /** What one operand contributes: the operands of its re-flattened form
      when it is grouped, itself otherwise. */
  function Group(env: Env, x: Expr, grouped: bool): (r: seq<Expr>)
    ensures WeightSum(r) <= Weight(x)
    ensures !grouped ==> r == [x]
    decreases Weight(x), 1
  {
    if grouped then
      InputsLighter(Flatten(env, x));
      Inputs(Flatten(env, x))
    else
      SingleWeight(x);
      [x]
  }

  /** The end of multiop flatten on the spliced operands: the identity for
      none, the operand for one, else a MultiOp, sorted by kind for '*'. */
  function Collect(env: Env, op: Op, ns: seq<Expr>): (r: Expr)
    ensures Weight(r) <= 1 + WeightSum(ns)
  {
    if |ns| == 0 then CreateScalar(env, IdentityOf(op))
    else if |ns| == 1 then
      WeightSumElement(ns, 0);
      ns[0]
    else
      var sorted := if op == Times then ExchangeSort(ns) else ns;
      ExchangeSortPermutes(ns);
      WeightSumPermutation(ExchangeSort(ns), ns);
      WeightSumSplice(op, sorted);
      CreateMultiOp(op, sorted)
  }

  /** Each operand flattened, in order. */
  function FlattenAll(env: Env, xs: seq<Expr>): (ys: seq<Expr>)
    ensures |ys| == |xs|
    ensures WeightSum(ys) <= WeightSum(xs)
    decreases WeightSum(xs), 1
  {
    if xs == [] then []
    else
      var n := |xs| - 1;
      assert xs == xs[..n] + [xs[n]];
      WeightSumAppend(xs[..n], [xs[n]]);
      WeightSumAppend(FlattenAll(env, xs[..n]), [Flatten(env, xs[n])]);
      FlattenAll(env, xs[..n]) + [Flatten(env, xs[n])]
  }

  lemma {:induction false} FlattenAllAt(env: Env, xs: seq<Expr>, i: nat)
    requires i < |xs|
    ensures FlattenAll(env, xs)[i] == Flatten(env, xs[i])
  {
    var n := |xs| - 1;
    if i < n {
      FlattenAllAt(env, xs[..n], i);
    }
  }

  /** The operand list MultiOp flatten hands on (before sorting). */
  function FlatOperands(env: Env, op: Op, xs: seq<Expr>): seq<Expr> {
    Splice(op, FlattenAll(env, xs))
  }

  lemma FlattenMultiOpIsCollect(env: Env, op: Op, xs: seq<Expr>)
    ensures Flatten(env, MultiOp(op, xs)) == Collect(env, op, FlatOperands(env, op, xs))
  {
  }

  /** multiop flatten as the source runs it: a push loop over the flattened
      children, then the end step. */
  method FlattenMultiOp(env: Env, op: Op, xs: seq<Expr>) returns (r: Expr)
    ensures r == Flatten(env, MultiOp(op, xs))
  {
    var newInputs: seq<Expr> := [];
    var i := 0;
    while i < |xs|
      invariant 0 <= i <= |xs|
      invariant newInputs == Splice(op, FlattenAll(env, xs[..i]))
    {
      var next := Flatten(env, xs[i]);
      assert xs[..i + 1][..i] == xs[..i];
      assert FlattenAll(env, xs[..i + 1]) == FlattenAll(env, xs[..i]) + [next];
      SpliceAppend(op, FlattenAll(env, xs[..i]), [next]);
      assert [next][..0] == [];
      if next.MultiOp? && next.op == op {
        newInputs := newInputs + next.inputs;
      } else {
        newInputs := newInputs + [next];
      }
      i := i + 1;
    }
    TakeAll(xs);
    FlattenMultiOpIsCollect(env, op, xs);
    r := CollectOperands(env, op, newInputs);
  }

  /** The end of multiop flatten: the exchange sort runs on the operand
      array for a product. */
  method CollectOperands(env: Env, op: Op, ns: seq<Expr>) returns (r: Expr)
    ensures r == Collect(env, op, ns)
  {
    if |ns| == 0 {
      r := CreateScalar(env, IdentityOf(op));
    } else if |ns| == 1 {
      r := ns[0];
    } else {
      var newInputs := ns;
      if op == Times {
        var arr := new Expr[|ns|](j requires 0 <= j < |ns| => ns[j]);
        assert arr[..] == ns;
        SortByKind(arr);
        newInputs := arr[..];
      }
      r := SpliceInputs(op, newInputs);
    }
  }

  // ---------------------------------------------------------------------
  // Properties of flatten

  /** '+'/'-' always yields a '+' MultiOp and '*'/'/' a '*' MultiOp; any
      other operator rebuilds a Binary over the flattened operands. */
  lemma FlattenBinaryShape(env: Env, op: Op, a: Expr, b: Expr)
    ensures var r := Flatten(env, Binary(op, a, b));
      (op in {Plus, Minus} ==> r.MultiOp? && r.op == Plus) &&
      (op in {Times, Divide} ==> r.MultiOp? && r.op == Times) &&
      (!(op in {Plus, Minus, Times, Divide}) ==> r == Binary(op, Flatten(env, a), Flatten(env, b)))
  {
  }

  /** A subtrahend that is not a sum is wrapped in '-' and becomes the last
      operand; a divisor that is not a product is wrapped in '/'. */
  lemma FlattenWrapsSubtrahend(env: Env, op: Op, a: Expr, b: Expr)
    requires op in {Minus, Divide}
    requires op == Minus ==> !IsSumLike(Flatten(env, b))
    requires op == Divide ==> !IsProductLike(Flatten(env, b))
    ensures var r := Flatten(env, Binary(op, a, b));
      |r.inputs| >= 1 &&
      r.inputs[|r.inputs| - 1] == Unary(if op == Minus then Neg else Recip, Flatten(env, b))
  {
    var inA, inB := Flatten(env, a), Flatten(env, b);
    FlattenArithCase(env, op, a, b);
    ArithWrapsSubtrahend(env, op, inA, inB);
    assert Flatten(env, Binary(op, a, b)) == FlattenArith(env, op, inA, inB);
  }

  /** binop flatten on an arithmetic operator is FlattenArith of the
      flattened operands. */
  lemma FlattenArithCase(env: Env, op: Op, a: Expr, b: Expr)
    requires op in {Plus, Minus, Times, Divide}
    ensures Flatten(env, Binary(op, a, b)) == FlattenArith(env, op, Flatten(env, a), Flatten(env, b))
  {
  }

  lemma ArithWrapsSubtrahend(env: Env, op: Op, inA: Expr, inB: Expr)
    requires op in {Minus, Divide}
    requires op == Minus ==> !IsSumLike(inB)
    requires op == Divide ==> !IsProductLike(inB)
    ensures var r := FlattenArith(env, op, inA, inB);
      |r.inputs| >= 1 &&
      r.inputs[|r.inputs| - 1] == Unary(if op == Minus then Neg else Recip, inB)
  {
    if op == Minus {
      SubtrahendPushed(env, inA, inB);
      LastOperand(Plus, Group(env, inA, IsSumLike(inA)), Unary(Neg, inB));
    } else {
      DivisorPushed(env, inA, inB);
      LastOperand(Times, Group(env, inA, IsProductLike(inA)), Unary(Recip, inB));
    }
  }

  lemma LastOperand(op: Op, xs: seq<Expr>, w: Expr)
    requires !(w.MultiOp? && w.op == op)
    ensures var r := CreateMultiOp(op, xs + [w]); |r.inputs| >= 1 && r.inputs[|r.inputs| - 1] == w
  {
    SpliceEndsWith(op, xs, w);
  }

  lemma SubtrahendPushed(env: Env, inA: Expr, inB: Expr)
    requires !IsSumLike(inB)
    ensures FlattenArith(env, Minus, inA, inB) == CreateMultiOp(Plus, Group(env, inA, IsSumLike(inA)) + [Unary(Neg, inB)])
  {
  }

  lemma DivisorPushed(env: Env, inA: Expr, inB: Expr)
    requires !IsProductLike(inB)
    ensures FlattenArith(env, Divide, inA, inB) == CreateMultiOp(Times, Group(env, inA, IsProductLike(inA)) + [Unary(Recip, inB)])
  {
  }

  /** An input that is not a same-operator MultiOp ends the spliced list. */
  lemma SpliceEndsWith(op: Op, xs: seq<Expr>, w: Expr)
    requires !(w.MultiOp? && w.op == op)
    ensures var s := Splice(op, xs + [w]); |s| >= 1 && s[|s| - 1] == w
  {
    assert (xs + [w])[..|xs + [w]| - 1] == xs;
  }

  /** Quirk of the source: a sum-like subtrahend is spliced in without
      negation, so a - (b + c) flattens exactly like a + (b + c). */
  lemma SubtractingSumIsNotNegated(env: Env, a: Expr, b: Expr)
    requires IsSumLike(Flatten(env, b))
    ensures Flatten(env, Binary(Minus, a, b)) == Flatten(env, Binary(Plus, a, b))
  {
  }

  /** A leaf operand flattens to itself. */
  predicate IsLeaf(x: Expr) {
    x.Var? || x.Scalar?
  }

  lemma FlattenLeaf(env: Env, x: Expr)
    requires IsLeaf(x)
    ensures Flatten(env, x) == x
  {
  }

  lemma FlattenAllLeaves(env: Env, x: Expr, y: Expr)
    requires IsLeaf(x) && IsLeaf(y)
    ensures FlattenAll(env, [x, y]) == [x, y]
  {
    FlattenLeaf(env, x);
    FlattenLeaf(env, y);
    FlattenAllSnoc(env, [], x);
    assert [] + [x] == [x];
    FlattenAllSnoc(env, [x], y);
    assert [x] + [y] == [x, y];
  }

  /** flatten on one more operand appends its flattened form. */
  lemma FlattenAllSnoc(env: Env, xs: seq<Expr>, z: Expr)
    ensures FlattenAll(env, xs + [z]) == FlattenAll(env, xs) + [Flatten(env, z)]
  {
    assert (xs + [z])[..|xs|] == xs;
  }

  lemma ArithOfLeaves(env: Env, op: Op, x: Expr, y: Expr)
    requires IsLeaf(x) && IsLeaf(y) && op in {Plus, Times}
    ensures FlattenArith(env, op, x, y) == MultiOp(op, [x, y])
  {
    ArithUngrouped(env, op, x, y);
    LeafPairKept(op, x, y);
  }

  /** Two leaves are not spliced into a new MultiOp. */
  lemma LeafPairKept(op: Op, x: Expr, y: Expr)
    requires IsLeaf(x) && IsLeaf(y)
    ensures CreateMultiOp(op, [x, y]) == MultiOp(op, [x, y])
  {
    SpliceNoMerge(op, [x, y]);
  }

  /** Operands that are not themselves sums (products) are pushed as they
      are. */
  lemma ArithUngrouped(env: Env, op: Op, inA: Expr, inB: Expr)
    requires op in {Plus, Times}
    requires op == Plus ==> !IsSumLike(inA) && !IsSumLike(inB)
    requires op == Times ==> !IsProductLike(inA) && !IsProductLike(inB)
    ensures FlattenArith(env, op, inA, inB) == CreateMultiOp(op, [inA, inB])
  {
    assert Group(env, inA, false) == [inA];
    assert [inA] + [inB] == [inA, inB];
  }

  /** A sum subtrahend after an operand that is not a sum contributes the
      operands of its re-flattened form, without negation. */
  lemma ArithSubtractsSum(env: Env, inA: Expr, inB: Expr)
    requires !IsSumLike(inA) && IsSumLike(inB)
    ensures FlattenArith(env, Minus, inA, inB) == CreateMultiOp(Plus, [inA] + Group(env, inB, true))
  {
    assert Group(env, inA, false) == [inA];
  }

  /** A two-leaf sum or product flattens to the MultiOp of the two leaves
      in their original order, and flattening that again gives it back for a
      sum. */
  lemma FlattenPairOfLeaves(env: Env, op: Op, x: Expr, y: Expr)
    requires IsLeaf(x) && IsLeaf(y) && op in {Plus, Times}
    ensures Flatten(env, Binary(op, x, y)) == MultiOp(op, [x, y])
    ensures op == Plus ==> Flatten(env, MultiOp(op, [x, y])) == MultiOp(op, [x, y])
  {
    FlattenLeaf(env, x);
    FlattenLeaf(env, y);
    ArithOfLeaves(env, op, x, y);
    if op == Plus {
      FlattenSumOfLeaves(env, x, y);
    }
  }

  lemma FlattenSumOfLeaves(env: Env, x: Expr, y: Expr)
    requires IsLeaf(x) && IsLeaf(y)
    ensures Flatten(env, MultiOp(Plus, [x, y])) == MultiOp(Plus, [x, y])
  {
    FlattenAllLeaves(env, x, y);
    SpliceNoMerge(Plus, [x, y]);
    assert FlatOperands(env, Plus, [x, y]) == [x, y];
    FlattenMultiOpIsCollect(env, Plus, [x, y]);
    assert Collect(env, Plus, [x, y]) == CreateMultiOp(Plus, [x, y]);
  }

  /** The same quirk on leaves: a - (b + c) flattens to a + b + c. */
  lemma SubtractingSumExample(env: Env, a: Expr, b: Expr, c: Expr)
    requires IsLeaf(a) && IsLeaf(b) && IsLeaf(c)
    ensures Flatten(env, Binary(Minus, a, Binary(Plus, b, c))) == MultiOp(Plus, [a, b, c])
  {
    FlattenPairOfLeaves(env, Plus, b, c);
    FlattenLeaf(env, a);
    SubtractLeafFromSum(env, a, b, c);
  }

  lemma SubtractLeafFromSum(env: Env, a: Expr, b: Expr, c: Expr)
    requires IsLeaf(a) && IsLeaf(b) && IsLeaf(c)
    ensures FlattenArith(env, Minus, a, MultiOp(Plus, [b, c])) == MultiOp(Plus, [a, b, c])
  {
    var bc := MultiOp(Plus, [b, c]);
    ArithSubtractsSum(env, a, bc);
    FlattenSumOfLeaves(env, b, c);
    assert Group(env, bc, true) == [b, c];
    SpliceNoMerge(Plus, [a, b, c]);
    assert [a] + [b, c] == [a, b, c];
  }

  /** No operands flatten to the identity (0 for a sum, 1 for a product),
      one operand to that operand. */
  lemma FlattenMultiOpSmall(env: Env, op: Op, xs: seq<Expr>)
    ensures var ns := FlatOperands(env, op, xs); var r := Flatten(env, MultiOp(op, xs));
      (|ns| == 0 ==> r == Scalar(IdentityOf(op)) && ValueIs(r.num, if op == Plus then 0.0 else 1.0)) &&
      (|ns| == 1 ==> r == ns[0])
  {
  }

  /** A product's operands come out as a permutation of the spliced
      operands in non-decreasing kind order; a sum keeps their order. */
  lemma FlattenMultiOpOrder(env: Env, op: Op, xs: seq<Expr>)
    requires |FlatOperands(env, op, xs)| >= 2
    ensures var ns := FlatOperands(env, op, xs); var r := Flatten(env, MultiOp(op, xs));
      (op == Times ==> (r == CreateMultiOp(Times, ExchangeSort(ns)) &&
         SortedByKind(ExchangeSort(ns)) && multiset(ExchangeSort(ns)) == multiset(ns))) &&
      (op != Times ==> r == CreateMultiOp(op, ns))
  {
    ExchangeSortSorts(FlatOperands(env, op, xs));
    ExchangeSortPermutes(FlatOperands(env, op, xs));
  }

  /** A product whose operands are already in kind order is not reordered. */
  lemma FlattenSortedProductKeepsOrder(env: Env, xs: seq<Expr>)
    requires |FlatOperands(env, Times, xs)| >= 2 && SortedByKind(FlatOperands(env, Times, xs))
    ensures Flatten(env, MultiOp(Times, xs)) == CreateMultiOp(Times, FlatOperands(env, Times, xs))
  {
    var ns := FlatOperands(env, Times, xs);
    FlattenMultiOpIsCollect(env, Times, xs);
    CollectMany(env, Times, ns);
    ExchangeSortKeepsSorted(ns);
  }

  /** collect with two or more operands: a MultiOp of them, sorted by kind
      for a product. */
  lemma CollectMany(env: Env, op: Op, ns: seq<Expr>)
    requires |ns| >= 2
    ensures Collect(env, op, ns) == CreateMultiOp(op, if op == Times then ExchangeSort(ns) else ns)
  {
  }

  /** flatten is not idempotent: a Binary product is not sorted, the MultiOp
      it becomes is (with numbers ranked before variables). */
  lemma FlattenNotIdempotent(env: Env, x: Expr, n: Num)
    requires x.Var?
    ensures Flatten(env, Binary(Times, x, Scalar(n))) == MultiOp(Times, [x, Scalar(n)])
    ensures Flatten(env, Flatten(env, Binary(Times, x, Scalar(n)))) == MultiOp(Times, [Scalar(n), x])
  {
    FlattenPairOfLeaves(env, Times, x, Scalar(n));
    ReflattenSwapsPair(env, x, Scalar(n));
  }

  /** Flattening the product MultiOp [x, n] again sorts it to [n, x]. */
  lemma ReflattenSwapsPair(env: Env, x: Expr, two: Expr)
    requires x.Var? && two.Scalar?
    ensures Flatten(env, MultiOp(Times, [x, two])) == MultiOp(Times, [two, x])
  {
    FlattenMultiOpIsCollect(env, Times, [x, two]);
    LeavesAreFlatOperands(env, x, two);
    CollectSwapsPair(env, x, two);
  }

  lemma LeavesAreFlatOperands(env: Env, x: Expr, two: Expr)
    requires x.Var? && two.Scalar?
    ensures FlatOperands(env, Times, [x, two]) == [x, two]
  {
    FlattenAllLeaves(env, x, two);
    SpliceNoMerge(Times, [x, two]);
  }

  lemma CollectSwapsPair(env: Env, x: Expr, two: Expr)
    requires x.Var? && two.Scalar?
    ensures Collect(env, Times, [x, two]) == MultiOp(Times, [two, x])
  {
    SortPairOfLeaves(x, two);
    SpliceNoMerge(Times, [two, x]);
    assert Collect(env, Times, [x, two]) == CreateMultiOp(Times, [two, x]);
  }

  /** The exchange sort puts a number before a variable. */
  lemma SortPairOfLeaves(x: Expr, two: Expr)
    requires x.Var? && two.Scalar?
    ensures ExchangeSort([x, two]) == [two, x]
  {
    var sorted := [two, x];
    assert SwapIf([x, two], 0, 1) == sorted;
    assert InnerPass(sorted, 0, 2) == sorted;
    assert InnerPass([x, two], 0, 1) == sorted;
    assert OuterPass(sorted, 1) == sorted;
  }
}
