// The expression-node model: the node kinds of scalar_expr.js, binop_expr.js,
// multiop_expr.js and function_expr.js (plus the variable and unary nodes
// they use), and the construction helpers every operation builds with:
// create_scalar, create_multiop, the function_expr constructor, copy,
// compose, dependencies and reduce.

module Expressions {
  import opened Options
  import opened Numbers

  /** Binary and n-ary operator symbols: '+', '-', '*', '/', '^', '=', '&',
      '$', and any other symbol the parser hands over. */
  datatype Op = Plus | Minus | Times | Divide | Power | Equals | And | Or | Unknown(sym: string)

  /** Unary operators: '-' (negation) and '/' (reciprocal). */
  datatype UnOp = Neg | Recip

  /** Precedence classes (opPrec). */
  datatype Prec = AddSub | MultDiv | PowerPrec | Conj | Disj | EqualPrec

  datatype Expr =
    | Scalar(num: Num)
    | Var(name: string)
    | Unary(uop: UnOp, arg: Expr)
    | Binary(op: Op, left: Expr, right: Expr)
    | MultiOp(op: Op, inputs: seq<Expr>)
    | Fn(name: string, primes: nat, arg: Expr, builtin: bool)

  /** The engine (menv): its two options used by the core, the renderer that
      toString stands for, and the parser. The last two are not part of this
      model and enter as parameters. */
  datatype Env = Env(
    negativeNumbers: bool,
    doFlatten: bool,
    render: Expr -> string,
    parse: string -> Expr)

  type Bindings = map<string, Expr>

  // ---------------------------------------------------------------------
  // binop_expr constructor and isCommutative

  /** The precedence the Binary constructor assigns; None for an operator it
      does not know (it only logs a message). */
  function Precedence(op: Op): (p: Option<Prec>)
    ensures p.None? <==> op.Unknown?
    ensures p == Some(AddSub) <==> op in {Plus, Minus}
    ensures p == Some(MultDiv) <==> op in {Times, Divide}
  {
    match op
    case Plus => Some(AddSub)
    case Minus => Some(AddSub)
    case Times => Some(MultDiv)
    case Divide => Some(MultDiv)
    case Power => Some(PowerPrec)
    case And => Some(Conj)
    case Or => Some(Disj)
    case Equals => Some(EqualPrec)
    case Unknown(_) => None
  }

  /** The Binary constructor marks '&', '$' and '=' as boolean-valued. */
  predicate IsBoolean(op: Op) {
    op == And || op == Or || op == Equals
  }

  predicate IsCommutative(op: Op) {
    op == Plus || op == Times
  }

  /** Boolean operators get a precedence class of their own, never one of
      the arithmetic ones, and only '+' and '*' commute. */
  lemma BinaryConstructorClasses(op: Op)
    ensures IsBoolean(op) ==> Precedence(op).Some? && Precedence(op).value in {Conj, Disj, EqualPrec}
    ensures IsCommutative(op) ==> Precedence(op) in {Some(AddSub), Some(MultDiv)} && !IsBoolean(op)
    ensures op.Unknown? ==> !IsBoolean(op) && !IsCommutative(op)
  {
  }

  // ---------------------------------------------------------------------
  // create_scalar

  /** A Scalar, or a negation wrapped around a Scalar: the two shapes that
      simplifyConstants treats as a constant operand. */
  predicate IsNumberLike(e: Expr) {
    e.Scalar? || (e.Unary? && e.arg.Scalar?)
  }

  /** The number a constant operand stands for. */
  function OperandValue(e: Expr): Num
    requires IsNumberLike(e)
  {
    if e.Scalar? then e.num
    else if e.uop == Neg then AddInverse(e.arg.num)
    else MultInverse(e.arg.num)
  }

  /** create_scalar: a bare Scalar unless the negative-literal policy forbids
      it, in which case a negative value becomes '-' around its magnitude. */
  function CreateScalar(env: Env, n: Num): (r: Expr)
    ensures IsNumberLike(r) && OperandValue(r) == n
    ensures !env.negativeNumbers ==> !(r.Scalar? && IsNegative(r.num))
    ensures r.Scalar? <==> (env.negativeNumbers || NonNegative(n))
    ensures r.Scalar? ==> r.num == n
    ensures r.Unary? ==> r.uop == Neg && r.arg == Scalar(Negate(n))
    ensures IsNegative(n) && !env.negativeNumbers ==> r.arg.Scalar? && NonNegative(r.arg.num)
  {
    if env.negativeNumbers || NonNegative(n) then Scalar(n)
    else Unary(Neg, Scalar(Negate(n)))
  }

  /** create_scalar on a JS number literal. */
  function ScalarOf(env: Env, x: real): Expr {
    CreateScalar(env, FromJs(x))
  }

  /** The identity element of an n-ary operator: 0 for '+', 1 otherwise. */
  function IdentityOf(op: Op): Num {
    Exact(if op == Plus then 0.0 else 1.0)
  }

  // ---------------------------------------------------------------------
  // create_multiop

  /** What create_multiop pushes for one input: the operands of a MultiOp
      with the same operator, or the input itself. */
  function Piece(op: Op, e: Expr): seq<Expr> {
    if e.MultiOp? && e.op == op then e.inputs else [e]
  }

  /** The operand list create_multiop builds: one level of splicing, in order. */
  function Splice(op: Op, xs: seq<Expr>): seq<Expr> {
    if xs == [] then [] else Splice(op, xs[..|xs| - 1]) + Piece(op, xs[|xs| - 1])
  }

  function CreateMultiOp(op: Op, xs: seq<Expr>): (r: Expr)
    ensures r.MultiOp? && r.op == op
  {
    MultiOp(op, Splice(op, xs))
  }

  lemma {:induction false} SpliceAppend(op: Op, xs: seq<Expr>, ys: seq<Expr>)
    ensures Splice(op, xs + ys) == Splice(op, xs) + Splice(op, ys)
    decreases |ys|
  {
    if ys == [] {
      assert xs + ys == xs;
    } else {
      var n := |ys| - 1;
      var front, last := ys[..n], ys[n];
      assert ys == front + [last];
      ConcatAssoc(xs, front, [last]);
      SpliceSnoc(op, xs + front, last);
      SpliceAppend(op, xs, front);
      SpliceSnoc(op, front, last);
      ConcatAssoc(Splice(op, xs), Splice(op, front), Piece(op, last));
    }
  }

  /** Concatenation is associative. */
  lemma ConcatAssoc<T>(a: seq<T>, b: seq<T>, c: seq<T>)
    ensures (a + b) + c == a + (b + c)
  {
  }

  /** The prefix as long as the sequence is the sequence. */
  lemma TakeAll<T>(s: seq<T>)
    ensures s[..|s|] == s
  {
  }

  /** A prefix one longer is the shorter prefix and one more element. */
  lemma TakeSnoc<T>(s: seq<T>, n: nat)
    requires 0 < n <= |s|
    ensures s[..n] == s[..n - 1] + [s[n - 1]]
  {
  }

  /** Splicing one more input appends that input's piece. */
  lemma SpliceSnoc(op: Op, xs: seq<Expr>, x: Expr)
    ensures Splice(op, xs + [x]) == Splice(op, xs) + Piece(op, x)
  {
    var zs := xs + [x];
    assert zs[..|zs| - 1] == xs && zs[|zs| - 1] == x;
  }

  /** The create_multiop loop: walk the inputs, pushing the operands of each
      same-operator MultiOp and every other input as is. */
  method SpliceInputs(op: Op, inputs: seq<Expr>) returns (r: Expr)
    ensures r == CreateMultiOp(op, inputs)
  {
    var newInputs: seq<Expr> := [];
    var i := 0;
    while i < |inputs|
      invariant 0 <= i <= |inputs|
      invariant newInputs == Splice(op, inputs[..i])
    {
      assert inputs[..i + 1][..i] == inputs[..i];
      if inputs[i].MultiOp? && inputs[i].op == op {
        newInputs := newInputs + inputs[i].inputs;
      } else {
        newInputs := newInputs + [inputs[i]];
      }
      i := i + 1;
    }
    TakeAll(inputs);
    r := MultiOp(op, newInputs);
  }

  /** Splicing keeps every input that is not a same-operator MultiOp, and
      replaces each one that is by its operands, in order. */
  lemma {:induction false} SpliceCons(op: Op, x: Expr, xs: seq<Expr>)
    ensures Splice(op, [x] + xs) == Piece(op, x) + Splice(op, xs)
  {
    SpliceAppend(op, [x], xs);
    assert [x][..0] == [];
  }

  /** When no input is a same-operator MultiOp, create_multiop keeps the list
      exactly as given. */
  lemma {:induction false} SpliceNoMerge(op: Op, xs: seq<Expr>)
    requires forall i :: 0 <= i < |xs| ==> !(xs[i].MultiOp? && xs[i].op == op)
    ensures Splice(op, xs) == xs
  {
    if xs != [] {
      SpliceNoMerge(op, xs[..|xs| - 1]);
      assert xs[..|xs| - 1] + [xs[|xs| - 1]] == xs;
    }
  }

  /** Splicing only ever goes one level deep: a same-operator MultiOp nested
      two levels down survives as an operand. */
  lemma SpliceOneLevel(op: Op, inner: Expr, y: Expr)
    requires inner.MultiOp? && inner.op == op
    ensures Splice(op, [MultiOp(op, [inner, y])]) == [inner, y]
  {
    assert [MultiOp(op, [inner, y])][..0] == [];
  }

  // ---------------------------------------------------------------------
  // function_expr constructor and getName

  const PrimeMark: char := '\''

  /** indexOf("'"): the first prime, or -1. */
  function IndexOfPrime(s: string): (r: int)
    ensures -1 <= r < |s|
    ensures r >= 0 ==> s[r] == PrimeMark && PrimeMark !in s[..r]
    ensures r == -1 <==> PrimeMark !in s
  {
    if s == [] then -1
    else if s[0] == PrimeMark then 0
    else
      var k := IndexOfPrime(s[1..]);
      assert s == [s[0]] + s[1..];
      if k < 0 then -1 else k + 1
  }

  /** The constructor splits the name at its first prime when that prime is
      not the first character; the prime count is the length of the rest. */
  function ParseName(raw: string): (string, nat) {
    var p := IndexOfPrime(raw);
    if p > 0 then (raw[..p], |raw| - p) else (raw, 0)
  }

  /** Alias renaming: asin..acot become arcsin..arccot, log becomes ln. */
  function Rename(name: string): string {
    if name in {"asin", "acos", "atan", "asec", "acsc", "acot"} then "arc" + name[1..4]
    else if name == "log" then "ln"
    else name
  }

  predicate IsBuiltinName(name: string) {
    name in {"sin", "cos", "tan", "csc", "sec", "cot",
             "arcsin", "arccos", "arctan", "arcsec", "arccsc", "arccot",
             "sqrt", "root", "abs", "exp", "expb", "ln", "log10"}
  }

  /** new function_expr(menv, raw, arg). The alternate form it precomputes
      for a differentiated builtin is the Derivatives module's Alternate. */
  function MakeFunction(raw: string, arg: Expr): (f: Expr)
    ensures f.Fn? && f.arg == arg
    ensures f.name == Rename(ParseName(raw).0) && f.primes == ParseName(raw).1
    ensures f.builtin <==> IsBuiltinName(f.name)
  {
    var (n, k) := ParseName(raw);
    var name := Rename(n);
    Fn(name, k, arg, IsBuiltinName(name))
  }

  function Primes(k: nat): (s: string)
    ensures |s| == k && forall i :: 0 <= i < k ==> s[i] == PrimeMark
  {
    if k == 0 then "" else Primes(k - 1) + [PrimeMark]
  }

  /** getName: the name followed by one prime per derivative. */
  function GetName(name: string, k: nat): string {
    name + Primes(k)
  }

  /** A node exactly as the function_expr constructor leaves it. */
  predicate AsConstructed(f: Expr)
    requires f.Fn?
  {
    MakeFunction(GetName(f.name, f.primes), f.arg) == f
  }

  lemma RenameIdempotent(n: string)
    ensures Rename(Rename(n)) == Rename(n)
    ensures n != Rename(n) ==> PrimeMark !in Rename(n) && Rename(n) != ""
  {
  }

  lemma {:induction false} PrimeFreeParse(name: string, k: nat)
    requires name != "" && PrimeMark !in name
    ensures ParseName(GetName(name, k)) == (name, k)
  {
    var s := GetName(name, k);
    if k == 0 {
      assert s == name;
    } else {
      assert s[|name|] == PrimeMark;
      assert s[..|name|] == name;
      var p := IndexOfPrime(s);
      assert p == |name|;
    }
  }

  /** getName reproduces what the constructor parsed, so rebuilding a node
      from getName (as flatten, copy and compose do) gives back the same
      name, prime count and builtin flag. */
  lemma MakeFunctionRoundTrip(raw: string, arg: Expr)
    ensures AsConstructed(MakeFunction(raw, arg))
  {
    var f := MakeFunction(raw, arg);
    var p := IndexOfPrime(raw);
    var (n, k) := ParseName(raw);
    RenameIdempotent(n);
    if p > 0 {
      assert PrimeMark !in n && n != "";
      PrimeFreeParse(f.name, k);
    } else if n != f.name {
      PrimeFreeParse(f.name, 0);
    } else {
      assert GetName(f.name, 0) == raw;
    }
  }

  /** Adding one prime to the name of an ordinary function (no prime in its
      name) gives the same function with one more derivative. */
  lemma AddPrime(name: string, k: nat, arg: Expr)
    requires name != "" && PrimeMark !in name && Rename(name) == name
    ensures MakeFunction(GetName(name, k) + [PrimeMark], arg) == Fn(name, k + 1, arg, IsBuiltinName(name))
  {
    assert GetName(name, k) + [PrimeMark] == GetName(name, k + 1);
    PrimeFreeParse(name, k + 1);
  }

  /** A prime at position 0 is not a derivative mark. */
  lemma LeadingPrimeNotCounted(raw: string, arg: Expr)
    requires raw != [] && raw[0] == PrimeMark
    ensures MakeFunction(raw, arg).primes == 0
  {
  }

  // ---------------------------------------------------------------------
  // Node sizes (the measure under flatten's recursion)

  function Weight(e: Expr): nat {
    match e
    case Scalar(_) => 1
    case Var(_) => 1
    case Unary(_, a) => 1 + Weight(a)
    case Binary(_, a, b) => 2 + Weight(a) + Weight(b)
    case MultiOp(_, xs) => 1 + WeightSum(xs)
    case Fn(_, _, a, _) => 1 + Weight(a)
  }

  function WeightSum(xs: seq<Expr>): nat {
    if xs == [] then 0 else Weight(xs[0]) + WeightSum(xs[1..])
  }

  lemma {:induction false} WeightSumAppend(xs: seq<Expr>, ys: seq<Expr>)
    ensures WeightSum(xs + ys) == WeightSum(xs) + WeightSum(ys)
  {
    if xs != [] {
      assert (xs + ys)[0] == xs[0];
      assert (xs + ys)[1..] == xs[1..] + ys;
      WeightSumAppend(xs[1..], ys);
    } else {
      assert xs + ys == ys;
    }
  }

  lemma {:induction false} WeightSumElement(xs: seq<Expr>, i: nat)
    requires i < |xs|
    ensures Weight(xs[i]) <= WeightSum(xs)
  {
    if i > 0 {
      WeightSumElement(xs[1..], i - 1);
    }
  }

  lemma {:induction false} WeightSumSplice(op: Op, xs: seq<Expr>)
    ensures WeightSum(Splice(op, xs)) <= WeightSum(xs)
  {
    if xs != [] {
      var n := |xs| - 1;
      assert xs == xs[..n] + [xs[n]];
      WeightSumSplice(op, xs[..n]);
      WeightSumAppend(xs[..n], [xs[n]]);
      WeightSumAppend(Splice(op, xs[..n]), Piece(op, xs[n]));
    }
  }

  lemma {:induction false} WeightSumMono(xs: seq<Expr>, ys: seq<Expr>)
    requires |xs| == |ys|
    requires forall i :: 0 <= i < |xs| ==> Weight(ys[i]) <= Weight(xs[i])
    ensures WeightSum(ys) <= WeightSum(xs)
  {
    if xs != [] {
      WeightSumMono(xs[1..], ys[1..]);
    }
  }

  lemma {:induction false} WeightSumRemove(t: seq<Expr>, k: nat)
    requires k < |t|
    ensures WeightSum(t) == Weight(t[k]) + WeightSum(t[..k] + t[k + 1..])
  {
    var u := t[..k] + t[k + 1..];
    if k == 0 {
      assert u == t[1..];
    } else {
      WeightSumRemove(t[1..], k - 1);
      assert u[0] == t[0] && u[1..] == t[1..][..k - 1] + t[1..][k..];
    }
  }

  lemma MultisetRemove(t: seq<Expr>, k: nat)
    requires k < |t|
    ensures multiset(t[..k] + t[k + 1..]) == multiset(t) - multiset{t[k]}
  {
    assert t == t[..k] + [t[k]] + t[k + 1..];
  }

  lemma MultisetDropFirst(s: seq<Expr>)
    requires s != []
    ensures multiset(s[1..]) == multiset(s) - multiset{s[0]}
  {
    assert s == [s[0]] + s[1..];
  }

  /** Removing the first element of s and a matching element of t keeps
      the two multisets equal. */
  lemma MultisetRemoveMatching(s: seq<Expr>, t: seq<Expr>, k: nat)
    requires multiset(s) == multiset(t) && s != [] && k < |t| && t[k] == s[0]
    ensures multiset(s[1..]) == multiset(t[..k] + t[k + 1..])
  {
    MultisetRemove(t, k);
    MultisetDropFirst(s);
  }

  /** Reordering operands does not change their total size. */
  lemma {:induction false} WeightSumPermutation(s: seq<Expr>, t: seq<Expr>)
    requires multiset(s) == multiset(t)
    ensures WeightSum(s) == WeightSum(t)
    decreases |s|
  {
    if s == [] {
      assert |t| == |multiset(t)| == 0;
    } else {
      assert s[0] in multiset(t);
      var k :| 0 <= k < |t| && t[k] == s[0];
      MultisetRemoveMatching(s, t, k);
      WeightSumPermutation(s[1..], t[..k] + t[k + 1..]);
      WeightSumRemove(t, k);
    }
  }

  /** The operands a JS node exposes as .inputs (none for leaves). */
  function Inputs(e: Expr): seq<Expr> {
    match e
    case Scalar(_) => []
    case Var(_) => []
    case Unary(_, a) => [a]
    case Binary(_, a, b) => [a, b]
    case MultiOp(_, xs) => xs
    case Fn(_, _, a, _) => [a]
  }

  lemma InputsLighter(e: Expr)
    ensures WeightSum(Inputs(e)) < Weight(e)
  {
    match e
    case Scalar(_) =>
    case Var(_) =>
    case Unary(_, a) =>
    case Binary(_, a, b) => WeightSumAppend([a], [b]);
    case MultiOp(_, xs) =>
    case Fn(_, _, a, _) =>
  }

  // ---------------------------------------------------------------------
  // dependencies() and isConstant()

  /** Every variable occurrence, left to right. */
  function Occurrences(e: Expr): seq<string> {
    match e
    case Scalar(_) => []
    case Var(x) => [x]
    case Unary(_, a) => Occurrences(a)
    case Binary(_, a, b) => Occurrences(a) + Occurrences(b)
    case MultiOp(_, xs) => OccurrencesAll(xs)
    case Fn(_, _, a, _) => Occurrences(a)
  }

  function OccurrencesAll(xs: seq<Expr>): seq<string> {
    if xs == [] then [] else Occurrences(xs[0]) + OccurrencesAll(xs[1..])
  }

  /** First occurrences only, in order. */
  function Dedup(s: seq<string>): (d: seq<string>)
    ensures forall x :: x in d <==> x in s
    ensures forall i, j :: 0 <= i < j < |d| ==> d[i] != d[j]
  {
    if s == [] then []
    else
      var d := Dedup(s[..|s| - 1]);
      assert s == s[..|s| - 1] + [s[|s| - 1]];
      if s[|s| - 1] in d then d else d + [s[|s| - 1]]
  }

  /** dependencies(): the distinct variable names of e, in order of first
      occurrence. */
  function Dependencies(e: Expr): seq<string> {
    Dedup(Occurrences(e))
  }

  /** isConstant(): no variable occurs. */
  predicate IsConstant(e: Expr) {
    Occurrences(e) == []
  }

  lemma OccurrencesAllEmpty(xs: seq<Expr>)
    ensures OccurrencesAll(xs) == [] <==> forall i :: 0 <= i < |xs| ==> IsConstant(xs[i])
  {
    if xs != [] {
      OccurrencesAllEmpty(xs[1..]);
      assert forall i :: 1 <= i < |xs| ==> xs[i] == xs[1..][i - 1];
    }
  }

  /** A scalar is always constant, and a node is constant exactly when it has
      no dependencies. */
  lemma ConstantIffNoDependencies(e: Expr)
    ensures IsConstant(e) <==> Dependencies(e) == []
    ensures e.Scalar? ==> IsConstant(e)
  {
  }

  // ---------------------------------------------------------------------
  // copy() and compose()

  /** copy(): scalars are rebuilt through create_scalar, MultiOps through
      create_multiop, functions through getName. */
  function Copy(env: Env, e: Expr): Expr {
    match e
    case Scalar(n) => CreateScalar(env, n)
    case Var(_) => e
    case Unary(u, a) => Unary(u, Copy(env, a))
    case Binary(op, a, b) => Binary(op, Copy(env, a), Copy(env, b))
    case MultiOp(op, xs) =>
      CreateMultiOp(op, seq(|xs|, i requires 0 <= i < |xs| => Copy(env, xs[i])))
    case Fn(name, k, a, _) => MakeFunction(GetName(name, k), Copy(env, a))
  }

  /** The arithmetic a composed Binary folds (Power is not folded). */
  function FoldArith(op: Op, a: Num, b: Num): Num
    requires op in {Plus, Minus, Times, Divide}
  {
    match op
    case Plus => Add(a, b)
    case Minus => Sub(a, b)
    case Times => Mul(a, b)
    case Divide => Div(a, b)
  }

  /** compose(bindings): substitute bound variables. A Binary whose two
      composed operands are Scalars folds for '+', '-', '*', '/'; a MultiOp
      collapses to its identity or its only operand. */
  function Compose(env: Env, e: Expr, s: Bindings): Expr {
    match e
    case Scalar(n) => CreateScalar(env, n)
    case Var(x) => if x in s then s[x] else e
    case Unary(u, a) => Unary(u, Compose(env, a, s))
    case Binary(op, a, b) =>
      var inA := Compose(env, a, s);
      var inB := Compose(env, b, s);
      if inA.Scalar? && inB.Scalar? && op in {Plus, Minus, Times, Divide}
      then CreateScalar(env, FoldArith(op, inA.num, inB.num))
      else Binary(op, inA, inB)
    case MultiOp(op, xs) =>
      var ys := seq(|xs|, i requires 0 <= i < |xs| => Compose(env, xs[i], s));
      if |ys| == 0 then CreateScalar(env, IdentityOf(op))
      else if |ys| == 1 then ys[0]
      else CreateMultiOp(op, ys)
    case Fn(name, k, a, _) => MakeFunction(GetName(name, k), Compose(env, a, s))
  }

  /** reduce(): the arity collapse after a structural edit. A Binary always
      has two operands, so only a MultiOp can collapse. The generic
      expression reduce that multiop reduce calls first is not part of this
      model; it is taken to return the node unchanged. Afterwards no
      MultiOp of arity at most 1 is left, unless the only operand was one;
      an empty node becomes the operator's identity. */
  function Reduce(env: Env, e: Expr): (r: Expr)
    ensures r.MultiOp? && |r.inputs| <= 1 ==> e.MultiOp? && |e.inputs| == 1 && r == e.inputs[0]
    ensures e.MultiOp? && |e.inputs| == 0 ==> IsNumberLike(r) && OperandValue(r) == IdentityOf(e.op)
    ensures e.MultiOp? && |e.inputs| == 1 ==> r == e.inputs[0]
    ensures !(e.MultiOp? && |e.inputs| <= 1) ==> r == e
  {
    if e.MultiOp? && |e.inputs| <= 1 then
      if |e.inputs| == 0 then CreateScalar(env, IdentityOf(e.op)) else e.inputs[0]
    else e
  }

  // ---------------------------------------------------------------------
  // Properties of copy(), compose() and reduce()

  lemma {:induction false} OccurrencesAllAppend(xs: seq<Expr>, ys: seq<Expr>)
    ensures OccurrencesAll(xs + ys) == OccurrencesAll(xs) + OccurrencesAll(ys)
  {
    if xs == [] {
      assert xs + ys == ys;
    } else {
      assert (xs + ys)[0] == xs[0] && (xs + ys)[1..] == xs[1..] + ys;
      OccurrencesAllAppend(xs[1..], ys);
    }
  }

  lemma OccurrencesAllOne(x: Expr)
    ensures OccurrencesAll([x]) == Occurrences(x)
  {
    assert [x][1..] == [];
  }

  /** create_multiop keeps every variable occurrence, in order. */
  lemma {:induction false} OccurrencesSplice(op: Op, xs: seq<Expr>)
    ensures OccurrencesAll(Splice(op, xs)) == OccurrencesAll(xs)
  {
    if xs != [] {
      var n := |xs| - 1;
      var front, last := xs[..n], xs[n];
      assert xs == front + [last];
      OccurrencesSplice(op, front);
      OccurrencesAllAppend(Splice(op, front), Piece(op, last));
      OccurrencesAllAppend(front, [last]);
      OccurrencesAllOne(last);
    }
  }

  lemma {:induction false} OccurrencesAllPointwise(xs: seq<Expr>, ys: seq<Expr>)
    requires |xs| == |ys| && forall i :: 0 <= i < |xs| ==> Occurrences(ys[i]) == Occurrences(xs[i])
    ensures OccurrencesAll(ys) == OccurrencesAll(xs)
  {
    if xs != [] {
      OccurrencesAllPointwise(xs[1..], ys[1..]);
    }
  }

  /** A copy has the same variable occurrences, in the same order, and so
      the same dependencies. */
  lemma {:induction false} CopyKeepsOccurrences(env: Env, e: Expr)
    ensures Occurrences(Copy(env, e)) == Occurrences(e)
    ensures Dependencies(Copy(env, e)) == Dependencies(e)
  {
    match e
    case Scalar(_) =>
    case Var(_) =>
    case Unary(_, a) => CopyKeepsOccurrences(env, a);
    case Binary(_, a, b) => CopyKeepsOccurrences(env, a); CopyKeepsOccurrences(env, b);
    case MultiOp(op, xs) =>
      var ys := seq(|xs|, i requires 0 <= i < |xs| => Copy(env, xs[i]));
      forall i | 0 <= i < |xs| ensures Occurrences(ys[i]) == Occurrences(xs[i]) {
        CopyKeepsOccurrences(env, xs[i]);
      }
      OccurrencesAllPointwise(xs, ys);
      OccurrencesSplice(op, ys);
    case Fn(_, _, a, _) => CopyKeepsOccurrences(env, a);
  }

  /** The reference meaning of substitution on the occurrence list: each
      occurrence of a bound variable becomes the occurrences of its
      binding, the others stay. */
  function SubstOccurrences(occ: seq<string>, s: Bindings): seq<string> {
    if occ == [] then []
    else (if occ[0] in s then Occurrences(s[occ[0]]) else [occ[0]]) + SubstOccurrences(occ[1..], s)
  }

  lemma {:induction false} SubstAppend(a: seq<string>, b: seq<string>, s: Bindings)
    ensures SubstOccurrences(a + b, s) == SubstOccurrences(a, s) + SubstOccurrences(b, s)
  {
    if a == [] {
      assert a + b == b;
    } else {
      assert (a + b)[0] == a[0] && (a + b)[1..] == a[1..] + b;
      SubstAppend(a[1..], b, s);
    }
  }

  lemma {:induction false} SubstAllPointwise(xs: seq<Expr>, ys: seq<Expr>, s: Bindings)
    requires |xs| == |ys|
    requires forall i :: 0 <= i < |xs| ==> Occurrences(ys[i]) == SubstOccurrences(Occurrences(xs[i]), s)
    ensures OccurrencesAll(ys) == SubstOccurrences(OccurrencesAll(xs), s)
  {
    if xs != [] {
      SubstAllPointwise(xs[1..], ys[1..], s);
      SubstAppend(Occurrences(xs[0]), OccurrencesAll(xs[1..]), s);
    }
  }

  /** compose substitutes: the composed tree's occurrences are those of e
      with each bound variable replaced by its binding's occurrences, in
      order (folding and collapsing lose none). */
  lemma {:induction false} ComposeOccurrences(env: Env, e: Expr, s: Bindings)
    ensures Occurrences(Compose(env, e, s)) == SubstOccurrences(Occurrences(e), s)
  {
    match e
    case Scalar(_) =>
    case Var(x) =>
      assert Occurrences(e)[1..] == [];
    case Unary(_, a) => ComposeOccurrences(env, a, s);
    case Binary(op, a, b) =>
      ComposeOccurrences(env, a, s);
      ComposeOccurrences(env, b, s);
      ComposeOccurrencesBinary(env, op, a, b, s);
    case MultiOp(op, xs) =>
      forall i | 0 <= i < |xs| ensures Occurrences(Compose(env, xs[i], s)) == SubstOccurrences(Occurrences(xs[i]), s) {
        ComposeOccurrences(env, xs[i], s);
      }
      ComposeOccurrencesMultiOp(env, op, xs, s);
    case Fn(_, _, a, _) => ComposeOccurrences(env, a, s);
  }

  /** The Binary step of ComposeOccurrences. */
  lemma ComposeOccurrencesBinary(env: Env, op: Op, a: Expr, b: Expr, s: Bindings)
    requires Occurrences(Compose(env, a, s)) == SubstOccurrences(Occurrences(a), s)
    requires Occurrences(Compose(env, b, s)) == SubstOccurrences(Occurrences(b), s)
    ensures Occurrences(Compose(env, Binary(op, a, b), s)) == SubstOccurrences(Occurrences(Binary(op, a, b)), s)
  {
    SubstAppend(Occurrences(a), Occurrences(b), s);
  }

  /** The MultiOp step of ComposeOccurrences. */
  lemma ComposeOccurrencesMultiOp(env: Env, op: Op, xs: seq<Expr>, s: Bindings)
    requires forall i :: 0 <= i < |xs| ==> Occurrences(Compose(env, xs[i], s)) == SubstOccurrences(Occurrences(xs[i]), s)
    ensures Occurrences(Compose(env, MultiOp(op, xs), s)) == SubstOccurrences(OccurrencesAll(xs), s)
  {
    var ys := seq(|xs|, i requires 0 <= i < |xs| => Compose(env, xs[i], s));
    SubstAllPointwise(xs, ys, s);
    ComposeMultiOpOperands(env, op, xs, s, ys);
    ReassembledOccurrences(env, op, ys);
  }

  /** Reassembling operands by arity keeps their occurrences. */
  lemma ReassembledOccurrences(env: Env, op: Op, ys: seq<Expr>)
    ensures Occurrences(if |ys| == 0 then CreateScalar(env, IdentityOf(op)) else if |ys| == 1 then ys[0] else CreateMultiOp(op, ys))
         == OccurrencesAll(ys)
  {
    if |ys| == 0 {
      ConstantHasNoOccurrences(env, IdentityOf(op));
    } else if |ys| == 1 {
      OccurrencesAllOne(ys[0]);
    } else {
      SplicedOccurrences(op, ys);
    }
  }

  lemma SplicedOccurrences(op: Op, ys: seq<Expr>)
    ensures Occurrences(CreateMultiOp(op, ys)) == OccurrencesAll(ys)
  {
    var m := CreateMultiOp(op, ys);
    assert m == MultiOp(op, Splice(op, ys));
    assert Occurrences(m) == OccurrencesAll(Splice(op, ys));
    OccurrencesSplice(op, ys);
  }

  lemma ConstantHasNoOccurrences(env: Env, n: Num)
    ensures Occurrences(CreateScalar(env, n)) == []
  {
    var k := CreateScalar(env, n);
    if k.Unary? {
      assert Occurrences(k) == Occurrences(k.arg);
    }
  }

  /** compose() of a MultiOp, by arity, over the composed operands ys. */
  lemma ComposeMultiOpOperands(env: Env, op: Op, xs: seq<Expr>, s: Bindings, ys: seq<Expr>)
    requires ys == seq(|xs|, i requires 0 <= i < |xs| => Compose(env, xs[i], s))
    ensures Compose(env, MultiOp(op, xs), s)
         == if |ys| == 0 then CreateScalar(env, IdentityOf(op)) else if |ys| == 1 then ys[0] else CreateMultiOp(op, ys)
  {
  }

  lemma {:induction false} SubstToConstants(occ: seq<string>, s: Bindings)
    requires forall x :: x in occ ==> x in s && IsConstant(s[x])
    ensures SubstOccurrences(occ, s) == []
  {
    if occ != [] {
      assert occ[0] in occ;
      SubstToConstants(occ[1..], s);
    }
  }

  lemma {:induction false} SubstKeepsUnbound(occ: seq<string>, s: Bindings, x: string)
    requires x in occ && x !in s
    ensures x in SubstOccurrences(occ, s)
  {
    if occ[0] != x {
      SubstKeepsUnbound(occ[1..], s, x);
    }
  }

  /** Binding every variable of e to a constant tree gives a constant tree;
      a variable left unbound still occurs in the result. */
  lemma ComposeClosesTerm(env: Env, e: Expr, s: Bindings)
    ensures (forall x :: x in Occurrences(e) ==> x in s && IsConstant(s[x])) ==> IsConstant(Compose(env, e, s))
    ensures forall x :: x in Occurrences(e) && x !in s ==> x in Occurrences(Compose(env, e, s))
  {
    ComposeOccurrences(env, e, s);
    if forall x :: x in Occurrences(e) ==> x in s && IsConstant(s[x]) {
      SubstToConstants(Occurrences(e), s);
    }
    forall x | x in Occurrences(e) && x !in s ensures x in Occurrences(Compose(env, e, s)) {
      SubstKeepsUnbound(Occurrences(e), s, x);
    }
  }

  /** copy and compose rebuild a function node through getName, so a node
      as the constructor left it keeps its name, prime count and builtin
      flag. */
  lemma CopyAndComposeKeepName(env: Env, f: Expr, s: Bindings)
    requires f.Fn? && AsConstructed(f)
    ensures var c := Copy(env, f);
      c.Fn? && c.name == f.name && c.primes == f.primes && c.builtin == f.builtin
    ensures var c := Compose(env, f, s);
      c.Fn? && c.name == f.name && c.primes == f.primes && c.builtin == f.builtin
  {
    var raw := GetName(f.name, f.primes);
    assert MakeFunction(raw, f.arg) == f;
  }

  /** The trees compose({}) rebuilds exactly as copy does: no arithmetic
      Binary of two Scalars to fold, no MultiOp of arity 0 or 1 to
      collapse. */
  predicate ComposeKeepsShape(e: Expr) {
    match e
    case Scalar(_) => true
    case Var(_) => true
    case Unary(_, a) => ComposeKeepsShape(a)
    case Binary(op, a, b) =>
      ComposeKeepsShape(a) && ComposeKeepsShape(b) && !(a.Scalar? && b.Scalar? && op in {Plus, Minus, Times, Divide})
    case MultiOp(_, xs) => |xs| >= 2 && forall i :: 0 <= i < |xs| ==> ComposeKeepsShape(xs[i])
    case Fn(_, _, a, _) => ComposeKeepsShape(a)
  }

  /** A copy is a Scalar only when the original is. */
  lemma CopyOfNonScalar(env: Env, e: Expr)
    ensures Copy(env, e).Scalar? ==> e.Scalar?
  {
  }

  /** compose with no bindings is copy on every tree it neither folds nor
      collapses. */
  lemma {:induction false} ComposeEmptyIsCopy(env: Env, e: Expr)
    requires ComposeKeepsShape(e)
    ensures Compose(env, e, map[]) == Copy(env, e)
  {
    match e
    case Scalar(_) =>
    case Var(_) =>
    case Unary(_, a) => ComposeEmptyIsCopy(env, a);
    case Binary(op, a, b) =>
      ComposeEmptyIsCopy(env, a);
      ComposeEmptyIsCopy(env, b);
      CopyOfNonScalar(env, a);
      CopyOfNonScalar(env, b);
    case MultiOp(op, xs) =>
      var ys := seq(|xs|, i requires 0 <= i < |xs| => Compose(env, xs[i], map[]));
      var zs := seq(|xs|, i requires 0 <= i < |xs| => Copy(env, xs[i]));
      forall i | 0 <= i < |xs| ensures ys[i] == zs[i] {
        ComposeEmptyIsCopy(env, xs[i]);
      }
      assert ys == zs;
    case Fn(_, _, a, _) => ComposeEmptyIsCopy(env, a);
  }

  /** A composed Binary folds exactly when both composed operands are
      Scalars and the operator is '+', '-', '*' or '/' ('^' never folds);
      the folded node reads back as the exact result. */
  lemma ComposeBinary(env: Env, op: Op, a: Expr, b: Expr, s: Bindings)
    ensures var r := Compose(env, Binary(op, a, b), s);
      var inA := Compose(env, a, s); var inB := Compose(env, b, s);
      var folds := inA.Scalar? && inB.Scalar? && op in {Plus, Minus, Times, Divide};
      (r.Binary? <==> !folds) && (!folds ==> r == Binary(op, inA, inB)) &&
      (folds ==> IsNumberLike(r) && OperandValue(r) == FoldArith(op, inA.num, inB.num))
  {
  }

  /** A composed MultiOp: the identity for no operands, the composed operand
      for one, otherwise a MultiOp with the same operator. */
  lemma ComposeMultiOp(env: Env, op: Op, xs: seq<Expr>, s: Bindings)
    ensures var r := Compose(env, MultiOp(op, xs), s);
      (|xs| == 0 ==> IsNumberLike(r) && OperandValue(r) == IdentityOf(op)) &&
      (|xs| == 1 ==> r == Compose(env, xs[0], s)) &&
      (|xs| >= 2 ==> r.MultiOp? && r.op == op)
  {
  }

  /** Unlike a Binary, a composed MultiOp never folds its constants: the sum
      1 + 2 stays a sum of two Scalars. */
  lemma ComposeSumNotFolded(env: Env, s: Bindings)
    ensures Compose(env, MultiOp(Plus, [Scalar(Exact(1.0)), Scalar(Exact(2.0))]), s)
         == MultiOp(Plus, [Scalar(Exact(1.0)), Scalar(Exact(2.0))])
  {
    var xs := [Scalar(Exact(1.0)), Scalar(Exact(2.0))];
    var ys := seq(|xs|, i requires 0 <= i < |xs| => Compose(env, xs[i], s));
    assert ys == xs;
    SpliceNoMerge(Plus, xs);
  }

  /** For arity 0 and 1, a composed MultiOp is reduce() of the node over the
      composed operands. */
  lemma ComposeSmallMultiOpIsReduce(env: Env, op: Op, xs: seq<Expr>, s: Bindings)
    requires |xs| <= 1
    ensures Compose(env, MultiOp(op, xs), s)
         == Reduce(env, MultiOp(op, seq(|xs|, i requires 0 <= i < |xs| => Compose(env, xs[i], s))))
  {
  }

  /** With the generic expression reduce taken as the identity, reduce
      collapses one level only: a sum holding only a one-operand sum
      becomes that sum, still of arity 1. */
  lemma ReduceOneLevel(env: Env, op: Op, x: Expr)
    ensures Reduce(env, MultiOp(op, [MultiOp(op, [x])])) == MultiOp(op, [x])
  {
  }

  /** The numeric exprType of each node kind (BTM_root.js is not part of this
      model; the order is an assumption). The flatten lemmas about the order
      of a product's operands (FlattenNotIdempotent, ReflattenSwapsPair)
      depend on a Scalar ranking below a Var. */
  function KindRank(e: Expr): nat {
    match e
    case Scalar(_) => 0
    case Var(_) => 1
    case Fn(_, _, _, _) => 2
    case Unary(_, _) => 3
    case Binary(_, _, _) => 4
    case MultiOp(_, _) => 5
  }
}
