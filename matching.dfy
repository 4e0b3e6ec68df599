// Structural matching with associative grouping: scalar_expr.match,
// binop_expr.match, multiop_expr.match and the generic pairwise match they
// call (expression.js, not part of this model; modelled as tags agree,
// operand counts agree, operands matched left to right).

module Matching {
  import opened Options
  import opened Numbers
  import opened Expressions
  import opened Normalize

  /** The result keeps every binding the caller passed, unchanged. */
  predicate Extends(r: Bindings, b: Bindings) {
    forall k :: k in b ==> k in r && r[k] == b[k]
  }

  function VarSet(e: Expr): set<string> {
    set x | x in Occurrences(e)
  }

  function VarSetAll(xs: seq<Expr>): set<string> {
    set x | x in OccurrencesAll(xs)
  }

  /** The generic match's tag test: same node kind and the same operator or
      function name. */
  predicate SameTag(p: Expr, c: Expr) {
    match p
    case Scalar(n) => c.Scalar? && SameValue(n, c.num)
    case Var(x) => c.Var? && c.name == x
    case Unary(u, _) => c.Unary? && c.uop == u
    case Binary(op, _, _) => c.Binary? && c.op == op
    case MultiOp(op, _) => c.MultiOp? && c.op == op
    case Fn(name, k, _, _) => c.Fn? && c.name == name && c.primes == k
  }

  /** scalar_expr.match: a constant candidate that is not a Scalar matches
      when its simplified copy renders as the pattern does; a Scalar
      candidate matches when it holds an equal number. */
  function ScalarMatch(env: Env, n: Num, c: Expr, b: Bindings): (r: Option<Bindings>)
    ensures r.Some? ==> r.value == b
    ensures c.Scalar? ==> (r.Some? <==> SameValue(n, c.num))
    ensures !IsConstant(c) ==> r.None?
    ensures IsConstant(c) && !c.Scalar? ==>
      (r.Some? <==> env.render(Scalar(n)) == env.render(Simplify(env, Copy(env, c))))
  {
    if IsConstant(c) && !c.Scalar? then
      if env.render(Scalar(n)) == env.render(Simplify(env, Copy(env, c))) then Some(b) else None
    else if c.Scalar? && SameValue(n, c.num) then Some(b)
    else None
  }

  /** A pattern variable binds a candidate, or, already bound, matches a
      candidate that renders as its binding does. */
  function VarMatch(env: Env, x: string, c: Expr, b: Bindings): (r: Option<Bindings>)
    ensures x !in b ==> r == Some(b[x := c])
    ensures x in b ==> (r.Some? <==> env.render(b[x]) == env.render(c)) && (r.Some? ==> r.value == b)
  {
    if x in b then
      if env.render(b[x]) == env.render(c) then Some(b) else None
    else Some(b[x := c])
  }

  lemma {:induction false} OccurrencesOfInputs(p: Expr)
    requires !p.Var?
    ensures VarSetAll(Inputs(p)) == VarSet(p)
  {
    match p
    case Scalar(_) =>
    case Unary(_, a) =>
      assert OccurrencesAll([a]) == Occurrences(a) + OccurrencesAll([]);
    case Binary(_, a, c) =>
      assert [a, c][1..] == [c];
      assert [c][1..] == [];
      assert OccurrencesAll([c]) == Occurrences(c);
      assert OccurrencesAll([a, c]) == Occurrences(a) + (Occurrences(c) + OccurrencesAll([]));
    case MultiOp(_, _) =>
    case Fn(_, _, a, _) =>
      assert OccurrencesAll([a]) == Occurrences(a) + OccurrencesAll([]);
  }

  /** The match every node kind dispatches to. On success the caller's
      bindings are kept and only the pattern's variables are added. */
  function Match(env: Env, p: Expr, c: Expr, b: Bindings): (r: Option<Bindings>)
    ensures r.Some? ==> Extends(r.value, b) && r.value.Keys <= b.Keys + VarSet(p)
    decreases Weight(p), 2
  {
    match p
    case Scalar(n) => ScalarMatch(env, n, c, b)
    case Var(x) => VarMatch(env, x, c, b)
    case Binary(_, _, _) => BinaryMatch(env, p, c, b)
    case MultiOp(_, _) => MultiMatch(env, p, c, b)
    case Unary(_, _) => Generic(env, p, c, b)
    case Fn(_, _, _, _) => Generic(env, p, c, b)
  }

  /** The generic match: tags and operand counts agree, then the operands
      are matched pairwise, each step starting from the previous bindings. */
  function Generic(env: Env, p: Expr, c: Expr, b: Bindings): (r: Option<Bindings>)
    requires !p.Var?
    ensures r.Some? ==> Extends(r.value, b) && r.value.Keys <= b.Keys + VarSet(p)
    ensures r.Some? ==> SameTag(p, c) && |Inputs(p)| == |Inputs(c)|
    decreases Weight(p), 0
  {
    if SameTag(p, c) && |Inputs(p)| == |Inputs(c)| then
      InputsLighter(p);
      OccurrencesOfInputs(p);
      MatchSeq(env, Inputs(p), Inputs(c), b)
    else None
  }

  function MatchSeq(env: Env, ps: seq<Expr>, cs: seq<Expr>, b: Bindings): (r: Option<Bindings>)
    requires |ps| == |cs|
    ensures r.Some? ==> Extends(r.value, b) && r.value.Keys <= b.Keys + VarSetAll(ps)
    decreases WeightSum(ps), 3
  {
    if ps == [] then Some(b)
    else
      match Match(env, ps[0], cs[0], b)
      case None => None
      case Some(b1) => MatchSeq(env, ps[1..], cs[1..], b1)
  }

  /** Copies of the operands, in order. */
  function CopyAll(env: Env, xs: seq<Expr>): (ys: seq<Expr>)
    ensures |ys| == |xs|
  {
    seq(|xs|, i requires 0 <= i < |xs| => Copy(env, xs[i]))
  }

  /** binop match, first grouping: the candidate's first operand against
      the left pattern, the rest grouped into one MultiOp. */
  function SuffixPair(env: Env, op: Op, ins: seq<Expr>): Expr
    requires |ins| >= 2
  {
    Binary(op, Copy(env, ins[0]),
      if |ins| > 2 then CreateMultiOp(op, CopyAll(env, ins[1..])) else Copy(env, ins[1]))
  }

  /** binop match, second grouping: all but the last operand grouped, the
      last operand itself (not copied). */
  function PrefixPair(env: Env, op: Op, ins: seq<Expr>): Expr
    requires |ins| >= 2
  {
    Binary(op, CreateMultiOp(op, CopyAll(env, ins[..|ins| - 1])), ins[|ins| - 1])
  }

  /** binop_expr.match. */
  function BinaryMatch(env: Env, p: Expr, c: Expr, b: Bindings): (r: Option<Bindings>)
    requires p.Binary?
    ensures r.Some? ==> Extends(r.value, b) && r.value.Keys <= b.Keys + VarSet(p)
    ensures r.Some? ==> (c.MultiOp? || c.Binary?) && c.op == p.op && |Inputs(c)| >= 2
    decreases Weight(p), 1
  {
    if (c.MultiOp? || c.Binary?) && c.op == p.op && |Inputs(c)| >= 2 then
      var ins := Inputs(c);
      var first := Generic(env, p, SuffixPair(env, p.op, ins), b);
      if first.None? && |ins| > 2 then Generic(env, p, PrefixPair(env, p.op, ins), b)
      else first
    else None
  }

  /** multiop match, first grouping: the first n-1 operands one to one, the
      trailing block grouped (or all n one to one when the arities agree). */
  function SuffixGroup(env: Env, op: Op, ins: seq<Expr>, n: nat): (g: seq<Expr>)
    requires n <= |ins|
    ensures |g| == n
    ensures forall i :: 0 <= i < n && (i < n - 1 || n == |ins|) ==> g[i] == Copy(env, ins[i])
    ensures 0 < n < |ins| ==>
      g[n - 1].MultiOp? && g[n - 1].op == op && g[n - 1].inputs == Splice(op, CopyAll(env, ins[n - 1..]))
  {
    if n == 0 then []
    else if n == |ins| then CopyAll(env, ins)
    else CopyAll(env, ins[..n - 1]) + [CreateMultiOp(op, CopyAll(env, ins[n - 1..]))]
  }

  /** multiop match, second grouping: the leading block grouped, the last
      n-1 operands one to one. */
  function PrefixGroup(env: Env, op: Op, ins: seq<Expr>, n: nat): (g: seq<Expr>)
    requires n < |ins|
    ensures |g| == n
    ensures forall i :: 0 < i < n ==> g[i] == Copy(env, ins[|ins| - n + i])
    ensures 0 < n ==>
      g[0].MultiOp? && g[0].op == op && g[0].inputs == Splice(op, CopyAll(env, ins[..|ins| - n + 1]))
  {
    var diff := |ins| - n;
    if n == 0 then []
    else [CreateMultiOp(op, CopyAll(env, ins[..diff + 1]))] + CopyAll(env, ins[diff + 1..])
  }

  /** multiop_expr.match: each grouping is passed through create_multiop
      again before the generic match. */
  function MultiMatch(env: Env, p: Expr, c: Expr, b: Bindings): (r: Option<Bindings>)
    requires p.MultiOp?
    ensures r.Some? ==> Extends(r.value, b) && r.value.Keys <= b.Keys + VarSet(p)
    ensures r.Some? ==> (c.MultiOp? || c.Binary?) && c.op == p.op && |p.inputs| <= |Inputs(c)|
    decreases Weight(p), 1
  {
    var n := |p.inputs|;
    if (c.MultiOp? || c.Binary?) && c.op == p.op && n <= |Inputs(c)| then
      var ins := Inputs(c);
      var first := Generic(env, p, CreateMultiOp(c.op, SuffixGroup(env, c.op, ins, n)), b);
      if first.None? && n < |ins| then
        Generic(env, p, CreateMultiOp(c.op, PrefixGroup(env, c.op, ins, n)), b)
      else first
    else None
  }

  // ---------------------------------------------------------------------
  // Properties

  /** A copy is a same-operator MultiOp exactly when the original is. */
  lemma CopyKeepsMultiOp(env: Env, x: Expr, op: Op)
    ensures (Copy(env, x).MultiOp? && Copy(env, x).op == op) <==> (x.MultiOp? && x.op == op)
  {
  }

  lemma CopiesDoNotMerge(env: Env, op: Op, xs: seq<Expr>)
    requires forall i :: 0 <= i < |xs| ==> !(xs[i].MultiOp? && xs[i].op == op)
    ensures Splice(op, CopyAll(env, xs)) == CopyAll(env, xs)
  {
    forall i | 0 <= i < |xs|
      ensures !(CopyAll(env, xs)[i].MultiOp? && CopyAll(env, xs)[i].op == op)
    {
      CopyKeepsMultiOp(env, xs[i], op);
    }
    SpliceNoMerge(op, CopyAll(env, xs));
  }

  lemma CopyAllSplit(env: Env, xs: seq<Expr>, k: nat)
    requires k <= |xs|
    ensures CopyAll(env, xs[..k]) + CopyAll(env, xs[k..]) == CopyAll(env, xs)
  {
  }

  predicate NoSameOpOperand(op: Op, xs: seq<Expr>) {
    forall i :: 0 <= i < |xs| ==> !(xs[i].MultiOp? && xs[i].op == op)
  }

  /** Both slices of a list without same-operator MultiOps are without them. */
  lemma NoSameOpSlices(op: Op, ins: seq<Expr>, k: nat)
    requires k <= |ins| && NoSameOpOperand(op, ins)
    ensures NoSameOpOperand(op, ins[..k]) && NoSameOpOperand(op, ins[k..])
  {
    assert forall i :: 0 <= i < k ==> ins[..k][i] == ins[i];
    assert forall i :: 0 <= i < |ins| - k ==> ins[k..][i] == ins[k + i];
  }

  /** Re-splicing the first grouping gives back copies of all the
      candidate's operands, in order. */
  lemma SuffixGroupRespliced(env: Env, op: Op, ins: seq<Expr>, n: nat)
    requires 1 <= n < |ins| && NoSameOpOperand(op, ins)
    ensures Splice(op, SuffixGroup(env, op, ins, n)) == CopyAll(env, ins)
  {
    var lo, hi := ins[..n - 1], ins[n - 1..];
    NoSameOpSlices(op, ins, n - 1);
    CopiesDoNotMerge(env, op, lo);
    CopiesDoNotMerge(env, op, hi);
    var g := CreateMultiOp(op, CopyAll(env, hi));
    assert SuffixGroup(env, op, ins, n) == CopyAll(env, lo) + [g];
    SpliceSnoc(op, CopyAll(env, lo), g);
    CopyAllSplit(env, ins, n - 1);
  }

  /** Re-splicing the second grouping gives back copies of all the
      candidate's operands, in order. */
  lemma PrefixGroupRespliced(env: Env, op: Op, ins: seq<Expr>, n: nat)
    requires 1 <= n < |ins| && NoSameOpOperand(op, ins)
    ensures Splice(op, PrefixGroup(env, op, ins, n)) == CopyAll(env, ins)
  {
    var diff := |ins| - n;
    var lo, hi := ins[..diff + 1], ins[diff + 1..];
    NoSameOpSlices(op, ins, diff + 1);
    CopiesDoNotMerge(env, op, lo);
    CopiesDoNotMerge(env, op, hi);
    var h := CreateMultiOp(op, CopyAll(env, lo));
    var xs := CopyAll(env, hi);
    assert PrefixGroup(env, op, ins, n) == [h] + xs;
    SpliceCons(op, h, xs);
    assert Piece(op, h) == CopyAll(env, lo);
    CopyAllSplit(env, ins, diff + 1);
  }

  /** Quirk of the source: a MultiOp pattern with n >= 1 operands never
      matches a candidate with more operands (none of them itself a
      same-operator MultiOp), because create_multiop splices the grouped
      block back in and the operand counts differ again. */
  lemma MultiOpGroupingUndone(env: Env, p: Expr, c: Expr, b: Bindings)
    requires p.MultiOp? && c.MultiOp? && c.op == p.op
    requires 1 <= |p.inputs| < |c.inputs| && NoSameOpOperand(c.op, c.inputs)
    ensures MultiMatch(env, p, c, b).None?
  {
    var n := |p.inputs|;
    SuffixGroupRespliced(env, c.op, c.inputs, n);
    PrefixGroupRespliced(env, c.op, c.inputs, n);
    assert |CopyAll(env, c.inputs)| == |c.inputs|;
    var g1 := CreateMultiOp(c.op, SuffixGroup(env, c.op, c.inputs, n));
    var g2 := CreateMultiOp(c.op, PrefixGroup(env, c.op, c.inputs, n));
    assert |Inputs(g1)| != |Inputs(p)| && |Inputs(g2)| != |Inputs(p)|;
    assert Generic(env, p, g1, b).None? && Generic(env, p, g2, b).None?;
  }

  /** An empty MultiOp pattern matches every candidate with its operator:
      the first grouping is empty and the operand counts agree. */
  lemma EmptyMultiOpPatternMatches(env: Env, op: Op, c: Expr, b: Bindings)
    requires (c.MultiOp? || c.Binary?) && c.op == op
    ensures MultiMatch(env, MultiOp(op, []), c, b) == Some(b)
  {
    var p := MultiOp(op, []);
    assert SuffixGroup(env, op, Inputs(c), 0) == [];
    assert Splice(op, []) == [];
    assert Generic(env, p, MultiOp(op, []), b) == MatchSeq(env, [], [], b);
  }

  /** By contrast binop match keeps its grouping: x + y against a sum of
      three or more binds x to a copy of the first operand and y to the
      MultiOp of copies of the rest. */
  lemma BinaryKeepsGrouping(env: Env, op: Op, x: string, y: string, cs: seq<Expr>)
    requires x != y && |cs| >= 3
    ensures BinaryMatch(env, Binary(op, Var(x), Var(y)), MultiOp(op, cs), map[])
         == Some(map[x := Copy(env, cs[0]), y := CreateMultiOp(op, CopyAll(env, cs[1..]))])
  {
    var a := Copy(env, cs[0]);
    var g := CreateMultiOp(op, CopyAll(env, cs[1..]));
    var p, c := Binary(op, Var(x), Var(y)), MultiOp(op, cs);
    assert Inputs(c) == cs;
    assert SuffixPair(env, op, cs) == Binary(op, a, g);
    PairOfVariables(env, op, x, y, a, g);
    FirstGroupingMatches(env, p, c, map[]);
  }

  /** binop match keeps its first grouping when that one matches. */
  lemma FirstGroupingMatches(env: Env, p: Expr, c: Expr, b: Bindings)
    requires p.Binary? && (c.MultiOp? || c.Binary?) && c.op == p.op && |Inputs(c)| >= 2
    requires Generic(env, p, SuffixPair(env, p.op, Inputs(c)), b).Some?
    ensures BinaryMatch(env, p, c, b) == Generic(env, p, SuffixPair(env, p.op, Inputs(c)), b)
  {
  }

  /** x op y against l op r binds x to l and y to r. */
  lemma PairOfVariables(env: Env, op: Op, x: string, y: string, l: Expr, r: Expr)
    requires x != y
    ensures Generic(env, Binary(op, Var(x), Var(y)), Binary(op, l, r), map[]) == Some(map[x := l, y := r])
  {
    var m1: Bindings := map[x := l];
    assert Match(env, Var(x), l, map[]) == Some(m1);
    assert Match(env, Var(y), r, m1) == Some(m1[y := r]);
    assert [Var(x), Var(y)][1..] == [Var(y)];
    assert [l, r][1..] == [r];
    assert MatchSeq(env, [Var(y)], [r], m1) == Some(m1[y := r]);
  }

  /** A Binary candidate has two operands: no second grouping is tried. */
  lemma BinaryAgainstBinary(env: Env, p: Expr, l: Expr, r: Expr, b: Bindings)
    requires p.Binary?
    ensures BinaryMatch(env, p, Binary(p.op, l, r), b)
         == Generic(env, p, Binary(p.op, Copy(env, l), Copy(env, r)), b)
  {
  }

  /** A candidate with another operator, or fewer than two operands, never
      matches a Binary pattern; one with another operator or fewer operands
      never matches a MultiOp pattern. */
  lemma OperatorMismatchFails(env: Env, p: Expr, c: Expr, b: Bindings)
    requires p.Binary? || p.MultiOp?
    requires !((c.MultiOp? || c.Binary?) && c.op == p.op)
    ensures Match(env, p, c, b).None?
  {
  }

  /** Commutativity is only a flag: x + n does not match n + y, and no
      swapped order is tried. */
  lemma NoCommutativeRetry(env: Env, x: string, y: string, n: Num)
    ensures BinaryMatch(env, Binary(Plus, Var(x), Scalar(n)), Binary(Plus, Scalar(n), Var(y)), map[]).None?
  {
    var p := Binary(Plus, Var(x), Scalar(n));
    var a := Copy(env, Scalar(n));
    var m1: Bindings := map[x := a];
    assert Match(env, Var(x), a, map[]) == Some(m1);
    assert !IsConstant(Var(y));
    assert Match(env, Scalar(n), Var(y), m1).None?;
    assert [Var(x), Scalar(n)][1..] == [Scalar(n)];
    assert [a, Var(y)][1..] == [Var(y)];
    assert MatchSeq(env, [Scalar(n)], [Var(y)], m1).None?;
    assert MatchSeq(env, [Var(x), Scalar(n)], [a, Var(y)], map[]).None?;
    assert SuffixPair(env, Plus, [Scalar(n), Var(y)]) == Binary(Plus, a, Var(y));
    assert Generic(env, p, Binary(Plus, a, Var(y)), map[]).None?;
  }

  /** The documented promise that a pattern matches each of its instances
      does not hold of the code: compose folds x + y under x = 1, y = 2 to
      the Scalar 3, and a Binary pattern never matches a Scalar. */
  lemma InstanceOfPatternCanFail(env: Env, x: string, y: string)
    requires x != y
    ensures var p := Binary(Plus, Var(x), Var(y));
      var s := map[x := Scalar(Exact(1.0)), y := Scalar(Exact(2.0))];
      Match(env, p, Compose(env, p, s), map[]).None?
  {
    var p := Binary(Plus, Var(x), Var(y));
    var s := map[x := Scalar(Exact(1.0)), y := Scalar(Exact(2.0))];
    assert IsNumberLike(Compose(env, p, s));
  }

  /** The promise holds for a pattern of two distinct variables whenever
      compose does not fold the instance: each variable is bound to a copy
      of what it was bound to. */
  lemma PairPatternMatchesInstance(env: Env, op: Op, x: string, y: string, l: Expr, r: Expr)
    requires x != y && !(l.Scalar? && r.Scalar? && op in {Plus, Minus, Times, Divide})
    ensures var p := Binary(op, Var(x), Var(y));
      Match(env, p, Compose(env, p, map[x := l, y := r]), map[]) == Some(map[x := Copy(env, l), y := Copy(env, r)])
  {
    var p := Binary(op, Var(x), Var(y));
    assert Compose(env, p, map[x := l, y := r]) == Binary(op, l, r);
    BinaryAgainstBinary(env, p, l, r, map[]);
    PairOfVariables(env, op, x, y, Copy(env, l), Copy(env, r));
  }
}
