// The derivative cache of a user-defined function: the entry the
// evaluator keeps per function name, whose value array holds the function's
// expression followed by its successive derivatives, extended on demand
// inside function_expr.evaluate.

module FunctionCache {
  import opened Options
  import opened Expressions
  import opened Derivatives

  /** The list vs extended, each new entry the derivative of the one before
      it, until it has an entry for order derivs; None when a derivative is
      undefined on the way. */
  function Extended(env: Env, vs: seq<Expr>, x: string, derivs: nat): (r: Option<seq<Expr>>)
    requires |vs| >= 1
    ensures r.Some? ==> |r.value| == if derivs < |vs| then |vs| else derivs + 1
    ensures r.Some? ==> r.value[..|vs|] == vs
    ensures r.Some? ==> forall i :: |vs| <= i < |r.value| ==> Deriv(env, r.value[i - 1], x) == Some(r.value[i])
    decreases derivs + 1 - |vs|
  {
    if derivs < |vs| then Some(vs)
    else
      var d := Deriv(env, vs[|vs| - 1], x);
      if d.None? then None
      else
        var r := Extended(env, vs + [d.value], x, derivs);
        if r.Some? then
          PrefixOfSnoc(r.value, vs, d.value);
          r
        else r
  }

  /** A list that starts with vs + [v] starts with vs and has v next. */
  lemma PrefixOfSnoc<T>(s: seq<T>, vs: seq<T>, v: T)
    requires |s| > |vs| && s[..|vs| + 1] == vs + [v]
    ensures s[..|vs|] == vs && s[|vs|] == v
    ensures |vs| > 0 ==> s[|vs| - 1] == vs[|vs| - 1]
  {
    assert s[..|vs|] == s[..|vs| + 1][..|vs|];
  }

  /** functionEntry: the name of the function's input variable and the
      expressions of its derivatives of order 0, 1, ... computed so far. */
  class FunctionEntry {
    var input: string
    var value: seq<Expr>

    constructor(input: string, f: Expr)
      ensures this.input == input && value == [f]
    {
      this.input := input;
      value := [f];
    }

    /** The cache step of evaluate for a call with derivs primes: extend
        value up to that order when it is too short, and give the entry to
        evaluate. An undefined derivative leaves None and the entries
        computed before it. */
    method Lookup(env: Env, derivs: nat) returns (r: Option<Expr>)
      requires |value| >= 1
      modifies this
      ensures input == old(input)
      ensures var e := Extended(env, old(value), input, derivs);
        (e.Some? ==> value == e.value && r == Some(value[derivs])) &&
        (e.None? ==> r.None? && |old(value)| <= |value| <= derivs && value[..|old(value)|] == old(value))
    {
      if derivs >= |value| {
        var i := |value|;
        while i <= derivs
          invariant input == old(input)
          invariant |old(value)| <= i == |value| <= derivs + 1
          invariant value[..|old(value)|] == old(value)
          invariant Extended(env, value, input, derivs) == Extended(env, old(value), input, derivs)
        {
          var d := Deriv(env, value[i - 1], input);
          if d.None? {
            return None;
          }
          value := value + [d.value];
          i := i + 1;
        }
      }
      r := Some(value[derivs]);
    }
  }

  /** Each new entry is the derivative, of the order its position says, of
      the last entry the cache held before. */
  lemma {:induction false} ExtendedIsIterated(env: Env, vs: seq<Expr>, x: string, derivs: nat)
    requires |vs| >= 1 && Extended(env, vs, x, derivs).Some?
    ensures forall i :: |vs| <= i < |Extended(env, vs, x, derivs).value| ==>
      IterDeriv(env, vs[|vs| - 1], x, i - |vs| + 1) == Some(Extended(env, vs, x, derivs).value[i])
  {
    var r := Extended(env, vs, x, derivs).value;
    forall i | |vs| <= i < |r|
      ensures IterDeriv(env, vs[|vs| - 1], x, i - |vs| + 1) == Some(r[i])
    {
      IteratedAt(env, vs, x, derivs, r, i);
    }
  }

  lemma {:induction false} IteratedAt(env: Env, vs: seq<Expr>, x: string, derivs: nat, r: seq<Expr>, i: nat)
    requires |vs| >= 1 && Extended(env, vs, x, derivs) == Some(r)
    requires |vs| - 1 <= i < |r|
    ensures IterDeriv(env, vs[|vs| - 1], x, i - |vs| + 1) == Some(r[i])
  {
    if i > |vs| - 1 {
      IteratedAt(env, vs, x, derivs, r, i - 1);
    }
  }

  /** A request no higher than what is cached leaves the cache as it is. */
  lemma CachedOrderUnchanged(env: Env, vs: seq<Expr>, x: string, derivs: nat)
    requires |vs| >= 1 && derivs < |vs|
    ensures Extended(env, vs, x, derivs) == Some(vs)
  {
  }

  /** Extending to one order and then to a higher one is extending to the
      higher one directly. */
  lemma {:induction false} ExtendTwice(env: Env, vs: seq<Expr>, x: string, m: nat, n: nat)
    requires |vs| >= 1 && m <= n && Extended(env, vs, x, m).Some?
    ensures Extended(env, Extended(env, vs, x, m).value, x, n) == Extended(env, vs, x, n)
    decreases n + 1 - |vs|
  {
    if m >= |vs| {
      var d := Deriv(env, vs[|vs| - 1], x);
      ExtendTwice(env, vs + [d.value], x, m, n);
    }
  }
}
