// The exact-number kernel the expression nodes carry (rational_number and
// real_number in the source; neither file is part of this model, so only the
// behaviour the core relies on is stated here).

module Options {
  datatype Option<+T> = None | Some(value: T)
}

module Numbers {

  /** A scalar's number: an exact rational (rational_number), a floating value
      (real_number, idealised as its exact value), or the NaN that a division
      by zero produces. */
  datatype Num = Exact(v: real) | Approx(v: real) | NaN

  predicate IsIntegral(x: real) {
    x == x.Floor as real
  }

  /** How create_scalar and the scalar_expr constructor read a JS number:
      an integral value becomes the rational n/1, anything else a real_number. */
  function FromJs(x: real): (n: Num)
    ensures n.Exact? <==> IsIntegral(x)
    ensures n.Approx? <==> !IsIntegral(x)
    ensures !n.NaN? && n.v == x
  {
    if IsIntegral(x) then Exact(x) else Approx(x)
  }

  /** value() >= 0 (false for NaN, as in JS) */
  predicate NonNegative(n: Num) {
    !n.NaN? && n.v >= 0.0
  }

  /** value() < 0 (false for NaN, as in JS) */
  predicate IsNegative(n: Num) {
    !n.NaN? && n.v < 0.0
  }

  /** value() == r */
  predicate ValueIs(n: Num, r: real) {
    !n.NaN? && n.v == r
  }

  /** theNumber.p < 0: only a rational has a numerator to test */
  predicate NumeratorNegative(n: Num) {
    n.Exact? && n.v < 0.0
  }

  /** equal() of the number kernel: same value; NaN equals nothing */
  predicate SameValue(a: Num, b: Num) {
    !a.NaN? && !b.NaN? && a.v == b.v
  }

  /** The result is exact only when both operands are. */
  function Lift(a: Num, b: Num, r: real): Num
    requires !a.NaN? && !b.NaN?
  {
    if a.Exact? && b.Exact? then Exact(r) else Approx(r)
  }

  function Add(a: Num, b: Num): Num {
    if a.NaN? || b.NaN? then NaN else Lift(a, b, a.v + b.v)
  }

  function Sub(a: Num, b: Num): Num {
    if a.NaN? || b.NaN? then NaN else Lift(a, b, a.v - b.v)
  }

  function Mul(a: Num, b: Num): Num {
    if a.NaN? || b.NaN? then NaN else Lift(a, b, a.v * b.v)
  }

  function Div(a: Num, b: Num): Num {
    if a.NaN? || b.NaN? || b.v == 0.0 then NaN else Lift(a, b, a.v / b.v)
  }

  /** addInverse() */
  function AddInverse(a: Num): Num {
    match a
    case Exact(x) => Exact(-x)
    case Approx(x) => Approx(-x)
    case NaN => NaN
  }

  /** multInverse() */
  function MultInverse(a: Num): Num {
    if a.NaN? || a.v == 0.0 then NaN
    else if a.Exact? then Exact(1.0 / a.v) else Approx(1.0 / a.v)
  }

  /** multiply(-1), the sign flip create_scalar applies to a negative value */
  function Negate(a: Num): Num {
    Mul(a, Exact(-1.0))
  }

  function Pow(x: real, k: nat): real {
    if k == 0 then 1.0 else x * Pow(x, k - 1)
  }

  /** multiply(-1) and addInverse() are the same operation. */
  lemma NegateIsAddInverse(a: Num)
    ensures Negate(a) == AddInverse(a)
  {
  }

  /** Flipping the sign of a negative number gives a positive one, and
      flipping twice restores the number. */
  lemma NegateNegative(a: Num)
    requires IsNegative(a)
    ensures NonNegative(Negate(a)) && !IsNegative(Negate(a))
    ensures Negate(Negate(a)) == a
  {
  }

  /** Subtracting equals adding the additive inverse, in every case
      including NaN and the exactness of the result. */
  lemma SubIsAddInverse(a: Num, b: Num)
    ensures Sub(a, b) == Add(a, AddInverse(b))
  {
  }

  /** Dividing equals multiplying by the multiplicative inverse, including
      the zero divisor (both NaN). */
  lemma DivIsMulInverse(a: Num, b: Num)
    ensures Div(a, b) == Mul(a, MultInverse(b))
  {
    if !a.NaN? && !b.NaN? && b.v != 0.0 {
      assert a.v / b.v == a.v * (1.0 / b.v);
    }
  }

  /** An integral power of a rational is computed exactly: (p/q)^k = p^k/q^k. */
  lemma {:induction false} PowOfQuotient(p: real, q: real, k: nat)
    requires q != 0.0
    ensures Pow(q, k) != 0.0
    ensures Pow(p / q, k) == Pow(p, k) / Pow(q, k)
  {
    if k > 0 {
      PowOfQuotient(p, q, k - 1);
      var a, b := Pow(p, k - 1), Pow(q, k - 1);
      assert Pow(q, k) == q * b && Pow(p, k) == p * a;
      assert Pow(p / q, k) == (p / q) * (a / b);
      QuotientProduct(p, q, a, b);
    }
  }

  lemma QuotientProduct(p: real, q: real, a: real, b: real)
    requires q != 0.0 && b != 0.0
    ensures (p / q) * (a / b) == (p * a) / (q * b)
  {
  }
}
