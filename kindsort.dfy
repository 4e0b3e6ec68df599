// The exchange sort multiop_expr.flatten runs over the operands of a
// product: every pair (i, j) with i < j is compared once, in order, and
// swapped when the earlier operand has the higher node kind.

module KindSort {
  import opened Expressions

  predicate SortedByKind(s: seq<Expr>) {
    forall a, b :: 0 <= a < b < |s| ==> KindRank(s[a]) <= KindRank(s[b])
  }

  /** One comparison: swap positions i and j when s[i] has the higher kind. */
  function SwapIf(s: seq<Expr>, i: nat, j: nat): (r: seq<Expr>)
    requires i < j < |s|
    ensures |r| == |s|
  {
    if KindRank(s[i]) > KindRank(s[j]) then s[i := s[j]][j := s[i]] else s
  }

  /** The inner loop for a fixed i, from j up to the end. */
  function InnerPass(s: seq<Expr>, i: nat, j: nat): (r: seq<Expr>)
    requires i < j <= |s|
    ensures |r| == |s|
    decreases |s| - j
  {
    if j == |s| then s else InnerPass(SwapIf(s, i, j), i, j + 1)
  }

  /** The outer loop from i on; it stops once i reaches the last position. */
  function OuterPass(s: seq<Expr>, i: nat): (r: seq<Expr>)
    requires i <= |s|
    ensures |r| == |s|
    decreases |s| - i
  {
    if i + 1 >= |s| then s else OuterPass(InnerPass(s, i, i + 1), i + 1)
  }

  function ExchangeSort(s: seq<Expr>): (r: seq<Expr>)
    ensures |r| == |s|
  {
    OuterPass(s, 0)
  }

  /** The sort of flatten, in place on the operand array. */
  method SortByKind(a: array<Expr>)
    modifies a
    ensures a[..] == ExchangeSort(old(a[..]))
  {
    var n := a.Length;
    var i := 0;
    while i < n - 1
      invariant 0 <= i <= n
      invariant OuterPass(a[..], i) == ExchangeSort(old(a[..]))
    {
      SweepFrom(a, i);
      i := i + 1;
    }
  }

  /** The inner loop for one i: compare a[i] with every later element,
      swapping when the later one has the lower kind. */
  method SweepFrom(a: array<Expr>, i: nat)
    requires i + 1 < a.Length
    modifies a
    ensures a[..] == InnerPass(old(a[..]), i, i + 1)
  {
    var j := i + 1;
    while j < a.Length
      invariant i < j <= a.Length
      invariant InnerPass(a[..], i, j) == InnerPass(old(a[..]), i, i + 1)
    {
      ghost var before := a[..];
      if KindRank(a[i]) > KindRank(a[j]) {
        var tmp := a[i];
        a[i] := a[j];
        a[j] := tmp;
      }
      assert a[..] == SwapIf(before, i, j);
      j := j + 1;
    }
  }

  // ---------------------------------------------------------------------
  // The sort's result is ordered by kind and is a permutation of its input.

  lemma SwapIfPermutes(s: seq<Expr>, i: nat, j: nat)
    requires i < j < |s|
    ensures multiset(SwapIf(s, i, j)) == multiset(s)
    ensures SwapIf(s, i, j)[..i] == s[..i]
  {
  }

  lemma InnerPassPermutes(s: seq<Expr>, i: nat, j: nat)
    requires i < j <= |s|
    ensures multiset(InnerPass(s, i, j)) == multiset(s)
    ensures InnerPass(s, i, j)[..i] == s[..i]
  {
    InnerPassMultiset(s, i, j);
    InnerPassKeepsFront(s, i, j);
  }

  /** b holds the operands of a, each as often. */
  predicate Permutes(a: seq<Expr>, b: seq<Expr>) {
    multiset(a) == multiset(b)
  }

  /** Permutation is transitive. */
  lemma PermutesTrans(a: seq<Expr>, b: seq<Expr>, c: seq<Expr>)
    requires Permutes(a, b) && Permutes(b, c)
    ensures Permutes(a, c)
  {
  }

  /** The inner loop only swaps, so it keeps every operand. */
  lemma {:induction false} InnerPassMultiset(s: seq<Expr>, i: nat, j: nat)
    requires i < j <= |s|
    ensures Permutes(InnerPass(s, i, j), s)
    decreases |s| - j
  {
    if j < |s| {
      var t := InnerPassStep(s, i, j);
      InnerPassMultiset(t, i, j + 1);
      PermutesTrans(InnerPass(t, i, j + 1), t, s);
    }
  }

  /** The first comparison of the inner loop: it swaps or not, and the rest
      of the loop runs on the result. */
  lemma InnerPassStep(s: seq<Expr>, i: nat, j: nat) returns (t: seq<Expr>)
    requires i < j < |s|
    ensures |t| == |s| && Permutes(t, s)
    ensures InnerPass(s, i, j) == InnerPass(t, i, j + 1)
  {
    t := SwapIf(s, i, j);
    SwapIfPermutes(s, i, j);
  }

  /** The inner loop for i never touches positions before i. */
  lemma {:induction false} InnerPassKeepsFront(s: seq<Expr>, i: nat, j: nat)
    requires i < j <= |s|
    ensures InnerPass(s, i, j)[..i] == s[..i]
    decreases |s| - j
  {
    if j < |s| {
      SwapIfPermutes(s, i, j);
      InnerPassKeepsFront(SwapIf(s, i, j), i, j + 1);
    }
  }

  lemma {:induction false} OuterPassPermutes(s: seq<Expr>, i: nat)
    requires i <= |s|
    ensures multiset(OuterPass(s, i)) == multiset(s)
    decreases |s| - i
  {
    if i + 1 < |s| {
      InnerPassPermutes(s, i, i + 1);
      OuterPassPermutes(InnerPass(s, i, i + 1), i + 1);
    }
  }

  /** The sorted operands are the same operands, each as often. */
  lemma ExchangeSortPermutes(s: seq<Expr>)
    ensures multiset(ExchangeSort(s)) == multiset(s)
  {
    OuterPassPermutes(s, 0);
  }

  /** The inner pass for i leaves the positions before i alone. */
  lemma {:induction false} InnerPassKeepsPrefix(s: seq<Expr>, i: nat, j: nat)
    requires i < j <= |s|
    ensures forall k :: 0 <= k < i ==> InnerPass(s, i, j)[k] == s[k]
    decreases |s| - j
  {
    if j < |s| {
      InnerPassKeepsPrefix(SwapIf(s, i, j), i, j + 1);
    }
  }

  /** The inner pass keeps any lower bound on the kinds from position i on. */
  lemma {:induction false} InnerPassBound(s: seq<Expr>, i: nat, j: nat, bound: nat)
    requires i < j <= |s|
    requires forall k :: i <= k < |s| ==> bound <= KindRank(s[k])
    ensures forall k :: i <= k < |s| ==> bound <= KindRank(InnerPass(s, i, j)[k])
    decreases |s| - j
  {
    if j < |s| {
      InnerPassBound(SwapIf(s, i, j), i, j + 1, bound);
    }
  }

  /** After the inner pass for i, position i holds a lowest kind of s[i..]. */
  lemma {:induction false} InnerPassMinimum(s: seq<Expr>, i: nat, j: nat)
    requires i < j <= |s|
    requires forall k :: i < k < j ==> KindRank(s[i]) <= KindRank(s[k])
    ensures forall k :: i < k < |s| ==> KindRank(InnerPass(s, i, j)[i]) <= KindRank(InnerPass(s, i, j)[k])
    decreases |s| - j
  {
    if j < |s| {
      InnerPassMinimum(SwapIf(s, i, j), i, j + 1);
    }
  }

  /** The outer loop's invariant: the prefix is sorted and no kind in it is
      above any kind after it. */
  predicate PrefixPlaced(s: seq<Expr>, i: nat)
    requires i <= |s|
  {
    SortedByKind(s[..i]) &&
    forall a, b :: 0 <= a < i <= b < |s| ==> KindRank(s[a]) <= KindRank(s[b])
  }

  lemma {:induction false} OuterPassSorts(s: seq<Expr>, i: nat)
    requires i <= |s| && PrefixPlaced(s, i)
    ensures SortedByKind(OuterPass(s, i))
    decreases |s| - i
  {
    if i + 1 >= |s| {
      PlacedIsSorted(s, i);
    } else {
      PassPlacesNext(s, i);
      OuterPassSorts(InnerPass(s, i, i + 1), i + 1);
    }
  }

  /** Once at most one element is left unplaced, the sequence is sorted. */
  lemma PlacedIsSorted(s: seq<Expr>, i: nat)
    requires i <= |s| && i + 1 >= |s| && PrefixPlaced(s, i)
    ensures SortedByKind(s)
  {
    forall a, b | 0 <= a < b < |s|
      ensures KindRank(s[a]) <= KindRank(s[b])
    {
      if b < i {
        assert s[a] == s[..i][a] && s[b] == s[..i][b];
      }
    }
  }

  /** One inner pass extends the placed prefix by one. */
  lemma PassPlacesNext(s: seq<Expr>, i: nat)
    requires i + 1 < |s| && PrefixPlaced(s, i)
    ensures PrefixPlaced(InnerPass(s, i, i + 1), i + 1)
  {
    var r := InnerPass(s, i, i + 1);
    InnerPassKeepsPrefix(s, i, i + 1);
    InnerPassMinimum(s, i, i + 1);
    if i > 0 {
      InnerPassBound(s, i, i + 1, KindRank(s[i - 1]));
    }
    forall a, b | 0 <= a < i + 1 <= b < |r|
      ensures KindRank(r[a]) <= KindRank(r[b])
    {
      if a < i - 1 {
        assert s[a] == s[..i][a] && s[i - 1] == s[..i][i - 1];
      }
    }
    var pre := r[..i + 1];
    forall a, b | 0 <= a < b < i + 1
      ensures KindRank(pre[a]) <= KindRank(pre[b])
    {
      if b < i {
        assert s[a] == s[..i][a] && s[b] == s[..i][b];
      }
    }
  }

  /** The operands come out in non-decreasing kind order. */
  lemma ExchangeSortSorts(s: seq<Expr>)
    ensures SortedByKind(ExchangeSort(s))
  {
    OuterPassSorts(s, 0);
  }

  lemma {:induction false} InnerPassKeepsSorted(s: seq<Expr>, i: nat, j: nat)
    requires i < j <= |s| && SortedByKind(s)
    ensures InnerPass(s, i, j) == s
    decreases |s| - j
  {
    if j < |s| {
      InnerPassKeepsSorted(s, i, j + 1);
    }
  }

  lemma {:induction false} OuterPassKeepsSorted(s: seq<Expr>, i: nat)
    requires i <= |s| && SortedByKind(s)
    ensures OuterPass(s, i) == s
    decreases |s| - i
  {
    if i + 1 < |s| {
      InnerPassKeepsSorted(s, i, i + 1);
      OuterPassKeepsSorted(s, i + 1);
    }
  }

  /** Operands already in kind order are left exactly where they are. */
  lemma ExchangeSortKeepsSorted(s: seq<Expr>)
    requires SortedByKind(s)
    ensures ExchangeSort(s) == s
  {
    OuterPassKeepsSorted(s, 0);
  }
}
