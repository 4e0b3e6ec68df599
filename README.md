# BTM symbolic kernel in Dafny

This project models the symbolic-algebra kernel of BTM (the menv
JavaScript library), and proves properties of that model. BTM parses
formulas into expression trees. The kernel covers five parts:

- the four tree node kinds: `scalar_expr`, `binop_expr`, `multiop_expr`
  and `function_expr`;
- the rule registry of `reductions.js`, a list of rewrite identities that
  can be matched against a tree.

The model covers these operations:

- `create_scalar` and `create_multiop`;
- `simplifyConstants` (constant folding and the identity table);
- `flatten` (turning binary `+ - * /` chains into n-ary nodes, with the
  exchange sort of product operands by node kind);
- `match` (structural matching with the two operand groupings);
- `derivative` (sum, product, quotient and power rules, the function
  table and the chain rule);
- the derivative cache that `function_expr.evaluate` keeps for a
  user-defined function;
- `newRule`, `disableRule` and `findMatchRules`, and the three default
  rule tables.

The files are:

- `numbers.dfy`: `Options` (an `Option` type) and `Numbers`. The number
  kernel: `Exact` stands for `rational_number`, `Approx` for
  `real_number`, and `NaN` for a division by zero.
- `expressions.dfy`: `Expressions`. The tree as one datatype, the
  environment, `create_scalar`, `create_multiop`, the `function_expr`
  constructor's name handling, `dependencies`, `copy`, `compose` and
  `reduce`.
- `kindsort.dfy`: `KindSort`. The in-place exchange sort of flatten,
  over an array.
- `normalize.dfy`: `Normalize`. `simplifyConstants` and `flatten`.
- `matching.dfy`: `Matching`. `match`.
- `derivatives.dfy`: `Derivatives`. `derivative`, and the alternate form
  the `function_expr` constructor precomputes.
- `functioncache.dfy`: `FunctionCache`. The derivative cache.
- `reductions.dfy`: `Reductions` (identities, matches, the registry) and
  `DefaultRules` (the three default tables).

Where the code does something other than what its comments or names
lead one to expect, the model follows the code. Lemmas then exhibit the
difference:

- One might expect `flatten` to be idempotent, but re-flattening a
  product can reorder it: `Normalize.FlattenNotIdempotent`.
- The comment above binop `match` (src/binop_expr.js:702) names the
  possibility of commuting as something the match deals with, but there
  is no retry with the operands swapped: `Matching.NoCommutativeRetry`.
- `binop` flatten of `a - (b + c)` does not negate `b` and `c`; the
  branch that would do so cannot be reached:
  `Normalize.SubtractingSumIsNotNegated`.
- The grouping `multiop` match builds is spliced back in by
  `create_multiop`: `Matching.MultiOpGroupingUndone`.
- The duplicate check in `newRule` never rejects anything:
  `Reductions.DuplicateCheckNeverFires`.
- binop `compose` folds two Scalar operands, but multiop `compose` never
  folds constants; a MultiOp is only collapsed for arity 0 or 1:
  `Expressions.ComposeSumNotFolded`.
- One might expect a pattern to match each of its instances, but compose
  can fold the instance into a Scalar that the pattern no longer matches:
  `Matching.InstanceOfPatternCanFail`.
- `root` is a builtin name without a row in the derivative table. Its
  default row builds `root'`, and the constructor of a primed builtin
  differentiates the unprimed one again, so d/dx root(u) and the
  construction of any primed root recurse without bound (in JavaScript,
  a stack-overflow RangeError):
  `Derivatives.PrimedRootNeverReturns`. The model gives `None` there.

## Model

| member | source | states |
|---|---|---|
| Numbers.FromJs | src/scalar_expr.js:24-29 | a whole JS number becomes an exact rational, any other number a real; its value is kept |
| Numbers.NegateNegative | src/scalar_expr.js:38-42 | multiplying a negative number by -1 gives a non-negative number, and doing it twice gives the number back |
| Numbers.NegateIsAddInverse | src/scalar_expr.js:41 | multiply(-1) and addInverse agree |
| Numbers.SubIsAddInverse | src/multiop_expr.js:372-373 | subtracting b is adding the additive inverse of b |
| Numbers.DivIsMulInverse | src/multiop_expr.js:396-397 | dividing by b is multiplying by the inverse of b, including the zero divisor |
| Numbers.PowOfQuotient | src/binop_expr.js:450-455 | (p/q)^k is p^k / q^k, and q^k is not zero |
| Expressions.Precedence | src/binop_expr.js:36-63 | + and - share the add/sub class, * and / the mult/div class, and an unknown operator gets none |
| Expressions.BinaryConstructorClasses | src/binop_expr.js:36-63 | the boolean operators get the conjunction, disjunction or equality class; the commutative operators are arithmetic |
| Expressions.CreateScalar | src/scalar_expr.js:38-44 | the node reads back as the given number; with negative literals off no negative Scalar is built, and a negative number becomes '-' around its magnitude |
| Expressions.SpliceInputs | src/multiop_expr.js:21-31 | the create_multiop loop builds exactly the spliced operand list |
| Expressions.SpliceAppend | src/multiop_expr.js:23-29 | splicing a concatenation splices each part in order |
| Expressions.SpliceCons | src/multiop_expr.js:23-29 | the first input contributes its operands (if it is a same-operator MultiOp) or itself, ahead of the rest |
| Expressions.SpliceNoMerge | src/multiop_expr.js:23-29 | without a same-operator MultiOp among the inputs, the list is kept as given |
| Expressions.SpliceOneLevel | src/multiop_expr.js:24-25 | splicing goes one level deep only |
| Expressions.IndexOfPrime | src/function_expr.js:27 | the index of the first prime, or -1 exactly when there is none |
| Expressions.MakeFunction | src/function_expr.js:26-75 | the name is renamed and stripped of its primes, the primes are counted, and builtin holds exactly for the known names |
| Expressions.PrimeFreeParse | src/function_expr.js:26-34 | a name followed by k primes parses back to that name and k |
| Expressions.LeadingPrimeNotCounted | src/function_expr.js:29-34 | a prime at position 0 is not counted as a derivative |
| Expressions.RenameIdempotent | src/function_expr.js:44-54 | renaming twice is renaming once |
| Expressions.MakeFunctionRoundTrip | src/function_expr.js:92-94 | rebuilding a function from getName() gives the same name, primes and builtin flag |
| Expressions.AddPrime | src/function_expr.js:609-611 | getName() followed by one more prime builds the same function with one more derivative |
| Expressions.ConstantIffNoDependencies | src/scalar_expr.js:98-104 | a tree is constant exactly when it has no dependencies, and a scalar is constant |
| Expressions.Reduce | src/multiop_expr.js:319-337 | with `expression.prototype.reduce` taken to return the node unchanged: afterwards no MultiOp of arity 0 or 1 is left unless the only operand was one; an empty MultiOp becomes a constant that reads back as the operator's identity, a one-operand MultiOp its operand, anything else is kept |
| Expressions.ReduceOneLevel | src/multiop_expr.js:319-337 | with `expression.prototype.reduce` taken to return the node unchanged, reduce collapses one level only: a MultiOp holding only a one-operand MultiOp of the same operator becomes that node, still of arity 1 |
| Expressions.OccurrencesSplice | src/multiop_expr.js:21-31 | create_multiop keeps every variable occurrence of its inputs, in order |
| Expressions.CopyKeepsOccurrences | src/multiop_expr.js:493-499 | a copy has the same variable occurrences in the same order, and so the same dependencies (copy of every node kind: scalar_expr.js:126-128, binop_expr.js:757-761, function_expr.js:520-522) |
| Expressions.ComposeOccurrences | src/multiop_expr.js:501-517 | compose is substitution: the result's occurrences are the original's with each bound variable replaced by its binding's occurrences, in order (compose of every node kind: scalar_expr.js:130-132, binop_expr.js:763-785, function_expr.js:524-526) |
| Expressions.ComposeClosesTerm | src/binop_expr.js:763-785 | binding every variable to a constant tree gives a constant tree, and a variable left unbound still occurs in the result |
| Expressions.CopyAndComposeKeepName | src/function_expr.js:520-526 | copy and compose of a function node keep its name, prime count and builtin flag |
| Expressions.ComposeEmptyIsCopy | src/multiop_expr.js:493-517 | compose with no bindings equals copy on every tree without an arithmetic Binary of two Scalars or a MultiOp of arity 0 or 1 |
| Expressions.ComposeBinary | src/binop_expr.js:763-785 | a composed Binary folds exactly when both composed operands are Scalars and the operator is + - * / ('^' never folds); the folded node reads back as the exact result |
| Expressions.ComposeMultiOp | src/multiop_expr.js:501-517 | a composed MultiOp reads back as the operator's identity for no operands, is the composed operand for one, and is a MultiOp with the same operator otherwise |
| Expressions.ComposeSumNotFolded | src/multiop_expr.js:501-517 | a composed MultiOp never folds its constants: 1 + 2 stays a sum of two Scalars |
| Expressions.ComposeSmallMultiOpIsReduce | src/multiop_expr.js:501-517 | for arity 0 and 1, compose of a MultiOp is reduce of the node over the composed operands |
| KindSort.SortByKind | src/multiop_expr.js:298-311 | the array ends up holding the exchange sort of its old contents |
| KindSort.SweepFrom | src/multiop_expr.js:303-309 | the inner loop performs one pass, comparing position i with every later one |
| KindSort.InnerPassMinimum | src/multiop_expr.js:303-309 | after the pass for i, position i holds a lowest-ranked operand of the rest |
| KindSort.ExchangeSortPermutes | src/multiop_expr.js:298-311 | the sort is a permutation |
| KindSort.ExchangeSortSorts | src/multiop_expr.js:298-311 | the result is ordered by node kind |
| KindSort.ExchangeSortKeepsSorted | src/multiop_expr.js:298-311 | an already ordered list is left as it is |
| Normalize.FoldBinary | src/binop_expr.js:434-457 | + - * / always fold; '^' folds exactly for a rational base and a positive whole rational exponent; other operators never fold |
| Normalize.PowerFoldIsQuotientOfPowers | src/binop_expr.js:450-455 | the folded power of p/q is p^k / q^k |
| Normalize.EmitFolded | src/binop_expr.js:458-464 | both ways of emitting a folded number give create_scalar's node |
| Normalize.SimplifyScalarIsCreateScalar | src/scalar_expr.js:107-116 | a simplified Scalar is what create_scalar builds, and obeys the negative-literal policy |
| Normalize.SimplifyBinaryFolds | src/binop_expr.js:405-464 | two constant operands fold to one node that reads back as the exact result and obeys the negative-literal policy |
| Normalize.SimplifyPowerFold | src/binop_expr.js:450-464 | a constant power folds to the exact power when allowed, and is kept otherwise |
| Normalize.SimplifyOtherOpsKeep | src/binop_expr.js:405-464 | boolean and unknown operators never fold |
| Normalize.IdentityRules | src/binop_expr.js:466-607 | the identity table rule by rule (0+a, a+0, 0-a, a-0, 1*a, a*1, 1/a, a/1, 0^p, 1^p, p^1), first match wins |
| Normalize.SubtractNegativeConstant | src/binop_expr.js:524-531 | u minus a negative constant becomes u plus its magnitude |
| Normalize.IdentityFallThrough | src/binop_expr.js:400-610 | when no rule of the table applies, the node comes back unchanged, operator by operator (+, -, *, /, ^) |
| Normalize.SumRegroupings | src/binop_expr.js:478-511 | (a+u)+b and (u+a)+b, a+(b+u) and a+(u+b): one constant reading back as the sum of the two numbers and a copy of u, the constant second only for (u+a)+b; a nested sum without a number is kept |
| Normalize.ProductRegroupings | src/binop_expr.js:544-577 | (a*u)*b, (u*a)*b, a*(b*u) and a*(u*b): one constant reading back as the product of the two numbers, always first, and a copy of u; a nested product without a number is kept |
| Normalize.RegroupSum | src/binop_expr.js:478-494 | (a + u) + b becomes one constant reading back as a + b, plus a copy of u |
| Normalize.FoldConstsIsTotal | src/multiop_expr.js:359-401 | the per-kind contributions add up to the sum (product) of the constant operands' values |
| Normalize.FoldStepAddsValue | src/multiop_expr.js:364-398 | each contribution adds (multiplies by) the value the operand stands for |
| Normalize.FoldConstants | src/multiop_expr.js:359-401 | the folding loop computes the running constant |
| Normalize.SimplifyOperands | src/multiop_expr.js:342-354 | each operand is replaced by its simplified form, and the result is the grouped node |
| Normalize.SimplifyMultiKeeps | src/multiop_expr.js:356-358 | with fewer than two constants the node keeps its simplified operands |
| Normalize.SimplifyMultiFolds | src/multiop_expr.js:358-421 | two or more constants fold into one that reads back as their sum (product), placed last in a sum and first in a product; it stands alone when nothing else is left, and otherwise every non-constant operand is kept, in order, spliced by create_multiop |
| Normalize.FoldedSum | src/multiop_expr.js:405-420 | a sum with two or more constants and some other operand becomes create_multiop of the other operands followed by the folded constant |
| Normalize.FoldedProduct | src/multiop_expr.js:405-420 | a product with two or more constants and some other operand becomes create_multiop of the folded constant followed by the other operands |
| Normalize.SimplifyMultiKeepsOthers | src/multiop_expr.js:404-421 | when no non-constant operand is a same-operator MultiOp, the folded node holds exactly those operands, in order, and the constant |
| Normalize.FlattenArith | src/binop_expr.js:619-693 | flattening + - * / gives a MultiOp of + (for + and -) or * (for * and /) |
| Normalize.FlattenMultiOp | src/multiop_expr.js:277-315 | the flatten loop computes the reference flatten of the node |
| Normalize.CollectOperands | src/multiop_expr.js:279-312 | the collected operands, sorted for a product, become the flattened node |
| Normalize.FlattenMultiOpIsCollect | src/multiop_expr.js:277-315 | flatten of a MultiOp is the collection of its flattened operands |
| Normalize.FlattenBinaryShape | src/binop_expr.js:613-699 | a flattened + - * / node is a MultiOp of + or *; other operators stay Binary |
| Normalize.FlattenWrapsSubtrahend | src/binop_expr.js:639-651 | a subtrahend that is not a sum is wrapped in '-' and pushed last |
| Normalize.ArithWrapsSubtrahend | src/binop_expr.js:639-690 | in the arithmetic formulation, a subtrahend that is not a sum is wrapped in '-', and a divisor that is not a product is wrapped in '/', and either is pushed last |
| Normalize.SubtractingSumIsNotNegated | src/binop_expr.js:632-647 | subtracting a sum pushes its operands unnegated |
| Normalize.SubtractingSumExample | src/binop_expr.js:619-656 | flatten of a - (b + c) is a + b + c |
| Normalize.FlattenPairOfLeaves | src/binop_expr.js:619-656 | a + b of leaves flattens to the two-operand sum |
| Normalize.FlattenMultiOpSmall | src/multiop_expr.js:291-296 | no operands give the identity constant, and one operand gives the operand |
| Normalize.FlattenMultiOpOrder | src/multiop_expr.js:298-312 | only products are sorted; sums keep their order |
| Normalize.FlattenSortedProductKeepsOrder | src/multiop_expr.js:298-312 | a product whose operands are already in kind order keeps that order |
| Normalize.FlattenNotIdempotent | src/binop_expr.js:657-693 | there is a tree that a second flatten changes |
| Normalize.ReflattenSwapsPair | src/multiop_expr.js:298-312 | re-flattening a two-leaf product puts the lower kind first |
| Matching.ScalarMatch | src/scalar_expr.js:143-160 | a scalar matches an equal number, or a constant that renders as it after simplification, and never binds anything |
| Matching.Match | src/binop_expr.js:705-736 | a successful match keeps the caller's bindings and adds only the pattern's variables |
| Matching.BinaryMatch | src/binop_expr.js:704-755 | a match needs the same operator and at least two operands; first operand against the rest, then the rest against the last |
| Matching.MultiMatch | src/multiop_expr.js:429-491 | a match needs the same operator and at least as many operands; trailing group first, then leading group |
| Matching.SuffixGroup | src/multiop_expr.js:441-459 | the first grouping has n entries: copies of the first n-1 operands one to one, then one MultiOp holding the spliced copies of the rest (all n copied one to one when the arities agree) |
| Matching.PrefixGroup | src/multiop_expr.js:467-482 | the second grouping has n entries: one MultiOp holding the spliced copies of the leading operands, then copies of the last n-1 operands one to one |
| Matching.SuffixGroupRespliced | src/multiop_expr.js:459-462 | passing the first grouping through create_multiop again gives back copies of all the candidate's operands, in order |
| Matching.PrefixGroupRespliced | src/multiop_expr.js:482-485 | passing the second grouping through create_multiop again gives back copies of all the candidate's operands, in order |
| Matching.InstanceOfPatternCanFail | src/binop_expr.js:763-785 | x + y does not match its own instance under x = 1, y = 2, which compose folds to a Scalar |
| Matching.PairPatternMatchesInstance | src/binop_expr.js:705-736 | a pattern of two distinct variables matches its instance whenever compose does not fold it, binding each variable to a copy of its binding |
| Matching.MultiOpGroupingUndone | src/multiop_expr.js:450-488 | a MultiOp pattern never matches a longer candidate whose operands are not same-operator MultiOps |
| Matching.EmptyMultiOpPatternMatches | src/multiop_expr.js:441-464 | an empty MultiOp pattern matches every candidate with its operator, binding nothing |
| Matching.BinaryKeepsGrouping | src/binop_expr.js:722-736 | x + y against a longer sum binds x to the first operand and y to the MultiOp of the rest |
| Matching.BinaryAgainstBinary | src/binop_expr.js:722-736 | against a Binary with its operator, binop match is the generic match of the copied operands |
| Matching.OperatorMismatchFails | src/binop_expr.js:715-716 | a Binary or MultiOp pattern never matches a candidate with another operator or kind |
| Matching.NoCommutativeRetry | src/binop_expr.js:704-755 | x + c does not match c + y: no swapped retry |
| Derivatives.FnRule | src/function_expr.js:528-624 | the derivative is undefined exactly when the argument depends on x and either the table row loops (root) or the argument is not a variable and its derivative is undefined; a defined result for a non-constant argument is the table entry or a product |
| Derivatives.OnlyRootLoops | src/function_expr.js:56-74 | root is the only builtin name without a row in the derivative table |
| Derivatives.RootDerivativeUndefined | src/function_expr.js:609-611 | d/dx root(u), with any number of primes, has no result when u depends on x |
| Derivatives.RootRow | src/function_expr.js:609-611 | the default row turns root with k primes into root with k+1 primes |
| Derivatives.PrimedRootNeverReturns | src/function_expr.js:79-89 | the constructor of a primed root does not return within any number of nested calls: it recurses without bound |
| Derivatives.TableRowsReturn | src/function_expr.js:79-89 | the constructor of any other primed builtin returns after one nested call |
| Derivatives.PrimedRootHasNoAlternate | src/function_expr.js:79-89 | a primed root gets no alternate form |
| Derivatives.ProductTerm | src/multiop_expr.js:531-540 | the i-th product term has the derivative at i and the other operands elsewhere |
| Derivatives.MultiOpDerivative | src/multiop_expr.js:519-552 | the derivative loop computes the reference derivative of the node |
| Derivatives.OperandTerms | src/multiop_expr.js:524-544 | the terms loop collects one term per non-constant operand |
| Derivatives.ProductFactors | src/multiop_expr.js:533-539 | the inner loop builds the factors of one product term |
| Derivatives.ComputeAlternate | src/function_expr.js:79-89 | the constructor's loop computes the alternate form of a primed builtin; it returns after one nested call for a builtin with a table row, and for a primed root it recurses without bound (the model's result is None) |
| Derivatives.DifferentiateRepeatedly | src/function_expr.js:83-85 | the loop takes the derivative k times |
| Derivatives.ScalarDerivativeIsZero | src/scalar_expr.js:134-136 | a scalar's derivative is the Scalar 0 |
| Derivatives.ConstantDerivative | src/binop_expr.js:793-794 | a constant tree has a defined, constant derivative, zero unless it is a unary node |
| Derivatives.ConstantBinaryIsZero | src/binop_expr.js:793-794 | two constant operands give the Scalar 0 |
| Derivatives.SumRule | src/binop_expr.js:795-814 | (u ± v)' is u' ± v', with 0 for a constant operand |
| Derivatives.ProductRule | src/binop_expr.js:815-825 | (uv)' is v·u' + u·v', or a single term when an operand is constant |
| Derivatives.QuotientRule | src/binop_expr.js:826-840 | (u/v)' by the quotient rule, with its two shortcut forms |
| Derivatives.PowerWithDependentExponent | src/binop_expr.js:796-849 | a power whose exponent depends on x is differentiated as exp(v·log u), unless, with flattening on, the eagerly computed derivative of a non-constant operand is undefined and has thrown |
| Derivatives.ExpLnFormDerivative | src/binop_expr.js:846-848 | the derivative of exp(v·log u) |
| Derivatives.ClassicalPowerRule | src/binop_expr.js:796-862 | u^v with v free of x: v·u^(v-1), times u' unless u is x itself; 0 for a constant base; none when u' is needed and undefined, or when flattening is on and the unused v' of a non-constant v is undefined |
| Derivatives.ThrownIsUndefined | src/binop_expr.js:796-871 | with flattening on, an undefined derivative of a non-constant operand leaves the Binary without a result, whatever the operator, because both operand derivatives are computed before the operator is looked at |
| Derivatives.UnusedExponentDerivative | src/binop_expr.js:796-871 | d/dx x^(y & z) has no result with flattening on (the unused exponent derivative has thrown) and is the power rule with it off |
| Derivatives.NoRuleIsUndefined | src/binop_expr.js:864-868 | an operator with no rule has no derivative |
| Derivatives.FunctionOfConstant | src/function_expr.js:530-540 | a function of a constant argument has the derivative 0 |
| Derivatives.ChainRule | src/function_expr.js:613-623 | f(u)' is the table entry when u is a variable, else the entry times u'; there is no result when the row loops |
| Derivatives.TrigEntries | src/function_expr.js:545-550 | sin' is cos and cos' is -(sin) |
| Derivatives.ExpLogEntries | src/function_expr.js:599-605 | exp' is exp and log' (renamed ln) is 1/u |
| Derivatives.RootAbsEntries | src/function_expr.js:593-598 | sqrt' is 1/(2·sqrt u) and abs' is abs(u)/u |
| Derivatives.NonBuiltinGetsPrime | src/function_expr.js:609-611 | a user-defined function's derivative is the same function with one more prime |
| Derivatives.TableIgnoresPrimes | src/function_expr.js:79-89 | the table looks at the name only, so the derivative (and alternate form) of sin' is cos |
| Derivatives.SineTableEntry | src/function_expr.js:544-547 | sin with any number of primes, applied to x, differentiates to cos(x) |
| Derivatives.CosineComposed | src/function_expr.js:524-526 | composing cos(x) with x := a gives cos(a) |
| Derivatives.ConstantMultiOpIsZero | src/multiop_expr.js:545-546 | a MultiOp of constants has the derivative 0 |
| Derivatives.SumTermwise | src/multiop_expr.js:527-530 | the derivative of a sum is the sum of the derivatives |
| Derivatives.ProductTermwise | src/multiop_expr.js:531-541 | the derivative of a product is the sum of the product terms |
| FunctionCache.Extended | src/function_expr.js:477-484 | the list is extended up to the requested order, each new entry the derivative of the one before |
| FunctionCache.FunctionEntry.Lookup | src/function_expr.js:498-509 | the cache grows to the requested order and the entry of that order is returned |
| FunctionCache.ExtendedIsIterated | src/function_expr.js:481-483 | each new entry is the repeated derivative of the last cached one |
| FunctionCache.CachedOrderUnchanged | src/function_expr.js:477 | a request no higher than what is cached leaves the cache as it is |
| FunctionCache.ExtendTwice | src/function_expr.js:477-484 | extending to one order and then a higher one is extending to the higher one |
| Reductions.Split | src/reductions.js:60 | split on "==" gives at least one piece, and the first piece is a prefix |
| Reductions.JoinSplit | src/reductions.js:60 | joining the pieces with "==" gives the equation back |
| Reductions.SplitPiecesHaveNoSeparator | src/reductions.js:60 | no piece contains "==" |
| Reductions.SplitLeftmost | src/reductions.js:60 | the split is leftmost and non-overlapping: no "==" starts inside the first piece, "==" follows it when more pieces follow, and it is the whole string otherwise |
| Reductions.SplitRest | src/reductions.js:60 | the pieces after the first are the split of what follows the first separator, so the leftmost rule fixes every piece |
| Reductions.TripleEquals | src/reductions.js:60 | "===" splits as "" and "=" |
| Reductions.SplitEquation | src/reductions.js:60-62 | l == r with no '=' in l or r splits into exactly l and r |
| Reductions.ParseNatToString | src/reductions.js:39 | the decimal counter in an input name reads back as the counter |
| Reductions.InputNamesDistinct | src/reductions.js:39 | different counters give different input names |
| Reductions.UnboundDistinct | src/reductions.js:31-37 | the missing variables are distinct |
| Reductions.NameInputsAt | src/reductions.js:38-40 | the j-th missing variable is bound to input(j+1) |
| Reductions.CollectUnbound | src/reductions.js:31-37 | the loop collects the unbound dependencies in order |
| Reductions.BindInputs | src/reductions.js:38-40 | the loop binds each missing variable to its input name |
| Reductions.NewMatch | src/reductions.js:29-54 | the constructor's steps give the reference Match |
| Reductions.MatchNamesInputs | src/reductions.js:29-54 | a Match keeps the bindings, binds every variable of the right side, names the unbound ones input1, input2, ..., counts them and takes the rule's id |
| Reductions.NewIdentities | src/reductions.js:59-96 | no rule unless the equation has two sides; one rule one-way, two otherwise; ids continue the list; new rules are active and carry the given validity and description |
| Reductions.NewRuleKeepsNumbering | src/reductions.js:88-90 | after newRule every rule's id is still its position plus one |
| Reductions.NewRuleDirections | src/reductions.js:64-71 | the first rule rewrites l to r and the second, if any, r to l |
| Reductions.DuplicateCheckNeverFires | src/reductions.js:77-92 | x == x registered both ways gives two rules with the same left side |
| Reductions.Disabled | src/reductions.js:99-116 | with at most two sides, exactly the rules whose left side matches become inactive; nothing else changes |
| Reductions.Listed | src/reductions.js:128-133 | a rule is listed exactly when it is active and its left side matches |
| Reductions.MatchRules | src/reductions.js:124-136 | no more matches than rules |
| Reductions.MatchRulesStep | src/reductions.js:127-134 | each scanned rule adds its Match, if any, at the end |
| Reductions.ScanRules | src/reductions.js:124-136 | the findMatchRules loop gives the reference list |
| Reductions.TryRule | src/reductions.js:128-133 | a rule yields a Match exactly when it is active and its left side matches, and that Match is the reference one |
| Reductions.MatchRulesFromRules | src/reductions.js:127-134 | every listed Match comes from the accepting rule its id names |
| Reductions.MatchRulesInOrder | src/reductions.js:127-135 | the ids of the listed matches increase |
| Reductions.MatchRulesComplete | src/reductions.js:127-134 | every active matching rule is listed |
| Reductions.InactiveNeverListed | src/reductions.js:130 | an inactive rule is never listed |
| Reductions.Registry.NewRule | src/reductions.js:59-96 | the list is extended by exactly the new identities |
| Reductions.Registry.DisableRule | src/reductions.js:99-116 | the list becomes the disabled list |
| Reductions.Registry.FindMatchRules | src/reductions.js:124-136 | the result is the reference match list and the registry is unchanged |
| DefaultRules.AddOneWay | src/reductions.js:142 | one one-way newRule appends l to r, active and valid, with the next id |
| DefaultRules.AddIdentityRules | src/reductions.js:142-150 | nine rules are appended and the list stays numbered, active and valid |
| DefaultRules.AddPowerRules | src/reductions.js:151-156 | six rules are appended and the list stays numbered, active and valid |
| DefaultRules.AddSignRules | src/reductions.js:157-162 | six rules are appended and the list stays numbered, active and valid |
| DefaultRules.AddNegationRules | src/reductions.js:163-169 | seven rules are appended and the list stays numbered, active and valid |
| DefaultRules.DefaultReductions | src/reductions.js:139-172 | a fresh list of 28 rules, numbered 1 to 28, all active and valid |
| DefaultRules.AddSumCancellations | src/reductions.js:177-183 | seven rules are appended and the list stays numbered, active and valid |
| DefaultRules.AddDistributions | src/reductions.js:184-187 | four rules are appended and the list stays numbered, active and valid |
| DefaultRules.DefaultSumReductions | src/reductions.js:174-190 | a fresh list of 11 rules, numbered 1 to 11, all active and valid |
| DefaultRules.AddFactorCancellations | src/reductions.js:195-204 | ten rules are appended and the list stays numbered, active and valid |
| DefaultRules.AddPowerProducts | src/reductions.js:205-212 | eight rules are appended and the list stays numbered, active and valid |
| DefaultRules.DefaultProductReductions | src/reductions.js:192-214 | a fresh list of 18 rules, numbered 1 to 18, all active and valid |

## Left out

- Rendering (`toString`, `toTeX`, `toMathML`, `allStringEquivs`, `operateToTeX`) is not modelled. Where the kernel compares renderings, the model takes an abstract `render` function from the environment.
- `menv.parse` is not part of this model. It is an abstract `parse` function in the environment.
- `evaluate` (numeric evaluation, `Math.*`, floating point) is not modelled. Only the derivative cache that it keeps for user-defined functions is.
- `real_number` is idealised as an exact real: rounding is not modelled. `Math.LOG10E` is the real constant `Log10E`.
- Parent pointers, `inputSubst`, `console.log` and `alert` are not modelled: they are side effects that do not change the value of a tree.
- `interval_set.js` is not part of this model.
- `unop_expr.js`, `variable_expr.js`, `expression.js` and `BTM_root.js` are not part of this model. The following are therefore modelled from their use here rather than their source:
  - the derivative of a unary node and of a variable;
  - copy, compose, flatten and simplifyConstants of a unary node (rebuilt around its transformed operand) and of a variable (kept, or under compose replaced by its binding);
  - flatten of a Scalar (kept as it is), and the simplifyConstants a function call inherits (the call kept around its simplified argument);
  - `dependencies()` and `isConstant()` of every node kind: the distinct variable names in order of first occurrence, and constant exactly when there are none (`Expressions.ConstantIffNoDependencies`);
  - the match of a variable (a free variable binds the candidate; a bound one matches when the two renderings agree);
  - the generic `expression.prototype.match` (same kind, same operator or name, same number of operands, operands matched pairwise);
  - the numeric order of `exprType` that the flatten sort compares;
  - `expression.prototype.reduce`, which multiop `reduce` calls first, is taken to return the node unchanged; `Expressions.Reduce` and `Expressions.ReduceOneLevel` rest on this, and if it reduces the operands too, reduce may collapse more than one level;
  - the unary operators, limited to '-' and '/' (the multiop constant fold's '+' and '*' unary cases are not node kinds here).
- Derivatives.Deriv: where the source would produce a blank placeholder node or throw on an undefined sub-derivative, the model returns `None`. With flattening off, an undefined sub-derivative the rule does not use (the exponent's, in the power rule) is harmless, and the model gives the power rule's result there.
- Derivatives.Deriv: d/dx root(u) recurses without bound in the source when u depends on x, ending in a stack-overflow RangeError; the model returns `None`, the value it also gives an undefined derivative.
- ComputeAlternate: for a primed root the source's constructor recurses without bound, ending in a stack-overflow RangeError; the model returns `None`, the value it also gives a function with no alternate form. `Derivatives.ConstructorReturns` follows only the first derivative step of the constructor's loop, the one that can call the constructor again.
- Matching.Match: the promise that a pattern matches each of its instances is false of the code (`Matching.InstanceOfPatternCanFail`) and is proved only for patterns of two distinct variables (`Matching.PairPatternMatchesInstance`).
- Normalize.SimplifyMulti: a MultiOp with an operator other than '+' or '*' is never built by the source (its constructor alerts); the model keeps such a node unchanged.
- FunctionCache.FunctionEntry.Lookup: when a derivative on the way is undefined, the source stores `undefined` and then throws; the model returns `None` and keeps the entries computed before it.
- Reductions.NewIdentities: the inner duplicate-check loop over the one-element `allRefExpr` list is written out as its (always accepting) result.
- Reductions.NewMatch: the input names bound to missing variables are variable nodes named input1, input2, ...; the TeX, string and equation fields of `Match` are rendering and are not modelled.
- Reductions.NewIdentities: the unused `numVars` and the `constraints` parameter are not modelled.
- DefaultRules.DefaultReductions, DefaultRules.DefaultSumReductions, DefaultRules.DefaultProductReductions and their chunk methods state the count, numbering, activity and validity of the rules, not each rule's parsed sides (`DefaultRules.AddOneWay` states those for a single call).
