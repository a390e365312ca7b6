# 4=10 solver: search and evaluation engine

A Dafny model of the engine of a command-line solver for a generalised "4=10"
puzzle. The puzzle gives N numbers, a target and a set of allowed operators
(`+ - * /`). The solver looks for every way to do all of the following:

- order the numbers;
- put an allowed operator between each adjacent pair;
- put one pair of parentheses around a span of at least two operands;

so that the expression evaluates to the target.

The model has five modules:

- `Optional` (optional.dfy): the `Option` type used for evaluations that can fail.
- `Ops` (ops.dfy): the operator enum, its precedence (`presidense`) and its partial application (`calc`). `calc` fails only on division by zero.
- `Evaluator` (evaluator.dfy): `eval`.
  - `Flat` is the reference meaning of an expression without parentheses. It is the usual precedence parse with left associativity: split at the last operator of lowest precedence and evaluate both sides.
  - `EvalWhole` is the source's operand/operator stack algorithm, as a method with loops. It is proved equal to `Flat`, under the invariant that `Flat` of "stack contents followed by unread input" never changes.
  - `EvalSpan` is the recursive definition of `eval` with a parenthesis span. `Eval` is the method that follows the source's three span cases and is proved equal to it.
- `Solutions` (solutions.dfy): the `Solution` record, `Solution::before` (`Before`), and the sort plus consecutive dedup that `main` applies to the results.
  - `Before` is a strict total order whose `Equal` is identity.
  - The sorted and deduplicated output is therefore the unique strictly ascending list of the distinct solutions, whatever order the search produced them in.
- `Search` (search.dfy): `brute_force_find`, `permute_numbers`, `permute_ops` and `permute_parantheses`.
  - Each search level is a method. Each is proved to return `Pick(spec, all)`: the spec function lists, in the order the source tries them, everything found in all-solutions mode, and first-only mode keeps only the first of those.
  - Member lemmas characterise each list on its own terms. A solution is listed exactly when its operands are a permutation of the input, its operators are all allowed, its span is `[i, j]` with `i < j`, and the expression evaluates to the target.
  - The pushed-and-popped `&mut Vec` buffers are passed in and returned. The contracts state that each buffer comes back unchanged, except in first-only mode after a find, where the source breaks out before popping.

Numbers are the source's `f32`, modelled as `real`: arithmetic is exact and comparison with the target is exact equality.

Two behaviours of the source are worth stating outright:

- **Single number.** With one number the source never finds a solution, even when that number equals the target: the span loop `0..nums.len()-1` (src/main.rs:247) is empty. `Search.SingleNumberHasNoSolution` states this.
- **All four sort keys descend.** `before` answers `Greater` when `self`'s key is the smaller one, for the two span indices and equally for the operator and operand vectors (src/main.rs:65-75). `Solutions.Before` orders all four keys descending in the same way.

## Model

| member | source | states |
|---|---|---|
| Ops.Precedence | src/main.rs:18-25 | precedence is at most 1, and it is 0 exactly for `+` and `-` |
| Ops.Calc | src/main.rs:26-33 | the application fails exactly when the operator is `/` and the divisor is 0 |
| Ops.CalcMeaning | src/main.rs:26-33 | a successful result is `f + s`, `f - s`, `f * s`, or `f / s` with `s` non-zero |
| Ops.Rank | src/main.rs:9-15 | the derived enum order places each operator at one of four ranks |
| Ops.RankInjective | src/main.rs:9-15 | distinct operators have distinct ranks, so the derived order is total |
| Evaluator.ReduceSound | src/main.rs:286-290 | reducing an operator that binds at least as tightly as its right neighbour, and more tightly than its left one, preserves the reference value (failure included) |
| Evaluator.DivisionByZeroFails | src/main.rs:289 | such a reduction that divides by zero makes the whole expression fail |
| Evaluator.FlatFailsExactly | src/main.rs:286-299 | an unparenthesised expression has no value exactly when some `/` has a zero operand right after it; the `?` on `calc` is the only failure |
| Evaluator.FlatDefinedWithoutDivision | src/main.rs:282-301 | an expression without `/` always has a value |
| Evaluator.UniformPrecedenceIsLeftFold | src/main.rs:286-299 | when all operators share one precedence, the value is the left-to-right fold of `calc`, failing at the first failing step |
| Evaluator.ClimbingIsShort | src/main.rs:286-293 | an operator stack strictly increasing in precedence holds at most two operators |
| Evaluator.ClimbingPush | src/main.rs:292-293 | pushing an operator that binds more tightly than the top keeps the stack strictly increasing |
| Evaluator.ReduceTop | src/main.rs:287-290 | one reduction of the top of the stack, before a looser-binding incoming operator, preserves the value of stack plus unread input |
| Evaluator.ReduceTighter | src/main.rs:286-291 | the inner loop either ends with the stack still climbing, its top binding more loosely than the incoming operator, and the value of stack plus unread input unchanged; or it stops on a failing `calc`, and then the whole expression has no value |
| Evaluator.Drain | src/main.rs:295-301 | draining an increasing stack yields its reference value |
| Evaluator.EvalWhole | src/main.rs:276-301 | the stack evaluation returns the reference value (last lowest-precedence operator at the root, so ties go left to right), None exactly when that value is undefined; its loop keeps one more operand than operators and the operator stack climbing, so never more than two operators deep |
| Evaluator.Splice | src/main.rs:316-341 | replacing a span by its value shortens the operands by the span's width minus one, which bounds the recursion |
| Evaluator.EvalSpan | src/main.rs:269-344 | the reference value of `eval`: None for no operands, the flat value for the whole span, otherwise the span evaluated on its own and its value spliced in; `Eval` is proved equal to it, and `EvalSpanBaseCases`, `SpanIsOneLevelDeep`, `SingleOperandSpanIsRedundant` and `EvalSpanDefinedWithoutDivision` state its properties |
| Evaluator.Eval | src/main.rs:269-344 | `eval` returns the recursive span value: the whole span is the flat value; a strict sub-span is evaluated alone, spliced in, and the shorter expression evaluated |
| Evaluator.EvalSpanBaseCases | src/main.rs:273-279 | no operands give None whatever the span; one operand with span (0, 0) gives that operand |
| Evaluator.SpanIsOneLevelDeep | src/main.rs:304-343 | a strict sub-span's value is the flat value of the spliced expression, or None when the span fails |
| Evaluator.SingleOperandSpanIsRedundant | src/main.rs:304-343 | parentheses around one operand do not change the value |
| Evaluator.EvalSpanDefinedWithoutDivision | src/main.rs:269-344 | without `/` every span placement has a value |
| Evaluator.SingleOperator | src/main.rs:281-301 | two operands and one operator evaluate to that operator's `calc` |
| Evaluator.PrecedenceExample | src/main.rs:281-301 | 1 + 2 * 3 evaluates to 7 |
| Evaluator.LeftAssociativityExample | src/main.rs:286-299 | 8 / 2 / 2 evaluates to 2 |
| Evaluator.SpanExample | src/main.rs:304-314 | (1 + 2) * 3 evaluates to 9 |
| Evaluator.DivisionByZeroInSpanExample | src/main.rs:315-324 | 1 / (2 - 2) has no value |
| Solutions.LexLessFirstDifference | src/main.rs:71-75 | vector `<` (`LexLess`) holds exactly when, at the first position where the two differ, the left vector has ended while the right has not, or holds the smaller element |
| Solutions.DescendingLexMeaning | src/main.rs:71-75 | a vector comparison inside `before` answers Less exactly when the other vector is `<` this one, and Equal exactly for equal vectors |
| Solutions.LexIrreflexive | src/main.rs:71-75 | no vector compares below itself |
| Solutions.LexAsymmetric | src/main.rs:71-75 | vector comparison is asymmetric |
| Solutions.LexTotal | src/main.rs:71-75 | two vectors are equal or ordered one way or the other |
| Solutions.LexTransitive | src/main.rs:71-75 | vector comparison is transitive |
| Solutions.OpKeys | src/main.rs:71-72 | operator vectors compare through the ranks of their elements |
| Solutions.OpKeysInjective | src/main.rs:71-72 | different operator vectors have different keys |
| Solutions.Before | src/main.rs:62-77 | compares `lpar`, then `rpar`, then the operator vectors, then the operand vectors, each in descending order: `before(a, b)` is Less exactly when, at the first of these keys that differs, `b`'s key is the smaller one (vectors compared by `<`); `Equal` exactly for identical solutions |
| Solutions.BeforeEqual | src/main.rs:62-77 | `before` returns Equal exactly when all four fields are equal |
| Solutions.BeforeFlip | src/main.rs:62-77 | `before(a, b)` is the reverse of `before(b, a)` |
| Solutions.BeforeTransitive | src/main.rs:62-77 | `before` is transitive |
| Solutions.Insert | src/main.rs:179 | inserting adds exactly one element |
| Solutions.InsertSorted | src/main.rs:179 | inserting into a sorted list keeps it sorted |
| Solutions.Sort | src/main.rs:179 | sorting permutes the results |
| Solutions.SortSorted | src/main.rs:179 | the sorted results are ordered by `before` |
| Solutions.Dedup | src/main.rs:180 | dedup keeps the first element and exactly the same set of elements |
| Solutions.DedupStrictlySorted | src/main.rs:180 | dedup of a sorted list is strictly ascending |
| Solutions.Canonicalize | src/main.rs:179-180 | sort then dedup gives a strictly ascending list with the same elements |
| Solutions.StrictlySortedUnique | src/main.rs:179-180 | two strictly ascending lists with the same elements are equal, so any correct sort gives the same output |
| Solutions.CanonicalizeOrderIndependent | src/main.rs:179-180 | the output depends only on which solutions were found, not on their order |
| Solutions.CanonicalizeIdempotent | src/main.rs:179-180 | sorting and deduplicating twice changes nothing |
| Solutions.CanonicalHasNoAdjacentRepeats | src/main.rs:179-180 | no two adjacent results are equal |
| Search.Take1 | src/main.rs:253-258 | first-only mode keeps at most one solution, the first, and keeps one exactly when there is one |
| Search.SpansSound | src/main.rs:247-262 | every span listed from `[i, j]` on has `i < j < n`, comes at or after `[i, j]`, and hits the target |
| Search.SpansComplete | src/main.rs:247-262 | every such hit is listed |
| Search.SpansMember | src/main.rs:247-262 | the spans still to try from `[i, j]` on hold exactly the hits from there on |
| Search.ParenMember | src/main.rs:245-264 | `permute_parantheses` finds exactly the solutions on its operands and operators whose span is proper and evaluates to the target |
| Search.SingleOperandHasNoParens | src/main.rs:247 | with one operand no span is tried |
| Search.PermuteParens | src/main.rs:245-264 | returns every hit in row order, or only the first one in first-only mode |
| Search.OpFoundStep | src/main.rs:235-241 | pushing `allowed[k]` selects the extensions whose next operator is `allowed[k]` |
| Search.OpSearchMember | src/main.rs:227-243 | the operator search lists exactly the solutions whose operators extend the buffer with allowed operators up to `n - 1` |
| Search.OpSearchFromMember | src/main.rs:235-241 | the rest of the loop lists exactly those whose next operator is `allowed[k]` or later |
| Search.PermuteOps | src/main.rs:227-243 | returns the operator search's solutions (the first only, in first-only mode); the buffer comes back as it went in, or as the found operators |
| Search.ExtendOps | src/main.rs:234-242 | the push/recurse/pop loop returns the listed solutions, stops after the first in first-only mode, and restores the buffer |
| Search.RemoveAt | src/main.rs:217-218 | removing one operand leaves the rest, as a multiset |
| Search.ArrangedStep | src/main.rs:216-219 | moving `remaining[i]` to the buffer selects the orderings whose next operand is `remaining[i]` |
| Search.NumSearchMember | src/main.rs:207-225 | the number search lists exactly the solutions whose operands are the buffer followed by a permutation of the remaining operands |
| Search.NumSearchFromMember | src/main.rs:216-223 | the rest of the loop lists exactly those whose next operand is `remaining[i]` or a later entry |
| Search.PermuteNumbers | src/main.rs:207-225 | returns the number search's solutions (the first only, in first-only mode); the buffer comes back as it went in, or as the found operands |
| Search.ExtendNumbers | src/main.rs:215-224 | the push/recurse/pop loop returns the listed solutions, stops after the first in first-only mode, and restores the buffer |
| Search.FoundMember | src/main.rs:202-205 | the search finds exactly the rearrangements of the input with allowed operators and a proper span that reach the target |
| Search.SingleNumberHasNoSolution | src/main.rs:202-264 | with one input number nothing is found |
| Search.FirstOnlyFindsWhenAny | src/main.rs:202-264 | first-only mode finds at most one solution; it finds one exactly when all-solutions mode finds any, and that one is among them and is a genuine solution (a rearrangement of the input, allowed operators, a proper span, reaching the target) |
| Search.BruteForceFind | src/main.rs:202-205 | `brute_force_find` returns all solutions in search order, or the first of them |
| Search.Solve | src/main.rs:176-180 | the printed list is strictly ascending, holds exactly the solutions found, and is their canonical form |

## Left out

- Command-line handling in `main` (src/main.rs:80-161): the options `-n`, `-f`, `-o`, `-a` and `-h`, their parsing, and the sort and dedup of the operator list. The model takes the allowed operators, the target and the mode as parameters.
- Reading the numbers from standard input (src/main.rs:163-173) and `read_num` (src/main.rs:186-196): input parsing and I/O.
- Printing the results and the `fmt::Debug` impls for `Op` and `Solution` (src/main.rs:36-60, 182-183): presentation and float-to-text formatting.
- `f32` arithmetic: the model computes exactly in `real`. Rounding, overflow to infinity, NaN, and the partial `PartialOrd`/`PartialEq` of `Vec<f32>` under NaN are not modelled. Exact equality with the target is real equality.
- `Solutions.Sort`: the library `sort_by` (a stable merge sort) is modelled as an insertion sort. `Solutions.StrictlySortedUnique` shows that the deduplicated output does not depend on the algorithm.
- The `&mut Vec` buffers are values passed in and returned, so sharing and update in place are not captured. What is captured is each buffer's contents on return.
- The empty input: `nums.len()-1` underflows in `usize` (src/main.rs:229, 247), so the search methods require at least one number. `Evaluator.Eval` itself handles empty operands as the source does.
- The running time of the exhaustive search.
