/** The expression evaluator of the solver (`eval` in src/main.rs).

    An expression is a sequence of operands `nums` and a sequence `ops` with one
    operator between each adjacent pair, plus an inclusive parenthesis span
    `[lpar, rpar]` of operand positions that is evaluated first.

    `Flat` is the reference meaning of an expression without parentheses: the
    usual precedence rules with left associativity, given by splitting at the
    root of the parse, the LAST operator of minimal precedence. `EvalWhole` is the
    operand/operator stack algorithm the source runs, proved equal to `Flat`;
    `Eval` adds the parenthesis span on top of it and is proved equal to `EvalSpan`. */
module Evaluator {
  import opened Optional
  import opened Ops

  /** `k` is the root of a left-associative precedence parse of `ops`: no operator
      has lower precedence, and every operator after it has strictly higher. */
  predicate IsRoot(ops: seq<Op>, k: int) {
    && 0 <= k < |ops|
    && (forall t :: 0 <= t < |ops| ==> Precedence(ops[k]) <= Precedence(ops[t]))
    && (forall t :: k < t < |ops| ==> Precedence(ops[k]) < Precedence(ops[t]))
  }

  /** The root of the first `n` operators, found by scanning left to right and
      moving to each operator that binds no more tightly than the current root. */
  function RootUpTo(ops: seq<Op>, n: nat): (k: nat)
    requires 0 < n <= |ops|
    ensures k < n
  {
    if n == 1 then 0
    else
      var k := RootUpTo(ops, n - 1);
      if Precedence(ops[n - 1]) <= Precedence(ops[k]) then n - 1 else k
  }

  /** The scan finds the root of the prefix it has read. */
  lemma {:induction false} RootUpToIsRoot(ops: seq<Op>, n: nat)
    requires 0 < n <= |ops|
    ensures forall t :: 0 <= t < n ==> Precedence(ops[RootUpTo(ops, n)]) <= Precedence(ops[t])
    ensures forall t :: RootUpTo(ops, n) < t < n ==> Precedence(ops[RootUpTo(ops, n)]) < Precedence(ops[t])
  {
    if n > 1 {
      RootUpToIsRoot(ops, n - 1);
    }
  }

  /** The root operator of a non-empty operator sequence (the one the scan finds). */
  ghost function Root(ops: seq<Op>): (k: nat)
    requires |ops| > 0
    ensures k < |ops|
  {
    RootUpToIsRoot(ops, |ops|);
    assert IsRoot(ops, RootUpTo(ops, |ops|));
    var k :| IsRoot(ops, k); k
  }

  /** `Root` picks the root. */
  lemma RootIsRoot(ops: seq<Op>)
    requires |ops| > 0
    ensures IsRoot(ops, Root(ops))
  {
    RootUpToIsRoot(ops, |ops|);
  }

  /** A sequence has only one root. */
  lemma RootUnique(ops: seq<Op>, a: int, b: int)
    requires IsRoot(ops, a) && IsRoot(ops, b)
    ensures a == b
  {
    assert Precedence(ops[a]) == Precedence(ops[b]);
  }

  /** Applies `op` to two sub-results, failing when either failed. */
  function Combine(op: Op, l: Option<real>, r: Option<real>): Option<real> {
    if l.Some? && r.Some? then Calc(op, l.value, r.value) else None
  }

  /** Reference value of an unparenthesised expression. */
  ghost function Flat(nums: seq<real>, ops: seq<Op>): Option<real>
    requires |nums| == |ops| + 1
    decreases |ops|, 1
  {
    if |ops| == 0 then Some(nums[0]) else SplitAt(nums, ops, Root(ops))
  }

  /** The value of an expression whose root operator is at `k`: the root applied
      to the values of the parts on either side of it. */
  ghost function SplitAt(nums: seq<real>, ops: seq<Op>, k: nat): Option<real>
    requires |nums| == |ops| + 1 && k < |ops|
    decreases |ops|, 0
  {
    Combine(ops[k], Flat(nums[..k + 1], ops[..k]), Flat(nums[k + 1..], ops[k + 1..]))
  }

  /** The expression with the operands at `j` and `j + 1` and the operator between
      them replaced by the single value `v`. */
  function ReducedNums(nums: seq<real>, j: nat, v: real): (r: seq<real>)
    requires j + 1 < |nums|
    ensures |r| == |nums| - 1
  {
    nums[..j] + [v] + nums[j + 2..]
  }

  function ReducedOps(ops: seq<Op>, j: nat): (r: seq<Op>)
    requires j < |ops|
    ensures |r| == |ops| - 1
  {
    ops[..j] + ops[j + 1..]
  }

  /** Operand at `t` of the reduced operator sequence. */
  lemma ReducedOpsAt(ops: seq<Op>, j: nat, t: nat)
    requires j < |ops| && t < |ops| - 1
    ensures ReducedOps(ops, j)[t] == if t < j then ops[t] else ops[t + 1]
  {
  }

  /** Removing a non-root operator keeps the root, shifted left when it came after. */
  lemma RootAfterReduce(ops: seq<Op>, j: nat)
    requires j < |ops| && Root(ops) != j
    ensures |ops| >= 2
    ensures IsRoot(ReducedOps(ops, j), if Root(ops) < j then Root(ops) else Root(ops) - 1)
  {
    RootIsRoot(ops);
    var k, o' := Root(ops), ReducedOps(ops, j);
    var k' := if k < j then k else k - 1;
    forall t | 0 <= t < |o'|
      ensures o'[t] == if t < j then ops[t] else ops[t + 1]
    {
      ReducedOpsAt(ops, j, t);
    }
    assert o'[k'] == ops[k];
  }

  /** Reducing the operator at `j` first does not change the value when its left
      neighbour binds strictly less tightly and its right neighbour binds no more
      tightly (left associativity); if the reduction itself fails, so does the
      whole expression. This is the step the stack algorithm takes. */
  lemma {:induction false} ReduceSound(nums: seq<real>, ops: seq<Op>, j: nat)
    requires |nums| == |ops| + 1 && j < |ops|
    requires j == 0 || Precedence(ops[j - 1]) < Precedence(ops[j])
    requires j == |ops| - 1 || Precedence(ops[j + 1]) <= Precedence(ops[j])
    ensures Flat(nums, ops) == Reduce(nums, ops, j)
    decreases |ops|, 1
  {
    RootIsRoot(ops);
    var k := Root(ops);
    if k == j {
      assert j == 0 && |ops| == 1;
      assert nums[..1] == [nums[0]] && nums[1..] == [nums[1]];
      assert ops[..0] == [] && ops[1..] == [];
      assert Flat(nums, ops) == SplitAt(nums, ops, 0);
      assert Flat(nums, ops) == Combine(ops[0], Some(nums[0]), Some(nums[1]));
      var c := Calc(ops[j], nums[j], nums[j + 1]);
      if c.Some? {
        assert ReducedNums(nums, j, c.value) == [c.value];
        assert ReducedOps(ops, j) == [];
      }
    } else if k < j {
      ReduceRightOfRoot(nums, ops, j);
    } else {
      ReduceLeftOfRoot(nums, ops, j);
    }
  }

  /** The value after first reducing the operator at `j`. */
  ghost function Reduce(nums: seq<real>, ops: seq<Op>, j: nat): Option<real>
    requires |nums| == |ops| + 1 && j < |ops|
  {
    match Calc(ops[j], nums[j], nums[j + 1])
    case None => None
    case Some(v) => Flat(ReducedNums(nums, j, v), ReducedOps(ops, j))
  }

  /** Unfolds `Flat` at a given root. */
  lemma FlatAtRoot(nums: seq<real>, ops: seq<Op>, k: nat)
    requires |nums| == |ops| + 1 && IsRoot(ops, k)
    ensures Flat(nums, ops) == Combine(ops[k], Flat(nums[..k + 1], ops[..k]), Flat(nums[k + 1..], ops[k + 1..]))
  {
    assert Flat(nums, ops) == SplitAt(nums, ops, Root(ops));
    RootIsRoot(ops);
    RootUnique(ops, k, Root(ops));
  }

  /** How a reduction right of position `k` looks from the part after `k`. */
  lemma ReducedSlicesRight(nums: seq<real>, ops: seq<Op>, j: nat, k: nat, v: real)
    requires |nums| == |ops| + 1 && k < j < |ops|
    ensures ReducedNums(nums, j, v)[..k + 1] == nums[..k + 1]
    ensures ReducedOps(ops, j)[..k] == ops[..k]
    ensures ReducedOps(ops, j)[k] == ops[k]
    ensures ReducedNums(nums, j, v)[k + 1..] == ReducedNums(nums[k + 1..], j - k - 1, v)
    ensures ReducedOps(ops, j)[k + 1..] == ReducedOps(ops[k + 1..], j - k - 1)
  {
  }

  /** How a reduction left of position `k` looks from the part up to `k`. */
  lemma ReducedSlicesLeft(nums: seq<real>, ops: seq<Op>, j: nat, k: nat, v: real)
    requires |nums| == |ops| + 1 && j < k < |ops|
    ensures ReducedOps(ops, j)[k - 1] == ops[k]
    ensures ReducedNums(nums, j, v)[..k] == ReducedNums(nums[..k + 1], j, v)
    ensures ReducedOps(ops, j)[..k - 1] == ReducedOps(ops[..k], j)
    ensures ReducedNums(nums, j, v)[k..] == nums[k + 1..]
    ensures ReducedOps(ops, j)[k..] == ops[k + 1..]
  {
  }

  lemma {:induction false} ReduceRightOfRoot(nums: seq<real>, ops: seq<Op>, j: nat)
    requires |nums| == |ops| + 1 && j < |ops| && Root(ops) < j
    requires Precedence(ops[j - 1]) < Precedence(ops[j])
    requires j == |ops| - 1 || Precedence(ops[j + 1]) <= Precedence(ops[j])
    ensures Flat(nums, ops) == Reduce(nums, ops, j)
    decreases |ops|, 0
  {
    RootIsRoot(ops);
    var k := Root(ops);
    var rn, ro, j' := nums[k + 1..], ops[k + 1..], j - k - 1;
    assert ro[j'] == ops[j] && rn[j'] == nums[j] && rn[j' + 1] == nums[j + 1];
    assert j' < |ro| - 1 ==> ro[j' + 1] == ops[j + 1];
    ReduceSound(rn, ro, j');
    FlatAtRoot(nums, ops, k);
    var c := Calc(ops[j], nums[j], nums[j + 1]);
    if c.Some? {
      var v := c.value;
      RootAfterReduce(ops, j);
      ReducedSlicesRight(nums, ops, j, k, v);
      FlatAtRoot(ReducedNums(nums, j, v), ReducedOps(ops, j), k);
    }
  }

  lemma {:induction false} ReduceLeftOfRoot(nums: seq<real>, ops: seq<Op>, j: nat)
    requires |nums| == |ops| + 1 && |ops| > 0 && j < Root(ops)
    requires j == 0 || Precedence(ops[j - 1]) < Precedence(ops[j])
    requires Precedence(ops[j + 1]) <= Precedence(ops[j])
    ensures Flat(nums, ops) == Reduce(nums, ops, j)
    decreases |ops|, 0
  {
    RootIsRoot(ops);
    var k := Root(ops);
    var ln, lo := nums[..k + 1], ops[..k];
    var c := Calc(ops[j], nums[j], nums[j + 1]);
    assert Flat(ln, lo) == Reduce(ln, lo, j) && Calc(lo[j], ln[j], ln[j + 1]) == c by {
      assert lo[j] == ops[j] && ln[j] == nums[j] && ln[j + 1] == nums[j + 1];
      assert j > 0 ==> lo[j - 1] == ops[j - 1];
      assert j < |lo| - 1 ==> lo[j + 1] == ops[j + 1];
      ReduceSound(ln, lo, j);
    }
    FlatAtRoot(nums, ops, k);
    if c.Some? {
      LeftReducedSplit(nums, ops, j, k, c.value);
    }
  }

  /** After a reduction left of the root `k`, the root is still the split point. */
  lemma LeftReducedSplit(nums: seq<real>, ops: seq<Op>, j: nat, k: nat, v: real)
    requires |nums| == |ops| + 1 && IsRoot(ops, k) && j < k
    ensures Flat(ReducedNums(nums, j, v), ReducedOps(ops, j)) ==
            Combine(ops[k], Flat(ReducedNums(nums[..k + 1], j, v), ReducedOps(ops[..k], j)), Flat(nums[k + 1..], ops[k + 1..]))
  {
    RootIsRoot(ops);
    RootUnique(ops, k, Root(ops));
    RootAfterReduce(ops, j);
    var n', o' := ReducedNums(nums, j, v), ReducedOps(ops, j);
    ReducedSlicesLeft(nums, ops, j, k, v);
    FlatAtRoot(n', o', k - 1);
    assert n'[..k - 1 + 1] == n'[..k];
    assert n'[k - 1 + 1..] == n'[k..] && o'[k - 1 + 1..] == o'[k..];
  }

  /** A division by zero at a position the evaluation reaches directly makes the
      whole expression undefined. */
  lemma DivisionByZeroFails(nums: seq<real>, ops: seq<Op>, j: nat)
    requires |nums| == |ops| + 1 && j < |ops|
    requires j == 0 || Precedence(ops[j - 1]) < Precedence(ops[j])
    requires j == |ops| - 1 || Precedence(ops[j + 1]) <= Precedence(ops[j])
    requires ops[j] == Divide && nums[j + 1] == 0.0
    ensures Flat(nums, ops) == None
  {
    ReduceSound(nums, ops, j);
  }

  /** Without a division operator nothing can fail. */
  lemma {:induction false} FlatDefinedWithoutDivision(nums: seq<real>, ops: seq<Op>)
    requires |nums| == |ops| + 1
    requires Divide !in ops
    ensures Flat(nums, ops).Some?
    decreases |ops|
  {
    if |ops| > 0 {
      var k := Root(ops);
      assert ops == ops[..k] + [ops[k]] + ops[k + 1..];
      FlatDefinedWithoutDivision(nums[..k + 1], ops[..k]);
      FlatDefinedWithoutDivision(nums[k + 1..], ops[k + 1..]);
    }
  }

  /** The only way an unparenthesised expression fails: some `/` has a zero
      right operand. A `/` binds most tightly, so its divisor is always the
      single operand after it. */
  lemma {:induction false} FlatFailsExactly(nums: seq<real>, ops: seq<Op>)
    requires |nums| == |ops| + 1
    ensures Flat(nums, ops).None? <==> exists j :: 0 <= j < |ops| && ops[j] == Divide && nums[j + 1] == 0.0
    decreases |ops|
  {
    if |ops| > 0 {
      RootIsRoot(ops);
      var k := Root(ops);
      FlatAtRoot(nums, ops, k);
      var ln, lo, rn, ro := nums[..k + 1], ops[..k], nums[k + 1..], ops[k + 1..];
      FlatFailsExactly(ln, lo);
      FlatFailsExactly(rn, ro);
      if ops[k] == Divide {
        assert ro == [];
        assert rn == [nums[k + 1]];
        assert Flat(rn, ro) == Some(nums[k + 1]);
      }
      if Flat(nums, ops).None? {
        if Flat(ln, lo).None? {
          var j :| 0 <= j < |lo| && lo[j] == Divide && ln[j + 1] == 0.0;
          assert ops[j] == Divide && nums[j + 1] == 0.0;
        } else if Flat(rn, ro).None? {
          var j :| 0 <= j < |ro| && ro[j] == Divide && rn[j + 1] == 0.0;
          assert ops[k + 1 + j] == Divide && nums[k + 1 + j + 1] == 0.0;
        } else {
          assert ops[k] == Divide && nums[k + 1] == 0.0;
        }
      } else {
        forall j | 0 <= j < |ops| && ops[j] == Divide
          ensures nums[j + 1] != 0.0
        {
          if j < k {
            assert lo[j] == ops[j] && ln[j + 1] == nums[j + 1];
          } else if j > k {
            assert ro[j - k - 1] == ops[j] && rn[j - k] == nums[j + 1];
          }
        }
      }
    }
  }

  /** Left-to-right application of the operators to an accumulator, stopping at
      the first failing step. */
  function FoldLeft(acc: real, nums: seq<real>, ops: seq<Op>): Option<real>
    requires |nums| == |ops|
    decreases |ops|
  {
    if |ops| == 0 then Some(acc)
    else
      match Calc(ops[0], acc, nums[0])
      case None => None
      case Some(a) => FoldLeft(a, nums[1..], ops[1..])
  }

  /** When all operators share one precedence, evaluation is a plain left fold:
      equal precedence associates to the left. */
  lemma {:induction false} UniformPrecedenceIsLeftFold(nums: seq<real>, ops: seq<Op>)
    requires |nums| == |ops| + 1
    requires forall t :: 0 <= t < |ops| ==> Precedence(ops[t]) == Precedence(ops[0])
    ensures Flat(nums, ops) == FoldLeft(nums[0], nums[1..], ops)
    decreases |ops|
  {
    if |ops| > 0 {
      ReduceSound(nums, ops, 0);
      var c := Calc(ops[0], nums[0], nums[1]);
      if c.Some? {
        var n', o' := ReducedNums(nums, 0, c.value), ReducedOps(ops, 0);
        assert n' == [c.value] + nums[2..];
        assert o' == ops[1..];
        UniformPrecedenceIsLeftFold(n', o');
        assert n'[1..] == nums[1..][1..];
      }
    }
  }

  /** Reducing the last two stacked operands, seen in the whole expression. */
  lemma ReducedNumsAtTop(operands: seq<real>, rest: seq<real>, v: real)
    requires |operands| >= 2
    ensures ReducedNums(operands + rest, |operands| - 2, v) == operands[..|operands| - 2] + [v] + rest
  {
  }

  /** Dropping the top stacked operator, seen in the whole expression. */
  lemma ReducedOpsAtTop(operators: seq<Op>, rest: seq<Op>)
    requires |operators| >= 1
    ensures ReducedOps(operators + rest, |operators| - 1) == operators[..|operators| - 1] + rest
  {
  }

  /** Reducing at the end of an expression. */
  lemma ReducedAtEnd(operands: seq<real>, operators: seq<Op>, v: real)
    requires |operands| == |operators| + 1 && |operators| > 0
    ensures ReducedNums(operands, |operands| - 2, v) == operands[..|operands| - 2] + [v]
    ensures ReducedOps(operators, |operators| - 1) == operators[..|operators| - 1]
  {
  }

  /** Stacked operators strictly increase in precedence from bottom to top. */
  predicate Climbing(operators: seq<Op>) {
    forall a, b :: 0 <= a < b < |operators| ==> Precedence(operators[a]) < Precedence(operators[b])
  }

  /** With two precedence levels a climbing stack holds at most two operators. */
  lemma ClimbingIsShort(operators: seq<Op>)
    requires Climbing(operators)
    ensures |operators| <= 2
  {
    assert |operators| >= 3 ==>
      Precedence(operators[0]) < Precedence(operators[1]) && Precedence(operators[1]) < Precedence(operators[2]);
  }

  /** Pushing an operator that binds more tightly than the top keeps the stack climbing. */
  lemma ClimbingPush(operators: seq<Op>, op: Op)
    requires Climbing(operators)
    requires operators == [] || Precedence(operators[|operators| - 1]) < Precedence(op)
    ensures Climbing(operators + [op])
  {
  }

  /** The top of the stacks seen in the pending expression, when the next operator
      binds no more tightly than the top one: the reduction there is sound. */
  lemma TopOfPending(operands: seq<real>, operators: seq<Op>, restNums: seq<real>, restOps: seq<Op>)
    requires |operands| == |operators| + 1 && |operators| > 0 && |restNums| == |restOps| > 0
    requires Climbing(operators)
    requires Precedence(restOps[0]) <= Precedence(operators[|operators| - 1])
    ensures
      Flat(operands + restNums, operators + restOps) ==
      Reduce(operands + restNums, operators + restOps, |operators| - 1)
  {
    var n, o, j := operands + restNums, operators + restOps, |operators| - 1;
    assert j > 0 ==> o[j - 1] == operators[j - 1];
    assert o[j] == operators[j] && o[j + 1] == restOps[0];
    ReduceSound(n, o, j);
  }

  /** Pushing the next input item onto a stack leaves the pending sequence as it was. */
  lemma PushView<T>(stack: seq<T>, input: seq<T>, i: nat)
    requires i < |input|
    ensures stack + [input[i]] + input[i + 1..] == stack + input[i..]
  {
  }

  /** Reducing the top stacked operator, seen in the pending expression, yields the
      stacks with their top two operands combined by it. */
  lemma ReduceAtTop(operands: seq<real>, operators: seq<Op>, restNums: seq<real>, restOps: seq<Op>)
    requires |operands| == |operators| + 1 && |operators| > 0 && |restNums| == |restOps|
    ensures
      var c := Calc(operators[|operators| - 1], operands[|operands| - 2], operands[|operands| - 1]);
      && (c.None? ==> Reduce(operands + restNums, operators + restOps, |operators| - 1) == None)
      && (c.Some? ==>
            Reduce(operands + restNums, operators + restOps, |operators| - 1) ==
            Flat(operands[..|operands| - 2] + [c.value] + restNums, operators[..|operators| - 1] + restOps))
  {
    var n, o, j := operands + restNums, operators + restOps, |operators| - 1;
    assert n[j] == operands[|operands| - 2] && n[j + 1] == operands[|operands| - 1] && o[j] == operators[j];
    var c := Calc(o[j], n[j], n[j + 1]);
    if c.Some? {
      ReducedNumsAtTop(operands, restNums, c.value);
      ReducedOpsAtTop(operators, restOps);
    }
  }

  /** One reduction at the top of the stacks, seen in the pending expression (the
      stacks followed by the input not yet read). */
  lemma ReduceTop(operands: seq<real>, operators: seq<Op>, restNums: seq<real>, restOps: seq<Op>)
    requires |operands| == |operators| + 1 && |operators| > 0 && |restNums| == |restOps| > 0
    requires Climbing(operators)
    requires Precedence(restOps[0]) <= Precedence(operators[|operators| - 1])
    ensures
      var c := Calc(operators[|operators| - 1], operands[|operands| - 2], operands[|operands| - 1]);
      && (c.None? ==> Flat(operands + restNums, operators + restOps) == None)
      && (c.Some? ==>
            Flat(operands + restNums, operators + restOps) ==
            Flat(operands[..|operands| - 2] + [c.value] + restNums, operators[..|operators| - 1] + restOps))
  {
    TopOfPending(operands, operators, restNums, restOps);
    ReduceAtTop(operands, operators, restNums, restOps);
  }

  /** The whole-span branch of `eval` (src/main.rs:276-301): a left-to-right pass
      with an operand stack and an operator stack, then a final drain. */
  method EvalWhole(nums: seq<real>, ops: seq<Op>) returns (r: Option<real>)
    requires |nums| == |ops| + 1
    ensures r == Flat(nums, ops)
  {
    if |nums| == 1 {
      return Some(nums[0]);
    }
    var operands: seq<real> := [nums[0]];
    var operators: seq<Op> := [];
    assert operands + nums[1..] == nums && operators + ops[0..] == ops;
    for i := 0 to |ops|
      invariant |operands| == |operators| + 1
      invariant Climbing(operators)
      invariant |operators| <= 2
      invariant Flat(operands + nums[i + 1..], operators + ops[i..]) == Flat(nums, ops)
    {
      var newOp, newNum := ops[i], nums[i + 1];
      var failed;
      failed, operands, operators := ReduceTighter(operands, operators, newOp, nums[i + 1..], ops[i..]);
      if failed {
        return None;
      }
      PushView(operands, nums, i + 1);
      PushView(operators, ops, i);
      ClimbingPush(operators, newOp);
      operands := operands + [newNum];
      operators := operators + [newOp];
      ClimbingIsShort(operators);
    }
    assert operands + nums[|ops| + 1..] == operands && operators + ops[|ops|..] == operators;
    r := Drain(operands, operators);
  }

  /** The inner loop of `eval` (src/main.rs:286-291): before `newOp` is pushed,
      reduce at the top of the stacks while the top operator binds at least as
      tightly. `restNums` and `restOps` are the input not yet read, starting with
      `newOp`; `failed` reports a division by zero. */
  method ReduceTighter(operands: seq<real>, operators: seq<Op>, newOp: Op, ghost restNums: seq<real>, ghost restOps: seq<Op>)
    returns (failed: bool, operands': seq<real>, operators': seq<Op>)
    requires |operands| == |operators| + 1 && Climbing(operators)
    requires |restNums| == |restOps| > 0 && restOps[0] == newOp
    ensures failed ==> Flat(operands + restNums, operators + restOps) == None
    ensures !failed ==>
      && |operands'| == |operators'| + 1 && Climbing(operators')
      && (operators' == [] || Precedence(operators'[|operators'| - 1]) < Precedence(newOp))
      && Flat(operands' + restNums, operators' + restOps) == Flat(operands + restNums, operators + restOps)
  {
    operands', operators' := operands, operators;
    while operators' != [] && Precedence(newOp) <= Precedence(operators'[|operators'| - 1])
      invariant |operands'| == |operators'| + 1 && Climbing(operators')
      invariant Flat(operands' + restNums, operators' + restOps) == Flat(operands + restNums, operators + restOps)
      decreases |operators'|
    {
      var s, f, top := operands'[|operands'| - 1], operands'[|operands'| - 2], operators'[|operators'| - 1];
      ReduceTop(operands', operators', restNums, restOps);
      var result := Calc(top, f, s);
      if result.None? {
        return true, operands', operators';
      }
      operands' := operands'[..|operands'| - 2] + [result.value];
      operators' := operators'[..|operators'| - 1];
    }
    failed := false;
  }

  /** The final drain of `eval` (src/main.rs:295-301): reduce at the top of the
      stack until one operand is left, which is the value. */
  method Drain(operands: seq<real>, operators: seq<Op>) returns (r: Option<real>)
    requires |operands| == |operators| + 1
    requires Climbing(operators)
    ensures r == Flat(operands, operators)
  {
    var operands, operators := operands, operators;
    ghost var value := Flat(operands, operators);
    while operators != []
      invariant |operands| == |operators| + 1
      invariant Climbing(operators)
      invariant Flat(operands, operators) == value
      decreases |operators|
    {
      var s, f, top := operands[|operands| - 1], operands[|operands| - 2], operators[|operators| - 1];
      ghost var j := |operators| - 1;
      assert j > 0 ==> Precedence(operators[j - 1]) < Precedence(operators[j]);
      ReduceSound(operands, operators, j);
      var result := Calc(top, f, s);
      if result.None? {
        return None;
      }
      ReducedAtEnd(operands, operators, result.value);
      operands := operands[..|operands| - 2] + [result.value];
      operators := operators[..|operators| - 1];
    }
    r := Some(operands[0]);
  }

  /** What `eval` demands of its arguments: an empty operand list is handled,
      otherwise one operator per adjacent pair and a span inside the expression. */
  predicate ValidCall(nums: seq<real>, ops: seq<Op>, lpar: nat, rpar: nat) {
    |nums| == 0 || (|ops| + 1 == |nums| && lpar <= rpar < |nums|)
  }

  /** The operands with the span `[lpar, rpar]` replaced by its value `v`. */
  function Splice(nums: seq<real>, lpar: nat, rpar: nat, v: real): (r: seq<real>)
    requires lpar <= rpar < |nums|
    ensures |r| == |nums| - (rpar - lpar)
  {
    nums[..lpar] + [v] + nums[rpar + 1..]
  }

  /** The operators left over once the span `[lpar, rpar]` is one operand: those
      before it and those after it, including the two that border it. */
  function SpliceOps(ops: seq<Op>, lpar: nat, rpar: nat): (r: seq<Op>)
    requires lpar <= rpar <= |ops|
    ensures |r| == |ops| - (rpar - lpar)
  {
    ops[..lpar] + ops[rpar..]
  }

  /** Reference value of an expression with its parenthesis span: a span covering
      everything is no parentheses at all; otherwise the span is evaluated on its
      own and its value takes its place. */
  ghost function EvalSpan(nums: seq<real>, ops: seq<Op>, lpar: nat, rpar: nat): Option<real>
    requires ValidCall(nums, ops, lpar, rpar)
    decreases |nums|, if lpar == 0 && rpar == |nums| - 1 then 0 else 1
  {
    if |nums| == 0 then None
    else if lpar == 0 && rpar == |nums| - 1 then Flat(nums, ops)
    else
      match EvalSpan(nums[lpar..rpar + 1], ops[lpar..rpar], 0, rpar - lpar)
      case None => None
      case Some(v) => EvalSpan(Splice(nums, lpar, rpar, v), SpliceOps(ops, lpar, rpar), 0, |nums| - (rpar - lpar) - 1)
  }

  /** `eval` (src/main.rs:269-344). The three cases of a strict sub-span (touching
      the left end, touching the right end, or neither) each evaluate the span
      recursively and re-evaluate the spliced expression as a whole. */
  method Eval(nums: seq<real>, ops: seq<Op>, lpar: nat, rpar: nat) returns (r: Option<real>)
    requires ValidCall(nums, ops, lpar, rpar)
    ensures r == EvalSpan(nums, ops, lpar, rpar)
    decreases |nums|, if lpar == 0 && rpar == |nums| - 1 then 0 else 1
  {
    if |nums| == 0 {
      return None;
    }
    if lpar == 0 && rpar == |nums| - 1 {
      r := EvalWhole(nums, ops);
      return;
    }
    var operands: seq<real>;
    var operators: seq<Op>;
    var inner := Eval(nums[lpar..rpar + 1], ops[lpar..rpar], 0, rpar - lpar);
    if inner.None? {
      return None;
    }
    if lpar == 0 {
      operands := [inner.value] + nums[rpar + 1..];
      operators := ops[rpar..];
      assert operands == Splice(nums, lpar, rpar, inner.value);
      assert operators == SpliceOps(ops, lpar, rpar);
    } else if rpar == |nums| - 1 {
      operands := nums[..lpar] + [inner.value];
      operators := ops[..lpar];
      assert operands == Splice(nums, lpar, rpar, inner.value);
      assert operators == SpliceOps(ops, lpar, rpar);
    } else {
      operands := nums[..lpar] + [inner.value] + nums[rpar + 1..];
      operators := ops[..lpar] + ops[rpar..];
    }
    r := Eval(operands, operators, 0, |operands| - 1);
  }

  /** An empty expression has no value, wherever the span is; a single operand
      is its own value. */
  lemma EvalSpanBaseCases(nums: seq<real>, ops: seq<Op>, lpar: nat, rpar: nat)
    ensures ValidCall([], ops, lpar, rpar) && EvalSpan([], ops, lpar, rpar) == None
    ensures |nums| == 1 ==> ValidCall(nums, [], 0, 0) && EvalSpan(nums, [], 0, 0) == Some(nums[0])
  {
  }

  /** The recursion of `eval` is one level deep: a strict sub-span is the flat
      value of the span, spliced in, and the flat value of the shorter result,
      which has one operand for each operand outside the span. */
  lemma SpanIsOneLevelDeep(nums: seq<real>, ops: seq<Op>, lpar: nat, rpar: nat)
    requires |nums| > 0 && ValidCall(nums, ops, lpar, rpar)
    requires !(lpar == 0 && rpar == |nums| - 1)
    ensures
      var inner := Flat(nums[lpar..rpar + 1], ops[lpar..rpar]);
      EvalSpan(nums, ops, lpar, rpar) ==
        if inner.None? then None
        else Flat(Splice(nums, lpar, rpar, inner.value), SpliceOps(ops, lpar, rpar))
    ensures |Splice(nums, lpar, rpar, 0.0)| == |nums| - (rpar - lpar)
  {
  }

  /** Parentheses around a single operand change nothing. */
  lemma SingleOperandSpanIsRedundant(nums: seq<real>, ops: seq<Op>, p: nat)
    requires |nums| == |ops| + 1 && p < |nums|
    ensures ValidCall(nums, ops, p, p)
    ensures EvalSpan(nums, ops, p, p) == Flat(nums, ops)
  {
    if !(p == 0 && p == |nums| - 1) {
      assert nums[p..p + 1] == [nums[p]];
      assert ops[p..p] == [];
      assert Splice(nums, p, p, nums[p]) == nums;
      assert SpliceOps(ops, p, p) == ops;
    }
  }

  /** Without a division operator every span placement evaluates. */
  lemma EvalSpanDefinedWithoutDivision(nums: seq<real>, ops: seq<Op>, lpar: nat, rpar: nat)
    requires |nums| > 0 && ValidCall(nums, ops, lpar, rpar)
    requires Divide !in ops
    ensures EvalSpan(nums, ops, lpar, rpar).Some?
  {
    if !(lpar == 0 && rpar == |nums| - 1) {
      var sub := ops[lpar..rpar];
      forall t | 0 <= t < |sub|
        ensures sub[t] != Divide
      {
        assert sub[t] == ops[lpar + t];
      }
      FlatDefinedWithoutDivision(nums[lpar..rpar + 1], sub);
      var v := Flat(nums[lpar..rpar + 1], sub).value;
      var so := SpliceOps(ops, lpar, rpar);
      forall t | 0 <= t < |so|
        ensures so[t] != Divide
      {
        assert so[t] == if t < lpar then ops[t] else ops[t + (rpar - lpar)];
      }
      FlatDefinedWithoutDivision(Splice(nums, lpar, rpar, v), so);
    } else {
      FlatDefinedWithoutDivision(nums, ops);
    }
  }

  /** A single operator is its own root. */
  lemma SingleOperator(a: real, b: real, op: Op)
    ensures Flat([a, b], [op]) == Calc(op, a, b)
  {
    assert [a, b][..1] == [a] && [a, b][1..] == [b] && [op][..0] == [] && [op][1..] == [];
    assert Flat([a, b], [op]) == SplitAt([a, b], [op], 0);
    assert SplitAt([a, b], [op], 0) == Combine(op, Flat([a], []), Flat([b], []));
  }

  /** Multiplication binds more tightly than addition: 1 + 2 * 3 is 7. */
  lemma PrecedenceExample()
    ensures EvalSpan([1.0, 2.0, 3.0], [Plus, Multiply], 0, 2) == Some(7.0)
  {
    var nums, ops := [1.0, 2.0, 3.0], [Plus, Multiply];
    RootIsRoot(ops);
    assert IsRoot(ops, 0);
    RootUnique(ops, Root(ops), 0);
    assert nums[..1] == [1.0] && ops[..0] == [] && nums[1..] == [2.0, 3.0] && ops[1..] == [Multiply];
    SingleOperator(2.0, 3.0, Multiply);
  }

  /** Operators of equal precedence group to the left: 8 / 2 / 2 is 2. */
  lemma LeftAssociativityExample()
    ensures EvalSpan([8.0, 2.0, 2.0], [Divide, Divide], 0, 2) == Some(2.0)
  {
    var nums, ops := [8.0, 2.0, 2.0], [Divide, Divide];
    RootIsRoot(ops);
    assert IsRoot(ops, 1);
    RootUnique(ops, Root(ops), 1);
    assert nums[..2] == [8.0, 2.0] && ops[..1] == [Divide] && nums[2..] == [2.0] && ops[2..] == [];
    SingleOperator(8.0, 2.0, Divide);
  }

  /** Parentheses around the first two operands: (1 + 2) * 3 is 9. */
  lemma SpanExample()
    ensures EvalSpan([1.0, 2.0, 3.0], [Plus, Multiply], 0, 1) == Some(9.0)
  {
    var nums, ops := [1.0, 2.0, 3.0], [Plus, Multiply];
    assert nums[0..2] == [1.0, 2.0] && ops[0..1] == [Plus];
    SingleOperator(1.0, 2.0, Plus);
    assert Splice(nums, 0, 1, 3.0) == [3.0, 3.0] && SpliceOps(ops, 0, 1) == [Multiply];
    SingleOperator(3.0, 3.0, Multiply);
  }

  /** A span that divides by zero fails the whole expression: 1 / (2 - 2) has no value. */
  lemma DivisionByZeroInSpanExample()
    ensures EvalSpan([1.0, 2.0, 2.0], [Divide, Minus], 1, 2) == None
  {
    var nums, ops := [1.0, 2.0, 2.0], [Divide, Minus];
    assert nums[1..3] == [2.0, 2.0] && ops[1..2] == [Minus];
    SingleOperator(2.0, 2.0, Minus);
    assert Splice(nums, 1, 2, 0.0) == [1.0, 0.0] && SpliceOps(ops, 1, 2) == [Divide];
    SingleOperator(1.0, 0.0, Divide);
  }
}
