/** The brute-force search of the solver (`brute_force_find`, `permute_numbers`,
    `permute_ops` and `permute_parantheses` in src/main.rs) and the driver step of
    `main` that sorts and de-duplicates what it finds.

    The search tries every ordering of the operands, every operator sequence over
    the allowed operators, and every parenthesis span `[i, j]` with `i < j`, in
    that nesting and in a fixed order. `ParenMatches`, `OpSearch` and `NumSearch`
    list, in the order the source visits them, every solution found in
    all-solutions mode; in first-only mode each method returns the first of them
    (`Pick`). The member lemmas characterise those lists independently: a
    solution is listed exactly when its operands are a permutation of the input,
    its operators are drawn from the allowed set, its span is proper, and it
    evaluates to the target.

    The shared `&mut Vec` buffers of the source are threaded through as an input
    and an output parameter: each method returns the buffer as it leaves it. */
module Search {
  import opened Optional
  import opened Ops
  import opened Evaluator
  import opened Solutions

  /** The first element, if any: what first-only mode keeps. */
  function Take1(s: seq<Solution>): (r: seq<Solution>)
    ensures |r| <= 1
    ensures r == [] <==> s == []
    ensures r != [] ==> r[0] == s[0]
  {
    if s == [] then [] else [s[0]]
  }

  /** What a search returns: everything in all-solutions mode, else the first. */
  function Pick(s: seq<Solution>, all: bool): seq<Solution> {
    if all then s else Take1(s)
  }

  /** Moving the next block of a search order into the answers collected so far;
      in first-only mode, a non-empty block holds the first answer of the search. */
  lemma Advance(done: seq<Solution>, next: seq<Solution>, rest: seq<Solution>, whole: seq<Solution>, all: bool)
    requires done + (next + rest) == whole
    requires !all ==> done == []
    ensures (done + next) + rest == whole
    ensures !all && next != [] ==> Take1(next) == Take1(whole)
  {
  }

  /** `s` is a solution of the puzzle for `target` on its own terms: one operator
      between each pair of operands, a span of at least two operands, and the
      parenthesised expression evaluates to the target. */
  ghost predicate Solves(s: Solution, target: real) {
    && |s.nums| == |s.ops| + 1
    && s.lpar < s.rpar < |s.nums|
    && EvalSpan(s.nums, s.ops, s.lpar, s.rpar) == Some(target)
  }

  /** Every operator is one of the allowed ones. */
  predicate UsesOps(ops: seq<Op>, allowed: seq<Op>) {
    forall t :: 0 <= t < |ops| ==> ops[t] in allowed
  }

  // ---------------------------------------------------------------------------
  // permute_parantheses

  /** The span `[i, j]` of the expression evaluates to the target. */
  ghost predicate Hit(nums: seq<real>, ops: seq<Op>, target: real, i: nat, j: nat)
    requires |nums| == |ops| + 1 && i <= j < |nums|
  {
    EvalSpan(nums, ops, i, j) == Some(target)
  }

  /** The solutions among the spans `permute_parantheses` has still to try once
      it reaches `[i, j]`: the rest of row `i` by increasing right end, then the
      later rows. */
  ghost function Spans(nums: seq<real>, ops: seq<Op>, target: real, i: nat, j: nat): seq<Solution>
    requires |nums| == |ops| + 1 && i < j <= |nums|
    decreases |nums| - i, |nums| - j
  {
    if i + 1 >= |nums| then []
    else if j == |nums| then Spans(nums, ops, target, i + 1, i + 2)
    else (if Hit(nums, ops, target, i, j) then [Solution(nums, ops, i, j)] else []) + Spans(nums, ops, target, i, j + 1)
  }

  /** Every span placement of one operand/operator sequence that hits the target,
      in the order `permute_parantheses` tries them. */
  ghost function ParenMatches(nums: seq<real>, ops: seq<Op>, target: real): seq<Solution>
    requires |nums| == |ops| + 1
  {
    Spans(nums, ops, target, 0, 1)
  }

  /** The span of `s` is `[i, j]` or comes after it in the order spans are tried:
      later in row `i`, or in a later row. */
  predicate Later(i: nat, j: nat, s: Solution) {
    (s.lpar == i && j <= s.rpar) || i < s.lpar
  }

  /** Everything listed is a hit at or after `[i, j]`. */
  lemma {:induction false} SpansSound(nums: seq<real>, ops: seq<Op>, target: real, i: nat, j: nat, s: Solution)
    requires |nums| == |ops| + 1 && i < j <= |nums|
    requires s in Spans(nums, ops, target, i, j)
    ensures s.nums == nums && s.ops == ops && s.lpar < s.rpar < |nums| && Later(i, j, s)
    ensures Hit(nums, ops, target, s.lpar, s.rpar)
    decreases |nums| - i, |nums| - j
  {
    if j == |nums| {
      SpansSound(nums, ops, target, i + 1, i + 2, s);
    } else {
      var hit := Hit(nums, ops, target, i, j);
      var here := if hit then [Solution(nums, ops, i, j)] else [];
      assert Spans(nums, ops, target, i, j) == here + Spans(nums, ops, target, i, j + 1);
      if s in here {
        assert hit && s == Solution(nums, ops, i, j);
      } else {
        SpansSound(nums, ops, target, i, j + 1, s);
      }
    }
  }

  /** Every hit at or after `[i, j]` is listed. */
  lemma {:induction false} SpansComplete(nums: seq<real>, ops: seq<Op>, target: real, i: nat, j: nat, s: Solution)
    requires |nums| == |ops| + 1 && i < j <= |nums|
    requires s.nums == nums && s.ops == ops && s.lpar < s.rpar < |nums| && Later(i, j, s)
    requires Hit(nums, ops, target, s.lpar, s.rpar)
    ensures s in Spans(nums, ops, target, i, j)
    decreases |nums| - i, |nums| - j
  {
    if j == |nums| {
      SpansComplete(nums, ops, target, i + 1, i + 2, s);
    } else {
      var here := if Hit(nums, ops, target, i, j) then [Solution(nums, ops, i, j)] else [];
      var rest := Spans(nums, ops, target, i, j + 1);
      assert Spans(nums, ops, target, i, j) == here + rest;
      if s.lpar == i && s.rpar == j {
        assert s == Solution(nums, ops, i, j) && here == [s];
      } else {
        SpansComplete(nums, ops, target, i, j + 1, s);
      }
    }
  }

  /** The spans still to try from `[i, j]` on hold exactly the hits from there on. */
  lemma SpansMember(nums: seq<real>, ops: seq<Op>, target: real, i: nat, j: nat, s: Solution)
    requires |nums| == |ops| + 1 && i < j <= |nums|
    ensures s in Spans(nums, ops, target, i, j) <==>
              && s.nums == nums && s.ops == ops && s.lpar < s.rpar < |nums| && Later(i, j, s)
              && Hit(nums, ops, target, s.lpar, s.rpar)
  {
    if s in Spans(nums, ops, target, i, j) {
      SpansSound(nums, ops, target, i, j, s);
    }
    if s.nums == nums && s.ops == ops && s.lpar < s.rpar < |nums| && Later(i, j, s) && Hit(nums, ops, target, s.lpar, s.rpar) {
      SpansComplete(nums, ops, target, i, j, s);
    }
  }

  /** `permute_parantheses` finds exactly the proper spans that hit the target. */
  lemma ParenMember(nums: seq<real>, ops: seq<Op>, target: real, s: Solution)
    requires |nums| == |ops| + 1
    ensures s in ParenMatches(nums, ops, target) <==> s.nums == nums && s.ops == ops && Solves(s, target)
  {
    SpansMember(nums, ops, target, 0, 1, s);
  }

  /** A single operand has no span of two or more operands, so nothing is found. */
  lemma SingleOperandHasNoParens(nums: seq<real>, target: real)
    requires |nums| == 1
    ensures ParenMatches(nums, [], target) == []
  {
  }

  /** `permute_parantheses` (src/main.rs:245-264): tries every span `[i, j]` with
      `i < j`, row by row, and keeps those that evaluate to the target; in
      first-only mode it returns the first hit at once. */
  method PermuteParens(nums: seq<real>, ops: seq<Op>, target: real, all: bool) returns (answers: seq<Solution>)
    requires |nums| == |ops| + 1
    ensures answers == Pick(ParenMatches(nums, ops, target), all)
  {
    answers := [];
    for i := 0 to |nums| - 1
      invariant answers + Spans(nums, ops, target, i, i + 1) == ParenMatches(nums, ops, target)
      invariant !all ==> answers == []
    {
      for j := i + 1 to |nums|
        invariant answers + Spans(nums, ops, target, i, j) == ParenMatches(nums, ops, target)
        invariant !all ==> answers == []
      {
        var returned := Eval(nums, ops, i, j);
        var sol := Solution(nums, ops, i, j);
        ghost var here := if Hit(nums, ops, target, i, j) then [sol] else [];
        Advance(answers, here, Spans(nums, ops, target, i, j + 1), ParenMatches(nums, ops, target), all);
        if returned.Some? && returned.value == target {
          if all {
            answers := answers + [sol];
          } else {
            return [sol];
          }
        } else {
          assert answers + here == answers;
        }
      }
    }
  }

  // ---------------------------------------------------------------------------
  // permute_ops

  /** The solutions found once `used` is extended to a full operator sequence by
      every choice over `allowed`, in the order `permute_ops` tries them. */
  ghost function OpSearch(nums: seq<real>, used: seq<Op>, allowed: seq<Op>, target: real): seq<Solution>
    requires |used| < |nums|
    decreases |nums| - |used|, 1, 0
  {
    if |used| == |nums| - 1 then ParenMatches(nums, used, target)
    else OpSearchFrom(nums, used, allowed, target, 0)
  }

  /** The part of `OpSearch` whose next operator is `allowed[k]` or a later one. */
  ghost function OpSearchFrom(nums: seq<real>, used: seq<Op>, allowed: seq<Op>, target: real, k: nat): seq<Solution>
    requires |used| < |nums| - 1 && k <= |allowed|
    decreases |nums| - |used|, 0, |allowed| - k
  {
    if k == |allowed| then []
    else OpSearch(nums, used + [allowed[k]], allowed, target) + OpSearchFrom(nums, used, allowed, target, k + 1)
  }

  /** What `OpSearch` lists: solutions on `nums` whose operators extend `used` by
      allowed operators. */
  ghost predicate OpFound(nums: seq<real>, used: seq<Op>, allowed: seq<Op>, target: real, s: Solution) {
    && s.nums == nums && |used| <= |s.ops| && s.ops[..|used|] == used
    && UsesOps(s.ops[|used|..], allowed) && Solves(s, target)
  }

  /** Fixing the next operator of an extension. */
  lemma OpFoundStep(nums: seq<real>, used: seq<Op>, allowed: seq<Op>, target: real, k: nat, s: Solution)
    requires |used| < |nums| - 1 && k < |allowed|
    ensures OpFound(nums, used + [allowed[k]], allowed, target, s) <==>
              OpFound(nums, used, allowed, target, s) && s.ops[|used|] == allowed[k]
  {
    var u := used + [allowed[k]];
    if OpFound(nums, u, allowed, target, s) {
      assert s.ops[..|used|] == s.ops[..|u|][..|used|];
      assert s.ops[|used|] == s.ops[..|u|][|used|];
      forall t | 0 <= t < |s.ops[|used|..]|
        ensures s.ops[|used|..][t] in allowed
      {
        if t > 0 {
          assert s.ops[|used|..][t] == s.ops[|u|..][t - 1];
        }
      }
    }
    if OpFound(nums, used, allowed, target, s) && s.ops[|used|] == allowed[k] {
      assert s.ops[..|u|] == s.ops[..|used|] + [s.ops[|used|]];
      forall t | 0 <= t < |s.ops[|u|..]|
        ensures s.ops[|u|..][t] in allowed
      {
        assert s.ops[|u|..][t] == s.ops[|used|..][t + 1];
      }
    }
  }

  /** `OpSearch` lists exactly the solutions its operator prefix leads to. */
  lemma {:induction false} OpSearchMember(nums: seq<real>, used: seq<Op>, allowed: seq<Op>, target: real, s: Solution)
    requires |used| < |nums|
    ensures s in OpSearch(nums, used, allowed, target) <==> OpFound(nums, used, allowed, target, s)
    decreases |nums| - |used|, 1, 0
  {
    if |used| == |nums| - 1 {
      ParenMember(nums, used, target, s);
      if OpFound(nums, used, allowed, target, s) {
        assert s.ops == s.ops[..|used|];
      }
    } else {
      OpSearchFromMember(nums, used, allowed, target, 0, s);
      if OpFound(nums, used, allowed, target, s) {
        assert s.ops[|used|..][0] == s.ops[|used|];
        assert allowed[0..] == allowed;
      }
    }
  }

  /** `OpSearchFrom` lists exactly those whose next operator is `allowed[k]` or later. */
  lemma {:induction false} OpSearchFromMember(nums: seq<real>, used: seq<Op>, allowed: seq<Op>, target: real, k: nat, s: Solution)
    requires |used| < |nums| - 1 && k <= |allowed|
    ensures s in OpSearchFrom(nums, used, allowed, target, k) <==>
              OpFound(nums, used, allowed, target, s) && |s.ops| > |used| && s.ops[|used|] in allowed[k..]
    decreases |nums| - |used|, 0, |allowed| - k
  {
    if k < |allowed| {
      OpSearchMember(nums, used + [allowed[k]], allowed, target, s);
      OpSearchFromMember(nums, used, allowed, target, k + 1, s);
      OpFoundStep(nums, used, allowed, target, k, s);
      assert allowed[k..] == [allowed[k]] + allowed[k + 1..];
      if OpFound(nums, used, allowed, target, s) {
        assert |s.ops| == |nums| - 1;
      }
    }
  }

  /** `permute_ops` (src/main.rs:227-243): once the operator buffer `used` has one
      operator fewer than `nums` it tries the spans; otherwise it extends the
      buffer. The buffer comes back as it went in, except in first-only mode after
      a find, when it holds the operators of the answer. */
  method PermuteOps(nums: seq<real>, used: seq<Op>, allowed: seq<Op>, target: real, all: bool)
    returns (answers: seq<Solution>, usedOut: seq<Op>)
    requires |used| < |nums|
    ensures answers == Pick(OpSearch(nums, used, allowed, target), all)
    ensures usedOut == if !all && answers != [] then answers[0].ops else used
    decreases |nums| - |used|, 1
  {
    if |used| == |nums| - 1 {
      answers := PermuteParens(nums, used, target, all);
      if answers != [] {
        ParenMember(nums, used, target, answers[0]);
      }
      return answers, used;
    }
    answers, usedOut := ExtendOps(nums, used, allowed, target, all);
  }

  /** The loop of `permute_ops` (src/main.rs:234-242): pushes each allowed operator
      in turn, recurses, and pops it again; in first-only mode it stops at the
      first answer without popping. */
  method ExtendOps(nums: seq<real>, used: seq<Op>, allowed: seq<Op>, target: real, all: bool)
    returns (answers: seq<Solution>, usedOut: seq<Op>)
    requires |used| < |nums| - 1
    ensures answers == Pick(OpSearchFrom(nums, used, allowed, target, 0), all)
    ensures usedOut == if !all && answers != [] then answers[0].ops else used
    decreases |nums| - |used|, 0
  {
    answers := [];
    var buffer := used;
    for k := 0 to |allowed|
      invariant buffer == used
      invariant answers + OpSearchFrom(nums, used, allowed, target, k) == OpSearchFrom(nums, used, allowed, target, 0)
      invariant !all ==> answers == []
    {
      buffer := buffer + [allowed[k]];
      var returned;
      returned, buffer := PermuteOps(nums, buffer, allowed, target, all);
      ghost var next := OpSearch(nums, used + [allowed[k]], allowed, target);
      assert returned == Pick(next, all);
      Advance(answers, next, OpSearchFrom(nums, used, allowed, target, k + 1), OpSearchFrom(nums, used, allowed, target, 0), all);
      answers := answers + returned;
      if !all && |answers| > 0 {
        return answers, buffer;
      }
      buffer := buffer[..|buffer| - 1];
    }
    usedOut := buffer;
  }

  // ---------------------------------------------------------------------------
  // permute_numbers

  /** `s` without its element at `i`. */
  function RemoveAt(s: seq<real>, i: nat): (r: seq<real>)
    requires i < |s|
    ensures |r| == |s| - 1
    ensures multiset(r) + multiset{s[i]} == multiset(s)
  {
    assert s == s[..i] + [s[i]] + s[i + 1..];
    s[..i] + s[i + 1..]
  }

  /** The solutions found once `built` is extended by every ordering of
      `remaining`, in the order `permute_numbers` tries them. */
  ghost function NumSearch(built: seq<real>, remaining: seq<real>, allowed: seq<Op>, target: real): seq<Solution>
    requires |built| + |remaining| > 0
    decreases |remaining|, 1, 0
  {
    if |remaining| == 0 then OpSearch(built, [], allowed, target)
    else NumSearchFrom(built, remaining, allowed, target, 0)
  }

  /** The part of `NumSearch` whose next operand is `remaining[i]` or a later one. */
  ghost function NumSearchFrom(built: seq<real>, remaining: seq<real>, allowed: seq<Op>, target: real, i: nat): seq<Solution>
    requires |remaining| > 0 && i <= |remaining|
    decreases |remaining|, 0, |remaining| - i
  {
    if i == |remaining| then []
    else
      NumSearch(built + [remaining[i]], RemoveAt(remaining, i), allowed, target) +
      NumSearchFrom(built, remaining, allowed, target, i + 1)
  }

  /** `nums` starts with `built` and continues with a rearrangement of `remaining`. */
  predicate Arranged(built: seq<real>, remaining: seq<real>, nums: seq<real>) {
    |built| <= |nums| && nums[..|built|] == built && multiset(nums[|built|..]) == multiset(remaining)
  }

  /** What `NumSearch` lists: solutions whose operands are `built` followed by a
      permutation of `remaining`, with allowed operators. */
  ghost predicate NumFound(built: seq<real>, remaining: seq<real>, allowed: seq<Op>, target: real, s: Solution) {
    Arranged(built, remaining, s.nums) && UsesOps(s.ops, allowed) && Solves(s, target)
  }

  /** Fixing the next operand of an ordering: an ordering continues `built` and
      `remaining[i]` with the rest of `remaining` exactly when it continues `built`
      with `remaining` and its next operand is `remaining[i]`. */
  lemma ArrangedStep(built: seq<real>, remaining: seq<real>, i: nat, nums: seq<real>)
    requires i < |remaining|
    ensures Arranged(built + [remaining[i]], RemoveAt(remaining, i), nums) <==>
              Arranged(built, remaining, nums) && |nums| > |built| && nums[|built|] == remaining[i]
  {
    var b := built + [remaining[i]];
    if |nums| > |built| {
      assert nums[|built|..] == [nums[|built|]] + nums[|b|..];
    }
    if Arranged(b, RemoveAt(remaining, i), nums) {
      assert nums[..|built|] == nums[..|b|][..|built|];
      assert nums[|built|] == nums[..|b|][|built|];
    }
    if Arranged(built, remaining, nums) && |nums| > |built| && nums[|built|] == remaining[i] {
      assert nums[..|b|] == nums[..|built|] + [nums[|built|]];
      var rest, left := multiset(nums[|b|..]), multiset(RemoveAt(remaining, i));
      var x := multiset{remaining[i]};
      assert rest + x == left + x;
      forall e
        ensures rest[e] == left[e]
      {
        assert (rest + x)[e] == (left + x)[e];
      }
      assert rest == left;
    }
  }

  /** `NumSearch` lists exactly the solutions its operand prefix leads to. */
  lemma {:induction false} NumSearchMember(built: seq<real>, remaining: seq<real>, allowed: seq<Op>, target: real, s: Solution)
    requires |built| + |remaining| > 0
    ensures s in NumSearch(built, remaining, allowed, target) <==> NumFound(built, remaining, allowed, target, s)
    decreases |remaining|, 1, 0
  {
    if |remaining| == 0 {
      OpSearchMember(built, [], allowed, target, s);
      if NumFound(built, remaining, allowed, target, s) {
        assert |s.nums[|built|..]| == 0;
        assert s.nums == s.nums[..|built|];
      }
      if OpFound(built, [], allowed, target, s) {
        assert s.ops[0..] == s.ops;
        assert s.nums[|built|..] == [];
      }
    } else {
      NumSearchFromMember(built, remaining, allowed, target, 0, s);
      if NumFound(built, remaining, allowed, target, s) {
        assert |multiset(s.nums[|built|..])| == |remaining|;
        assert s.nums[|built|] == s.nums[|built|..][0];
        assert s.nums[|built|] in multiset(remaining);
        assert remaining[0..] == remaining;
      }
    }
  }

  /** `NumSearchFrom` lists exactly those whose next operand is `remaining[i]` or a
      later entry of `remaining`. */
  lemma {:induction false} NumSearchFromMember(built: seq<real>, remaining: seq<real>, allowed: seq<Op>, target: real, i: nat, s: Solution)
    requires |remaining| > 0 && i <= |remaining|
    ensures s in NumSearchFrom(built, remaining, allowed, target, i) <==>
              NumFound(built, remaining, allowed, target, s) && |s.nums| > |built| && s.nums[|built|] in remaining[i..]
    decreases |remaining|, 0, |remaining| - i
  {
    if i < |remaining| {
      NumSearchMember(built + [remaining[i]], RemoveAt(remaining, i), allowed, target, s);
      NumSearchFromMember(built, remaining, allowed, target, i + 1, s);
      ArrangedStep(built, remaining, i, s.nums);
      assert remaining[i..] == [remaining[i]] + remaining[i + 1..];
    }
  }

  /** `permute_numbers` (src/main.rs:207-225): once no operand remains it tries
      every operator sequence on the ordering in `built`; otherwise it extends
      the ordering. The buffer comes back as it went in, except in first-only mode
      after a find, when it holds the operands of the answer. */
  method PermuteNumbers(built: seq<real>, remaining: seq<real>, allowed: seq<Op>, target: real, all: bool)
    returns (answers: seq<Solution>, builtOut: seq<real>)
    requires |built| + |remaining| > 0
    ensures answers == Pick(NumSearch(built, remaining, allowed, target), all)
    ensures builtOut == if !all && answers != [] then answers[0].nums else built
    decreases |remaining|, 1
  {
    if |remaining| == 0 {
      var usedOps := [];
      answers, usedOps := PermuteOps(built, usedOps, allowed, target, all);
      if answers != [] {
        OpSearchMember(built, [], allowed, target, answers[0]);
      }
      return answers, built;
    }
    answers, builtOut := ExtendNumbers(built, remaining, allowed, target, all);
  }

  /** The loop of `permute_numbers` (src/main.rs:215-224): moves each remaining
      operand in turn onto the end of the buffer, recurses, and pops it again; in
      first-only mode it stops at the first answer without popping. */
  method ExtendNumbers(built: seq<real>, remaining: seq<real>, allowed: seq<Op>, target: real, all: bool)
    returns (answers: seq<Solution>, builtOut: seq<real>)
    requires |remaining| > 0
    ensures answers == Pick(NumSearchFrom(built, remaining, allowed, target, 0), all)
    ensures builtOut == if !all && answers != [] then answers[0].nums else built
    decreases |remaining|, 0
  {
    answers := [];
    var buffer := built;
    for i := 0 to |remaining|
      invariant buffer == built
      invariant answers + NumSearchFrom(built, remaining, allowed, target, i) == NumSearchFrom(built, remaining, allowed, target, 0)
      invariant !all ==> answers == []
    {
      var newRem := RemoveAt(remaining, i);
      buffer := buffer + [remaining[i]];
      var returned;
      returned, buffer := PermuteNumbers(buffer, newRem, allowed, target, all);
      ghost var next := NumSearch(built + [remaining[i]], newRem, allowed, target);
      assert returned == Pick(next, all);
      Advance(answers, next, NumSearchFrom(built, remaining, allowed, target, i + 1),
              NumSearchFrom(built, remaining, allowed, target, 0), all);
      answers := answers + returned;
      if !all && |answers| > 0 {
        return answers, buffer;
      }
      buffer := buffer[..|buffer| - 1];
    }
    builtOut := buffer;
  }

  // ---------------------------------------------------------------------------
  // brute_force_find and the driver

  /** Every solution of the puzzle on `nums`, in search order. */
  ghost function Found(nums: seq<real>, allowed: seq<Op>, target: real): seq<Solution>
    requires |nums| > 0
  {
    NumSearch([], nums, allowed, target)
  }

  /** The search is sound and complete: it lists exactly the rearrangements of
      the input, with allowed operators and a proper span, that reach the target. */
  lemma FoundMember(nums: seq<real>, allowed: seq<Op>, target: real, s: Solution)
    requires |nums| > 0
    ensures s in Found(nums, allowed, target) <==>
              multiset(s.nums) == multiset(nums) && UsesOps(s.ops, allowed) && Solves(s, target)
  {
    NumSearchMember([], nums, allowed, target, s);
    assert s.nums[0..] == s.nums;
  }

  /** With one input number nothing is ever found: no span has two operands. */
  lemma SingleNumberHasNoSolution(nums: seq<real>, allowed: seq<Op>, target: real)
    requires |nums| == 1
    ensures Found(nums, allowed, target) == []
  {
    assert [] + [nums[0]] == nums && RemoveAt(nums, 0) == [];
    SingleOperandHasNoParens(nums, target);
    assert OpSearch(nums, [], allowed, target) == [];
    assert NumSearchFrom([], nums, allowed, target, 1) == [];
    assert NumSearchFrom([], nums, allowed, target, 0) == [];
  }

  /** Single-versus-all consistency of the search: first-only mode returns at
      most one solution, returns one exactly when all-solutions mode finds any,
      and what it returns is among those and is a genuine solution. */
  lemma FirstOnlyFindsWhenAny(nums: seq<real>, allowed: seq<Op>, target: real)
    requires |nums| > 0
    ensures |Pick(Found(nums, allowed, target), false)| <= 1
    ensures Pick(Found(nums, allowed, target), false) == [] <==> Pick(Found(nums, allowed, target), true) == []
    ensures Pick(Found(nums, allowed, target), false) != [] ==>
              var s := Pick(Found(nums, allowed, target), false)[0];
              && s in Pick(Found(nums, allowed, target), true)
              && multiset(s.nums) == multiset(nums) && UsesOps(s.ops, allowed) && Solves(s, target)
  {
    var x := Found(nums, allowed, target);
    if x != [] {
      FoundMember(nums, allowed, target, x[0]);
    }
  }

  /** `brute_force_find` (src/main.rs:202-205): the search from an empty buffer. */
  method BruteForceFind(nums: seq<real>, allowed: seq<Op>, target: real, all: bool) returns (answers: seq<Solution>)
    requires |nums| > 0
    ensures answers == Pick(Found(nums, allowed, target), all)
  {
    var v := [];
    answers, v := PermuteNumbers(v, nums, allowed, target, all);
  }

  /** The solving step of `main` (src/main.rs:176-180): search, then sort the
      results by `before` and drop adjacent repeats. The printed list is strictly
      ascending and holds exactly the solutions the search returned. */
  method Solve(nums: seq<real>, allowed: seq<Op>, target: real, all: bool) returns (results: seq<Solution>)
    requires |nums| > 0
    ensures StrictlySorted(results)
    ensures forall s :: s in results <==> s in Pick(Found(nums, allowed, target), all)
    ensures results == Canonicalize(Pick(Found(nums, allowed, target), all))
  {
    var answers := BruteForceFind(nums, allowed, target, all);
    var sorted := Sort(answers);
    results := Dedup(sorted);
    assert results == Canonicalize(answers);
  }
}
