/** Solutions and how the solver orders and de-duplicates them before printing
    (`Solution`, `Solution::before` and the sort/dedup in `main`, src/main.rs).

    A solution records the operands in the order used, the operators between
    them, and the inclusive parenthesis span `[lpar, rpar]` of operand positions.
    `Before` compares two solutions key by key (lpar, then rpar, then the
    operators, then the operands), each key in DESCENDING order: a larger key
    comes first. It is a strict total order whose `Equal` is identity, so sorting
    by it and dropping adjacent repeats yields the unique strictly ascending
    sequence of the distinct solutions, whatever order the search produced. */
module Solutions {
  import opened Ops

  datatype Solution = Solution(nums: seq<real>, ops: seq<Op>, lpar: nat, rpar: nat)

  datatype Ordering = Less | Equal | Greater

  function Flip(o: Ordering): Ordering {
    match o
    case Less => Greater
    case Equal => Equal
    case Greater => Less
  }

  /** Lexicographic `<` on sequences, a proper prefix being smaller (how vectors
      compare). */
  predicate LexLess(a: seq<real>, b: seq<real>)
    decreases |a|
  {
    if |a| == 0 then |b| > 0
    else if |b| == 0 then false
    else if a[0] != b[0] then a[0] < b[0]
    else LexLess(a[1..], b[1..])
  }

  /** `a` is smaller than `b` at position `k`: they agree before `k`, and there
      `a` has ended while `b` has not, or `a` holds the smaller element. */
  predicate SmallerAt(a: seq<real>, b: seq<real>, k: nat) {
    && k <= |a| && k <= |b| && a[..k] == b[..k]
    && (if k == |a| then k < |b| else k < |b| && a[k] < b[k])
  }

  /** The independent statement of lexicographic order: `a < b` exactly when
      `a` is smaller at the first position where the two differ. */
  lemma {:induction false} LexLessFirstDifference(a: seq<real>, b: seq<real>)
    ensures LexLess(a, b) <==> exists k: nat :: SmallerAt(a, b, k)
    decreases |a|
  {
    if |a| == 0 || |b| == 0 {
      if LexLess(a, b) {
        assert SmallerAt(a, b, 0);
      }
    } else if a[0] != b[0] {
      if LexLess(a, b) {
        assert SmallerAt(a, b, 0);
      }
      if exists k: nat :: SmallerAt(a, b, k) {
        var k: nat :| SmallerAt(a, b, k);
        if k != 0 {
          assert a[..k][0] == b[..k][0];
        }
      }
    } else {
      LexLessFirstDifference(a[1..], b[1..]);
      if LexLess(a, b) {
        var k: nat :| SmallerAt(a[1..], b[1..], k);
        assert a[..k + 1] == [a[0]] + a[1..][..k];
        assert b[..k + 1] == [b[0]] + b[1..][..k];
        assert SmallerAt(a, b, k + 1);
      }
      if exists k: nat :: SmallerAt(a, b, k) {
        var k: nat :| SmallerAt(a, b, k);
        assert k != 0;
        assert a[1..][..k - 1] == a[..k][1..];
        assert b[1..][..k - 1] == b[..k][1..];
        assert SmallerAt(a[1..], b[1..], k - 1);
      }
    }
  }

  lemma {:induction false} LexIrreflexive(a: seq<real>)
    ensures !LexLess(a, a)
    decreases |a|
  {
    if |a| > 0 {
      LexIrreflexive(a[1..]);
    }
  }

  lemma {:induction false} LexAsymmetric(a: seq<real>, b: seq<real>)
    requires LexLess(a, b)
    ensures !LexLess(b, a)
    decreases |a|
  {
    if |a| > 0 && a[0] == b[0] {
      LexAsymmetric(a[1..], b[1..]);
    }
  }

  /** Any two sequences are equal or ordered one way or the other. */
  lemma {:induction false} LexTotal(a: seq<real>, b: seq<real>)
    ensures a == b || LexLess(a, b) || LexLess(b, a)
    decreases |a|
  {
    if |a| > 0 && |b| > 0 && a[0] == b[0] {
      LexTotal(a[1..], b[1..]);
      if a[1..] == b[1..] {
        assert a == [a[0]] + a[1..] && b == [b[0]] + b[1..];
      }
    }
  }

  lemma {:induction false} LexTransitive(a: seq<real>, b: seq<real>, c: seq<real>)
    requires LexLess(a, b) && LexLess(b, c)
    ensures LexLess(a, c)
    decreases |a|
  {
    if |a| > 0 && a[0] == b[0] && b[0] == c[0] {
      LexTransitive(a[1..], b[1..], c[1..]);
    }
  }

  /** The operators as comparison keys, in the order the operator enum declares
      them (plus < minus < multiply < divide). */
  function OpKeys(ops: seq<Op>): (keys: seq<real>)
    ensures |keys| == |ops|
    ensures forall t :: 0 <= t < |ops| ==> keys[t] == Rank(ops[t]) as real
  {
    if ops == [] then [] else [Rank(ops[0]) as real] + OpKeys(ops[1..])
  }

  /** Different operator sequences have different keys. */
  lemma OpKeysInjective(a: seq<Op>, b: seq<Op>)
    requires OpKeys(a) == OpKeys(b)
    ensures a == b
  {
    forall t | 0 <= t < |a|
      ensures a[t] == b[t]
    {
      assert OpKeys(a)[t] == OpKeys(b)[t];
      RankInjective(a[t], b[t]);
    }
  }

  /** Compares two keys in descending order: the larger key comes first. */
  function Descending(x: int, y: int): Ordering {
    if x < y then Greater else if x > y then Less else Equal
  }

  /** Compares two key sequences in descending lexicographic order. */
  function DescendingLex(a: seq<real>, b: seq<real>): Ordering {
    if LexLess(a, b) then Greater else if LexLess(b, a) then Less else Equal
  }

  /** `Solution::before` (src/main.rs:62-77): the larger `lpar` comes first, then
      the larger `rpar`, then the larger operator vector, then the larger operand
      vector; `Equal` only for identical solutions. */
  function Before(a: Solution, b: Solution): (r: Ordering)
    ensures a.lpar != b.lpar ==> (r == Less <==> a.lpar > b.lpar)
    ensures a.lpar == b.lpar && a.rpar != b.rpar ==> (r == Less <==> a.rpar > b.rpar)
    ensures
      a.lpar == b.lpar && a.rpar == b.rpar && a.ops != b.ops ==>
        (r == Less <==> LexLess(OpKeys(b.ops), OpKeys(a.ops)))
    ensures
      a.lpar == b.lpar && a.rpar == b.rpar && a.ops == b.ops ==>
        (r == Less <==> LexLess(b.nums, a.nums))
    ensures r == Equal <==> a == b
  {
    var byL := Descending(a.lpar, b.lpar);
    if byL != Equal then byL
    else
      var byR := Descending(a.rpar, b.rpar);
      if byR != Equal then byR
      else
        var ka, kb := OpKeys(a.ops), OpKeys(b.ops);
        DescendingLexMeaning(ka, kb);
        var byOps := DescendingLex(ka, kb);
        if byOps != Equal then byOps
        else
          OpKeysInjective(a.ops, b.ops);
          DescendingLexMeaning(a.nums, b.nums);
          DescendingLex(a.nums, b.nums)
  }

  /** The descending comparison is `Less` exactly when `b` is the smaller vector
      and `Equal` exactly for equal vectors. */
  lemma DescendingLexMeaning(a: seq<real>, b: seq<real>)
    ensures DescendingLex(a, b) == Less <==> LexLess(b, a)
    ensures DescendingLex(a, b) == Equal <==> a == b
  {
    LexTotal(a, b);
    LexIrreflexive(a);
    if LexLess(a, b) {
      LexAsymmetric(a, b);
    }
  }

  lemma DescendingLexFlip(a: seq<real>, b: seq<real>)
    ensures DescendingLex(b, a) == Flip(DescendingLex(a, b))
  {
    if LexLess(a, b) {
      LexAsymmetric(a, b);
    }
  }

  lemma DescendingLexTransitive(a: seq<real>, b: seq<real>, c: seq<real>)
    requires DescendingLex(a, b) == Less && DescendingLex(b, c) == Less
    ensures DescendingLex(a, c) == Less
  {
    LexAsymmetric(b, a);
    LexAsymmetric(c, b);
    LexTransitive(c, b, a);
    LexAsymmetric(c, a);
  }

  /** `before` answers `Equal` exactly for identical solutions. */
  lemma BeforeEqual(a: Solution, b: Solution)
    ensures Before(a, b) == Equal <==> a == b
  {
  }

  /** Swapping the arguments swaps `Less` and `Greater`. */
  lemma BeforeFlip(a: Solution, b: Solution)
    ensures Before(b, a) == Flip(Before(a, b))
  {
    DescendingLexFlip(OpKeys(a.ops), OpKeys(b.ops));
    DescendingLexFlip(a.nums, b.nums);
  }

  /** `Less` is transitive. */
  lemma BeforeTransitive(a: Solution, b: Solution, c: Solution)
    requires Before(a, b) == Less && Before(b, c) == Less
    ensures Before(a, c) == Less
  {
    if a.lpar == b.lpar == c.lpar && a.rpar == b.rpar == c.rpar {
      var ka, kb, kc := OpKeys(a.ops), OpKeys(b.ops), OpKeys(c.ops);
      DescendingLexMeaning(ka, kb);
      DescendingLexMeaning(kb, kc);
      if ka == kb && kb == kc {
        DescendingLexTransitive(a.nums, b.nums, c.nums);
      } else if ka == kb {
        assert DescendingLex(kb, kc) == Less;
      } else if kb == kc {
        assert DescendingLex(ka, kb) == Less;
      } else {
        DescendingLexTransitive(ka, kb, kc);
      }
    }
  }

  /** `a` may come before `b`: `before` does not put it after. */
  predicate Precedes(a: Solution, b: Solution) {
    Before(a, b) != Greater
  }

  lemma PrecedesTransitive(a: Solution, b: Solution, c: Solution)
    requires Precedes(a, b) && Precedes(b, c)
    ensures Precedes(a, c)
  {
    BeforeEqual(a, b);
    BeforeEqual(b, c);
    if a != b && b != c {
      BeforeTransitive(a, b, c);
    }
  }

  predicate Sorted(s: seq<Solution>) {
    forall i, j :: 0 <= i < j < |s| ==> Precedes(s[i], s[j])
  }

  predicate StrictlySorted(s: seq<Solution>) {
    forall i, j :: 0 <= i < j < |s| ==> Before(s[i], s[j]) == Less
  }

  /** Inserts `x` into a sorted sequence, after the solutions that precede it. */
  function Insert(x: Solution, s: seq<Solution>): (r: seq<Solution>)
    ensures multiset(r) == multiset(s) + multiset{x}
  {
    if s == [] then [x]
    else if Before(x, s[0]) == Greater then
      assert s == [s[0]] + s[1..];
      [s[0]] + Insert(x, s[1..])
    else [x] + s
  }

  lemma {:induction false} InsertSorted(x: Solution, s: seq<Solution>)
    requires Sorted(s)
    ensures Sorted(Insert(x, s))
    decreases |s|
  {
    if s != [] && Before(x, s[0]) == Greater {
      var r := Insert(x, s);
      InsertSorted(x, s[1..]);
      BeforeFlip(x, s[0]);
      forall j | 0 < j < |r|
        ensures Precedes(s[0], r[j])
      {
        assert r[j] in multiset(s[1..]) + multiset{x};
        if r[j] != x {
          var m :| 0 <= m < |s[1..]| && s[1..][m] == r[j];
          assert s[m + 1] == r[j];
        }
      }
    } else if s != [] {
      forall j | 1 < j < |s| + 1
        ensures Precedes(x, ([x] + s)[j])
      {
        PrecedesTransitive(x, s[0], s[j - 1]);
      }
    }
  }

  /** The sort of `main` (src/main.rs:179): insertion sort by `before`. */
  function Sort(s: seq<Solution>): (r: seq<Solution>)
    ensures multiset(r) == multiset(s)
  {
    if s == [] then []
    else
      assert s == s[..|s| - 1] + [s[|s| - 1]];
      Insert(s[|s| - 1], Sort(s[..|s| - 1]))
  }

  lemma {:induction false} SortSorted(s: seq<Solution>)
    ensures Sorted(Sort(s))
    decreases |s|
  {
    if s != [] {
      SortSorted(s[..|s| - 1]);
      InsertSorted(s[|s| - 1], Sort(s[..|s| - 1]));
    }
  }

  /** The dedup of `main` (src/main.rs:180): drops each solution equal to the
      one kept just before it. */
  function Dedup(s: seq<Solution>): (r: seq<Solution>)
    ensures |r| <= |s|
    ensures forall e :: e in r <==> e in s
    ensures s != [] ==> r != [] && r[0] == s[0]
  {
    if |s| <= 1 then s
    else
      var rest := Dedup(s[1..]);
      if s[0] == s[1] then rest else [s[0]] + rest
  }

  /** In a sorted sequence whose first two entries differ, the first comes
      strictly before every later entry. */
  lemma SortedHeadStrict(s: seq<Solution>)
    requires Sorted(s) && |s| > 1 && s[0] != s[1]
    ensures forall e :: e in s[1..] ==> Before(s[0], e) == Less
  {
    forall e | e in s[1..]
      ensures Before(s[0], e) == Less
    {
      var m :| 0 <= m < |s[1..]| && s[1..][m] == e;
      assert Precedes(s[0], s[m + 1]);
      assert m > 0 ==> Precedes(s[1], s[m + 1]);
      BeforeEqual(s[0], e);
      BeforeEqual(s[0], s[1]);
      BeforeFlip(s[0], s[1]);
    }
  }

  lemma {:induction false} DedupStrictlySorted(s: seq<Solution>)
    requires Sorted(s)
    ensures StrictlySorted(Dedup(s))
    decreases |s|
  {
    if |s| > 1 {
      DedupStrictlySorted(s[1..]);
      if s[0] != s[1] {
        SortedHeadStrict(s);
        var rest := Dedup(s[1..]);
        var r := [s[0]] + rest;
        assert r == Dedup(s);
        forall i, j | 0 <= i < j < |r|
          ensures Before(r[i], r[j]) == Less
        {
          assert r[j] == rest[j - 1];
          if i == 0 {
            assert rest[j - 1] in s[1..];
          } else {
            assert r[i] == rest[i - 1];
          }
        }
      }
    }
  }

  /** The results as printed: sorted by `before`, adjacent repeats dropped. */
  function Canonicalize(results: seq<Solution>): (r: seq<Solution>)
    ensures StrictlySorted(r)
    ensures forall e :: e in r <==> e in results
  {
    SortSorted(results);
    DedupStrictlySorted(Sort(results));
    assert forall e :: e in Sort(results) <==> e in multiset(Sort(results));
    Dedup(Sort(results))
  }

  /** Two strictly sorted sequences with the same elements start alike. */
  lemma StrictlySortedSameHead(a: seq<Solution>, b: seq<Solution>)
    requires StrictlySorted(a) && StrictlySorted(b) && a != [] && b != []
    requires forall e :: e in a <==> e in b
    ensures a[0] == b[0]
  {
    assert a[0] in b;
    var k :| 0 <= k < |b| && b[k] == a[0];
    assert b[0] in a;
    var m :| 0 <= m < |a| && a[m] == b[0];
    assert k > 0 ==> Before(b[0], a[0]) == Less;
    assert m > 0 ==> Before(a[0], b[0]) == Less;
    BeforeFlip(a[0], b[0]);
    BeforeEqual(a[0], a[0]);
  }

  /** Past a common head, two strictly sorted sequences with the same elements
      still have the same elements. */
  lemma StrictlySortedSameTail(a: seq<Solution>, b: seq<Solution>)
    requires StrictlySorted(a) && StrictlySorted(b) && a != [] && b != [] && a[0] == b[0]
    requires forall e :: e in a <==> e in b
    ensures forall e :: e in a[1..] <==> e in b[1..]
  {
    forall e | e in a[1..]
      ensures e in b[1..]
    {
      var i :| 1 <= i < |a| && a[i] == e;
      BeforeEqual(a[0], e);
      assert e in b;
      var j :| 0 <= j < |b| && b[j] == e;
      assert b[1..][j - 1] == e;
    }
    forall e | e in b[1..]
      ensures e in a[1..]
    {
      var j :| 1 <= j < |b| && b[j] == e;
      BeforeEqual(b[0], e);
      assert e in a;
      var i :| 0 <= i < |a| && a[i] == e;
      assert a[1..][i - 1] == e;
    }
  }

  /** A strictly sorted sequence is determined by its elements. */
  lemma {:induction false} StrictlySortedUnique(a: seq<Solution>, b: seq<Solution>)
    requires StrictlySorted(a) && StrictlySorted(b)
    requires forall e :: e in a <==> e in b
    ensures a == b
    decreases |a|
  {
    assert a != [] ==> a[0] in b;
    assert b != [] ==> b[0] in a;
    if a != [] && b != [] {
      StrictlySortedSameHead(a, b);
      StrictlySortedSameTail(a, b);
      StrictlySortedUnique(a[1..], b[1..]);
      assert a == [a[0]] + a[1..] && b == [b[0]] + b[1..];
    }
  }

  /** The printed results do not depend on the order, or the repeats, in which the
      search produced them. */
  lemma CanonicalizeOrderIndependent(x: seq<Solution>, y: seq<Solution>)
    requires forall e :: e in x <==> e in y
    ensures Canonicalize(x) == Canonicalize(y)
  {
    StrictlySortedUnique(Canonicalize(x), Canonicalize(y));
  }

  /** Sorting and de-duplicating twice changes nothing more. */
  lemma CanonicalizeIdempotent(x: seq<Solution>)
    ensures Canonicalize(Canonicalize(x)) == Canonicalize(x)
  {
    StrictlySortedUnique(Canonicalize(Canonicalize(x)), Canonicalize(x));
  }

  /** No two adjacent printed results are equal. */
  lemma CanonicalHasNoAdjacentRepeats(x: seq<Solution>)
    ensures forall i :: 0 < i < |Canonicalize(x)| ==> Canonicalize(x)[i - 1] != Canonicalize(x)[i]
  {
    var r := Canonicalize(x);
    forall i | 0 < i < |r|
      ensures r[i - 1] != r[i]
    {
      BeforeEqual(r[i - 1], r[i]);
    }
  }
}
