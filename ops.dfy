/** The closed set of binary operators of the puzzle, with their precedence
    ranks, their partial application and the order Rust derives for them. */
module Ops {
  import opened Optional

  datatype Op = Plus | Minus | Multiply | Divide

  /** Precedence rank: additive operators bind less tightly than multiplicative ones. */
  function Precedence(op: Op): (p: nat)
    ensures p <= 1
    ensures p == 0 <==> op == Plus || op == Minus
  {
    match op
    case Plus => 0
    case Minus => 0
    case Multiply => 1
    case Divide => 1
  }

  /** Applies `op` to the operands `f` (left) and `s` (right). The only failure is
      a division by exactly zero. */
  function Calc(op: Op, f: real, s: real): (r: Option<real>)
    ensures r.None? <==> op == Divide && s == 0.0
  {
    match op
    case Plus => Some(f + s)
    case Minus => Some(f - s)
    case Multiply => Some(f * s)
    case Divide => if s == 0.0 then None else Some(f / s)
  }

  /** What a successful application computes: the sum, difference, product or
      quotient of the two operands. */
  lemma CalcMeaning(op: Op, f: real, s: real)
    requires Calc(op, f, s).Some?
    ensures op == Plus ==> Calc(op, f, s).value == f + s
    ensures op == Minus ==> Calc(op, f, s).value == f - s
    ensures op == Multiply ==> Calc(op, f, s).value == f * s
    ensures op == Divide ==> s != 0.0 && Calc(op, f, s).value == f / s
  {
  }

  /** Position of the variant in the declaration, which is the order the derived
      `Ord` on the enum uses. */
  function Rank(op: Op): (k: nat)
    ensures k <= 3
  {
    match op
    case Plus => 0
    case Minus => 1
    case Multiply => 2
    case Divide => 3
  }

  /** Distinct operators have distinct ranks, so the derived order is total. */
  lemma RankInjective(a: Op, b: Op)
    requires Rank(a) == Rank(b)
    ensures a == b
  {
  }
}
