/** The circuit builder: literal negation and the simplifying if-then-else
    constructor used while lifting literals into bit-vector values. */
module CircuitBuilder {
  import opened Formula

  /** `negate`: removes one outer negation if there is one, otherwise adds one,
      so double negations are collapsed rather than nested. The rewriter's
      `mk_not` is the same operation (it also keeps the term alive on a trail). */
  function Negate(e: Expr): (r: Expr)
    ensures forall env :: Eval(r, env) == !Eval(e, env)
    ensures e.Not? ==> r == e.arg
  {
    if e.Not? then e.arg else Not(e)
  }

  /** The leading-negation loop of `mk_ite`: strips every outer `Not` of the
      condition; `flip` says whether an odd number was stripped, in which case
      the branches have been swapped. */
  function StripNots(c: Expr): (r: (Expr, bool))
    ensures !r.0.Not?
    ensures forall env :: Eval(r.0, env) == (Eval(c, env) != r.1)
  {
    if c.Not? then
      var (d, flip) := StripNots(c.arg);
      (d, !flip)
    else
      (c, false)
  }

  /** `mk_ite` over boolean branches: after stripping the condition's
      negations it applies the identities for equal branches and for true or
      false branches before building a genuine if-then-else. */
  function MkIte(c: Expr, hi: Expr, lo: Expr): (r: Expr)
    ensures forall env :: Eval(r, env) == if Eval(c, env) then Eval(hi, env) else Eval(lo, env)
  {
    var (c', flip) := StripNots(c);
    var (hi', lo') := if flip then (lo, hi) else (hi, lo);
    BinaryConnectives(c', lo');
    BinaryConnectives(c', hi');
    BinaryConnectives(Negate(c'), lo');
    if hi' == lo' then hi'
    else if hi' == True && lo' == False then c'
    else if hi' == False && lo' == True then Negate(c')
    else if hi' == True then Or([c', lo'])
    else if lo' == False then And([c', hi'])
    else if hi' == False then And([Negate(c'), lo'])
    else if lo' == True then Implies(c', hi')
    else Ite(c', hi', lo')
  }

  /** Equal branches: the result is that branch, whatever the condition. */
  lemma {:induction false} MkIteSameBranches(c: Expr, x: Expr)
    ensures MkIte(c, x, x) == x
  {
  }

  /** Negations of the condition are absorbed by swapping the branches, so
      `ite(¬¬c, hi, lo)` is built exactly as `ite(c, hi, lo)`. */
  lemma {:induction false} MkIteAbsorbsNegation(c: Expr, hi: Expr, lo: Expr)
    ensures MkIte(Not(c), hi, lo) == MkIte(c, lo, hi)
    ensures MkIte(Not(Not(c)), hi, lo) == MkIte(c, hi, lo)
  {
  }

  /** `mk_ite` applied to bit-vector branches: those are never the boolean
      constants, so only the negation stripping and the equal-branch rule
      apply. */
  function MkBvIte(c: Expr, hi: BvExpr, lo: BvExpr): (r: BvExpr)
    ensures forall env :: EvalBv(r, env) == if Eval(c, env) then EvalBv(hi, env) else EvalBv(lo, env)
    ensures WellSorted(hi) && WellSorted(lo) && Width(hi) == Width(lo) ==>
              WellSorted(r) && Width(r) == Width(hi)
  {
    var (c', flip) := StripNots(c);
    var (hi', lo') := if flip then (lo, hi) else (hi, lo);
    if hi' == lo' then hi' else BvIte(c', hi', lo')
  }
}
