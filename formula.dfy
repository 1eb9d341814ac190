/** Terms built by the rewriter and their meaning under an assignment.

    The rewriter works on terms of an external, hash-consing term factory.
    Here a term is a value of an algebraic datatype: two terms are "the same
    term" exactly when they are structurally equal. Boolean terms (`Expr`) and
    bit-vector terms (`BvExpr`) refer to each other: a bit-vector if-then-else
    has a boolean condition, and bit-vector equality and unsigned comparison
    are boolean atoms. A bit-vector of width w is a natural number below 2^w. */
module Formula {

  /** Values of the boolean variables (literals and fresh auxiliary variables). */
  type Assignment = nat -> bool

  datatype Expr =
    | True
    | False
    | Var(id: nat)
    | Not(arg: Expr)
    | And(args: seq<Expr>)
    | Or(args: seq<Expr>)
    | Implies(lhs: Expr, rhs: Expr)
    | Ite(cond: Expr, thn: Expr, els: Expr)
    | BvEq(x: BvExpr, y: BvExpr)
    | BvUle(x: BvExpr, y: BvExpr)

  datatype BvExpr =
    | BvNum(val: nat, width: nat)
    | BvIte(cond: Expr, thn: BvExpr, els: BvExpr)
    | ZeroExt(extra: nat, arg: BvExpr)
    | BvAdd(lhs: BvExpr, rhs: BvExpr)
      /** Bits lo..hi of the argument; hi < lo is the empty extract. */
    | Extract(hi: int, lo: nat, arg: BvExpr)

  function Pow2(n: nat): (r: nat)
    ensures r >= 1
  {
    if n == 0 then 1 else 2 * Pow2(n - 1)
  }

  /** The number of bits of a bit-vector term (its sort). */
  function Width(e: BvExpr): nat
  {
    match e
    case BvNum(_, w) => w
    case BvIte(_, t, _) => Width(t)
    case ZeroExt(n, a) => Width(a) + n
    case BvAdd(a, _) => Width(a)
    case Extract(h, l, _) => if l <= h then (h - l + 1) as nat else 0
  }

  /** The sort discipline of the term factory: both branches of an
      if-then-else and both operands of an addition have one width, and an
      extract stays inside its argument. */
  predicate WellSorted(e: BvExpr)
  {
    match e
    case BvNum(_, _) => true
    case BvIte(_, t, f) => WellSorted(t) && WellSorted(f) && Width(t) == Width(f)
    case ZeroExt(_, a) => WellSorted(a)
    case BvAdd(a, b) => WellSorted(a) && WellSorted(b) && Width(a) == Width(b)
    case Extract(h, l, a) => WellSorted(a) && l <= h < Width(a)
  }

  function Eval(e: Expr, env: Assignment): bool
  {
    match e
    case True => true
    case False => false
    case Var(x) => env(x)
    case Not(a) => !Eval(a, env)
    case And(args) => forall i | 0 <= i < |args| :: Eval(args[i], env)
    case Or(args) => exists i | 0 <= i < |args| :: Eval(args[i], env)
    case Implies(a, b) => Eval(a, env) ==> Eval(b, env)
    case Ite(c, t, f) => if Eval(c, env) then Eval(t, env) else Eval(f, env)
    case BvEq(x, y) => EvalBv(x, env) == EvalBv(y, env)
    case BvUle(x, y) => EvalBv(x, env) <= EvalBv(y, env)
  }

  /** Unsigned value of a bit-vector term; arithmetic wraps modulo 2^width. */
  function EvalBv(e: BvExpr, env: Assignment): nat
  {
    match e
    case BvNum(v, w) => ModPow2(v, w)
    case BvIte(c, t, f) => if Eval(c, env) then EvalBv(t, env) else EvalBv(f, env)
    case ZeroExt(_, a) => EvalBv(a, env)
    case BvAdd(a, b) => ModPow2(EvalBv(a, env) + EvalBv(b, env), Width(a))
    case Extract(h, l, a) =>
      if l <= h then ModPow2(DivPow2(EvalBv(a, env), l), (h - l + 1) as nat) else 0
  }

  /** x mod 2^w: the low w bits of x. */
  function ModPow2(x: nat, w: nat): (r: nat)
    ensures r < Pow2(w)
  {
    if w == 0 then 0 else x % 2 + 2 * ModPow2(x / 2, w - 1)
  }

  /** x div 2^l: x shifted right by l bits. */
  function DivPow2(x: nat, l: nat): nat
  {
    if l == 0 then x else DivPow2(x / 2, l - 1)
  }

  /** A value that fits in w bits is its own low w bits. */
  lemma {:induction false} ModPow2Small(x: nat, w: nat)
    requires x < Pow2(w)
    ensures ModPow2(x, w) == x
  {
    if w > 0 {
      ModPow2Small(x / 2, w - 1);
    }
  }

  /** Shifting a value below 2^(l+1) right by l bits leaves its bit l. */
  lemma {:induction false} DivPow2Top(x: nat, l: nat)
    requires x < 2 * Pow2(l)
    ensures DivPow2(x, l) == if x < Pow2(l) then 0 else 1
  {
    if l > 0 {
      DivPow2Top(x / 2, l - 1);
    }
  }

  /** A well-sorted term never holds a value its width cannot represent. */
  lemma {:induction false} EvalBvInRange(e: BvExpr, env: Assignment)
    requires WellSorted(e)
    ensures EvalBv(e, env) < Pow2(Width(e))
  {
    match e
    case BvNum(_, _) =>
    case BvIte(_, t, f) =>
      EvalBvInRange(t, env);
      EvalBvInRange(f, env);
    case ZeroExt(n, a) =>
      EvalBvInRange(a, env);
      Pow2Monotone(Width(a), Width(a) + n);
    case BvAdd(_, _) =>
    case Extract(_, _, _) =>
  }

  lemma {:induction false} Pow2Monotone(m: nat, n: nat)
    requires m <= n
    ensures Pow2(m) <= Pow2(n)
  {
    if m < n {
      Pow2Monotone(m, n - 1);
    }
  }

  lemma {:induction false} Pow2Sum(m: nat, n: nat)
    ensures Pow2(m + n) == Pow2(m) * Pow2(n)
  {
    if m > 0 {
      Pow2Sum(m - 1, n);
    }
  }

  /** Every fact of a list holds. */
  predicate AllHold(facts: seq<Expr>, env: Assignment)
  {
    forall i | 0 <= i < |facts| :: Eval(facts[i], env)
  }

  lemma {:induction false} AllHoldAppend(a: seq<Expr>, b: seq<Expr>, env: Assignment)
    ensures AllHold(a + b, env) <==> AllHold(a, env) && AllHold(b, env)
  {
    if AllHold(a, env) && AllHold(b, env) {
      forall i | 0 <= i < |a + b| ensures Eval((a + b)[i], env) {
        if i >= |a| {
          assert (a + b)[i] == b[i - |a|];
        }
      }
    }
    if AllHold(a + b, env) {
      forall i | 0 <= i < |a| ensures Eval(a[i], env) {
        assert (a + b)[i] == a[i];
      }
      forall i | 0 <= i < |b| ensures Eval(b[i], env) {
        assert (a + b)[|a| + i] == b[i];
      }
    }
  }

  lemma {:induction false} AllHoldSingleton(e: Expr, env: Assignment)
    ensures AllHold([e], env) <==> Eval(e, env)
  {
    assert [e][0] == e;
  }

  /** Two-argument conjunctions and disjunctions mean what they say. */
  lemma {:induction false} BinaryConnectives(a: Expr, b: Expr)
    ensures forall env :: Eval(Or([a, b]), env) == (Eval(a, env) || Eval(b, env))
    ensures forall env :: Eval(And([a, b]), env) == (Eval(a, env) && Eval(b, env))
  {
    forall env ensures Eval(Or([a, b]), env) == (Eval(a, env) || Eval(b, env)) {
      if Eval(a, env) {
        assert Eval([a, b][0], env);
      }
      if Eval(b, env) {
        assert Eval([a, b][1], env);
      }
    }
    forall env ensures Eval(And([a, b]), env) == (Eval(a, env) && Eval(b, env)) {
      assert [a, b][0] == a && [a, b][1] == b;
    }
  }

  /** Σ cᵢ·[ℓᵢ]: the sum of the coefficients of the literals true under env. */
  function WeightedSum(cs: seq<nat>, args: seq<Expr>, env: Assignment): nat
    requires |cs| == |args|
  {
    if |args| == 0 then 0
    else
      var n := |args| - 1;
      WeightedSum(cs[..n], args[..n], env) + (if Eval(args[n], env) then cs[n] else 0)
  }

  /** Σ cᵢ over all coefficients. */
  function SumOf(cs: seq<nat>): nat
  {
    if |cs| == 0 then 0 else SumOf(cs[..|cs| - 1]) + cs[|cs| - 1]
  }

  /** All coefficients are at least 1. */
  predicate Positive(cs: seq<nat>)
  {
    forall i | 0 <= i < |cs| :: cs[i] >= 1
  }

  lemma {:induction false} WeightedSumAtMostTotal(cs: seq<nat>, args: seq<Expr>, env: Assignment)
    requires |cs| == |args|
    ensures WeightedSum(cs, args, env) <= SumOf(cs)
  {
    if |args| > 0 {
      var n := |args| - 1;
      WeightedSumAtMostTotal(cs[..n], args[..n], env);
    }
  }

  /** With positive coefficients the weighted sum is zero exactly when no
      literal is true. */
  lemma {:induction false} WeightedSumZero(cs: seq<nat>, args: seq<Expr>, env: Assignment)
    requires |cs| == |args| && Positive(cs)
    ensures WeightedSum(cs, args, env) == 0 <==> !Eval(Or(args), env)
  {
    if |args| > 0 {
      var n := |args| - 1;
      WeightedSumZero(cs[..n], args[..n], env);
      assert Eval(Or(args), env) <==> Eval(Or(args[..n]), env) || Eval(args[n], env) by {
        if Eval(Or(args), env) {
          var i :| 0 <= i < |args| && Eval(args[i], env);
          if i < n {
            assert args[..n][i] == args[i];
          }
        }
        if Eval(Or(args[..n]), env) {
          var i :| 0 <= i < n && Eval(args[..n][i], env);
          assert args[i] == args[..n][i];
        }
      }
    }
  }
}
