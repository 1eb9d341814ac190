/** The weighted encoder: Σ cᵢ·[ℓᵢ] ≤ k (or = k) as a circuit of
    overflow-checked bit-vector additions.

    Every literal whose coefficient exceeds k becomes the unit fact ¬ℓᵢ; every
    other literal is lifted to `ite(ℓᵢ, cᵢ, 0)` at the width of k. The lifted
    values are summed by a binary tree of checked adds; each add records that
    its carry bit is zero and that its remainder is at most k. */
module WeightedEncoder {
  import opened Formula
  import opened CircuitBuilder

  /** The comparison modes that have callers: at most k (`l_true`) and
      exactly k (`l_undef`). */
  datatype Mode = LE | EQ

  datatype Option<T> = None | Some(value: T)

  /** Bits needed to write k in binary. */
  function NumBits(k: nat): (r: nat)
    ensures k < Pow2(r)
    ensures k > 0 ==> r >= 1 && Pow2(r - 1) <= k
  {
    if k == 0 then 0 else 1 + NumBits(k / 2)
  }

  /** The numeral k at its own width. */
  function Bound(k: nat): BvExpr
  {
    BvNum(k, NumBits(k))
  }

  /** The numeral 0 at the width of k. */
  function Zero(k: nat): BvExpr
  {
    BvNum(0, NumBits(k))
  }

  /** One checked add: both operands are zero-extended by one bit and added;
      the top bit of the sum is the carry and the low bits the remainder.
      Returns the remainder and the two facts "carry = 0" and
      "remainder ≤ bound". */
  function CheckedAdd(a: BvExpr, b: BvExpr, bound: BvExpr): (r: (BvExpr, seq<Expr>))
    ensures |r.1| == 2
  {
    var nb := Width(a);
    var sum := BvAdd(ZeroExt(1, a), ZeroExt(1, b));
    var carry := Extract(nb, nb, sum);
    var rem := Extract(nb - 1, 0, sum);
    (rem, [BvEq(carry, BvNum(0, 1)), BvUle(rem, bound)])
  }

  lemma {:induction false} WideSumValue(a: BvExpr, b: BvExpr, env: Assignment)
    requires WellSorted(a) && WellSorted(b) && Width(a) == Width(b)
    ensures EvalBv(BvAdd(ZeroExt(1, a), ZeroExt(1, b)), env) == EvalBv(a, env) + EvalBv(b, env)
  {
    EvalBvInRange(a, env);
    EvalBvInRange(b, env);
    ModPow2Small(EvalBv(a, env) + EvalBv(b, env), Width(a) + 1);
  }

  /** The remainder of a checked add of two well-sorted operands of one
      width is well-sorted at that width. */
  lemma {:induction false} CheckedAddShape(a: BvExpr, b: BvExpr, bound: BvExpr)
    requires WellSorted(a) && WellSorted(b) && Width(a) == Width(b) >= 1
    ensures WellSorted(CheckedAdd(a, b, bound).0) && Width(CheckedAdd(a, b, bound).0) == Width(a)
  {
  }

  /** The carry fact holds exactly when the true sum fits in the operands'
      width, and then the remainder is that sum. */
  lemma {:induction false} CheckedAddCarry(a: BvExpr, b: BvExpr, bound: BvExpr, env: Assignment)
    requires WellSorted(a) && WellSorted(b) && Width(a) == Width(b) >= 1
    ensures Eval(CheckedAdd(a, b, bound).1[0], env) <==> EvalBv(a, env) + EvalBv(b, env) < Pow2(Width(a))
    ensures EvalBv(a, env) + EvalBv(b, env) < Pow2(Width(a)) ==>
              EvalBv(CheckedAdd(a, b, bound).0, env) == EvalBv(a, env) + EvalBv(b, env)
  {
    var nb := Width(a);
    var sum := BvAdd(ZeroExt(1, a), ZeroExt(1, b));
    EvalBvInRange(a, env);
    EvalBvInRange(b, env);
    var x := EvalBv(a, env) + EvalBv(b, env);
    WideSumValue(a, b, env);
    DivPow2Top(x, nb);
    ModPow2Small(DivPow2(x, nb), 1);
    assert EvalBv(Extract(nb, nb, sum), env) == DivPow2(x, nb);
    assert EvalBv(BvNum(0, 1), env) == 0;
    if x < Pow2(nb) {
      ModPow2Small(x, nb);
    }
  }

  /** For operands and bound below 2^nb, the two recorded facts hold exactly
      when the true sum does not exceed the bound, and then the remainder is
      that sum. */
  lemma {:induction false} CheckedAddMeaning(a: BvExpr, b: BvExpr, bound: BvExpr, env: Assignment)
    requires WellSorted(a) && WellSorted(b) && Width(a) == Width(b) >= 1
    requires EvalBv(bound, env) < Pow2(Width(a))
    ensures AllHold(CheckedAdd(a, b, bound).1, env) <==> EvalBv(a, env) + EvalBv(b, env) <= EvalBv(bound, env)
    ensures AllHold(CheckedAdd(a, b, bound).1, env) ==>
              EvalBv(CheckedAdd(a, b, bound).0, env) == EvalBv(a, env) + EvalBv(b, env)
  {
    var step := CheckedAdd(a, b, bound);
    CheckedAddCarry(a, b, bound, env);
    assert Eval(step.1[1], env) <==> EvalBv(step.0, env) <= EvalBv(bound, env);
    assert AllHold(step.1, env) <==> Eval(step.1[0], env) && Eval(step.1[1], env);
  }

  /** The remainders of the first m pairs of a level. */
  function PairRems(es: seq<BvExpr>, bound: BvExpr, m: nat): (r: seq<BvExpr>)
    requires 2 * m <= |es|
    ensures |r| == m
    ensures forall j | 0 <= j < m :: r[j] == CheckedAdd(es[2 * j], es[2 * j + 1], bound).0
  {
    if m == 0 then []
    else PairRems(es, bound, m - 1) + [CheckedAdd(es[2 * m - 2], es[2 * m - 1], bound).0]
  }

  /** The facts recorded by the checked adds of the first m pairs of a level. */
  function PairFacts(es: seq<BvExpr>, bound: BvExpr, m: nat): (r: seq<Expr>)
    requires 2 * m <= |es|
    ensures |r| == 2 * m
  {
    if m == 0 then []
    else PairFacts(es, bound, m - 1) + CheckedAdd(es[2 * m - 2], es[2 * m - 1], bound).1
  }

  /** One round of the reduction tree: a level of s values becomes ⌈s/2⌉
      values; an odd last value moves unchanged to index s/2. */
  function NextLevel(es: seq<BvExpr>, bound: BvExpr): (r: seq<BvExpr>)
    ensures |r| == (|es| + 1) / 2
    ensures forall j | 0 <= j < |es| / 2 :: r[j] == CheckedAdd(es[2 * j], es[2 * j + 1], bound).0
    ensures |es| % 2 == 1 ==> r[|es| / 2] == es[|es| - 1]
  {
    PairRems(es, bound, |es| / 2) + (if |es| % 2 == 1 then [es[|es| - 1]] else [])
  }

  /** The whole reduction tree: the values left (at most one) and every
      fact recorded, level by level. A tree over n ≥ 1 values makes exactly
      n - 1 checked adds, two facts each. */
  function Reduce(es: seq<BvExpr>, bound: BvExpr): (r: (seq<BvExpr>, seq<Expr>))
    ensures |r.0| == if |es| == 0 then 0 else 1
    ensures |r.1| == if |es| == 0 then 0 else 2 * (|es| - 1)
    decreases |es|
  {
    if |es| <= 1 then (es, [])
    else
      var next := Reduce(NextLevel(es, bound), bound);
      (next.0, PairFacts(es, bound, |es| / 2) + next.1)
  }

  /** Every value is a well-sorted term of width nb. */
  predicate Slots(es: seq<BvExpr>, nb: nat)
  {
    forall j | 0 <= j < |es| :: WellSorted(es[j]) && Width(es[j]) == nb
  }

  /** Every value is at most v under env. */
  predicate SlotsAtMost(es: seq<BvExpr>, v: nat, env: Assignment)
  {
    forall j | 0 <= j < |es| :: EvalBv(es[j], env) <= v
  }

  /** The sum of the values of a level. */
  function SumBv(es: seq<BvExpr>, env: Assignment): nat
  {
    if |es| == 0 then 0 else SumBv(es[..|es| - 1], env) + EvalBv(es[|es| - 1], env)
  }

  /** The remainders of the pairs are well-sorted at the width of the level. */
  lemma {:induction false} PairRemsSlots(es: seq<BvExpr>, bound: BvExpr, m: nat, nb: nat)
    requires 2 * m <= |es| && nb >= 1 && Slots(es, nb)
    ensures Slots(PairRems(es, bound, m), nb)
  {
    forall j | 0 <= j < m
      ensures WellSorted(PairRems(es, bound, m)[j]) && Width(PairRems(es, bound, m)[j]) == nb
    {
      CheckedAddShape(es[2 * j], es[2 * j + 1], bound);
    }
  }

  /** The facts of the first m pairs hold when the sum of their values is
      within the bound, and when they hold the remainders carry that sum and
      stay within the bound. */
  lemma {:induction false} PairSum(es: seq<BvExpr>, m: nat, env: Assignment)
    requires 0 < 2 * m <= |es|
    ensures SumBv(es[..2 * m], env) == SumBv(es[..2 * (m - 1)], env) + EvalBv(es[2 * m - 2], env) + EvalBv(es[2 * m - 1], env)
  {
    assert es[..2 * m][..2 * m - 1] == es[..2 * m - 1];
    assert es[..2 * m - 1][..2 * m - 2] == es[..2 * (m - 1)];
  }

  lemma {:induction false} PairsSound(es: seq<BvExpr>, bound: BvExpr, m: nat, nb: nat, env: Assignment)
    requires 2 * m <= |es| && nb >= 1 && Slots(es, nb) && EvalBv(bound, env) < Pow2(nb)
    ensures SumBv(es[..2 * m], env) <= EvalBv(bound, env) ==> AllHold(PairFacts(es, bound, m), env)
  {
    if m > 0 && SumBv(es[..2 * m], env) <= EvalBv(bound, env) {
      PairSum(es, m, env);
      PairsSound(es, bound, m - 1, nb, env);
      var a, b := es[2 * m - 2], es[2 * m - 1];
      CheckedAddMeaning(a, b, bound, env);
      AllHoldAppend(PairFacts(es, bound, m - 1), CheckedAdd(a, b, bound).1, env);
    }
  }

  lemma {:induction false} PairsComplete(es: seq<BvExpr>, bound: BvExpr, m: nat, nb: nat, env: Assignment)
    requires 2 * m <= |es| && nb >= 1 && Slots(es, nb) && EvalBv(bound, env) < Pow2(nb)
    ensures AllHold(PairFacts(es, bound, m), env) ==>
              SumBv(PairRems(es, bound, m), env) == SumBv(es[..2 * m], env)
  {
    if m > 0 && AllHold(PairFacts(es, bound, m), env) {
      PairSum(es, m, env);
      var a, b := es[2 * m - 2], es[2 * m - 1];
      var step := CheckedAdd(a, b, bound);
      AllHoldAppend(PairFacts(es, bound, m - 1), step.1, env);
      PairsComplete(es, bound, m - 1, nb, env);
      CheckedAddMeaning(a, b, bound, env);
      var rems := PairRems(es, bound, m - 1);
      assert PairRems(es, bound, m) == rems + [step.0];
      SumBvAppend(rems, step.0, env);
    }
  }

  lemma {:induction false} PairsWithinBound(es: seq<BvExpr>, bound: BvExpr, m: nat, nb: nat, env: Assignment)
    requires 2 * m <= |es| && nb >= 1 && Slots(es, nb) && EvalBv(bound, env) < Pow2(nb)
    ensures AllHold(PairFacts(es, bound, m), env) ==>
              SlotsAtMost(PairRems(es, bound, m), EvalBv(bound, env), env)
  {
    if m > 0 && AllHold(PairFacts(es, bound, m), env) {
      var a, b := es[2 * m - 2], es[2 * m - 1];
      var step := CheckedAdd(a, b, bound);
      AllHoldAppend(PairFacts(es, bound, m - 1), step.1, env);
      PairsWithinBound(es, bound, m - 1, nb, env);
      CheckedAddMeaning(a, b, bound, env);
      var rems, r := PairRems(es, bound, m - 1), PairRems(es, bound, m);
      assert r == rems + [step.0];
      forall j | 0 <= j < m ensures EvalBv(r[j], env) <= EvalBv(bound, env) {
        if j < m - 1 {
          assert r[j] == rems[j];
        }
      }
    }
  }

  lemma {:induction false} SumBvAppend(es: seq<BvExpr>, e: BvExpr, env: Assignment)
    ensures SumBv(es + [e], env) == SumBv(es, env) + EvalBv(e, env)
  {
    assert (es + [e])[..|es|] == es;
  }

  /** The next level is the remainders of the pairs followed by an odd last
      value, so its sum splits the same way as the level's. */
  lemma {:induction false} NextLevelSplit(es: seq<BvExpr>, bound: BvExpr, env: Assignment)
    ensures |es| % 2 == 0 ==> NextLevel(es, bound) == PairRems(es, bound, |es| / 2) && es[..2 * (|es| / 2)] == es
    ensures |es| % 2 == 1 ==>
              SumBv(NextLevel(es, bound), env) ==
                SumBv(PairRems(es, bound, |es| / 2), env) + EvalBv(es[|es| - 1], env) &&
              SumBv(es, env) == SumBv(es[..2 * (|es| / 2)], env) + EvalBv(es[|es| - 1], env)
  {
    if |es| % 2 == 1 {
      assert es[..|es| - 1] == es[..2 * (|es| / 2)];
      var rems := PairRems(es, bound, |es| / 2);
      assert NextLevel(es, bound) == rems + [es[|es| - 1]];
      SumBvAppend(rems, es[|es| - 1], env);
    } else {
      assert PairRems(es, bound, |es| / 2) + [] == PairRems(es, bound, |es| / 2);
    }
  }

  /** The next level is well-sorted at the width of the level. */
  lemma {:induction false} NextLevelSlots(es: seq<BvExpr>, bound: BvExpr, nb: nat)
    requires nb >= 1 && Slots(es, nb)
    ensures Slots(NextLevel(es, bound), nb)
  {
    var m := |es| / 2;
    PairRemsSlots(es, bound, m, nb);
    var rems, next := PairRems(es, bound, m), NextLevel(es, bound);
    forall j | 0 <= j < |next| ensures WellSorted(next[j]) && Width(next[j]) == nb {
      if j < m {
        assert next[j] == rems[j];
      }
    }
  }

  /** When the remainders and the old values are within a bound, so is the
      next level. */
  lemma {:induction false} NextLevelAtMost(es: seq<BvExpr>, bound: BvExpr, v: nat, env: Assignment)
    requires SlotsAtMost(es, v, env) && SlotsAtMost(PairRems(es, bound, |es| / 2), v, env)
    ensures SlotsAtMost(NextLevel(es, bound), v, env)
  {
    var m := |es| / 2;
    var rems, next := PairRems(es, bound, m), NextLevel(es, bound);
    forall j | 0 <= j < |next| ensures EvalBv(next[j], env) <= v {
      if j < m {
        assert next[j] == rems[j];
      }
    }
  }

  /** One round keeps the meaning: its facts hold and the next level sums to
      the same total exactly when the level's total is within the bound. */
  lemma {:induction false} LevelMeaning(es: seq<BvExpr>, bound: BvExpr, nb: nat, env: Assignment)
    requires nb >= 1 && Slots(es, nb) && EvalBv(bound, env) < Pow2(nb)
    requires SlotsAtMost(es, EvalBv(bound, env), env)
    ensures Slots(NextLevel(es, bound), nb)
    ensures SumBv(es, env) <= EvalBv(bound, env) ==> AllHold(PairFacts(es, bound, |es| / 2), env)
    ensures AllHold(PairFacts(es, bound, |es| / 2), env) ==>
              SumBv(NextLevel(es, bound), env) == SumBv(es, env) &&
              SlotsAtMost(NextLevel(es, bound), EvalBv(bound, env), env)
  {
    var m := |es| / 2;
    NextLevelSlots(es, bound, nb);
    NextLevelSplit(es, bound, env);
    PairsSound(es, bound, m, nb, env);
    if AllHold(PairFacts(es, bound, m), env) {
      PairsComplete(es, bound, m, nb, env);
      PairsWithinBound(es, bound, m, nb, env);
      NextLevelAtMost(es, bound, EvalBv(bound, env), env);
    }
  }

  /** The reduction tree's facts hold exactly when the total of the level is
      within the bound, and then the value left is that total. */
  lemma {:induction false} ReduceMeaning(es: seq<BvExpr>, bound: BvExpr, nb: nat, env: Assignment)
    requires nb >= 1 && Slots(es, nb) && EvalBv(bound, env) < Pow2(nb)
    requires SlotsAtMost(es, EvalBv(bound, env), env)
    ensures AllHold(Reduce(es, bound).1, env) <==> SumBv(es, env) <= EvalBv(bound, env)
    ensures AllHold(Reduce(es, bound).1, env) ==> SumBv(Reduce(es, bound).0, env) == SumBv(es, env)
    decreases |es|
  {
    if |es| == 1 {
      assert es[..0] == [];
    } else if |es| > 1 {
      var next := NextLevel(es, bound);
      LevelMeaning(es, bound, nb, env);
      var facts := PairFacts(es, bound, |es| / 2);
      AllHoldAppend(facts, Reduce(next, bound).1, env);
      if AllHold(facts, env) {
        ReduceMeaning(next, bound, nb, env);
      } else if SumBv(es, env) <= EvalBv(bound, env) {
        assert false;
      }
    }
  }

  /** The number of coefficients that exceed k. */
  function Over(cs: seq<nat>, k: nat): (r: nat)
    ensures r <= |cs|
  {
    if |cs| == 0 then 0
    else Over(cs[..|cs| - 1], k) + (if cs[|cs| - 1] > k then 1 else 0)
  }

  /** A literal with coefficient c lifted to `ite(ℓ, c, 0)` at the width of
      k. */
  function LiftOne(c: nat, arg: Expr, k: nat): BvExpr
  {
    MkBvIte(arg, BvNum(c, NumBits(k)), Zero(k))
  }

  /** The literals kept for the tree, lifted to `ite(ℓᵢ, cᵢ, 0)` at the
      width of k, in argument order. */
  function Lifted(cs: seq<nat>, args: seq<Expr>, k: nat): (r: seq<BvExpr>)
    requires |cs| == |args|
  {
    if |args| == 0 then []
    else
      var n := |args| - 1;
      Lifted(cs[..n], args[..n], k) +
        (if cs[n] > k then [] else [LiftOne(cs[n], args[n], k)])
  }

  /** The unit facts ¬ℓᵢ of the literals whose coefficient exceeds k. */
  function Pruned(cs: seq<nat>, args: seq<Expr>, k: nat): (r: seq<Expr>)
    requires |cs| == |args|
  {
    if |args| == 0 then []
    else
      var n := |args| - 1;
      Pruned(cs[..n], args[..n], k) + (if cs[n] > k then [Not(args[n])] else [])
  }

  /** One unit fact per coefficient above k, one lifted value per other
      coefficient. */
  lemma {:induction false} FilterLengths(cs: seq<nat>, args: seq<Expr>, k: nat)
    requires |cs| == |args|
    ensures |Pruned(cs, args, k)| == Over(cs, k)
    ensures |Lifted(cs, args, k)| == |args| - Over(cs, k)
  {
    if |args| > 0 {
      var n := |args| - 1;
      FilterLengths(cs[..n], args[..n], k);
      assert cs[..n] == cs[..|cs| - 1];
    }
  }

  /** The unit fact of literal i with cᵢ > k sits at index Over(cs[..i], k)
      of the pruned list: the number of pruned literals before it. */
  lemma {:induction false} PrunedAt(cs: seq<nat>, args: seq<Expr>, k: nat, i: nat)
    requires |cs| == |args| && i < |args| && cs[i] > k
    ensures Over(cs[..i], k) < |Pruned(cs, args, k)|
    ensures Pruned(cs, args, k)[Over(cs[..i], k)] == Not(args[i])
  {
    var n := |args| - 1;
    var pruned := Pruned(cs[..n], args[..n], k);
    FilterLengths(cs[..n], args[..n], k);
    assert cs[..n] == cs[..|cs| - 1];
    if i < n {
      assert cs[..n][i] == cs[i] && args[..n][i] == args[i] && cs[..n][..i] == cs[..i];
      PrunedAt(cs[..n], args[..n], k, i);
      if cs[n] > k {
        assert Pruned(cs, args, k) == pruned + [Not(args[n])];
      } else {
        assert Pruned(cs, args, k) == pruned;
      }
    } else {
      assert Pruned(cs, args, k) == pruned + [Not(args[n])];
    }
  }

  /** The lifted value of literal i with cᵢ ≤ k sits at index
      i − Over(cs[..i], k) of the lifted list: the number of lifted literals
      before it. */
  lemma {:induction false} LiftedAt(cs: seq<nat>, args: seq<Expr>, k: nat, i: nat)
    requires |cs| == |args| && i < |args| && cs[i] <= k
    ensures Over(cs[..i], k) <= i && i - Over(cs[..i], k) < |Lifted(cs, args, k)|
    ensures Lifted(cs, args, k)[i - Over(cs[..i], k)] == LiftOne(cs[i], args[i], k)
  {
    var n := |args| - 1;
    var lifted := Lifted(cs[..n], args[..n], k);
    FilterLengths(cs[..n], args[..n], k);
    assert cs[..n] == cs[..|cs| - 1];
    assert |cs[..i]| == i;
    if i < n {
      assert cs[..n][i] == cs[i] && args[..n][i] == args[i] && cs[..n][..i] == cs[..i];
      LiftedAt(cs[..n], args[..n], k, i);
      if cs[n] <= k {
        assert Lifted(cs, args, k) == lifted + [LiftOne(cs[n], args[n], k)];
      } else {
        assert Lifted(cs, args, k) == lifted;
      }
    } else {
      assert Lifted(cs, args, k) == lifted + [LiftOne(cs[n], args[n], k)];
    }
  }

  /** The pruning loop is a stable filter. Literal i has Over(cs[..i], k)
      pruned literals before it. If cᵢ > k its unit fact ¬ℓᵢ is at that index
      of the pruned list; otherwise its lifted value is at index
      i − Over(cs[..i], k) of the lifted list. With the lengths, this holds for
      every i and so places each literal in exactly one list, in argument
      order. */
  lemma {:induction false} PruneOrLift(cs: seq<nat>, args: seq<Expr>, k: nat, i: nat)
    requires |cs| == |args| && i < |args|
    ensures |Pruned(cs, args, k)| == Over(cs, k)
    ensures |Pruned(cs, args, k)| + |Lifted(cs, args, k)| == |args|
    ensures cs[i] > k ==>
              Over(cs[..i], k) < |Pruned(cs, args, k)| &&
              Pruned(cs, args, k)[Over(cs[..i], k)] == Not(args[i]) &&
              Not(args[i]) in Pruned(cs, args, k)
    ensures cs[i] <= k ==>
              Over(cs[..i], k) <= i && i - Over(cs[..i], k) < |Lifted(cs, args, k)| &&
              Lifted(cs, args, k)[i - Over(cs[..i], k)] == LiftOne(cs[i], args[i], k)
  {
    FilterLengths(cs, args, k);
    if cs[i] > k {
      PrunedAt(cs, args, k, i);
    } else {
      LiftedAt(cs, args, k, i);
    }
  }

  /** Every lifted value is a well-sorted term at the width of k whose value
      is at most k. */
  lemma {:induction false} LiftedSlots(cs: seq<nat>, args: seq<Expr>, k: nat, env: Assignment)
    requires |cs| == |args|
    ensures Slots(Lifted(cs, args, k), NumBits(k))
    ensures SlotsAtMost(Lifted(cs, args, k), k, env)
  {
    if |args| > 0 {
      var n := |args| - 1;
      LiftedSlots(cs[..n], args[..n], k, env);
      var lifted := Lifted(cs[..n], args[..n], k);
      if cs[n] > k {
        assert Lifted(cs, args, k) == lifted;
      } else {
        var slot := LiftOne(cs[n], args[n], k);
        ModPow2Small(cs[n], NumBits(k));
        ModPow2Small(0, NumBits(k));
        assert EvalBv(slot, env) <= k;
        assert Lifted(cs, args, k) == lifted + [slot];
        forall j | 0 <= j < |lifted| + 1 ensures EvalBv((lifted + [slot])[j], env) <= k {
          if j < |lifted| {
            assert (lifted + [slot])[j] == lifted[j];
          }
        }
      }
    }
  }

  /** When the unit facts hold the lifted values sum to the weighted sum;
      when one fails, the weighted sum already exceeds k. */
  lemma {:induction false} LiftSum(cs: seq<nat>, args: seq<Expr>, k: nat, env: Assignment)
    requires |cs| == |args|
    ensures AllHold(Pruned(cs, args, k), env) ==> SumBv(Lifted(cs, args, k), env) == WeightedSum(cs, args, env)
    ensures !AllHold(Pruned(cs, args, k), env) ==> WeightedSum(cs, args, env) > k
  {
    if |args| > 0 {
      var n := |args| - 1;
      LiftSum(cs[..n], args[..n], k, env);
      var lifted := Lifted(cs[..n], args[..n], k);
      var pruned := Pruned(cs[..n], args[..n], k);
      var rest := WeightedSum(cs[..n], args[..n], env);
      assert WeightedSum(cs, args, env) == rest + (if Eval(args[n], env) then cs[n] else 0);
      if cs[n] > k {
        assert Lifted(cs, args, k) == lifted;
        assert Pruned(cs, args, k) == pruned + [Not(args[n])];
        AllHoldAppend(pruned, [Not(args[n])], env);
        AllHoldSingleton(Not(args[n]), env);
      } else {
        var slot := LiftOne(cs[n], args[n], k);
        ModPow2Small(cs[n], NumBits(k));
        ModPow2Small(0, NumBits(k));
        assert EvalBv(slot, env) == if Eval(args[n], env) then cs[n] else 0;
        assert Lifted(cs, args, k) == lifted + [slot];
        assert Pruned(cs, args, k) == pruned;
        SumBvAppend(lifted, slot, env);
      }
    }
  }

  /** Pruning and lifting keep the meaning of "at most k": the unit facts
      hold and the lifted values stay within k exactly when the weighted sum
      does, and then the lifted values sum to the weighted sum. */
  lemma {:induction false} LiftMeaning(cs: seq<nat>, args: seq<Expr>, k: nat, env: Assignment)
    requires |cs| == |args|
    ensures Slots(Lifted(cs, args, k), NumBits(k))
    ensures SlotsAtMost(Lifted(cs, args, k), k, env)
    ensures AllHold(Pruned(cs, args, k), env) && SumBv(Lifted(cs, args, k), env) <= k <==>
              WeightedSum(cs, args, env) <= k
    ensures AllHold(Pruned(cs, args, k), env) ==> SumBv(Lifted(cs, args, k), env) == WeightedSum(cs, args, env)
  {
    LiftedSlots(cs, args, k, env);
    LiftSum(cs, args, k, env);
  }

  /** The value compared with the bound in the EQ mode: the single value
      left by the tree, or zero when every literal was pruned. */
  function FinalValue(vals: seq<BvExpr>, k: nat): BvExpr
  {
    if |vals| == 0 then Zero(k) else vals[|vals| - 1]
  }

  /** The facts of the LE mode: the unit facts, then the tree's facts. */
  function LeFacts(cs: seq<nat>, args: seq<Expr>, k: nat): seq<Expr>
    requires |cs| == |args|
  {
    Pruned(cs, args, k) + Reduce(Lifted(cs, args, k), Bound(k)).1
  }

  /** The circuit built by `mk_le_ge` for the modes with callers. */
  function EncodeLeGe(mode: Mode, cs: seq<nat>, args: seq<Expr>, k: nat): Expr
    requires |cs| == |args|
  {
    if k == 0 then Not(Or(args))
    else
      match mode
      case LE => And(LeFacts(cs, args, k))
      case EQ =>
        var vals := Reduce(Lifted(cs, args, k), Bound(k)).0;
        And(LeFacts(cs, args, k) + [BvEq(Bound(k), FinalValue(vals, k))])
  }

  lemma {:induction false} BoundValue(k: nat, env: Assignment)
    ensures EvalBv(Bound(k), env) == k
  {
    ModPow2Small(k, NumBits(k));
  }

  /** For k ≥ 1 the facts of the LE mode hold exactly when Σ cᵢ·[ℓᵢ] ≤ k,
      and then the values left by the tree sum to Σ cᵢ·[ℓᵢ]. */
  lemma {:induction false} LeFactsMeaning(cs: seq<nat>, args: seq<Expr>, k: nat, env: Assignment)
    requires |cs| == |args| && k > 0
    ensures AllHold(LeFacts(cs, args, k), env) <==> WeightedSum(cs, args, env) <= k
    ensures AllHold(LeFacts(cs, args, k), env) ==>
              SumBv(Reduce(Lifted(cs, args, k), Bound(k)).0, env) == WeightedSum(cs, args, env)
  {
    var lifted := Lifted(cs, args, k);
    LiftMeaning(cs, args, k, env);
    BoundValue(k, env);
    ReduceMeaning(lifted, Bound(k), NumBits(k), env);
    AllHoldAppend(Pruned(cs, args, k), Reduce(lifted, Bound(k)).1, env);
  }

  /** The LE encoding holds exactly when Σ cᵢ·[ℓᵢ] ≤ k. */
  lemma {:induction false} LeEncodingCorrect(cs: seq<nat>, args: seq<Expr>, k: nat, env: Assignment)
    requires |cs| == |args| && Positive(cs)
    ensures Eval(EncodeLeGe(LE, cs, args, k), env) <==> WeightedSum(cs, args, env) <= k
  {
    if k == 0 {
      WeightedSumZero(cs, args, env);
    } else {
      LeFactsMeaning(cs, args, k, env);
    }
  }

  /** The value compared in the EQ mode is the total the tree computed. */
  lemma {:induction false} FinalValueMeaning(vals: seq<BvExpr>, k: nat, env: Assignment)
    requires |vals| <= 1
    ensures EvalBv(FinalValue(vals, k), env) == SumBv(vals, env)
  {
    if |vals| == 1 {
      assert vals[..0] == [];
    } else {
      ModPow2Small(0, NumBits(k));
    }
  }

  /** The EQ encoding holds exactly when Σ cᵢ·[ℓᵢ] = k. */
  lemma {:induction false} EqEncodingCorrect(cs: seq<nat>, args: seq<Expr>, k: nat, env: Assignment)
    requires |cs| == |args| && Positive(cs)
    ensures Eval(EncodeLeGe(EQ, cs, args, k), env) <==> WeightedSum(cs, args, env) == k
  {
    if k == 0 {
      WeightedSumZero(cs, args, env);
    } else {
      var vals := Reduce(Lifted(cs, args, k), Bound(k)).0;
      var last := BvEq(Bound(k), FinalValue(vals, k));
      assert EncodeLeGe(EQ, cs, args, k) == And(LeFacts(cs, args, k) + [last]);
      LeFactsMeaning(cs, args, k, env);
      BoundValue(k, env);
      FinalValueMeaning(vals, k, env);
      AllHoldAppend(LeFacts(cs, args, k), [last], env);
      AllHoldSingleton(last, env);
    }
  }

  /** The EQ mode as written: the final fact compares the bound with
      `es.back()`, which is undefined when every literal was pruned. */
  function EncodeEqAsWritten(cs: seq<nat>, args: seq<Expr>, k: nat): (r: Option<Expr>)
    requires |cs| == |args|
    ensures r.None? <==> k > 0 && Lifted(cs, args, k) == []
    ensures r.Some? ==> r.value == EncodeLeGe(EQ, cs, args, k)
  {
    if k == 0 then Some(Not(Or(args)))
    else
      var vals := Reduce(Lifted(cs, args, k), Bound(k)).0;
      if |vals| == 0 then None
      else Some(And(LeFacts(cs, args, k) + [BvEq(Bound(k), vals[|vals| - 1])]))
  }

  /** 5·x = 3: the only literal is pruned, so the tree is empty and the
      written code reads the last element of an empty vector, while the
      corrected encoding is unsatisfiable like the constraint itself. */
  lemma {:induction false} EqAllPrunedWitness(env: Assignment)
    ensures EncodeEqAsWritten([5], [Var(0)], 3) == None
    ensures !Eval(EncodeLeGe(EQ, [5], [Var(0)], 3), env)
    ensures WeightedSum([5], [Var(0)], env) != 3
  {
    assert Lifted([5], [Var(0)], 3) == [] by {
      assert [5][..0] == [] && [Var(0)][..0] == [];
    }
    EqEncodingCorrect([5], [Var(0)], 3, env);
    assert [5][..0] == [] && [Var(0)][..0] == [];
  }

  /** One round of the reduction loop: adds the values pairwise in place
      (pair j goes to slot j), moves an odd last value to the middle and
      halves the vector. */
  method PairUp(level: seq<BvExpr>, fmls0: seq<Expr>, bound: BvExpr)
    returns (es: seq<BvExpr>, fmls: seq<Expr>)
    ensures es == NextLevel(level, bound)
    ensures fmls == fmls0 + PairFacts(level, bound, |level| / 2)
  {
    es, fmls := level, fmls0;
    var j := 0;
    while 2 * j + 1 < |es|
      invariant 2 * j <= |level| == |es|
      invariant forall i | 0 <= i < j :: es[i] == CheckedAdd(level[2 * i], level[2 * i + 1], bound).0
      invariant forall i | 2 * j <= i < |es| :: es[i] == level[i]
      invariant fmls == fmls0 + PairFacts(level, bound, j)
    {
      var step := CheckedAdd(es[2 * j], es[2 * j + 1], bound);
      PairFactsStep(level, fmls0, bound, j);
      PairSlotsStep(level, es, bound, j);
      fmls := fmls + step.1;
      es := es[j := step.0];
      j := j + 1;
    }
    PairTail(level, es, bound, j);
    if |es| % 2 == 1 {
      es := es[j := es[|es| - 1]];
      es := es[..j + 1];
    } else {
      es := es[..j];
    }
  }

  /** The facts of pair j follow those of the pairs before it. */
  lemma {:induction false} PairFactsStep(level: seq<BvExpr>, fmls0: seq<Expr>, bound: BvExpr, j: nat)
    requires 2 * j + 1 < |level|
    ensures fmls0 + PairFacts(level, bound, j) + CheckedAdd(level[2 * j], level[2 * j + 1], bound).1 ==
              fmls0 + PairFacts(level, bound, j + 1)
  {
  }

  /** One turn of the pairing loop: slot j takes the checked sum of the pair
      2j, 2j + 1 and the untouched tail shrinks by two. */
  lemma {:induction false} PairSlotsStep(level: seq<BvExpr>, es: seq<BvExpr>, bound: BvExpr, j: nat)
    requires 2 * j + 1 < |level| == |es|
    requires forall i | 0 <= i < j :: es[i] == CheckedAdd(level[2 * i], level[2 * i + 1], bound).0
    requires forall i | 2 * j <= i < |es| :: es[i] == level[i]
    ensures forall i | 0 <= i < j + 1 ::
              es[j := CheckedAdd(es[2 * j], es[2 * j + 1], bound).0][i] ==
              CheckedAdd(level[2 * i], level[2 * i + 1], bound).0
    ensures forall i | 2 * (j + 1) <= i < |es| ::
              es[j := CheckedAdd(es[2 * j], es[2 * j + 1], bound).0][i] == level[i]
  {
  }

  /** After the last pair: the remainders followed by an odd last value form
      the next level. */
  lemma {:induction false} PairTail(level: seq<BvExpr>, es: seq<BvExpr>, bound: BvExpr, j: nat)
    requires 2 * j <= |level| == |es| && 2 * j + 1 >= |es|
    requires forall i | 0 <= i < j :: es[i] == CheckedAdd(level[2 * i], level[2 * i + 1], bound).0
    requires forall i | 2 * j <= i < |es| :: es[i] == level[i]
    ensures j == |level| / 2
    ensures |es| % 2 == 1 ==> es[j := es[|es| - 1]][..j + 1] == NextLevel(level, bound)
    ensures |es| % 2 == 0 ==> es[..j] == NextLevel(level, bound)
  {
    var next := NextLevel(level, bound);
    if |es| % 2 == 1 {
      var r := es[j := es[|es| - 1]][..j + 1];
      assert |r| == |next|;
      forall i | 0 <= i < |r| ensures r[i] == next[i] {
      }
    } else {
      assert |es[..j]| == |next|;
      forall i | 0 <= i < j ensures es[..j][i] == next[i] {
      }
    }
  }

  /** One round of the loop unfolds the tree by one level. */
  lemma {:induction false} ReduceRound(level: seq<BvExpr>, before: seq<Expr>, bound: BvExpr)
    requires |level| > 1
    ensures Reduce(level, bound).0 == Reduce(NextLevel(level, bound), bound).0
    ensures before + Reduce(level, bound).1 ==
              (before + PairFacts(level, bound, |level| / 2)) + Reduce(NextLevel(level, bound), bound).1
  {
  }

  /** The number of rounds the reduction loop makes on n values. */
  function Rounds(n: nat): nat
  {
    if n <= 1 then 0 else 1 + Rounds((n + 1) / 2)
  }

  /** The tree over n ≥ 1 values has depth ⌈log₂ n⌉: 2^(d-1) < n ≤ 2^d. */
  lemma {:induction false} RoundsIsCeilLog2(n: nat)
    requires n >= 1
    ensures n <= Pow2(Rounds(n))
    ensures n >= 2 ==> Pow2(Rounds(n) - 1) < n
  {
    if n >= 2 {
      var m := (n + 1) / 2;
      RoundsIsCeilLog2(m);
      assert Rounds(n) == 1 + Rounds(m);
      assert Pow2(Rounds(n)) == 2 * Pow2(Rounds(m));
    }
  }

  /** The reduction loop: rounds of pairwise checked adds until at most one
      value is left; `rounds` counts them. */
  method ReduceTree(es0: seq<BvExpr>, fmls0: seq<Expr>, bound: BvExpr)
    returns (es: seq<BvExpr>, fmls: seq<Expr>, ghost rounds: nat)
    ensures es == Reduce(es0, bound).0
    ensures fmls == fmls0 + Reduce(es0, bound).1
    ensures rounds == Rounds(|es0|)
  {
    es, fmls := es0, fmls0;
    rounds := 0;
    while |es| > 1
      invariant Reduce(es, bound).0 == Reduce(es0, bound).0
      invariant fmls + Reduce(es, bound).1 == fmls0 + Reduce(es0, bound).1
      invariant rounds + Rounds(|es|) == Rounds(|es0|)
      decreases |es|
    {
      ghost var level, before := es, fmls;
      es, fmls := PairUp(es, fmls, bound);
      rounds := rounds + 1;
      ReduceRound(level, before, bound);
    }
  }

  /** `mk_le_ge` for the LE and EQ modes: the pruning loop, then the
      reduction tree, then the final conjunction. */
  method MkLeGe(mode: Mode, cs: seq<nat>, args: seq<Expr>, k: nat) returns (r: Expr)
    requires |cs| == |args|
    ensures r == EncodeLeGe(mode, cs, args, k)
  {
    if k == 0 {
      return Not(Or(args));
    }
    var nb := NumBits(k);
    var zero := BvNum(0, nb);
    var bound := BvNum(k, nb);
    var es: seq<BvExpr> := [];
    var fmls: seq<Expr> := [];
    for i := 0 to |args|
      invariant es == Lifted(cs[..i], args[..i], k)
      invariant fmls == Pruned(cs[..i], args[..i], k)
    {
      assert cs[..i + 1][..i] == cs[..i] && args[..i + 1][..i] == args[..i];
      if cs[i] > k {
        fmls := fmls + [Not(args[i])];
      } else {
        es := es + [MkBvIte(args[i], BvNum(cs[i], nb), zero)];
      }
    }
    assert cs[..|args|] == cs && args[..|args|] == args;
    ghost var rounds;
    es, fmls, rounds := ReduceTree(es, fmls, bound);
    match mode
    case LE =>
      r := And(fmls);
    case EQ =>
      var last := if |es| == 0 then zero else es[|es| - 1];
      r := And(fmls + [BvEq(bound, last)]);
  }
}
