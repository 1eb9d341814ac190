/** The cardinality dispatcher: which encoding a pseudo-boolean constraint
    gets, and the dualization that turns "at least" into "at most". */
module Dispatch {
  import opened Formula
  import opened CircuitBuilder
  import opened WeightedEncoder

  /** The operators of the pseudo-boolean family. */
  datatype PbKind = AtMostK | AtLeastK | PbLe | PbGe | PbEq

  /** A constraint operator: its kind, one coefficient per argument and the
      threshold k. The cardinality operators have unit coefficients. */
  datatype PbDecl = PbDecl(kind: PbKind, coeffs: seq<nat>, k: nat)

  /** All coefficients are 1. */
  predicate Unit(cs: seq<nat>)
  {
    forall i | 0 <= i < |cs| :: cs[i] == 1
  }

  /** The operator is applied to n arguments and a cardinality operator has
      unit coefficients. */
  predicate WellFormed(d: PbDecl, n: nat)
  {
    |d.coeffs| == n && ((d.kind == AtMostK || d.kind == AtLeastK) ==> Unit(d.coeffs))
  }

  /** What the constraint says about the literals under env. */
  predicate Holds(d: PbDecl, args: seq<Expr>, env: Assignment)
    requires WellFormed(d, |args|)
  {
    match d.kind
    case AtMostK => WeightedSum(d.coeffs, args, env) <= d.k
    case PbLe => WeightedSum(d.coeffs, args, env) <= d.k
    case AtLeastK => WeightedSum(d.coeffs, args, env) >= d.k
    case PbGe => WeightedSum(d.coeffs, args, env) >= d.k
    case PbEq => WeightedSum(d.coeffs, args, env) == d.k
  }

  /** The number of literals true under env. */
  function Count(args: seq<Expr>, env: Assignment): nat
  {
    if |args| == 0 then 0
    else Count(args[..|args| - 1], env) + (if Eval(args[|args| - 1], env) then 1 else 0)
  }

  /** With unit coefficients the weighted sum counts the true literals. */
  lemma {:induction false} UnitSumIsCount(cs: seq<nat>, args: seq<Expr>, env: Assignment)
    requires |cs| == |args| && Unit(cs)
    ensures WeightedSum(cs, args, env) == Count(args, env)
  {
    if |args| > 0 {
      var n := |args| - 1;
      assert Unit(cs[..n]) by {
        forall i | 0 <= i < n ensures cs[..n][i] == 1 {
          assert cs[..n][i] == cs[i];
        }
      }
      UnitSumIsCount(cs[..n], args[..n], env);
    }
  }

  /** The literal-wise negation `dualize` applies to the arguments. */
  function NegateAll(args: seq<Expr>): (r: seq<Expr>)
    ensures |r| == |args|
    ensures forall i | 0 <= i < |args| :: r[i] == Negate(args[i])
  {
    if |args| == 0 then [] else NegateAll(args[..|args| - 1]) + [Negate(args[|args| - 1])]
  }

  /** `dualize`: negates every argument in place and turns the threshold k
      into Σ cᵢ - k. The result may be negative. */
  method Dualize(cs: seq<nat>, args: seq<Expr>, k: int) returns (nargs: seq<Expr>, dual: int)
    requires |cs| == |args|
    ensures nargs == NegateAll(args)
    ensures dual == SumOf(cs) - k
  {
    dual := -k;
    nargs := args;
    for i := 0 to |args|
      invariant |nargs| == |args|
      invariant forall j | 0 <= j < i :: nargs[j] == Negate(args[j])
      invariant nargs[i..] == args[i..]
      invariant dual == SumOf(cs[..i]) - k
    {
      assert cs[..i + 1][..i] == cs[..i];
      assert nargs[i] == nargs[i..][0];
      dual := dual + cs[i];
      nargs := nargs[i := Negate(nargs[i])];
    }
    assert cs[..|cs|] == cs;
  }

  /** A literal and its negation split every coefficient between them: the
      weighted sum over the negated literals is Σ cᵢ minus the weighted sum
      over the literals. */
  lemma {:induction false} DualSum(cs: seq<nat>, args: seq<Expr>, env: Assignment)
    requires |cs| == |args|
    ensures WeightedSum(cs, NegateAll(args), env) + WeightedSum(cs, args, env) == SumOf(cs)
  {
    if |args| > 0 {
      var n := |args| - 1;
      DualSum(cs[..n], args[..n], env);
      assert NegateAll(args)[..n] == NegateAll(args[..n]);
    }
  }

  /** Σ cᵢ·[ℓᵢ] ≥ k exactly when Σ cᵢ·[¬ℓᵢ] ≤ Σ cᵢ - k. */
  lemma {:induction false} DualizeCorrect(cs: seq<nat>, args: seq<Expr>, k: nat, env: Assignment)
    requires |cs| == |args|
    ensures WeightedSum(cs, args, env) >= k <==> WeightedSum(cs, NegateAll(args), env) <= SumOf(cs) - k
  {
    DualSum(cs, args, env);
  }

  /** `mk_bv`: the weighted encoding of a constraint. An at-least constraint
      is dualized first; when Σ cᵢ < k it can never hold and is encoded as
      false. */
  function BvEncoding(d: PbDecl, args: seq<Expr>): Expr
    requires WellFormed(d, |args|)
  {
    match d.kind
    case AtMostK => EncodeLeGe(LE, d.coeffs, args, d.k)
    case PbLe => EncodeLeGe(LE, d.coeffs, args, d.k)
    case AtLeastK => DualEncoding(d.coeffs, args, d.k)
    case PbGe => DualEncoding(d.coeffs, args, d.k)
    case PbEq => EncodeLeGe(EQ, d.coeffs, args, d.k)
  }

  /** The at-least branch of `mk_bv`, with the guard for Σ cᵢ < k. */
  function DualEncoding(cs: seq<nat>, args: seq<Expr>, k: nat): Expr
    requires |cs| == |args|
  {
    if SumOf(cs) < k then False
    else EncodeLeGe(LE, cs, NegateAll(args), SumOf(cs) - k)
  }

  /** The at-least branch as written: nothing stops Σ cᵢ - k from being
      negative. Past the assertion that it is not, every coefficient exceeds
      the negative threshold, so every negated literal is pruned into a unit
      fact and the tree is empty. */
  function DualEncodingAsWritten(cs: seq<nat>, args: seq<Expr>, k: nat): (r: Expr)
    requires |cs| == |args|
    ensures SumOf(cs) >= k ==> r == DualEncoding(cs, args, k)
  {
    if SumOf(cs) >= k then EncodeLeGe(LE, cs, NegateAll(args), SumOf(cs) - k)
    else And(NotAll(NegateAll(args)))
  }

  /** The unit facts ¬ℓᵢ for every literal. */
  function NotAll(args: seq<Expr>): (r: seq<Expr>)
    ensures |r| == |args|
    ensures forall i | 0 <= i < |args| :: r[i] == Not(args[i])
  {
    if |args| == 0 then [] else NotAll(args[..|args| - 1]) + [Not(args[|args| - 1])]
  }

  /** The sums of the witness 2·a + 3·b ≥ 10: the slack Σ cᵢ − k is −5, and
      with both literals true the weighted sum is 5. */
  lemma {:induction false} WitnessSums(a: Expr, b: Expr, env: Assignment)
    requires Eval(a, env) && Eval(b, env)
    ensures SumOf([2, 3]) == 5
    ensures WeightedSum([2, 3], [a, b], env) == 5
  {
    assert [2, 3][..1] == [2] && [2][..0] == [];
    assert [a, b][..1] == [a] && [a][..0] == [];
    assert WeightedSum([2], [a], env) == 2;
  }

  /** As written, the witness is encoded as the unit facts ¬¬a and ¬¬b. */
  lemma {:induction false} WitnessAsWritten(a: Expr, b: Expr)
    ensures DualEncodingAsWritten([2, 3], [a, b], 10) == And([Not(Negate(a)), Not(Negate(b))])
  {
    assert [2, 3][..1] == [2] && [2][..0] == [];
    var facts := NotAll(NegateAll([a, b]));
    assert facts == [Not(Negate(a)), Not(Negate(b))];
  }

  /** 2·a + 3·b ≥ 10 cannot hold, yet as written its encoding holds when
      both literals are true; the guarded encoding is false. */
  lemma {:induction false} NegativeDualWitness(a: Expr, b: Expr, env: Assignment)
    requires Eval(a, env) && Eval(b, env)
    ensures SumOf([2, 3]) - 10 == -5
    ensures Eval(DualEncodingAsWritten([2, 3], [a, b], 10), env)
    ensures WeightedSum([2, 3], [a, b], env) == 5
    ensures DualEncoding([2, 3], [a, b], 10) == False
  {
    WitnessSums(a, b, env);
    WitnessAsWritten(a, b);
    var facts := [Not(Negate(a)), Not(Negate(b))];
    assert Eval(facts[0], env) && Eval(facts[1], env);
  }

  /** The weighted encoding holds exactly when the constraint does. */
  lemma {:induction false} MkBvCorrect(d: PbDecl, args: seq<Expr>, env: Assignment)
    requires WellFormed(d, |args|) && Positive(d.coeffs)
    ensures Eval(BvEncoding(d, args), env) <==> Holds(d, args, env)
  {
    match d.kind
    case AtMostK => LeEncodingCorrect(d.coeffs, args, d.k, env);
    case PbLe => LeEncodingCorrect(d.coeffs, args, d.k, env);
    case AtLeastK => DualEncodingCorrect(d.coeffs, args, d.k, env);
    case PbGe => DualEncodingCorrect(d.coeffs, args, d.k, env);
    case PbEq => EqEncodingCorrect(d.coeffs, args, d.k, env);
  }

  /** The at-least encoding holds exactly when Σ cᵢ·[ℓᵢ] ≥ k. */
  lemma {:induction false} DualEncodingCorrect(cs: seq<nat>, args: seq<Expr>, k: nat, env: Assignment)
    requires |cs| == |args| && Positive(cs)
    ensures Eval(DualEncoding(cs, args, k), env) <==> WeightedSum(cs, args, env) >= k
  {
    WeightedSumAtMostTotal(cs, args, env);
    if SumOf(cs) >= k {
      DualizeCorrect(cs, args, k, env);
      LeEncodingCorrect(cs, NegateAll(args), SumOf(cs) - k, env);
    }
  }

  /** `mk_bv`: dualizes an at-least constraint, then calls the weighted
      encoder in the LE mode, or in the EQ mode for an equality. This is the
      run form, through the loops of MkDual and MkLeGe; BvEncoding is its
      specification. */
  method MkBv(d: PbDecl, args: seq<Expr>) returns (r: Expr)
    requires WellFormed(d, |args|)
    ensures r == BvEncoding(d, args)
  {
    match d.kind
    case AtMostK =>
      r := MkLeGe(LE, d.coeffs, args, d.k);
    case PbLe =>
      r := MkLeGe(LE, d.coeffs, args, d.k);
    case AtLeastK =>
      r := MkDual(d.coeffs, args, d.k);
    case PbGe =>
      r := MkDual(d.coeffs, args, d.k);
    case PbEq =>
      r := MkLeGe(EQ, d.coeffs, args, d.k);
  }

  /** The at-least branch of `mk_bv`. */
  method MkDual(cs: seq<nat>, args: seq<Expr>, k: nat) returns (r: Expr)
    requires |cs| == |args|
    ensures r == DualEncoding(cs, args, k)
  {
    var nargs, dual := Dualize(cs, args, k);
    if dual < 0 {
      r := False;
    } else {
      r := MkLeGe(LE, cs, nargs, dual);
    }
  }

  /** The requests the sorting network serves. */
  datatype SortOp = SortLe | SortGe | SortEq

  /** What a translation produces: the circuit, how many fresh auxiliary
      variables it created (named by consecutive ids from the first one it
      was given) and the clauses it asked to be added as side lemmas. */
  datatype Encoding = Encoding(circuit: Expr, numFresh: nat, clauses: seq<seq<Expr>>)

  /** The sorting network: a circuit for "at most / at least / exactly k of
      these literals are true", given the first unused variable id. */
  type Network = (SortOp, nat, seq<Expr>, nat) -> Encoding

  /** A count c meets request op with threshold k. */
  predicate Meets(op: SortOp, c: nat, k: nat)
  {
    match op
    case SortLe => c <= k
    case SortGe => c >= k
    case SortEq => c == k
  }

  /** The sorting network builds circuits that mean what was asked. */
  ghost predicate NetCorrect(net: Network)
  {
    forall op, k, args, first, env ::
      Eval(net(op, k, args, first).circuit, env) == Meets(op, Count(args, env), k)
  }

  /** 2 to the 32nd, the size of an unsigned machine word. */
  lemma {:induction false} WordSize()
    ensures Pow2(32) == 0x1_0000_0000
  {
    assert Pow2(2) == 4;
    Pow2Sum(2, 2);
    Pow2Sum(4, 4);
    Pow2Sum(8, 8);
    Pow2Sum(16, 16);
  }

  /** Below 2 to the 32nd are exactly the numbers written with at most 32
      bits. */
  lemma {:induction false} WordBits(k: nat)
    ensures k < 0x1_0000_0000 <==> NumBits(k) <= 32
  {
    WordSize();
    if NumBits(k) > 32 {
      Pow2Monotone(32, NumBits(k) - 1);
    } else {
      Pow2Monotone(NumBits(k), 32);
    }
  }

  /** `is_unsigned` on the threshold: it fits an unsigned machine word, that
      is, it is written with at most 32 bits. */
  function IsUnsigned(k: nat): (r: bool)
    ensures r <==> NumBits(k) <= 32
  {
    WordBits(k);
    k < 0x1_0000_0000
  }

  /** `is_or`: an at-least constraint with threshold 1. When it holds and
      the coefficients are positive, the constraint is exactly the
      disjunction of its literals, which is what `mk_pb` builds for it. */
  function IsOr(d: PbDecl): (r: bool)
    ensures r ==>
              forall args: seq<Expr>, env: Assignment | WellFormed(d, |args|) && Positive(d.coeffs) ::
                Eval(Or(args), env) == Holds(d, args, env)
  {
    if (d.kind == AtLeastK || d.kind == PbGe) && d.k == 1 then
      DisjunctionExact(d);
      true
    else
      false
  }

  /** For an at-least request with threshold 1 and positive coefficients,
      the disjunction is exact under every assignment and for every argument
      list. */
  lemma {:induction false} DisjunctionExact(d: PbDecl)
    requires (d.kind == AtLeastK || d.kind == PbGe) && d.k == 1
    ensures forall args: seq<Expr>, env: Assignment | WellFormed(d, |args|) && Positive(d.coeffs) ::
              Eval(Or(args), env) == Holds(d, args, env)
  {
    forall args: seq<Expr>, env: Assignment | WellFormed(d, |args|) && Positive(d.coeffs)
      ensures Eval(Or(args), env) == Holds(d, args, env)
    {
      DisjunctionShortcut(d, args, env);
    }
  }

  /** `mk_pb`: the plain disjunction for `is_or`, then the sorting network for
      cardinality shapes with a word-sized threshold, otherwise `mk_bv`. */
  function PbEncoding(d: PbDecl, args: seq<Expr>, net: Network, first: nat): (r: Encoding)
    requires WellFormed(d, |args|)
    ensures (r.numFresh > 0 || r.clauses != []) ==> !IsOr(d) && IsUnsigned(d.k) && Unit(d.coeffs)
  {
    if IsOr(d) then Encoding(Or(args), 0, [])
    else if d.kind == AtMostK && IsUnsigned(d.k) then net(SortLe, d.k, args, first)
    else if d.kind == AtLeastK && IsUnsigned(d.k) then net(SortGe, d.k, args, first)
    else if d.kind == PbEq && IsUnsigned(d.k) && Unit(d.coeffs) then net(SortEq, d.k, args, first)
    else if d.kind == PbLe && IsUnsigned(d.k) && Unit(d.coeffs) then net(SortLe, d.k, args, first)
    else if d.kind == PbGe && IsUnsigned(d.k) && Unit(d.coeffs) then net(SortGe, d.k, args, first)
    else Encoding(BvEncoding(d, args), 0, [])
  }

  /** The request a constraint of the given kind makes of the network. */
  function SortOf(kind: PbKind): SortOp
  {
    match kind
    case AtMostK => SortLe
    case PbLe => SortLe
    case AtLeastK => SortGe
    case PbGe => SortGe
    case PbEq => SortEq
  }

  /** The dispatch order in three cases: `is_or` wins; otherwise a
      constraint with unit coefficients and a word-sized threshold goes to
      the network; everything else goes to the weighted encoder. */
  lemma {:induction false} DispatchRoute(d: PbDecl, args: seq<Expr>, net: Network, first: nat)
    requires WellFormed(d, |args|)
    ensures PbEncoding(d, args, net, first) ==
              if IsOr(d) then Encoding(Or(args), 0, [])
              else if IsUnsigned(d.k) && Unit(d.coeffs) then net(SortOf(d.kind), d.k, args, first)
              else Encoding(BvEncoding(d, args), 0, [])
  {
  }

  /** With positive coefficients, "at least 1" is the disjunction. */
  lemma {:induction false} DisjunctionShortcut(d: PbDecl, args: seq<Expr>, env: Assignment)
    requires WellFormed(d, |args|) && Positive(d.coeffs)
    requires (d.kind == AtLeastK || d.kind == PbGe) && d.k == 1
    ensures Eval(Or(args), env) <==> Holds(d, args, env)
  {
    WeightedSumZero(d.coeffs, args, env);
  }

  /** Whatever route is taken, the circuit holds exactly when the
      constraint does (given a correct network). */
  lemma {:induction false} MkPbCorrect(d: PbDecl, args: seq<Expr>, net: Network, first: nat, env: Assignment)
    requires WellFormed(d, |args|) && Positive(d.coeffs) && NetCorrect(net)
    ensures Eval(PbEncoding(d, args, net, first).circuit, env) <==> Holds(d, args, env)
  {
    DispatchRoute(d, args, net, first);
    if IsOr(d) {
      assert Eval(Or(args), env) == Holds(d, args, env);
    } else if IsUnsigned(d.k) && Unit(d.coeffs) {
      UnitSumIsCount(d.coeffs, args, env);
      assert Eval(net(SortOf(d.kind), d.k, args, first).circuit, env) == Meets(SortOf(d.kind), Count(args, env), d.k);
    } else {
      MkBvCorrect(d, args, env);
    }
  }

  /** `mk_pb`, run: the routing of PbEncoding, with the weighted route
      going through the loops of MkBv. */
  method MkPb(d: PbDecl, args: seq<Expr>, net: Network, first: nat) returns (r: Encoding)
    requires WellFormed(d, |args|)
    ensures r == PbEncoding(d, args, net, first)
  {
    if IsOr(d) {
      r := Encoding(Or(args), 0, []);
    } else if d.kind == AtMostK && IsUnsigned(d.k) {
      r := net(SortLe, d.k, args, first);
    } else if d.kind == AtLeastK && IsUnsigned(d.k) {
      r := net(SortGe, d.k, args, first);
    } else if d.kind == PbEq && IsUnsigned(d.k) && Unit(d.coeffs) {
      r := net(SortEq, d.k, args, first);
    } else if d.kind == PbLe && IsUnsigned(d.k) && Unit(d.coeffs) {
      r := net(SortLe, d.k, args, first);
    } else if d.kind == PbGe && IsUnsigned(d.k) && Unit(d.coeffs) {
      r := net(SortGe, d.k, args, first);
    } else {
      var e := MkBv(d, args);
      r := Encoding(e, 0, []);
    }
  }
}
