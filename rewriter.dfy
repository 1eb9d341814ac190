/** The rewriter's state: the per-node rewrite rule with its counter of
    translated constraints, and the ledger of fresh auxiliary variables,
    their scope checkpoints and the pending side lemmas. */
module Rewriter {
  import opened Formula
  import opened Dispatch

  /** Outcome of the rewrite rule for one node. */
  datatype Status = Done | Failed

  /** A node offered to the rewrite rule: a pseudo-boolean application, or
      anything else. */
  datatype App = PbApp(decl: PbDecl, args: seq<Expr>) | OtherApp

  /** The ids first, first + 1, …, first + n − 1. */
  function IdsFrom(first: nat, n: nat): (r: seq<nat>)
    ensures |r| == n
    ensures forall i | 0 <= i < n :: r[i] == first + i
  {
    if n == 0 then [] else IdsFrom(first, n - 1) + [first + n - 1]
  }

  /** One side lemma per clause: the disjunction of its literals. */
  function ClauseLemmas(clauses: seq<seq<Expr>>): (r: seq<Expr>)
    ensures |r| == |clauses|
    ensures forall i | 0 <= i < |clauses| :: r[i] == Or(clauses[i])
  {
    if |clauses| == 0 then []
    else ClauseLemmas(clauses[..|clauses| - 1]) + [Or(clauses[|clauses| - 1])]
  }

  class Pb2BvRewriter {
    /** The fresh auxiliary variables, in order of creation. */
    var freshVars: seq<nat>
    /** One checkpoint per open scope: the number of fresh variables when the
        scope was opened. */
    var freshLim: seq<nat>
    /** Side lemmas not yet handed to the caller. */
    var lemmas: seq<Expr>
    /** How many nodes the rewrite rule has translated. */
    var numTranslated: nat
    /** The term factory's supply of unused variable names. */
    var nextId: nat

    /** Checkpoints never decrease and never exceed the number of fresh
        variables; every fresh variable was drawn from the name supply. */
    ghost predicate Valid()
      reads this
    {
      (forall i | 0 <= i < |freshLim| :: freshLim[i] <= |freshVars|) &&
      (forall i, j | 0 <= i < j < |freshLim| :: freshLim[i] <= freshLim[j]) &&
      (forall i | 0 <= i < |freshVars| :: freshVars[i] < nextId)
    }

    constructor(firstId: nat)
      ensures Valid()
      ensures freshVars == [] && freshLim == [] && lemmas == []
      ensures numTranslated == 0 && nextId == firstId
    {
      freshVars, freshLim, lemmas := [], [], [];
      numTranslated, nextId := 0, firstId;
    }

    /** `push`: opens a scope by recording the current number of fresh
        variables. */
    method Push()
      requires Valid()
      modifies this
      ensures Valid()
      ensures freshLim == old(freshLim) + [|freshVars|]
      ensures freshVars == old(freshVars) && lemmas == old(lemmas)
      ensures numTranslated == old(numTranslated) && nextId == old(nextId)
    {
      freshLim := freshLim + [|freshVars|];
    }

    /** `pop`: closes the n innermost scopes, forgetting the fresh variables
        created in them. The lemmas must have been flushed. */
    method Pop(n: nat)
      requires Valid()
      requires lemmas == [] && n <= |freshLim|
      modifies this
      ensures Valid()
      ensures n == 0 ==> freshVars == old(freshVars) && freshLim == old(freshLim)
      ensures n > 0 ==>
                freshVars == old(freshVars)[..old(freshLim)[|old(freshLim)| - n]] &&
                freshLim == old(freshLim)[..|old(freshLim)| - n]
      ensures lemmas == old(lemmas)
      ensures numTranslated == old(numTranslated) && nextId == old(nextId)
    {
      if n > 0 {
        var newSize := |freshLim| - n;
        var lim := freshLim[newSize];
        freshVars := freshVars[..lim];
        freshLim := freshLim[..newSize];
      }
    }

    /** `flush_side_constraints`: appends the pending lemmas, in order, to
        the caller's list and empties the ledger's. */
    method FlushSideConstraints(side: seq<Expr>) returns (out: seq<Expr>)
      requires Valid()
      modifies this
      ensures Valid()
      ensures out == side + old(lemmas)
      ensures lemmas == []
      ensures freshVars == old(freshVars) && freshLim == old(freshLim)
      ensures numTranslated == old(numTranslated) && nextId == old(nextId)
    {
      out := side + lemmas;
      lemmas := [];
    }

    /** `fresh`: creates a new boolean variable and records it. */
    method Fresh() returns (v: Expr)
      requires Valid()
      modifies this
      ensures Valid()
      ensures v == Var(old(nextId)) && v.id !in old(freshVars)
      ensures freshVars == old(freshVars) + [v.id]
      ensures freshLim == old(freshLim) && lemmas == old(lemmas)
      ensures numTranslated == old(numTranslated) && nextId == old(nextId) + 1
    {
      v := Var(nextId);
      freshVars := freshVars + [nextId];
      nextId := nextId + 1;
    }

    /** `mk_clause`: records the disjunction of the literals as a side
        lemma. */
    method MkClause(lits: seq<Expr>)
      requires Valid()
      modifies this
      ensures Valid()
      ensures lemmas == old(lemmas) + [Or(lits)]
      ensures freshVars == old(freshVars) && freshLim == old(freshLim)
      ensures numTranslated == old(numTranslated) && nextId == old(nextId)
    {
      lemmas := lemmas + [Or(lits)];
    }

    /** Records n fresh variables, one Fresh call each: they take the next n
        ids. */
    method RecordFresh(n: nat)
      requires Valid()
      modifies this
      ensures Valid()
      ensures freshVars == old(freshVars) + IdsFrom(old(nextId), n)
      ensures nextId == old(nextId) + n
      ensures freshLim == old(freshLim) && lemmas == old(lemmas)
      ensures numTranslated == old(numTranslated)
    {
      var i := 0;
      while i < n
        invariant i <= n && Valid()
        invariant freshVars == old(freshVars) + IdsFrom(old(nextId), i)
        invariant nextId == old(nextId) + i
        invariant freshLim == old(freshLim) && lemmas == old(lemmas)
        invariant numTranslated == old(numTranslated)
      {
        var _ := Fresh();
        i := i + 1;
      }
    }

    /** Records the clauses as side lemmas, one MkClause call each, in
        order. */
    method RecordClauses(clauses: seq<seq<Expr>>)
      requires Valid()
      modifies this
      ensures Valid()
      ensures lemmas == old(lemmas) + ClauseLemmas(clauses)
      ensures freshVars == old(freshVars) && freshLim == old(freshLim)
      ensures numTranslated == old(numTranslated) && nextId == old(nextId)
    {
      var j := 0;
      while j < |clauses|
        invariant j <= |clauses| && Valid()
        invariant lemmas == old(lemmas) + ClauseLemmas(clauses[..j])
        invariant freshVars == old(freshVars) && freshLim == old(freshLim)
        invariant numTranslated == old(numTranslated) && nextId == old(nextId)
      {
        assert clauses[..j + 1][..j] == clauses[..j];
        MkClause(clauses[j]);
        j := j + 1;
      }
      assert clauses[..j] == clauses;
    }

    /** `mk_app_core`: translates a pseudo-boolean node and counts it;
        reports any other node as not handled and leaves the counter alone.
        The translation starts at the first unused id; every fresh variable
        it creates is recorded through Fresh and every clause it asks for
        becomes a side lemma through MkClause. */
    method MkAppCore(app: App, net: Network) returns (status: Status, result: Expr)
      requires Valid()
      requires app.PbApp? ==> WellFormed(app.decl, |app.args|)
      modifies this
      ensures Valid()
      ensures status == Done <==> app.PbApp?
      ensures status == Done ==>
                var enc := PbEncoding(app.decl, app.args, net, old(nextId));
                result == enc.circuit &&
                freshVars == old(freshVars) + IdsFrom(old(nextId), enc.numFresh) &&
                nextId == old(nextId) + enc.numFresh &&
                lemmas == old(lemmas) + ClauseLemmas(enc.clauses)
      ensures status == Failed ==>
                freshVars == old(freshVars) && nextId == old(nextId) && lemmas == old(lemmas)
      ensures freshLim == old(freshLim)
      ensures numTranslated == old(numTranslated) + (if status == Done then 1 else 0)
    {
      match app
      case PbApp(d, args) =>
        var enc := MkPb(d, args, net, nextId);
        RecordFresh(enc.numFresh);
        RecordClauses(enc.clauses);
        result := enc.circuit;
        numTranslated := numTranslated + 1;
        status := Done;
      case OtherApp =>
        result := False;
        status := Failed;
    }
  }

  /** Two scopes are opened and a cardinality constraint is translated in
      the inner one by a network that creates three auxiliary variables and
      two clauses. Once the lemmas are flushed and the inner scope is closed,
      the variables created in it are gone and the count is back to what it
      was after the first push. */
  method NestedScopes() returns (afterFirstPush: nat, created: nat, flushed: nat, afterPop: nat)
    ensures created == 3 && flushed == 2
    ensures afterPop == afterFirstPush
  {
    var rw := new Pb2BvRewriter(0);
    rw.Push();
    afterFirstPush := |rw.freshVars|;
    rw.Push();
    var net: Network := (op: SortOp, k: nat, args: seq<Expr>, first: nat) =>
      Encoding(Var(first), 3, [[Var(first), Var(first + 1)], [Not(Var(first + 2))]]);
    var status, result := rw.MkAppCore(PbApp(PbDecl(AtMostK, [1, 1], 1), [Var(100), Var(101)]), net);
    created := |rw.freshVars| - afterFirstPush;
    var side := rw.FlushSideConstraints([]);
    flushed := |side|;
    rw.Pop(1);
    afterPop := |rw.freshVars|;
  }
}
