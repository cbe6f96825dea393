/** `solution_check` (Grover.py:278-285), and how it relates to the oracle. */
module Validator {
  import opened Cnf
  import opened Decoder
  import opened FormulaCircuit
  import opened Oracle

  /** No assignment makes the formula simplify to False. */
  predicate AllValid(formula: Formula, results: seq<Assignment>)
  {
    forall i :: 0 <= i < |results| ==> !EvaluatesFalse(formula, results[i])
  }

  /** The loop of Grover.py:279-285, lowering the flag on any assignment under
      which the formula becomes False. */
  method SolutionCheck(formula: Formula, results: seq<Assignment>) returns (truthValue: bool)
    ensures truthValue == AllValid(formula, results)
  {
    truthValue := true;
    for i := 0 to |results|
      invariant truthValue <==> forall m :: 0 <= m < i ==> !EvaluatesFalse(formula, results[m])
    {
      if EvaluatesFalse(formula, results[i]) {
        truthValue := false;
      }
    }
  }

  /** An empty result list is valid, and the verdict does not depend on the
      order of the assignments. */
  lemma AllValidOrderIndependent(formula: Formula, r1: seq<Assignment>, r2: seq<Assignment>)
    requires multiset(r1) == multiset(r2)
    ensures AllValid(formula, []) 
    ensures AllValid(formula, r1) <==> AllValid(formula, r2)
  {
    forall i | 0 <= i < |r1| ensures r1[i] in r2 {
      assert r1[i] in multiset(r2);
    }
    forall i | 0 <= i < |r2| ensures r2[i] in r1 {
      assert r2[i] in multiset(r1);
    }
  }

  /** On a decoded measurement of a whole basis state, the formula becomes
      False exactly when the basis state does not satisfy it. */
  lemma DecodedFalseIffUnsatisfied(formula: Formula, sortedAtoms: seq<Var>, vars: seq<bool>)
    requires Scoped(formula, sortedAtoms) && Distinct(sortedAtoms) && |vars| == |sortedAtoms|
    ensures EvaluatesFalse(formula, Decoded(MeasuredBits(vars), sortedAtoms)) <==> !Satisfies(formula, sortedAtoms, vars)
  {
    var a := Decoded(MeasuredBits(vars), sortedAtoms);
    forall i, j | 0 <= i < |formula| && 0 <= j < |formula[i]|
      ensures LiteralValue(formula[i][j], a) == Some(LiteralTrue(formula[i][j], sortedAtoms, vars))
    {
      var k := IndexOf(sortedAtoms, formula[i][j].variable);
      MeasureDecodeRoundTrip(vars, sortedAtoms, k);
    }
    assert forall i :: 0 <= i < |formula| ==> (ClauseFalse(formula[i], a) <==> ClauseViolated(formula[i], sortedAtoms, vars));
  }

  /** The validator accepts the decoded measurement of a basis state exactly
      when the oracle, started on zero ancillas, marks that basis state. */
  lemma ValidatorAgreesWithOracle(formula: Formula, sortedAtoms: seq<Var>, vars: seq<bool>, anc: seq<bool>)
    requires Scoped(formula, sortedAtoms) && Distinct(sortedAtoms) && |vars| == |sortedAtoms|
    requires |anc| == |formula| && forall i :: 0 <= i < |anc| ==> !anc[i]
    ensures AllValid(formula, [Decoded(MeasuredBits(vars), sortedAtoms)])
            <==> AllSet(FormulaEffect(formula, sortedAtoms, vars, anc))
  {
    DecodedFalseIffUnsatisfied(formula, sortedAtoms, vars);
    MarksExactlySolutions(formula, sortedAtoms, vars, anc);
    var a := Decoded(MeasuredBits(vars), sortedAtoms);
    assert AllValid(formula, [a]) <==> !EvaluatesFalse(formula, a) by {
      assert [a][0] == a;
    }
  }
}
