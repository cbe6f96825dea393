/** `solve_sat_with_grover` (Grover.py:246-265) around the parts this model
    has no classical meaning for: the CNF test is sympy's, and the bitstrings
    that survive execution and filtering arrive as an input. */
module Solver {
  import opened Cnf
  import opened VariableOrdering
  import opened Decoder
  import opened Validator
  import opened Oracle

  /** Either the decoded assignments or the `["error"]` sentinel returned for
      a formula that is not in CNF. */
  datatype Solution = NotCnf | Solutions(assignments: seq<Assignment>)

  /** `isCnf` is the verdict of `is_cnf`; `goodResults` is what
      `get_meaningful_outputs` kept of the execution's counts. */
  method SolveSatWithGrover(isCnf: bool, atomListing: seq<Var>, goodResults: seq<string>) returns (r: Solution)
    requires forall i :: 0 <= i < |goodResults| ==> |goodResults[i]| <= |atomListing|
    ensures !isCnf ==> r == NotCnf
    ensures isCnf ==> r.Solutions? && |r.assignments| == |goodResults|
    ensures isCnf ==> forall i :: 0 <= i < |goodResults| ==>
              r.assignments[i] == Decoded(goodResults[i], SortAtoms(atomListing))
  {
    if isCnf {
      var sortedAtoms := SortAtoms(atomListing);
      var solution := BuildStatesOfVars(goodResults, sortedAtoms);
      r := Solutions(solution);
    } else {
      r := NotCnf;
    }
  }

  /** When the surviving bitstrings are the measurements of basis states, the
      decoded assignments pass `solution_check` exactly when every one of those
      basis states satisfies the formula: an ideal run validates, and a
      validated run contains only solutions. */
  lemma MeasuredSolutionsValidate(formula: Formula, atomListing: seq<Var>, states: seq<seq<bool>>, decoded: seq<Assignment>)
    requires (set v | v in atomListing) == FormulaVars(formula) && Distinct(atomListing)
    requires |decoded| == |states|
    requires forall i :: 0 <= i < |states| ==>
               |states[i]| == |atomListing| && decoded[i] == Decoded(MeasuredBits(states[i]), SortAtoms(atomListing))
    ensures (ListingScopes(formula, atomListing);
             AllValid(formula, decoded) <==> forall i :: 0 <= i < |states| ==> Satisfies(formula, SortAtoms(atomListing), states[i]))
  {
    ListingScopes(formula, atomListing);
    SortAtomsStrictlyIncreasing(atomListing);
    var sortedAtoms := SortAtoms(atomListing);
    forall i | 0 <= i < |states|
      ensures EvaluatesFalse(formula, decoded[i]) <==> !Satisfies(formula, sortedAtoms, states[i])
    {
      DecodedFalseIffUnsatisfied(formula, sortedAtoms, states[i]);
    }
  }
}
