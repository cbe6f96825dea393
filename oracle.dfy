/** `cnf_to_oracle` (Grover.py:104-126) on a basis state: formula circuit,
    phase flip when every ancilla is set, formula circuit again. The phase of
    the basis state is a bool (true for a factor of -1). */
module Oracle {
  import opened Cnf
  import opened VariableOrdering
  import opened FormulaCircuit

  /** `ZGate().control(num_of_anc - 1)` over the ancilla register
      (Grover.py:120) multiplies the phase by -1 exactly on this condition. */
  predicate AllSet(anc: seq<bool>)
  {
    forall i :: 0 <= i < |anc| ==> anc[i]
  }

  /** Every variable of a formula is in any listing of its atoms, and so in
      the sorted one. */
  lemma ListingScopes(formula: Formula, atomListing: seq<Var>)
    requires (set v | v in atomListing) == FormulaVars(formula)
    ensures Scoped(formula, SortAtoms(atomListing))
  {
    var sorted := SortAtoms(atomListing);
    forall i, j | 0 <= i < |formula| && 0 <= j < |formula[i]| ensures formula[i][j].variable in sorted {
      var v := formula[i][j].variable;
      assert v in FormulaVars(formula);
      assert v in multiset(atomListing);
    }
  }

  /** From zero ancillas, all ancillas are set after the formula circuit
      exactly when the assignment on the variable qubits satisfies the formula. */
  lemma MarksExactlySolutions(formula: Formula, atoms: seq<Var>, vars: seq<bool>, anc: seq<bool>)
    requires Scoped(formula, atoms) && |atoms| <= |vars| && |anc| == |formula|
    requires forall i :: 0 <= i < |anc| ==> !anc[i]
    ensures AllSet(FormulaEffect(formula, atoms, vars, anc)) <==> Satisfies(formula, atoms, vars)
  {
    FormulaEffectFromZero(formula, atoms, vars, anc);
  }

  /** `atomListing` is `list(cnf_formula.atoms())`: the atoms, once each, in
      whatever order the set yields them. */
  method CnfToOracle(formula: Formula, atomListing: seq<Var>, qubits: array<bool>, phase: bool) returns (phase': bool)
    requires (set v | v in atomListing) == FormulaVars(formula) && Distinct(atomListing)
    requires |formula| > 0
    requires qubits.Length == |atomListing| + |formula|
    modifies qubits
    ensures qubits[..] == old(qubits[..])
    ensures (ListingScopes(formula, atomListing);
             phase' == (phase != AllSet(FormulaEffect(formula, SortAtoms(atomListing),
                                                    old(qubits[..|atomListing|]), old(qubits[|atomListing|..])))))
    ensures (ListingScopes(formula, atomListing);
             (forall i :: |atomListing| <= i < qubits.Length ==> !old(qubits[i])) ==>
               phase' == (phase != Satisfies(formula, SortAtoms(atomListing), old(qubits[..|atomListing|]))))
  {
    ghost var before := qubits[..];
    var vars := SortAtoms(atomListing);
    ListingScopes(formula, atomListing);
    var numVars := |vars|;
    var numAnc := |formula|;
    ghost var varBits := qubits[..numVars];
    ghost var anc := qubits[numVars..];

    ApplyFormulaGate(vars, numVars, numAnc, formula, false, qubits);
    ghost var loaded := qubits[numVars..];

    phase' := if AllSet(qubits[numVars..]) then !phase else phase;

    ApplyFormulaGate(vars, numVars, numAnc, formula, true, qubits);
    FormulaEffectSelfInverse(formula, vars, varBits, anc);
    assert qubits[..] == qubits[..numVars] + qubits[numVars..];
    assert before == varBits + anc;

    if forall i :: numVars <= i < qubits.Length ==> !before[i] {
      assert forall i :: 0 <= i < |anc| ==> !anc[i] by {
        forall i | 0 <= i < |anc| ensures !anc[i] {
          assert anc[i] == before[numVars + i];
        }
      }
      MarksExactlySolutions(formula, vars, varBits, anc);
    }
  }
}
