/** The effect of `build_formula_gate` (Grover.py:67-90) on a basis state.
    The gate acts on `varreg[:] + ancreg[:]`, modelled as one array whose first
    `numVars` cells are the variable qubits and whose remaining `numAnc` cells
    are the ancillas, ancilla i belonging to clause i. */
module FormulaCircuit {
  import opened Cnf
  import opened ClauseCompiler

  /** The ancillas after the clause gates (Grover.py:75-81): ancilla i is
      toggled iff clause i is violated; an ancilla without a clause is left
      alone. */
  function MarkViolations(formula: Formula, atoms: seq<Var>, vars: seq<bool>, anc: seq<bool>): seq<bool>
    requires Scoped(formula, atoms) && |atoms| <= |vars| && |formula| <= |anc|
  {
    seq(|anc|, i requires 0 <= i < |anc| => anc[i] != (i < |formula| && ClauseViolated(formula[i], atoms, vars)))
  }

  /** `x(ancreg)` (Grover.py:84): every ancilla flipped. */
  function FlipAll(anc: seq<bool>): seq<bool>
  {
    seq(|anc|, i requires 0 <= i < |anc| => !anc[i])
  }

  /** The ancilla register after the whole formula circuit. */
  function FormulaEffect(formula: Formula, atoms: seq<Var>, vars: seq<bool>, anc: seq<bool>): seq<bool>
    requires Scoped(formula, atoms) && |atoms| <= |vars| && |formula| <= |anc|
  {
    FlipAll(MarkViolations(formula, atoms, vars, anc))
  }

  /** Builds and applies the formula circuit. `reverse` has no effect: the
      circuit returned by `inverse()` at Grover.py:87 is discarded, so the
      reversed build applies the forward circuit again. */
  method ApplyFormulaGate(sortedAtoms: seq<Var>, numVars: nat, numAnc: nat, formula: Formula, reverse: bool, qubits: array<bool>)
    requires Scoped(formula, sortedAtoms) && |sortedAtoms| <= numVars
    requires |formula| <= numAnc && qubits.Length == numVars + numAnc
    modifies qubits
    ensures qubits[..numVars] == old(qubits[..numVars])
    ensures qubits[numVars..] == FormulaEffect(formula, sortedAtoms, old(qubits[..numVars]), old(qubits[numVars..]))
  {
    ghost var vars := qubits[..numVars];
    ghost var anc := qubits[numVars..];
    var clauseIndex := 0;
    while clauseIndex < |formula|
      invariant 0 <= clauseIndex <= |formula|
      invariant qubits[..numVars] == vars
      invariant forall k :: 0 <= k < numAnc ==>
        qubits[numVars + k] == (if k < clauseIndex then anc[k] != ClauseViolated(formula[k], sortedAtoms, vars) else anc[k])
    {
      var controls, controlStates := McxGateControls(sortedAtoms, formula[clauseIndex]);
      CompiledGateFiresIffViolated(sortedAtoms, formula[clauseIndex], controls, controlStates, vars);
      var target := numVars + clauseIndex;
      if McxFires(controls, controlStates, qubits[..numVars]) {
        qubits[target] := !qubits[target];
      }
      clauseIndex := clauseIndex + 1;
    }
    for k := 0 to numAnc
      invariant qubits[..numVars] == vars
      invariant forall m :: 0 <= m < numAnc ==>
        qubits[numVars + m] == ((m < k) != (anc[m] != (m < |formula| && ClauseViolated(formula[m], sortedAtoms, vars))))
    {
      qubits[numVars + k] := !qubits[numVars + k];
    }
    assert qubits[numVars..] == FormulaEffect(formula, sortedAtoms, vars, anc);
  }

  /** From all-zero ancillas, ancilla i ends up recording "clause i is
      satisfied", and the register keeps its size. */
  lemma FormulaEffectFromZero(formula: Formula, atoms: seq<Var>, vars: seq<bool>, anc: seq<bool>)
    requires Scoped(formula, atoms) && |atoms| <= |vars| && |anc| == |formula|
    requires forall i :: 0 <= i < |anc| ==> !anc[i]
    ensures |FormulaEffect(formula, atoms, vars, anc)| == |formula|
    ensures forall i :: 0 <= i < |formula| ==>
      FormulaEffect(formula, atoms, vars, anc)[i] == !ClauseViolated(formula[i], atoms, vars)
  {
  }

  /** The formula circuit undoes itself on every basis state: the variable
      qubits never change and the ancilla updates are XORs, each applied twice. */
  lemma FormulaEffectSelfInverse(formula: Formula, atoms: seq<Var>, vars: seq<bool>, anc: seq<bool>)
    requires Scoped(formula, atoms) && |atoms| <= |vars| && |formula| <= |anc|
    ensures FormulaEffect(formula, atoms, vars, FormulaEffect(formula, atoms, vars, anc)) == anc
  {
  }
}
