/** `MCX_Gate_controls` (Grover.py:39-50) and the firing rule of the
    multi-controlled X gate it parameterises (Grover.py:78). */
module ClauseCompiler {
  import opened Cnf

  /** The control value under which literal l is false: '1' for a negated
      literal, '0' otherwise (Grover.py:44-47). */
  function StateChar(l: Literal): char
  {
    if l.negated then '1' else '0'
  }

  /** Qiskit's `ctrl_state` rule, little-endian as documented at
      Grover.py:34-36: control qubit `controls[j]` must hold the bit written at
      position |ctrlState|-1-j of the state string. */
  predicate McxFires(controls: seq<nat>, ctrlState: string, qubits: seq<bool>)
    requires |ctrlState| == |controls|
    requires forall j :: 0 <= j < |controls| ==> controls[j] < |qubits|
  {
    forall j :: 0 <= j < |controls| ==> qubits[controls[j]] == (ctrlState[|ctrlState| - 1 - j] == '1')
  }

  /** What the compiler returns for a clause: one control and one state
      character per literal, in literal order; control j is the first index of
      literal j's variable in the ordering, and the character pairing with it
      (position len-1-j) says whether literal j is negated. */
  predicate IsCompilation(atoms: seq<Var>, clause: Clause, controls: seq<nat>, ctrlState: string)
  {
    && |controls| == |clause|
    && |ctrlState| == |clause|
    && (forall j :: 0 <= j < |clause| ==>
          clause[j].variable in atoms && controls[j] == IndexOf(atoms, clause[j].variable))
    && (forall j :: 0 <= j < |clause| ==> ctrlState[|clause| - 1 - j] == StateChar(clause[j]))
  }

  /** The loop of Grover.py:43-48: append the variable's index to `controls`,
      prepend the literal's state character to `control_states`. */
  method McxGateControls(atoms: seq<Var>, clause: Clause) returns (controls: seq<nat>, controlStates: string)
    requires ClauseScoped(clause, atoms)
    ensures IsCompilation(atoms, clause, controls, controlStates)
  {
    controls, controlStates := [], "";
    for k := 0 to |clause|
      invariant |controls| == k && |controlStates| == k
      invariant forall j :: 0 <= j < k ==> controls[j] == IndexOf(atoms, clause[j].variable)
      invariant forall j :: 0 <= j < k ==> controlStates[k - 1 - j] == StateChar(clause[j])
    {
      var literal := clause[k];
      if literal.negated {
        controlStates := "1" + controlStates;
      } else {
        controlStates := "0" + controlStates;
      }
      controls := controls + [IndexOf(atoms, literal.variable)];
    }
  }

  /** Every compilation of a clause, read under the ctrl-state rule, fires on a
      basis state exactly when the clause is violated there. */
  lemma CompiledGateFiresIffViolated(atoms: seq<Var>, clause: Clause, controls: seq<nat>, ctrlState: string, vars: seq<bool>)
    requires ClauseScoped(clause, atoms) && |atoms| <= |vars|
    requires IsCompilation(atoms, clause, controls, ctrlState)
    ensures forall j :: 0 <= j < |controls| ==> controls[j] < |vars|
    ensures McxFires(controls, ctrlState, vars) <==> ClauseViolated(clause, atoms, vars)
  {
  }
}
