# Grover CNF oracle: a classical model

This project models the part of the Grover SAT solver in `Grover.py` that has
a meaning on classical basis states: compiling a CNF formula into a reversible
oracle, and the decoding and validation of measured results. Everything is bit
level. No amplitudes are involved.

- **Variable ordering** (`VariableOrdering`, `LexOrder`). The atoms are sorted
  by their string form, using Python's code-point lexicographic order. A
  variable's position in this list is its qubit index.
- **Clause compiler** (`ClauseCompiler`). For each literal, the compiler
  appends the first index of the literal's variable to `controls`. It prepends
  '1' to the control-state string for a negated literal and '0' otherwise. The
  multi-controlled X gate uses Qiskit's little-endian ctrl-state rule: control
  j pairs with the character at position len-1-j.
- **Formula circuit** (`FormulaCircuit`). This is its effect on one qubit array
  that holds the variable register followed by the ancilla register. Clause i
  toggles ancilla i when it is violated. Then every ancilla is flipped.
- **Oracle** (`Oracle`). The formula circuit runs, the phase is flipped when
  all ancillas are set, and the same circuit runs again. The phase of the basis
  state is a bool.
- **Decoder** (`Decoder`). Each measured bitstring is read from its right end
  into a dictionary. Every sorted atom is a key, and a key the string does not
  reach keeps the initial `None`.
- **Validator** (`Validator`). A result list is valid unless some assignment
  makes the formula simplify to False. This uses sympy's partial evaluation of
  `subs`: an unassigned variable stays symbolic.
- **Solve entry point** (`Solver`). For a non-CNF formula it returns the
  `["error"]` sentinel; otherwise it returns the decoded surviving bitstrings.

Inputs from outside the core are parameters:
- `atomListing` is the order in which `list(cnf_formula.atoms())` happens to
  list the atom set.
- `isCnf` is the verdict of `is_cnf`.
- `goodResults` is the output of execution plus `get_meaningful_outputs`.

Two places where the code does not do what its own documentation says:
- Grover.py:62 documents `reverse` as reversing the circuit that composes the
  gate, but Grover.py:87 discards the result of `inverse()`. So `reverse=True`
  emits the forward circuit again, and the model's `reverse` parameter has no
  effect. `FormulaEffectSelfInverse` shows that the oracle still restores its
  ancillas.
- Grover.py:30 documents a clause as an `Or` of literals, and the loop at
  Grover.py:43 reads its `.args`. A clause that is a single negated literal is
  therefore compiled as its complement (see Findings).

## Model

| member | source | states |
|---|---|---|
| `LexOrder.LexLeReflexive` | Grover.py:21 | Python's `str` order (`key=str`) is reflexive |
| `LexOrder.LexLeAntisymmetric` | Grover.py:21 | two strings ordered both ways are equal |
| `LexOrder.LexLeTransitive` | Grover.py:21 | the `str` order is transitive |
| `LexOrder.LexLeTotal` | Grover.py:21 | any two strings are comparable |
| `VariableOrdering.Insert` | Grover.py:21 | inserting into a sorted list keeps it sorted and adds exactly that element |
| `VariableOrdering.SortAtoms` | Grover.py:20-21 | the result is sorted ascending by string form, is a permutation of the input, and has the input's length |
| `VariableOrdering.SortedPermutationUnique` | Grover.py:20-21 | two sorted permutations of one list are equal, so the ordering is fully determined |
| `VariableOrdering.SortAtomsIgnoresListingOrder` | Grover.py:106-107 | any two listings of the same atoms sort to the same qubit order; set iteration order has no effect |
| `VariableOrdering.SortAtomsIdempotent` | Grover.py:20-21 | sorting the sorted list changes nothing |
| `VariableOrdering.SortAtomsStrictlyIncreasing` | Grover.py:106-107 | distinct atoms (the list of a set) sort strictly increasing, hence without repetition |
| `Cnf.IndexOf` | Grover.py:48 | `atoms.index(v)`: a position holding v, with no earlier position holding v |
| `ClauseCompiler.McxGateControls` | Grover.py:39-50 | one control and one state character per literal, in literal order; `controls[j]` is the index of literal j's variable; the character at len-1-j is '1' iff literal j is negated |
| `ClauseCompiler.CompiledGateFiresIffViolated` | Grover.py:78-79 | under the little-endian ctrl-state rule of Grover.py:34-36, every compilation's gate fires on a basis state exactly when every literal of the clause is false there; all controls lie in the variable register |
| `FormulaCircuit.ApplyFormulaGate` | Grover.py:67-90 | variable qubits unchanged; ancilla i becomes old ancilla i XOR "clause i violated", then negated; ancillas with no clause are only negated; `reverse` changes nothing |
| `FormulaCircuit.FormulaEffectFromZero` | Grover.py:72-84 | from all-zero ancillas, one per clause, ancilla i ends as "clause i satisfied" |
| `FormulaCircuit.FormulaEffectSelfInverse` | Grover.py:84-87 | applying the formula circuit twice to any basis state gives back the original ancillas, so the discarded `inverse()` does not matter |
| `Oracle.ListingScopes` | Grover.py:106-111 | every clause variable has a qubit in the sorted atom list |
| `Oracle.MarksExactlySolutions` | Grover.py:117-120 | from zero ancillas, all ancillas are set after the circuit iff the variable bits satisfy every clause |
| `Oracle.CnfToOracle` | Grover.py:104-126 | all qubits are restored, variables and ancillas alike; the phase flips iff all ancillas were set after the first circuit; from zero ancillas it flips iff the assignment satisfies the formula |
| `Decoder.MeasuredBits` | Grover.py:180-181 | qubit i measured into classical bit i gives a key of the same length whose character at len-1-i is qubit i's bit |
| `Decoder.FillStatesKeys` | Grover.py:222-230 | the dictionary's keys are the sorted atoms at every step of the inner loop |
| `Decoder.FillStatesAt` | Grover.py:222-230 | after `index` steps, key k holds the bit at len-1-k for k < index and None otherwise |
| `Decoder.DecodedAt` | Grover.py:219-233 | the keys are exactly the sorted atoms; variable k is False iff character len-1-k is '0', True for any other character, and None if the string is shorter than k+1 |
| `Decoder.MeasureDecodeRoundTrip` | Grover.py:225-230 | decoding the measured key of a basis state gives back every variable qubit's value |
| `Decoder.BuildStatesOfVars` | Grover.py:219-233 | one assignment per bitstring, in input order, each the decoding of its bitstring |
| `Validator.SolutionCheck` | Grover.py:278-285 | True iff no assignment makes the formula evaluate to False (so True on an empty list) |
| `Validator.AllValidOrderIndependent` | Grover.py:281-283 | the verdict holds for the empty list and does not depend on the order of the assignments |
| `Validator.DecodedFalseIffUnsatisfied` | Grover.py:282 | substituting a decoded full measurement makes the formula False iff the basis state does not satisfy it |
| `Validator.ValidatorAgreesWithOracle` | Grover.py:117-123 | the validator accepts a decoded basis state iff the oracle, started on zero ancillas, marks that state |
| `Solver.SolveSatWithGrover` | Grover.py:246-265 | a non-CNF formula gives the error sentinel; otherwise one decoded assignment per surviving bitstring, decoded against the sorted atoms |
| `Solver.MeasuredSolutionsValidate` | Grover.py:252-258 | when the surviving bitstrings are measured basis states, the decoded results validate iff every one of those states is a solution |
| `SympyArgs.ClauseOf` | Grover.py:43-48 | the clause an expression denotes equals the literals read from its `.args` exactly when the expression is a disjunction; for every lone literal the `.args` reading is wrong |
| `SympyArgs.NegatedUnitClauseAsWritten` | Grover.py:43-48 | as written, the clause `~v` is read as `[v]`, and its gate fires exactly when `~v` holds |
| `SympyArgs.NegatedUnitClauseMisfires` | Grover.py:43-48 | with c = False, `~c` holds and its compiled gate (control 0, state "0") still fires |
| `SympyArgs.ClauseOfFiresIffFalse` | Grover.py:43-48 | compiling the denoted clause gives a gate that fires exactly when the clause expression is false, for every clause shape |

## Findings

| source | as written | input that shows it | evidently intended | confidence | as-written member | corrected member |
|---|---|---|---|---|---|---|
| Grover.py:43-48 | the literals of a clause are taken from its `.args`; for a clause that is one negated literal `~c`, `.args` is `(c,)`, so the gate gets one control on c with state '0' | formula `(a ∨ b) ∧ ¬c` with c = False: clause `¬c` holds, but its gate fires and its ancilla records the clause as violated | a lone literal is compiled as a one-literal clause (control on c, state '1') | medium, not executed | `SympyArgs.NegatedUnitClauseAsWritten` | `SympyArgs.ClauseOfFiresIffFalse` |

The rest of the model takes clauses as explicit literal lists, as `ClauseOf`
produces them.

## Left out

- `build_diffuser` (Grover.py:138-150), and the Hadamard layer and iteration loop of `build_grover_circuit` (Grover.py:166-183): these are amplitude transformations with no basis-state meaning.
- The oracle on superpositions: only basis states are modelled. A permutation of basis states with a phase is what fixes the unitary, but linearity is not stated.
- The iteration count `floor(pi/4*sqrt(2^n))` (Grover.py:250): floating point with an irrational constant.
- `get_meaningful_outputs` (Grover.py:197-205): float mean and `statistics.stdev`. Its output is the `goodResults` input of `SolveSatWithGrover`.
- `execute`, `get_counts`, the backend, and the `print` of the non-CNF message: these are I/O. `is_cnf` is sympy's and arrives as the `isCnf` input.
- `to_gate` encapsulation and gate labels: the model describes what the gates do, not the circuit objects.
- Symbol identity: a variable is its name. Distinct sympy symbols that share a name are not modelled.
- Other sympy `.args` shapes: a formula that is a single clause is not an `And`, so its `.args` are its literals. A clause that is one positive literal has empty `.args`, giving a zero-control gate whose handling by Qiskit is not modelled. The model takes the formula as an explicit list of clauses.
- Qiskit's refusal of a gate that names one qubit twice (a clause mentioning a variable twice) is not modelled; the firing equivalence holds without it.
- McxGateControls: the `ValueError` from `atoms.index` for a variable missing from `atoms` is excluded by its precondition. Every caller passes the formula's own atoms.
- BuildStatesOfVars: the `IndexError` for a bitstring longer than `sorted_atoms` is excluded by its precondition. Measured keys have exactly one bit per variable.
- CnfToOracle: a formula with no clauses is excluded by its precondition, because `ZGate().control(-1)` raises.
- The key order of each decoded dictionary (insertion order of the sorted atoms, Grover.py:222) is not modelled: an `Assignment` is a map. The order shows only when results are printed, and affects neither equality nor `subs`.
- The three-valued reading of `subs` covers And/Or/Not over symbols only. No other sympy simplification is modelled.
