/** `build_dictionnary_state_of_vars` (Grover.py:219-233): measured bitstrings
    back to assignments, reading each string from its right end. */
module Decoder {
  import opened Cnf

  function BitChar(b: bool): char
  {
    if b then '1' else '0'
  }

  /** The counts key for a basis state after Grover.py:180-181 measures
      variable qubit i into classical bit i; classical bit 0 is printed
      rightmost. */
  function MeasuredBits(vars: seq<bool>): (s: string)
    ensures |s| == |vars|
    ensures forall i :: 0 <= i < |vars| ==> s[|s| - 1 - i] == BitChar(vars[i])
  {
    if vars == [] then "" else MeasuredBits(vars[1..]) + [BitChar(vars[0])]
  }

  /** The dictionary after the first `index` characters of
      `reversed(combination)` were written (Grover.py:222-230): every key
      starts as None; step k writes key k. */
  function FillStates(combination: string, sortedAtoms: seq<Var>, index: nat): Assignment
    requires index <= |combination| <= |sortedAtoms|
  {
    if index == 0 then map v | v in sortedAtoms :: None
    else FillStates(combination, sortedAtoms, index - 1)[sortedAtoms[index - 1] := Some(combination[|combination| - index] != '0')]
  }

  function Decoded(combination: string, sortedAtoms: seq<Var>): Assignment
    requires |combination| <= |sortedAtoms|
  {
    FillStates(combination, sortedAtoms, |combination|)
  }

  lemma {:induction false} FillStatesKeys(combination: string, sortedAtoms: seq<Var>, index: nat)
    requires index <= |combination| <= |sortedAtoms|
    ensures FillStates(combination, sortedAtoms, index).Keys == set v | v in sortedAtoms
  {
    if index > 0 {
      FillStatesKeys(combination, sortedAtoms, index - 1);
    }
  }

  lemma {:induction false} FillStatesAt(combination: string, sortedAtoms: seq<Var>, index: nat, k: nat)
    requires index <= |combination| <= |sortedAtoms| && k < |sortedAtoms|
    requires Distinct(sortedAtoms)
    ensures sortedAtoms[k] in FillStates(combination, sortedAtoms, index)
    ensures FillStates(combination, sortedAtoms, index)[sortedAtoms[k]]
            == if k < index then Some(combination[|combination| - 1 - k] != '0') else None
  {
    if index > 0 {
      FillStatesAt(combination, sortedAtoms, index - 1, k);
    }
  }

  /** The keys are exactly the sorted atoms; with distinct atoms, variable k
      is False iff character len-1-k is '0', True for any other character,
      and None when the string is too short to reach it. */
  lemma DecodedAt(combination: string, sortedAtoms: seq<Var>, k: nat)
    requires |combination| <= |sortedAtoms| && k < |sortedAtoms|
    requires Distinct(sortedAtoms)
    ensures Decoded(combination, sortedAtoms).Keys == set v | v in sortedAtoms
    ensures Decoded(combination, sortedAtoms)[sortedAtoms[k]]
            == if k < |combination| then Some(combination[|combination| - 1 - k] != '0') else None
  {
    FillStatesKeys(combination, sortedAtoms, |combination|);
    FillStatesAt(combination, sortedAtoms, |combination|, k);
  }

  /** Measuring a basis state and decoding the counts key gives back the
      value of every variable qubit. */
  lemma MeasureDecodeRoundTrip(vars: seq<bool>, sortedAtoms: seq<Var>, k: nat)
    requires |vars| == |sortedAtoms| && Distinct(sortedAtoms) && k < |vars|
    ensures sortedAtoms[k] in Decoded(MeasuredBits(vars), sortedAtoms)
    ensures Decoded(MeasuredBits(vars), sortedAtoms)[sortedAtoms[k]] == Some(vars[k])
  {
    DecodedAt(MeasuredBits(vars), sortedAtoms, k);
  }

  /** One assignment per bitstring, in input order. */
  method BuildStatesOfVars(goodOutputs: seq<string>, sortedAtoms: seq<Var>) returns (solution: seq<Assignment>)
    requires forall i :: 0 <= i < |goodOutputs| ==> |goodOutputs[i]| <= |sortedAtoms|
    ensures |solution| == |goodOutputs|
    ensures forall i :: 0 <= i < |goodOutputs| ==> solution[i] == Decoded(goodOutputs[i], sortedAtoms)
  {
    solution := [];
    for i := 0 to |goodOutputs|
      invariant |solution| == i
      invariant forall m :: 0 <= m < i ==> solution[m] == Decoded(goodOutputs[m], sortedAtoms)
    {
      var combination := goodOutputs[i];
      var statesOfVars: Assignment := map v | v in sortedAtoms :: None;
      var index := 0;
      while index < |combination|
        invariant index <= |combination|
        invariant statesOfVars == FillStates(combination, sortedAtoms, index)
      {
        var truthValueVar := combination[|combination| - 1 - index];
        if truthValueVar == '0' {
          statesOfVars := statesOfVars[sortedAtoms[index] := Some(false)];
        } else {
          statesOfVars := statesOfVars[sortedAtoms[index] := Some(true)];
        }
        index := index + 1;
      }
      solution := solution + [statesOfVars];
    }
  }
}
