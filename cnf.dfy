/** CNF formulas over named variables, and the two ways the program gives them a
    truth value: on a basis state of the variable register (qubit i holds the
    variable at position i of the variable ordering), and on a decoded
    assignment substituted into the formula. */
module Cnf {

  /** A variable is identified by its string form. */
  type Var = string

  datatype Option<T> = None | Some(value: T)

  /** A variable or its negation. */
  datatype Literal = Literal(variable: Var, negated: bool)

  /** A disjunction of literals, in argument order. */
  type Clause = seq<Literal>

  /** A conjunction of clauses; clause i owns ancilla qubit i. */
  type Formula = seq<Clause>

  /** A decoded measurement: every variable of the ordering is a key; a value
      that was never written is None. */
  type Assignment = map<Var, Option<bool>>

  predicate Distinct<T(==)>(s: seq<T>)
  {
    forall i, j :: 0 <= i < j < |s| ==> s[i] != s[j]
  }

  /** The atoms of a formula. */
  function FormulaVars(f: Formula): set<Var>
  {
    set i, j | 0 <= i < |f| && 0 <= j < |f[i]| :: f[i][j].variable
  }

  /** Every variable of the clause occurs in the ordering. */
  predicate ClauseScoped(c: Clause, atoms: seq<Var>)
  {
    forall j :: 0 <= j < |c| ==> c[j].variable in atoms
  }

  predicate Scoped(f: Formula, atoms: seq<Var>)
  {
    forall i :: 0 <= i < |f| ==> ClauseScoped(f[i], atoms)
  }

  /** Python's `list.index`: the position of the first occurrence of v. */
  function IndexOf(atoms: seq<Var>, v: Var): (i: nat)
    requires v in atoms
    ensures i < |atoms| && atoms[i] == v
    ensures forall j :: 0 <= j < i ==> atoms[j] != v
  {
    if atoms[0] == v then 0 else 1 + IndexOf(atoms[1..], v)
  }

  // ---------------------------------------------------------------------
  // Truth on a basis state of the variable register

  /** A literal is true when its variable's qubit differs from its negation flag. */
  predicate LiteralTrue(l: Literal, atoms: seq<Var>, vars: seq<bool>)
    requires l.variable in atoms && |atoms| <= |vars|
  {
    vars[IndexOf(atoms, l.variable)] != l.negated
  }

  /** A clause is violated when every one of its literals is false. */
  predicate ClauseViolated(c: Clause, atoms: seq<Var>, vars: seq<bool>)
    requires ClauseScoped(c, atoms) && |atoms| <= |vars|
  {
    forall j :: 0 <= j < |c| ==> !LiteralTrue(c[j], atoms, vars)
  }

  /** A formula is satisfied when no clause is violated. */
  predicate Satisfies(f: Formula, atoms: seq<Var>, vars: seq<bool>)
    requires Scoped(f, atoms) && |atoms| <= |vars|
  {
    forall i :: 0 <= i < |f| ==> !ClauseViolated(f[i], atoms, vars)
  }

  // ---------------------------------------------------------------------
  // Truth after substituting an assignment (sympy's `subs`)

  /** The value of a literal after substitution: None when its variable is not
      assigned (absent, or mapped to None, which `subs` skips), so that the
      literal stays symbolic. */
  function LiteralValue(l: Literal, a: Assignment): Option<bool>
  {
    if l.variable in a && a[l.variable].Some? then Some(a[l.variable].value != l.negated) else None
  }

  /** A disjunction simplifies to False only when every literal became False. */
  predicate ClauseFalse(c: Clause, a: Assignment)
  {
    forall j :: 0 <= j < |c| ==> LiteralValue(c[j], a) == Some(false)
  }

  /** A conjunction simplifies to False as soon as one clause did. */
  predicate EvaluatesFalse(f: Formula, a: Assignment)
  {
    exists i :: 0 <= i < |f| && ClauseFalse(f[i], a)
  }
}
