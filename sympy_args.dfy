/** How `MCX_Gate_controls` reads a clause through sympy's `.args`
    (Grover.py:43-48). A clause of a CNF expression is a symbol, a negated
    symbol, or a disjunction of those; sympy gives a symbol no arguments and
    `Not(x)` the single argument `x`, so a clause that is one negated literal
    is read as the positive literal inside it. */
module SympyArgs {
  import opened Cnf
  import opened ClauseCompiler

  datatype Expr = Symbol(name: Var) | Not(arg: Expr) | Or(args: seq<Expr>)

  predicate IsLiteral(e: Expr)
  {
    e.Symbol? || (e.Not? && e.arg.Symbol?)
  }

  predicate IsClause(e: Expr)
  {
    IsLiteral(e) || (e.Or? && forall i :: 0 <= i < |e.args| ==> IsLiteral(e.args[i]))
  }

  predicate NamesIn(e: Expr, atoms: seq<Var>)
  {
    match e
    case Symbol(n) => n in atoms
    case Not(x) => NamesIn(x, atoms)
    case Or(xs) => forall i :: 0 <= i < |xs| ==> NamesIn(xs[i], atoms)
  }

  /** sympy's `.args`. */
  function Args(e: Expr): seq<Expr>
  {
    match e
    case Symbol(_) => []
    case Not(x) => [x]
    case Or(xs) => xs
  }

  /** The literal read from one element of `.args`: negated iff it is a `Not`,
      its variable the one atom inside it. */
  function ReadLiteral(e: Expr): Literal
    requires IsLiteral(e)
  {
    if e.Not? then Literal(e.arg.name, true) else Literal(e.name, false)
  }

  /** The literals the loop visits as written: one per element of `.args`. */
  function LiteralsAsWritten(e: Expr): Clause
    requires IsClause(e)
  {
    seq(|Args(e)|, i requires 0 <= i < |Args(e)| => ReadLiteral(Args(e)[i]))
  }

  /** The clause the expression denotes: a lone literal is a clause of one
      literal, a disjunction has one literal per disjunct. */
  function ClauseOf(e: Expr): (c: Clause)
    requires IsClause(e)
    ensures c == LiteralsAsWritten(e) <==> e.Or?
  {
    if IsLiteral(e) then
      assert e.Not? ==> LiteralsAsWritten(e)[0] == Literal(e.arg.name, false) != Literal(e.arg.name, true);
      [ReadLiteral(e)]
    else LiteralsAsWritten(e)
  }

  /** The truth of a literal-shaped expression on a basis state. */
  predicate LiteralHolds(e: Expr, atoms: seq<Var>, vars: seq<bool>)
    requires IsLiteral(e) && NamesIn(e, atoms) && |atoms| <= |vars|
  {
    match e
    case Symbol(n) => vars[IndexOf(atoms, n)]
    case Not(Symbol(n)) => assert NamesIn(e.arg, atoms); !vars[IndexOf(atoms, n)]
  }

  /** The truth of a clause-shaped expression on a basis state. */
  predicate ClauseHolds(e: Expr, atoms: seq<Var>, vars: seq<bool>)
    requires IsClause(e) && NamesIn(e, atoms) && |atoms| <= |vars|
  {
    if IsLiteral(e) then LiteralHolds(e, atoms, vars)
    else exists i :: 0 <= i < |e.args| && LiteralHolds(e.args[i], atoms, vars)
  }

  /** As written, the gate compiled for the clause `~v` fires exactly when
      `~v` holds, so its ancilla records the clause as violated when it is
      satisfied and as satisfied when it is violated. */
  lemma NegatedUnitClauseAsWritten(v: Var, atoms: seq<Var>, vars: seq<bool>, controls: seq<nat>, ctrlState: string)
    requires v in atoms && |atoms| <= |vars|
    requires IsCompilation(atoms, LiteralsAsWritten(Not(Symbol(v))), controls, ctrlState)
    ensures LiteralsAsWritten(Not(Symbol(v))) == [Literal(v, false)]
    ensures forall j :: 0 <= j < |controls| ==> controls[j] < |vars|
    ensures McxFires(controls, ctrlState, vars) <==> ClauseHolds(Not(Symbol(v)), atoms, vars)
  {
    var e := Not(Symbol(v));
    var c := LiteralsAsWritten(e);
    assert c == [Literal(v, false)];
    CompiledGateFiresIffViolated(atoms, c, controls, ctrlState, vars);
    assert c[0] == Literal(v, false);
    assert ClauseViolated(c, atoms, vars) <==> !LiteralTrue(c[0], atoms, vars);
    assert ClauseHolds(e, atoms, vars) <==> !vars[IndexOf(atoms, v)];
  }

  /** The smallest instance: with the single variable c at False, the clause
      `~c` holds, and yet its compiled gate fires. */
  lemma NegatedUnitClauseMisfires()
    ensures IsCompilation(["c"], LiteralsAsWritten(Not(Symbol("c"))), [0], "0")
    ensures McxFires([0], "0", [false])
    ensures ClauseHolds(Not(Symbol("c")), ["c"], [false])
  {
    NegatedUnitClauseAsWritten("c", ["c"], [false], [0], "0");
  }

  /** Compiling the clause the expression denotes gives a gate that fires
      exactly when the expression is false, for every clause shape. */
  lemma ClauseOfFiresIffFalse(e: Expr, atoms: seq<Var>, vars: seq<bool>, controls: seq<nat>, ctrlState: string)
    requires IsClause(e) && NamesIn(e, atoms) && |atoms| <= |vars|
    requires IsCompilation(atoms, ClauseOf(e), controls, ctrlState)
    ensures forall j :: 0 <= j < |controls| ==> controls[j] < |vars|
    ensures McxFires(controls, ctrlState, vars) <==> !ClauseHolds(e, atoms, vars)
  {
    var c := ClauseOf(e);
    CompiledGateFiresIffViolated(atoms, c, controls, ctrlState, vars);
    if IsLiteral(e) {
      assert c == [ReadLiteral(e)];
      assert ClauseViolated(c, atoms, vars) <==> !LiteralTrue(c[0], atoms, vars);
    } else {
      forall i | 0 <= i < |e.args|
        ensures c[i] == ReadLiteral(e.args[i])
        ensures LiteralTrue(c[i], atoms, vars) <==> LiteralHolds(e.args[i], atoms, vars)
      {
        assert NamesIn(e.args[i], atoms);
      }
    }
  }
}
