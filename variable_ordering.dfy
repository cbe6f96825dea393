/** `sort_atoms` (Grover.py:20-21): the atoms sorted by their string form.
    Position in the result is the qubit index everywhere downstream. */
module VariableOrdering {
  import opened Cnf
  import opened LexOrder

  predicate Sorted(s: seq<Var>)
  {
    forall i, j :: 0 <= i < j < |s| ==> LexLe(s[i], s[j])
  }

  predicate StrictlySorted(s: seq<Var>)
  {
    forall i, j :: 0 <= i < j < |s| ==> LexLt(s[i], s[j])
  }

  /** Python's `sorted` as insertion into an already sorted list; ties keep
      their order, as `sorted` is stable. */
  function Insert(x: Var, s: seq<Var>): (r: seq<Var>)
    requires Sorted(s)
    ensures Sorted(r)
    ensures multiset(r) == multiset(s) + multiset{x}
  {
    if s == [] then [x]
    else if LexLe(x, s[0]) then
      SortedCons(x, s);
      [x] + s
    else
      var t := Insert(x, s[1..]);
      LexLeTotal(x, s[0]);
      assert s == [s[0]] + s[1..];
      HeadBound(x, s, t);
      SortedCons(s[0], t);
      [s[0]] + t
  }

  function SortAtoms(atoms: seq<Var>): (r: seq<Var>)
    ensures Sorted(r)
    ensures multiset(r) == multiset(atoms)
    ensures |r| == |atoms|
  {
    if atoms == [] then []
    else
      assert atoms == [atoms[0]] + atoms[1..];
      Insert(atoms[0], SortAtoms(atoms[1..]))
  }

  lemma SortedCons(x: Var, s: seq<Var>)
    requires Sorted(s) && (s == [] || LexLe(x, s[0]))
    ensures Sorted([x] + s)
  {
    forall j | 1 <= j < |s| ensures LexLe(x, s[j]) {
      LexLeTransitive(x, s[0], s[j]);
    }
  }

  /** The head of a sorted list bounds everything inserted after it. */
  lemma HeadBound(x: Var, s: seq<Var>, t: seq<Var>)
    requires Sorted(s) && s != [] && LexLe(s[0], x)
    requires multiset(t) == multiset(s[1..]) + multiset{x} && t != []
    ensures LexLe(s[0], t[0])
  {
    assert t[0] in multiset(t);
    if t[0] != x {
      assert t[0] in multiset(s[1..]);
      var k :| 0 <= k < |s[1..]| && s[1..][k] == t[0];
      assert s[k + 1] == t[0];
    }
  }

  /** The first element of a sorted list is below every element of it. */
  lemma SortedHeadLeast(s: seq<Var>, v: Var)
    requires Sorted(s) && v in s
    ensures LexLe(s[0], v)
  {
    var k :| 0 <= k < |s| && s[k] == v;
    if k == 0 {
      LexLeReflexive(v);
    }
  }

  /** Two sorted permutations of one non-empty list start with the same element. */
  lemma SortedPermutationHeads(a: seq<Var>, b: seq<Var>)
    requires Sorted(a) && Sorted(b) && a != [] && b != []
    requires multiset(a) == multiset(b)
    ensures a[0] == b[0]
  {
    assert a[0] in multiset(b) && b[0] in multiset(a);
    SortedHeadLeast(a, b[0]);
    SortedHeadLeast(b, a[0]);
    LexLeAntisymmetric(a[0], b[0]);
  }

  lemma TailsPermutation(a: seq<Var>, b: seq<Var>)
    requires a != [] && b != [] && a[0] == b[0]
    requires multiset(a) == multiset(b)
    ensures multiset(a[1..]) == multiset(b[1..])
  {
    assert a == [a[0]] + a[1..] && b == [b[0]] + b[1..];
    calc {
      multiset(a[1..]);
      multiset(a) - multiset{a[0]};
      multiset(b) - multiset{b[0]};
      multiset(b[1..]);
    }
  }

  /** A sorted permutation of a list is unique. */
  lemma {:induction false} SortedPermutationUnique(a: seq<Var>, b: seq<Var>)
    requires Sorted(a) && Sorted(b)
    requires multiset(a) == multiset(b)
    ensures a == b
  {
    assert |a| == |multiset(a)| == |multiset(b)| == |b|;
    if a != [] {
      SortedPermutationHeads(a, b);
      TailsPermutation(a, b);
      assert Sorted(a[1..]) && Sorted(b[1..]);
      SortedPermutationUnique(a[1..], b[1..]);
      assert a == [a[0]] + a[1..] && b == [b[0]] + b[1..];
    }
  }

  /** The order in which the atom set happens to be listed does not matter:
      any two listings of the same atoms give the same qubit order. */
  lemma SortAtomsIgnoresListingOrder(a: seq<Var>, b: seq<Var>)
    requires multiset(a) == multiset(b)
    ensures SortAtoms(a) == SortAtoms(b)
  {
    SortedPermutationUnique(SortAtoms(a), SortAtoms(b));
  }

  /** Sorting twice gives what sorting once gives. */
  lemma SortAtomsIdempotent(a: seq<Var>)
    ensures SortAtoms(SortAtoms(a)) == SortAtoms(a)
  {
    SortAtomsIgnoresListingOrder(SortAtoms(a), a);
  }

  lemma {:induction false} DistinctCountsOne(s: seq<Var>, v: Var)
    requires Distinct(s)
    ensures multiset(s)[v] <= 1
  {
    if s != [] {
      assert s == [s[0]] + s[1..];
      assert Distinct(s[1..]) by {
        forall i, j | 0 <= i < j < |s| - 1 ensures s[1..][i] != s[1..][j] {
          assert s[1..][i] == s[i + 1] && s[1..][j] == s[j + 1];
        }
      }
      DistinctCountsOne(s[1..], v);
      if s[0] == v {
        assert v !in s[1..];
      }
    }
  }

  lemma TwoOccurrences(s: seq<Var>, i: nat, j: nat)
    requires i < j < |s| && s[i] == s[j]
    ensures multiset(s)[s[i]] >= 2
  {
    assert s == s[..j] + s[j..];
    assert s[i] in s[..j];
    assert s[j] in s[j..];
  }

  /** With distinct atoms (they come from a set) the order is strict. */
  lemma SortAtomsStrictlyIncreasing(atoms: seq<Var>)
    requires Distinct(atoms)
    ensures StrictlySorted(SortAtoms(atoms))
    ensures Distinct(SortAtoms(atoms))
  {
    var r := SortAtoms(atoms);
    forall i, j | 0 <= i < j < |r| ensures r[i] != r[j] {
      if r[i] == r[j] {
        TwoOccurrences(r, i, j);
        DistinctCountsOne(atoms, r[i]);
        assert false;
      }
    }
  }
}
