/** Reading a satisfying assignment back as a set cover (the decoding half
    of print_result in Setcover.py): the solver's model literals become a
    variable-to-value map, the true decision variables are the chosen sets,
    and the union of the chosen sets is compared against the universe. */
module Decoding {
  import opened Results
  import opened Cnf
  import Encoding

  // ---------------------------------------------------------------------
  // From model literals to a variable map.
  // ---------------------------------------------------------------------

  /** `list.remove(x)` guarded by `x in list`: the first occurrence of x is
      dropped, a list without x is returned unchanged. */
  function RemoveFirst(lits: seq<int>, x: int): (r: seq<int>)
    ensures x !in lits ==> r == lits
    ensures x in lits ==> |r| == |lits| - 1
    decreases |lits|
  {
    if |lits| == 0 then []
    else if lits[0] == x then lits[1..]
    else [lits[0]] + RemoveFirst(lits[1..], x)
  }

  /** The position of the first occurrence of x. */
  function FirstIndex(lits: seq<int>, x: int): (p: nat)
    requires x in lits
    ensures p < |lits| && lits[p] == x && x !in lits[..p]
    decreases |lits|
  {
    if lits[0] == x then 0
    else
      var p := 1 + FirstIndex(lits[1..], x);
      assert lits[..p] == [lits[0]] + lits[1..][..p - 1];
      p
  }

  /** What is dropped is the FIRST occurrence: what comes before it and what
      comes after it are kept, in order. */
  lemma {:induction false} RemoveFirstAt(lits: seq<int>, x: int)
    requires x in lits
    ensures var p := FirstIndex(lits, x);
            RemoveFirst(lits, x) == lits[..p] + lits[p + 1..]
    decreases |lits|
  {
    if lits[0] != x {
      var tail := lits[1..];
      RemoveFirstAt(tail, x);
      var p := FirstIndex(tail, x);
      assert lits[..p + 1] == [lits[0]] + tail[..p];
      assert lits[p + 2..] == tail[p + 1..];
    }
  }

  /** Position p holds the last literal on its variable. */
  ghost predicate LastFor(lits: seq<int>, p: int) {
    && 0 <= p < |lits|
    && forall q :: p < q < |lits| ==> Var(lits[q]) != Var(lits[p])
  }

  /** The model dictionary: each literal sets its variable to its sign, a
      later literal on the same variable overriding an earlier one. The
      keys are exactly the variables of the literals. */
  function ModelOf(lits: seq<int>): (m: map<int, bool>)
    ensures forall v :: v in m <==> exists p :: 0 <= p < |lits| && Var(lits[p]) == v
    decreases |lits|
  {
    if |lits| == 0 then map[]
    else
      var front := lits[..|lits| - 1];
      assert forall p :: 0 <= p < |front| ==> front[p] == lits[p];
      ModelOf(front)[Var(lits[|lits| - 1]) := lits[|lits| - 1] > 0]
  }

  /** The last literal on a variable decides its value. */
  lemma {:induction false} ModelOfLastWins(lits: seq<int>, p: int)
    requires LastFor(lits, p)
    ensures Var(lits[p]) in ModelOf(lits)
    ensures ModelOf(lits)[Var(lits[p])] == (lits[p] > 0)
    decreases |lits|
  {
    if p < |lits| - 1 {
      var front := lits[..|lits| - 1];
      assert LastFor(front, p) by {
        forall q | p < q < |front|
          ensures Var(front[q]) != Var(front[p])
        {
          assert front[q] == lits[q];
        }
      }
      ModelOfLastWins(front, p);
    }
  }

  /** `model.get(v, False)`. */
  predicate TrueIn(m: map<int, bool>, v: int) {
    v in m && m[v]
  }

  /** The model as a total assignment: a variable the solver did not report is false. */
  function AssignmentOf(m: map<int, bool>): (a: Assignment)
    ensures forall v :: a(v) == TrueIn(m, v)
  {
    v => TrueIn(m, v)
  }

  /** Appending a literal sets its variable and leaves every other one alone. */
  lemma ModelOfSnoc(lits: seq<int>, l: int, v: int)
    ensures TrueIn(ModelOf(lits + [l]), v) == if v == Var(l) then l > 0 else TrueIn(ModelOf(lits), v)
  {
    assert (lits + [l])[..|lits|] == lits;
  }

  /** A zero literal never changes the value of a variable, so dropping it
      leaves the map unchanged on every variable id. */
  lemma {:induction false} ModelOfIgnoresZero(lits: seq<int>, p: int, v: int)
    requires 0 <= p < |lits| && lits[p] == 0
    requires v != 0
    ensures TrueIn(ModelOf(lits[..p] + lits[p + 1..]), v) == TrueIn(ModelOf(lits), v)
    decreases |lits|
  {
    var front := lits[..|lits| - 1];
    var last := lits[|lits| - 1];
    assert lits == front + [last];
    ModelOfSnoc(front, last, v);
    if p == |lits| - 1 {
      assert lits[..p] + lits[p + 1..] == front;
    } else {
      var rest' := front[..p] + front[p + 1..];
      assert lits[..p] + lits[p + 1..] == rest' + [last];
      ModelOfSnoc(rest', last, v);
      ModelOfIgnoresZero(front, p, v);
    }
  }

  /** Only the literal 0 has variable 0, so key 0 is never true. */
  lemma {:induction false} ZeroNeverTrue(lits: seq<int>)
    ensures !TrueIn(ModelOf(lits), 0)
    decreases |lits|
  {
    if |lits| > 0 {
      var front := lits[..|lits| - 1];
      assert lits == front + [lits[|lits| - 1]];
      ModelOfSnoc(front, lits[|lits| - 1], 0);
      ZeroNeverTrue(front);
    }
  }

  /** The map built after `remove(0)` agrees with the one built from all
      the literals on every variable id. */
  lemma ModelAfterRemoval(lits: seq<int>, v: int)
    ensures TrueIn(ModelOf(RemoveFirst(lits, 0)), v) == TrueIn(ModelOf(lits), v)
  {
    if v == 0 {
      ZeroNeverTrue(lits);
      ZeroNeverTrue(RemoveFirst(lits, 0));
    } else if 0 in lits {
      RemoveFirstAt(lits, 0);
      ModelOfIgnoresZero(lits, FirstIndex(lits, 0), v);
    }
  }

  // ---------------------------------------------------------------------
  // Chosen sets, covered and missing elements.
  // ---------------------------------------------------------------------

  /** The sets 1..n whose decision variable is true, in ascending order. */
  function Chosen(m: map<int, bool>, n: int): (r: seq<int>)
    ensures forall j :: j in r <==> 1 <= j <= n && TrueIn(m, j)
    ensures forall p :: 0 <= p < |r| ==> 1 <= r[p] <= n
    ensures forall p, q :: 0 <= p < q < |r| ==> r[p] < r[q]
    decreases n
  {
    if n <= 0 then []
    else Chosen(m, n - 1) + (if TrueIn(m, n) then [n] else [])
  }

  /** The elements of a member list, as a set. */
  function Members(xs: seq<int>): (r: set<int>)
    ensures forall e :: e in r <==> e in xs
  {
    set p | 0 <= p < |xs| :: xs[p]
  }

  /** The union of the chosen sets' members. */
  function Covered(sets: seq<seq<int>>, chosen: seq<int>): (r: set<int>)
    requires forall p :: 0 <= p < |chosen| ==> 1 <= chosen[p] <= |sets|
    ensures forall e :: e in r <==> exists p :: 0 <= p < |chosen| && e in sets[chosen[p] - 1]
    decreases |chosen|
  {
    if |chosen| == 0 then {}
    else
      var front := chosen[..|chosen| - 1];
      assert forall p :: 0 <= p < |front| ==> front[p] == chosen[p];
      Covered(sets, front) + Members(sets[chosen[|chosen| - 1] - 1])
  }

  /** The elements of 1..nrElements outside `covered`. */
  function Missing(covered: set<int>, nrElements: int): (r: set<int>)
    ensures forall e :: e in r <==> 1 <= e <= nrElements && e !in covered
    decreases nrElements
  {
    if nrElements <= 0 then {}
    else Missing(covered, nrElements - 1) + (if nrElements in covered then {} else {nrElements})
  }

  /** What print_result reports after a satisfiable answer. */
  datatype Report = Report(chosen: seq<int>, covered: set<int>, missing: set<int>)

  /** Some chosen index has no set in the list (Python's IndexError). */
  predicate SomeOutOfRange(sets: seq<seq<int>>, chosen: seq<int>) {
    exists p :: 0 <= p < |chosen| && chosen[p] > |sets|
  }

  /** The decoding half of print_result, for the literals of the solver's
      `v` lines. */
  function Decode(inst: Encoding.Instance, lits: seq<int>): (r: Result<Report>)
    ensures var m := ModelOf(lits);
            && (r.Failure? <==> exists j :: |inst.sets| < j <= inst.nrSets && TrueIn(m, j))
            && (r.Failure? ==> r.error == SetIndexOutOfRange)
            && (r.Success? ==>
                  && (forall j :: j in r.value.chosen <==> 1 <= j <= inst.nrSets && TrueIn(m, j))
                  && (forall p, q :: 0 <= p < q < |r.value.chosen| ==> r.value.chosen[p] < r.value.chosen[q])
                  && (forall e :: e in r.value.covered <==> Encoding.CoveredBy(inst, AssignmentOf(m), e))
                  && (forall e :: e in r.value.missing <==> 1 <= e <= inst.nrElements && e !in r.value.covered))
  {
    var chosen := Chosen(ModelOf(RemoveFirst(lits, 0)), inst.nrSets);
    ChosenIgnoresZero(lits, inst.nrSets);
    OutOfRangeMeaning(inst.sets, ModelOf(lits), inst.nrSets);
    if SomeOutOfRange(inst.sets, chosen) then
      Failure(SetIndexOutOfRange)
    else
      var covered := Covered(inst.sets, chosen);
      CoveredMeaning(inst, ModelOf(lits));
      Success(Report(chosen, covered, Missing(covered, inst.nrElements)))
  }

  /** Removing the first 0 does not change which sets are chosen. */
  lemma {:induction false} ChosenIgnoresZero(lits: seq<int>, n: int)
    ensures Chosen(ModelOf(RemoveFirst(lits, 0)), n) == Chosen(ModelOf(lits), n)
    decreases n
  {
    if n > 0 {
      ChosenIgnoresZero(lits, n - 1);
      ModelAfterRemoval(lits, n);
    }
  }

  /** The decoder hits a missing set exactly when a decision variable beyond
      the end of the set list is true. */
  lemma OutOfRangeMeaning(sets: seq<seq<int>>, m: map<int, bool>, n: int)
    ensures SomeOutOfRange(sets, Chosen(m, n)) <==> exists j :: |sets| < j <= n && TrueIn(m, j)
  {
    var chosen := Chosen(m, n);
    if SomeOutOfRange(sets, chosen) {
      var p :| 0 <= p < |chosen| && chosen[p] > |sets|;
      assert chosen[p] in chosen;
    }
    if exists j :: |sets| < j <= n && TrueIn(m, j) {
      var j :| |sets| < j <= n && TrueIn(m, j);
      assert j in chosen;
    }
  }

  /** The union of the chosen sets is the set of elements the model covers. */
  lemma CoveredMeaning(inst: Encoding.Instance, m: map<int, bool>)
    requires !SomeOutOfRange(inst.sets, Chosen(m, inst.nrSets))
    ensures forall e :: e in Covered(inst.sets, Chosen(m, inst.nrSets))
                        <==> Encoding.CoveredBy(inst, AssignmentOf(m), e)
  {
    var chosen := Chosen(m, inst.nrSets);
    var a := AssignmentOf(m);
    assert forall j :: j in chosen <==> 1 <= j <= inst.nrSets && a(j);
    forall e
      ensures e in Covered(inst.sets, chosen) <==> Encoding.CoveredBy(inst, a, e)
    {
      CoveredMeaningAt(inst, a, chosen, e);
    }
  }

  lemma CoveredMeaningAt(inst: Encoding.Instance, a: Assignment, chosen: seq<int>, e: int)
    requires forall j :: j in chosen <==> 1 <= j <= inst.nrSets && a(j)
    requires forall p :: 0 <= p < |chosen| ==> 1 <= chosen[p] <= |inst.sets|
    ensures e in Covered(inst.sets, chosen) <==> Encoding.CoveredBy(inst, a, e)
  {
    if e in Covered(inst.sets, chosen) {
      CoveredIsCoveredBy(inst, a, chosen, e);
    }
    if Encoding.CoveredBy(inst, a, e) {
      CoveredByIsCovered(inst, a, chosen, e);
    }
  }

  lemma CoveredIsCoveredBy(inst: Encoding.Instance, a: Assignment, chosen: seq<int>, e: int)
    requires forall j :: j in chosen <==> 1 <= j <= inst.nrSets && a(j)
    requires forall p :: 0 <= p < |chosen| ==> 1 <= chosen[p] <= |inst.sets|
    requires e in Covered(inst.sets, chosen)
    ensures Encoding.CoveredBy(inst, a, e)
  {
    var p :| 0 <= p < |chosen| && e in inst.sets[chosen[p] - 1];
    var j := chosen[p];
    assert j in chosen;
    assert 1 <= j <= inst.nrSets && j <= |inst.sets| && a(j) && e in inst.sets[j - 1];
  }

  lemma CoveredByIsCovered(inst: Encoding.Instance, a: Assignment, chosen: seq<int>, e: int)
    requires forall j :: j in chosen <==> 1 <= j <= inst.nrSets && a(j)
    requires forall p :: 0 <= p < |chosen| ==> 1 <= chosen[p] <= |inst.sets|
    requires Encoding.CoveredBy(inst, a, e)
    ensures e in Covered(inst.sets, chosen)
  {
    var j :| 1 <= j <= inst.nrSets && j <= |inst.sets| && a(j) && e in inst.sets[j - 1];
    assert j in chosen;
    var p :| 0 <= p < |chosen| && chosen[p] == j;
    assert e in inst.sets[chosen[p] - 1];
  }

  // ---------------------------------------------------------------------
  // Decoding agrees with the encoding.
  // ---------------------------------------------------------------------

  /** The number of chosen sets is the number of true decision variables
      the cardinality constraint counts. */
  lemma {:induction false} ChosenCount(m: map<int, bool>, n: int)
    ensures |Chosen(m, n)| == TrueCount(AssignmentOf(m), Encoding.DecisionVars(n))
    decreases n
  {
    if n > 0 {
      var xs := Encoding.DecisionVars(n);
      assert xs[..n - 1] == Encoding.DecisionVars(n - 1);
      ChosenCount(m, n - 1);
    }
  }

  /** A model satisfying the formula decodes without error into at most k
      sets that leave no element missing. */
  lemma DecodeSatisfyingModel(inst: Encoding.Instance, lits: seq<int>)
    requires |inst.sets| == inst.nrSets
    requires inst.k >= 0
    requires Sat(AssignmentOf(ModelOf(lits)), Encoding.Encode(inst).value.0)
    ensures Decode(inst, lits).Success?
    ensures |Decode(inst, lits).value.chosen| <= inst.k
    ensures Decode(inst, lits).value.missing == {}
  {
    var a := AssignmentOf(ModelOf(lits));
    Encoding.EncodeSound(inst, a);
    var r := Decode(inst, lits).value;
    ChosenIgnoresZero(lits, inst.nrSets);
    ChosenCount(ModelOf(lits), inst.nrSets);
    forall e | 1 <= e <= inst.nrElements
      ensures e in r.covered
    {
      assert Encoding.CoveredBy(inst, a, e);
    }
    assert r.missing == {};
  }

  /** With fewer sets than declared, the decision variables past the end of
      the set list occur in no coverage clause, so a satisfying model may set
      them true, and decoding it runs off the set list: one declared-but-
      missing set, k = 2, and the model 1, 2 (then the terminating 0). */
  lemma SetCountShortfallBreaksDecode()
    ensures var inst := Encoding.Instance(1, 2, 2, [[1]]);
            var lits := [1, 2, 0];
            && Encoding.Encode(inst).Success?
            && Sat(AssignmentOf(ModelOf(lits)), Encoding.Encode(inst).value.0)
            && Decode(inst, lits).Failure?
  {
    var inst := Encoding.Instance(1, 2, 2, [[1]]);
    var lits := [1, 2, 0];
    FormulaOfOneCoveredElement(inst);
    assert LastFor(lits, 0) && LastFor(lits, 1);
    ModelOfLastWins(lits, 0);
    ModelOfLastWins(lits, 1);
    UnitFormulaSat(AssignmentOf(ModelOf(lits)));
    assert TrueIn(ModelOf(lits), 2);
    assert |inst.sets| < 2 <= inst.nrSets;
  }

  /** With more sets than declared, a satisfying model can decode to a
      report with a missing element: Instance(1, 0, 0, [[1]]) encodes to
      [[1]], whose literal 1 is no decision variable, so the model 1, 0
      satisfies the formula while nothing is chosen and element 1 is
      missing. */
  lemma SetCountExcessBreaksDecode()
    ensures var inst := Encoding.Instance(1, 0, 0, [[1]]);
            var lits := [1, 0];
            && Encoding.Encode(inst).Success?
            && Sat(AssignmentOf(ModelOf(lits)), Encoding.Encode(inst).value.0)
            && Decode(inst, lits).Success?
            && Decode(inst, lits).value.missing == {1}
  {
    var inst := Encoding.Instance(1, 0, 0, [[1]]);
    var lits := [1, 0];
    FormulaOfOneCoveredElement(inst);
    assert LastFor(lits, 0);
    ModelOfLastWins(lits, 0);
    UnitFormulaSat(AssignmentOf(ModelOf(lits)));
    DecodeNoDeclaredSets(inst, lits);
    assert 1 in Decode(inst, lits).value.missing;
  }

  /** With no declared sets nothing is chosen, whatever the model says, so
      every element of the universe is reported missing. */
  lemma DecodeNoDeclaredSets(inst: Encoding.Instance, lits: seq<int>)
    requires inst.nrSets <= 0
    ensures Decode(inst, lits).Success?
    ensures Decode(inst, lits).value.chosen == []
    ensures forall e :: e in Decode(inst, lits).value.missing <==> 1 <= e <= inst.nrElements
  {
  }

  /** A one-element universe whose only set is [1], with no counter clauses
      (k = 0 over no sets, or k >= nr_sets), encodes to the single clause [1]. */
  lemma FormulaOfOneCoveredElement(inst: Encoding.Instance)
    requires inst.nrElements == 1 && inst.sets == [[1]]
    requires (inst.nrSets == 0 && inst.k == 0) || inst.k >= inst.nrSets >= 0
    ensures Encoding.Encode(inst).Success?
    ensures Encoding.Encode(inst).value.0 == [[1]]
  {
    assert 1 in inst.sets[0];
    assert Encoding.CoverClause(inst.sets, 1) == [1];
    assert Encoding.CoverageClauses(inst.sets, 1) == [[1]];
  }

  /** The formula [[1]] holds exactly when variable 1 is true. */
  lemma UnitFormulaSat(a: Assignment)
    ensures Sat(a, [[1]]) <==> a(1)
  {
    ClauseSat1(a, 1);
    assert [1] in [[1]];
  }

  /** The literals a solver prints for variables 1..n under `a`: v when v is
      true and -v when it is false. */
  function ModelLine(a: Assignment, n: int): (r: seq<int>)
    ensures |r| == Encoding.Max(n, 0)
    ensures forall p :: 0 <= p < |r| ==> Var(r[p]) == p + 1 && (r[p] > 0 <==> a(p + 1))
  {
    if n <= 0 then [] else seq(n, p => if a(p + 1) then p + 1 else -(p + 1))
  }

  /** Reading a model line back gives the assignment it was printed from,
      with or without the 0 that ends it. */
  lemma ModelLineRoundTrip(a: Assignment, n: int, v: int)
    requires 1 <= v <= n
    ensures TrueIn(ModelOf(ModelLine(a, n)), v) == a(v)
    ensures TrueIn(ModelOf(ModelLine(a, n) + [0]), v) == a(v)
  {
    var line := ModelLine(a, n);
    assert LastFor(line, v - 1);
    ModelOfLastWins(line, v - 1);
    assert (line + [0])[..|line|] == line;
  }

  /** The assignment read back from a full solver answer agrees with the
      one printed on every variable of the line. */
  lemma ModelLineAgrees(a: Assignment, n: int)
    ensures forall v :: 1 <= v <= n ==> AssignmentOf(ModelOf(ModelLine(a, n) + [0]))(v) == a(v)
  {
    forall v | 1 <= v <= n
      ensures AssignmentOf(ModelOf(ModelLine(a, n) + [0]))(v) == a(v)
    {
      ModelLineRoundTrip(a, n, v);
    }
  }

  /** End to end: the solver's answer for a satisfying assignment (its
      model line followed by the terminating 0) decodes to exactly the
      sets that assignment chooses: at most k of them, covering everything. */
  lemma DecodeSolverAnswer(inst: Encoding.Instance, a: Assignment)
    requires |inst.sets| == inst.nrSets
    requires inst.k >= 0
    requires Sat(a, Encoding.Encode(inst).value.0)
    ensures var r := Decode(inst, ModelLine(a, Encoding.Encode(inst).value.1) + [0]);
            && r.Success?
            && (forall j :: j in r.value.chosen <==> 1 <= j <= inst.nrSets && a(j))
            && |r.value.chosen| <= inst.k
            && r.value.missing == {}
  {
    var nrVars := Encoding.Encode(inst).value.1;
    var lits := ModelLine(a, nrVars) + [0];
    var b := AssignmentOf(ModelOf(lits));
    ModelLineAgrees(a, nrVars);
    Encoding.EncodeVarCountCoversSets(inst);
    Encoding.EncodeWellFormed(inst);
    SatAgree(a, b, Encoding.Encode(inst).value.0, nrVars);
    DecodeSatisfyingModel(inst, lits);
    var r := Decode(inst, lits);
    assert forall j :: j in r.value.chosen <==> 1 <= j <= inst.nrSets && TrueIn(ModelOf(lits), j);
  }
}
