/** The reduction of "is there a set cover of size at most k?" to CNF
    (encode in Setcover.py): one coverage clause per universe element,
    followed by the sequential counter over the decision variables. */
module Encoding {
  import opened Results
  import opened Cnf
  import SeqCounter

  /** One set-cover instance: the universe 1..nrElements, the declared number
      of sets, the bound k, and the member lists of the sets as read. The
      loader only warns when |sets| differs from nrSets. */
  datatype Instance = Instance(nrElements: int, nrSets: int, k: int, sets: seq<seq<int>>)

  function Max(x: int, y: int): int {
    if x >= y then x else y
  }

  /** The decision variables 1..n; variable j means "set j is chosen". */
  function DecisionVars(n: int): (r: seq<Literal>)
    ensures |r| == Max(n, 0)
    ensures forall p :: 0 <= p < |r| ==> r[p] == p + 1
  {
    if n <= 0 then [] else seq(n, p => p + 1)
  }

  /** The coverage clause of element e: the 1-based index of every set that
      contains e, in ascending order. */
  function CoverClause(sets: seq<seq<int>>, e: int): (c: Clause)
    ensures forall v :: v in c <==> 1 <= v <= |sets| && e in sets[v - 1]
    ensures forall p :: 0 <= p < |c| ==> 1 <= c[p] <= |sets|
    ensures forall p, q :: 0 <= p < q < |c| ==> c[p] < c[q]
    ensures c == [] <==> forall p :: 0 <= p < |sets| ==> e !in sets[p]
  {
    if |sets| == 0 then []
    else
      var front := sets[..|sets| - 1];
      assert forall p :: 0 <= p < |front| ==> front[p] == sets[p];
      CoverClause(front, e) + (if e in sets[|sets| - 1] then [|sets|] else [])
  }

  /** The coverage clauses of elements 1..m, in order. */
  function CoverageClauses(sets: seq<seq<int>>, m: int): (r: Formula)
    ensures |r| == Max(m, 0)
    ensures forall e :: 1 <= e <= m ==> r[e - 1] == CoverClause(sets, e)
    decreases m
  {
    if m <= 0 then [] else CoverageClauses(sets, m - 1) + [CoverClause(sets, m)]
  }

  /** encode: the clause list and the variable count, or InvalidBound when
      k is negative. */
  function Encode(inst: Instance): (r: Result<(Formula, int)>)
    ensures r.Failure? <==> inst.k < 0
    ensures r.Failure? ==> r.error == InvalidBound(inst.k)
    ensures r.Success? ==>
              && Max(inst.nrElements, 0) <= |r.value.0|
              && (forall e :: 1 <= e <= inst.nrElements ==> r.value.0[e - 1] == CoverClause(inst.sets, e))
              && r.value.0[Max(inst.nrElements, 0)..]
                 == SeqCounter.AtMostK(DecisionVars(inst.nrSets), inst.k, inst.nrSets + 1).value.0
    ensures r.Success? ==>
              r.value.1 == inst.nrSets + (if 0 < inst.k < inst.nrSets then inst.nrSets * inst.k else 0)
  {
    var cover := CoverageClauses(inst.sets, inst.nrElements);
    match SeqCounter.AtMostK(DecisionVars(inst.nrSets), inst.k, inst.nrSets + 1)
    case Failure(err) => Failure(err)
    case Success((card, last)) => Success((cover + card, Max(inst.nrSets, last)))
  }

  // ---------------------------------------------------------------------
  // Well-formedness.
  // ---------------------------------------------------------------------

  /** With no more sets than declared, every literal of the formula speaks
      about a variable in [1, nr_vars], as the DIMACS header promises. */
  lemma EncodeWellFormed(inst: Instance)
    requires |inst.sets| <= inst.nrSets
    requires inst.k >= 0
    ensures Encode(inst).Success?
    ensures forall c, l :: c in Encode(inst).value.0 && l in c ==> 1 <= Var(l) <= Encode(inst).value.1
  {
    var n := inst.nrSets;
    var xs := DecisionVars(n);
    var (f, nrVars) := Encode(inst).value;
    var cover := CoverageClauses(inst.sets, inst.nrElements);
    var card := SeqCounter.AtMostK(xs, inst.k, n + 1).value;
    assert f == cover + card.0;
    SeqCounter.AtMostKLiteralsWithin(xs, inst.k, n + 1);
    forall c, l | c in f && l in c
      ensures 1 <= Var(l) <= nrVars
    {
      if c in cover {
        var p :| 0 <= p < |cover| && cover[p] == c;
        assert c == CoverClause(inst.sets, p + 1);
      } else {
        assert c in card.0;
        assert SeqCounter.ClauseWithin(c, xs, n + 1, card.1);
        if -l in xs {
          var p :| 0 <= p < |xs| && xs[p] == -l;
        }
      }
    }
  }

  /** The variable count never falls below the number of decision variables. */
  lemma EncodeVarCountCoversSets(inst: Instance)
    requires inst.k >= 0
    ensures inst.nrSets <= Encode(inst).value.1
  {
    if 0 < inst.k < inst.nrSets {
      SeqCounter.MulMonotone(0, inst.nrSets, inst.k);
    }
  }

  /** When the set list is longer than declared, a coverage literal can lie
      outside [1, nr_vars]: one undeclared set covering element 1 gives the
      clause [1] under a header that declares no variable. */
  lemma SetCountMismatchEscapesVarCount()
    ensures var inst := Instance(1, 0, 0, [[1]]);
            && Encode(inst).Success?
            && [1] in Encode(inst).value.0
            && Encode(inst).value.1 == 0
  {
    var inst := Instance(1, 0, 0, [[1]]);
    assert 1 in CoverClause(inst.sets, 1);
    assert CoverClause(inst.sets, 1) == [1];
    assert Encode(inst).value.0[0] == [1];
  }

  // ---------------------------------------------------------------------
  // The reduction is exact.
  // ---------------------------------------------------------------------

  /** Element e lies in a set whose decision variable is true. */
  ghost predicate CoveredBy(inst: Instance, a: Assignment, e: int) {
    exists j :: 1 <= j <= inst.nrSets && j <= |inst.sets| && a(j) && e in inst.sets[j - 1]
  }

  /** Every element 1..nrElements lies in a set whose decision variable is true. */
  ghost predicate Covers(inst: Instance, a: Assignment) {
    forall e :: 1 <= e <= inst.nrElements ==> CoveredBy(inst, a, e)
  }

  /** Covering only depends on the decision variables. */
  lemma CoversAgree(inst: Instance, a: Assignment, b: Assignment)
    requires forall v :: 1 <= v <= inst.nrSets ==> a(v) == b(v)
    ensures Covers(inst, a) ==> Covers(inst, b)
  {
    if Covers(inst, a) {
      forall e | 1 <= e <= inst.nrElements
        ensures CoveredBy(inst, b, e)
      {
        assert CoveredBy(inst, a, e);
        var j :| 1 <= j <= inst.nrSets && j <= |inst.sets| && a(j) && e in inst.sets[j - 1];
        assert b(j);
      }
    }
  }

  lemma DecisionVarsBelow(n: int)
    ensures SeqCounter.VarsBelow(DecisionVars(n), Max(n, 0) + 1)
  {
  }

  /** A coverage clause holds exactly when a chosen set contains the element. */
  lemma CoverClauseMeaning(inst: Instance, a: Assignment, e: int)
    requires |inst.sets| <= inst.nrSets
    ensures ClauseSat(a, CoverClause(inst.sets, e)) <==> CoveredBy(inst, a, e)
  {
    var c := CoverClause(inst.sets, e);
    if ClauseSat(a, c) {
      var p :| 0 <= p < |c| && LitTrue(a, c[p]);
      assert c[p] in c;
    }
    if CoveredBy(inst, a, e) {
      var j :| 1 <= j <= inst.nrSets && j <= |inst.sets| && a(j) && e in inst.sets[j - 1];
      assert j in c;
      var p :| 0 <= p < |c| && c[p] == j;
      assert LitTrue(a, c[p]);
    }
  }

  lemma CoverageMeaning(inst: Instance, a: Assignment)
    requires |inst.sets| <= inst.nrSets
    ensures Sat(a, CoverageClauses(inst.sets, inst.nrElements)) <==> Covers(inst, a)
  {
    var cover := CoverageClauses(inst.sets, inst.nrElements);
    if Sat(a, cover) {
      forall e | 1 <= e <= inst.nrElements
        ensures CoveredBy(inst, a, e)
      {
        assert cover[e - 1] in cover;
        CoverClauseMeaning(inst, a, e);
      }
    }
    if Covers(inst, a) {
      forall c | c in cover
        ensures ClauseSat(a, c)
      {
        var p :| 0 <= p < |cover| && cover[p] == c;
        CoverClauseMeaning(inst, a, p + 1);
      }
    }
  }

  /** Soundness of the reduction: any assignment satisfying the formula
      chooses at most k sets and covers the universe. */
  lemma EncodeSound(inst: Instance, a: Assignment)
    requires |inst.sets| <= inst.nrSets
    requires inst.k >= 0
    requires Sat(a, Encode(inst).value.0)
    ensures TrueCount(a, DecisionVars(inst.nrSets)) <= inst.k
    ensures Covers(inst, a)
  {
    var n := inst.nrSets;
    var cover := CoverageClauses(inst.sets, inst.nrElements);
    var card := SeqCounter.AtMostK(DecisionVars(n), inst.k, n + 1).value.0;
    assert Encode(inst).value.0 == cover + card;
    SatConcat(a, cover, card);
    CoverageMeaning(inst, a);
    DecisionVarsBelow(n);
    SeqCounter.AtMostKSound(DecisionVars(n), inst.k, n + 1, a);
  }

  /** Completeness of the reduction: a choice of at most k sets that covers
      the universe extends, over the counter registers, to an assignment
      satisfying the formula. */
  lemma EncodeComplete(inst: Instance, a: Assignment)
    requires |inst.sets| <= inst.nrSets
    requires inst.k >= 0
    requires TrueCount(a, DecisionVars(inst.nrSets)) <= inst.k
    requires Covers(inst, a)
    ensures var w := SeqCounter.CounterWitness(a, DecisionVars(inst.nrSets), inst.k, inst.nrSets + 1);
            && (forall v :: v <= inst.nrSets ==> w(v) == a(v))
            && Sat(w, Encode(inst).value.0)
  {
    var n := inst.nrSets;
    var xs := DecisionVars(n);
    var w := SeqCounter.CounterWitness(a, xs, inst.k, n + 1);
    var cover := CoverageClauses(inst.sets, inst.nrElements);
    var card := SeqCounter.AtMostK(xs, inst.k, n + 1).value.0;
    DecisionVarsBelow(n);
    SeqCounter.AtMostKComplete(xs, inst.k, n + 1, a);
    CoversAgree(inst, a, w);
    CoverageMeaning(inst, w);
    assert Encode(inst).value.0 == cover + card;
    SatConcat(w, cover, card);
  }

  /** The reduction is exact: a choice of sets extends to an assignment
      satisfying the formula if and only if it picks at most k sets and
      covers the universe. */
  lemma EncodeExact(inst: Instance, a: Assignment)
    requires |inst.sets| <= inst.nrSets
    requires inst.k >= 0
    ensures (exists a': Assignment :: (forall v :: 1 <= v <= inst.nrSets ==> a'(v) == a(v))
                                      && Sat(a', Encode(inst).value.0))
            <==> TrueCount(a, DecisionVars(inst.nrSets)) <= inst.k && Covers(inst, a)
  {
    var n := inst.nrSets;
    var xs := DecisionVars(n);
    if exists a': Assignment :: (forall v :: 1 <= v <= n ==> a'(v) == a(v)) && Sat(a', Encode(inst).value.0) {
      var a': Assignment :| (forall v :: 1 <= v <= n ==> a'(v) == a(v)) && Sat(a', Encode(inst).value.0);
      EncodeSound(inst, a');
      assert AgreeOn(a', a, xs);
      TrueCountAgree(a', a, xs);
      CoversAgree(inst, a', a);
    }
    if TrueCount(a, xs) <= inst.k && Covers(inst, a) {
      EncodeComplete(inst, a);
      var w := SeqCounter.CounterWitness(a, xs, inst.k, n + 1);
      assert (forall v :: 1 <= v <= n ==> w(v) == a(v)) && Sat(w, Encode(inst).value.0);
    }
  }

  /** An element no set contains gives an empty coverage clause, so the
      formula is unsatisfiable whatever k is. */
  lemma UncoverableElementUnsat(inst: Instance, e: int, a: Assignment)
    requires inst.k >= 0
    requires 1 <= e <= inst.nrElements
    requires forall p :: 0 <= p < |inst.sets| ==> e !in inst.sets[p]
    ensures CoverClause(inst.sets, e) == []
    ensures !Sat(a, Encode(inst).value.0)
  {
    assert Encode(inst).value.0[e - 1] in Encode(inst).value.0;
  }

  /** With k = 0 no set may be chosen, so a non-empty universe cannot be covered. */
  lemma ZeroBoundNonEmptyUniverseUnsat(inst: Instance, a: Assignment)
    requires |inst.sets| <= inst.nrSets
    requires inst.k == 0 && inst.nrElements >= 1
    ensures !Sat(a, Encode(inst).value.0)
  {
    if Sat(a, Encode(inst).value.0) {
      EncodeSound(inst, a);
      assert CoveredBy(inst, a, 1);
      var j :| 1 <= j <= inst.nrSets && j <= |inst.sets| && a(j) && 1 in inst.sets[j - 1];
      var xs := DecisionVars(inst.nrSets);
      assert xs[j - 1] == j;
      SeqCounter.NoneTrueWhenZero(a, xs, j - 1);
    }
  }

  /** Universe {1, 2, 3}, sets {1, 2}, {2, 3}, {3} and k = 2: choosing the
      first two sets satisfies the formula. */
  lemma SmallInstanceSatisfiable()
    ensures var inst := Instance(3, 3, 2, [[1, 2], [2, 3], [3]]);
            exists a: Assignment :: Sat(a, Encode(inst).value.0)
  {
    var inst := Instance(3, 3, 2, [[1, 2], [2, 3], [3]]);
    var a: Assignment := v => v == 1 || v == 2;
    var xs := DecisionVars(3);
    assert xs == [1, 2, 3];
    assert xs[..2] == [1, 2] && xs[..1] == [1] && xs[..0] == [];
    assert TrueCount(a, xs) == 2;
    assert inst.sets[0][0] == 1 && inst.sets[0][1] == 2 && inst.sets[1][1] == 3;
    assert Covers(inst, a);
    EncodeComplete(inst, a);
  }
}
