/** Propositional formulas in conjunctive normal form, in the DIMACS
    convention: a variable is a positive integer id, a literal is a non-zero
    integer (negative for a negated variable), a clause is a disjunction of
    literals and a formula is a conjunction of clauses. The `0` that ends a
    clause in the exchange format is a serialization detail and is not part
    of a clause here. */
module Cnf {

  type Literal = int
  type Clause = seq<Literal>
  type Formula = seq<Clause>

  /** A total truth assignment to variable ids. */
  type Assignment = int -> bool

  /** The variable a literal speaks about. */
  function Var(l: Literal): nat {
    if l < 0 then -l else l
  }

  predicate LitTrue(a: Assignment, l: Literal) {
    if l > 0 then a(l) else if l < 0 then !a(-l) else false
  }

  predicate ClauseSat(a: Assignment, c: Clause) {
    exists p :: 0 <= p < |c| && LitTrue(a, c[p])
  }

  predicate Sat(a: Assignment, f: Formula) {
    forall c :: c in f ==> ClauseSat(a, c)
  }

  /** Two assignments agree on every variable of `xs`. */
  ghost predicate AgreeOn(a: Assignment, b: Assignment, xs: seq<Literal>) {
    forall p :: 0 <= p < |xs| ==> a(Var(xs[p])) == b(Var(xs[p]))
  }

  /** Number of positions of `xs` whose literal is true under `a`. */
  function TrueCount(a: Assignment, xs: seq<Literal>): (r: nat)
    ensures r <= |xs|
  {
    if |xs| == 0 then 0
    else TrueCount(a, xs[..|xs| - 1]) + (if LitTrue(a, xs[|xs| - 1]) then 1 else 0)
  }

  lemma NegationFlips(a: Assignment, l: Literal)
    requires l != 0
    ensures LitTrue(a, -l) == !LitTrue(a, l)
  {
  }

  lemma ClauseSat1(a: Assignment, p: Literal)
    ensures ClauseSat(a, [p]) <==> LitTrue(a, p)
  {
    if LitTrue(a, p) {
      assert [p][0] == p;
    }
  }

  lemma ClauseSat2(a: Assignment, p: Literal, q: Literal)
    ensures ClauseSat(a, [p, q]) <==> LitTrue(a, p) || LitTrue(a, q)
  {
    if LitTrue(a, p) {
      assert [p, q][0] == p;
    }
    if LitTrue(a, q) {
      assert [p, q][1] == q;
    }
  }

  lemma ClauseSat3(a: Assignment, p: Literal, q: Literal, t: Literal)
    ensures ClauseSat(a, [p, q, t]) <==> LitTrue(a, p) || LitTrue(a, q) || LitTrue(a, t)
  {
    if LitTrue(a, p) {
      assert [p, q, t][0] == p;
    }
    if LitTrue(a, q) {
      assert [p, q, t][1] == q;
    }
    if LitTrue(a, t) {
      assert [p, q, t][2] == t;
    }
  }

  lemma SatConcat(a: Assignment, f: Formula, g: Formula)
    ensures Sat(a, f + g) <==> Sat(a, f) && Sat(a, g)
  {
    if Sat(a, f) && Sat(a, g) {
      forall c | c in f + g
        ensures ClauseSat(a, c)
      {
        assert c in f || c in g;
      }
    }
  }

  /** Satisfaction only depends on the variables the formula mentions. */
  lemma SatAgree(a: Assignment, b: Assignment, f: Formula, hi: int)
    requires forall c, l :: c in f && l in c ==> 1 <= Var(l) <= hi
    requires forall v :: 1 <= v <= hi ==> a(v) == b(v)
    ensures Sat(a, f) ==> Sat(b, f)
  {
    if Sat(a, f) {
      forall c | c in f
        ensures ClauseSat(b, c)
      {
        var p :| 0 <= p < |c| && LitTrue(a, c[p]);
        assert c[p] in c;
      }
    }
  }

  /** Counting one more position adds one exactly when its literal is true. */
  lemma {:induction false} TrueCountStep(a: Assignment, xs: seq<Literal>, i: nat)
    requires 1 <= i <= |xs|
    ensures TrueCount(a, xs[..i]) == TrueCount(a, xs[..i - 1]) + (if LitTrue(a, xs[i - 1]) then 1 else 0)
  {
    assert xs[..i][..i - 1] == xs[..i - 1];
  }

  /** Counting over a longer prefix never gives fewer true positions. */
  lemma {:induction false} TrueCountPrefixMonotone(a: Assignment, xs: seq<Literal>, i: nat, i': nat)
    requires i <= i' <= |xs|
    ensures TrueCount(a, xs[..i]) <= TrueCount(a, xs[..i'])
    decreases i' - i
  {
    if i < i' {
      TrueCountPrefixMonotone(a, xs, i, i' - 1);
      TrueCountStep(a, xs, i');
    }
  }

  /** The count only depends on the values of the variables it looks at. */
  lemma {:induction false} TrueCountAgree(a: Assignment, b: Assignment, xs: seq<Literal>)
    requires AgreeOn(a, b, xs)
    ensures TrueCount(a, xs) == TrueCount(b, xs)
    decreases |xs|
  {
    if |xs| > 0 {
      var xs' := xs[..|xs| - 1];
      assert AgreeOn(a, b, xs') by {
        forall p | 0 <= p < |xs'|
          ensures a(Var(xs'[p])) == b(Var(xs'[p]))
        {
          assert xs'[p] == xs[p];
        }
      }
      TrueCountAgree(a, b, xs');
      assert a(Var(xs[|xs| - 1])) == b(Var(xs[|xs| - 1]));
    }
  }
}
