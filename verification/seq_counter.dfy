/** Sinz's sequential-counter encoding of the cardinality constraint
    "at most k of x_1..x_n are true" (at_most_k_seq in Setcover.py).

    In the general case 0 < k < n it introduces the register s(i, j) for
    i = 1..n and j = 1..k, meaning "at least j of x_1..x_i are true", laid
    out row by row from the first fresh id `start`. */
module SeqCounter {
  import opened Results
  import opened Cnf

  /** Id of the register s(i, j): the program hands out fresh ids row by
      row, so row i starts k ids after row i - 1 and column j of a row is
      j - 1 ids after its first. */
  function Aux(start: int, k: int, i: int, j: int): int
    decreases i
  {
    if i <= 1 then start + (j - 1) else Aux(start, k, i - 1, j) + k
  }

  /** Every variable of `xs` is a real id below the first fresh id. */
  ghost predicate VarsBelow(xs: seq<Literal>, start: int) {
    forall p :: 0 <= p < |xs| ==> 0 < Var(xs[p]) < start
  }

  /** Every literal of `c` is the negation of an entry of `xs` or speaks
      about a variable in [lo, hi]. */
  ghost predicate ClauseWithin(c: Clause, xs: seq<Literal>, lo: int, hi: int) {
    forall l :: l in c ==> -l in xs || lo <= Var(l) <= hi
  }

  ghost predicate LiteralsWithin(f: Formula, xs: seq<Literal>, lo: int, hi: int) {
    forall c :: c in f ==> ClauseWithin(c, xs, lo, hi)
  }

  // ---------------------------------------------------------------------
  // The clauses, piece by piece, in the order the program emits them.
  // ---------------------------------------------------------------------

  /** The k = 0 case: one unit clause ¬x_i per input, in order. */
  function NegUnits(xs: seq<Literal>): (r: Formula)
    ensures |r| == |xs|
    ensures forall p :: 0 <= p < |xs| ==> r[p] == [-xs[p]]
  {
    if |xs| == 0 then []
    else NegUnits(xs[..|xs| - 1]) + [[-xs[|xs| - 1]]]
  }

  /** ¬s(1, j') for j' = 2..j: one input cannot make two true. */
  function FirstUnits(start: int, k: int, j: int): Formula
    decreases j
  {
    if j < 2 then []
    else FirstUnits(start, k, j - 1) + [[-Aux(start, k, 1, j)]]
  }

  /** For j' = 2..j: (x_i ∧ s(i-1, j'-1)) → s(i, j') and s(i-1, j') → s(i, j'). */
  function RowPairs(xs: seq<Literal>, start: int, k: int, i: int, j: int): Formula
    requires 2 <= i <= |xs|
    decreases j
  {
    if j < 2 then []
    else
      RowPairs(xs, start, k, i, j - 1)
      + [[-xs[i - 1], -Aux(start, k, i - 1, j - 1), Aux(start, k, i, j)],
         [-Aux(start, k, i - 1, j), Aux(start, k, i, j)]]
  }

  /** The clauses emitted for position i >= 2. */
  function Row(xs: seq<Literal>, start: int, k: int, i: int): Formula
    requires 2 <= i <= |xs|
  {
    [[-xs[i - 1], Aux(start, k, i, 1)], [-Aux(start, k, i - 1, 1), Aux(start, k, i, 1)]]
    + RowPairs(xs, start, k, i, k)
    + [[-xs[i - 1], -Aux(start, k, i - 1, k)]]
  }

  /** The rows for positions 2..i. */
  function Rows(xs: seq<Literal>, start: int, k: int, i: int): Formula
    requires 1 <= i <= |xs|
    decreases i
  {
    if i == 1 then []
    else Rows(xs, start, k, i - 1) + Row(xs, start, k, i)
  }

  /** The clauses for position 1: x_1 → s(1, 1) and ¬s(1, j) for j = 2..k. */
  function Header(xs: seq<Literal>, start: int, k: int): Formula
    requires 1 <= |xs|
  {
    [[-xs[0], Aux(start, k, 1, 1)]] + FirstUnits(start, k, k)
  }

  /** All clauses of the general case 0 < k < n. */
  function CounterClauses(xs: seq<Literal>, k: int, start: int): Formula
    requires 0 < k < |xs|
  {
    Header(xs, start, k) + Rows(xs, start, k, |xs|)
  }

  /** at_most_k_seq: the clauses for "at most k of xs are true" and the last
      variable id used, or InvalidBound when k is negative. */
  function AtMostK(xs: seq<Literal>, k: int, start: int): (r: Result<(Formula, int)>)
    ensures r.Failure? <==> k < 0
    ensures r.Failure? ==> r.error == InvalidBound(k)
    ensures r.Success? && (|xs| == 0 || k == 0 || k >= |xs|) ==> r.value.1 == start - 1
    ensures r.Success? && (|xs| == 0 || k >= |xs|) ==> r.value.0 == []
    ensures r.Success? && k == 0 ==>
              && |r.value.0| == |xs|
              && forall p :: 0 <= p < |xs| ==> r.value.0[p] == [-xs[p]]
    ensures r.Success? && 0 < k < |xs| ==> r.value.1 - start + 1 == |xs| * k
  {
    if k < 0 then Failure(InvalidBound(k))
    else if |xs| == 0 then Success(([], start - 1))
    else if k == 0 then Success((NegUnits(xs), start - 1))
    else if k >= |xs| then Success(([], start - 1))
    else Success((CounterClauses(xs, k, start), start + |xs| * k - 1))
  }

  lemma {:induction false} FirstUnitsCount(start: int, k: int, j: int)
    requires 1 <= j
    ensures |FirstUnits(start, k, j)| == j - 1
    decreases j
  {
    if j >= 2 {
      FirstUnitsCount(start, k, j - 1);
    }
  }

  /** Position 1 contributes k clauses. */
  lemma HeaderCount(xs: seq<Literal>, start: int, k: int)
    requires 1 <= |xs| && 1 <= k
    ensures |Header(xs, start, k)| == k
  {
    FirstUnitsCount(start, k, k);
  }

  lemma {:induction false} RowPairsCount(xs: seq<Literal>, start: int, k: int, i: int, j: int)
    requires 2 <= i <= |xs| && 1 <= j
    ensures |RowPairs(xs, start, k, i, j)| == 2 * (j - 1)
    decreases j
  {
    if j >= 2 {
      RowPairsCount(xs, start, k, i, j - 1);
    }
  }

  /** Each later position contributes 2k + 1 clauses. */
  lemma RowCount(xs: seq<Literal>, start: int, k: int, i: int)
    requires 2 <= i <= |xs| && 1 <= k
    ensures |Row(xs, start, k, i)| == 2 * k + 1
  {
    RowPairsCount(xs, start, k, i, k);
  }

  lemma {:induction false} RowsCount(xs: seq<Literal>, k: int, start: int, i: int)
    requires 0 < k < |xs| && 1 <= i <= |xs|
    ensures |Rows(xs, start, k, i)| == (i - 1) * (2 * k + 1)
    decreases i
  {
    if i > 1 {
      RowsCount(xs, k, start, i - 1);
      RowCount(xs, start, k, i);
      assert (i - 1) * (2 * k + 1) == (i - 2) * (2 * k + 1) + (2 * k + 1);
    }
  }

  /** The general case emits k + (n - 1)(2k + 1) clauses. */
  lemma CounterClauseCount(xs: seq<Literal>, k: int, start: int)
    requires 0 < k < |xs|
    ensures |CounterClauses(xs, k, start)| == k + (|xs| - 1) * (2 * k + 1)
  {
    HeaderCount(xs, start, k);
    RowsCount(xs, k, start, |xs|);
  }

  // ---------------------------------------------------------------------
  // The program's loops, with the register table kept in a map.
  // ---------------------------------------------------------------------

  /** The keys of `s` are exactly the cells of the n-by-k grid, and every
      key maps to its register id. */
  ghost predicate TableOf(s: map<(int, int), int>, start: int, k: int, n: int) {
    && (forall i, j :: 1 <= i <= n && 1 <= j <= k ==> (i, j) in s)
    && (forall key :: key in s ==> 1 <= key.0 <= n && 1 <= key.1 <= k)
    && (forall key :: key in s ==> s[key] == Aux(start, k, key.0, key.1))
  }

  /** The register table s of at_most_k_seq: fresh ids handed out row by
      row from `start`; `nextVar` is the first id left unused. */
  method RegisterTable(n: int, k: int, start: int) returns (s: map<(int, int), int>, nextVar: int)
    requires 1 <= n && 1 <= k
    ensures TableOf(s, start, k, n)
    ensures nextVar == start + n * k
  {
    s := map[];
    nextVar := start;
    for i := 1 to n + 1
      invariant nextVar == Aux(start, k, i, 1)
      invariant forall i', j' :: 1 <= i' < i && 1 <= j' <= k ==> (i', j') in s
      invariant forall key :: key in s ==> 1 <= key.0 < i && 1 <= key.1 <= k
      invariant forall key :: key in s ==> s[key] == Aux(start, k, key.0, key.1)
    {
      for j := 1 to k + 1
        invariant nextVar == Aux(start, k, i, j)
        invariant forall i', j' :: ((1 <= i' < i && 1 <= j' <= k) || (i' == i && 1 <= j' < j)) ==> (i', j') in s
        invariant forall key :: key in s ==> (1 <= key.0 < i && 1 <= key.1 <= k) || (key.0 == i && 1 <= key.1 < j)
        invariant forall key :: key in s ==> s[key] == Aux(start, k, key.0, key.1)
      {
        s := s[(i, j) := nextVar];
        nextVar := nextVar + 1;
        AuxNextColumn(start, k, i, j);
      }
      AuxNextColumn(start, k, i, k);
      AuxNextRow(start, k, i);
    }
    AuxClosedForm(start, k, n + 1, 1);
  }

  /** The clauses of position 1, read off the register table. */
  method HeaderLoop(xs: seq<Literal>, k: int, start: int, s: map<(int, int), int>) returns (cnf: Formula)
    requires 0 < k < |xs|
    requires TableOf(s, start, k, |xs|)
    ensures cnf == Header(xs, start, k)
  {
    cnf := [[-xs[0], s[(1, 1)]]];
    for j := 2 to k + 1
      invariant cnf == [[-xs[0], Aux(start, k, 1, 1)]] + FirstUnits(start, k, j - 1)
    {
      cnf := cnf + [[-s[(1, j)]]];
    }
  }

  /** The propagation clauses of position i for j = 2..k, read off the
      register table. */
  method PairLoop(xs: seq<Literal>, k: int, start: int, s: map<(int, int), int>, i: int) returns (pairs: Formula)
    requires 0 < k < |xs| && 2 <= i <= |xs|
    requires TableOf(s, start, k, |xs|)
    ensures pairs == RowPairs(xs, start, k, i, k)
  {
    var xi := xs[i - 1];
    pairs := [];
    for j := 2 to k + 1
      invariant pairs == RowPairs(xs, start, k, i, j - 1)
    {
      pairs := pairs + [[-xi, -s[(i - 1, j - 1)], s[(i, j)]], [-s[(i - 1, j)], s[(i, j)]]];
    }
  }

  /** The clauses of position i >= 2, read off the register table. */
  method RowClauses(xs: seq<Literal>, k: int, start: int, s: map<(int, int), int>, i: int) returns (row: Formula)
    requires 0 < k < |xs| && 2 <= i <= |xs|
    requires TableOf(s, start, k, |xs|)
    ensures row == Row(xs, start, k, i)
  {
    var xi := xs[i - 1];
    var pairs := PairLoop(xs, k, start, s, i);
    row := [[-xi, s[(i, 1)]], [-s[(i - 1, 1)], s[(i, 1)]]] + pairs + [[-xi, -s[(i - 1, k)]]];
  }

  /** The clauses of positions 2..n, in order. */
  method RowLoop(xs: seq<Literal>, k: int, start: int, s: map<(int, int), int>) returns (cnf: Formula)
    requires 0 < k < |xs|
    requires TableOf(s, start, k, |xs|)
    ensures cnf == Rows(xs, start, k, |xs|)
  {
    cnf := [];
    for i := 2 to |xs| + 1
      invariant cnf == Rows(xs, start, k, i - 1)
    {
      var row := RowClauses(xs, k, start, s, i);
      cnf := cnf + row;
    }
  }

  /** The k = 0 case: one unit clause ¬x per input, in order. */
  method NegUnitLoop(xs: seq<Literal>) returns (cnf: Formula)
    ensures cnf == NegUnits(xs)
  {
    cnf := [];
    for p := 0 to |xs|
      invariant cnf == NegUnits(xs[..p])
    {
      assert xs[..p + 1][..p] == xs[..p];
      cnf := cnf + [[-xs[p]]];
    }
    assert xs[..|xs|] == xs;
  }

  /** at_most_k_seq as the program writes it: a table s from (i, j) to a
      fresh id filled row by row, then the clauses appended in loop order. */
  method AtMostKSeq(xs: seq<Literal>, k: int, start: int) returns (r: Result<(Formula, int)>)
    ensures r == AtMostK(xs, k, start)
  {
    var n := |xs|;
    var cnf: Formula := [];
    var nextVar := start;

    if k < 0 {
      return Failure(InvalidBound(k));
    }
    if n == 0 {
      return Success((cnf, start - 1));
    }
    if k == 0 {
      cnf := NegUnitLoop(xs);
      return Success((cnf, start - 1));
    }
    if k >= n {
      return Success((cnf, start - 1));
    }

    var s, nextVar' := RegisterTable(n, k, start);
    nextVar := nextVar';
    var header := HeaderLoop(xs, k, start, s);
    var rows := RowLoop(xs, k, start, s);
    cnf := header + rows;

    return Success((cnf, nextVar - 1));
  }


  // ---------------------------------------------------------------------
  // The register grid is exactly the block of ids start .. start + n*k - 1.
  // ---------------------------------------------------------------------

  lemma {:induction false} AuxColumnOffset(start: int, k: int, i: int, j: int)
    ensures Aux(start, k, i, j) == Aux(start, k, i, 1) + (j - 1)
    decreases i
  {
    if i > 1 {
      AuxColumnOffset(start, k, i - 1, j);
    }
  }

  lemma AuxNextColumn(start: int, k: int, i: int, j: int)
    ensures Aux(start, k, i, j + 1) == Aux(start, k, i, j) + 1
  {
    AuxColumnOffset(start, k, i, j);
    AuxColumnOffset(start, k, i, j + 1);
  }

  /** The first register of row i + 1 comes right after the last of row i. */
  lemma AuxNextRow(start: int, k: int, i: int)
    requires i >= 1
    ensures Aux(start, k, i + 1, 1) == Aux(start, k, i, k) + 1
  {
    AuxColumnOffset(start, k, i, k);
  }

  /** The program's layout s(i, j) = start + (i-1)*k + (j-1). */
  lemma {:induction false} AuxClosedForm(start: int, k: int, i: int, j: int)
    requires i >= 1
    ensures Aux(start, k, i, j) == start + (i - 1) * k + (j - 1)
    decreases i
  {
    if i > 1 {
      AuxClosedForm(start, k, i - 1, j);
      assert (i - 2) * k + k == (i - 1) * k;
    }
  }

  lemma {:induction false} AuxAtLeast(start: int, k: int, i: int, j: int)
    requires k >= 0
    ensures Aux(start, k, i, j) >= start + (j - 1)
    decreases i
  {
    if i > 1 {
      AuxAtLeast(start, k, i - 1, j);
    }
  }

  lemma {:induction false} MulMonotone(a: int, b: int, k: int)
    requires 0 <= a <= b && 0 <= k
    ensures a * k <= b * k
    decreases b - a
  {
    if a < b {
      MulMonotone(a, b - 1, k);
      assert (b - 1) * k + k == b * k;
    }
  }

  lemma DivModUnique(v: int, k: int, q: int, r: int)
    requires 0 <= r < k
    requires v == q * k + r
    ensures v / k == q && v % k == r
  {
    var q', r' := v / k, v % k;
    assert v == q' * k + r';
    if q' < q {
      assert (q - q') * k == q * k - q' * k;
      MulMonotone(1, q - q', k);
    } else if q' > q {
      assert (q' - q) * k == q' * k - q * k;
      MulMonotone(1, q' - q, k);
    }
  }

  /** Register (i, j) sits at offset (i-1)*k + (j-1) from `start`, so the
      offset determines the pair. */
  lemma AuxDecode(start: int, k: int, i: int, j: int)
    requires 1 <= i && 1 <= j <= k
    ensures (Aux(start, k, i, j) - start) / k == i - 1
    ensures (Aux(start, k, i, j) - start) % k == j - 1
  {
    AuxClosedForm(start, k, i, j);
    DivModUnique(Aux(start, k, i, j) - start, k, i - 1, j - 1);
  }

  lemma AuxBounds(start: int, k: int, n: int, i: int, j: int)
    requires 1 <= i <= n && 1 <= j <= k
    ensures start <= Aux(start, k, i, j) <= start + n * k - 1
  {
    AuxClosedForm(start, k, i, j);
    MulMonotone(0, i - 1, k);
    MulMonotone(i - 1, n - 1, k);
    assert (n - 1) * k + k == n * k;
  }

  /** The registers of an n-by-k grid. */
  ghost function RegisterIds(start: int, k: int, n: int): set<int> {
    set i, j | 1 <= i <= n && 1 <= j <= k :: Aux(start, k, i, j)
  }

  lemma RegisterInBlock(start: int, k: int, n: int, v: int)
    requires 0 < k
    requires start <= v <= start + n * k - 1
    ensures v in RegisterIds(start, k, n)
  {
    var q, r := (v - start) / k, (v - start) % k;
    assert v - start == q * k + r;
    if q >= n {
      MulMonotone(n, q, k);
    }
    AuxClosedForm(start, k, q + 1, r + 1);
    assert Aux(start, k, q + 1, r + 1) == v;
  }

  /** The registers s(i, j) for 1 <= i <= n, 1 <= j <= k are pairwise
      distinct and occupy exactly the ids start .. start + n*k - 1. */
  lemma AuxGridIsIdBlock(start: int, k: int, n: int)
    requires 0 < k < n
    ensures forall v :: v in RegisterIds(start, k, n) <==> start <= v <= start + n * k - 1
    ensures forall i, j, i', j' ::
              (1 <= i <= n && 1 <= j <= k && 1 <= i' <= n && 1 <= j' <= k &&
               Aux(start, k, i, j) == Aux(start, k, i', j'))
              ==> i == i' && j == j'
  {
    forall v | v in RegisterIds(start, k, n)
      ensures start <= v <= start + n * k - 1
    {
      var i, j :| 1 <= i <= n && 1 <= j <= k && Aux(start, k, i, j) == v;
      AuxBounds(start, k, n, i, j);
    }
    forall v | start <= v <= start + n * k - 1
      ensures v in RegisterIds(start, k, n)
    {
      RegisterInBlock(start, k, n, v);
    }
    forall i, j, i', j' |
      1 <= i <= n && 1 <= j <= k && 1 <= i' <= n && 1 <= j' <= k &&
      Aux(start, k, i, j) == Aux(start, k, i', j')
      ensures i == i' && j == j'
    {
      AuxDecode(start, k, i, j);
      AuxDecode(start, k, i', j');
    }
  }

  // ---------------------------------------------------------------------
  // Every literal is ¬x_i or about a register the call allocated.
  // ---------------------------------------------------------------------

  /** Both literals of register (i, j) speak about an id in the block. */
  lemma AuxLiteralsInBlock(start: int, k: int, n: int, i: int, j: int)
    requires start >= 1
    requires 1 <= i <= n && 1 <= j <= k
    ensures start <= Var(Aux(start, k, i, j)) <= start + n * k - 1
    ensures start <= Var(-Aux(start, k, i, j)) <= start + n * k - 1
  {
    AuxBounds(start, k, n, i, j);
  }

  lemma NegatedInput(xs: seq<Literal>, p: int)
    requires 0 <= p < |xs|
    ensures -(-xs[p]) in xs
  {
    assert -(-xs[p]) == xs[p];
  }

  lemma {:induction false} FirstUnitsWithin(xs: seq<Literal>, start: int, k: int, j: int)
    requires start >= 1
    requires 1 <= k < |xs| && j <= k
    ensures LiteralsWithin(FirstUnits(start, k, j), xs, start, start + |xs| * k - 1)
    decreases j
  {
    if j >= 2 {
      FirstUnitsWithin(xs, start, k, j - 1);
      AuxLiteralsInBlock(start, k, |xs|, 1, j);
    }
  }

  lemma {:induction false} RowPairsWithin(xs: seq<Literal>, start: int, k: int, i: int, j: int)
    requires start >= 1
    requires 1 <= k < |xs| && 2 <= i <= |xs| && j <= k
    ensures LiteralsWithin(RowPairs(xs, start, k, i, j), xs, start, start + |xs| * k - 1)
    decreases j
  {
    if j >= 2 {
      RowPairsWithin(xs, start, k, i, j - 1);
      AuxLiteralsInBlock(start, k, |xs|, i - 1, j - 1);
      AuxLiteralsInBlock(start, k, |xs|, i - 1, j);
      AuxLiteralsInBlock(start, k, |xs|, i, j);
      NegatedInput(xs, i - 1);
    }
  }

  lemma RowWithin(xs: seq<Literal>, start: int, k: int, i: int)
    requires start >= 1
    requires 1 <= k < |xs| && 2 <= i <= |xs|
    ensures LiteralsWithin(Row(xs, start, k, i), xs, start, start + |xs| * k - 1)
  {
    RowPairsWithin(xs, start, k, i, k);
    AuxLiteralsInBlock(start, k, |xs|, i - 1, 1);
    AuxLiteralsInBlock(start, k, |xs|, i, 1);
    AuxLiteralsInBlock(start, k, |xs|, i - 1, k);
    NegatedInput(xs, i - 1);
  }

  lemma {:induction false} RowsWithin(xs: seq<Literal>, start: int, k: int, i: int)
    requires start >= 1
    requires 1 <= k < |xs| && 1 <= i <= |xs|
    ensures LiteralsWithin(Rows(xs, start, k, i), xs, start, start + |xs| * k - 1)
    decreases i
  {
    if i >= 2 {
      RowsWithin(xs, start, k, i - 1);
      RowWithin(xs, start, k, i);
    }
  }

  /** Every literal at_most_k_seq emits is the negation of an input
      variable or speaks about a register in [start, last]. */
  lemma AtMostKLiteralsWithin(xs: seq<Literal>, k: int, start: int)
    requires k >= 0 && start >= 1
    ensures AtMostK(xs, k, start).Success?
    ensures LiteralsWithin(AtMostK(xs, k, start).value.0, xs, start, AtMostK(xs, k, start).value.1)
  {
    if 0 < k < |xs| {
      FirstUnitsWithin(xs, start, k, k);
      RowsWithin(xs, start, k, |xs|);
      AuxLiteralsInBlock(start, k, |xs|, 1, 1);
      NegatedInput(xs, 0);
    } else if |xs| > 0 && k == 0 {
      var f := NegUnits(xs);
      forall c | c in f
        ensures ClauseWithin(c, xs, start, start - 1)
      {
        var p :| 0 <= p < |f| && f[p] == c;
        NegatedInput(xs, p);
      }
    }
  }

  // ---------------------------------------------------------------------
  // What the clauses say about the registers, as plain logic.
  // ---------------------------------------------------------------------

  /** Registers are positive ids, so their literals read the variable directly. */
  lemma AuxLiterals(a: Assignment, start: int, k: int, i: int, j: int)
    requires start >= 1 && k >= 0 && j >= 1
    ensures LitTrue(a, Aux(start, k, i, j)) == a(Aux(start, k, i, j))
    ensures LitTrue(a, -Aux(start, k, i, j)) == !a(Aux(start, k, i, j))
  {
    AuxAtLeast(start, k, i, j);
  }

  /** The two propagation clauses of register (i, j), j >= 2. */
  ghost predicate PairHolds(a: Assignment, xs: seq<Literal>, start: int, k: int, i: int, j: int)
    requires 2 <= i <= |xs|
  {
    && (LitTrue(a, xs[i - 1]) && a(Aux(start, k, i - 1, j - 1)) ==> a(Aux(start, k, i, j)))
    && (a(Aux(start, k, i - 1, j)) ==> a(Aux(start, k, i, j)))
  }

  /** The clauses of position i >= 2: x_i and s(i-1, 1) each force s(i, 1),
      the pairs propagate the higher registers, and x_i is false once
      s(i-1, k) holds. */
  ghost predicate RowHolds(a: Assignment, xs: seq<Literal>, start: int, k: int, i: int)
    requires 2 <= i <= |xs|
  {
    && (LitTrue(a, xs[i - 1]) ==> a(Aux(start, k, i, 1)))
    && (a(Aux(start, k, i - 1, 1)) ==> a(Aux(start, k, i, 1)))
    && (forall j :: 2 <= j <= k ==> PairHolds(a, xs, start, k, i, j))
    && !(LitTrue(a, xs[i - 1]) && a(Aux(start, k, i - 1, k)))
  }

  /** s(1, j') is false for j' = 2..j. */
  ghost predicate FirstRowClear(a: Assignment, start: int, k: int, j: int) {
    forall j' :: 2 <= j' <= j ==> !a(Aux(start, k, 1, j'))
  }

  /** The clauses of position 1: x_1 forces s(1, 1) and s(1, j) is false for j >= 2. */
  ghost predicate HeaderHolds(a: Assignment, xs: seq<Literal>, start: int, k: int)
    requires 1 <= |xs|
  {
    && (LitTrue(a, xs[0]) ==> a(Aux(start, k, 1, 1)))
    && FirstRowClear(a, start, k, k)
  }

  lemma {:induction false} FirstUnitsMeaning(a: Assignment, start: int, k: int, j: int)
    requires start >= 1 && k >= 0
    ensures Sat(a, FirstUnits(start, k, j)) <==> FirstRowClear(a, start, k, j)
    decreases j
  {
    if j >= 2 {
      FirstUnitsMeaning(a, start, k, j - 1);
      AuxLiterals(a, start, k, 1, j);
      ClauseSat1(a, -Aux(start, k, 1, j));
      SatConcat(a, FirstUnits(start, k, j - 1), [[-Aux(start, k, 1, j)]]);
    }
  }

  lemma {:induction false} RowPairsMeaning(a: Assignment, xs: seq<Literal>, start: int, k: int, i: int, j: int)
    requires start >= 1 && k >= 0
    requires 2 <= i <= |xs| && xs[i - 1] != 0
    ensures Sat(a, RowPairs(xs, start, k, i, j)) <==> forall j' :: 2 <= j' <= j ==> PairHolds(a, xs, start, k, i, j')
    decreases j
  {
    if j >= 2 {
      RowPairsMeaning(a, xs, start, k, i, j - 1);
      var xi := xs[i - 1];
      NegationFlips(a, xi);
      AuxLiterals(a, start, k, i - 1, j - 1);
      AuxLiterals(a, start, k, i - 1, j);
      AuxLiterals(a, start, k, i, j);
      ClauseSat3(a, -xi, -Aux(start, k, i - 1, j - 1), Aux(start, k, i, j));
      ClauseSat2(a, -Aux(start, k, i - 1, j), Aux(start, k, i, j));
      var pair := [[-xi, -Aux(start, k, i - 1, j - 1), Aux(start, k, i, j)],
                   [-Aux(start, k, i - 1, j), Aux(start, k, i, j)]];
      assert Sat(a, pair) <==> PairHolds(a, xs, start, k, i, j) by {
        assert pair[0] in pair && pair[1] in pair;
      }
      SatConcat(a, RowPairs(xs, start, k, i, j - 1), pair);
    }
  }

  lemma RowMeaning(a: Assignment, xs: seq<Literal>, start: int, k: int, i: int)
    requires start >= 1 && k >= 1
    requires 2 <= i <= |xs| && xs[i - 1] != 0
    ensures Sat(a, Row(xs, start, k, i)) <==> RowHolds(a, xs, start, k, i)
  {
    var xi := xs[i - 1];
    NegationFlips(a, xi);
    AuxLiterals(a, start, k, i, 1);
    AuxLiterals(a, start, k, i - 1, 1);
    AuxLiterals(a, start, k, i - 1, k);
    ClauseSat2(a, -xi, Aux(start, k, i, 1));
    ClauseSat2(a, -Aux(start, k, i - 1, 1), Aux(start, k, i, 1));
    ClauseSat2(a, -xi, -Aux(start, k, i - 1, k));
    RowPairsMeaning(a, xs, start, k, i, k);
    var front := [[-xi, Aux(start, k, i, 1)], [-Aux(start, k, i - 1, 1), Aux(start, k, i, 1)]];
    var back := [[-xi, -Aux(start, k, i - 1, k)]];
    assert front[0] in front && front[1] in front && back[0] in back;
    SatConcat(a, front, RowPairs(xs, start, k, i, k));
    SatConcat(a, front + RowPairs(xs, start, k, i, k), back);
  }

  lemma {:induction false} RowsMeaning(a: Assignment, xs: seq<Literal>, start: int, k: int, i: int)
    requires start >= 1 && k >= 1
    requires 1 <= i <= |xs|
    requires forall p :: 0 <= p < |xs| ==> xs[p] != 0
    ensures Sat(a, Rows(xs, start, k, i)) <==> forall i' :: 2 <= i' <= i ==> RowHolds(a, xs, start, k, i')
    decreases i
  {
    if i >= 2 {
      RowsMeaning(a, xs, start, k, i - 1);
      RowMeaning(a, xs, start, k, i);
      SatConcat(a, Rows(xs, start, k, i - 1), Row(xs, start, k, i));
    }
  }

  /** The general-case clauses hold exactly when the header and every row
      hold as plain implications between inputs and registers. */
  lemma CounterMeaning(a: Assignment, xs: seq<Literal>, k: int, start: int)
    requires 0 < k < |xs|
    requires VarsBelow(xs, start)
    ensures Sat(a, CounterClauses(xs, k, start)) <==>
              && HeaderHolds(a, xs, start, k)
              && forall i :: 2 <= i <= |xs| ==> RowHolds(a, xs, start, k, i)
  {
    assert 0 < Var(xs[0]) < start;
    NegationFlips(a, xs[0]);
    AuxLiterals(a, start, k, 1, 1);
    ClauseSat2(a, -xs[0], Aux(start, k, 1, 1));
    FirstUnitsMeaning(a, start, k, k);
    RowsMeaning(a, xs, start, k, |xs|);
    var first := [[-xs[0], Aux(start, k, 1, 1)]];
    assert first[0] in first;
    assert Sat(a, first) <==> (LitTrue(a, xs[0]) ==> a(Aux(start, k, 1, 1)));
    SatConcat(a, first, FirstUnits(start, k, k));
    assert Header(xs, start, k) == first + FirstUnits(start, k, k);
    SatConcat(a, Header(xs, start, k), Rows(xs, start, k, |xs|));
  }

  // ---------------------------------------------------------------------
  // Soundness: every satisfying assignment has at most k true inputs.
  // ---------------------------------------------------------------------

  /** Under an assignment that satisfies the general-case clauses, the
      register s(i, j) is true whenever j of the first i inputs are, and no
      prefix holds more than k true inputs. */
  lemma {:induction false} CounterTracks(xs: seq<Literal>, k: int, start: int, a: Assignment, i: int)
    requires 0 < k < |xs|
    requires HeaderHolds(a, xs, start, k)
    requires forall i' :: 2 <= i' <= |xs| ==> RowHolds(a, xs, start, k, i')
    requires 1 <= i <= |xs|
    ensures TrueCount(a, xs[..i]) <= k
    ensures forall j :: 1 <= j <= k && j <= TrueCount(a, xs[..i]) ==> a(Aux(start, k, i, j))
    decreases i
  {
    TrueCountStep(a, xs, i);
    if i == 1 {
      assert xs[..0] == [];
    } else {
      CounterTracks(xs, k, start, a, i - 1);
      var before := TrueCount(a, xs[..i - 1]);
      assert RowHolds(a, xs, start, k, i);
      // the cut-off: x_i is false once k of the earlier inputs are true
      assert before == k ==> a(Aux(start, k, i - 1, k));
      forall j | 1 <= j <= k && j <= TrueCount(a, xs[..i])
        ensures a(Aux(start, k, i, j))
      {
        if j == 1 {
          assert before >= 1 ==> a(Aux(start, k, i - 1, 1));
        } else {
          assert PairHolds(a, xs, start, k, i, j);
          assert before >= j ==> a(Aux(start, k, i - 1, j));
          assert before >= j - 1 ==> a(Aux(start, k, i - 1, j - 1));
        }
      }
    }
  }

  lemma {:induction false} NegUnitsForceFalse(a: Assignment, xs: seq<Literal>, i: nat)
    requires forall p :: 0 <= p < |xs| ==> xs[p] != 0
    requires Sat(a, NegUnits(xs))
    requires i <= |xs|
    ensures TrueCount(a, xs[..i]) == 0
    decreases i
  {
    if i == 0 {
      assert xs[..0] == [];
    } else {
      NegUnitsForceFalse(a, xs, i - 1);
      TrueCountStep(a, xs, i);
      var f := NegUnits(xs);
      assert f[i - 1] in f;
      ClauseSat1(a, -xs[i - 1]);
      NegationFlips(a, xs[i - 1]);
    }
  }

  /** Any assignment satisfying at_most_k_seq's clauses makes at most k of
      the inputs true. */
  lemma AtMostKSound(xs: seq<Literal>, k: int, start: int, a: Assignment)
    requires k >= 0
    requires VarsBelow(xs, start)
    requires Sat(a, AtMostK(xs, k, start).value.0)
    ensures TrueCount(a, xs) <= k
  {
    var n := |xs|;
    assert xs[..n] == xs;
    if n == 0 || k >= n {
    } else if k == 0 {
      NegUnitsForceFalse(a, xs, n);
    } else {
      CounterMeaning(a, xs, k, start);
      CounterTracks(xs, k, start, a, n);
    }
  }

  // ---------------------------------------------------------------------
  // Completeness: an assignment with at most k true inputs extends to one
  // that satisfies every clause, by setting each register to its meaning.
  // ---------------------------------------------------------------------

  function Min(x: int, y: int): int {
    if x <= y then x else y
  }

  /** `a` with each register s(i, j) set to "at least j of x_1..x_i are true". */
  function CounterWitness(a: Assignment, xs: seq<Literal>, k: int, start: int): Assignment {
    (v: int) =>
      if 0 < k < |xs| && start <= v < start + |xs| * k
      then TrueCount(a, xs[..Min((v - start) / k + 1, |xs|)]) >= (v - start) % k + 1
      else a(v)
  }

  lemma WitnessAtRegister(a: Assignment, xs: seq<Literal>, k: int, start: int, i: int, j: int)
    requires 0 < k < |xs| && 1 <= i <= |xs| && 1 <= j <= k
    ensures CounterWitness(a, xs, k, start)(Aux(start, k, i, j)) <==> TrueCount(a, xs[..i]) >= j
  {
    var v := Aux(start, k, i, j);
    AuxBounds(start, k, |xs|, i, j);
    AuxDecode(start, k, i, j);
    assert start <= v < start + |xs| * k;
    assert Min((v - start) / k + 1, |xs|) == i;
    assert (v - start) % k + 1 == j;
    assert CounterWitness(a, xs, k, start)(v) == (TrueCount(a, xs[..i]) >= j);
  }

  lemma WitnessAgrees(a: Assignment, xs: seq<Literal>, k: int, start: int)
    requires VarsBelow(xs, start)
    ensures forall v :: v < start ==> CounterWitness(a, xs, k, start)(v) == a(v)
    ensures AgreeOn(CounterWitness(a, xs, k, start), a, xs)
    ensures forall p :: 0 <= p < |xs| ==>
              LitTrue(CounterWitness(a, xs, k, start), xs[p]) == LitTrue(a, xs[p])
  {
    var w := CounterWitness(a, xs, k, start);
    forall p | 0 <= p < |xs|
      ensures LitTrue(w, xs[p]) == LitTrue(a, xs[p])
    {
      assert 0 < Var(xs[p]) < start;
      assert w(Var(xs[p])) == a(Var(xs[p]));
    }
  }

  /** The propagation of register (i, j) holds under the witness. */
  lemma WitnessPairHolds(a: Assignment, xs: seq<Literal>, k: int, start: int, i: int, j: int)
    requires 0 < k < |xs|
    requires VarsBelow(xs, start)
    requires 2 <= i <= |xs| && 2 <= j <= k
    ensures PairHolds(CounterWitness(a, xs, k, start), xs, start, k, i, j)
  {
    WitnessAgrees(a, xs, k, start);
    TrueCountStep(a, xs, i);
    TrueCountPrefixMonotone(a, xs, i - 1, i);
    WitnessAtRegister(a, xs, k, start, i, j);
    WitnessAtRegister(a, xs, k, start, i - 1, j);
    WitnessAtRegister(a, xs, k, start, i - 1, j - 1);
  }

  /** s(i, 1) is set under the witness when x_i or s(i-1, 1) is. */
  lemma WitnessFirstColumn(a: Assignment, xs: seq<Literal>, k: int, start: int, i: int)
    requires 0 < k < |xs|
    requires 2 <= i <= |xs|
    ensures var w := CounterWitness(a, xs, k, start);
            && (LitTrue(a, xs[i - 1]) ==> w(Aux(start, k, i, 1)))
            && (w(Aux(start, k, i - 1, 1)) ==> w(Aux(start, k, i, 1)))
  {
    TrueCountStep(a, xs, i);
    WitnessAtRegister(a, xs, k, start, i, 1);
    WitnessAtRegister(a, xs, k, start, i - 1, 1);
  }

  /** Under the witness, s(i-1, k) and x_i are never both true when the
      whole input has at most k true positions. */
  lemma WitnessCutOff(a: Assignment, xs: seq<Literal>, k: int, start: int, i: int)
    requires 0 < k < |xs|
    requires TrueCount(a, xs) <= k
    requires 2 <= i <= |xs|
    ensures !(LitTrue(a, xs[i - 1]) && CounterWitness(a, xs, k, start)(Aux(start, k, i - 1, k)))
  {
    var n := |xs|;
    TrueCountStep(a, xs, i);
    TrueCountPrefixMonotone(a, xs, i, n);
    assert xs[..n] == xs;
    WitnessAtRegister(a, xs, k, start, i - 1, k);
  }

  /** Row i holds under the witness when no prefix exceeds k. */
  lemma WitnessRowHolds(a: Assignment, xs: seq<Literal>, k: int, start: int, i: int)
    requires 0 < k < |xs|
    requires VarsBelow(xs, start)
    requires TrueCount(a, xs) <= k
    requires 2 <= i <= |xs|
    ensures RowHolds(CounterWitness(a, xs, k, start), xs, start, k, i)
  {
    var w := CounterWitness(a, xs, k, start);
    assert LitTrue(w, xs[i - 1]) == LitTrue(a, xs[i - 1]) by {
      WitnessAgrees(a, xs, k, start);
    }
    WitnessFirstColumn(a, xs, k, start, i);
    WitnessCutOff(a, xs, k, start, i);
    forall j | 2 <= j <= k
      ensures PairHolds(w, xs, start, k, i, j)
    {
      WitnessPairHolds(a, xs, k, start, i, j);
    }
  }

  lemma WitnessHeaderHolds(a: Assignment, xs: seq<Literal>, k: int, start: int)
    requires 0 < k < |xs|
    requires VarsBelow(xs, start)
    ensures HeaderHolds(CounterWitness(a, xs, k, start), xs, start, k)
  {
    var w := CounterWitness(a, xs, k, start);
    WitnessAgrees(a, xs, k, start);
    TrueCountStep(a, xs, 1);
    assert xs[..0] == [];
    WitnessAtRegister(a, xs, k, start, 1, 1);
    forall j | 2 <= j <= k
      ensures !w(Aux(start, k, 1, j))
    {
      WitnessAtRegister(a, xs, k, start, 1, j);
    }
  }

  /** With no true position at all, every single position is false. */
  lemma NoneTrueWhenZero(a: Assignment, xs: seq<Literal>, p: int)
    requires TrueCount(a, xs) == 0
    requires 0 <= p < |xs|
    ensures !LitTrue(a, xs[p])
  {
    TrueCountPrefixMonotone(a, xs, p + 1, |xs|);
    TrueCountStep(a, xs, p + 1);
    assert xs[..|xs|] == xs;
  }

  /** Any assignment with at most k true inputs extends, over the registers
      alone, to one that satisfies at_most_k_seq's clauses. */
  lemma AtMostKComplete(xs: seq<Literal>, k: int, start: int, a: Assignment)
    requires k >= 0
    requires VarsBelow(xs, start)
    requires TrueCount(a, xs) <= k
    ensures forall v :: v < start ==> CounterWitness(a, xs, k, start)(v) == a(v)
    ensures AgreeOn(CounterWitness(a, xs, k, start), a, xs)
    ensures Sat(CounterWitness(a, xs, k, start), AtMostK(xs, k, start).value.0)
  {
    var w := CounterWitness(a, xs, k, start);
    var n := |xs|;
    WitnessAgrees(a, xs, k, start);
    if n == 0 || k >= n {
    } else if k == 0 {
      var f := NegUnits(xs);
      forall c | c in f
        ensures ClauseSat(w, c)
      {
        var p :| 0 <= p < |f| && f[p] == c;
        NoneTrueWhenZero(a, xs, p);
        NegationFlips(w, xs[p]);
        ClauseSat1(w, -xs[p]);
      }
    } else {
      WitnessHeaderHolds(a, xs, k, start);
      forall i | 2 <= i <= n
        ensures RowHolds(w, xs, start, k, i)
      {
        WitnessRowHolds(a, xs, k, start, i);
      }
      CounterMeaning(w, xs, k, start);
    }
  }

  /** The sequential counter is exact: an assignment to the inputs can be
      extended over the registers to satisfy at_most_k_seq's clauses if and
      only if at most k of the inputs are true. */
  lemma AtMostKEquivalence(xs: seq<Literal>, k: int, start: int, a: Assignment)
    requires k >= 0
    requires VarsBelow(xs, start)
    ensures (exists a': Assignment :: AgreeOn(a', a, xs) && Sat(a', AtMostK(xs, k, start).value.0))
            <==> TrueCount(a, xs) <= k
  {
    var f := AtMostK(xs, k, start).value.0;
    if exists a': Assignment :: AgreeOn(a', a, xs) && Sat(a', f) {
      var a': Assignment :| AgreeOn(a', a, xs) && Sat(a', f);
      AtMostKSound(xs, k, start, a');
      TrueCountAgree(a', a, xs);
    }
    if TrueCount(a, xs) <= k {
      AtMostKComplete(xs, k, start, a);
    }
  }
}
