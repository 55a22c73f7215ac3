# Set cover to CNF: a Dafny model of `Setcover.py`

`Setcover.py` answers "is there a set cover of size at most k?" by reducing
the question to propositional satisfiability. It works in three steps:

- Decision variable `j` (1..nr_sets) means "set j is chosen".
- Every universe element `e` gets one coverage clause listing the sets that
  contain it.
- A sequential counter (Sinz's encoding, `at_most_k_seq`) limits the chosen
  sets to at most k. It uses an n-by-k grid of auxiliary "register"
  variables `s(i, j)`, read as "at least j of the first i inputs are true".

After an external SAT solver answers, `print_result` decodes the model:

- It drops one `0`.
- It maps each variable to the sign of its literal.
- It lists the chosen sets, their union, and the elements still missing.

This project models those three pieces in Dafny and proves:

- The counter means exactly "at most k".
- The reduction is exact.
- Decoding a satisfying assignment yields a valid cover.

Modules, one file each:

- `Results` (`results.dfy`): the `Result` type and its two errors.
  - `InvalidBound(k)` stands for the `ValueError` on a negative bound.
  - `SetIndexOutOfRange` stands for the `IndexError` the decoder hits when a
    chosen index has no set.
- `Cnf` (`cnf.dfy`): literals, clauses, formulas, total assignments
  `int -> bool`, satisfaction, and `TrueCount`, the number of true literals
  in a list.
  - The `0` that ends every clause in the exchange format is a serialization
    detail. Clauses here hold only the non-zero literals.
- `SeqCounter` (`seq_counter.dfy`): `at_most_k_seq`.
  - `AtMostK` is the functional definition.
  - `AtMostKSeq` mirrors the program's loops and its register table.
  - The module also holds the lemmas about the register grid, literal
    ranges, soundness and completeness.
- `Encoding` (`encoding.dfy`): the `Instance` value (universe size, declared
  set count, k, member lists) and `encode`, with the reduction lemmas.
- `Decoding` (`decoding.dfy`): the decoding half of `print_result`, with
  lemmas tying it back to the encoding.

The counter's register id `s(i, j)` is defined by recursion on the row
(`Aux`). Its closed form `start + (i-1)*k + (j-1)` is proved as a lemma.
This keeps non-linear arithmetic out of most proofs.

The meaning of the counter clauses is stated as plain implications
(`HeaderHolds`, `RowHolds`) and proved equivalent to their satisfaction.

- Soundness follows by induction along the inputs: register `s(i, j)` is
  forced true once `j` of the first `i` inputs are true.
- Completeness uses an explicit witness: register `s(i, j)` is set to
  "at least j of the first i inputs are true".

## Model

| member | source | states |
|---|---|---|
| SeqCounter.Aux | Setcover.py:75-79 | The register id of cell (i, j): row 1 starts at start, and each row starts k ids after the previous one. The closed form is proved in AuxClosedForm. |
| SeqCounter.NegUnits | Setcover.py:66-69 | The k = 0 clauses: exactly one clause per input, and the clause at position p is the unit `[-x_p]`. |
| SeqCounter.FirstUnits | Setcover.py:83-84 | The unit clauses `[-s(1,j)]` for j = 2..k, in order. FirstUnitsCount proves there are k-1 of them. FirstUnitsMeaning proves they hold iff s(1,2..k) are all false. |
| SeqCounter.Header | Setcover.py:81-84 | The clauses of position 1: `[-x_1, s(1,1)]` followed by FirstUnits. HeaderCount proves k clauses. |
| SeqCounter.RowPairs | Setcover.py:91-93 | For row i and j' = 2..j, in order, the carry clause `[-x_i, -s(i-1,j'-1), s(i,j')]` and then the keep clause `[-s(i-1,j'), s(i,j')]`. RowPairsCount proves there are 2(j-1) of them. RowPairsMeaning gives their meaning. |
| SeqCounter.Row | Setcover.py:87-95 | The clauses of row i >= 2 in emission order: `[-x_i, s(i,1)]`, `[-s(i-1,1), s(i,1)]`, the RowPairs up to k, and `[-x_i, -s(i-1,k)]`. RowCount proves 2k+1 clauses. RowMeaning proves they hold iff RowHolds. |
| SeqCounter.Rows | Setcover.py:86-95 | The rows 2..i, concatenated in order. RowsCount proves (i-1)(2k+1) clauses. |
| SeqCounter.CounterClauses | Setcover.py:81-95 | The general-case formula: Header followed by Rows up to n. CounterMeaning relates it to the counter's implications. |
| SeqCounter.FirstUnitsCount | Setcover.py:83-84 | The j = 2..k loop emits exactly k-1 unit clauses. |
| SeqCounter.HeaderCount | Setcover.py:81-84 | Position 1 contributes exactly k clauses. |
| SeqCounter.RowPairsCount | Setcover.py:91-93 | The inner loop of row i emits exactly 2(k-1) clauses. |
| SeqCounter.RowCount | Setcover.py:87-95 | Each row i >= 2 contributes exactly 2k+1 clauses. |
| SeqCounter.RowsCount | Setcover.py:86-95 | Rows 2..i contribute exactly (i-1)(2k+1) clauses. |
| SeqCounter.CounterClauseCount | Setcover.py:81-95 | In the general case the counter emits exactly k + (n-1)(2k+1) clauses. |
| SeqCounter.AtMostK | Setcover.py:50-97 | A negative k is rejected with InvalidBound(k) and never clamped. For n = 0 and for k >= n the result has no clauses. For k = 0 it has exactly one unit clause `[-x_i]` per input, in order. In all three edge cases the returned last id is start-1, so no fresh variable is consumed. Otherwise the last id is start+n*k-1. |
| SeqCounter.AtMostKSeq | Setcover.py:50-97 | The program's imperative procedure (register map filled row by row, clauses appended in loop order) returns exactly the functional definition AtMostK, on every input, error case included. |
| SeqCounter.RegisterTable | Setcover.py:75-79 | The double loop's table has exactly the n*k grid cells (i, j) as keys. Each id is the one the row-major numbering from start prescribes. next_var ends at start+n*k. |
| SeqCounter.NegUnitLoop | Setcover.py:66-69 | The k = 0 loop emits one negated unit clause per input variable, in input order. |
| SeqCounter.HeaderLoop | Setcover.py:81-84 | The clauses for position 1, read from the table: `[-x_1, s(1,1)]`, then `[-s(1,j)]` for j = 2..k. |
| SeqCounter.PairLoop | Setcover.py:91-93 | For one row i, the inner loop emits, for j = 2..k, the carry clause `[-x_i, -s(i-1,j-1), s(i,j)]` and the keep clause `[-s(i-1,j), s(i,j)]`. |
| SeqCounter.RowClauses | Setcover.py:86-95 | The clauses of row i, in order: the first-column clauses, the carry/keep pairs, and the overflow clause `[-x_i, -s(i-1,k)]`. |
| SeqCounter.RowLoop | Setcover.py:86-95 | The outer loop concatenates the rows i = 2..n in order. |
| SeqCounter.AuxClosedForm | Setcover.py:75-79 | The id handed to cell (i, j) is start + (i-1)*k + (j-1). |
| SeqCounter.AuxDecode | Setcover.py:75-79 | The numbering is invertible: (id-start) div k = i-1 and (id-start) mod k = j-1. |
| SeqCounter.AuxGridIsIdBlock | Setcover.py:75-79 | The grid's ids are exactly the block start..start+n*k-1, and distinct cells get distinct ids. |
| SeqCounter.AtMostKLiteralsWithin | Setcover.py:62-97 | Every emitted literal is either the negation of an input variable or a literal over an auxiliary id in [start, returned last id]. |
| SeqCounter.CounterMeaning | Setcover.py:81-95 | An assignment satisfies the counter clauses iff position 1 sets s(1,1) when x_1 holds and leaves s(1,j>1) false, and every later row propagates (x_i implies s(i,1), s(i-1,j) implies s(i,j), x_i and s(i-1,j-1) imply s(i,j)) and never overflows (not both x_i and s(i-1,k)). |
| SeqCounter.CounterTracks | Setcover.py:81-95 | Under the clauses, at most k of the first i inputs are true, and s(i,j) is true whenever at least j of them are. |
| SeqCounter.NegUnitsForceFalse | Setcover.py:66-69 | Satisfying the k = 0 unit clauses makes no input true. |
| SeqCounter.AtMostKSound | Setcover.py:59-97 | Any assignment satisfying the emitted clauses makes at most k inputs true. |
| SeqCounter.AtMostKComplete | Setcover.py:59-97 | If at most k inputs are true, the counter witness satisfies the emitted clauses and agrees with the assignment below start. |
| SeqCounter.AtMostKEquivalence | Setcover.py:50-97 | An assignment of the inputs extends over the auxiliary variables to satisfy the clauses iff at most k inputs are true. |
| Encoding.DecisionVars | Setcover.py:109 | `list(range(1, nr_sets + 1))`: max(nr_sets, 0) variables, with position p holding p+1. |
| Encoding.CoverageClauses | Setcover.py:112-118 | One clause per element 1..m, in order (none when m <= 0). Clause e-1 is the coverage clause of element e. |
| Encoding.CoverClause | Setcover.py:112-118 | The coverage clause of element e contains v iff set v (1-based) contains e. Its entries are in strictly ascending order and lie in 1..len(sets). It is empty iff no set contains e. |
| Encoding.Encode | Setcover.py:100-125 | A negative k fails with InvalidBound(k). Otherwise the formula starts with one coverage clause per element 1..nr_elements, in order, and continues with the counter clauses over 1..nr_sets with first fresh id nr_sets+1. The variable count is nr_sets, plus nr_sets*k only when 0 < k < nr_sets. |
| Encoding.EncodeVarCountCoversSets | Setcover.py:109-123 | The returned variable count is never below nr_sets. |
| Encoding.EncodeWellFormed | Setcover.py:109-123 | When the set list has at most nr_sets entries, every literal's variable lies in [1, nr_vars], as the DIMACS header requires. |
| Encoding.SetCountMismatchEscapesVarCount | Setcover.py:109-118 | With more sets than declared, a coverage literal can fall outside [1, nr_vars]. One undeclared set covering element 1 gives clause [1] under a count of 0. |
| Encoding.CoverageMeaning | Setcover.py:112-118 | An assignment satisfies the coverage clauses iff every element 1..nr_elements lies in some set whose decision variable is true. |
| Encoding.CoversAgree | Setcover.py:112-118 | Whether an assignment covers the universe depends only on the decision variables 1..nr_sets. |
| Encoding.EncodeSound | Setcover.py:100-125 | Every assignment satisfying encode's formula chooses at most k sets and covers the universe. |
| Encoding.EncodeComplete | Setcover.py:100-125 | A choice of at most k sets that covers the universe extends to an assignment satisfying the formula, unchanged on the decision variables. |
| Encoding.EncodeExact | Setcover.py:100-125 | A choice of sets extends to a satisfying assignment iff it picks at most k sets and covers the universe. |
| Encoding.UncoverableElementUnsat | Setcover.py:112-118 | An element that no set contains gets an empty clause, so the formula is unsatisfiable for every k. |
| Encoding.ZeroBoundNonEmptyUniverseUnsat | Setcover.py:66-69 | With k = 0 and a non-empty universe the formula is unsatisfiable. |
| Encoding.SmallInstanceSatisfiable | Setcover.py:100-125 | Universe {1,2,3}, sets {1,2}, {2,3}, {3} and k = 2 give a satisfiable formula. |
| Decoding.RemoveFirst | Setcover.py:169-170 | Dropping 0 leaves a list without 0 unchanged. Otherwise the result is one element shorter. |
| Decoding.FirstIndex | Setcover.py:169-170 | The position found holds x, and no earlier position does. |
| Decoding.RemoveFirstAt | Setcover.py:169-170 | `remove` deletes exactly the first occurrence, keeping everything before and after it in order. |
| Decoding.ModelOf | Setcover.py:172-175 | The model's keys are exactly the variables of the literals. |
| Decoding.ModelOfSnoc | Setcover.py:173-175 | One more literal sets its own variable to its sign and leaves every other variable's value as it was. |
| Decoding.ModelOfLastWins | Setcover.py:172-175 | The value of a variable is the sign of the last literal on it: a later literal overrides an earlier one. |
| Decoding.ModelAfterRemoval | Setcover.py:169-175 | Removing the first 0 before building the model changes the value of no variable id, 0 included. |
| Decoding.ZeroNeverTrue | Setcover.py:172-175 | Only the literal 0 has variable 0, so the model never maps key 0 to true. |
| Decoding.TrueIn | Setcover.py:179 | `model.get(j, False)`: true iff j is a key of the model and maps to true. A variable the solver did not report counts as false. |
| Decoding.AssignmentOf | Setcover.py:179 | The model read as a total assignment: variable v is true iff `model.get(v, False)` is. |
| Decoding.Chosen | Setcover.py:177-180 | j is chosen iff 1 <= j <= nr_sets and the model maps j to true, a missing key counting as false. The list is strictly ascending. |
| Decoding.Members | Setcover.py:185-187 | The set of a member list holds exactly its elements. |
| Decoding.Covered | Setcover.py:185-187 | An element is covered iff some chosen set's member list contains it. |
| Decoding.Missing | Setcover.py:191 | An element is missing iff it lies in 1..nr_elements and is not covered. |
| Decoding.Decode | Setcover.py:169-195 | Decoding fails with SetIndexOutOfRange iff some true variable j has len(sets) < j <= nr_sets. On success the chosen list is exactly the true j in 1..nr_sets, in ascending order. covered is exactly the set of elements covered by a chosen set. missing is 1..nr_elements minus covered. |
| Decoding.ChosenIgnoresZero | Setcover.py:169-180 | Removing the first 0 does not change the list of chosen sets. |
| Decoding.OutOfRangeMeaning | Setcover.py:185-187 | Some chosen index is beyond the set list iff some true variable lies between len(sets)+1 and nr_sets. |
| Decoding.CoveredMeaning | Setcover.py:185-187 | The union of the chosen sets is exactly the set of elements covered by a set whose decision variable is true. |
| Decoding.ChosenCount | Setcover.py:177-180 | The number of chosen sets equals the number of true decision variables, the quantity the cardinality constraint bounds. |
| Decoding.DecodeSatisfyingModel | Setcover.py:169-195 | When the decoded model satisfies encode's formula (set list of the declared length, k >= 0), decoding succeeds, at most k sets are chosen, and nothing is missing. |
| Decoding.SetCountShortfallBreaksDecode | Setcover.py:177-187 | With fewer sets than declared the model can satisfy the formula and still make decoding fail. Instance(1, 2, 2, [[1]]) encodes to [[1]], because k >= n gives no counter clauses. The model 1, 2, 0 satisfies that formula. It chooses set 2, and SETS[1] does not exist, so Decode fails with SetIndexOutOfRange. |
| Decoding.SetCountExcessBreaksDecode | Setcover.py:177-191 | With more sets than declared the model can satisfy the formula and the report can still miss an element. Instance(1, 0, 0, [[1]]) encodes to [[1]], a clause over no decision variable. The model 1, 0 satisfies it. Nothing is chosen, so Decode succeeds with element 1 missing. |
| Decoding.DecodeNoDeclaredSets | Setcover.py:177-191 | With nr_sets <= 0 decoding always succeeds, chooses nothing whatever the model says, and reports every element 1..nr_elements missing. |
| Decoding.ModelLineRoundTrip | Setcover.py:172-175 | Reading back the literals printed for variables 1..n under an assignment gives that assignment, with or without the terminating 0. |
| Decoding.DecodeSolverAnswer | Setcover.py:169-195 | For any satisfying assignment, its model line plus the terminating 0 decodes successfully. The chosen sets are exactly those the assignment picks: at most k of them, with nothing missing. |
| Cnf.SatConcat | Setcover.py:121-122 | The formula made by appending the counter clauses to the coverage clauses is satisfied iff both parts are. |

## Left out

- `load_instance` (Setcover.py:11-47) reads the instance file and parses tokens with `int()`. It is file I/O. The instance is passed to the model as a value.
  - The loader only warns when the number of set lines differs from the declared count (Setcover.py:43-44). The encoder is still modelled on such instances; see the next item.
- Encoding.EncodeWellFormed requires `|sets| <= nr_sets`. With more sets than declared the claim can fail, and Encoding.SetCountMismatchEscapesVarCount exhibits a counterexample.
- Encoding.CoverageMeaning, Encoding.EncodeSound, Encoding.EncodeComplete, Encoding.EncodeExact and Encoding.ZeroBoundNonEmptyUniverseUnsat also require `|sets| <= nr_sets`. With more sets than declared, a coverage literal for set j > nr_sets names no decision variable. It can lie beyond nr_vars, or, when 0 < k < nr_sets, it can name a counter register. Either way the clauses then mean something else.
- Decoding.DecodeSatisfyingModel and Decoding.DecodeSolverAnswer require `|sets| == nr_sets` and k >= 0.
  - More sets than declared fails for the reason above. A literal j > nr_sets may satisfy a coverage clause, but the decoder never reads it, so the element is reported missing. This happens even when n = 0 and there are no counter registers. Decoding.SetCountExcessBreaksDecode exhibits such a model.
  - Fewer sets than declared fails for a different reason. The decision variables `|sets|+1..nr_sets` then occur in no coverage clause, so a satisfying model may set them true. `print_result` then indexes past the set list (Setcover.py:186-187). Decoding.SetCountShortfallBreaksDecode exhibits such a model.
  - A negative k never reaches the solver.
- SeqCounter.AtMostKSound, SeqCounter.AtMostKComplete and SeqCounter.AtMostKEquivalence require every input variable to be non-zero and below the first fresh id. This holds for the only caller, which passes 1..nr_sets with fresh ids from nr_sets+1.
- `call_solver` (Setcover.py:128-141) writes the DIMACS file and runs an external SAT solver. That is I/O and a foreign process.
  - The solver is a parameter: its answer is an assignment, or the literal list it prints.
  - The clause-terminating `0` belongs to the file format and is not part of a clause here.
- The text side of `print_result` is left out:
  - echoing the solver output (Setcover.py:151-152);
  - the return codes 10 and 20 (Setcover.py:154-160);
  - collecting the literals of `v` lines (Setcover.py:162-167);
  - every `print` and the sorting for display (Setcover.py:182-183, 189, 192-195).
  - Decoding starts from the integer literal list. The report holds the chosen list and the covered and missing sets.
- Decoding.Decode: Python prints the chosen list before the `IndexError` stops `print_result` part way through. The model returns only the failure.
- The command-line driver (Setcover.py:198-250) and the module-level globals (Setcover.py:4-8) are left out. The globals become the explicit `Instance` argument.
- Python integers are unbounded, and so are Dafny's `int`s. No width is modelled.
