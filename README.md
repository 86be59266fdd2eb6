# Futoshiki constraint models and their propagators

This project models two parts of a constraint-satisfaction assignment. It
then proves properties of that model in Dafny.

- **The propagators** of a backtracking search (`csc384/A2/propagators.py`):
  - plain backtracking (`prop_BT`);
  - forward checking (`prop_FC`);
  - generalized arc consistency (`prop_GAC`);
  - the recursive support search `find_assignments`.

  Each propagator takes the network and the variable the search bound
  last, or none before any binding. It returns whether it found no dead end,
  and the list of (variable, value) pairs it pruned. The search needs that
  list to undo the pruning on backtrack.
- **The two Futoshiki models** (`csc384/A2/futoshiki_csp.py`). A board of n
  rows, each of 2n-1 entries. Cell numbers (0 for empty) alternate with the
  symbol between horizontal neighbours (`<`, `>` or `.`).
  - Model 1 gives every cell a variable, with binary not-equal constraints
    between every two cells of a row or a column. A row pair of neighbours
    also carries the inequality between them.
  - Model 2 gives every cell a variable, with one all-different constraint
    per row and per column, plus one binary constraint per inequality symbol.

  The module also holds the checks the satisfying tuples are filtered by
  (`checker`, `inequality_checker`, `all_diff_checker`).

Modules:

- `Csp` (csp.dfy): the objects the propagators work on.
  - `Domain` holds the full value list and the current values.
  - `Variable` holds a domain object and its binding.
  - `Constraint` holds a scope and an explicit table of satisfying tuples.
  - `Network` holds the variables and the constraints it has been given.
  - The value-level view the contracts are stated in:
    - `DomainMap`: variable to set of values.
    - `AssignmentMap`.
    - `Records`: a pruning list is an exact, duplicate-free account of going
      from one domain map to another.
    - `SupportedIn` and `GacIn`: support and arc consistency.
    - `FcRemoves`: the value forward checking must remove.
    - `IsSolution`.
- `Propagators` (propagators.dfy): the three propagators and the support
  search. They are written as methods that update the domain objects in
  place. Each method is proved against the value-level view.
- `Futoshiki` (futoshiki.dfy): board parsing and both model builders, as
  methods that allocate variables and constraints.
  - `Origin` and `ShapeFor` describe, per loop step, which cells a
    constraint joins and which tuples it holds.
  - `Model1Order` and `Model2Order` are the sequences of those descriptions
    in creation order. Lemmas count and characterise them.
- `Findings` (findings.dfy): a concrete network on which the forward checker
  as written misses a dead end (see "## Findings").

## Model

| member | source | states |
|---|---|---|
| Csp.Variable.Assign | csc384/A2/propagators.py:130 | binding an unbound variable sets its binding to the value |
| Csp.Variable.Unassign | csc384/A2/propagators.py:142-145 | unbinding leaves the variable without a binding |
| Csp.Constraint.NUnassigned | csc384/A2/propagators.py:119 | the count of unbound scope positions is zero exactly when every scope variable is bound |
| Csp.Domain.Prune | csc384/A2/propagators.py:202-204 | pruning removes exactly the value from the current domain and keeps it duplicate-free |
| Csp.Network.AddConstraint | csc384/A2/futoshiki_csp.py:151-152 | adding a constraint appends it to the network's list |
| Csp.Network.ConsWithVar | csc384/A2/propagators.py:72 | the constraints listed are exactly those of the network that mention the variable, without duplicates |
| Csp.NUnassignedAgrees | csc384/A2/propagators.py:119 | the count of unbound scope positions agrees with the assignment snapshot |
| Csp.RecordsCompose | csc384/A2/propagators.py:32-38 | two successive pruning records join into one record of the whole change, so no value is ever recorded twice |
| Csp.RestoreUndoes | csc384/A2/propagators.py:32-35 | putting back every recorded pair restores exactly the domains the propagator started from |
| Csp.RecordedLoss | csc384/A2/propagators.py:202-204 | a non-empty record means some domain lost a value |
| Csp.GacScope | csc384/A2/propagators.py:193-216 | whether a constraint is arc consistent depends only on the domains of its scope |
| Csp.SolutionSupports | csc384/A2/propagators.py:199-203 | every value a solution uses has a support in every constraint, so pruning unsupported values is sound |
| Csp.SolutionKept | csc384/A2/propagators.py:199-204 | pruning values without a support in some constraint keeps every solution |
| Csp.EmptyNoSolution | csc384/A2/propagators.py:206-207 | an empty domain admits no solution, so the dead-end report is sound |
| Csp.TotalSizeShrinks | csc384/A2/propagators.py:193-214 | shrinking domains never increases the total domain size |
| Csp.TotalSizeDecreases | csc384/A2/propagators.py:193-214 | losing one value of one variable strictly decreases the total domain size, which bounds the re-queueing of the GAC loop |
| Propagators.Scheduled | csc384/A2/propagators.py:112-115 | the starting constraints are network constraints; with a new variable, every constraint on it is among them; no duplicates |
| Propagators.BoundTuple | csc384/A2/propagators.py:74-77 | the tuple holds, position by position, the values the scope is bound to |
| Propagators.PropBT | csc384/A2/propagators.py:66-80 | prunes nothing; succeeds without a new variable; otherwise succeeds exactly when no fully bound constraint on the new variable is violated |
| Propagators.SoleUnassigned | csc384/A2/propagators.py:120-126 | finds the one unbound variable of a constraint with one unbound position |
| Propagators.FcTry | csc384/A2/propagators.py:128-145 | one value: pruned exactly when it is live and binding it violates the constraint; reports a wipe-out only when asked to, the value goes and the domain is empty; the variable ends unbound |
| Propagators.FcRevise | csc384/A2/propagators.py:128-145 | all values of the unbound variable: the pairs recorded are exactly the removed values, each one forward checking must remove; with no wipe-out none of those is left |
| Propagators.FcConstraint | csc384/A2/propagators.py:118-145 | one constraint: bindings unchanged, domains change as the forward-checking step of that constraint prescribes |
| Propagators.FcLoop | csc384/A2/propagators.py:118-147 | the loop over the scheduled constraints: an exact record, bindings unchanged, every pair one forward checking must remove, complete on success, a failure only with the wipe-out test and then at an emptied domain |
| Propagators.ForwardCheck | csc384/A2/propagators.py:112-147 | with or without the wipe-out test: an exact record; every pair is one forward checking must remove; on success no value that must go is left; a failure points at an emptied domain |
| Propagators.PropFC | csc384/A2/propagators.py:82-147 | corrected forward checking: exact record, only required removals, complete on success, no emptied domain on success, and a failure names a variable whose domain is empty |
| Propagators.PropFCAsWritten | csc384/A2/propagators.py:82-147 | forward checking as written: exact record, complete, and it always reports success |
| Propagators.Enqueue | csc384/A2/propagators.py:212-214 | the queue keeps its order and gains, without duplicates, every given constraint not already queued |
| Propagators.PruneToBinding | csc384/A2/propagators.py:184-190 | the new variable's domain keeps only its bound value; the pairs recorded are exactly the other values, in domain order |
| Propagators.GacTry | csc384/A2/propagators.py:197-214 | one value: pruned exactly when it is live and unsupported; a wipe-out exactly when it is unsupported and the domain is empty; otherwise every constraint on the variable is queued |
| Propagators.ReviseVar | csc384/A2/propagators.py:196-214 | one scope variable: removes exactly unsupported values; a wipe-out exactly when the last value goes; with no wipe-out every remaining value is supported, a variable that lost values keeps some, and the affected constraints are queued |
| Propagators.Revise | csc384/A2/propagators.py:194-214 | one constraint: exact record of prunes of scope variables; every solution survives; a wipe-out empties a domain; without a wipe-out every pruned variable keeps a value; without prunes the constraint is arc consistent |
| Propagators.ReviseScope | csc384/A2/propagators.py:196-214 | the loop over the scope of one constraint: the same promises as Revise, from the domains it starts with |
| Propagators.ReviseAt | csc384/A2/propagators.py:196-214 | one scope position: extends the record with prunes of that variable only, keeps every solution, and a wipe-out leaves that variable's domain empty |
| Propagators.NoneEmptiedStep | csc384/A2/propagators.py:202-207 | prunes that left every touched variable a value, followed by more of the same kind, still leave every touched variable a value |
| Propagators.GacStart | csc384/A2/propagators.py:178-190 | the queue starts as all constraints, or those on the new variable, whose domain is cut to its binding; the pairs recorded are exactly the cut values |
| Propagators.GacRound | csc384/A2/propagators.py:193-214 | one round of the loop: revises the head of the queue, keeps every solution that agrees with the binding, extends the record, and on success leaves every variable pruned since the start a value and either shrinks the domains or shortens the queue |
| Propagators.DeadEnd | csc384/A2/propagators.py:205-207 | once a domain is empty, no solution of the starting domains agrees with the new binding |
| Propagators.GacLoop | csc384/A2/propagators.py:193-216 | the loop: exact record extending the start's; keeps the solutions; a failure names an empty domain; on success every variable pruned in the loop keeps a value and every constraint is arc consistent or untouched |
| Propagators.PropGAC | csc384/A2/propagators.py:155-216 | exact record, starting with the prunes that cut the new variable to its binding; every solution that agrees with the new binding survives; the new variable keeps at most its bound value; a failure names an empty domain and means no solution agrees with the binding; on success every variable pruned after the start keeps a value and every constraint is arc consistent or was never scheduled and is untouched on its scope |
| Propagators.FindAssignments | csc384/A2/propagators.py:221-245 | succeeds exactly when the partial tuple extends to a satisfying tuple with the given value where the variable stands; on failure the list is as on entry; on success it holds the completed tuple minus one entry per position of the variable |
| Propagators.TryBound | csc384/A2/propagators.py:228-235 | at a position of the variable itself: succeeds exactly when the list extended with the value completes; on failure the list is as on entry |
| Propagators.TryDomain | csc384/A2/propagators.py:237-245 | the loop over the current domain of one position succeeds exactly when some value of it extends to a satisfying tuple |
| Propagators.SearchIsSupport | csc384/A2/propagators.py:219-221 | the search from the empty list over the whole scope succeeds exactly when the value has a support in the constraint |
| Futoshiki.InequalityChecker | csc384/A2/futoshiki_csp.py:311-320 | '<' holds exactly when val1 < val2, '>' exactly when val1 > val2, any other symbol always |
| Futoshiki.InequalityMirror | csc384/A2/futoshiki_csp.py:311-320 | a < b is b > a, and either comparison forces different values |
| Futoshiki.Checker | csc384/A2/futoshiki_csp.py:302-309 | the values differ, and for horizontal neighbours the symbol between them also holds |
| Futoshiki.CheckerNeighbours | csc384/A2/futoshiki_csp.py:302-309 | for neighbours with a comparison symbol, checker agrees with the bare inequality check |
| Futoshiki.AllDiffChecker | csc384/A2/futoshiki_csp.py:322-328 | true exactly when the first len(vars) values are pairwise different |
| Futoshiki.ProductMembers | csc384/A2/futoshiki_csp.py:127 | a tuple is in the product of the domains exactly when it has one value of each domain, position by position |
| Futoshiki.FilterMembers | csc384/A2/futoshiki_csp.py:127-129 | filtering keeps exactly the tuples that pass the check |
| Futoshiki.FilteredProduct | csc384/A2/futoshiki_csp.py:126-131 | the satisfying tuples are exactly the tuples of the product that pass the check |
| Futoshiki.SatisfyingTuples | csc384/A2/futoshiki_csp.py:126-131 | the tuples collected are the product of the domains filtered by the check, in product order |
| Futoshiki.AllDiffTuples | csc384/A2/futoshiki_csp.py:275-278 | the tuples collected are the product filtered by pairwise difference |
| Futoshiki.DefaultDomain | csc384/A2/futoshiki_csp.py:90-93 | the default domain is [1, ..., n] |
| Futoshiki.OneToValues | csc384/A2/futoshiki_csp.py:90-93 | [1, ..., n] is duplicate-free and holds exactly the numbers 1 to n |
| Futoshiki.CellDomainValues | csc384/A2/futoshiki_csp.py:99-105 | an empty cell may take exactly 1 to n, a preset cell exactly its number |
| Futoshiki.BoardRow | csc384/A2/futoshiki_csp.py:96-115 | one row: n fresh unbound variables with the cell domains and separate domain objects, and the n-1 symbols of the row |
| Futoshiki.BoardVariables | csc384/A2/futoshiki_csp.py:95-115 | the n by n grid of fresh unbound variables with the cell domains, the flat list is the grid row by row, and the symbol rows |
| Futoshiki.FlattenIndex | csc384/A2/futoshiki_csp.py:107-110 | cell (i, j) is the entry i * n + j of the flat variable list |
| Futoshiki.RowPairTuples | csc384/A2/futoshiki_csp.py:122-132 | a model-1 row constraint holds exactly the pairs of starting values that differ and, for neighbours, obey the symbol |
| Futoshiki.ColPairTuples | csc384/A2/futoshiki_csp.py:134-145 | a model-1 column constraint holds exactly the pairs of starting values that differ |
| Futoshiki.NeighbourTuples | csc384/A2/futoshiki_csp.py:255-269 | a model-2 inequality constraint holds exactly the pairs of starting values that obey the symbol |
| Futoshiki.RowAllTuples | csc384/A2/futoshiki_csp.py:273-281 | a row all-different constraint holds exactly the tuples of starting values of the row that are pairwise different |
| Futoshiki.ColAllTuples | csc384/A2/futoshiki_csp.py:283-291 | a column all-different constraint holds exactly the tuples of starting values of the column that are pairwise different |
| Futoshiki.PairsUpToFacts | csc384/A2/futoshiki_csp.py:120-121 | the innermost loop of model 1 yields each pair (j, x) with x > j once |
| Futoshiki.RowsUpToCount | csc384/A2/futoshiki_csp.py:120-121 | the first i rows of model 1 yield i * n * (n - 1) constraints |
| Futoshiki.Model1Exactly | csc384/A2/futoshiki_csp.py:118-147 | model 1 has one row constraint and one column constraint per pair of cells in a line, each once, n * n * (n - 1) in all |
| Futoshiki.RowPairConstraint | csc384/A2/futoshiki_csp.py:122-132 | builds the model-1 row constraint of cells (i, j) and (i, x) |
| Futoshiki.ColPairConstraint | csc384/A2/futoshiki_csp.py:134-145 | builds the model-1 column constraint of cells (j, i) and (x, i) |
| Futoshiki.AddPair | csc384/A2/futoshiki_csp.py:122-145 | one step of the innermost loop appends the row and the column constraint of the pair |
| Futoshiki.PairsLoop | csc384/A2/futoshiki_csp.py:121-145 | the innermost loop appends the constraints of every pair (j, x) with x > j |
| Futoshiki.CellsLoop | csc384/A2/futoshiki_csp.py:120-145 | the middle loop appends the constraints of every pair of row/column i |
| Futoshiki.Model1Constraints | csc384/A2/futoshiki_csp.py:118-147 | the constraints are, in creation order, those Model1Order describes |
| Futoshiki.MakeNetwork | csc384/A2/futoshiki_csp.py:149-152 | the network holds the variables and then every constraint, in order |
| Futoshiki.NetworkValid | csc384/A2/futoshiki_csp.py:149-152 | the network built from the grid satisfies the shape the propagators rely on |
| Futoshiki.Model1 | csc384/A2/futoshiki_csp.py:11-154 | model 1: the grid of fresh unbound variables over the cell domains and constraints exactly as Model1Order describes, forming a valid network |
| Futoshiki.IneqUpToMember | csc384/A2/futoshiki_csp.py:255-260 | the first j steps of a model-2 row yield an inequality constraint exactly for each symbol other than '.' before column j |
| Futoshiki.IneqUpToDistinct | csc384/A2/futoshiki_csp.py:255-260 | no inequality constraint of a row is made twice |
| Futoshiki.RowOrderMember | csc384/A2/futoshiki_csp.py:237-291 | one outer step yields exactly the model-2 constraints of its row index |
| Futoshiki.RowOrderDistinct | csc384/A2/futoshiki_csp.py:237-291 | one outer step yields no constraint twice |
| Futoshiki.Model2RowsUpToMember | csc384/A2/futoshiki_csp.py:237-291 | the first i outer steps yield exactly the model-2 constraints of row indices below i |
| Futoshiki.RowsApart | csc384/A2/futoshiki_csp.py:237-291 | an outer step yields no constraint an earlier step did |
| Futoshiki.Model2RowsUpToDistinct | csc384/A2/futoshiki_csp.py:237-291 | the first i outer steps yield no constraint twice |
| Futoshiki.Model2Exactly | csc384/A2/futoshiki_csp.py:188-197 | model 2 has exactly one all-different constraint per row and per column and one inequality constraint per symbol other than '.', each once |
| Futoshiki.NeighbourConstraint | csc384/A2/futoshiki_csp.py:260-269 | builds the inequality constraint between cell (i, j) and its right neighbour |
| Futoshiki.IneqStep | csc384/A2/futoshiki_csp.py:255-269 | one inner step adds an inequality constraint exactly when the cell has a right neighbour and a symbol other than '.' |
| Futoshiki.CellPair | csc384/A2/futoshiki_csp.py:246-250 | reads the current domains of cell (i, j) and of cell (j, i) |
| Futoshiki.ScanCell | csc384/A2/futoshiki_csp.py:243-269 | one inner step extends the row and column lists by one cell and adds the step's inequality constraint |
| Futoshiki.Model2Scan | csc384/A2/futoshiki_csp.py:243-269 | the inner loop collects the row's domains and the column's variables and domains, and the row's inequality constraints |
| Futoshiki.AllDiffConstraint | csc384/A2/futoshiki_csp.py:273-281 | the all-different constraint over a scope holds the product filtered by pairwise difference |
| Futoshiki.AllDiffPair | csc384/A2/futoshiki_csp.py:273-291 | builds the row and the column all-different constraint of index i |
| Futoshiki.Model2Row | csc384/A2/futoshiki_csp.py:243-291 | one outer step appends the constraints RowOrder describes |
| Futoshiki.Model2Constraints | csc384/A2/futoshiki_csp.py:237-291 | the constraints are, in creation order, those Model2Order describes |
| Futoshiki.Model2 | csc384/A2/futoshiki_csp.py:161-298 | model 2: the grid of fresh unbound variables over the cell domains and constraints exactly as Model2Order describes, forming a valid network |
| Findings.WipeoutNetwork | csc384/A2/propagators.py:118-141 | builds the two-variable network on which forward checking must empty a domain |
| Findings.WipeoutForced | csc384/A2/propagators.py:128-139 | on that network forward checking must remove the last value of the unbound variable |
| Findings.WipedOut | csc384/A2/propagators.py:141-143 | a forward check that is complete on that network leaves the variable no value |
| Findings.FcAsWrittenMissesWipeout | csc384/A2/propagators.py:141-143 | the propagator as written reports success although it emptied a domain |
| Findings.FcReportsWipeout | csc384/A2/propagators.py:141-143 | the corrected propagator reports the dead end on the same network |

## Left out

- The support library the propagators call (variables, constraints, the
  network object, `has_support`, `check`, `get_n_unasgn`) is not part of this
  model. Module `Csp` stands in for it. A constraint is its scope plus its
  table of satisfying tuples (`add_satisfying_tuples` happens at
  construction). `check` is table membership and `has_support` is defined
  over the table. Names of variables, constraints and the network are left
  out.
- `cur_domain()` is read as the current live values, whether or not the
  variable is bound. Each loop over it iterates over a snapshot taken at
  the start of the loop, so pruning inside the loop does not skip values.
- The search driver (`bt_search`), which calls the propagators and restores
  pruned values, is not part of this model. `Csp.RestoreUndoes` states the
  property it relies on.
- The GAC queue (a `deque`) and `itertools.product` are modelled as
  sequences with the same order. Tuples are sequences.
- Each variable gets its own domain object. In the source every empty cell
  passes the same `dom` list to the variable constructor. Whether the support
  library copies that list is not visible, so any sharing it leads to is not
  modelled.
- Futoshiki.BoardVariables: requires a well-formed board (n rows of 2n-1
  entries, numbers at even positions), as the docstring and the shared input
  format promise. The source takes the row length from row 0 and would fail or
  misread other boards. The same requirement sits on every model builder.
- Futoshiki.AllDiffChecker: requires at least as many values as variables,
  which both call sites (futoshiki_csp.py:277 and 287) meet by passing one
  value per scope variable. On a shorter list the source's short-circuit
  `and` at line 326 decides what happens: it may stop with an index error, or
  return a result without reading the missing values (one variable and no
  values gives True; three variables and the values [1, 1] give False). The
  model does not cover these inputs.
- Propagators.FindAssignments: requires every non-target position in the
  range to have a non-empty current domain. The source's return at line 245
  reads `res` unassigned when the loop over an empty domain never runs.
- Propagators.FindAssignments: the list is passed and returned by value
  rather than mutated in place. The model's result is the list's final
  contents.
- Model 2's docstring says a preset cell has the domain `[n]`. The code gives
  it the preset number. The model follows the code.
- Text formatting of names ("V{}{}", "C(...)") and the returned name of the
  network are not modelled.

## Findings

| source | as written | input that shows it | evidently intended | confidence | as-written member | corrected member |
|---|---|---|---|---|---|---|
| csc384/A2/propagators.py:141 | `unassigned_var.cur_domain_size == 0` compares the method object, not its result, with 0, so forward checking never reports a dead end | x bound to 1, y with domain [1], one constraint on (x, y) with no satisfying tuple: the only value of y is pruned and `prop_FC` returns True | call `cur_domain_size()` and return False with the pruned list once the domain is empty | not executed | Propagators.PropFCAsWritten, Findings.FcAsWrittenMissesWipeout | Propagators.PropFC, Findings.FcReportsWipeout |
