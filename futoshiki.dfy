/// The two Futoshiki models: a board of n rows, each of 2n-1 entries in
/// which cells (0 for empty, else the preset number) alternate with the
/// inequality symbols between horizontal neighbours ('<', '>' or '.'),
/// becomes a network with one variable per cell. Model 1 states the
/// all-different rule with binary not-equal constraints; model 2 with one
/// n-ary constraint per row and per column, plus one binary constraint per
/// inequality symbol.
module Futoshiki {
  import opened Csp

  /** One board entry: a number (cell) or a symbol (between cells). */
  datatype Entry = Num(k: int) | Sym(s: char)

  // ---------------------------------------------------------------------
  // The checks the satisfying tuples are filtered by
  // ---------------------------------------------------------------------

  /** Whether `val1 ineq val2` holds: '<' and '>' compare, any other entry
      imposes nothing. */
  function InequalityChecker(ineq: Entry, val1: int, val2: int): (r: bool)
    ensures ineq == Sym('<') ==> (r <==> val1 < val2)
    ensures ineq == Sym('>') ==> (r <==> val1 > val2)
    ensures ineq != Sym('<') && ineq != Sym('>') ==> r
  {
    if ineq == Sym('<') then val1 < val2
    else if ineq == Sym('>') then val1 > val2
    else true
  }

  /** The two symbols are mirror images, and both are strict. */
  lemma InequalityMirror(val1: int, val2: int)
    ensures InequalityChecker(Sym('<'), val1, val2) == InequalityChecker(Sym('>'), val2, val1)
    ensures InequalityChecker(Sym('<'), val1, val2) ==> val1 != val2
    ensures InequalityChecker(Sym('>'), val1, val2) ==> val1 != val2
  {
  }

  /** The model-1 check of two cells `p1`, `p2` (row, column): the values
      differ, and when `p2` is the right-hand neighbour column of `p1` the
      symbol between them holds too. */
  function Checker(ineq: Entry, p1: (int, int), p2: (int, int), val1: int, val2: int): (r: bool)
    ensures r ==> val1 != val2
    ensures p1.1 + 1 != p2.1 ==> (r <==> val1 != val2)
    ensures p1.1 + 1 == p2.1 ==> (r <==> val1 != val2 && InequalityChecker(ineq, val1, val2))
  {
    var result := val1 != val2;
    if p1.1 + 1 == p2.1 then result && InequalityChecker(ineq, val1, val2) else result
  }

  /** For horizontal neighbours a strict symbol decides alone: the not-equal
      part adds nothing. */
  lemma CheckerNeighbours(ineq: Entry, i: int, j: int, val1: int, val2: int)
    requires ineq == Sym('<') || ineq == Sym('>')
    ensures Checker(ineq, (i, j), (i, j + 1), val1, val2) == InequalityChecker(ineq, val1, val2)
  {
    InequalityMirror(val1, val2);
  }

  /** Whether the first `|vars|` values are pairwise different, by the
      nested loop over all pairs of positions. */
  method AllDiffChecker(vars: seq<Variable>, vals: seq<int>) returns (result: bool)
    requires |vars| <= |vals|
    ensures result <==> Distinct(vals[..|vars|])
  {
    result := true;
    for i := 0 to |vars|
      invariant result <==> forall a, b :: 0 <= a < i && a < b < |vars| ==> vals[a] != vals[b]
    {
      for j := i + 1 to |vars|
        invariant result <==>
          (forall a, b :: 0 <= a < i && a < b < |vars| ==> vals[a] != vals[b]) &&
          (forall b :: i < b < j ==> vals[i] != vals[b])
      {
        result := result && (vals[i] != vals[j]);
      }
    }
    assert forall a :: 0 <= a < |vars| ==> vals[..|vars|][a] == vals[a];
  }

  // ---------------------------------------------------------------------
  // Products of domains and filtered tuples
  // ---------------------------------------------------------------------

  /** `a` put in front of every tuple of `ts`. */
  function PrependAll(a: int, ts: seq<seq<int>>): (r: seq<seq<int>>)
    ensures |r| == |ts| && forall k :: 0 <= k < |ts| ==> r[k] == [a] + ts[k]
  {
    seq(|ts|, k requires 0 <= k < |ts| => [a] + ts[k])
  }

  /** Every value of `d`, in order, in front of every tuple of `ts`. */
  function Prefixed(d: seq<int>, ts: seq<seq<int>>): seq<seq<int>> {
    if d == [] then [] else PrependAll(d[0], ts) + Prefixed(d[1..], ts)
  }

  /** The cartesian product of the domains, in the order of Python's
      `itertools.product`: the last position varies fastest. */
  function Product(doms: seq<seq<int>>): seq<seq<int>> {
    if doms == [] then [[]] else Prefixed(doms[0], Product(doms[1..]))
  }

  lemma {:induction false} PrefixedMembers(d: seq<int>, ts: seq<seq<int>>, t: seq<int>)
    ensures t in Prefixed(d, ts) <==> |t| > 0 && t[0] in d && t[1..] in ts
  {
    if d != [] {
      PrefixedMembers(d[1..], ts, t);
      if t in PrependAll(d[0], ts) {
        var k :| 0 <= k < |ts| && PrependAll(d[0], ts)[k] == t;
        assert t[1..] == ts[k];
      }
      if |t| > 0 && t[0] == d[0] && t[1..] in ts {
        var k :| 0 <= k < |ts| && ts[k] == t[1..];
        assert PrependAll(d[0], ts)[k] == t;
      }
    }
  }

  /** The product holds exactly the tuples with one value of each domain. */
  lemma {:induction false} ProductMembers(doms: seq<seq<int>>, t: seq<int>)
    ensures t in Product(doms) <==> |t| == |doms| && forall i :: 0 <= i < |t| ==> t[i] in doms[i]
  {
    if doms == [] {
    } else {
      PrefixedMembers(doms[0], Product(doms[1..]), t);
      if |t| > 0 {
        ProductMembers(doms[1..], t[1..]);
        if |t| == |doms| && forall i :: 0 <= i < |t| ==> t[i] in doms[i] {
          assert forall i :: 0 <= i < |t| - 1 ==> t[1..][i] == t[i + 1];
        }
        if t[1..] in Product(doms[1..]) && t[0] in doms[0] {
          forall i | 0 <= i < |t| ensures t[i] in doms[i] {
            if i > 0 { assert t[1..][i - 1] == t[i]; }
          }
        }
      }
    }
  }

  /** The tuples of `ts` that pass `p`, in order. */
  function Filter(ts: seq<seq<int>>, p: seq<int> -> bool): seq<seq<int>> {
    if ts == [] then [] else (if p(ts[0]) then [ts[0]] else []) + Filter(ts[1..], p)
  }

  /** The filter keeps exactly the tuples that pass. */
  lemma {:induction false} FilterMembers(ts: seq<seq<int>>, p: seq<int> -> bool, t: seq<int>)
    ensures t in Filter(ts, p) <==> t in ts && p(t)
  {
    if ts != [] {
      FilterMembers(ts[1..], p, t);
      assert t in ts <==> t == ts[0] || t in ts[1..];
    }
  }

  lemma {:induction false} FilterAppend(ts: seq<seq<int>>, t: seq<int>, p: seq<int> -> bool)
    ensures Filter(ts + [t], p) == Filter(ts, p) + (if p(t) then [t] else [])
  {
    if ts == [] {
      assert [t][1..] == [];
    } else {
      assert (ts + [t])[1..] == ts[1..] + [t];
      FilterAppend(ts[1..], t, p);
    }
  }

  /** The tuples of the product of `doms` that pass `pass`, collected by a
      loop over the product. */
  method SatisfyingTuples(doms: seq<seq<int>>, pass: seq<int> -> bool) returns (sat: seq<seq<int>>)
    ensures sat == Filter(Product(doms), pass)
  {
    var P := Product(doms);
    sat := [];
    for k := 0 to |P|
      invariant sat == Filter(P[..k], pass)
    {
      assert P[..k + 1] == P[..k] + [P[k]];
      FilterAppend(P[..k], P[k], pass);
      if pass(P[k]) {
        sat := sat + [P[k]];
      }
    }
    assert P[..|P|] == P;
  }

  /** The model-1 filter of a pair of cells. */
  function CheckerPass(ineq: Entry, p1: (int, int), p2: (int, int)): seq<int> -> bool {
    t => |t| == 2 && Checker(ineq, p1, p2, t[0], t[1])
  }

  /** The model-2 filter of an inequality between neighbours. */
  function InequalityPass(ineq: Entry): seq<int> -> bool {
    t => |t| == 2 && InequalityChecker(ineq, t[0], t[1])
  }

  /** The all-different filter. */
  function DistinctPass(): seq<int> -> bool {
    t => Distinct(t)
  }

  /** The all-different tuples of the product of `doms`, each tested by the
      pairwise loop. */
  method AllDiffTuples(vars: seq<Variable>, doms: seq<seq<int>>) returns (sat: seq<seq<int>>)
    requires |vars| == |doms|
    ensures sat == Filter(Product(doms), DistinctPass())
  {
    var P := Product(doms);
    sat := [];
    for k := 0 to |P|
      invariant sat == Filter(P[..k], DistinctPass())
    {
      assert P[..k + 1] == P[..k] + [P[k]];
      FilterAppend(P[..k], P[k], DistinctPass());
      ProductMembers(doms, P[k]);
      assert P[k][..|vars|] == P[k];
      var ok := AllDiffChecker(vars, P[k]);
      if ok {
        sat := sat + [P[k]];
      }
    }
    assert P[..|P|] == P;
  }

  /** A filtered product holds the tuples with one value of each domain that
      pass the filter. */
  lemma FilteredProduct(doms: seq<seq<int>>, p: seq<int> -> bool, t: seq<int>)
    ensures t in Filter(Product(doms), p) <==>
      |t| == |doms| && (forall i :: 0 <= i < |t| ==> t[i] in doms[i]) && p(t)
  {
    FilterMembers(Product(doms), p, t);
    ProductMembers(doms, t);
  }

  // ---------------------------------------------------------------------
  // The board and its variables
  // ---------------------------------------------------------------------

  /** The documented board shape: n rows of 2n-1 entries with a number at
      every even position. */
  predicate WellFormedBoard(board: seq<seq<Entry>>) {
    forall i :: 0 <= i < |board| ==>
      |board[i]| == 2 * |board| - 1 && forall j :: 0 <= j < |board[i]| && j % 2 == 0 ==> board[i][j].Num?
  }

  /** An n by n arrangement. */
  predicate IsGrid<T>(va: seq<seq<T>>, n: nat) {
    |va| == n && forall i :: 0 <= i < n ==> |va[i]| == n
  }

  /** The rows one after the other. */
  function Flatten<T>(va: seq<seq<T>>): seq<T> {
    if va == [] then [] else Flatten(va[..|va| - 1]) + va[|va| - 1]
  }

  lemma FlattenAppend<T>(va: seq<seq<T>>, row: seq<T>)
    ensures Flatten(va + [row]) == Flatten(va) + row
  {
    assert (va + [row])[..|va|] == va;
  }

  /** Cell (i, j) of an n by n grid sits at position i * n + j of its rows
      laid end to end. */
  lemma {:induction false} FlattenIndex<T>(va: seq<seq<T>>, n: nat, i: nat, j: nat)
    requires forall r :: 0 <= r < |va| ==> |va[r]| == n
    requires i < |va| && j < n
    ensures |Flatten(va)| == |va| * n
    ensures i * n + j < |Flatten(va)| && Flatten(va)[i * n + j] == va[i][j]
  {
    var m := |va| - 1;
    var front := va[..m];
    assert forall r :: 0 <= r < |front| ==> front[r] == va[r];
    if i < m {
      FlattenIndex(front, n, i, j);
    } else {
      if m > 0 {
        FlattenIndex(front, n, 0, 0);
      }
      assert |Flatten(front)| == m * n;
    }
  }

  /** [1, 2, ..., n]. */
  function OneTo(n: nat): seq<int> {
    seq(n, i requires 0 <= i < n => i + 1)
  }

  lemma OneToValues(n: nat)
    ensures Distinct(OneTo(n))
    ensures forall x :: x in OneTo(n) <==> 1 <= x <= n
  {
    forall x | 1 <= x <= n ensures x in OneTo(n) {
      assert OneTo(n)[x - 1] == x;
    }
  }

  /** The domain a cell starts with: every number 1..n when the board shows
      0, the preset number otherwise. */
  function CellDomain(e: Entry, n: nat): seq<int>
    requires e.Num?
  {
    if e.k == 0 then OneTo(n) else [e.k]
  }

  lemma CellDomainValues(e: Entry, n: nat)
    requires e.Num?
    ensures Distinct(CellDomain(e, n))
    ensures e.k == 0 ==> forall x :: x in CellDomain(e, n) <==> 1 <= x <= n
    ensures e.k != 0 ==> forall x :: x in CellDomain(e, n) <==> x == e.k
  {
    OneToValues(n);
  }

  /** The starting domain of cell (i, j) of the board. */
  function CellDom(board: seq<seq<Entry>>, i: nat, j: nat): seq<int>
    requires WellFormedBoard(board) && i < |board| && j < |board|
  {
    CellDomain(board[i][2 * j], |board|)
  }

  /** The list [1..n] built by appending. */
  method DefaultDomain(n: nat) returns (dom: seq<int>)
    ensures dom == OneTo(n)
  {
    dom := [];
    for i := 0 to n
      invariant dom == OneTo(i)
    {
      assert OneTo(i + 1) == OneTo(i) + [i + 1];
      dom := dom + [i + 1];
    }
  }

  /** One new variable per cell of row `i`, and the symbols between them. */
  method BoardRow(board: seq<seq<Entry>>, i: nat, dom: seq<int>) returns (row: seq<Variable>, rowIneq: seq<Entry>)
    requires WellFormedBoard(board) && i < |board| && dom == OneTo(|board|)
    ensures |row| == |board| && |rowIneq| == |board| - 1
    ensures forall j :: 0 <= j < |row| ==>
      fresh(row[j]) && fresh(row[j].dom) && row[j].dom.Valid() && row[j].dom.full == CellDom(board, i, j) &&
      row[j].dom.current == row[j].dom.full && row[j].binding == None
    ensures forall a, b :: 0 <= a < b < |row| ==> row[a].dom != row[b].dom
    ensures forall j :: 0 <= j < |rowIneq| ==> rowIneq[j] == board[i][2 * j + 1]
  {
    var n := |board|;
    row, rowIneq := [], [];
    var numCols := |board[0]|;
    for j := 0 to numCols
      invariant |row| == (j + 1) / 2 && |rowIneq| == j / 2
      invariant forall c :: 0 <= c < |row| ==> row[c].dom.full == CellDom(board, i, c)
      invariant forall c :: 0 <= c < |row| ==>
        fresh(row[c]) && fresh(row[c].dom) && row[c].dom.Valid() &&
        row[c].dom.current == row[c].dom.full && row[c].binding == None
      invariant forall a, b :: 0 <= a < b < |row| ==> row[a].dom != row[b].dom
      invariant forall c :: 0 <= c < |rowIneq| ==> rowIneq[c] == board[i][2 * c + 1]
    {
      if j % 2 == 0 {
        CellDomainValues(board[i][j], n);
        var v;
        if board[i][j] == Num(0) {
          v := new Variable(dom);
        } else {
          v := new Variable([board[i][j].k]);
        }
        row := row + [v];
      } else {
        rowIneq := rowIneq + [board[i][j]];
      }
    }
  }

  /** The rows 0 .. i - 1 of the board as built so far: `va` by position,
      `vars` row after row, each domain made from the cell's entry, and the
      symbols between neighbours in `ineq`. */
  ghost predicate GridSoFar(board: seq<seq<Entry>>, i: nat, vars: seq<Variable>,
                            va: seq<seq<Variable>>, ineq: seq<seq<Entry>>)
    requires WellFormedBoard(board) && i <= |board|
  {
    && |va| == i && |ineq| == i && vars == Flatten(va)
    && (forall r :: 0 <= r < i ==> |va[r]| == |board| && |ineq[r]| == |board| - 1)
    && (forall r, j :: 0 <= r < i && 0 <= j < |board| ==> va[r][j].dom.full == CellDom(board, r, j))
    && (forall r, j :: 0 <= r < i && 0 <= j < |board| - 1 ==> ineq[r][j] == board[r][2 * j + 1])
  }

  /** Appending row i keeps the grid as built. */
  lemma GridSoFarStep(board: seq<seq<Entry>>, i: nat, vars: seq<Variable>, va: seq<seq<Variable>>,
                      ineq: seq<seq<Entry>>, row: seq<Variable>, rowIneq: seq<Entry>)
    requires WellFormedBoard(board) && i < |board| && GridSoFar(board, i, vars, va, ineq)
    requires |row| == |board| && |rowIneq| == |board| - 1
    requires forall j :: 0 <= j < |row| ==> row[j].dom.full == CellDom(board, i, j)
    requires forall j :: 0 <= j < |rowIneq| ==> rowIneq[j] == board[i][2 * j + 1]
    ensures GridSoFar(board, i + 1, vars + row, va + [row], ineq + [rowIneq])
  {
    FlattenAppend(va, row);
    var va', ineq' := va + [row], ineq + [rowIneq];
    assert forall r :: 0 <= r < i ==> va'[r] == va[r] && ineq'[r] == ineq[r];
    assert va'[i] == row && ineq'[i] == rowIneq;
  }

  /** Appending variables whose domain objects are apart from each other and
      from those before keeps the domain objects apart. */
  lemma DomsApartAppend(vars: seq<Variable>, row: seq<Variable>)
    requires forall a, b :: 0 <= a < b < |vars| ==> vars[a].dom != vars[b].dom
    requires forall a, b :: 0 <= a < b < |row| ==> row[a].dom != row[b].dom
    requires forall a, b :: 0 <= a < |vars| && 0 <= b < |row| ==> vars[a].dom != row[b].dom
    ensures forall a, b :: 0 <= a < b < |vars + row| ==> (vars + row)[a].dom != (vars + row)[b].dom
  {
  }

  /** The variables of the board: row by row in `vars`, by position in
      `va`, each with its starting domain and a domain object of its own;
      `ineq[i][j]` is the symbol between cells (i, j) and (i, j + 1). */
  method BoardVariables(board: seq<seq<Entry>>)
      returns (vars: seq<Variable>, va: seq<seq<Variable>>, ineq: seq<seq<Entry>>)
    requires WellFormedBoard(board)
    ensures IsGrid(va, |board|) && vars == Flatten(va)
    ensures forall i, j :: 0 <= i < |board| && 0 <= j < |board| ==>
      fresh(va[i][j]) && fresh(va[i][j].dom) && va[i][j].dom.Valid() &&
      va[i][j].dom.current == CellDom(board, i, j) && va[i][j].dom.full == CellDom(board, i, j) && va[i][j].binding == None
    ensures forall a, b :: 0 <= a < b < |vars| ==> vars[a].dom != vars[b].dom
    ensures IneqOf(ineq, board)
  {
    var n := |board|;
    vars, va, ineq := [], [], [];
    var dom := DefaultDomain(n);
    for i := 0 to n
      invariant GridSoFar(board, i, vars, va, ineq)
      invariant forall v :: v in vars ==>
        fresh(v) && fresh(v.dom) && v.dom.Valid() && v.dom.current == v.dom.full && v.binding == None
      invariant forall a, b :: 0 <= a < b < |vars| ==> vars[a].dom != vars[b].dom
    {
      var row, rowIneq := BoardRow(board, i, dom);
      GridSoFarStep(board, i, vars, va, ineq, row, rowIneq);
      DomsApartAppend(vars, row);
      vars := vars + row;
      va := va + [row];
      ineq := ineq + [rowIneq];
    }
    GridInFlatten(va);
  }

  // ---------------------------------------------------------------------
  // Constraints as values
  // ---------------------------------------------------------------------

  /** What a constraint is made of: its scope and its satisfying tuples. */
  datatype Shape = Shape(scope: seq<Variable>, tuples: seq<seq<int>>)

  function ShapeOf(c: Constraint): Shape {
    Shape(c.scope, c.tuples)
  }

  /** Which constraint of a model a loop step creates. */
  datatype Origin =
    | RowPair(i: nat, j: nat, x: nat)  // model 1: cells (i, j) and (i, x)
    | ColPair(i: nat, j: nat, x: nat)  // model 1: cells (j, i) and (x, i)
    | Neighbours(i: nat, j: nat)       // model 2: the symbol between (i, j) and (i, j + 1)
    | RowAll(i: nat)                   // model 2: row i all different
    | ColAll(i: nat)                   // model 2: column i all different

  /** The cells an origin names lie on an n by n board. */
  predicate Fits(o: Origin, n: nat) {
    match o
    case RowPair(i, j, x) => i < n && j < x < n
    case ColPair(i, j, x) => i < n && j < x < n
    case Neighbours(i, j) => i < n && j + 1 < n
    case RowAll(i) => i < n
    case ColAll(i) => i < n
  }

  /** Column i of a grid, top to bottom. */
  function Column<T>(va: seq<seq<T>>, i: nat): seq<T>
    requires forall r :: 0 <= r < |va| ==> i < |va[r]|
  {
    seq(|va|, r requires 0 <= r < |va| => va[r][i])
  }

  /** The starting domains of row i, left to right. */
  function RowDoms(board: seq<seq<Entry>>, i: nat): seq<seq<int>>
    requires WellFormedBoard(board) && i < |board|
  {
    seq(|board|, j requires 0 <= j < |board| => CellDom(board, i, j))
  }

  /** The starting domains of column i, top to bottom. */
  function ColDoms(board: seq<seq<Entry>>, i: nat): seq<seq<int>>
    requires WellFormedBoard(board) && i < |board|
  {
    seq(|board|, r requires 0 <= r < |board| => CellDom(board, r, i))
  }

  /** The constraint an origin stands for: its cells, and the tuples of the
      product of their starting domains that pass its check. */
  function ShapeFor(va: seq<seq<Variable>>, board: seq<seq<Entry>>, o: Origin): Shape
    requires WellFormedBoard(board) && IsGrid(va, |board|) && Fits(o, |board|)
  {
    match o
    case RowPair(i, j, x) =>
      Shape([va[i][j], va[i][x]],
            Filter(Product([CellDom(board, i, j), CellDom(board, i, x)]),
                   CheckerPass(board[i][2 * j + 1], (i, j), (i, x))))
    case ColPair(i, j, x) =>
      Shape([va[j][i], va[x][i]],
            Filter(Product([CellDom(board, j, i), CellDom(board, x, i)]),
                   CheckerPass(Sym('.'), (j, i), (x, i))))
    case Neighbours(i, j) =>
      Shape([va[i][j], va[i][j + 1]],
            Filter(Product([CellDom(board, i, j), CellDom(board, i, j + 1)]),
                   InequalityPass(board[i][2 * j + 1])))
    case RowAll(i) => Shape(va[i], Filter(Product(RowDoms(board, i)), DistinctPass()))
    case ColAll(i) => Shape(Column(va, i), Filter(Product(ColDoms(board, i)), DistinctPass()))
  }

  /** A model-1 row constraint holds the pairs of the two cells' starting
      values that differ and, for neighbours, obey the symbol between them. */
  lemma RowPairTuples(va: seq<seq<Variable>>, board: seq<seq<Entry>>, i: nat, j: nat, x: nat, t: seq<int>)
    requires WellFormedBoard(board) && IsGrid(va, |board|) && Fits(RowPair(i, j, x), |board|)
    ensures t in ShapeFor(va, board, RowPair(i, j, x)).tuples <==>
      |t| == 2 && t[0] in CellDom(board, i, j) && t[1] in CellDom(board, i, x) && t[0] != t[1] &&
      (x == j + 1 ==> InequalityChecker(board[i][2 * j + 1], t[0], t[1]))
  {
    FilteredProduct([CellDom(board, i, j), CellDom(board, i, x)], CheckerPass(board[i][2 * j + 1], (i, j), (i, x)), t);
  }

  /** A model-1 column constraint holds the pairs of the two cells' starting
      values that differ. */
  lemma ColPairTuples(va: seq<seq<Variable>>, board: seq<seq<Entry>>, i: nat, j: nat, x: nat, t: seq<int>)
    requires WellFormedBoard(board) && IsGrid(va, |board|) && Fits(ColPair(i, j, x), |board|)
    ensures t in ShapeFor(va, board, ColPair(i, j, x)).tuples <==>
      |t| == 2 && t[0] in CellDom(board, j, i) && t[1] in CellDom(board, x, i) && t[0] != t[1]
  {
    FilteredProduct([CellDom(board, j, i), CellDom(board, x, i)], CheckerPass(Sym('.'), (j, i), (x, i)), t);
  }

  /** A model-2 inequality constraint holds the pairs of starting values that
      obey the symbol. */
  lemma NeighbourTuples(va: seq<seq<Variable>>, board: seq<seq<Entry>>, i: nat, j: nat, t: seq<int>)
    requires WellFormedBoard(board) && IsGrid(va, |board|) && Fits(Neighbours(i, j), |board|)
    ensures t in ShapeFor(va, board, Neighbours(i, j)).tuples <==>
      |t| == 2 && t[0] in CellDom(board, i, j) && t[1] in CellDom(board, i, j + 1) &&
      InequalityChecker(board[i][2 * j + 1], t[0], t[1])
  {
    FilteredProduct([CellDom(board, i, j), CellDom(board, i, j + 1)], InequalityPass(board[i][2 * j + 1]), t);
  }

  /** A model-2 row constraint holds the all-different rows of starting
      values. */
  lemma RowAllTuples(va: seq<seq<Variable>>, board: seq<seq<Entry>>, i: nat, t: seq<int>)
    requires WellFormedBoard(board) && IsGrid(va, |board|) && i < |board|
    ensures t in ShapeFor(va, board, RowAll(i)).tuples <==>
      |t| == |board| && (forall p :: 0 <= p < |board| ==> t[p] in CellDom(board, i, p)) && Distinct(t)
  {
    FilteredProduct(RowDoms(board, i), DistinctPass(), t);
  }

  /** A model-2 column constraint holds the all-different columns of
      starting values. */
  lemma ColAllTuples(va: seq<seq<Variable>>, board: seq<seq<Entry>>, i: nat, t: seq<int>)
    requires WellFormedBoard(board) && IsGrid(va, |board|) && i < |board|
    ensures t in ShapeFor(va, board, ColAll(i)).tuples <==>
      |t| == |board| && (forall p :: 0 <= p < |board| ==> t[p] in CellDom(board, p, i)) && Distinct(t)
  {
    FilteredProduct(ColDoms(board, i), DistinctPass(), t);
  }

  /** `cons` are, one by one, the constraints `order` describes. */
  predicate Built(cons: seq<Constraint>, va: seq<seq<Variable>>, board: seq<seq<Entry>>, order: seq<Origin>)
    requires WellFormedBoard(board) && IsGrid(va, |board|)
  {
    |cons| == |order| &&
    forall k :: 0 <= k < |cons| ==> Fits(order[k], |board|) && ShapeOf(cons[k]) == ShapeFor(va, board, order[k])
  }

  lemma BuiltAppend(a: seq<Constraint>, b: seq<Constraint>, va: seq<seq<Variable>>, board: seq<seq<Entry>>,
                    oa: seq<Origin>, ob: seq<Origin>)
    requires WellFormedBoard(board) && IsGrid(va, |board|)
    requires Built(a, va, board, oa) && Built(b, va, board, ob)
    ensures Built(a + b, va, board, oa + ob)
  {
    forall k | 0 <= k < |a + b|
      ensures Fits((oa + ob)[k], |board|) && ShapeOf((a + b)[k]) == ShapeFor(va, board, (oa + ob)[k])
    {
      if k < |a| {
        assert (a + b)[k] == a[k] && (oa + ob)[k] == oa[k];
      } else {
        assert (a + b)[k] == b[k - |a|] && (oa + ob)[k] == ob[k - |a|];
      }
    }
  }

  lemma DistinctConcat<T>(a: seq<T>, b: seq<T>)
    requires Distinct(a) && Distinct(b) && forall y :: y in a ==> y !in b
    ensures Distinct(a + b)
  {
    forall p, q | 0 <= p < q < |a + b| ensures (a + b)[p] != (a + b)[q] {
      if q < |a| {
        assert a[p] != a[q];
      } else if p >= |a| {
        assert b[p - |a|] != b[q - |a|];
      } else {
        assert a[p] in a && b[q - |a|] in b;
      }
    }
  }

  /** Every scope variable is one of `vars`. */
  predicate ScopesIn(cons: seq<Constraint>, vars: seq<Variable>) {
    forall c :: c in cons ==> forall v :: v in c.scope ==> v in vars
  }

  /** Every cell of the grid is one of `vars`. */
  predicate CellsIn(va: seq<seq<Variable>>, vars: seq<Variable>) {
    forall r, k :: 0 <= r < |va| && 0 <= k < |va[r]| ==> va[r][k] in vars
  }

  /** New constraints, none listed twice, on variables of `vars`. */
  predicate NewConstraints(added: seq<Constraint>, vars: seq<Variable>) {
    Distinct(added) && ScopesIn(added, vars)
  }

  lemma NewConstraintsAppend(a: seq<Constraint>, b: seq<Constraint>, vars: seq<Variable>)
    requires NewConstraints(a, vars) && NewConstraints(b, vars)
    requires forall c :: c in a ==> c !in b
    ensures NewConstraints(a + b, vars)
  {
    DistinctConcat(a, b);
  }

  /** The symbols between neighbours, row by row. */
  predicate IneqOf(ineq: seq<seq<Entry>>, board: seq<seq<Entry>>)
    requires WellFormedBoard(board)
  {
    |ineq| == |board| &&
    forall r :: 0 <= r < |board| ==>
      |ineq[r]| == |board| - 1 && forall k :: 0 <= k < |board| - 1 ==> ineq[r][k] == board[r][2 * k + 1]
  }

  /** Every cell still has the domain the board gives it. */
  ghost predicate StartDomains(va: seq<seq<Variable>>, board: seq<seq<Entry>>)
    requires WellFormedBoard(board) && IsGrid(va, |board|)
    reads set r, k | 0 <= r < |va| && 0 <= k < |va[r]| :: va[r][k].dom
  {
    forall r, k :: 0 <= r < |board| && 0 <= k < |board| ==> va[r][k].dom.current == CellDom(board, r, k)
  }

  /** The cells of a grid are the elements of its flattening. */
  lemma {:induction false} FlattenMembers<T>(va: seq<seq<T>>, v: T)
    ensures v in Flatten(va) <==> exists r :: 0 <= r < |va| && v in va[r]
  {
    if va != [] {
      var m := |va| - 1;
      FlattenMembers(va[..m], v);
      assert forall r :: 0 <= r < m ==> va[..m][r] == va[r];
    }
  }

  lemma GridInFlatten(va: seq<seq<Variable>>)
    ensures CellsIn(va, Flatten(va))
  {
    forall r, k | 0 <= r < |va| && 0 <= k < |va[r]| ensures va[r][k] in Flatten(va) {
      FlattenMembers(va, va[r][k]);
    }
  }

  /** A network over `vars` holding `cons`, added one by one. */
  method MakeNetwork(vars: seq<Variable>, cons: seq<Constraint>) returns (csp: Network)
    ensures fresh(csp) && csp.vars == vars && csp.cons == cons
  {
    csp := new Network(vars);
    for k := 0 to |cons|
      invariant csp.vars == vars && csp.cons == cons[..k]
    {
      assert cons[..k + 1] == cons[..k] + [cons[k]];
      csp.AddConstraint(cons[k]);
    }
    assert cons[..|cons|] == cons;
  }

  /** A network over the board's cells, with distinct valid domains and
      constraints on cells only, is valid. */
  lemma NetworkValid(csp: Network, va: seq<seq<Variable>>, board: seq<seq<Entry>>)
    requires WellFormedBoard(board) && IsGrid(va, |board|) && csp.vars == Flatten(va)
    requires forall i, j :: 0 <= i < |board| && 0 <= j < |board| ==> va[i][j].dom.Valid()
    requires forall a, b :: 0 <= a < b < |csp.vars| ==> csp.vars[a].dom != csp.vars[b].dom
    requires NewConstraints(csp.cons, csp.vars)
    ensures csp.Valid()
  {
    forall v | v in csp.vars ensures v.dom.Valid() {
      FlattenMembers(va, v);
      var r :| 0 <= r < |va| && v in va[r];
      var j :| 0 <= j < |va[r]| && va[r][j] == v;
    }
    forall v, w | v in csp.vars && w in csp.vars && v != w ensures v.dom != w.dom {
      var a :| 0 <= a < |csp.vars| && csp.vars[a] == v;
      var b :| 0 <= b < |csp.vars| && csp.vars[b] == w;
      if a < b {
        assert csp.vars[a].dom != csp.vars[b].dom;
      } else {
        assert csp.vars[b].dom != csp.vars[a].dom;
      }
    }
  }

  // ---------------------------------------------------------------------
  // Model 1: binary not-equal constraints
  // ---------------------------------------------------------------------

  /** The origins the innermost loop produces for cell (i, j) with the
      partners j + 1 .. x - 1, in creation order. */
  function PairsUpTo(i: nat, j: nat, x: nat): seq<Origin>
    decreases x
  {
    if x <= j + 1 then [] else PairsUpTo(i, j, x - 1) + [RowPair(i, j, x - 1), ColPair(i, j, x - 1)]
  }

  /** The origins the middle loop produces for cells 0 .. j - 1 of row i. */
  function CellsUpTo(n: nat, i: nat, j: nat): seq<Origin> {
    if j == 0 then [] else CellsUpTo(n, i, j - 1) + PairsUpTo(i, j - 1, n)
  }

  /** The origins the outer loop produces for rows 0 .. i - 1. */
  function RowsUpTo(n: nat, i: nat): seq<Origin> {
    if i == 0 then [] else RowsUpTo(n, i - 1) + CellsUpTo(n, i - 1, n)
  }

  /** The model-1 constraints of an n by n board, in creation order. */
  function Model1Order(n: nat): seq<Origin> {
    RowsUpTo(n, n)
  }

  predicate IsPair(o: Origin) {
    o.RowPair? || o.ColPair?
  }

  lemma {:induction false} PairsUpToFacts(i: nat, j: nat, x: nat)
    ensures Distinct(PairsUpTo(i, j, x))
    ensures forall o :: o in PairsUpTo(i, j, x) <==> IsPair(o) && o.i == i && o.j == j && j < o.x < x
  {
    if x > j + 1 {
      PairsUpToFacts(i, j, x - 1);
      DistinctConcat(PairsUpTo(i, j, x - 1), [RowPair(i, j, x - 1), ColPair(i, j, x - 1)]);
    }
  }

  lemma {:induction false} CellsUpToFacts(n: nat, i: nat, j: nat)
    ensures Distinct(CellsUpTo(n, i, j))
    ensures forall o :: o in CellsUpTo(n, i, j) <==> IsPair(o) && o.i == i && o.j < j && o.j < o.x < n
  {
    if j > 0 {
      CellsUpToFacts(n, i, j - 1);
      PairsUpToFacts(i, j - 1, n);
      DistinctConcat(CellsUpTo(n, i, j - 1), PairsUpTo(i, j - 1, n));
    }
  }

  lemma {:induction false} RowsUpToFacts(n: nat, i: nat)
    ensures Distinct(RowsUpTo(n, i))
    ensures forall o :: o in RowsUpTo(n, i) <==> IsPair(o) && o.i < i && o.j < o.x < n
  {
    if i > 0 {
      RowsUpToFacts(n, i - 1);
      CellsUpToFacts(n, i - 1, n);
      DistinctConcat(RowsUpTo(n, i - 1), CellsUpTo(n, i - 1, n));
    }
  }

  lemma {:induction false} PairsUpToCount(i: nat, j: nat, x: nat)
    ensures |PairsUpTo(i, j, x)| == if x <= j + 1 then 0 else 2 * (x - j - 1)
  {
    if x > j + 1 {
      PairsUpToCount(i, j, x - 1);
    }
  }

  lemma {:induction false} CellsUpToCount(n: nat, i: nat, j: nat)
    requires j <= n
    ensures |CellsUpTo(n, i, j)| == j * (2 * n - j - 1)
  {
    if j > 0 {
      CellsUpToCount(n, i, j - 1);
      PairsUpToCount(i, j - 1, n);
      var m := j - 1;
      assert |CellsUpTo(n, i, j)| == m * (2 * n - m - 1) + 2 * (n - m - 1);
      assert m * (2 * n - m - 1) + 2 * (n - m - 1) == (m + 1) * (2 * n - m - 2);
    }
  }

  lemma {:induction false} RowsUpToCount(n: nat, i: nat)
    ensures |RowsUpTo(n, i)| == i * (n * (n - 1))
  {
    if i > 0 {
      RowsUpToCount(n, i - 1);
      CellsUpToCount(n, i - 1, n);
      assert n * (2 * n - n - 1) == n * (n - 1);
      assert (i - 1) * (n * (n - 1)) + n * (n - 1) == i * (n * (n - 1));
    }
  }

  /** Model 1 has exactly one row constraint and one column constraint for
      each index i and each pair j < x, n * n * (n - 1) in all. */
  lemma Model1Exactly(n: nat)
    ensures Distinct(Model1Order(n))
    ensures forall o :: o in Model1Order(n) <==> IsPair(o) && Fits(o, n)
    ensures |Model1Order(n)| == n * n * (n - 1)
  {
    RowsUpToFacts(n, n);
    RowsUpToCount(n, n);
    assert n * (n * (n - 1)) == n * n * (n - 1);
  }

  /** The row constraint of one loop step. */
  method RowPairConstraint(va: seq<seq<Variable>>, vars: seq<Variable>, board: seq<seq<Entry>>, ineq: seq<seq<Entry>>,
                           i: nat, j: nat, x: nat) returns (rc: Constraint)
    requires WellFormedBoard(board) && IsGrid(va, |board|) && i < |board| && j < x < |board|
    requires StartDomains(va, board) && IneqOf(ineq, board) && CellsIn(va, vars)
    ensures fresh(rc) && Built([rc], va, board, [RowPair(i, j, x)]) && NewConstraints([rc], vars)
  {
    var var1, var2 := va[i][j], va[i][x];
    var sat := SatisfyingTuples([var1.dom.current, var2.dom.current], CheckerPass(ineq[i][j], (i, j), (i, x)));
    rc := new Constraint([var1, var2], sat);
  }

  /** The column constraint of one loop step. */
  method ColPairConstraint(va: seq<seq<Variable>>, vars: seq<Variable>, board: seq<seq<Entry>>, i: nat, j: nat, x: nat)
      returns (cc: Constraint)
    requires WellFormedBoard(board) && IsGrid(va, |board|) && i < |board| && j < x < |board|
    requires StartDomains(va, board) && CellsIn(va, vars)
    ensures fresh(cc) && Built([cc], va, board, [ColPair(i, j, x)]) && NewConstraints([cc], vars)
  {
    var var1, var2 := va[j][i], va[x][i];
    var sat := SatisfyingTuples([var1.dom.current, var2.dom.current], CheckerPass(Sym('.'), (j, i), (x, i)));
    cc := new Constraint([var1, var2], sat);
  }

  lemma PairsStep(va: seq<seq<Variable>>, vars: seq<Variable>, board: seq<seq<Entry>>, i: nat, j: nat, x: nat,
                  added: seq<Constraint>, rc: Constraint, cc: Constraint)
    requires WellFormedBoard(board) && IsGrid(va, |board|) && i < |board| && j < x < |board|
    requires Built(added, va, board, PairsUpTo(i, j, x)) && NewConstraints(added, vars)
    requires Built([rc], va, board, [RowPair(i, j, x)]) && NewConstraints([rc], vars)
    requires Built([cc], va, board, [ColPair(i, j, x)]) && NewConstraints([cc], vars)
    requires rc != cc && rc !in added && cc !in added
    ensures Built(added + [rc, cc], va, board, PairsUpTo(i, j, x + 1))
    ensures NewConstraints(added + [rc, cc], vars)
  {
    BuiltAppend([rc], [cc], va, board, [RowPair(i, j, x)], [ColPair(i, j, x)]);
    NewConstraintsAppend([rc], [cc], vars);
    assert [rc] + [cc] == [rc, cc];
    BuiltAppend(added, [rc, cc], va, board, PairsUpTo(i, j, x), [RowPair(i, j, x), ColPair(i, j, x)]);
    NewConstraintsAppend(added, [rc, cc], vars);
  }

  /** One step of the innermost loop: the row and the column constraint
      appended to those built so far. */
  method AddPair(va: seq<seq<Variable>>, vars: seq<Variable>, board: seq<seq<Entry>>, ineq: seq<seq<Entry>>,
                 i: nat, j: nat, x: nat, added: seq<Constraint>) returns (added': seq<Constraint>)
    requires WellFormedBoard(board) && IsGrid(va, |board|) && i < |board| && j < x < |board|
    requires StartDomains(va, board) && IneqOf(ineq, board) && CellsIn(va, vars)
    requires Built(added, va, board, PairsUpTo(i, j, x)) && NewConstraints(added, vars)
    ensures Built(added', va, board, PairsUpTo(i, j, x + 1)) && NewConstraints(added', vars)
    ensures forall c :: c in added' ==> c in added || fresh(c)
  {
    var rc := RowPairConstraint(va, vars, board, ineq, i, j, x);
    var cc := ColPairConstraint(va, vars, board, i, j, x);
    PairsStep(va, vars, board, i, j, x, added, rc, cc);
    added' := added + [rc, cc];
  }

  /** The innermost loop: cell (i, j) against every later cell x of its row
      (and the same positions of column i). */
  method PairsLoop(va: seq<seq<Variable>>, vars: seq<Variable>, board: seq<seq<Entry>>, ineq: seq<seq<Entry>>, i: nat, j: nat)
      returns (added: seq<Constraint>)
    requires WellFormedBoard(board) && IsGrid(va, |board|) && i < |board| && j < |board|
    requires StartDomains(va, board) && IneqOf(ineq, board) && CellsIn(va, vars)
    ensures Built(added, va, board, PairsUpTo(i, j, |board|))
    ensures NewConstraints(added, vars) && forall c :: c in added ==> fresh(c)
  {
    added := [];
    for x := j + 1 to |board|
      invariant Built(added, va, board, PairsUpTo(i, j, x))
      invariant NewConstraints(added, vars) && forall c :: c in added ==> fresh(c)
    {
      added := AddPair(va, vars, board, ineq, i, j, x, added);
    }
  }

  /** The middle loop: every cell j of row i. */
  method CellsLoop(va: seq<seq<Variable>>, vars: seq<Variable>, board: seq<seq<Entry>>, ineq: seq<seq<Entry>>, i: nat)
      returns (added: seq<Constraint>)
    requires WellFormedBoard(board) && IsGrid(va, |board|) && i < |board|
    requires StartDomains(va, board) && IneqOf(ineq, board) && CellsIn(va, vars)
    ensures Built(added, va, board, CellsUpTo(|board|, i, |board|))
    ensures NewConstraints(added, vars) && forall c :: c in added ==> fresh(c)
  {
    added := [];
    for j := 0 to |board|
      invariant Built(added, va, board, CellsUpTo(|board|, i, j))
      invariant NewConstraints(added, vars) && forall c :: c in added ==> fresh(c)
    {
      var more := PairsLoop(va, vars, board, ineq, i, j);
      BuiltAppend(added, more, va, board, CellsUpTo(|board|, i, j), PairsUpTo(i, j, |board|));
      NewConstraintsAppend(added, more, vars);
      added := added + more;
    }
  }

  /** The constraints of model 1, built by the three nested loops. */
  method Model1Constraints(va: seq<seq<Variable>>, vars: seq<Variable>, board: seq<seq<Entry>>, ineq: seq<seq<Entry>>)
      returns (cons: seq<Constraint>)
    requires WellFormedBoard(board) && IsGrid(va, |board|)
    requires StartDomains(va, board) && IneqOf(ineq, board) && CellsIn(va, vars)
    ensures Built(cons, va, board, Model1Order(|board|))
    ensures NewConstraints(cons, vars) && forall c :: c in cons ==> fresh(c)
  {
    cons := [];
    for i := 0 to |board|
      invariant Built(cons, va, board, RowsUpTo(|board|, i))
      invariant NewConstraints(cons, vars) && forall c :: c in cons ==> fresh(c)
    {
      var more := CellsLoop(va, vars, board, ineq, i);
      BuiltAppend(cons, more, va, board, RowsUpTo(|board|, i), CellsUpTo(|board|, i, |board|));
      NewConstraintsAppend(cons, more, vars);
      cons := cons + more;
    }
  }

  /** Model 1 of a board: a variable per cell, and a not-equal constraint for
      every two cells of a row or column, the rows' also carrying the
      symbols between neighbours. */
  method Model1(board: seq<seq<Entry>>) returns (csp: Network, va: seq<seq<Variable>>)
    requires WellFormedBoard(board)
    ensures fresh(csp) && IsGrid(va, |board|) && csp.vars == Flatten(va)
    ensures forall i, j :: 0 <= i < |board| && 0 <= j < |board| ==>
      fresh(va[i][j]) && va[i][j].dom.current == CellDom(board, i, j) && va[i][j].dom.full == CellDom(board, i, j) && va[i][j].binding == None
    ensures Built(csp.cons, va, board, Model1Order(|board|))
    ensures csp.Valid()
  {
    var vars, ineq;
    vars, va, ineq := BoardVariables(board);
    GridInFlatten(va);
    var cons := Model1Constraints(va, vars, board, ineq);
    csp := MakeNetwork(vars, cons);
    NetworkValid(csp, va, board);
  }

  // ---------------------------------------------------------------------
  // Model 2: inequality and all-different constraints
  // ---------------------------------------------------------------------

  /** The entry right of cell (i, j) is not the '.' of no inequality. */
  predicate HasSymbol(board: seq<seq<Entry>>, i: nat, j: nat) {
    i < |board| && 2 * j + 1 < |board[i]| && board[i][2 * j + 1] != Sym('.')
  }

  /** The inequality origins the inner loop of row i produces in steps
      0 .. j - 1: one where a step's cell has a right neighbour and a symbol
      other than '.' between them. */
  function IneqUpTo(board: seq<seq<Entry>>, i: nat, j: nat): seq<Origin>
    requires i < |board|
  {
    if j == 0 then []
    else IneqUpTo(board, i, j - 1) + (if j < |board| && HasSymbol(board, i, j - 1) then [Neighbours(i, j - 1)] else [])
  }

  /** The origins one iteration of the outer loop produces for row i. */
  function RowOrder(board: seq<seq<Entry>>, i: nat): seq<Origin>
    requires i < |board|
  {
    IneqUpTo(board, i, |board|) + [RowAll(i), ColAll(i)]
  }

  /** The origins the outer loop produces for rows 0 .. i - 1. */
  function Model2RowsUpTo(board: seq<seq<Entry>>, i: nat): seq<Origin>
    requires i <= |board|
  {
    if i == 0 then [] else Model2RowsUpTo(board, i - 1) + RowOrder(board, i - 1)
  }

  /** The model-2 constraints of a board, in creation order. */
  function Model2Order(board: seq<seq<Entry>>): seq<Origin>
  {
    Model2RowsUpTo(board, |board|)
  }

  /** The constraints model 2 is meant to have: an all-different constraint
      per row and per column, an inequality constraint per symbol. */
  predicate Model2Origin(board: seq<seq<Entry>>, o: Origin)
  {
    match o
    case RowAll(i) => i < |board|
    case ColAll(i) => i < |board|
    case Neighbours(i, j) => i < |board| && j + 1 < |board| && HasSymbol(board, i, j)
    case RowPair(_, _, _) => false
    case ColPair(_, _, _) => false
  }

  lemma {:induction false} IneqUpToMember(board: seq<seq<Entry>>, i: nat, j: nat, o: Origin)
    requires i < |board|
    ensures o in IneqUpTo(board, i, j) <==>
      o.Neighbours? && o.i == i && o.j < j && o.j + 1 < |board| && HasSymbol(board, i, o.j)
  {
    if j > 0 {
      IneqUpToMember(board, i, j - 1, o);
    }
  }

  lemma {:induction false} IneqUpToDistinct(board: seq<seq<Entry>>, i: nat, j: nat)
    requires i < |board|
    ensures Distinct(IneqUpTo(board, i, j))
  {
    if j > 0 {
      var before := IneqUpTo(board, i, j - 1);
      forall o | o in before ensures o != Neighbours(i, j - 1) {
        IneqUpToMember(board, i, j - 1, o);
      }
      IneqUpToDistinct(board, i, j - 1);
      DistinctConcat(before, if j < |board| && HasSymbol(board, i, j - 1) then [Neighbours(i, j - 1)] else []);
    }
  }

  lemma RowOrderMember(board: seq<seq<Entry>>, i: nat, o: Origin)
    requires i < |board|
    ensures o in RowOrder(board, i) <==> Model2Origin(board, o) && o.i == i
  {
    IneqUpToMember(board, i, |board|, o);
  }

  lemma RowOrderDistinct(board: seq<seq<Entry>>, i: nat)
    requires i < |board|
    ensures Distinct(RowOrder(board, i))
  {
    var ineqs := IneqUpTo(board, i, |board|);
    forall o | o in ineqs ensures o !in [RowAll(i), ColAll(i)] {
      IneqUpToMember(board, i, |board|, o);
    }
    IneqUpToDistinct(board, i, |board|);
    DistinctConcat(ineqs, [RowAll(i), ColAll(i)]);
  }

  /** Membership in the origins of rows 0 .. i - 1, from that in rows
      0 .. i - 2 and in row i - 1. */
  lemma MemberStep(all: seq<Origin>, before: seq<Origin>, row: seq<Origin>, o: Origin, m: bool, k: nat, i: nat)
    requires i > 0 && all == before + row
    requires o in before <==> m && k < i - 1
    requires o in row <==> m && k == i - 1
    ensures o in all <==> m && k < i
  {
  }

  lemma {:induction false} Model2RowsUpToMember(board: seq<seq<Entry>>, i: nat, o: Origin)
    requires i <= |board|
    ensures o in Model2RowsUpTo(board, i) <==> Model2Origin(board, o) && o.i < i
  {
    if i > 0 {
      Model2RowsUpToMember(board, i - 1, o);
      RowOrderMember(board, i - 1, o);
      MemberStep(Model2RowsUpTo(board, i), Model2RowsUpTo(board, i - 1), RowOrder(board, i - 1),
                 o, Model2Origin(board, o), o.i, i);
    }
  }

  /** No origin of the rows before row i is one of row i. */
  lemma RowsApart(board: seq<seq<Entry>>, i: nat, o: Origin)
    requires i < |board|
    ensures o in Model2RowsUpTo(board, i) ==> o !in RowOrder(board, i)
  {
    Model2RowsUpToMember(board, i, o);
    RowOrderMember(board, i, o);
  }

  lemma {:induction false} Model2RowsUpToDistinct(board: seq<seq<Entry>>, i: nat)
    requires i <= |board|
    ensures Distinct(Model2RowsUpTo(board, i))
  {
    if i > 0 {
      var before, row := Model2RowsUpTo(board, i - 1), RowOrder(board, i - 1);
      forall o | o in before ensures o !in row {
        RowsApart(board, i - 1, o);
      }
      Model2RowsUpToDistinct(board, i - 1);
      RowOrderDistinct(board, i - 1);
      DistinctConcat(before, row);
    }
  }

  /** Model 2 has exactly one all-different constraint per row and per
      column, and exactly one inequality constraint per symbol other than
      '.'. */
  lemma Model2Exactly(board: seq<seq<Entry>>)
    requires WellFormedBoard(board)
    ensures Distinct(Model2Order(board))
    ensures forall o :: o in Model2Order(board) <==> Model2Origin(board, o)
  {
    Model2RowsUpToDistinct(board, |board|);
    forall o ensures o in Model2Order(board) <==> Model2Origin(board, o) {
      Model2RowsUpToMember(board, |board|, o);
    }
  }

  /** The inequality constraint between cell (i, j) and its right neighbour. */
  method NeighbourConstraint(va: seq<seq<Variable>>, vars: seq<Variable>, board: seq<seq<Entry>>,
                             ineq: seq<seq<Entry>>, i: nat, j: nat) returns (c: Constraint)
    requires WellFormedBoard(board) && IsGrid(va, |board|) && i < |board| && j + 1 < |board|
    requires StartDomains(va, board) && IneqOf(ineq, board) && CellsIn(va, vars)
    ensures fresh(c) && Built([c], va, board, [Neighbours(i, j)]) && NewConstraints([c], vars)
  {
    var var1, var2 := va[i][j], va[i][j + 1];
    var sat := SatisfyingTuples([var1.dom.current, var2.dom.current], InequalityPass(ineq[i][j]));
    c := new Constraint([var1, var2], sat);
  }

  /** One step of the inner loop of model 2: an inequality constraint when
      cell (i, j) has a right neighbour and a symbol other than '.'. */
  method IneqStep(va: seq<seq<Variable>>, vars: seq<Variable>, board: seq<seq<Entry>>,
                  ineq: seq<seq<Entry>>, i: nat, j: nat, added: seq<Constraint>) returns (added': seq<Constraint>)
    requires WellFormedBoard(board) && IsGrid(va, |board|) && i < |board| && j < |board|
    requires StartDomains(va, board) && IneqOf(ineq, board) && CellsIn(va, vars)
    requires Built(added, va, board, IneqUpTo(board, i, j)) && NewConstraints(added, vars)
    ensures Built(added', va, board, IneqUpTo(board, i, j + 1)) && NewConstraints(added', vars)
    ensures forall c :: c in added' ==> c in added || fresh(c)
  {
    added' := added;
    if j < |ineq[i]| {
      if ineq[i][j] != Sym('.') {
        assert IneqUpTo(board, i, j + 1) == IneqUpTo(board, i, j) + [Neighbours(i, j)];
        var c := NeighbourConstraint(va, vars, board, ineq, i, j);
        BuiltAppend(added, [c], va, board, IneqUpTo(board, i, j), [Neighbours(i, j)]);
        NewConstraintsAppend(added, [c], vars);
        added' := added + [c];
      } else {
        assert IneqUpTo(board, i, j + 1) == IneqUpTo(board, i, j);
      }
    } else {
      assert IneqUpTo(board, i, j + 1) == IneqUpTo(board, i, j);
    }
  }

  /** An all-different constraint over `scope`. */
  method AllDiffConstraint(scope: seq<Variable>, doms: seq<seq<int>>) returns (c: Constraint)
    requires |scope| == |doms|
    ensures fresh(c) && c.scope == scope && c.tuples == Filter(Product(doms), DistinctPass())
  {
    var sat := AllDiffTuples(scope, doms);
    c := new Constraint(scope, sat);
  }

  /** The row and the column all-different constraints of index i. */
  method AllDiffPair(va: seq<seq<Variable>>, vars: seq<Variable>, board: seq<seq<Entry>>, i: nat,
                     rowVars: seq<Variable>, rowDoms: seq<seq<int>>, colVars: seq<Variable>, colDoms: seq<seq<int>>)
      returns (rc: Constraint, cc: Constraint)
    requires WellFormedBoard(board) && IsGrid(va, |board|) && i < |board| && CellsIn(va, vars)
    requires rowVars == va[i] && rowDoms == RowDoms(board, i)
    requires colVars == Column(va, i) && colDoms == ColDoms(board, i)
    ensures fresh(rc) && fresh(cc)
    ensures Built([rc, cc], va, board, [RowAll(i), ColAll(i)]) && NewConstraints([rc, cc], vars)
  {
    rc := AllDiffConstraint(rowVars, rowDoms);
    cc := AllDiffConstraint(colVars, colDoms);
    assert forall v :: v in rc.scope ==> v in vars;
    assert forall v :: v in cc.scope ==> v in vars;
  }

  /** The lists the inner loop of model 2 has collected after `j` steps:
      the domains of row i, and the variables and domains of column i. */
  ghost predicate ScanSoFar(va: seq<seq<Variable>>, board: seq<seq<Entry>>, i: nat, j: int,
                            rowDoms: seq<seq<int>>, colVars: seq<Variable>, colDoms: seq<seq<int>>)
    requires WellFormedBoard(board) && IsGrid(va, |board|) && i < |board|
  {
    && 0 <= j <= |board|
    && rowDoms == RowDoms(board, i)[..j]
    && colVars == Column(va, i)[..j] && colDoms == ColDoms(board, i)[..j]
  }

  /** One step of the inner loop appends cell (i, j)'s domain to the row's,
      and cell (j, i) and its domain to the column's. */
  lemma ScanStep(va: seq<seq<Variable>>, board: seq<seq<Entry>>, i: nat, j: nat,
                 rowDoms: seq<seq<int>>, colVars: seq<Variable>, colDoms: seq<seq<int>>,
                 d1: seq<int>, d2: seq<int>)
    requires WellFormedBoard(board) && IsGrid(va, |board|) && i < |board| && j < |board|
    requires ScanSoFar(va, board, i, j, rowDoms, colVars, colDoms)
    requires d1 == CellDom(board, i, j) && d2 == CellDom(board, j, i)
    ensures ScanSoFar(va, board, i, j + 1, rowDoms + [d1], colVars + [va[j][i]], colDoms + [d2])
  {
    assert RowDoms(board, i)[..j + 1] == rowDoms + [d1];
    assert Column(va, i)[..j + 1] == colVars + [va[j][i]];
    assert ColDoms(board, i)[..j + 1] == colDoms + [d2];
  }

  /** The current domains of cell (i, j) and of its mirror (j, i). */
  method CellPair(va: seq<seq<Variable>>, board: seq<seq<Entry>>, i: nat, j: nat) returns (d1: seq<int>, d2: seq<int>)
    requires WellFormedBoard(board) && IsGrid(va, |board|) && i < |board| && j < |board|
    requires StartDomains(va, board)
    ensures d1 == CellDom(board, i, j) && d2 == CellDom(board, j, i)
  {
    d1, d2 := va[i][j].dom.current, va[j][i].dom.current;
  }

  /** The inner loop of model 2 for row i: the inequality constraints of the
      row, and the lists its all-different constraints are made from. */
  method Model2Scan(va: seq<seq<Variable>>, vars: seq<Variable>, board: seq<seq<Entry>>,
                    ineq: seq<seq<Entry>>, i: nat)
      returns (added: seq<Constraint>, rowDoms: seq<seq<int>>, colVars: seq<Variable>, colDoms: seq<seq<int>>)
    requires WellFormedBoard(board) && IsGrid(va, |board|) && i < |board|
    requires StartDomains(va, board) && IneqOf(ineq, board) && CellsIn(va, vars)
    ensures ScanSoFar(va, board, i, |board|, rowDoms, colVars, colDoms)
    ensures Built(added, va, board, IneqUpTo(board, i, |board|))
    ensures NewConstraints(added, vars) && forall c :: c in added ==> fresh(c)
  {
    var n := |va|;
    colVars, colDoms, rowDoms := [], [], [];
    added := [];
    for j := 0 to n
      invariant ScanSoFar(va, board, i, j, rowDoms, colVars, colDoms)
      invariant Built(added, va, board, IneqUpTo(board, i, j))
      invariant NewConstraints(added, vars) && forall c :: c in added ==> fresh(c)
    {
      added, rowDoms, colVars, colDoms := ScanCell(va, vars, board, ineq, i, j, added, rowDoms, colVars, colDoms);
    }
  }

  /** The body of the inner loop of model 2 for cell (i, j). */
  method ScanCell(va: seq<seq<Variable>>, vars: seq<Variable>, board: seq<seq<Entry>>,
                  ineq: seq<seq<Entry>>, i: nat, j: nat, added: seq<Constraint>,
                  rowDoms: seq<seq<int>>, colVars: seq<Variable>, colDoms: seq<seq<int>>)
      returns (added': seq<Constraint>, rowDoms': seq<seq<int>>, colVars': seq<Variable>, colDoms': seq<seq<int>>)
    requires WellFormedBoard(board) && IsGrid(va, |board|) && i < |board| && j < |board|
    requires StartDomains(va, board) && IneqOf(ineq, board) && CellsIn(va, vars)
    requires ScanSoFar(va, board, i, j, rowDoms, colVars, colDoms)
    requires Built(added, va, board, IneqUpTo(board, i, j)) && NewConstraints(added, vars)
    ensures ScanSoFar(va, board, i, j + 1, rowDoms', colVars', colDoms')
    ensures Built(added', va, board, IneqUpTo(board, i, j + 1)) && NewConstraints(added', vars)
    ensures forall c :: c in added' ==> c in added || fresh(c)
  {
    var d1, d2 := CellPair(va, board, i, j);
    ScanStep(va, board, i, j, rowDoms, colVars, colDoms, d1, d2);
    rowDoms' := rowDoms + [d1];
    colVars' := colVars + [va[j][i]];
    colDoms' := colDoms + [d2];
    added' := IneqStep(va, vars, board, ineq, i, j, added);
  }

  /** One iteration of the outer loop of model 2: the inequality
      constraints of row i, then its row and column all-different
      constraints. */
  method Model2Row(va: seq<seq<Variable>>, vars: seq<Variable>, board: seq<seq<Entry>>,
                   ineq: seq<seq<Entry>>, i: nat) returns (added: seq<Constraint>)
    requires WellFormedBoard(board) && IsGrid(va, |board|) && i < |board|
    requires StartDomains(va, board) && IneqOf(ineq, board) && CellsIn(va, vars)
    ensures Built(added, va, board, RowOrder(board, i))
    ensures NewConstraints(added, vars) && forall c :: c in added ==> fresh(c)
  {
    var n := |va|;
    var rowVars := va[i];
    var rowDoms, colVars, colDoms;
    added, rowDoms, colVars, colDoms := Model2Scan(va, vars, board, ineq, i);
    assert RowDoms(board, i)[..n] == RowDoms(board, i);
    assert Column(va, i)[..n] == Column(va, i) && ColDoms(board, i)[..n] == ColDoms(board, i);
    var rc, cc := AllDiffPair(va, vars, board, i, rowVars, rowDoms, colVars, colDoms);
    BuiltAppend(added, [rc, cc], va, board, IneqUpTo(board, i, n), [RowAll(i), ColAll(i)]);
    NewConstraintsAppend(added, [rc, cc], vars);
    added := added + [rc, cc];
  }

  /** The constraints of model 2, row by row. */
  method Model2Constraints(va: seq<seq<Variable>>, vars: seq<Variable>, board: seq<seq<Entry>>, ineq: seq<seq<Entry>>)
      returns (cons: seq<Constraint>)
    requires WellFormedBoard(board) && IsGrid(va, |board|)
    requires StartDomains(va, board) && IneqOf(ineq, board) && CellsIn(va, vars)
    ensures Built(cons, va, board, Model2Order(board))
    ensures NewConstraints(cons, vars) && forall c :: c in cons ==> fresh(c)
  {
    cons := [];
    for i := 0 to |board|
      invariant Built(cons, va, board, Model2RowsUpTo(board, i))
      invariant NewConstraints(cons, vars) && forall c :: c in cons ==> fresh(c)
    {
      var more := Model2Row(va, vars, board, ineq, i);
      BuiltAppend(cons, more, va, board, Model2RowsUpTo(board, i), RowOrder(board, i));
      NewConstraintsAppend(cons, more, vars);
      cons := cons + more;
    }
  }

  /** Model 2 of a board: a variable per cell, an all-different constraint
      per row and per column, and a binary constraint per inequality
      symbol. */
  method Model2(board: seq<seq<Entry>>) returns (csp: Network, va: seq<seq<Variable>>)
    requires WellFormedBoard(board)
    ensures fresh(csp) && IsGrid(va, |board|) && csp.vars == Flatten(va)
    ensures forall i, j :: 0 <= i < |board| && 0 <= j < |board| ==>
      fresh(va[i][j]) && va[i][j].dom.current == CellDom(board, i, j) && va[i][j].dom.full == CellDom(board, i, j) && va[i][j].binding == None
    ensures Built(csp.cons, va, board, Model2Order(board))
    ensures csp.Valid()
  {
    var vars, ineq;
    vars, va, ineq := BoardVariables(board);
    GridInFlatten(va);
    var cons := Model2Constraints(va, vars, board, ineq);
    csp := MakeNetwork(vars, cons);
    NetworkValid(csp, va, board);
  }
}
