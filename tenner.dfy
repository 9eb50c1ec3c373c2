// Tenner Grid models: the variables of a board and the constraint descriptors
// that model 1 and model 2 post, built by the same append loops as the
// generators in tenner_csp.py.
module Tenner {
  import opened Csp

  // ---------------------------------------------------------------------------
  // Tuples: itertools.product and the three filters applied to it
  // ---------------------------------------------------------------------------

  /** Python's sum over a tuple. */
  function Sum(t: seq<int>): int
  {
    if |t| == 0 then 0 else Sum(t[..|t| - 1]) + t[|t| - 1]
  }

  /** The tuples [a] + u for each u of ts, in the order of ts. */
  function Prefixed(a: int, ts: seq<seq<int>>): seq<seq<int>>
  {
    seq(|ts|, i requires 0 <= i < |ts| => [a] + ts[i])
  }

  /** One block of Prefixed tuples per value of d, in the order of d. */
  function Spread(d: seq<int>, ts: seq<seq<int>>): seq<seq<int>>
  {
    if |d| == 0 then [] else Prefixed(d[0], ts) + Spread(d[1..], ts)
  }

  /** itertools.product(*doms): the first component varies slowest. */
  function Product(doms: seq<seq<int>>): seq<seq<int>>
  {
    if |doms| == 0 then [[]] else Spread(doms[0], Product(doms[1..]))
  }

  /** t takes its i-th component from the i-th domain. */
  predicate Drawn(t: seq<int>, doms: seq<seq<int>>)
  {
    |t| == |doms| && forall i :: 0 <= i < |t| ==> t[i] in doms[i]
  }

  lemma {:induction false} SpreadMembers(d: seq<int>, ts: seq<seq<int>>, t: seq<int>)
    decreases |d|
    ensures t in Spread(d, ts) <==> |t| > 0 && t[0] in d && t[1..] in ts
  {
    if |d| > 0 {
      SpreadMembers(d[1..], ts, t);
      if |t| > 0 && t[0] == d[0] && t[1..] in ts {
        var i :| 0 <= i < |ts| && ts[i] == t[1..];
        assert Prefixed(d[0], ts)[i] == t;
      }
      if t in Prefixed(d[0], ts) {
        var i :| 0 <= i < |ts| && Prefixed(d[0], ts)[i] == t;
        assert t[1..] == ts[i];
      }
      assert d == [d[0]] + d[1..];
    }
  }

  /** A tuple is enumerated by product exactly when it draws each component
      from the matching domain. */
  lemma {:induction false} ProductMembers(doms: seq<seq<int>>, t: seq<int>)
    decreases |doms|
    ensures t in Product(doms) <==> Drawn(t, doms)
  {
    if |doms| == 0 {
      assert t in Product(doms) <==> t == [];
    } else {
      SpreadMembers(doms[0], Product(doms[1..]), t);
      if |t| > 0 {
        ProductMembers(doms[1..], t[1..]);
        if Drawn(t[1..], doms[1..]) && t[0] in doms[0] {
          forall i | 0 <= i < |t| ensures t[i] in doms[i] {
            if i > 0 { assert t[i] == t[1..][i - 1]; }
          }
        }
        if Drawn(t, doms) {
          forall i | 0 <= i < |t[1..]| ensures t[1..][i] in doms[1..][i] {
            assert t[1..][i] == t[i + 1];
          }
        }
      }
    }
  }

  /** The test each generator applies to a product tuple. */
  datatype Test = Unequal | SumIs(total: int) | RowOk

  predicate Passes(test: Test, t: seq<int>)
  {
    match test
    case Unequal => |t| == 2 && t[0] != t[1]
    case SumIs(total) => Sum(t) == total
    case RowOk => Sum(t) == 45 && Distinct(t)
  }

  /** The tuples of ts that pass test, in the order of ts. */
  function Kept(ts: seq<seq<int>>, test: Test): seq<seq<int>>
  {
    if |ts| == 0 then []
    else Kept(ts[..|ts| - 1], test) + (if Passes(test, ts[|ts| - 1]) then [ts[|ts| - 1]] else [])
  }

  lemma {:induction false} KeptMembers(ts: seq<seq<int>>, test: Test, t: seq<int>)
    decreases |ts|
    ensures t in Kept(ts, test) <==> t in ts && Passes(test, t)
  {
    if |ts| > 0 {
      var init := ts[..|ts| - 1];
      KeptMembers(init, test, t);
      assert ts == init + [ts[|ts| - 1]];
    }
  }

  /** Kept keeps the tuples the loop has reached so far, one more per step. */
  lemma KeptStep(ts: seq<seq<int>>, test: Test, k: nat)
    requires k < |ts|
    ensures Kept(ts[..k + 1], test)
            == Kept(ts[..k], test) + (if Passes(test, ts[k]) then [ts[k]] else [])
  {
    assert ts[..k + 1][..k] == ts[..k];
  }

  /** The satisfying tuples of a binary not-equal constraint. */
  function NePairs(d1: seq<int>, d2: seq<int>): seq<seq<int>>
  {
    Kept(Product([d1, d2]), Unequal)
  }

  /** The satisfying tuples of a column sum constraint. */
  function SumTuples(doms: seq<seq<int>>, total: int): seq<seq<int>>
  {
    Kept(Product(doms), SumIs(total))
  }

  /** The satisfying tuples of a row constraint. */
  function RowTuples(doms: seq<seq<int>>): seq<seq<int>>
  {
    Kept(Product(doms), RowOk)
  }

  lemma NePairsMembers(d1: seq<int>, d2: seq<int>, t: seq<int>)
    ensures t in NePairs(d1, d2) <==> |t| == 2 && t[0] in d1 && t[1] in d2 && t[0] != t[1]
  {
    KeptMembers(Product([d1, d2]), Unequal, t);
    ProductMembers([d1, d2], t);
  }

  lemma SumTuplesMembers(doms: seq<seq<int>>, total: int, t: seq<int>)
    ensures t in SumTuples(doms, total) <==> Drawn(t, doms) && Sum(t) == total
  {
    KeptMembers(Product(doms), SumIs(total), t);
    ProductMembers(doms, t);
  }

  lemma RowTuplesMembers(doms: seq<seq<int>>, t: seq<int>)
    ensures t in RowTuples(doms) <==> Drawn(t, doms) && Sum(t) == 45 && Distinct(t)
  {
    KeptMembers(Product(doms), RowOk, t);
    ProductMembers(doms, t);
  }

  /** NE_sat_tuples: appends the product pairs with distinct components. */
  method NeSatTuples(d1: seq<int>, d2: seq<int>, sat: seq<seq<int>>) returns (sat': seq<seq<int>>)
    ensures sat' == sat + NePairs(d1, d2)
  {
    var ts := Product([d1, d2]);
    sat' := sat;
    for k := 0 to |ts|
      invariant sat' == sat + Kept(ts[..k], Unequal)
    {
      var t := ts[k];
      ProductMembers([d1, d2], t);
      KeptStep(ts, Unequal, k);
      if t[0] != t[1] {
        sat' := sat' + [t];
      }
    }
    assert ts[..|ts|] == ts;
  }

  /** The counts dictionary with its break: true when the loop runs to the end
      without meeting a value twice. */
  method NoRepeat(t: seq<int>) returns (ok: bool)
    ensures ok <==> Distinct(t)
  {
    var counts: map<int, int> := map[];
    ok := true;
    var k := 0;
    while k < |t|
      invariant 0 <= k <= |t|
      invariant forall a :: a in counts ==> exists i :: 0 <= i < k && t[i] == a
      invariant forall i :: 0 <= i < k ==> t[i] in counts
      invariant forall a :: a in counts ==> counts[a] == 1
      invariant Distinct(t[..k])
    {
      var seen := if t[k] in counts then counts[t[k]] else 0;
      if seen > 0 {
        var i :| 0 <= i < k && t[i] == t[k];
        ok := false;
        break;
      }
      counts := counts[t[k] := seen + 1];
      assert t[..k + 1] == t[..k] + [t[k]];
      k := k + 1;
    }
    if ok {
      assert t[..k] == t;
    }
  }

  // ---------------------------------------------------------------------------
  // Board and variables
  // ---------------------------------------------------------------------------

  /** The input pair (n_grid, last_row): -1 marks an empty cell, last_row holds
      the column sums. */
  datatype Board = Board(grid: seq<seq<int>>, lastRow: seq<int>)

  /** A variable is identified by its cell (row, column). */
  datatype Cell = Cell(row: nat, col: nat)

  datatype Var = Var(cell: Cell, domain: seq<int>)

  const Digits: seq<int> := [0, 1, 2, 3, 4, 5, 6, 7, 8, 9]

  /** Board rows that a model builder can index: at least one row, ten cells a
      row and a sum for every column. */
  predicate WellFormed(b: Board)
  {
    |b.grid| >= 1 && (forall i :: 0 <= i < |b.grid| ==> |b.grid[i]| == 10) && |b.lastRow| >= 10
  }

  /** process_board: copies every row cell by cell and passes last_row through. */
  method ProcessBoard(b: Board) returns (cellRows: seq<seq<int>>, lastRow: seq<int>)
    ensures |cellRows| == |b.grid| && lastRow == b.lastRow
    ensures forall i :: 0 <= i < |cellRows| ==> |cellRows[i]| == |b.grid[i]|
    ensures forall i, j :: 0 <= i < |cellRows| && 0 <= j < |cellRows[i]| ==> cellRows[i][j] == b.grid[i][j]
  {
    lastRow := b.lastRow;
    cellRows := [];
    for r := 0 to |b.grid|
      invariant |cellRows| == r
      invariant forall i :: 0 <= i < r ==> cellRows[i] == b.grid[i]
    {
      var row := b.grid[r];
      var ind := 0;
      var cRow := [];
      while ind < |row|
        invariant 0 <= ind <= |row| && cRow == row[..ind]
      {
        cRow := cRow + [row[ind]];
        ind := ind + 1;
      }
      assert cRow == row;
      cellRows := cellRows + [cRow];
    }
  }

  /** The variables built for row i of the board: one per cell, cell (i, j) at
      position j, domain 0..9 for an empty cell and the given number otherwise. */
  predicate VarRow(i: nat, row: seq<int>, vrow: seq<Var>)
  {
    |vrow| == |row| &&
    forall j :: 0 <= j < |vrow| ==>
      vrow[j].cell == Cell(i, j) &&
      (row[j] == -1 ==> vrow[j].domain == Digits) &&
      (row[j] != -1 ==> vrow[j].domain == [row[j]])
  }

  /** The variable array built for the cells of rows: the same shape. */
  predicate VarsFor(rows: seq<seq<int>>, vs: seq<seq<Var>>)
  {
    |vs| == |rows| && forall i :: 0 <= i < |vs| ==> VarRow(i, rows[i], vs[i])
  }

  /** make_var_array (the row count n is not used). */
  method MakeVarArray(cellRows: seq<seq<int>>, n: int) returns (vs: seq<seq<Var>>)
    ensures VarsFor(cellRows, vs)
  {
    vs := [];
    for i := 0 to |cellRows|
      invariant VarsFor(cellRows[..i], vs)
    {
      var row := cellRows[i];
      var vrow: seq<Var> := [];
      for j := 0 to |row|
        invariant VarRow(i, row[..j], vrow)
      {
        var dom := if row[j] == -1 then Digits else [row[j]];
        vrow := vrow + [Var(Cell(i, j), dom)];
      }
      assert row[..|row|] == row;
      vs := vs + [vrow];
    }
    assert cellRows[..|cellRows|] == cellRows;
  }

  /** Every row of the variable array has ten variables. */
  predicate Rectangular(vs: seq<seq<Var>>)
  {
    forall i :: 0 <= i < |vs| ==> |vs[i]| == 10
  }

  /** The domain of the variable at cell c (empty off the grid). */
  function DomOf(vs: seq<seq<Var>>, c: Cell): seq<int>
  {
    if c.row < |vs| && c.col < |vs[c.row]| then vs[c.row][c.col].domain else []
  }

  /** [var.domain() for var in scope] */
  function DomsOf(vs: seq<seq<Var>>, scope: seq<Cell>): seq<seq<int>>
  {
    seq(|scope|, i requires 0 <= i < |scope| => DomOf(vs, scope[i]))
  }

  // ---------------------------------------------------------------------------
  // Constraint descriptors
  // ---------------------------------------------------------------------------

  /** What a posted constraint is: the sum constraint of a column with its
      total, the constraint of a row, or the not-equal constraint from the
      neighbour nb to the cell self. */
  datatype Kind = ColumnSum(col: nat, total: int) | RowAllDiff(row: nat) | NotEqual(nb: Cell, self: Cell)

  /** A posted constraint: its kind, its scope in order and its satisfying
      tuples in the order they were appended. */
  datatype ConsDesc = ConsDesc(kind: Kind, scope: seq<Cell>, tuples: seq<seq<int>>)

  /** Cells (0, j), ..., (n-1, j): [row[j] for row in variable_array]. */
  function Column(n: nat, j: nat): seq<Cell>
  {
    seq(n, r requires 0 <= r < n => Cell(r, j))
  }

  /** Cells (r, 0), ..., (r, 9). */
  function RowCells(r: nat): seq<Cell>
  {
    seq(10, c requires 0 <= c < 10 => Cell(r, c))
  }

  /** The constraint of kind k over the variables vs, as the generators build it. */
  function Canon(vs: seq<seq<Var>>, k: Kind): ConsDesc
  {
    match k
    case ColumnSum(j, total) => ConsDesc(k, Column(|vs|, j), SumTuples(DomsOf(vs, Column(|vs|, j)), total))
    case RowAllDiff(r) => ConsDesc(k, RowCells(r), RowTuples(DomsOf(vs, RowCells(r))))
    case NotEqual(nb, self) => ConsDesc(k, [nb, self], NePairs(DomOf(vs, nb), DomOf(vs, self)))
  }

  /** The constraints of the kinds ks, in order. */
  function Descs(vs: seq<seq<Var>>, ks: seq<Kind>): seq<ConsDesc>
  {
    seq(|ks|, i requires 0 <= i < |ks| => Canon(vs, ks[i]))
  }

  lemma DescsAppend(vs: seq<seq<Var>>, a: seq<Kind>, b: seq<Kind>)
    ensures Descs(vs, a + b) == Descs(vs, a) + Descs(vs, b)
  {
  }

  lemma AppendAssoc(a: seq<ConsDesc>, b: seq<ConsDesc>, c: seq<ConsDesc>)
    ensures a + b + c == a + (b + c)
  {
  }

  lemma DescsOne(vs: seq<seq<Var>>, k: Kind)
    ensures Descs(vs, [k]) == [Canon(vs, k)]
  {
  }

  /** How many constraints of cs are of kind k. */
  function Count(cs: seq<ConsDesc>, k: Kind): nat
  {
    if |cs| == 0 then 0 else Count(cs[..|cs| - 1], k) + (if cs[|cs| - 1].kind == k then 1 else 0)
  }

  lemma CanonKind(vs: seq<seq<Var>>, k: Kind)
    ensures Canon(vs, k).kind == k
  {
  }

  /** Each kind occurs among the constraints posted for the kinds ks as often
      as in ks. */
  lemma {:induction false} DescsCount(vs: seq<seq<Var>>, ks: seq<Kind>, k: Kind)
    decreases |ks|
    ensures Count(Descs(vs, ks), k) == multiset(ks)[k]
  {
    if |ks| > 0 {
      var init, last := ks[..|ks| - 1], ks[|ks| - 1];
      DescsCount(vs, init, k);
      assert Descs(vs, ks)[..|ks| - 1] == Descs(vs, init);
      CanonKind(vs, last);
      assert Descs(vs, ks)[|ks| - 1].kind == last;
      assert ks == init + [last];
    }
  }

  /** The bounds test of both adjacency generators. */
  predicate InBounds(row: int, col: int, nRows: int)
  {
    0 <= row <= nRows && 0 <= col <= 9
  }

  /** The not-equal constraints from cell (x, y) to each in-bounds offset of
      offs, in the order of offs. */
  function AdjKinds(nRows: int, x: nat, y: nat, offs: seq<(int, int)>): seq<Kind>
  {
    if |offs| == 0 then []
    else
      var o := offs[|offs| - 1];
      var row, col := x + o.0, y + o.1;
      AdjKinds(nRows, x, y, offs[..|offs| - 1])
        + (if InBounds(row, col, nRows) then [NotEqual(Cell(row, col), Cell(x, y))] else [])
  }

  /** The for-loop shared by make_adj_cons and make_adj_cons_m2: one not-equal
      constraint for each offset that lands inside the bounds. */
  method AddNeighbours(consList: seq<ConsDesc>, nRows: int, vs: seq<seq<Var>>, x: nat, y: nat,
                       offs: seq<(int, int)>) returns (out: seq<ConsDesc>)
    requires Rectangular(vs) && x < |vs| && y < 10
    requires forall k :: 0 <= k < |offs| ==> offs[k].0 <= 0
    ensures out == consList + Descs(vs, AdjKinds(nRows, x, y, offs))
  {
    out := consList;
    for k := 0 to |offs|
      invariant out == consList + Descs(vs, AdjKinds(nRows, x, y, offs[..k]))
    {
      var (m, n) := offs[k];
      var row, col := x + m, y + n;
      assert offs[..k + 1][..k] == offs[..k];
      var added := if InBounds(row, col, nRows) then [NotEqual(Cell(row, col), Cell(x, y))] else [];
      assert AdjKinds(nRows, x, y, offs[..k + 1]) == AdjKinds(nRows, x, y, offs[..k]) + added;
      DescsAppend(vs, AdjKinds(nRows, x, y, offs[..k]), added);
      AppendAssoc(consList, Descs(vs, AdjKinds(nRows, x, y, offs[..k])), Descs(vs, added));
      if InBounds(row, col, nRows) {
        assert m <= 0;
        var var1, var2 := vs[row][col], vs[x][y];
        assert var1.domain == DomOf(vs, Cell(row, col)) && var2.domain == DomOf(vs, Cell(x, y));
        var sat := NeSatTuples(var1.domain, var2.domain, []);
        assert sat == NePairs(var1.domain, var2.domain);
        out := out + [ConsDesc(NotEqual(Cell(row, col), Cell(x, y)), [Cell(row, col), Cell(x, y)], sat)];
        assert Descs(vs, added) == [Canon(vs, NotEqual(Cell(row, col), Cell(x, y)))];
      } else {
        assert Descs(vs, added) == [];
      }
    }
    assert offs[..|offs|] == offs;
  }

  /** The left-hand offsets (0, -y), (0, -(y-1)), ..., (0, -(k+1)). */
  function LeftRun(y: int, k: int): seq<(int, int)>
    decreases y - k
  {
    if k >= y then [] else LeftRun(y, k + 1) + [(0, -(k + 1))]
  }

  /** The offsets make_adj_cons visits for column y. */
  function AdjOffsets(y: nat): seq<(int, int)>
  {
    [(0, -1), (-1, -1), (-1, 0), (-1, 1)] + LeftRun(y, 1)
  }

  /** The offsets make_adj_cons_m2 visits. */
  const M2Offsets: seq<(int, int)> := [(-1, -1), (-1, 0), (-1, 1)]

  /** make_adj_cons: the not-equal constraints from cell (x, y) to its upper
      neighbours and to every cell to its left. */
  method MakeAdjCons(consList: seq<ConsDesc>, nRows: int, vs: seq<seq<Var>>, x: nat, y: nat)
    returns (out: seq<ConsDesc>)
    requires Rectangular(vs) && x < |vs| && y < 10
    ensures out == consList + Descs(vs, AdjKinds(nRows, x, y, AdjOffsets(y)))
  {
    var coord := [(0, -1), (-1, -1), (-1, 0), (-1, 1)];
    var k := y;
    while k > 1
      invariant 0 <= k <= y && (y >= 1 ==> k >= 1)
      invariant coord == [(0, -1), (-1, -1), (-1, 0), (-1, 1)] + LeftRun(y, k)
    {
      coord := coord + [(0, -k)];
      k := k - 1;
    }
    LeftRunRows(y, 1);
    out := AddNeighbours(consList, nRows, vs, x, y, coord);
  }

  /** make_adj_cons_m2: the not-equal constraints from cell (x, y) to its upper
      neighbours. */
  method MakeAdjConsM2(consList: seq<ConsDesc>, nRows: int, vs: seq<seq<Var>>, x: nat, y: nat)
    returns (out: seq<ConsDesc>)
    requires Rectangular(vs) && x < |vs| && y < 10
    ensures out == consList + Descs(vs, AdjKinds(nRows, x, y, M2Offsets))
  {
    out := AddNeighbours(consList, nRows, vs, x, y, M2Offsets);
  }

  lemma {:induction false} LeftRunRows(y: int, k: int)
    decreases y - k
    ensures forall i :: 0 <= i < |LeftRun(y, k)| ==> LeftRun(y, k)[i].0 == 0
  {
    if k < y { LeftRunRows(y, k + 1); }
  }

  /** The left-hand run holds each offset (0, -m) with k < m <= y once. */
  lemma {:induction false} LeftRunCount(y: int, k: int, o: (int, int))
    decreases y - k
    ensures multiset(LeftRun(y, k))[o] == if o.0 == 0 && o.1 + y >= 0 && o.1 <= -(k + 1) then 1 else 0
  {
    if k < y { LeftRunCount(y, k + 1, o); }
  }

  /** make_adj_cons visits each upper neighbour offset and every offset to the
      left in the same row (at least (0, -1)), each exactly once. */
  lemma AdjOffsetsCount(y: nat, o: (int, int))
    ensures multiset(AdjOffsets(y))[o] ==
      if (o.0 == -1 && -1 <= o.1 <= 1) || (o.0 == 0 && o.1 <= -1 && (o.1 == -1 || o.1 + y >= 0)) then 1 else 0
  {
    LeftRunCount(y, 1, o);
    assert multiset(AdjOffsets(y)) == multiset([(0, -1), (-1, -1), (-1, 0), (-1, 1)]) + multiset(LeftRun(y, 1));
  }

  /** make_adj_cons_m2 visits each upper neighbour offset once. */
  lemma M2OffsetsCount(o: (int, int))
    ensures multiset(M2Offsets)[o] == if o.0 == -1 && -1 <= o.1 <= 1 then 1 else 0
  {
  }

  /** k is a not-equal constraint into cell (x, y) whose other cell lies inside
      the bounds. */
  predicate Hit(k: Kind, x: nat, y: nat, nRows: int)
  {
    k.NotEqual? && k.self == Cell(x, y) && InBounds(k.nb.row, k.nb.col, nRows)
  }

  /** The offset from (x, y) to the other cell of a not-equal constraint. */
  function Offset(k: Kind, x: nat, y: nat): (int, int)
  {
    if k.NotEqual? then (k.nb.row - x, k.nb.col - y) else (0, 0)
  }

  /** The last offset adds one constraint of kind k exactly when it is the
      offset of a hit of k. */
  lemma AdjKindsLast(nRows: int, x: nat, y: nat, offs: seq<(int, int)>, k: Kind)
    requires |offs| > 0
    ensures multiset(AdjKinds(nRows, x, y, offs))[k] == multiset(AdjKinds(nRows, x, y, offs[..|offs| - 1]))[k]
      + if Hit(k, x, y, nRows) && Offset(k, x, y) == offs[|offs| - 1] then 1 else 0
  {
    var init, o := offs[..|offs| - 1], offs[|offs| - 1];
    var row, col := x + o.0, y + o.1;
    var added := if InBounds(row, col, nRows) then [NotEqual(Cell(row, col), Cell(x, y))] else [];
    assert AdjKinds(nRows, x, y, offs) == AdjKinds(nRows, x, y, init) + added;
    if Hit(k, x, y, nRows) && Offset(k, x, y) == o {
      assert k.nb == Cell(row, col);
      assert InBounds(row, col, nRows) && k == NotEqual(Cell(row, col), Cell(x, y));
      assert multiset(added)[k] == 1;
    } else {
      assert k !in added;
      assert multiset(added)[k] == 0;
    }
  }

  /** Each in-bounds offset yields one constraint into (x, y), of the kind
      named by the cell it reaches: a kind occurs as often as its offset. */
  lemma {:induction false} AdjKindsCount(nRows: int, x: nat, y: nat, offs: seq<(int, int)>, k: Kind)
    decreases |offs|
    ensures multiset(AdjKinds(nRows, x, y, offs))[k] == if Hit(k, x, y, nRows) then multiset(offs)[Offset(k, x, y)] else 0
  {
    if |offs| > 0 {
      var init, o := offs[..|offs| - 1], offs[|offs| - 1];
      AdjKindsCount(nRows, x, y, init, k);
      AdjKindsLast(nRows, x, y, offs, k);
      assert offs == init + [o];
      assert multiset(offs)[Offset(k, x, y)] == multiset(init)[Offset(k, x, y)] + multiset([o])[Offset(k, x, y)];
    }
  }

  /** nb is directly above cell c or diagonally above it, inside the ten columns. */
  predicate Upper(nb: Cell, c: Cell)
  {
    nb.row + 1 == c.row && nb.col + 1 >= c.col && nb.col <= c.col + 1 && nb.col <= 9
  }

  /** The neighbours model 1 links cell c to: those above it and every cell to
      its left in the same row. */
  predicate Adj1(nb: Cell, c: Cell)
  {
    Upper(nb, c) || (nb.row == c.row && nb.col < c.col)
  }

  /** make_adj_cons posts exactly one not-equal constraint from (x, y) to each
      cell to its left and each cell above it (the row bound never excludes
      one, since no offset moves down). */
  lemma AdjConsCount(nRows: int, x: nat, y: nat, k: Kind)
    requires x <= nRows && y < 10
    ensures multiset(AdjKinds(nRows, x, y, AdjOffsets(y)))[k]
      == if k.NotEqual? && k.self == Cell(x, y) && Adj1(k.nb, k.self) then 1 else 0
  {
    AdjKindsCount(nRows, x, y, AdjOffsets(y), k);
    AdjOffsetsCount(y, Offset(k, x, y));
  }

  /** make_adj_cons_m2 posts exactly one not-equal constraint from (x, y) to
      each cell above it. */
  lemma AdjConsM2Count(nRows: int, x: nat, y: nat, k: Kind)
    requires x <= nRows
    ensures multiset(AdjKinds(nRows, x, y, M2Offsets))[k]
      == if k.NotEqual? && k.self == Cell(x, y) && Upper(k.nb, k.self) then 1 else 0
  {
    AdjKindsCount(nRows, x, y, M2Offsets, k);
    M2OffsetsCount(Offset(k, x, y));
  }

  // ---------------------------------------------------------------------------
  // Column sum and row constraints
  // ---------------------------------------------------------------------------

  /** Every cell of scope has a variable in vs. */
  predicate OnGrid(vs: seq<seq<Var>>, scope: seq<Cell>)
  {
    forall i :: 0 <= i < |scope| ==> scope[i].row < |vs| && scope[i].col < |vs[scope[i].row]|
  }

  /** make_sum_cons: one constraint for column col over the cells of colj,
      whose tuples are the product tuples summing to total. */
  method MakeSumCons(colj: seq<Cell>, vs: seq<seq<Var>>, total: int, conList: seq<ConsDesc>, col: nat)
    returns (out: seq<ConsDesc>)
    requires OnGrid(vs, colj)
    ensures out == conList + [ConsDesc(ColumnSum(col, total), colj, SumTuples(DomsOf(vs, colj), total))]
  {
    var doms := seq(|colj|, i requires 0 <= i < |colj| && OnGrid(vs, colj) => vs[colj[i].row][colj[i].col].domain);
    assert doms == DomsOf(vs, colj);
    var ts := Product(doms);
    var sat := [];
    for k := 0 to |ts|
      invariant sat == Kept(ts[..k], SumIs(total))
    {
      KeptStep(ts, SumIs(total), k);
      if Sum(ts[k]) == total {
        sat := sat + [ts[k]];
      }
    }
    assert ts[..|ts|] == ts;
    out := conList + [ConsDesc(ColumnSum(col, total), colj, sat)];
  }

  /** make_row_cons: one constraint for row over the cells of rowList, whose
      tuples are the product tuples summing to 45 that pass the counts check. */
  method MakeRowCons(rowList: seq<Cell>, vs: seq<seq<Var>>, consList: seq<ConsDesc>, row: nat)
    returns (out: seq<ConsDesc>)
    requires OnGrid(vs, rowList)
    ensures out == consList + [ConsDesc(RowAllDiff(row), rowList, RowTuples(DomsOf(vs, rowList)))]
  {
    var doms := seq(|rowList|, i requires 0 <= i < |rowList| && OnGrid(vs, rowList) => vs[rowList[i].row][rowList[i].col].domain);
    assert doms == DomsOf(vs, rowList);
    var ts := Product(doms);
    var sat := [];
    for k := 0 to |ts|
      invariant sat == Kept(ts[..k], RowOk)
    {
      KeptStep(ts, RowOk, k);
      var t := ts[k];
      if Sum(t) == 45 {
        var ok := NoRepeat(t);
        if ok {
          sat := sat + [t];
        }
      }
    }
    assert ts[..|ts|] == ts;
    out := consList + [ConsDesc(RowAllDiff(row), rowList, sat)];
  }

  // ---------------------------------------------------------------------------
  // The two models
  // ---------------------------------------------------------------------------

  /** The CSP object: its variables in the order they were added and its
      constraints in the order they were posted. */
  datatype TennerCsp = TennerCsp(vars: seq<Var>, cons: seq<ConsDesc>)

  /** The adjacency constraints posted for cell (x, y) on an n-row board:
      model 1's or model 2's. */
  function BlockKinds(n: nat, x: nat, y: nat, m2: bool): seq<Kind>
  {
    AdjKinds(n, x, y, if m2 then M2Offsets else AdjOffsets(y))
  }

  /** The pieces f(0), ..., f(x-1) one after the other. */
  function Concat(f: nat -> seq<Kind>, x: nat): seq<Kind>
  {
    if x == 0 then [] else Concat(f, x - 1) + f(x - 1)
  }

  /** If a kind occurs once in the piece numbered at and in no other, it
      occurs once in the concatenation of the first x pieces when at is
      among them, and not at all otherwise. */
  lemma {:induction false} ConcatCount(f: nat -> seq<Kind>, x: nat, k: Kind, at: int)
    requires forall i: nat :: i < x ==> multiset(f(i))[k] == if i == at then 1 else 0
    ensures multiset(Concat(f, x))[k] == if 0 <= at < x then 1 else 0
  {
    if x > 0 {
      ConcatCount(f, x - 1, k, at);
    }
  }

  /** The blocks of cells (0, y), ..., (x-1, y), in that order. */
  function ColumnPassKinds(n: nat, y: nat, x: nat, m2: bool): seq<Kind>
  {
    Concat((i: nat) => BlockKinds(n, i, y, m2), x)
  }

  /** One pass of the column loop: the sum constraint of column j with the
      total lastRow[j], then the blocks of its cells. */
  function ColumnKinds(n: nat, lastRow: seq<int>, j: nat, m2: bool): seq<Kind>
  {
    (if j < |lastRow| then [ColumnSum(j, lastRow[j])] else []) + ColumnPassKinds(n, j, n, m2)
  }

  /** The column loop up to column j. */
  function ColumnsKinds(n: nat, lastRow: seq<int>, j: nat, m2: bool): seq<Kind>
  {
    Concat((c: nat) => ColumnKinds(n, lastRow, c, m2), j)
  }

  /** The model 2 blocks of cells (x, 0), ..., (x, y-1). */
  function RowPassKinds(n: nat, x: nat, y: nat): seq<Kind>
  {
    Concat((j: nat) => BlockKinds(n, x, j, true), y)
  }

  /** One pass of model 2's row loop: the blocks of row r's cells again, then
      the row's constraint. */
  function RowKinds(n: nat, r: nat): seq<Kind>
  {
    RowPassKinds(n, r, 10) + [RowAllDiff(r)]
  }

  /** Model 2's row loop up to row r. */
  function RowsKinds(n: nat, r: nat): seq<Kind>
  {
    Concat((q: nat) => RowKinds(n, q), r)
  }

  lemma ColumnPassNext(n: nat, y: nat, x: nat, m2: bool)
    ensures ColumnPassKinds(n, y, x + 1, m2) == ColumnPassKinds(n, y, x, m2) + BlockKinds(n, x, y, m2)
  {
  }

  lemma RowPassNext(n: nat, x: nat, y: nat)
    ensures RowPassKinds(n, x, y + 1) == RowPassKinds(n, x, y) + BlockKinds(n, x, y, true)
  {
  }

  lemma ColumnsNext(n: nat, lastRow: seq<int>, j: nat, m2: bool)
    ensures ColumnsKinds(n, lastRow, j + 1, m2) == ColumnsKinds(n, lastRow, j, m2) + ColumnKinds(n, lastRow, j, m2)
  {
  }

  lemma RowsNext(n: nat, r: nat)
    ensures RowsKinds(n, r + 1) == RowsKinds(n, r) + RowKinds(n, r)
  {
  }

  function Model1Kinds(n: nat, lastRow: seq<int>): seq<Kind>
    requires |lastRow| >= 10
  {
    ColumnsKinds(n, lastRow, 10, false)
  }

  function Model2Kinds(n: nat, lastRow: seq<int>): seq<Kind>
    requires |lastRow| >= 10
  {
    ColumnsKinds(n, lastRow, 10, true) + RowsKinds(n, n)
  }

  /** Model 1 links a cell to its upper neighbours and to every cell to its
      left; model 2 only to its upper neighbours. */
  predicate Linked(nb: Cell, c: Cell, m2: bool)
  {
    if m2 then Upper(nb, c) else Adj1(nb, c)
  }

  lemma BlockCount(n: nat, x: nat, y: nat, m2: bool, k: Kind)
    requires x < n && y < 10
    ensures multiset(BlockKinds(n, x, y, m2))[k]
      == if k.NotEqual? && k.self == Cell(x, y) && Linked(k.nb, k.self, m2) then 1 else 0
  {
    if m2 { AdjConsM2Count(n, x, y, k); } else { AdjConsCount(n, x, y, k); }
  }

  /** The blocks of column y up to row x link each cell above row x once to
      each of its neighbours. */
  lemma ColumnPassCount(n: nat, y: nat, x: nat, m2: bool, k: Kind)
    requires x <= n && y < 10
    ensures multiset(ColumnPassKinds(n, y, x, m2))[k]
      == if k.NotEqual? && k.self.col == y && k.self.row < x && Linked(k.nb, k.self, m2) then 1 else 0
  {
    var at := if k.NotEqual? && k.self.col == y && Linked(k.nb, k.self, m2) then k.self.row else -1;
    forall i: nat | i < x
      ensures multiset(BlockKinds(n, i, y, m2))[k] == if i == at then 1 else 0
    {
      BlockCount(n, i, y, m2, k);
    }
    ConcatCount((i: nat) => BlockKinds(n, i, y, m2), x, k, at);
  }

  /** The column loop up to column j posts each of those columns' sum
      constraints once, links each of their cells once to each neighbour, and
      posts no row constraint. */
  lemma ColumnsCount(n: nat, lastRow: seq<int>, j: nat, m2: bool, k: Kind)
    requires j <= 10 && |lastRow| >= 10
    ensures multiset(ColumnsKinds(n, lastRow, j, m2))[k] ==
      match k
      case ColumnSum(c, total) => if c < j && total == lastRow[c] then 1 else 0
      case RowAllDiff(_) => 0
      case NotEqual(nb, self) => if self.row < n && self.col < j && Linked(nb, self, m2) then 1 else 0
  {
    var at := match k
      case ColumnSum(c, total) => if c < |lastRow| && total == lastRow[c] then c else -1
      case RowAllDiff(_) => -1
      case NotEqual(nb, self) => if self.row < n && Linked(nb, self, m2) then self.col else -1;
    forall c: nat | c < j
      ensures multiset(ColumnKinds(n, lastRow, c, m2))[k] == if c == at then 1 else 0
    {
      ColumnPassCount(n, c, n, m2, k);
    }
    ConcatCount((c: nat) => ColumnKinds(n, lastRow, c, m2), j, k, at);
  }

  /** The blocks of row x up to column y link each of those cells once to each
      cell above it. */
  lemma RowPassCount(n: nat, x: nat, y: nat, k: Kind)
    requires x < n && y <= 10
    ensures multiset(RowPassKinds(n, x, y))[k]
      == if k.NotEqual? && k.self.row == x && k.self.col < y && Upper(k.nb, k.self) then 1 else 0
  {
    var at := if k.NotEqual? && k.self.row == x && Upper(k.nb, k.self) then k.self.col else -1;
    forall j: nat | j < y
      ensures multiset(BlockKinds(n, x, j, true))[k] == if j == at then 1 else 0
    {
      BlockCount(n, x, j, true, k);
    }
    ConcatCount((j: nat) => BlockKinds(n, x, j, true), y, k, at);
  }

  /** Model 2's row loop up to row r posts each of those rows' constraints
      once, links each of their cells once more to each cell above it, and
      posts no sum constraint. */
  lemma RowsCount(n: nat, r: nat, k: Kind)
    requires r <= n
    ensures multiset(RowsKinds(n, r))[k] ==
      match k
      case ColumnSum(_, _) => 0
      case RowAllDiff(q) => if q < r then 1 else 0
      case NotEqual(nb, self) => if self.row < r && self.col < 10 && Upper(nb, self) then 1 else 0
  {
    var at := match k
      case ColumnSum(_, _) => -1
      case RowAllDiff(q) => q as int
      case NotEqual(nb, self) => if self.col < 10 && Upper(nb, self) then self.row as int else -1;
    forall q: nat | q < r
      ensures multiset(RowKinds(n, q))[k] == if q == at then 1 else 0
    {
      RowPassCount(n, q, 10, k);
    }
    ConcatCount((q: nat) => RowKinds(n, q), r, k, at);
  }

  /** Model 1 on an n-row board posts the sum constraint of each column once,
      with that column's total; one not-equal constraint from every cell to
      each cell above it and to each cell to its left; and nothing else. */
  lemma Model1Count(vs: seq<seq<Var>>, lastRow: seq<int>, k: Kind)
    requires |lastRow| >= 10
    ensures Count(Descs(vs, Model1Kinds(|vs|, lastRow)), k) ==
      match k
      case ColumnSum(c, total) => if c < 10 && total == lastRow[c] then 1 else 0
      case RowAllDiff(_) => 0
      case NotEqual(nb, self) => if self.row < |vs| && self.col < 10 && Adj1(nb, self) then 1 else 0
  {
    DescsCount(vs, Model1Kinds(|vs|, lastRow), k);
    ColumnsCount(|vs|, lastRow, 10, false, k);
  }

  /** Model 2 on an n-row board posts the sum constraint of each column once,
      with that column's total; the constraint of each row once; and two
      not-equal constraints from every cell to each cell above it (one from
      the column loop, one from the row loop), and nothing else. */
  lemma Model2Count(vs: seq<seq<Var>>, lastRow: seq<int>, k: Kind)
    requires |lastRow| >= 10
    ensures Count(Descs(vs, Model2Kinds(|vs|, lastRow)), k) ==
      match k
      case ColumnSum(c, total) => if c < 10 && total == lastRow[c] then 1 else 0
      case RowAllDiff(r) => if r < |vs| then 1 else 0
      case NotEqual(nb, self) => if self.row < |vs| && self.col < 10 && Upper(nb, self) then 2 else 0
  {
    DescsCount(vs, Model2Kinds(|vs|, lastRow), k);
    ColumnsCount(|vs|, lastRow, 10, true, k);
    RowsCount(|vs|, |vs|, k);
  }

  /** The variables row by row. */
  function Flatten(vs: seq<seq<Var>>): seq<Var>
  {
    if |vs| == 0 then [] else Flatten(vs[..|vs| - 1]) + vs[|vs| - 1]
  }

  /** The loop that adds every variable of the array to the CSP. */
  method CollectVars(vs: seq<seq<Var>>) returns (vars: seq<Var>)
    ensures vars == Flatten(vs)
  {
    vars := [];
    for i := 0 to |vs|
      invariant vars == Flatten(vs[..i])
    {
      assert vs[..i + 1][..i] == vs[..i];
      ghost var before := vars;
      for j := 0 to |vs[i]|
        invariant vars == before + vs[i][..j]
      {
        assert vs[i][..j + 1] == vs[i][..j] + [vs[i][j]];
        vars := vars + [vs[i][j]];
      }
      assert vs[i][..|vs[i]|] == vs[i];
    }
    assert vs[..|vs|] == vs;
  }

  /** On a rectangular array the CSP lists variable (i, j) at position 10 i + j. */
  lemma {:induction false} FlattenIndex(vs: seq<seq<Var>>)
    requires Rectangular(vs)
    decreases |vs|
    ensures |Flatten(vs)| == 10 * |vs|
    ensures forall i, j :: 0 <= i < |vs| && 0 <= j < 10 ==> Flatten(vs)[10 * i + j] == vs[i][j]
  {
    if |vs| > 0 {
      var init := vs[..|vs| - 1];
      FlattenIndex(init);
      forall i, j | 0 <= i < |vs| && 0 <= j < 10 ensures Flatten(vs)[10 * i + j] == vs[i][j] {
        if i < |vs| - 1 {
          assert vs[i] == init[i];
        }
      }
    }
  }

  /** Board rows equal cell by cell are equal. */
  lemma SameRows(a: seq<seq<int>>, b: seq<seq<int>>)
    requires |a| == |b| && forall i :: 0 <= i < |a| ==> |a[i]| == |b[i]|
    requires forall i, j :: 0 <= i < |a| && 0 <= j < |a[i]| ==> a[i][j] == b[i][j]
    ensures a == b
  {
    forall i | 0 <= i < |a| ensures a[i] == b[i] {
      assert |a[i]| == |b[i]|;
    }
  }

  /** The inner loop of the column pass: the adjacency constraints of cells
      (0, j), ..., (n-1, j), model 1's or model 2's generator. */
  method PostColumnBlocks(vs: seq<seq<Var>>, j: nat, m2: bool, consList: seq<ConsDesc>) returns (cons: seq<ConsDesc>)
    requires Rectangular(vs) && j < 10
    ensures cons == consList + Descs(vs, ColumnPassKinds(|vs|, j, |vs|, m2))
  {
    var numRows := |vs|;
    cons := consList;
    for x := 0 to numRows
      invariant cons == consList + Descs(vs, ColumnPassKinds(numRows, j, x, m2))
    {
      if m2 {
        cons := MakeAdjConsM2(cons, numRows, vs, x, j);
      } else {
        cons := MakeAdjCons(cons, numRows, vs, x, j);
      }
      ColumnPassNext(numRows, j, x, m2);
      DescsAppend(vs, ColumnPassKinds(numRows, j, x, m2), BlockKinds(numRows, x, j, m2));
      AppendAssoc(consList, Descs(vs, ColumnPassKinds(numRows, j, x, m2)), Descs(vs, BlockKinds(numRows, x, j, m2)));
    }
  }

  /** One pass of the column loop: the sum constraint of column j, then the
      adjacency constraints of its cells. */
  method PostColumn(vs: seq<seq<Var>>, j: nat, total: int, m2: bool, consList: seq<ConsDesc>)
    returns (cons: seq<ConsDesc>)
    requires Rectangular(vs) && j < 10
    requires forall i :: 0 <= i < |vs| ==> vs[i][j].cell == Cell(i, j)
    ensures cons == consList + Descs(vs, [ColumnSum(j, total)] + ColumnPassKinds(|vs|, j, |vs|, m2))
  {
    var colj := seq(|vs|, r requires 0 <= r < |vs| => vs[r][j].cell);
    assert colj == Column(|vs|, j);
    cons := MakeSumCons(colj, vs, total, consList, j);
    DescsOne(vs, ColumnSum(j, total));
    cons := PostColumnBlocks(vs, j, m2, cons);
    DescsAppend(vs, [ColumnSum(j, total)], ColumnPassKinds(|vs|, j, |vs|, m2));
    AppendAssoc(consList, Descs(vs, [ColumnSum(j, total)]), Descs(vs, ColumnPassKinds(|vs|, j, |vs|, m2)));
  }

  /** The column loop both models run: for each column its sum constraint,
      then the adjacency constraints of each of its cells (model 1's or
      model 2's generator). */
  method PostColumns(vs: seq<seq<Var>>, lastRow: seq<int>, m2: bool) returns (cons: seq<ConsDesc>)
    requires |vs| >= 1 && Rectangular(vs) && |lastRow| >= 10
    requires forall i, j :: 0 <= i < |vs| && 0 <= j < 10 ==> vs[i][j].cell == Cell(i, j)
    ensures cons == Descs(vs, ColumnsKinds(|vs|, lastRow, 10, m2))
  {
    var numRows := |vs|;
    cons := [];
    for j := 0 to |vs[0]|
      invariant cons == Descs(vs, ColumnsKinds(numRows, lastRow, j, m2))
    {
      ghost var pre := ColumnsKinds(numRows, lastRow, j, m2);
      cons := PostColumn(vs, j, lastRow[j], m2, cons);
      ColumnsNext(numRows, lastRow, j, m2);
      DescsAppend(vs, pre, [ColumnSum(j, lastRow[j])] + ColumnPassKinds(numRows, j, numRows, m2));
    }
  }

  /** The inner loop of model 2's row pass: gathers the cells of row and
      posts the model 2 adjacency constraints of each. */
  method PostRowBlocks(vs: seq<seq<Var>>, row: nat, consList: seq<ConsDesc>)
    returns (cons: seq<ConsDesc>, rowList: seq<Cell>)
    requires Rectangular(vs) && row < |vs|
    requires forall j :: 0 <= j < 10 ==> vs[row][j].cell == Cell(row, j)
    ensures rowList == RowCells(row)
    ensures cons == consList + Descs(vs, RowPassKinds(|vs|, row, 10))
  {
    var numRows := |vs|;
    cons := consList;
    rowList := [];
    for col := 0 to 10
      invariant |rowList| == col && forall c :: 0 <= c < col ==> rowList[c] == Cell(row, c)
      invariant cons == consList + Descs(vs, RowPassKinds(numRows, row, col))
    {
      rowList := rowList + [vs[row][col].cell];
      cons := MakeAdjConsM2(cons, numRows, vs, row, col);
      RowPassNext(numRows, row, col);
      DescsAppend(vs, RowPassKinds(numRows, row, col), BlockKinds(numRows, row, col, true));
      AppendAssoc(consList, Descs(vs, RowPassKinds(numRows, row, col)), Descs(vs, BlockKinds(numRows, row, col, true)));
    }
  }

  /** One pass of model 2's row loop: the model 2 adjacency constraints of
      the cells of row, then the row's constraint over those cells. */
  method PostRow(vs: seq<seq<Var>>, row: nat, consList: seq<ConsDesc>) returns (cons: seq<ConsDesc>)
    requires Rectangular(vs) && row < |vs|
    requires forall j :: 0 <= j < 10 ==> vs[row][j].cell == Cell(row, j)
    ensures cons == consList + Descs(vs, RowKinds(|vs|, row))
  {
    var rowList;
    cons, rowList := PostRowBlocks(vs, row, consList);
    cons := MakeRowCons(rowList, vs, cons, row);
    DescsOne(vs, RowAllDiff(row));
    DescsAppend(vs, RowPassKinds(|vs|, row, 10), [RowAllDiff(row)]);
    AppendAssoc(consList, Descs(vs, RowPassKinds(|vs|, row, 10)), Descs(vs, [RowAllDiff(row)]));
  }

  /** Model 2's row loop: for each row the model 2 adjacency constraints of
      its cells, then its row constraint. */
  method PostRows(vs: seq<seq<Var>>, consList: seq<ConsDesc>) returns (cons: seq<ConsDesc>)
    requires Rectangular(vs)
    requires forall i, j :: 0 <= i < |vs| && 0 <= j < 10 ==> vs[i][j].cell == Cell(i, j)
    ensures cons == consList + Descs(vs, RowsKinds(|vs|, |vs|))
  {
    var numRows := |vs|;
    cons := consList;
    for row := 0 to numRows
      invariant cons == consList + Descs(vs, RowsKinds(numRows, row))
    {
      cons := PostRow(vs, row, cons);
      RowsNext(numRows, row);
      DescsAppend(vs, RowsKinds(numRows, row), RowKinds(numRows, row));
      AppendAssoc(consList, Descs(vs, RowsKinds(numRows, row)), Descs(vs, RowKinds(numRows, row)));
    }
  }

  /** tenner_csp_model_1: per column a sum constraint, then the model 1
      adjacency constraints of each of its cells. */
  method TennerModel1(b: Board) returns (csp: TennerCsp, vs: seq<seq<Var>>)
    requires WellFormed(b)
    ensures VarsFor(b.grid, vs) && Rectangular(vs)
    ensures csp.vars == Flatten(vs) && csp.cons == Descs(vs, Model1Kinds(|vs|, b.lastRow))
  {
    var cellRows, lastRow := ProcessBoard(b);
    SameRows(cellRows, b.grid);
    var numRows := |b.grid|;
    vs := MakeVarArray(cellRows, numRows);
    var cons := PostColumns(vs, lastRow, false);
    var vars := CollectVars(vs);
    csp := TennerCsp(vars, cons);
  }

  /** tenner_csp_model_2: per column a sum constraint and the model 2 adjacency
      constraints of its cells; then per row the same adjacency constraints
      again and a row constraint. */
  method TennerModel2(b: Board) returns (csp: TennerCsp, vs: seq<seq<Var>>)
    requires WellFormed(b)
    ensures VarsFor(b.grid, vs) && Rectangular(vs)
    ensures csp.vars == Flatten(vs) && csp.cons == Descs(vs, Model2Kinds(|vs|, b.lastRow))
  {
    var cellRows, lastRow := ProcessBoard(b);
    SameRows(cellRows, b.grid);
    var numRows := |b.grid|;
    vs := MakeVarArray(cellRows, numRows);
    var cons := PostColumns(vs, lastRow, true);
    cons := PostRows(vs, cons);
    DescsAppend(vs, ColumnsKinds(|vs|, b.lastRow, 10, true), RowsKinds(|vs|, |vs|));
    var vars := CollectVars(vs);
    csp := TennerCsp(vars, cons);
  }
}
