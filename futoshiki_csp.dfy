/** The two Futoshiki encodings: the variable array read off the board, the
    tables of satisfying tuples, and the constraints each model adds to its
    CSP object, in the order they are added. */
module FutoshikiCsp {
  import opened Csp
  import opened FutoshikiTuples

  // ---------------------------------------------------------------------
  // Boards, cells and variables

  /** A board entry: a number at an even column (0 for an empty cell), an
      inequality sign or '.' at an odd one. */
  datatype Entry = Num(value: int) | Sym(symbol: char)

  /** n rows of 2n - 1 entries: cells and the separators between them. */
  type Board = seq<seq<Entry>>

  /** The cell in row `row`, column `col`; it names the cell's variable. */
  datatype Cell = Cell(row: nat, col: nat)

  /** A `Variable`: its cell and its domain, in order. */
  datatype Var = Var(name: Cell, dom: seq<int>)

  predicate Shaped(board: Board)
  {
    forall i | 0 <= i < |board| :: |board[i]| == 2 * |board| - 1
  }

  /** The entry of cell (i, j): `board[i][2 * j]`. */
  function CellEntry(board: Board, i: nat, j: nat): Entry
    requires Shaped(board) && i < |board| && j < |board|
  {
    board[i][2 * j]
  }

  /** The separator between cells (i, a) and (i, a + 1):
      `board[i][2 * a + 1]`; '.' past the end of a row. */
  function Sep(board: Board, i: nat, a: nat): Entry
  {
    if i < |board| && 2 * a + 1 < |board[i]| then board[i][2 * a + 1] else Sym('.')
  }

  /** Every cell position holds a number. */
  predicate NumericCells(board: Board)
  {
    Shaped(board) &&
    forall i, j | 0 <= i < |board| && 0 <= j < |board| :: CellEntry(board, i, j).Num?
  }

  /** A puzzle: every cell is empty (0) or holds a value in 1..n. */
  predicate WellFormedBoard(board: Board)
  {
    NumericCells(board) &&
    forall i, j | 0 <= i < |board| && 0 <= j < |board| :: 0 <= CellEntry(board, i, j).value <= |board|
  }

  /** The variable of cell (i, j): domain 1..n for an empty cell, the given
      number alone otherwise. */
  function CellVar(board: Board, i: nat, j: nat): Var
    requires NumericCells(board) && i < |board| && j < |board|
  {
    var e := CellEntry(board, i, j);
    Var(Cell(i, j), if e == Num(0) then OneToN(|board|) else [e.value])
  }

  /** `var_arr[i][j]` is the variable of cell (i, j). */
  predicate IsVarArr(grid: seq<seq<Var>>, board: Board)
    requires NumericCells(board)
  {
    |grid| == |board| &&
    forall i | 0 <= i < |grid| ::
      |grid[i]| == |board| && forall j | 0 <= j < |board| :: grid[i][j] == CellVar(board, i, j)
  }

  /** `gen_var_arr`: one variable per cell, row by row. */
  method GenVarArr(n: nat, board: Board) returns (grid: seq<seq<Var>>)
    requires n == |board| && NumericCells(board)
    ensures IsVarArr(grid, board)
  {
    grid := [];
    for item := 0 to n
      invariant |grid| == item
      invariant forall i | 0 <= i < item ::
        |grid[i]| == n && forall j | 0 <= j < n :: grid[i][j] == CellVar(board, i, j)
    {
      var cols := [];
      for col := 0 to n
        invariant |cols| == col
        invariant forall j | 0 <= j < col :: cols[j] == CellVar(board, item, j)
      {
        var entry := board[item][col * 2];
        assert entry == CellEntry(board, item, col);
        if entry == Num(0) {
          cols := cols + [Var(Cell(item, col), OneToN(n))];
        } else {
          cols := cols + [Var(Cell(item, col), [entry.value])];
        }
      }
      grid := grid + [cols];
    }
  }

  /** Each domain is the given number for a filled cell and 1..n for an
      empty one; on a puzzle it is never empty and never leaves 1..n. */
  lemma VarDomains(board: Board, i: nat, j: nat)
    requires WellFormedBoard(board) && i < |board| && j < |board|
    ensures CellEntry(board, i, j) != Num(0) ==> CellVar(board, i, j).dom == [CellEntry(board, i, j).value]
    ensures forall v :: v in CellVar(board, i, j).dom <==>
      (if CellEntry(board, i, j) == Num(0) then 1 <= v <= |board| else v == CellEntry(board, i, j).value)
    ensures forall v | v in CellVar(board, i, j).dom :: 1 <= v <= |board|
    ensures CellVar(board, i, j).dom != []
  {
    var dom := CellVar(board, i, j).dom;
    if CellEntry(board, i, j) == Num(0) {
      forall v | 1 <= v <= |board|
        ensures v in dom
      {
        assert dom[v - 1] == v;
      }
    }
  }

  // ---------------------------------------------------------------------
  // The CSP object

  /** The part of a `CSP` the builders use: its variables and its
      constraints, in the order they were added. */
  class CspBuilder {
    var vars: seq<Var>
    var cons: seq<Constraint<Cell>>

    constructor()
      ensures vars == [] && cons == []
    {
      vars := [];
      cons := [];
    }

    /** `add_var` */
    method AddVar(v: Var)
      modifies this
      ensures vars == old(vars) + [v] && cons == old(cons)
    {
      vars := vars + [v];
    }

    /** `add_constraint` */
    method AddConstraint(c: Constraint<Cell>)
      modifies this
      ensures cons == old(cons) + [c] && vars == old(vars)
    {
      cons := cons + [c];
    }
  }

  /** The rows of `grid` one after another. */
  function Flatten(grid: seq<seq<Var>>): seq<Var>
  {
    if grid == [] then [] else Flatten(grid[..|grid| - 1]) + grid[|grid| - 1]
  }

  lemma {:induction false} FlattenLength(grid: seq<seq<Var>>, n: nat)
    requires forall r | 0 <= r < |grid| :: |grid[r]| == n
    ensures |Flatten(grid)| == |grid| * n
  {
    if grid != [] {
      FlattenLength(grid[..|grid| - 1], n);
      assert |Flatten(grid)| == (|grid| - 1) * n + n;
    }
  }

  lemma MulLe(a: nat, b: nat, n: nat)
    requires a <= b
    ensures a * n <= b * n
  {
  }

  /** In the flattened array of an n-column grid, cell (i, j) sits at
      i * n + j. */
  lemma {:induction false} FlattenAt(grid: seq<seq<Var>>, n: nat, i: nat, j: nat)
    requires forall r | 0 <= r < |grid| :: |grid[r]| == n
    requires i < |grid| && j < n
    ensures |Flatten(grid)| == |grid| * n
    ensures i * n + j < |Flatten(grid)| && Flatten(grid)[i * n + j] == grid[i][j]
  {
    var init := grid[..|grid| - 1];
    FlattenLength(grid, n);
    FlattenLength(init, n);
    assert Flatten(grid) == Flatten(init) + grid[|grid| - 1];
    if i < |grid| - 1 {
      FlattenAt(init, n, i, j);
      MulLe(i + 1, |init|, n);
      assert i * n + j < (i + 1) * n;
    } else {
      assert i * n == |init| * n;
    }
  }

  /** `make_CSP`: a fresh CSP holding every variable of `var_arr`, row by
      row, and no constraint. */
  method MakeCsp(grid: seq<seq<Var>>) returns (csp: CspBuilder)
    ensures fresh(csp)
    ensures csp.vars == Flatten(grid) && csp.cons == []
  {
    csp := new CspBuilder();
    for item := 0 to |grid|
      invariant csp.vars == Flatten(grid[..item]) && csp.cons == []
    {
      assert grid[..item + 1][..item] == grid[..item];
      for j := 0 to |grid[item]|
        invariant csp.vars == Flatten(grid[..item]) + grid[item][..j] && csp.cons == []
      {
        csp.AddVar(grid[item][j]);
        assert grid[item][..j + 1] == grid[item][..j] + [grid[item][j]];
      }
    }
    assert grid[..|grid|] == grid;
  }

  // ---------------------------------------------------------------------
  // Tables of satisfying tuples

  /** The set a list of tuples becomes once added to a constraint. */
  function Table(ts: seq<seq<int>>): set<seq<int>>
  {
    set t | t in ts
  }

  /** The relation a binary table encodes. */
  datatype Rel = Ne | Lt | Gt

  predicate Holds(r: Rel, x: int, y: int)
  {
    match r
    case Ne => x != y
    case Lt => x < y
    case Gt => x > y
  }

  /** A pair of values, each in 1..n. */
  predicate InPair(t: seq<int>, n: int)
  {
    |t| == 2 && 1 <= t[0] <= n && 1 <= t[1] <= n
  }

  /** The pairs (x, y) over 1..n with x `r` y. */
  function RelSet(n: nat, r: Rel): set<seq<int>>
  {
    set x, y | 1 <= x <= n && 1 <= y <= n && Holds(r, x, y) :: [x, y]
  }

  lemma RelSetHas(n: nat, r: Rel, t: seq<int>)
    ensures t in RelSet(n, r) <==> InPair(t, n) && Holds(r, t[0], t[1])
  {
    if InPair(t, n) && Holds(r, t[0], t[1]) {
      assert t == [t[0], t[1]];
    }
  }

  /** (p, q) comes before (x, y) in the order the table loops visit pairs. */
  predicate Before(p: int, q: int, x: int, y: int)
  {
    p < x || (p == x && q < y)
  }

  /** `ts` holds the pairs over 1..n related by `r` that the loops have
      visited before (x, y), and nothing else. */
  predicate Lists(ts: seq<seq<int>>, n: nat, r: Rel, x: int, y: int)
  {
    (forall k | 0 <= k < |ts| :: InPair(ts[k], n) && Holds(r, ts[k][0], ts[k][1]) && Before(ts[k][0], ts[k][1], x, y)) &&
    (forall p, q | 1 <= p <= n && 1 <= q <= n && Holds(r, p, q) && Before(p, q, x, y) :: [p, q] in ts)
  }

  /** A list holding every pair of `RelSet(n, r)` and nothing else is that
      table. */
  lemma RelTable(n: nat, r: Rel, ts: seq<seq<int>>)
    requires Lists(ts, n, r, n + 1, 0)
    ensures Table(ts) == RelSet(n, r)
  {
    forall t
      ensures t in Table(ts) <==> t in RelSet(n, r)
    {
      RelSetHas(n, r, t);
      if t in RelSet(n, r) {
        assert [t[0], t[1]] in ts;
        assert t == [t[0], t[1]];
      }
    }
  }

  /** Moving past the end of row x of the visiting order is moving to the
      start of row x + 1. */
  lemma ListsNextRow(ts: seq<seq<int>>, n: nat, r: Rel, x: int)
    requires Lists(ts, n, r, x, n + 1)
    ensures Lists(ts, n, r, x + 1, 0)
  {
  }

  /** The inner loop of model 1's tables: y over 1..n for one x. */
  method BinaryRow(n: nat, x: int, neq: seq<seq<int>>, lt: seq<seq<int>>, gt: seq<seq<int>>)
      returns (neq': seq<seq<int>>, lt': seq<seq<int>>, gt': seq<seq<int>>)
    requires 1 <= x <= n
    requires Lists(neq, n, Ne, x, 0) && Lists(lt, n, Lt, x, 0) && Lists(gt, n, Gt, x, 0)
    ensures Lists(neq', n, Ne, x + 1, 0) && Lists(lt', n, Lt, x + 1, 0) && Lists(gt', n, Gt, x + 1, 0)
  {
    neq', lt', gt' := neq, lt, gt;
    for y := 1 to n + 1
      invariant Lists(neq', n, Ne, x, y) && Lists(lt', n, Lt, x, y) && Lists(gt', n, Gt, x, y)
    {
      if x != y {
        neq' := neq' + [[x, y]];
      }
      if x < y {
        lt' := lt' + [[x, y]];
      }
      if x > y {
        gt' := gt' + [[x, y]];
      }
    }
    ListsNextRow(neq', n, Ne, x);
    ListsNextRow(lt', n, Lt, x);
    ListsNextRow(gt', n, Gt, x);
  }

  /** Model 1's tables: for x and y in 1..n, (x, y) goes to `wo_ineq` when
      x != y, to `x_less_y` when x < y and to `x_great_y` when x > y. */
  method BinaryTables(n: nat) returns (neq: seq<seq<int>>, lt: seq<seq<int>>, gt: seq<seq<int>>)
    ensures Table(neq) == RelSet(n, Ne)
    ensures Table(lt) == RelSet(n, Lt)
    ensures Table(gt) == RelSet(n, Gt)
  {
    neq, lt, gt := [], [], [];
    for x := 1 to n + 1
      invariant Lists(neq, n, Ne, x, 0) && Lists(lt, n, Lt, x, 0) && Lists(gt, n, Gt, x, 0)
    {
      neq, lt, gt := BinaryRow(n, x, neq, lt, gt);
    }
    RelTable(n, Ne, neq);
    RelTable(n, Lt, lt);
    RelTable(n, Gt, gt);
  }

  /** A list mirroring, position by position, a list of the pairs x < y is
      the table of the pairs x > y. */
  lemma MirrorTable(n: nat, lt: seq<seq<int>>, gt: seq<seq<int>>)
    requires Lists(lt, n, Lt, n + 1, 0)
    requires |gt| == |lt| && forall k | 0 <= k < |lt| :: |lt[k]| == 2 && gt[k] == [lt[k][1], lt[k][0]]
    ensures Table(gt) == RelSet(n, Gt)
  {
    forall t
      ensures t in Table(gt) <==> t in RelSet(n, Gt)
    {
      RelSetHas(n, Gt, t);
      if t in RelSet(n, Gt) {
        assert [t[1], t[0]] in lt;
        var k :| 0 <= k < |lt| && lt[k] == [t[1], t[0]];
        assert gt[k] == t;
      }
    }
  }

  /** Model 2's inequality tables: for x < y in 1..n, (x, y) goes to
      `x_less_y` and (y, x) to `x_great_y` at the same position. */
  method MirrorTables(n: nat) returns (lt: seq<seq<int>>, gt: seq<seq<int>>)
    ensures Table(lt) == RelSet(n, Lt)
    ensures Table(gt) == RelSet(n, Gt)
    ensures |gt| == |lt| && forall k | 0 <= k < |lt| :: |lt[k]| == 2 && gt[k] == [lt[k][1], lt[k][0]]
  {
    lt, gt := [], [];
    for x := 1 to n + 1
      invariant Lists(lt, n, Lt, x, 0)
      invariant |gt| == |lt| && forall k | 0 <= k < |lt| :: |lt[k]| == 2 && gt[k] == [lt[k][1], lt[k][0]]
    {
      for y := x to n + 1
        invariant Lists(lt, n, Lt, x, y)
        invariant |gt| == |lt| && forall k | 0 <= k < |lt| :: |lt[k]| == 2 && gt[k] == [lt[k][1], lt[k][0]]
      {
        if x < y {
          lt := lt + [[x, y]];
          gt := gt + [[y, x]];
        }
      }
    }
    RelTable(n, Lt, lt);
    MirrorTable(n, lt, gt);
  }

  // ---------------------------------------------------------------------
  // The constraint lists

  /** What the body of a pair loop adds, and from which tables. */
  datatype Family =
    | RowPairs1(board: Board, neq: set<seq<int>>, lt: set<seq<int>>, gt: set<seq<int>>)
    | ColPairs1(neq: set<seq<int>>)
    | RowIneqs2(board: Board, lt: set<seq<int>>, gt: set<seq<int>>)

  /** The constraints added for outer index `i` and the pair (a, b):
      model 1 adds one binary constraint per pair of cells in a row (its
      table chosen by the sign between adjacent cells) and per pair in a
      column; model 2 adds one only between adjacent cells with a sign. */
  function Emit(f: Family, i: nat, a: nat, b: nat): (r: seq<Constraint<Cell>>)
    ensures |r| <= 1
  {
    match f
    case RowPairs1(board, neq, lt, gt) =>
      [Constraint([Cell(i, a), Cell(i, b)],
        if b == a + 1 && Sep(board, i, a) == Sym('>') then gt
        else if b == a + 1 && Sep(board, i, a) == Sym('<') then lt
        else neq)]
    case ColPairs1(neq) =>
      [Constraint([Cell(a, i), Cell(b, i)], neq)]
    case RowIneqs2(board, lt, gt) =>
      if b == a + 1 && Sep(board, i, a) == Sym('>') then [Constraint([Cell(i, a), Cell(i, b)], gt)]
      else if b == a + 1 && Sep(board, i, a) == Sym('<') then [Constraint([Cell(i, a), Cell(i, b)], lt)]
      else []
  }

  /** The innermost loop: what `attr_2` in lo..hi-1 adds. */
  function Inner(f: Family, i: nat, a: nat, lo: nat, hi: nat): seq<Constraint<Cell>>
    requires lo <= hi
    decreases hi - lo
  {
    if hi == lo then [] else Inner(f, i, a, lo, hi - 1) + Emit(f, i, a, hi - 1)
  }

  /** The middle loop: what `attr_1` in 0..a-1 adds, each with `attr_2`
      running over attr_1 + 1..n-1. */
  function Middle(f: Family, n: nat, i: nat, a: nat): seq<Constraint<Cell>>
    requires a <= n
  {
    if a == 0 then [] else Middle(f, n, i, a - 1) + Inner(f, i, a - 1, a, n)
  }

  /** The outer loop: what the outer index in 0..m-1 adds. */
  function Outer(f: Family, n: nat, m: nat): seq<Constraint<Cell>>
  {
    if m == 0 then [] else Outer(f, n, m - 1) + Middle(f, n, m - 1, n)
  }

  /** Model 1's constraints: the row pairs, then the column pairs. */
  function Model1Cons(board: Board): seq<Constraint<Cell>>
  {
    var n := |board|;
    Outer(RowPairs1(board, RelSet(n, Ne), RelSet(n, Lt), RelSet(n, Gt)), n, n) +
    Outer(ColPairs1(RelSet(n, Ne)), n, n)
  }

  /** The cells of row i, left to right. */
  function RowScope(n: nat, i: nat): seq<Cell>
  {
    seq(n, c requires 0 <= c => Cell(i, c))
  }

  /** The cells of column c, top to bottom. */
  function ColScope(n: nat, c: nat): seq<Cell>
  {
    seq(n, r requires 0 <= r => Cell(r, c))
  }

  /** All-different constraints over rows 0..m-1, then over columns 0..m-1. */
  function RowAllDiff(n: nat, m: nat, tbl: set<seq<int>>): seq<Constraint<Cell>>
  {
    seq(m, i requires 0 <= i => Constraint(RowScope(n, i), tbl))
  }

  function ColAllDiff(n: nat, m: nat, tbl: set<seq<int>>): seq<Constraint<Cell>>
  {
    seq(m, c requires 0 <= c => Constraint(ColScope(n, c), tbl))
  }

  /** Model 2's constraints: the signed adjacent pairs, then n row and n
      column all-different constraints whose table is every ordering of
      1..n. */
  function Model2Cons(board: Board): seq<Constraint<Cell>>
    requires |board| >= 1
  {
    var n := |board|;
    var perms := Table(Perms(n));
    Outer(RowIneqs2(board, RelSet(n, Lt), RelSet(n, Gt)), n, n) +
    RowAllDiff(n, n, perms) + ColAllDiff(n, n, perms)
  }

  // ---------------------------------------------------------------------
  // The builders

  /** `var_arr[i][j]` is named by cell (i, j). */
  predicate GridNames(grid: seq<seq<Var>>, n: nat)
  {
    |grid| == n &&
    forall i | 0 <= i < n :: |grid[i]| == n && forall j | 0 <= j < n :: grid[i][j].name == Cell(i, j)
  }

  lemma IsVarArrNames(grid: seq<seq<Var>>, board: Board)
    requires NumericCells(board) && IsVarArr(grid, board)
    ensures GridNames(grid, |board|)
  {
  }

  /** The body of model 1's row loop for one pair of cells. */
  method RowPair1(n: nat, grid: seq<seq<Var>>, neq: seq<seq<int>>, board: Board, csp: CspBuilder,
                  gt: seq<seq<int>>, lt: seq<seq<int>>, item: nat, attr1: nat, attr2: nat)
    requires GridNames(grid, n) && item < n && attr1 < attr2 < n
    modifies csp
    ensures csp.cons == old(csp.cons) + Emit(RowPairs1(board, Table(neq), Table(lt), Table(gt)), item, attr1, attr2)
    ensures csp.vars == old(csp.vars)
  {
    var scope := [grid[item][attr1].name, grid[item][attr2].name];
    var constraint;
    if attr2 == attr1 + 1 && Sep(board, item, attr1) == Sym('>') {
      constraint := Constraint(scope, Table(gt));
    } else if attr2 == attr1 + 1 && Sep(board, item, attr1) == Sym('<') {
      constraint := Constraint(scope, Table(lt));
    } else {
      constraint := Constraint(scope, Table(neq));
    }
    csp.AddConstraint(constraint);
  }

  /** The body of model 2's row loop for one pair of cells. */
  method RowIneq2(n: nat, grid: seq<seq<Var>>, board: Board, csp: CspBuilder,
                  gt: seq<seq<int>>, lt: seq<seq<int>>, item: nat, attr1: nat, attr2: nat)
    requires GridNames(grid, n) && item < n && attr1 < attr2 < n
    modifies csp
    ensures csp.cons == old(csp.cons) + Emit(RowIneqs2(board, Table(lt), Table(gt)), item, attr1, attr2)
    ensures csp.vars == old(csp.vars)
  {
    var scope := [grid[item][attr1].name, grid[item][attr2].name];
    if attr2 == attr1 + 1 && Sep(board, item, attr1) == Sym('>') {
      csp.AddConstraint(Constraint(scope, Table(gt)));
    } else if attr2 == attr1 + 1 && Sep(board, item, attr1) == Sym('<') {
      csp.AddConstraint(Constraint(scope, Table(lt)));
    }
  }

  /** The body of model 1's column loop for one pair of cells. */
  method ColPair1(n: nat, grid: seq<seq<Var>>, neq: seq<seq<int>>, csp: CspBuilder,
                  col: nat, attr1: nat, attr2: nat)
    requires GridNames(grid, n) && col < n && attr1 < attr2 < n
    modifies csp
    ensures csp.cons == old(csp.cons) + Emit(ColPairs1(Table(neq)), col, attr1, attr2)
    ensures csp.vars == old(csp.vars)
  {
    var constraint := Constraint([grid[attr1][col].name, grid[attr2][col].name], Table(neq));
    csp.AddConstraint(constraint);
  }

  /** The pair bodies a family runs. */
  predicate Runs(f: Family, neq: seq<seq<int>>, board: Board, gt: seq<seq<int>>, lt: seq<seq<int>>)
  {
    f == RowPairs1(board, Table(neq), Table(lt), Table(gt)) ||
    f == ColPairs1(Table(neq)) ||
    f == RowIneqs2(board, Table(lt), Table(gt))
  }

  /** The innermost pair loop: `attr_2` over attr_1 + 1..n-1. */
  method InnerLoop(n: nat, grid: seq<seq<Var>>, neq: seq<seq<int>>, board: Board, csp: CspBuilder,
                   gt: seq<seq<int>>, lt: seq<seq<int>>, f: Family, item: nat, attr1: nat)
    requires GridNames(grid, n) && Runs(f, neq, board, gt, lt) && item < n && attr1 < n
    modifies csp
    ensures csp.cons == old(csp.cons) + Inner(f, item, attr1, attr1 + 1, n)
    ensures csp.vars == old(csp.vars)
  {
    for attr2 := attr1 + 1 to n
      invariant csp.cons == old(csp.cons) + Inner(f, item, attr1, attr1 + 1, attr2)
      invariant csp.vars == old(csp.vars)
    {
      if f.RowPairs1? {
        RowPair1(n, grid, neq, board, csp, gt, lt, item, attr1, attr2);
      } else if f.ColPairs1? {
        ColPair1(n, grid, neq, csp, item, attr1, attr2);
      } else {
        RowIneq2(n, grid, board, csp, gt, lt, item, attr1, attr2);
      }
    }
  }

  /** The middle pair loop: `attr_1` over 0..n-1. */
  method MiddleLoop(n: nat, grid: seq<seq<Var>>, neq: seq<seq<int>>, board: Board, csp: CspBuilder,
                    gt: seq<seq<int>>, lt: seq<seq<int>>, f: Family, item: nat)
    requires GridNames(grid, n) && Runs(f, neq, board, gt, lt) && item < n
    modifies csp
    ensures csp.cons == old(csp.cons) + Middle(f, n, item, n)
    ensures csp.vars == old(csp.vars)
  {
    for attr1 := 0 to n
      invariant csp.cons == old(csp.cons) + Middle(f, n, item, attr1)
      invariant csp.vars == old(csp.vars)
    {
      InnerLoop(n, grid, neq, board, csp, gt, lt, f, item, attr1);
      assert old(csp.cons) + Middle(f, n, item, attr1 + 1) ==
             old(csp.cons) + Middle(f, n, item, attr1) + Inner(f, item, attr1, attr1 + 1, n);
    }
  }

  /** Runs the pair loops of one family: `item` over the rows (or columns),
      `attr_1` over 0..n-1, `attr_2` over attr_1 + 1..n-1. */
  method PairLoops(n: nat, grid: seq<seq<Var>>, neq: seq<seq<int>>, board: Board, csp: CspBuilder,
                   gt: seq<seq<int>>, lt: seq<seq<int>>, f: Family)
    requires GridNames(grid, n) && Runs(f, neq, board, gt, lt)
    modifies csp
    ensures csp.cons == old(csp.cons) + Outer(f, n, n)
    ensures csp.vars == old(csp.vars)
  {
    for item := 0 to n
      invariant csp.cons == old(csp.cons) + Outer(f, n, item)
      invariant csp.vars == old(csp.vars)
    {
      MiddleLoop(n, grid, neq, board, csp, gt, lt, f, item);
      assert old(csp.cons) + Outer(f, n, item + 1) == old(csp.cons) + Outer(f, n, item) + Middle(f, n, item, n);
    }
  }

  /** `get_ineq_contraints`: model 1 adds a binary constraint for every pair
      of cells in a row, model 2 only for adjacent cells with a sign
      between them. */
  method IneqConstraints(n: nat, grid: seq<seq<Var>>, woIneq: seq<seq<int>>, board: Board, csp: CspBuilder,
                         gt: seq<seq<int>>, lt: seq<seq<int>>, modelId: int)
    requires GridNames(grid, n)
    modifies csp
    ensures modelId == 1 ==> csp.cons == old(csp.cons) + Outer(RowPairs1(board, Table(woIneq), Table(lt), Table(gt)), n, n)
    ensures modelId != 1 ==> csp.cons == old(csp.cons) + Outer(RowIneqs2(board, Table(lt), Table(gt)), n, n)
    ensures csp.vars == old(csp.vars)
  {
    if modelId == 1 {
      PairLoops(n, grid, woIneq, board, csp, gt, lt, RowPairs1(board, Table(woIneq), Table(lt), Table(gt)));
    } else {
      PairLoops(n, grid, woIneq, board, csp, gt, lt, RowIneqs2(board, Table(lt), Table(gt)));
    }
  }

  /** One all-different constraint over the cells of row `item` (or, with
      `byCol`, column `item`), the scope collected cell by cell. */
  method AllDiffOne(n: nat, grid: seq<seq<Var>>, woIneq: seq<seq<int>>, csp: CspBuilder, item: nat, byCol: bool)
    requires GridNames(grid, n) && item < n
    modifies csp
    ensures csp.cons == old(csp.cons) + [Constraint(if byCol then ColScope(n, item) else RowScope(n, item), Table(woIneq))]
    ensures csp.vars == old(csp.vars)
  {
    var scope := [];
    for k := 0 to n
      invariant |scope| == k
      invariant forall q | 0 <= q < k :: scope[q] == if byCol then Cell(q, item) else Cell(item, q)
    {
      if byCol {
        scope := scope + [grid[k][item].name];
      } else {
        scope := scope + [grid[item][k].name];
      }
    }
    assert scope == if byCol then ColScope(n, item) else RowScope(n, item);
    csp.AddConstraint(Constraint(scope, Table(woIneq)));
  }

  /** `get_col_constraints`: model 1 adds a binary not-equal constraint for
      every pair of cells in a column; any other model adds an
      all-different constraint per row and then one per column. */
  method ColConstraints(n: nat, grid: seq<seq<Var>>, woIneq: seq<seq<int>>, csp: CspBuilder, modelId: int)
    requires GridNames(grid, n)
    modifies csp
    ensures modelId == 1 ==> csp.cons == old(csp.cons) + Outer(ColPairs1(Table(woIneq)), n, n)
    ensures modelId != 1 ==> csp.cons == old(csp.cons) + RowAllDiff(n, n, Table(woIneq)) + ColAllDiff(n, n, Table(woIneq))
    ensures csp.vars == old(csp.vars)
  {
    if modelId == 1 {
      PairLoops(n, grid, woIneq, [], csp, [], [], ColPairs1(Table(woIneq)));
    } else {
      var tbl := Table(woIneq);
      for item := 0 to n
        invariant csp.cons == old(csp.cons) + RowAllDiff(n, item, tbl)
        invariant csp.vars == old(csp.vars)
      {
        AllDiffOne(n, grid, woIneq, csp, item, false);
        assert RowAllDiff(n, item + 1, tbl) == RowAllDiff(n, item, tbl) + [Constraint(RowScope(n, item), tbl)];
      }
      for col := 0 to n
        invariant csp.cons == old(csp.cons) + RowAllDiff(n, n, tbl) + ColAllDiff(n, col, tbl)
        invariant csp.vars == old(csp.vars)
      {
        AllDiffOne(n, grid, woIneq, csp, col, true);
        assert ColAllDiff(n, col + 1, tbl) == ColAllDiff(n, col, tbl) + [Constraint(ColScope(n, col), tbl)];
      }
    }
  }

  /** `futoshiki_csp_model_1`: the variables, then the row pairs, then the
      column pairs. */
  method Model1(board: Board) returns (csp: CspBuilder, grid: seq<seq<Var>>)
    requires NumericCells(board)
    ensures fresh(csp)
    ensures IsVarArr(grid, board)
    ensures csp.vars == Flatten(grid)
    ensures csp.cons == Model1Cons(board)
  {
    var n := |board|;
    grid := GenVarArr(n, board);
    IsVarArrNames(grid, board);
    csp := MakeCsp(grid);
    var woIneq, xLessY, xGreatY := BinaryTables(n);
    IneqConstraints(n, grid, woIneq, board, csp, xGreatY, xLessY, 1);
    ColConstraints(n, grid, woIneq, csp, 1);
  }

  /** `futoshiki_csp_model_2`: the variables, then the signed pairs, then
      the row and column all-different constraints. On an empty board the
      source's permutation builder never reaches length 0 and fails with
      RecursionError or MemoryError instead of returning. */
  method Model2(board: Board) returns (csp: CspBuilder, grid: seq<seq<Var>>)
    requires NumericCells(board) && |board| >= 1
    ensures fresh(csp)
    ensures IsVarArr(grid, board)
    ensures csp.vars == Flatten(grid)
    ensures csp.cons == Model2Cons(board)
  {
    var n := |board|;
    grid := GenVarArr(n, board);
    IsVarArrNames(grid, board);
    csp := MakeCsp(grid);
    var woIneq := Model2Tuples(n, None, 1);
    var xLessY, xGreatY := MirrorTables(n);
    IneqConstraints(n, grid, woIneq, board, csp, xGreatY, xLessY, 2);
    ColConstraints(n, grid, woIneq, csp, 2);
  }
}
