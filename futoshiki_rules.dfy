/** What the two encodings promise: how many constraints each adds, what
    their scopes are, and that a complete assignment satisfies a model
    exactly when it solves the puzzle. */
module FutoshikiRules {
  import opened Csp
  import opened FutoshikiTuples
  import opened FutoshikiCsp

  // ---------------------------------------------------------------------
  // The pair loops visit every pair a < b once

  lemma {:induction false} InnerHas(f: Family, i: nat, a: nat, lo: nat, hi: nat, b: nat)
    requires lo <= b < hi
    ensures forall c | c in Emit(f, i, a, b) :: c in Inner(f, i, a, lo, hi)
    decreases hi - lo
  {
    if b < hi - 1 {
      InnerHas(f, i, a, lo, hi - 1, b);
    }
  }

  lemma {:induction false} InnerFrom(f: Family, i: nat, a: nat, lo: nat, hi: nat, c: Constraint<Cell>) returns (b: nat)
    requires lo <= hi && c in Inner(f, i, a, lo, hi)
    ensures lo <= b < hi && c in Emit(f, i, a, b)
    decreases hi - lo
  {
    if c in Inner(f, i, a, lo, hi - 1) {
      b := InnerFrom(f, i, a, lo, hi - 1, c);
    } else {
      b := hi - 1;
    }
  }

  lemma {:induction false} MiddleHas(f: Family, n: nat, i: nat, a: nat, a': nat, b: nat)
    requires a' < a <= n && a' < b < n
    ensures forall c | c in Emit(f, i, a', b) :: c in Middle(f, n, i, a)
  {
    if a' == a - 1 {
      InnerHas(f, i, a', a' + 1, n, b);
    } else {
      MiddleHas(f, n, i, a - 1, a', b);
    }
  }

  lemma {:induction false} MiddleFrom(f: Family, n: nat, i: nat, a: nat, c: Constraint<Cell>) returns (a': nat, b: nat)
    requires a <= n && c in Middle(f, n, i, a)
    ensures a' < a && a' < b < n && c in Emit(f, i, a', b)
  {
    if a == 0 {
      assert false;
    }
    var prev, last := Middle(f, n, i, a - 1), Inner(f, i, a - 1, a, n);
    assert Middle(f, n, i, a) == prev + last;
    if c in prev {
      a', b := MiddleFrom(f, n, i, a - 1, c);
    } else {
      a' := a - 1;
      b := InnerFrom(f, i, a - 1, a, n, c);
    }
  }

  /** Whatever the body adds for outer index i and pair a < b is in the
      list the three loops build. */
  lemma {:induction false} OuterHas(f: Family, n: nat, m: nat, i: nat, a: nat, b: nat)
    requires i < m && a < b < n
    ensures forall c | c in Emit(f, i, a, b) :: c in Outer(f, n, m)
  {
    if i == m - 1 {
      MiddleHas(f, n, i, n, a, b);
    } else {
      OuterHas(f, n, m - 1, i, a, b);
    }
  }

  /** Everything in the list the three loops build was added by the body
      for some outer index i and pair a < b. */
  lemma {:induction false} OuterFrom(f: Family, n: nat, m: nat, c: Constraint<Cell>) returns (i: nat, a: nat, b: nat)
    requires c in Outer(f, n, m)
    ensures i < m && a < b < n && c in Emit(f, i, a, b)
  {
    OuterSplit(f, n, m, c);
    if c in Outer(f, n, m - 1) {
      i, a, b := OuterFrom(f, n, m - 1, c);
    } else {
      i := m - 1;
      a, b := MiddleFrom(f, n, i, n, c);
    }
  }

  /** A constraint in the list the outer loop builds came from an earlier
      outer index or from the last one. */
  lemma OuterSplit(f: Family, n: nat, m: nat, c: Constraint<Cell>)
    requires c in Outer(f, n, m)
    ensures m > 0 && (c in Outer(f, n, m - 1) || c in Middle(f, n, m - 1, n))
  {
  }

  // ---------------------------------------------------------------------
  // Counts

  /** A family whose body adds a constraint for every pair. */
  predicate EveryPair(f: Family)
  {
    f.RowPairs1? || f.ColPairs1?
  }

  lemma {:induction false} InnerCount(f: Family, i: nat, a: nat, lo: nat, hi: nat)
    requires EveryPair(f) && lo <= hi
    ensures |Inner(f, i, a, lo, hi)| == hi - lo
    decreases hi - lo
  {
    if hi > lo {
      InnerCount(f, i, a, lo, hi - 1);
    }
  }

  lemma MiddleStep(x: int, a: int, n: int)
    requires 2 * x == (a - 1) * (2 * n - (a - 1) - 1)
    ensures 2 * (x + (n - a)) == a * (2 * n - a - 1)
  {
  }

  lemma {:induction false} MiddleCount(f: Family, n: nat, i: nat, a: nat)
    requires EveryPair(f) && a <= n
    ensures 2 * |Middle(f, n, i, a)| == a * (2 * n - a - 1)
  {
    if a > 0 {
      MiddleCount(f, n, i, a - 1);
      InnerCount(f, i, a - 1, a, n);
      MiddleStep(|Middle(f, n, i, a - 1)|, a, n);
    }
  }

  lemma OuterStep(x: int, y: int, m: int, n: int)
    requires 2 * x == (m - 1) * n * (n - 1) && 2 * y == n * (2 * n - n - 1)
    ensures 2 * (x + y) == m * n * (n - 1)
  {
  }

  /** The pair loops over m lines of n cells add m * n(n-1)/2 constraints. */
  lemma {:induction false} OuterCount(f: Family, n: nat, m: nat)
    requires EveryPair(f)
    ensures 2 * |Outer(f, n, m)| == m * n * (n - 1)
  {
    if m > 0 {
      OuterCount(f, n, m - 1);
      MiddleCount(f, n, m - 1, n);
      OuterStep(|Outer(f, n, m - 1)|, |Middle(f, n, m - 1, n)|, m, n);
    }
  }

  /** Model 1 has n * n(n-1)/2 row constraints and as many column ones,
      and every one of them is binary over two different cells of one line
      of the board. */
  lemma Model1Shape(board: Board)
    ensures |Model1Cons(board)| == |board| * |board| * (|board| - 1)
    ensures forall c | c in Model1Cons(board) ::
      |c.scope| == 2 && c.scope[0] != c.scope[1] &&
      c.scope[0].row < |board| && c.scope[0].col < |board| &&
      c.scope[1].row < |board| && c.scope[1].col < |board|
  {
    var n := |board|;
    var rows := RowPairs1(board, RelSet(n, Ne), RelSet(n, Lt), RelSet(n, Gt));
    var cols := ColPairs1(RelSet(n, Ne));
    OuterCount(rows, n, n);
    OuterCount(cols, n, n);
    forall c | c in Model1Cons(board)
      ensures |c.scope| == 2 && c.scope[0] != c.scope[1]
      ensures c.scope[0].row < n && c.scope[0].col < n && c.scope[1].row < n && c.scope[1].col < n
    {
      if c in Outer(rows, n, n) {
        var i, a, b := OuterFrom(rows, n, n, c);
      } else {
        var j, a, b := OuterFrom(cols, n, n, c);
      }
    }
  }

  /** An inequality sign. */
  predicate IsSign(e: Entry)
  {
    e == Sym('<') || e == Sym('>')
  }

  /** The inequality signs in a row of the board. */
  function SignsIn(row: seq<Entry>): nat
  {
    if row == [] then 0 else SignsIn(row[..|row| - 1]) + (if IsSign(row[|row| - 1]) then 1 else 0)
  }

  /** The inequality signs on the board. */
  function SignCount(board: Board): nat
  {
    if board == [] then 0 else SignCount(board[..|board| - 1]) + SignsIn(board[|board| - 1])
  }

  lemma SignsInSnoc2(row: seq<Entry>, x: Entry, y: Entry)
    ensures SignsIn(row + [x, y]) == SignsIn(row) + (if IsSign(x) then 1 else 0) + (if IsSign(y) then 1 else 0)
  {
    assert (row + [x, y])[..|row| + 1] == row + [x];
    assert (row + [x])[..|row|] == row;
  }

  /** Model 2 adds a constraint for the pair (a, a + 1) exactly when a sign
      separates the two cells. */
  lemma {:induction false} InnerSigns(board: Board, lt: set<seq<int>>, gt: set<seq<int>>, i: nat, a: nat, hi: nat)
    requires a + 1 <= hi
    ensures |Inner(RowIneqs2(board, lt, gt), i, a, a + 1, hi)| == if a + 1 < hi && IsSign(Sep(board, i, a)) then 1 else 0
    decreases hi
  {
    if hi > a + 1 {
      InnerSigns(board, lt, gt, i, a, hi - 1);
    }
  }

  /** The first a pair loops of row i add one constraint per sign among the
      first 2a entries of the row. */
  lemma {:induction false} MiddleSigns(board: Board, lt: set<seq<int>>, gt: set<seq<int>>, i: nat, a: nat)
    requires NumericCells(board) && i < |board| && a < |board|
    ensures |Middle(RowIneqs2(board, lt, gt), |board|, i, a)| == SignsIn(board[i][..2 * a])
  {
    var n := |board|;
    var row := board[i];
    if a > 0 {
      MiddleSigns(board, lt, gt, i, a - 1);
      InnerSigns(board, lt, gt, i, a - 1, n);
      assert row[..2 * a] == row[..2 * (a - 1)] + [row[2 * (a - 1)], row[2 * (a - 1) + 1]];
      SignsInSnoc2(row[..2 * (a - 1)], row[2 * (a - 1)], row[2 * (a - 1) + 1]);
      assert row[2 * (a - 1)] == CellEntry(board, i, a - 1);
    }
  }

  /** Row i adds one constraint per sign in the row. */
  lemma RowSigns(board: Board, lt: set<seq<int>>, gt: set<seq<int>>, i: nat)
    requires NumericCells(board) && i < |board|
    ensures |Middle(RowIneqs2(board, lt, gt), |board|, i, |board|)| == SignsIn(board[i])
  {
    var n := |board|;
    var row := board[i];
    MiddleSigns(board, lt, gt, i, n - 1);
    assert Inner(RowIneqs2(board, lt, gt), i, n - 1, n, n) == [];
    assert row == row[..2 * (n - 1)] + [row[2 * (n - 1)]];
    assert row[2 * (n - 1)] == CellEntry(board, i, n - 1);
  }

  lemma {:induction false} OuterSigns(board: Board, lt: set<seq<int>>, gt: set<seq<int>>, m: nat)
    requires NumericCells(board) && m <= |board|
    ensures |Outer(RowIneqs2(board, lt, gt), |board|, m)| == SignCount(board[..m])
  {
    if m > 0 {
      OuterSigns(board, lt, gt, m - 1);
      RowSigns(board, lt, gt, m - 1);
      assert board[..m][..m - 1] == board[..m - 1];
    }
  }

  /** Model 2 has one binary constraint per inequality sign on the board,
      then n row and n column all-different constraints over n cells each. */
  lemma Model2Shape(board: Board)
    requires NumericCells(board) && |board| >= 1
    ensures |Model2Cons(board)| == SignCount(board) + 2 * |board|
    ensures forall i | 0 <= i < |board| ::
      Model2Cons(board)[SignCount(board) + i] == Constraint(RowScope(|board|, i), Table(Perms(|board|))) &&
      Model2Cons(board)[SignCount(board) + |board| + i] == Constraint(ColScope(|board|, i), Table(Perms(|board|)))
  {
    Model2At(board, 0);
    forall i | 0 <= i < |board| {
      Model2At(board, i);
    }
  }

  /** Row i's and column i's all-different constraints in model 2's list. */
  lemma Model2At(board: Board, i: nat)
    requires NumericCells(board) && |board| >= 1 && i < |board|
    ensures |Model2Cons(board)| == SignCount(board) + 2 * |board|
    ensures Model2Cons(board)[SignCount(board) + i] == Constraint(RowScope(|board|, i), Table(Perms(|board|)))
    ensures Model2Cons(board)[SignCount(board) + |board| + i] == Constraint(ColScope(|board|, i), Table(Perms(|board|)))
  {
    var n := |board|;
    var tbl := Table(Perms(n));
    var signs, rows, cols := Model2Parts(board);
    ConcatAt(signs, rows, cols, i);
    assert rows[i] == Constraint(RowScope(n, i), tbl);
    assert cols[i] == Constraint(ColScope(n, i), tbl);
  }

  /** Model 2's list in its three parts: the signs, the rows, the columns. */
  lemma Model2Parts(board: Board) returns (signs: seq<Constraint<Cell>>, rows: seq<Constraint<Cell>>, cols: seq<Constraint<Cell>>)
    requires NumericCells(board) && |board| >= 1
    ensures Model2Cons(board) == signs + rows + cols && |signs| == SignCount(board)
    ensures rows == RowAllDiff(|board|, |board|, Table(Perms(|board|)))
    ensures cols == ColAllDiff(|board|, |board|, Table(Perms(|board|)))
  {
    var n := |board|;
    var tbl := Table(Perms(n));
    signs := Outer(RowIneqs2(board, RelSet(n, Lt), RelSet(n, Gt)), n, n);
    rows, cols := RowAllDiff(n, n, tbl), ColAllDiff(n, n, tbl);
    OuterSigns(board, RelSet(n, Lt), RelSet(n, Gt), n);
    assert board[..n] == board;
  }

  lemma ConcatAt<T>(a: seq<T>, b: seq<T>, c: seq<T>, i: nat)
    requires i < |b| && i < |c|
    ensures (a + b + c)[|a| + i] == b[i]
    ensures (a + b + c)[|a| + |b| + i] == c[i]
  {
  }

  /** Model 2 holds the all-different constraint of every row and column. */
  lemma AllDiffIn(board: Board, i: nat)
    requires |board| >= 1 && i < |board|
    ensures Constraint(RowScope(|board|, i), Table(Perms(|board|))) in Model2Cons(board)
    ensures Constraint(ColScope(|board|, i), Table(Perms(|board|))) in Model2Cons(board)
  {
    var n := |board|;
    var tbl := Table(Perms(n));
    var signs := Outer(RowIneqs2(board, RelSet(n, Lt), RelSet(n, Gt)), n, n);
    var rows, cols := RowAllDiff(n, n, tbl), ColAllDiff(n, n, tbl);
    assert Model2Cons(board) == signs + rows + cols;
    assert rows[i] in rows && cols[i] in cols;
  }

  // ---------------------------------------------------------------------
  // Solutions

  /** An n-by-n grid of values. */
  predicate Square(sol: seq<seq<int>>, n: nat)
  {
    |sol| == n && forall i | 0 <= i < n :: |sol[i]| == n
  }

  /** The value a grid gives a cell (0 off the grid). */
  function ValueAt(sol: seq<seq<int>>, c: Cell): int
  {
    if c.row < |sol| && c.col < |sol[c.row]| then sol[c.row][c.col] else 0
  }

  /** The values a grid gives a scope, in scope order. */
  function Values(sol: seq<seq<int>>, scope: seq<Cell>): (r: seq<int>)
    ensures |r| == |scope| && forall k | 0 <= k < |scope| :: r[k] == ValueAt(sol, scope[k])
  {
    seq(|scope|, k requires 0 <= k < |scope| => ValueAt(sol, scope[k]))
  }

  /** Every constraint accepts the values the grid gives its scope. */
  predicate SatisfiesAll(sol: seq<seq<int>>, cons: seq<Constraint<Cell>>)
  {
    forall c | c in cons :: Check(c, Values(sol, c.scope))
  }

  /** Every cell takes a value of its variable's domain. */
  predicate InDomains(sol: seq<seq<int>>, board: Board)
    requires NumericCells(board)
  {
    Square(sol, |board|) &&
    forall i, j | 0 <= i < |board| && 0 <= j < |board| :: sol[i][j] in CellVar(board, i, j).dom
  }

  function Column(sol: seq<seq<int>>, j: nat): seq<int>
  {
    seq(|sol|, r requires 0 <= r < |sol| => ValueAt(sol, Cell(r, j)))
  }

  /** Values in 1..n, the given numbers kept. */
  predicate Givens(sol: seq<seq<int>>, board: Board)
    requires NumericCells(board) && Square(sol, |board|)
  {
    forall i, j | 0 <= i < |board| && 0 <= j < |board| ::
      1 <= sol[i][j] <= |board| &&
      (CellEntry(board, i, j) != Num(0) ==> sol[i][j] == CellEntry(board, i, j).value)
  }

  predicate RowsDistinct(sol: seq<seq<int>>, n: nat)
    requires Square(sol, n)
  {
    forall i | 0 <= i < n :: Distinct(sol[i])
  }

  predicate ColsDistinct(sol: seq<seq<int>>, n: nat)
  {
    forall j | 0 <= j < n :: Distinct(Column(sol, j))
  }

  /** Every sign between two cells of a row holds. */
  predicate SignsHold(sol: seq<seq<int>>, board: Board)
    requires Square(sol, |board|)
  {
    forall i, a | 0 <= i < |board| && 0 <= a < |board| - 1 ::
      (Sep(board, i, a) == Sym('<') ==> sol[i][a] < sol[i][a + 1]) &&
      (Sep(board, i, a) == Sym('>') ==> sol[i][a] > sol[i][a + 1])
  }

  /** The rules of the puzzle: a Latin square over 1..n that keeps the
      given numbers and obeys every sign. */
  predicate Solves(sol: seq<seq<int>>, board: Board)
    requires NumericCells(board)
  {
    Square(sol, |board|) && Givens(sol, board) &&
    RowsDistinct(sol, |board|) && ColsDistinct(sol, |board|) && SignsHold(sol, board)
  }

  /** The domains say exactly: values in 1..n, given numbers kept. */
  lemma DomainsAreGivens(sol: seq<seq<int>>, board: Board)
    requires WellFormedBoard(board) && Square(sol, |board|)
    ensures InDomains(sol, board) <==> Givens(sol, board)
  {
    forall i, j | 0 <= i < |board| && 0 <= j < |board|
      ensures sol[i][j] in CellVar(board, i, j).dom <==>
        1 <= sol[i][j] <= |board| &&
        (CellEntry(board, i, j) != Num(0) ==> sol[i][j] == CellEntry(board, i, j).value)
    {
      VarDomains(board, i, j);
    }
  }

  lemma PairValues(sol: seq<seq<int>>, n: nat, p: Cell, q: Cell)
    requires Square(sol, n) && p.row < n && p.col < n && q.row < n && q.col < n
    ensures Values(sol, [p, q]) == [sol[p.row][p.col], sol[q.row][q.col]]
  {
  }

  // ---------------------------------------------------------------------
  // Model 1 solves exactly the puzzle

  /** The row pair (a, b) of model 1 is satisfied exactly when the two
      cells differ and, for adjacent cells, obey the sign between them. */
  lemma Model1RowPair(board: Board, sol: seq<seq<int>>, i: nat, a: nat, b: nat)
    requires Square(sol, |board|) && i < |board| && a < b < |board|
    requires 1 <= sol[i][a] <= |board| && 1 <= sol[i][b] <= |board|
    ensures var n := |board|;
      var c := Emit(RowPairs1(board, RelSet(n, Ne), RelSet(n, Lt), RelSet(n, Gt)), i, a, b)[0];
      Check(c, Values(sol, c.scope)) <==>
        sol[i][a] != sol[i][b] &&
        (b == a + 1 && Sep(board, i, a) == Sym('<') ==> sol[i][a] < sol[i][b]) &&
        (b == a + 1 && Sep(board, i, a) == Sym('>') ==> sol[i][a] > sol[i][b])
  {
    var n := |board|;
    PairValues(sol, n, Cell(i, a), Cell(i, b));
    var t := [sol[i][a], sol[i][b]];
    RelSetHas(n, Ne, t);
    RelSetHas(n, Lt, t);
    RelSetHas(n, Gt, t);
  }

  lemma Model1ColPair(board: Board, sol: seq<seq<int>>, j: nat, a: nat, b: nat)
    requires Square(sol, |board|) && j < |board| && a < b < |board|
    requires 1 <= sol[a][j] <= |board| && 1 <= sol[b][j] <= |board|
    ensures var c := Emit(ColPairs1(RelSet(|board|, Ne)), j, a, b)[0];
      Check(c, Values(sol, c.scope)) <==> sol[a][j] != sol[b][j]
  {
    PairValues(sol, |board|, Cell(a, j), Cell(b, j));
    RelSetHas(|board|, Ne, [sol[a][j], sol[b][j]]);
  }

  /** The row pair (a, b) of model 1 is among its constraints, so a grid
      satisfying model 1 satisfies it. */
  lemma Model1RowHolds(board: Board, sol: seq<seq<int>>, i: nat, a: nat, b: nat)
    requires WellFormedBoard(board) && Square(sol, |board|) && Givens(sol, board)
    requires SatisfiesAll(sol, Model1Cons(board))
    requires i < |board| && a < b < |board|
    ensures sol[i][a] != sol[i][b]
    ensures b == a + 1 && Sep(board, i, a) == Sym('<') ==> sol[i][a] < sol[i][b]
    ensures b == a + 1 && Sep(board, i, a) == Sym('>') ==> sol[i][a] > sol[i][b]
  {
    var n := |board|;
    var rows := RowPairs1(board, RelSet(n, Ne), RelSet(n, Lt), RelSet(n, Gt));
    var c := Emit(rows, i, a, b)[0];
    OuterHas(rows, n, n, i, a, b);
    assert c in Outer(rows, n, n);
    assert c in Model1Cons(board);
    assert Check(c, Values(sol, c.scope));
    Model1RowPair(board, sol, i, a, b);
  }

  /** Model 1's row pairs make every row Latin and every sign hold. */
  lemma Model1Rows(board: Board, sol: seq<seq<int>>)
    requires WellFormedBoard(board) && Square(sol, |board|) && Givens(sol, board)
    requires SatisfiesAll(sol, Model1Cons(board))
    ensures RowsDistinct(sol, |board|) && SignsHold(sol, board)
  {
    var n := |board|;
    forall i, a, b | 0 <= i < n && 0 <= a < b < n
      ensures sol[i][a] != sol[i][b]
    {
      Model1RowHolds(board, sol, i, a, b);
    }
    forall i, a | 0 <= i < n && 0 <= a < n - 1
      ensures Sep(board, i, a) == Sym('<') ==> sol[i][a] < sol[i][a + 1]
      ensures Sep(board, i, a) == Sym('>') ==> sol[i][a] > sol[i][a + 1]
    {
      Model1RowHolds(board, sol, i, a, a + 1);
    }
  }

  /** Model 1's column pairs make every column Latin. */
  lemma Model1Cols(board: Board, sol: seq<seq<int>>)
    requires WellFormedBoard(board) && Square(sol, |board|) && Givens(sol, board)
    requires SatisfiesAll(sol, Model1Cons(board))
    ensures ColsDistinct(sol, |board|)
  {
    var n := |board|;
    var cols := ColPairs1(RelSet(n, Ne));
    forall j, a, b | 0 <= j < n && 0 <= a < b < n
      ensures Column(sol, j)[a] != Column(sol, j)[b]
    {
      OuterHas(cols, n, n, j, a, b);
      Model1ColPair(board, sol, j, a, b);
    }
  }

  /** A grid within the domains that satisfies model 1 solves the puzzle. */
  lemma Model1Sound(board: Board, sol: seq<seq<int>>)
    requires WellFormedBoard(board) && InDomains(sol, board)
    requires SatisfiesAll(sol, Model1Cons(board))
    ensures Solves(sol, board)
  {
    DomainsAreGivens(sol, board);
    Model1Rows(board, sol);
    Model1Cols(board, sol);
  }

  /** A solution of the puzzle satisfies every constraint of model 1. */
  lemma Model1Complete(board: Board, sol: seq<seq<int>>)
    requires WellFormedBoard(board) && Solves(sol, board)
    ensures SatisfiesAll(sol, Model1Cons(board))
  {
    var n := |board|;
    var rows := RowPairs1(board, RelSet(n, Ne), RelSet(n, Lt), RelSet(n, Gt));
    var cols := ColPairs1(RelSet(n, Ne));
    forall c | c in Model1Cons(board)
      ensures Check(c, Values(sol, c.scope))
    {
      if c in Outer(rows, n, n) {
        var i, a, b := OuterFrom(rows, n, n, c);
        assert sol[i][a] != sol[i][b];
        Model1RowPair(board, sol, i, a, b);
      } else {
        var j, a, b := OuterFrom(cols, n, n, c);
        assert Column(sol, j)[a] != Column(sol, j)[b];
        Model1ColPair(board, sol, j, a, b);
      }
    }
  }

  /** Model 1 is exact: a grid within the domains satisfies every one of
      its constraints if and only if it solves the puzzle. */
  lemma Model1Exact(board: Board, sol: seq<seq<int>>)
    requires WellFormedBoard(board) && Square(sol, |board|)
    ensures InDomains(sol, board) && SatisfiesAll(sol, Model1Cons(board)) <==> Solves(sol, board)
  {
    DomainsAreGivens(sol, board);
    if InDomains(sol, board) && SatisfiesAll(sol, Model1Cons(board)) {
      Model1Sound(board, sol);
    }
    if Solves(sol, board) {
      Model1Complete(board, sol);
    }
  }

  // ---------------------------------------------------------------------
  // Model 2 solves exactly the puzzle

  lemma RowValues(sol: seq<seq<int>>, n: nat, i: nat)
    requires Square(sol, n) && i < n
    ensures Values(sol, RowScope(n, i)) == sol[i]
  {
  }

  lemma ColValues(sol: seq<seq<int>>, n: nat, j: nat)
    requires Square(sol, n)
    ensures Values(sol, ColScope(n, j)) == Column(sol, j)
  {
  }

  /** A line of n values satisfies the all-different table exactly when its
      values are pairwise different and in 1..n. */
  lemma AllDiffLine(t: seq<int>, n: nat)
    requires n >= 1 && |t| == n
    ensures t in Table(Perms(n)) <==> Distinct(t) && forall m | 0 <= m < |t| :: 1 <= t[m] <= n
  {
    PermsTable(n);
    if t in Table(Perms(n)) {
      PermDistinct(t, n);
    }
    if Distinct(t) && forall m | 0 <= m < |t| :: 1 <= t[m] <= n {
      DistinctRangeIsPerm(t, n);
    }
  }

  /** The signed pair (a, a + 1) of model 2 is satisfied exactly when the
      sign holds. */
  lemma Model2SignPair(board: Board, sol: seq<seq<int>>, i: nat, a: nat)
    requires Square(sol, |board|) && i < |board| && a + 1 < |board| && IsSign(Sep(board, i, a))
    requires 1 <= sol[i][a] <= |board| && 1 <= sol[i][a + 1] <= |board|
    ensures var n := |board|;
      var es := Emit(RowIneqs2(board, RelSet(n, Lt), RelSet(n, Gt)), i, a, a + 1);
      |es| == 1 &&
      (Check(es[0], Values(sol, es[0].scope)) <==>
        (Sep(board, i, a) == Sym('<') ==> sol[i][a] < sol[i][a + 1]) &&
        (Sep(board, i, a) == Sym('>') ==> sol[i][a] > sol[i][a + 1]))
  {
    var n := |board|;
    PairValues(sol, n, Cell(i, a), Cell(i, a + 1));
    var t := [sol[i][a], sol[i][a + 1]];
    RelSetHas(n, Lt, t);
    RelSetHas(n, Gt, t);
  }

  /** Model 2's all-different constraints make rows and columns Latin. */
  lemma Model2Lines(board: Board, sol: seq<seq<int>>)
    requires |board| >= 1 && Square(sol, |board|)
    requires SatisfiesAll(sol, Model2Cons(board))
    ensures RowsDistinct(sol, |board|) && ColsDistinct(sol, |board|)
  {
    var n := |board|;
    forall i | 0 <= i < n
      ensures Distinct(sol[i]) && Distinct(Column(sol, i))
    {
      AllDiffIn(board, i);
      RowValues(sol, n, i);
      ColValues(sol, n, i);
      AllDiffLine(sol[i], n);
      AllDiffLine(Column(sol, i), n);
    }
  }

  /** Model 2's signed pairs make every sign hold. */
  lemma Model2Signs(board: Board, sol: seq<seq<int>>)
    requires WellFormedBoard(board) && |board| >= 1 && Square(sol, |board|) && Givens(sol, board)
    requires SatisfiesAll(sol, Model2Cons(board))
    ensures SignsHold(sol, board)
  {
    var n := |board|;
    var signs := RowIneqs2(board, RelSet(n, Lt), RelSet(n, Gt));
    assert Outer(signs, n, n) <= Model2Cons(board);
    forall i, a | 0 <= i < n && 0 <= a < n - 1 && IsSign(Sep(board, i, a))
      ensures Sep(board, i, a) == Sym('<') ==> sol[i][a] < sol[i][a + 1]
      ensures Sep(board, i, a) == Sym('>') ==> sol[i][a] > sol[i][a + 1]
    {
      OuterHas(signs, n, n, i, a, a + 1);
      Model2SignPair(board, sol, i, a);
    }
  }

  /** A grid within the domains that satisfies model 2 solves the puzzle. */
  lemma Model2Sound(board: Board, sol: seq<seq<int>>)
    requires WellFormedBoard(board) && |board| >= 1 && InDomains(sol, board)
    requires SatisfiesAll(sol, Model2Cons(board))
    ensures Solves(sol, board)
  {
    DomainsAreGivens(sol, board);
    Model2Lines(board, sol);
    Model2Signs(board, sol);
  }

  /** A solution of the puzzle satisfies every constraint of model 2. */
  lemma Model2Complete(board: Board, sol: seq<seq<int>>)
    requires WellFormedBoard(board) && |board| >= 1 && Solves(sol, board)
    ensures SatisfiesAll(sol, Model2Cons(board))
  {
    var n := |board|;
    var signs := RowIneqs2(board, RelSet(n, Lt), RelSet(n, Gt));
    var tbl := Table(Perms(n));
    forall c | c in Model2Cons(board)
      ensures Check(c, Values(sol, c.scope))
    {
      if c in Outer(signs, n, n) {
        var i, a, b := OuterFrom(signs, n, n, c);
        Model2SignPair(board, sol, i, a);
      } else if c in RowAllDiff(n, n, tbl) {
        var i :| 0 <= i < n && c == Constraint(RowScope(n, i), tbl);
        RowValues(sol, n, i);
        AllDiffLine(sol[i], n);
      } else {
        assert c in ColAllDiff(n, n, tbl);
        var j :| 0 <= j < n && c == Constraint(ColScope(n, j), tbl);
        ColValues(sol, n, j);
        AllDiffLine(Column(sol, j), n);
      }
    }
  }

  /** Model 2 is exact: a grid within the domains satisfies every one of
      its constraints if and only if it solves the puzzle. */
  lemma Model2Exact(board: Board, sol: seq<seq<int>>)
    requires WellFormedBoard(board) && |board| >= 1 && Square(sol, |board|)
    ensures InDomains(sol, board) && SatisfiesAll(sol, Model2Cons(board)) <==> Solves(sol, board)
  {
    DomainsAreGivens(sol, board);
    if InDomains(sol, board) && SatisfiesAll(sol, Model2Cons(board)) {
      Model2Sound(board, sol);
    }
    if Solves(sol, board) {
      Model2Complete(board, sol);
    }
  }

  /** The two encodings accept the same grids. */
  lemma ModelsAgree(board: Board, sol: seq<seq<int>>)
    requires WellFormedBoard(board) && |board| >= 1 && Square(sol, |board|)
    ensures InDomains(sol, board) && SatisfiesAll(sol, Model1Cons(board)) <==>
            InDomains(sol, board) && SatisfiesAll(sol, Model2Cons(board))
  {
    Model1Exact(board, sol);
    Model2Exact(board, sol);
  }
}
