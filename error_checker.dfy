/**
 * The live error checker `checkSudokuErrors` (src/lib/uiErrorChecker.ts):
 * every cell of the UI grid holds an optional number and an error flag.
 * The checker clears every flag, then runs a row pass, a column pass and a
 * box pass; each pass remembers, per number, where it has met that number in
 * the current unit, and when the number comes again it flags every cell that
 * holds it. The flags of the three passes accumulate.
 */
module ErrorChecker {
  import opened Wrappers
  import opened Geometry

  /** A UI cell: the number entered (None for `undefined`) and its error flag (`undefined` reads as false). */
  datatype Cell = Cell(value: Option<int>, error: bool)

  /** The numbers of the grid, row by row; the checker never changes them. */
  ghost function ValuesOf(grid: array2<Cell>): (vals: seq<seq<Option<int>>>)
    reads grid
    ensures |vals| == grid.Length0
    ensures forall r :: 0 <= r < grid.Length0 ==> |vals[r]| == grid.Length1
    ensures forall r, c :: 0 <= r < grid.Length0 && 0 <= c < grid.Length1 ==> vals[r][c] == grid[r, c].value
  {
    seq(grid.Length0, r requires 0 <= r < grid.Length0 reads grid =>
      seq(grid.Length1, c requires 0 <= c < grid.Length1 reads grid => grid[r, c].value))
  }

  /** The numbers are a size×size square. */
  predicate IsSquare(vals: seq<seq<Option<int>>>, size: nat)
  {
    |vals| == size && forall r :: 0 <= r < size ==> |vals[r]| == size
  }

  // ---------------------------------------------------------------------
  // The rule the flags must reflect.
  // ---------------------------------------------------------------------

  /** Position c of the line u holds a number that also sits somewhere among positions 0 .. n-1 other than c. */
  predicate RepeatBefore(u: seq<Option<int>>, c: int, n: int)
    requires 0 <= c < |u| && 0 <= n <= |u|
  {
    u[c].Some? && exists c2 :: 0 <= c2 < n && c2 != c && u[c2] == u[c]
  }

  /** Column c, top to bottom. */
  function ColumnLine(vals: seq<seq<Option<int>>>, size: nat, c: int): (u: seq<Option<int>>)
    requires IsSquare(vals, size) && 0 <= c < size
    ensures |u| == size && forall r :: 0 <= r < size ==> u[r] == vals[r][c]
  {
    seq(size, r requires 0 <= r < size => vals[r][c])
  }

  /** Cell (r, c) holds a number that another cell of row r also holds. */
  predicate RowRepeat(vals: seq<seq<Option<int>>>, size: nat, r: int, c: int)
    requires IsSquare(vals, size) && 0 <= r < size && 0 <= c < size
  {
    RepeatBefore(vals[r], c, size)
  }

  /** Cell (r, c) holds a number that another cell of column c also holds. */
  predicate ColumnRepeat(vals: seq<seq<Option<int>>>, size: nat, r: int, c: int)
    requires IsSquare(vals, size) && 0 <= r < size && 0 <= c < size
  {
    RepeatBefore(ColumnLine(vals, size, c), r, size)
  }

  /** The b×b square at (sr, sc) lies on the grid. */
  predicate BoxOnGrid(size: nat, sr: int, sc: int, b: nat)
  {
    b > 0 && 0 <= sr && sr + b <= size && 0 <= sc && sc + b <= size
  }

  /** The cells of the b×b square at (sr, sc), in row-major order. */
  function BoxLine(vals: seq<seq<Option<int>>>, size: nat, sr: int, sc: int, b: nat): (u: seq<Option<int>>)
    requires IsSquare(vals, size) && BoxOnGrid(size, sr, sc, b)
    ensures |u| == b * b
    ensures forall t {:trigger CellRow(sr, b, t), CellCol(sc, b, t)} :: 0 <= t < b * b ==> u[t] == vals[CellRow(sr, b, t)][CellCol(sc, b, t)]
  {
    seq(b * b, t requires 0 <= t < b * b => vals[CellRow(sr, b, t)][CellCol(sc, b, t)])
  }

  /** Cell (r, c) of the square at (sr, sc) holds a number that another cell of that square also holds. */
  ghost predicate SquareRepeat(vals: seq<seq<Option<int>>>, size: nat, sr: int, sc: int, b: nat, r: int, c: int)
    requires IsSquare(vals, size) && BoxOnGrid(size, sr, sc, b) && InBox(sr, sc, b, r, c)
  {
    vals[r][c].Some? &&
    exists r2, c2 :: InBox(sr, sc, b, r2, c2) && (r2, c2) != (r, c) && vals[r2][c2] == vals[r][c]
  }

  /** Cell (r, c) holds a number that another cell of its aligned b×b box also holds. */
  predicate BoxRepeat(vals: seq<seq<Option<int>>>, size: nat, b: nat, r: int, c: int)
    requires IsSquare(vals, size) && b > 0 && 0 <= r < size && 0 <= c < size
  {
    vals[r][c].Some? &&
    exists r2, c2 :: 0 <= r2 < size && 0 <= c2 < size && (r2, c2) != (r, c) &&
      SameBox(b, r, c, r2, c2) && vals[r2][c2] == vals[r][c]
  }

  /** The flag checkSudokuErrors must leave on cell (r, c). */
  predicate InConflict(vals: seq<seq<Option<int>>>, size: nat, b: nat, r: int, c: int)
    requires IsSquare(vals, size) && b > 0 && 0 <= r < size && 0 <= c < size
  {
    RowRepeat(vals, size, r, c) || ColumnRepeat(vals, size, r, c) || BoxRepeat(vals, size, b, r, c)
  }

  /** (r2, c2) is another cell of the row, the column or the aligned box of (r, c). */
  predicate Peer(b: nat, r: int, c: int, r2: int, c2: int)
    requires b > 0
  {
    (r2, c2) != (r, c) && (r2 == r || c2 == c || SameBox(b, r, c, r2, c2))
  }

  /**
   * The three passes together flag exactly the cells whose number some peer
   * also holds; an empty cell is never in conflict.
   */
  lemma InConflictIffPeerShares(vals: seq<seq<Option<int>>>, size: nat, b: nat, r: int, c: int)
    requires IsSquare(vals, size) && b > 0 && 0 <= r < size && 0 <= c < size
    ensures InConflict(vals, size, b, r, c) <==>
      vals[r][c].Some? &&
      exists r2, c2 :: 0 <= r2 < size && 0 <= c2 < size && Peer(b, r, c, r2, c2) && vals[r2][c2] == vals[r][c]
  {
    if RowRepeat(vals, size, r, c) {
      var c2 :| 0 <= c2 < size && c2 != c && vals[r][c2] == vals[r][c];
      assert Peer(b, r, c, r, c2);
    }
    if ColumnRepeat(vals, size, r, c) {
      var u := ColumnLine(vals, size, c);
      var r2 :| 0 <= r2 < size && r2 != r && u[r2] == u[r];
      assert Peer(b, r, c, r2, c);
    }
    if vals[r][c].Some? &&
      exists r2, c2 :: 0 <= r2 < size && 0 <= c2 < size && Peer(b, r, c, r2, c2) && vals[r2][c2] == vals[r][c]
    {
      var r2, c2 :| 0 <= r2 < size && 0 <= c2 < size && Peer(b, r, c, r2, c2) && vals[r2][c2] == vals[r][c];
      if r2 == r {
        assert RowRepeat(vals, size, r, c);
      } else if c2 == c {
        assert ColumnLine(vals, size, c)[r2] == ColumnLine(vals, size, c)[r];
        assert ColumnRepeat(vals, size, r, c);
      } else {
        assert BoxRepeat(vals, size, b, r, c);
      }
    }
  }

  // ---------------------------------------------------------------------
  // The `seen` map of one pass over a line, and how one step changes it.
  // ---------------------------------------------------------------------

  /**
   * `seen` maps each number met among positions 0 .. n-1 of the line u to
   * the non-empty list of the positions that hold it.
   */
  predicate SeenIndex(seen: map<int, seq<int>>, u: seq<Option<int>>, n: int)
    requires 0 <= n <= |u|
  {
    (forall v :: v in seen ==>
      |seen[v]| > 0 && forall k :: 0 <= k < |seen[v]| ==> 0 <= seen[v][k] < n && u[seen[v][k]] == Some(v)) &&
    (forall c :: 0 <= c < n && u[c].Some? ==> u[c].value in seen && c in seen[u[c].value])
  }

  /** An empty position changes neither `seen` nor any repeat among positions 0 .. n. */
  lemma SeenSkip(seen: map<int, seq<int>>, u: seq<Option<int>>, n: int)
    requires 0 <= n < |u| && u[n] == None && SeenIndex(seen, u, n)
    ensures SeenIndex(seen, u, n + 1)
    ensures forall c :: 0 <= c <= n ==> (RepeatBefore(u, c, n + 1) <==> c < n && RepeatBefore(u, c, n))
  {
    forall c | 0 <= c <= n
      ensures RepeatBefore(u, c, n + 1) <==> c < n && RepeatBefore(u, c, n)
    {
      if c < n && RepeatBefore(u, c, n + 1) {
        var c2 :| 0 <= c2 < n + 1 && c2 != c && u[c2] == u[c];
        assert c2 != n;
      }
    }
  }

  /** A number met for the first time gets a one-position list and is nobody's repeat yet. */
  lemma SeenFirst(seen: map<int, seq<int>>, u: seq<Option<int>>, n: int)
    requires 0 <= n < |u| && u[n].Some? && u[n].value !in seen && SeenIndex(seen, u, n)
    ensures SeenIndex(seen[u[n].value := [n]], u, n + 1)
    ensures forall c :: 0 <= c <= n ==> (RepeatBefore(u, c, n + 1) <==> c < n && RepeatBefore(u, c, n))
  {
    forall c | 0 <= c <= n
      ensures RepeatBefore(u, c, n + 1) <==> c < n && RepeatBefore(u, c, n)
    {
      if c < n && u[c].Some? {
        assert u[c].value in seen;
      }
      if c == n {
        forall c2 | 0 <= c2 < n && u[c2].Some? ensures u[c2] != u[n] {
          assert u[c2].value in seen;
        }
      }
    }
  }

  /**
   * A number met again: its list grows by n, and exactly the positions in the
   * grown list become repeats, on top of the repeats already there.
   */
  lemma SeenAgain(seen: map<int, seq<int>>, u: seq<Option<int>>, n: int)
    requires 0 <= n < |u| && u[n].Some? && u[n].value in seen && SeenIndex(seen, u, n)
    ensures SeenIndex(seen[u[n].value := seen[u[n].value] + [n]], u, n + 1)
    ensures var l := seen[u[n].value] + [n]; forall k :: 0 <= k < |l| ==> 0 <= l[k] <= n
    ensures forall c :: 0 <= c <= n ==>
      (RepeatBefore(u, c, n + 1) <==> (c < n && RepeatBefore(u, c, n)) || c in seen[u[n].value] + [n])
  {
    var v := u[n].value;
    var l := seen[v] + [n];
    forall c | 0 <= c <= n
      ensures RepeatBefore(u, c, n + 1) <==> (c < n && RepeatBefore(u, c, n)) || c in l
    {
      if c in l {
        if c == n {
          assert seen[v][0] != n && u[seen[v][0]] == u[n];
        } else {
          var k :| 0 <= k < |l| && l[k] == c;
          assert u[c] == Some(v) && u[n] == Some(v);
        }
        assert RepeatBefore(u, c, n + 1);
      }
      if RepeatBefore(u, c, n + 1) && !(c < n && RepeatBefore(u, c, n)) {
        var c2 :| 0 <= c2 < n + 1 && c2 != c && u[c2] == u[c];
        if c == n {
          assert c in l;
        } else {
          assert c2 == n;
          assert c in seen[v];
        }
      }
    }
    var seen' := seen[v := l];
    forall w | w in seen'
      ensures |seen'[w]| > 0 && forall k :: 0 <= k < |seen'[w]| ==> 0 <= seen'[w][k] < n + 1 && u[seen'[w][k]] == Some(w)
    {
      if w == v {
        forall k | 0 <= k < |l| ensures 0 <= l[k] < n + 1 && u[l[k]] == Some(w) {
          if k < |seen[v]| { assert l[k] == seen[v][k]; }
        }
      }
    }
  }

  // ---------------------------------------------------------------------
  // The `forEach` callbacks that flag the cells of a list.
  // ---------------------------------------------------------------------

  /** Setting a flag leaves the numbers alone. */
  lemma ValuesOfMatches(grid: array2<Cell>, vals: seq<seq<Option<int>>>)
    requires |vals| == grid.Length0 && forall r :: 0 <= r < grid.Length0 ==> |vals[r]| == grid.Length1
    requires forall r, c :: 0 <= r < grid.Length0 && 0 <= c < grid.Length1 ==> grid[r, c].value == vals[r][c]
    ensures ValuesOf(grid) == vals
  {
    var now := ValuesOf(grid);
    forall r | 0 <= r < grid.Length0 ensures now[r] == vals[r] {
      assert |now[r]| == |vals[r]|;
      forall c | 0 <= c < grid.Length1 ensures now[r][c] == vals[r][c] { }
    }
  }

  /** The cell with its flag raised when `f` holds, untouched otherwise. */
  function Flagged(cell: Cell, f: bool): (res: Cell)
    ensures res.value == cell.value && res.error == (cell.error || f)
  {
    if f then cell.(error := true) else cell
  }

  /** Flags the cells of row `row` at the listed columns and changes nothing else. */
  method MarkInRow(grid: array2<Cell>, row: int, cols: seq<int>)
    requires 0 <= row < grid.Length0 && forall k :: 0 <= k < |cols| ==> 0 <= cols[k] < grid.Length1
    modifies grid
    ensures forall r, c :: 0 <= r < grid.Length0 && 0 <= c < grid.Length1 ==>
      grid[r, c] == Flagged(old(grid[r, c]), r == row && c in cols)
  {
    for k := 0 to |cols|
      invariant forall r, c :: 0 <= r < grid.Length0 && 0 <= c < grid.Length1 ==>
        grid[r, c] == Flagged(old(grid[r, c]), r == row && c in cols[..k])
    {
      assert cols[..k + 1] == cols[..k] + [cols[k]];
      grid[row, cols[k]] := grid[row, cols[k]].(error := true);
    }
    assert cols[..|cols|] == cols;
  }

  /** Flags the cells of column `col` at the listed rows and changes nothing else. */
  method MarkInColumn(grid: array2<Cell>, col: int, rows: seq<int>)
    requires 0 <= col < grid.Length1 && forall k :: 0 <= k < |rows| ==> 0 <= rows[k] < grid.Length0
    modifies grid
    ensures forall r, c :: 0 <= r < grid.Length0 && 0 <= c < grid.Length1 ==>
      grid[r, c] == Flagged(old(grid[r, c]), c == col && r in rows)
  {
    for k := 0 to |rows|
      invariant forall r, c :: 0 <= r < grid.Length0 && 0 <= c < grid.Length1 ==>
        grid[r, c] == Flagged(old(grid[r, c]), c == col && r in rows[..k])
    {
      assert rows[..k + 1] == rows[..k] + [rows[k]];
      grid[rows[k], col] := grid[rows[k], col].(error := true);
    }
    assert rows[..|rows|] == rows;
  }

  /** Flags the listed (row, column) cells and changes nothing else. */
  method MarkCells(grid: array2<Cell>, cells: seq<(int, int)>)
    requires forall k :: 0 <= k < |cells| ==> 0 <= cells[k].0 < grid.Length0 && 0 <= cells[k].1 < grid.Length1
    modifies grid
    ensures forall r, c :: 0 <= r < grid.Length0 && 0 <= c < grid.Length1 ==>
      grid[r, c] == Flagged(old(grid[r, c]), (r, c) in cells)
  {
    for k := 0 to |cells|
      invariant forall r, c :: 0 <= r < grid.Length0 && 0 <= c < grid.Length1 ==>
        grid[r, c] == Flagged(old(grid[r, c]), (r, c) in cells[..k])
    {
      assert cells[..k + 1] == cells[..k] + [cells[k]];
      grid[cells[k].0, cells[k].1] := grid[cells[k].0, cells[k].1].(error := true);
    }
    assert cells[..|cells|] == cells;
  }

  // ---------------------------------------------------------------------
  // The three passes.
  // ---------------------------------------------------------------------

  /** checkDuplicatesInRow: flags every cell of row `row` whose number the row holds twice. */
  method CheckDuplicatesInRow(grid: array2<Cell>, row: int, size: nat)
    requires grid.Length0 == size && grid.Length1 == size && 0 <= row < size
    modifies grid
    ensures forall r, c :: 0 <= r < size && 0 <= c < size ==>
      grid[r, c] == Flagged(old(grid[r, c]), r == row && RowRepeat(old(ValuesOf(grid)), size, r, c))
  {
    ghost var orig := CellsOf(grid);
    ghost var u := ValuesOf(grid)[row];
    var seen: map<int, seq<int>> := map[];
    for col := 0 to size
      invariant RowFlagsBefore(grid, orig, row, u, col) && SeenIndex(seen, u, col)
    {
      seen := VisitRowCell(grid, row, col, seen, orig, u);
    }
  }

  /** The row pass's flags after `col` cells of row `row`, u being that row's numbers. */
  ghost predicate RowFlagsBefore(grid: array2<Cell>, orig: seq<seq<Cell>>, row: int, u: seq<Option<int>>, col: int)
    reads grid
  {
    |orig| == grid.Length0 && (forall r :: 0 <= r < grid.Length0 ==> |orig[r]| == grid.Length1) &&
    0 <= row < grid.Length0 && |u| == grid.Length1 && 0 <= col <= |u| &&
    (forall c :: 0 <= c < |u| ==> u[c] == orig[row][c].value) &&
    forall r, c :: 0 <= r < grid.Length0 && 0 <= c < grid.Length1 ==>
      grid[r, c] == Flagged(orig[r][c], r == row && c < col && RepeatBefore(u, c, col))
  }

  /** One turn of the loop of checkDuplicatesInRow: the cell (row, col). */
  method VisitRowCell(grid: array2<Cell>, row: int, col: int, seen0: map<int, seq<int>>,
                      ghost orig: seq<seq<Cell>>, ghost u: seq<Option<int>>) returns (seen: map<int, seq<int>>)
    requires 0 <= col < grid.Length1
    requires RowFlagsBefore(grid, orig, row, u, col) && SeenIndex(seen0, u, col)
    modifies grid
    ensures RowFlagsBefore(grid, orig, row, u, col + 1) && SeenIndex(seen, u, col + 1)
  {
    seen := seen0;
    var value := grid[row, col].value;
    assert value == u[col];
    if value != None {
      var v := value.value;
      if v !in seen {
        SeenFirst(seen, u, col);
        seen := seen[v := [col]];
      } else {
        SeenAgain(seen, u, col);
        seen := seen[v := seen[v] + [col]];
        MarkInRow(grid, row, seen[v]);
      }
    } else {
      SeenSkip(seen, u, col);
    }
  }

  /** checkDuplicatesInColumn: flags every cell of column `col` whose number the column holds twice. */
  method CheckDuplicatesInColumn(grid: array2<Cell>, col: int, size: nat)
    requires grid.Length0 == size && grid.Length1 == size && 0 <= col < size
    modifies grid
    ensures forall r, c :: 0 <= r < size && 0 <= c < size ==>
      grid[r, c] == Flagged(old(grid[r, c]), c == col && ColumnRepeat(old(ValuesOf(grid)), size, r, c))
  {
    ghost var orig := CellsOf(grid);
    ghost var u := ColumnLine(ValuesOf(grid), size, col);
    var seen: map<int, seq<int>> := map[];
    for row := 0 to size
      invariant ColumnFlagsBefore(grid, orig, col, u, row) && SeenIndex(seen, u, row)
    {
      seen := VisitColumnCell(grid, col, row, seen, orig, u);
    }
  }

  /** The column pass's flags after `row` cells of column `col`, u being that column's numbers. */
  ghost predicate ColumnFlagsBefore(grid: array2<Cell>, orig: seq<seq<Cell>>, col: int, u: seq<Option<int>>, row: int)
    reads grid
  {
    |orig| == grid.Length0 && (forall r :: 0 <= r < grid.Length0 ==> |orig[r]| == grid.Length1) &&
    0 <= col < grid.Length1 && |u| == grid.Length0 && 0 <= row <= |u| &&
    (forall r :: 0 <= r < |u| ==> u[r] == orig[r][col].value) &&
    forall r, c :: 0 <= r < grid.Length0 && 0 <= c < grid.Length1 ==>
      grid[r, c] == Flagged(orig[r][c], c == col && r < row && RepeatBefore(u, r, row))
  }

  /** One turn of the loop of checkDuplicatesInColumn: the cell (row, col). */
  method VisitColumnCell(grid: array2<Cell>, col: int, row: int, seen0: map<int, seq<int>>,
                         ghost orig: seq<seq<Cell>>, ghost u: seq<Option<int>>) returns (seen: map<int, seq<int>>)
    requires 0 <= row < grid.Length0
    requires ColumnFlagsBefore(grid, orig, col, u, row) && SeenIndex(seen0, u, row)
    modifies grid
    ensures ColumnFlagsBefore(grid, orig, col, u, row + 1) && SeenIndex(seen, u, row + 1)
  {
    seen := seen0;
    var value := grid[row, col].value;
    assert value == u[row];
    if value != None {
      var v := value.value;
      if v !in seen {
        SeenFirst(seen, u, row);
        seen := seen[v := [row]];
      } else {
        SeenAgain(seen, u, row);
        seen := seen[v := seen[v] + [row]];
        MarkInColumn(grid, col, seen[v]);
      }
    } else {
      SeenSkip(seen, u, row);
    }
  }


  /** The grid cells of the row-major positions l of the square at (sr, sc). */
  function Cells(sr: int, sc: int, b: nat, l: seq<int>): (cells: seq<(int, int)>)
    requires b > 0 && forall k :: 0 <= k < |l| ==> 0 <= l[k] < b * b
    ensures |cells| == |l|
    ensures forall k :: 0 <= k < |l| ==> cells[k] == (CellRow(sr, b, l[k]), CellCol(sc, b, l[k]))
  {
    seq(|l|, k requires 0 <= k < |l| => (CellRow(sr, b, l[k]), CellCol(sc, b, l[k])))
  }

  /** Listing one more position lists its cell last. */
  lemma CellsSnoc(sr: int, sc: int, b: nat, l: seq<int>, cells: seq<(int, int)>, t: int, cell: (int, int))
    requires b > 0 && (forall k :: 0 <= k < |l| ==> 0 <= l[k] < b * b) && 0 <= t < b * b
    requires cells == Cells(sr, sc, b, l) && cell == (CellRow(sr, b, t), CellCol(sc, b, t))
    ensures cells + [cell] == Cells(sr, sc, b, l + [t])
  {
  }

  /** The cells of a square on the grid lie on the grid. */
  lemma CellsOnGrid(size: nat, sr: int, sc: int, b: nat, l: seq<int>)
    requires BoxOnGrid(size, sr, sc, b) && forall k :: 0 <= k < |l| ==> 0 <= l[k] < b * b
    ensures forall k :: 0 <= k < |l| ==>
      0 <= Cells(sr, sc, b, l)[k].0 < size && 0 <= Cells(sr, sc, b, l)[k].1 < size
  {
  }

  /** A cell is listed in Cells(l) exactly when it lies in the square and its position is listed in l. */
  lemma CellsMember(sr: int, sc: int, b: nat, l: seq<int>, r: int, c: int)
    requires b > 0 && forall k :: 0 <= k < |l| ==> 0 <= l[k] < b * b
    ensures (r, c) in Cells(sr, sc, b, l) <==> InBox(sr, sc, b, r, c) && Pos(sr, sc, b, r, c) in l
  {
    var cells := Cells(sr, sc, b, l);
    if (r, c) in cells {
      var k :| 0 <= k < |cells| && cells[k] == (r, c);
      PosCell(sr, sc, b, r, c, l[k]);
    }
    if InBox(sr, sc, b, r, c) && Pos(sr, sc, b, r, c) in l {
      var k :| 0 <= k < |l| && l[k] == Pos(sr, sc, b, r, c);
      PosCell(sr, sc, b, r, c, l[k]);
      assert cells[k] == (r, c);
    }
  }

  /** A repeat at the end of the row-major scan is a repeat anywhere in the square. */
  lemma BoxLineRepeat(vals: seq<seq<Option<int>>>, size: nat, sr: int, sc: int, b: nat, r: int, c: int)
    requires IsSquare(vals, size) && BoxOnGrid(size, sr, sc, b) && InBox(sr, sc, b, r, c)
    ensures RepeatBefore(BoxLine(vals, size, sr, sc, b), Pos(sr, sc, b, r, c), b * b) <==>
      SquareRepeat(vals, size, sr, sc, b, r, c)
  {
    var u := BoxLine(vals, size, sr, sc, b);
    var t := Pos(sr, sc, b, r, c);
    PosCell(sr, sc, b, r, c, t);
    assert u[t] == vals[r][c];
    if RepeatBefore(u, t, b * b) {
      var t2 :| 0 <= t2 < b * b && t2 != t && u[t2] == u[t];
      var r2, c2 := CellRow(sr, b, t2), CellCol(sc, b, t2);
      PosCell(sr, sc, b, r, c, t2);
      assert InBox(sr, sc, b, r2, c2) && (r2, c2) != (r, c) && vals[r2][c2] == vals[r][c];
    }
    if SquareRepeat(vals, size, sr, sc, b, r, c) {
      var r2, c2 :| InBox(sr, sc, b, r2, c2) && (r2, c2) != (r, c) && vals[r2][c2] == vals[r][c];
      var t2 := Pos(sr, sc, b, r2, c2);
      PosCell(sr, sc, b, r2, c2, t2);
      PosCell(sr, sc, b, r, c, t2);
      assert u[t2] == u[t];
    }
  }

  /** The cells of the grid, row by row. */
  ghost function CellsOf(grid: array2<Cell>): (cells: seq<seq<Cell>>)
    reads grid
    ensures |cells| == grid.Length0
    ensures forall r :: 0 <= r < grid.Length0 ==> |cells[r]| == grid.Length1
    ensures forall r, c :: 0 <= r < grid.Length0 && 0 <= c < grid.Length1 ==> cells[r][c] == grid[r, c]
  {
    seq(grid.Length0, r requires 0 <= r < grid.Length0 reads grid =>
      seq(grid.Length1, c requires 0 <= c < grid.Length1 reads grid => grid[r, c]))
  }

  /**
   * The state of a box pass after t cells of the square at (sr, sc): every
   * cell of the square among the first t that repeats a number seen so far
   * is flagged on top of its flag in `orig`, and every other cell is as in `orig`.
   */
  ghost predicate BoxFlagsBefore(grid: array2<Cell>, orig: seq<seq<Cell>>, sr: int, sc: int, b: nat,
                                 u: seq<Option<int>>, t: int)
    reads grid
    requires |orig| == grid.Length0 && forall r :: 0 <= r < grid.Length0 ==> |orig[r]| == grid.Length1
    requires b > 0 && |u| == b * b && 0 <= t <= b * b
  {
    forall r, c :: 0 <= r < grid.Length0 && 0 <= c < grid.Length1 ==>
      grid[r, c] == Flagged(orig[r][c],
        InBox(sr, sc, b, r, c) && Pos(sr, sc, b, r, c) < t && RepeatBefore(u, Pos(sr, sc, b, r, c), t))
  }

  /** `seen` lists, per number, the cells behind the positions of the square that `seenAt` lists. */
  predicate CellsMirror(seen: map<int, seq<(int, int)>>, seenAt: map<int, seq<int>>, sr: int, sc: int, b: nat)
    requires b > 0
  {
    seen.Keys == seenAt.Keys &&
    forall v :: v in seenAt ==>
      (forall k :: 0 <= k < |seenAt[v]| ==> 0 <= seenAt[v][k] < b * b) &&
      seen[v] == Cells(sr, sc, b, seenAt[v])
  }

  /** The state of the `seen` map of a box pass after t cells. */
  predicate SeenCells(seen: map<int, seq<(int, int)>>, seenAt: map<int, seq<int>>, u: seq<Option<int>>,
                      sr: int, sc: int, b: nat, t: int)
    requires b > 0 && |u| == b * b && 0 <= t <= b * b
  {
    SeenIndex(seenAt, u, t) && CellsMirror(seen, seenAt, sr, sc, b)
  }

  /** Storing matching lists under one number keeps `seen` and `seenAt` in step. */
  lemma MirrorPut(seen: map<int, seq<(int, int)>>, seenAt: map<int, seq<int>>, sr: int, sc: int, b: nat,
                  v: int, cells: seq<(int, int)>, l: seq<int>)
    requires b > 0 && CellsMirror(seen, seenAt, sr, sc, b)
    requires (forall k :: 0 <= k < |l| ==> 0 <= l[k] < b * b) && cells == Cells(sr, sc, b, l)
    ensures CellsMirror(seen[v := cells], seenAt[v := l], sr, sc, b)
  {
  }

  /**
   * The fixed context of a box pass: the square at (sr, sc) lies on the
   * size×size cells `orig`, and u lists the numbers of its cells in row-major order.
   */
  ghost predicate BoxScan(orig: seq<seq<Cell>>, size: nat, sr: int, sc: int, b: nat, u: seq<Option<int>>)
  {
    |orig| == size && (forall r :: 0 <= r < size ==> |orig[r]| == size) &&
    BoxOnGrid(size, sr, sc, b) && |u| == b * b &&
    forall t {:trigger CellRow(sr, b, t), CellCol(sc, b, t)} :: 0 <= t < b * b ==> u[t] == orig[CellRow(sr, b, t)][CellCol(sc, b, t)].value
  }

  /** The inner loop of checkDuplicatesInBox: the cells of row `row` of the square, left to right. */
  method ScanBoxRow(grid: array2<Cell>, startRow: int, startCol: int, boxSize: nat, row: int, ghost t0: int,
                    seen0: map<int, seq<(int, int)>>, ghost seenAt0: map<int, seq<int>>,
                    ghost orig: seq<seq<Cell>>, ghost u: seq<Option<int>>)
    returns (seen: map<int, seq<(int, int)>>, ghost seenAt: map<int, seq<int>>)
    requires grid.Length0 == grid.Length1 && 0 <= row < boxSize && t0 == row * boxSize
    requires BoxScan(orig, grid.Length0, startRow, startCol, boxSize, u)
    requires 0 <= t0 && t0 + boxSize <= boxSize * boxSize
    requires BoxFlagsBefore(grid, orig, startRow, startCol, boxSize, u, t0)
    requires SeenCells(seen0, seenAt0, u, startRow, startCol, boxSize, t0)
    modifies grid
    ensures BoxFlagsBefore(grid, orig, startRow, startCol, boxSize, u, t0 + boxSize)
    ensures SeenCells(seen, seenAt, u, startRow, startCol, boxSize, t0 + boxSize)
  {
    seen, seenAt := seen0, seenAt0;
    ghost var t := t0;
    for col := 0 to boxSize
      invariant t == t0 + col
      invariant BoxFlagsBefore(grid, orig, startRow, startCol, boxSize, u, t)
      invariant SeenCells(seen, seenAt, u, startRow, startCol, boxSize, t)
    {
      var currentRow := startRow + row;
      var currentCol := startCol + col;
      BoxCellAt(startRow, startCol, boxSize, row, col, t);
      seen, seenAt := VisitBoxCell(grid, startRow, startCol, boxSize, currentRow, currentCol, t, seen, seenAt, orig, u);
      t := t + 1;
    }
  }

  /** One turn of the inner loop of checkDuplicatesInBox: the cell (currentRow, currentCol), the t-th of the square. */
  method VisitBoxCell(grid: array2<Cell>, startRow: int, startCol: int, boxSize: nat,
                      currentRow: int, currentCol: int, ghost t: int,
                      seen0: map<int, seq<(int, int)>>, ghost seenAt0: map<int, seq<int>>,
                      ghost orig: seq<seq<Cell>>, ghost u: seq<Option<int>>)
    returns (seen: map<int, seq<(int, int)>>, ghost seenAt: map<int, seq<int>>)
    requires grid.Length0 == grid.Length1 && 0 <= t < boxSize * boxSize
    requires (CellRow(startRow, boxSize, t), CellCol(startCol, boxSize, t)) == (currentRow, currentCol)
    requires BoxScan(orig, grid.Length0, startRow, startCol, boxSize, u)
    requires BoxFlagsBefore(grid, orig, startRow, startCol, boxSize, u, t)
    requires SeenCells(seen0, seenAt0, u, startRow, startCol, boxSize, t)
    modifies grid
    ensures BoxFlagsBefore(grid, orig, startRow, startCol, boxSize, u, t + 1)
    ensures SeenCells(seen, seenAt, u, startRow, startCol, boxSize, t + 1)
  {
    seen, seenAt := seen0, seenAt0;
    var value := grid[currentRow, currentCol].value;
    assert value == u[t];
    if value != None {
      var v := value.value;
      if v !in seen {
        SeenFirst(seenAt, u, t);
        BoxFlagsStay(grid, orig, startRow, startCol, boxSize, u, t);
        assert [(currentRow, currentCol)] == Cells(startRow, startCol, boxSize, [t]);
        MirrorPut(seen, seenAt, startRow, startCol, boxSize, v, [(currentRow, currentCol)], [t]);
        seen := seen[v := [(currentRow, currentCol)]];
        seenAt := seenAt[v := [t]];
      } else {
        SeenAgain(seenAt, u, t);
        ghost var l := seenAt[v] + [t];
        var cells := seen[v] + [(currentRow, currentCol)];
        CellsSnoc(startRow, startCol, boxSize, seenAt[v], seen[v], t, (currentRow, currentCol));
        MirrorPut(seen, seenAt, startRow, startCol, boxSize, v, cells, l);
        seen := seen[v := cells];
        seenAt := seenAt[v := l];
        FlagBoxRepeat(grid, startRow, startCol, boxSize, t, cells, l, orig, u);
      }
    } else {
      SeenSkip(seenAt, u, t);
      BoxFlagsStay(grid, orig, startRow, startCol, boxSize, u, t);
    }
  }

  /** The t-th cell of the square at (sr, sc) is the cell of its row `row` and column `col`, t == row * b + col. */
  lemma BoxCellAt(sr: int, sc: int, b: nat, row: int, col: int, t: int)
    requires b > 0 && 0 <= row < b && 0 <= col < b && t == row * b + col
    ensures 0 <= t < b * b
    ensures CellRow(sr, b, t) == sr + row && CellCol(sc, b, t) == sc + col
    ensures (CellRow(sr, b, t), CellCol(sc, b, t)) == (sr + row, sc + col)
  {
    RowMajorBound(row, b);
    DivModRowMajor(row, col, b);
  }

  /** A turn that meets no repeat flags nothing new. */
  lemma BoxFlagsStay(grid: array2<Cell>, orig: seq<seq<Cell>>, sr: int, sc: int, b: nat, u: seq<Option<int>>, t: int)
    requires |orig| == grid.Length0 && forall r :: 0 <= r < grid.Length0 ==> |orig[r]| == grid.Length1
    requires b > 0 && |u| == b * b && 0 <= t < b * b
    requires forall p :: 0 <= p <= t ==> (RepeatBefore(u, p, t + 1) <==> p < t && RepeatBefore(u, p, t))
    requires BoxFlagsBefore(grid, orig, sr, sc, b, u, t)
    ensures BoxFlagsBefore(grid, orig, sr, sc, b, u, t + 1)
  {
    forall r, c | 0 <= r < grid.Length0 && 0 <= c < grid.Length1 && InBox(sr, sc, b, r, c)
      ensures (Pos(sr, sc, b, r, c) < t + 1 && RepeatBefore(u, Pos(sr, sc, b, r, c), t + 1)) ==
        (Pos(sr, sc, b, r, c) < t && RepeatBefore(u, Pos(sr, sc, b, r, c), t))
    {
      var p := Pos(sr, sc, b, r, c);
      if p <= t {
        var before := RepeatBefore(u, p, t);
        assert RepeatBefore(u, p, t + 1) <==> p < t && before;
      }
    }
  }

  /**
   * The `else` branch of one turn: the number at position t was met before
   * at the positions l minus t, so every cell of l is flagged.
   */
  method FlagBoxRepeat(grid: array2<Cell>, startRow: int, startCol: int, boxSize: nat, ghost t: int,
                       cells: seq<(int, int)>, ghost l: seq<int>, ghost orig: seq<seq<Cell>>, ghost u: seq<Option<int>>)
    requires grid.Length0 == grid.Length1 && BoxOnGrid(grid.Length0, startRow, startCol, boxSize)
    requires |orig| == grid.Length0 && forall r :: 0 <= r < grid.Length0 ==> |orig[r]| == grid.Length1
    requires |u| == boxSize * boxSize && 0 <= t < boxSize * boxSize
    requires forall k :: 0 <= k < |l| ==> 0 <= l[k] <= t
    requires cells == Cells(startRow, startCol, boxSize, l)
    requires forall p :: 0 <= p <= t ==>
      (RepeatBefore(u, p, t + 1) <==> (p < t && RepeatBefore(u, p, t)) || p in l)
    requires BoxFlagsBefore(grid, orig, startRow, startCol, boxSize, u, t)
    modifies grid
    ensures BoxFlagsBefore(grid, orig, startRow, startCol, boxSize, u, t + 1)
  {
    CellsOnGrid(grid.Length0, startRow, startCol, boxSize, l);
    MarkCells(grid, cells);
    forall r, c | 0 <= r < grid.Length0 && 0 <= c < grid.Length1 {
      CellsMember(startRow, startCol, boxSize, l, r, c);
    }
  }

  /** checkDuplicatesInBox: flags every cell of the square at (startRow, startCol) whose number the square holds twice. */
  method CheckDuplicatesInBox(grid: array2<Cell>, startRow: int, startCol: int, boxSize: nat)
    requires grid.Length0 == grid.Length1 && BoxOnGrid(grid.Length0, startRow, startCol, boxSize)
    modifies grid
    ensures forall r, c :: 0 <= r < grid.Length0 && 0 <= c < grid.Length1 ==>
      grid[r, c] == Flagged(old(grid[r, c]),
        InBox(startRow, startCol, boxSize, r, c) &&
        SquareRepeat(old(ValuesOf(grid)), grid.Length0, startRow, startCol, boxSize, r, c))
  {
    ghost var size := grid.Length0;
    ghost var vals := ValuesOf(grid);
    ghost var orig := CellsOf(grid);
    ghost var u := BoxLine(vals, size, startRow, startCol, boxSize);
    var seen: map<int, seq<(int, int)>> := map[];
    // The row-major positions behind the cells listed in `seen`.
    ghost var seenAt: map<int, seq<int>> := map[];
    ghost var t := 0;
    for row := 0 to boxSize
      invariant t == row * boxSize && 0 <= t <= boxSize * boxSize
      invariant BoxFlagsBefore(grid, orig, startRow, startCol, boxSize, u, t)
      invariant SeenCells(seen, seenAt, u, startRow, startCol, boxSize, t)
    {
      RowMajorBound(row, boxSize);
      seen, seenAt := ScanBoxRow(grid, startRow, startCol, boxSize, row, t, seen, seenAt, orig, u);
      t := t + boxSize;
    }
    assert t == boxSize * boxSize;
    forall r, c | 0 <= r < size && 0 <= c < size && InBox(startRow, startCol, boxSize, r, c) {
      BoxLineRepeat(vals, size, startRow, startCol, boxSize, r, c);
    }
  }

  // ---------------------------------------------------------------------
  // checkSudokuErrors.
  // ---------------------------------------------------------------------

  /** The box side: the exact square root of the two sizes the checker accepts. */
  function BoxSizeOf(size: nat): (b: nat)
    requires size == 9 || size == 16
    ensures b > 0 && b * b == size
  {
    if size == 9 then 3 else 4
  }

  /**
   * The flag of cell (r, c) once rows 0 .. rows-1, columns 0 .. cols-1 and the
   * aligned boxes before box (kr, kc) in row-major order have been checked.
   */
  predicate FlagAfter(vals: seq<seq<Option<int>>>, size: nat, b: nat, rows: int, cols: int, kr: int, kc: int,
                      r: int, c: int)
    requires IsSquare(vals, size) && b > 0 && 0 <= r < size && 0 <= c < size
  {
    (r < rows && RowRepeat(vals, size, r, c)) ||
    (c < cols && ColumnRepeat(vals, size, r, c)) ||
    ((r / b < kr || (r / b == kr && c / b < kc)) && BoxRepeat(vals, size, b, r, c))
  }

  /**
   * The aligned box (kr, kc) is the square at (kr*b, kc*b): a cell lies in it
   * exactly when its bands are kr and kc, and a repeat within that square is
   * a repeat within the cell's aligned box.
   */
  lemma AlignedSquare(vals: seq<seq<Option<int>>>, size: nat, b: nat, kr: int, kc: int, r: int, c: int)
    requires IsSquare(vals, size) && b > 0 && b * b == size && 0 <= kr < b && 0 <= kc < b
    requires 0 <= r < size && 0 <= c < size
    ensures BoxOnGrid(size, kr * b, kc * b, b)
    ensures InBox(kr * b, kc * b, b, r, c) <==> r / b == kr && c / b == kc
    ensures InBox(kr * b, kc * b, b, r, c) ==>
      (SquareRepeat(vals, size, kr * b, kc * b, b, r, c) <==> BoxRepeat(vals, size, b, r, c))
  {
    RowMajorBound(kr, b);
    RowMajorBound(kc, b);
    BandBounds(r, kr, b);
    BandBounds(c, kc, b);
    if InBox(kr * b, kc * b, b, r, c) {
      if SquareRepeat(vals, size, kr * b, kc * b, b, r, c) {
        var r2, c2 :| InBox(kr * b, kc * b, b, r2, c2) && (r2, c2) != (r, c) && vals[r2][c2] == vals[r][c];
        BandBounds(r2, kr, b);
        BandBounds(c2, kc, b);
        assert SameBox(b, r, c, r2, c2);
      }
      if BoxRepeat(vals, size, b, r, c) {
        var r2, c2 :| 0 <= r2 < size && 0 <= c2 < size && (r2, c2) != (r, c) &&
          SameBox(b, r, c, r2, c2) && vals[r2][c2] == vals[r][c];
        BandBounds(r2, kr, b);
        BandBounds(c2, kc, b);
        assert InBox(kr * b, kc * b, b, r2, c2);
      }
    }
  }

  /**
   * checkSudokuErrors: afterwards every cell keeps its number, and its flag
   * is raised exactly when another cell of its row, column or aligned box
   * holds the same number.
   */
  method CheckSudokuErrors(grid: array2<Cell>, size: nat)
    requires size == 9 || size == 16
    requires grid.Length0 == size && grid.Length1 == size
    modifies grid
    ensures forall r, c :: 0 <= r < size && 0 <= c < size ==>
      grid[r, c] == Cell(old(grid[r, c].value), InConflict(old(ValuesOf(grid)), size, BoxSizeOf(size), r, c))
  {
    ghost var vals := ValuesOf(grid);
    ghost var b := BoxSizeOf(size);
    forall r, c | 0 <= r < size && 0 <= c < size {
      grid[r, c] := grid[r, c].(error := false);
    }

    for row := 0 to size
      invariant forall r, c :: 0 <= r < size && 0 <= c < size ==>
        grid[r, c] == Cell(vals[r][c], FlagAfter(vals, size, b, row, 0, 0, 0, r, c))
    {
      ValuesOfMatches(grid, vals);
      CheckDuplicatesInRow(grid, row, size);
    }

    for col := 0 to size
      invariant forall r, c :: 0 <= r < size && 0 <= c < size ==>
        grid[r, c] == Cell(vals[r][c], FlagAfter(vals, size, b, size, col, 0, 0, r, c))
    {
      ValuesOfMatches(grid, vals);
      CheckDuplicatesInColumn(grid, col, size);
    }

    var boxSize := BoxSizeOf(size);
    var boxRow := 0;
    ghost var kr := 0;
    BandStep(0, b);
    while boxRow < size
      invariant 0 <= kr <= b && boxRow == kr * b && (boxRow < size <==> kr < b)
      invariant forall r, c :: 0 <= r < size && 0 <= c < size ==>
        grid[r, c] == Cell(vals[r][c], FlagAfter(vals, size, b, size, size, kr, 0, r, c))
    {
      CheckBandDuplicates(grid, size, boxRow, kr, vals);
      boxRow := boxRow + boxSize;
      kr := kr + 1;
      BandStep(kr, b);
    }
    forall r, c | 0 <= r < size && 0 <= c < size {
      BandLimit(r, b);
    }
  }

  /** The inner loop of the box phase of checkSudokuErrors: the boxes of band kr, left to right. */
  method CheckBandDuplicates(grid: array2<Cell>, size: nat, boxRow: int, ghost kr: int, ghost vals: seq<seq<Option<int>>>)
    requires size == 9 || size == 16
    requires grid.Length0 == size && grid.Length1 == size && IsSquare(vals, size)
    requires 0 <= kr < BoxSizeOf(size) && boxRow == kr * BoxSizeOf(size)
    requires forall r, c :: 0 <= r < size && 0 <= c < size ==>
      grid[r, c] == Cell(vals[r][c], FlagAfter(vals, size, BoxSizeOf(size), size, size, kr, 0, r, c))
    modifies grid
    ensures forall r, c :: 0 <= r < size && 0 <= c < size ==>
      grid[r, c] == Cell(vals[r][c], FlagAfter(vals, size, BoxSizeOf(size), size, size, kr + 1, 0, r, c))
  {
    var boxSize := BoxSizeOf(size);
    var boxCol := 0;
    ghost var kc := 0;
    BandStep(0, boxSize);
    while boxCol < size
      invariant 0 <= kc <= boxSize && boxCol == kc * boxSize && (boxCol < size <==> kc < boxSize)
      invariant forall r, c :: 0 <= r < size && 0 <= c < size ==>
        grid[r, c] == Cell(vals[r][c], FlagAfter(vals, size, boxSize, size, size, kr, kc, r, c))
    {
      ValuesOfMatches(grid, vals);
      forall r, c | 0 <= r < size && 0 <= c < size {
        AlignedSquare(vals, size, boxSize, kr, kc, r, c);
      }
      CheckDuplicatesInBox(grid, boxRow, boxCol, boxSize);
      boxCol := boxCol + boxSize;
      kc := kc + 1;
      BandStep(kc, boxSize);
    }
    forall r, c | 0 <= r < size && 0 <= c < size {
      BandLimit(c, boxSize);
    }
  }

}
