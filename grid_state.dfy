/**
 * `checkSudokuState` (src/lib/uiErrorChecker.ts): reads the UI grid and
 * reports whether it is complete (every row, column and aligned box holds
 * 1 .. size once each), whether no cell carries an error flag, and how often
 * each number has been entered. It changes nothing.
 */
module GridState {
  import opened Wrappers
  import opened Geometry
  import opened ErrorChecker

  // ---------------------------------------------------------------------
  // What a complete unit is.
  // ---------------------------------------------------------------------

  /** A cell value the completeness check accepts: defined and within 1 .. n. */
  predicate InRange(x: Option<int>, n: int)
  {
    x.Some? && 1 <= x.value <= n
  }

  /** No value occurs twice in u. */
  predicate Distinct(u: seq<Option<int>>)
  {
    forall i, j :: 0 <= i < j < |u| ==> u[i] != u[j]
  }

  /** Every cell of the unit holds a number of 1 .. n and no number twice. */
  predicate Complete(u: seq<Option<int>>, n: int)
  {
    (forall i :: 0 <= i < |u| ==> InRange(u[i], n)) && Distinct(u)
  }

  /** The first k cells of u are in range and pairwise different. */
  predicate CompleteUpTo(u: seq<Option<int>>, k: int, n: int)
    requires 0 <= k <= |u|
  {
    (forall i :: 0 <= i < k ==> InRange(u[i], n)) &&
    (forall i, j :: 0 <= i < j < k ==> u[i] != u[j])
  }

  /** The state of one `Set`-based scan after k cells: `values` holds exactly the numbers met. */
  ghost predicate LineScan(values: set<int>, u: seq<Option<int>>, k: int, n: int)
    requires 0 <= k <= |u|
  {
    CompleteUpTo(u, k, n) &&
    forall x :: x in values <==> exists i :: 0 <= i < k && u[i] == Some(x)
  }

  /** A cell holding a number of 1 .. n not yet in the set extends the scan. */
  lemma ScanAccept(values: set<int>, u: seq<Option<int>>, k: int, n: int)
    requires 0 <= k < |u| && LineScan(values, u, k, n)
    requires InRange(u[k], n) && u[k].value !in values
    ensures LineScan(values + {u[k].value}, u, k + 1, n)
  {
    forall i | 0 <= i < k ensures u[i] != u[k] {
      assert u[i].value in values;
    }
  }

  /** A cell that fails that test shows the unit is not complete. */
  lemma ScanReject(values: set<int>, u: seq<Option<int>>, k: int, n: int)
    requires 0 <= k < |u| && LineScan(values, u, k, n)
    requires !(InRange(u[k], n) && u[k].value !in values)
    ensures !Complete(u, n)
  {
    if InRange(u[k], n) {
      var i :| 0 <= i < k && u[i] == Some(u[k].value);
      assert u[i] == u[k];
    }
  }

  /** The cell is empty, outside 1 .. size, or already in the set: the three completeness scans stop with `false`. */
  predicate Rejects(cellValue: Option<int>, values: set<int>, size: int)
  {
    cellValue == None || cellValue.value == 0 || cellValue.value < 1 || cellValue.value > size ||
    cellValue.value in values
  }

  /** One cell of a scan: rejecting it shows the unit incomplete, accepting it extends the scan. */
  lemma ScanStep(values: set<int>, u: seq<Option<int>>, k: int, n: int, cellValue: Option<int>)
    requires 0 <= k < |u| && LineScan(values, u, k, n) && u[k] == cellValue
    ensures Rejects(cellValue, values, n) ==> !Complete(u, n)
    ensures !Rejects(cellValue, values, n) ==> cellValue.Some? && LineScan(values + {cellValue.value}, u, k + 1, n)
  {
    if Rejects(cellValue, values, n) {
      ScanReject(values, u, k, n);
    } else {
      ScanAccept(values, u, k, n);
    }
  }

  // ---------------------------------------------------------------------
  // Pigeonhole: n distinct numbers from 1 .. n are all of 1 .. n.
  // ---------------------------------------------------------------------

  /** The values that occur in u. */
  function Values(u: seq<Option<int>>): set<Option<int>>
  {
    set i | 0 <= i < |u| :: u[i]
  }

  /** The numbers 1 .. n. */
  ghost function Target(n: int): set<Option<int>>
  {
    set v | 1 <= v <= n :: Some(v)
  }

  lemma {:induction false} TargetCard(n: nat)
    ensures |Target(n)| == n
  {
    if n > 0 {
      TargetCard(n - 1);
      assert Target(n) == Target(n - 1) + {Some(n)};
    } else {
      assert Target(n) == {};
    }
  }

  /** u has at most |u| different values, and exactly |u| when it has no repeat. */
  lemma {:induction false} ValuesCard(u: seq<Option<int>>)
    ensures |Values(u)| <= |u|
    ensures |Values(u)| == |u| <==> Distinct(u)
  {
    if |u| == 0 {
      assert Values(u) == {};
    } else {
      var w, x := u[..|u| - 1], u[|u| - 1];
      ValuesCard(w);
      assert u == w + [x];
      assert Values(u) == Values(w) + {x};
      if x in Values(w) {
        var i :| 0 <= i < |w| && w[i] == x;
        assert u[i] == u[|u| - 1];
        assert !Distinct(u);
      } else {
        if Distinct(w) {
          forall i, j | 0 <= i < j < |u| ensures u[i] != u[j] {
            if j == |u| - 1 {
              assert u[i] == w[i];
            }
          }
        } else {
          var i, j :| 0 <= i < j < |w| && w[i] == w[j];
          assert u[i] == u[j];
        }
      }
    }
  }

  /** A subset with as many elements as its superset is the whole superset. */
  lemma SubsetCard<T>(a: set<T>, b: set<T>)
    requires a <= b
    ensures |a| <= |b|
    ensures |a| == |b| ==> a == b
  {
    assert b == a + (b - a);
    if |a| == |b| {
      assert |b - a| == 0;
    }
  }

  /**
   * A unit of n cells is complete exactly when every number of 1 .. n
   * occurs in it: the `Set`-based check and "contains each of 1 .. n"
   * agree.
   */
  lemma CompleteIffAllPresent(u: seq<Option<int>>, n: nat)
    requires |u| == n
    ensures Complete(u, n) <==> forall v :: 1 <= v <= n ==> Some(v) in u
  {
    TargetCard(n);
    ValuesCard(u);
    if Complete(u, n) {
      assert Values(u) <= Target(n);
      SubsetCard(Values(u), Target(n));
      forall v | 1 <= v <= n ensures Some(v) in u {
        assert Some(v) in Target(n);
        var i :| 0 <= i < |u| && u[i] == Some(v);
      }
    }
    if forall v :: 1 <= v <= n ==> Some(v) in u {
      forall x | x in Target(n) ensures x in Values(u) {
        var i :| 0 <= i < |u| && u[i] == x;
      }
      SubsetCard(Target(n), Values(u));
      forall i | 0 <= i < |u| ensures InRange(u[i], n) {
        assert u[i] in Values(u);
      }
    }
  }

  /** Every number of 1 .. n occurs in u. */
  ghost predicate AllPresent(u: seq<Option<int>>, n: int)
  {
    forall v :: 1 <= v <= n ==> Some(v) in u
  }

  // ---------------------------------------------------------------------
  // The three completeness checks.
  // ---------------------------------------------------------------------

  /** Every row is complete. */
  ghost predicate RowsComplete(vals: seq<seq<Option<int>>>, size: nat)
    requires IsSquare(vals, size)
  {
    forall r :: 0 <= r < size ==> Complete(vals[r], size)
  }

  /** Every column is complete. */
  ghost predicate ColumnsComplete(vals: seq<seq<Option<int>>>, size: nat)
    requires IsSquare(vals, size)
  {
    forall c :: 0 <= c < size ==> Complete(ColumnLine(vals, size, c), size)
  }

  /** The aligned box in band kr and column band kc, in row-major order. */
  ghost function AlignedBox(vals: seq<seq<Option<int>>>, size: nat, b: nat, kr: int, kc: int): (u: seq<Option<int>>)
    requires IsSquare(vals, size) && b > 0 && b * b == size && 0 <= kr < b && 0 <= kc < b
    ensures |u| == size
  {
    RowMajorBound(kr, b);
    RowMajorBound(kc, b);
    BoxLine(vals, size, kr * b, kc * b, b)
  }

  /** Every aligned box is complete. */
  ghost predicate BoxesComplete(vals: seq<seq<Option<int>>>, size: nat, b: nat)
    requires IsSquare(vals, size) && b > 0 && b * b == size
  {
    forall kr, kc :: 0 <= kr < b && 0 <= kc < b ==> Complete(AlignedBox(vals, size, b, kr, kc), size)
  }

  /** checkRows: true exactly when every row holds 1 .. size once each. */
  method CheckRows(grid: array2<Cell>, size: nat) returns (ok: bool)
    requires grid.Length0 == size && grid.Length1 == size
    ensures ok <==> RowsComplete(ValuesOf(grid), size)
  {
    ghost var vals := ValuesOf(grid);
    for row := 0 to size
      invariant forall r :: 0 <= r < row ==> Complete(vals[r], size)
    {
      var rowValues: set<int> := {};
      for col := 0 to size
        invariant LineScan(rowValues, vals[row], col, size)
      {
        var cellValue := grid[row, col].value;
        if cellValue == None || cellValue.value == 0 || cellValue.value < 1 || cellValue.value > size ||
           cellValue.value in rowValues
        {
          ScanReject(rowValues, vals[row], col, size);
          return false;
        }
        ScanAccept(rowValues, vals[row], col, size);
        rowValues := rowValues + {cellValue.value};
      }
    }
    return true;
  }

  /** checkColumns: true exactly when every column holds 1 .. size once each. */
  method CheckColumns(grid: array2<Cell>, size: nat) returns (ok: bool)
    requires grid.Length0 == size && grid.Length1 == size
    ensures ok <==> ColumnsComplete(ValuesOf(grid), size)
  {
    ghost var vals := ValuesOf(grid);
    for col := 0 to size
      invariant forall c :: 0 <= c < col ==> Complete(ColumnLine(vals, size, c), size)
    {
      ghost var u := ColumnLine(vals, size, col);
      var colValues: set<int> := {};
      for row := 0 to size
        invariant LineScan(colValues, u, row, size)
      {
        var cellValue := grid[row, col].value;
        if cellValue == None || cellValue.value == 0 || cellValue.value < 1 || cellValue.value > size ||
           cellValue.value in colValues
        {
          ScanReject(colValues, u, row, size);
          return false;
        }
        ScanAccept(colValues, u, row, size);
        colValues := colValues + {cellValue.value};
      }
    }
    return true;
  }

  /** u lists the numbers of the square at (sr, sc) of the grid in row-major order. */
  ghost predicate ListsBox(grid: array2<Cell>, sr: int, sc: int, b: nat, u: seq<Option<int>>)
    reads grid
  {
    grid.Length0 == grid.Length1 && BoxOnGrid(grid.Length0, sr, sc, b) && |u| == b * b &&
    forall t {:trigger CellRow(sr, b, t), CellCol(sc, b, t)} :: 0 <= t < b * b ==>
      u[t] == grid[CellRow(sr, b, t), CellCol(sc, b, t)].value
  }

  /**
   * The body of checkSubgrids for one box: true exactly when the square at
   * (boxRow, boxCol), whose cells u lists, holds 1 .. size once each.
   */
  method CheckSubgrid(grid: array2<Cell>, size: nat, boxRow: int, boxCol: int, boxSize: nat, ghost u: seq<Option<int>>)
    returns (ok: bool)
    requires grid.Length0 == size && grid.Length1 == size
    requires ListsBox(grid, boxRow, boxCol, boxSize, u)
    ensures ok <==> Complete(u, size)
  {
    var subgridValues: set<int> := {};
    ghost var t := 0;
    for row := 0 to boxSize
      invariant t == row * boxSize && t <= |u|
      invariant LineScan(subgridValues, u, t, size)
    {
      RowMajorBound(row, boxSize);
      MulSucc(row, boxSize);
      ghost var base := t;  // the cells of the rows above
      for col := 0 to boxSize
        invariant t == base + col && t <= |u|
        invariant LineScan(subgridValues, u, t, size)
      {
        var currentRow := boxRow + row;
        var currentCol := boxCol + col;
        BoxCellAt(boxRow, boxCol, boxSize, row, col, t);
        var cellValue := grid[currentRow, currentCol].value;
        ScanStep(subgridValues, u, t, size, cellValue);
        if Rejects(cellValue, subgridValues, size) {
          return false;
        }
        subgridValues := subgridValues + {cellValue.value};
        t := t + 1;
      }
    }
    return true;
  }

  /** checkSubgrids: true exactly when every aligned box holds 1 .. size once each. */
  method CheckSubgrids(grid: array2<Cell>, size: nat) returns (ok: bool)
    requires size == 9 || size == 16
    requires grid.Length0 == size && grid.Length1 == size
    ensures ok <==> BoxesComplete(ValuesOf(grid), size, BoxSizeOf(size))
  {
    var boxSize := BoxSizeOf(size);
    var boxRow := 0;
    ghost var kr := 0;
    BandStep(0, boxSize);
    while boxRow < size
      invariant 0 <= kr <= boxSize && boxRow == kr * boxSize && (boxRow < size <==> kr < boxSize)
      invariant forall i, j :: 0 <= i < kr && 0 <= j < boxSize ==> Complete(AlignedBox(ValuesOf(grid), size, boxSize, i, j), size)
    {
      var bandOk := CheckBand(grid, size, boxSize, boxRow, kr);
      if !bandOk {
        return false;
      }
      boxRow := boxRow + boxSize;
      kr := kr + 1;
      BandStep(kr, boxSize);
    }
    return true;
  }

  /** The loop of checkSubgrids over the boxes of band kr, the rows boxRow .. boxRow + boxSize - 1, left to right. */
  method CheckBand(grid: array2<Cell>, size: nat, boxSize: nat, boxRow: int, ghost kr: int) returns (ok: bool)
    requires grid.Length0 == size && grid.Length1 == size && boxSize > 0 && boxSize * boxSize == size
    requires 0 <= kr < boxSize && boxRow == kr * boxSize
    ensures ok <==> forall j :: 0 <= j < boxSize ==> Complete(AlignedBox(ValuesOf(grid), size, boxSize, kr, j), size)
  {
    var boxCol := 0;
    ghost var kc := 0;
    BandStep(0, boxSize);
    RowMajorBound(kr, boxSize);
    while boxCol < size
      invariant 0 <= kc <= boxSize && boxCol == kc * boxSize && (boxCol < size <==> kc < boxSize)
      invariant forall j :: 0 <= j < kc ==> Complete(AlignedBox(ValuesOf(grid), size, boxSize, kr, j), size)
    {
      RowMajorBound(kc, boxSize);
      ghost var u := AlignedBox(ValuesOf(grid), size, boxSize, kr, kc);
      assert u == BoxLine(ValuesOf(grid), size, boxRow, boxCol, boxSize);
      var boxOk := CheckSubgrid(grid, size, boxRow, boxCol, boxSize, u);
      if !boxOk {
        assert !Complete(AlignedBox(ValuesOf(grid), size, boxSize, kr, kc), size);
        return false;
      }
      boxCol := boxCol + boxSize;
      kc := kc + 1;
      BandStep(kc, boxSize);
    }
    return true;
  }

  /** Whether some cell carries a set error flag. */
  method AnyError(grid: array2<Cell>) returns (found: bool)
    ensures found <==> exists r, c :: 0 <= r < grid.Length0 && 0 <= c < grid.Length1 && grid[r, c].error
  {
    for row := 0 to grid.Length0
      invariant forall r, c :: 0 <= r < row && 0 <= c < grid.Length1 ==> !grid[r, c].error
    {
      for col := 0 to grid.Length1
        invariant forall r, c :: 0 <= r < row && 0 <= c < grid.Length1 ==> !grid[r, c].error
        invariant forall c :: 0 <= c < col ==> !grid[row, c].error
      {
        if grid[row, col].error {
          return true;
        }
      }
    }
    return false;
  }

  // ---------------------------------------------------------------------
  // usedNumbers.
  // ---------------------------------------------------------------------

  /** The cells of the grid row after row. */
  ghost function Flat(vals: seq<seq<Option<int>>>): seq<Option<int>>
  {
    if |vals| == 0 then [] else Flat(vals[..|vals| - 1]) + vals[|vals| - 1]
  }

  /** How many cells of u hold v. */
  function Count(u: seq<Option<int>>, v: int): nat
  {
    if |u| == 0 then 0 else Count(u[..|u| - 1], v) + (if u[|u| - 1] == Some(v) then 1 else 0)
  }

  /** How many cells of u hold a number. */
  function DefinedCount(u: seq<Option<int>>): nat
  {
    if |u| == 0 then 0 else DefinedCount(u[..|u| - 1]) + (if u[|u| - 1].Some? then 1 else 0)
  }

  /** One more cell visited: its number, if any, is counted once more. */
  lemma CountSnoc(u: seq<Option<int>>, x: Option<int>)
    ensures forall v :: Count(u + [x], v) == Count(u, v) + (if x == Some(v) then 1 else 0)
    ensures DefinedCount(u + [x]) == DefinedCount(u) + (if x.Some? then 1 else 0)
  {
    assert (u + [x])[..|u|] == u;
  }

  /** Visiting one more cell of a row extends the visited cells by that cell. */
  lemma PrefixSnoc<T>(done: seq<T>, line: seq<T>, col: int)
    requires 0 <= col < |line|
    ensures done + line[..col + 1] == done + line[..col] + [line[col]]
  {
    assert line[..col + 1] == line[..col] + [line[col]];
  }

  /**
   * The forEach over every cell that fills usedNumbers: the count of each
   * number is the number of cells holding it, and the counts add up to the
   * number of filled cells.
   */
  method UsedNumbers(grid: array2<Cell>) returns (used: multiset<int>)
    ensures forall v :: used[v] == Count(Flat(ValuesOf(grid)), v)
    ensures |used| == DefinedCount(Flat(ValuesOf(grid)))
  {
    ghost var vals := ValuesOf(grid);
    used := multiset{};
    ghost var visited: seq<Option<int>> := [];  // the cells visited so far, row by row
    assert Flat(vals[..0]) == [];
    for row := 0 to grid.Length0
      invariant visited == Flat(vals[..row]) && Tallies(used, visited)
    {
      ghost var done := visited;
      assert done + vals[row][..0] == done;
      for col := 0 to grid.Length1
        invariant visited == done + vals[row][..col] && Tallies(used, visited)
      {
        var value := grid[row, col].value;
        PrefixSnoc(done, vals[row], col);
        TallyStep(used, visited, value);
        if value != None {
          used := used + multiset{value.value};
        }
        visited := visited + [value];
      }
      assert vals[..row + 1][..row] == vals[..row];
      assert vals[row][..grid.Length1] == vals[row];
    }
    assert vals[..grid.Length0] == vals;
  }

  /** `used` holds each number as often as u does, and as many numbers as u has filled cells. */
  ghost predicate Tallies(used: multiset<int>, u: seq<Option<int>>)
  {
    (forall v :: used[v] == Count(u, v)) && |used| == DefinedCount(u)
  }

  /** Counting one more cell: a number is added once, an empty cell adds nothing. */
  lemma TallyStep(used: multiset<int>, u: seq<Option<int>>, x: Option<int>)
    requires Tallies(used, u)
    ensures x.Some? ==> Tallies(used + multiset{x.value}, u + [x])
    ensures x.None? ==> Tallies(used, u + [x])
  {
    CountSnoc(u, x);
  }


  // ---------------------------------------------------------------------
  // checkSudokuState.
  // ---------------------------------------------------------------------

  /** The object checkSudokuState returns; a number never entered has count 0 in usedNumbers. */
  datatype SudokuState = SudokuState(isComplete: bool, isValid: bool, usedNumbers: multiset<int>)

  /** checkSudokuState: completeness, absence of error flags and per-number counts, without changing the grid. */
  method CheckSudokuState(grid: array2<Cell>, size: nat) returns (st: SudokuState)
    requires size == 9 || size == 16
    requires grid.Length0 == size && grid.Length1 == size
    ensures st.isComplete <==>
      RowsComplete(ValuesOf(grid), size) && ColumnsComplete(ValuesOf(grid), size) &&
      BoxesComplete(ValuesOf(grid), size, BoxSizeOf(size))
    ensures st.isValid <==> forall r, c :: 0 <= r < size && 0 <= c < size ==> !grid[r, c].error
    ensures forall v :: st.usedNumbers[v] == Count(Flat(ValuesOf(grid)), v)
    ensures |st.usedNumbers| == DefinedCount(Flat(ValuesOf(grid)))
  {
    var isComplete := CheckRows(grid, size);
    if isComplete {
      isComplete := CheckColumns(grid, size);
    }
    if isComplete {
      isComplete := CheckSubgrids(grid, size);
    }
    var anyError := AnyError(grid);
    var usedNumbers := UsedNumbers(grid);
    st := SudokuState(isComplete, !anyError, usedNumbers);
  }

  // ---------------------------------------------------------------------
  // What a complete grid means.
  // ---------------------------------------------------------------------

  /**
   * isComplete holds exactly when every row, every column and every aligned
   * box contains each number of 1 .. size.
   */
  lemma CompleteGridIffAllPresent(vals: seq<seq<Option<int>>>, size: nat, b: nat)
    requires IsSquare(vals, size) && b > 0 && b * b == size
    ensures RowsComplete(vals, size) && ColumnsComplete(vals, size) && BoxesComplete(vals, size, b) <==>
      (forall r :: 0 <= r < size ==> AllPresent(vals[r], size)) &&
      (forall c :: 0 <= c < size ==> AllPresent(ColumnLine(vals, size, c), size)) &&
      (forall kr, kc :: 0 <= kr < b && 0 <= kc < b ==> AllPresent(AlignedBox(vals, size, b, kr, kc), size))
  {
    forall r | 0 <= r < size ensures Complete(vals[r], size) <==> AllPresent(vals[r], size) {
      CompleteIffAllPresent(vals[r], size);
    }
    forall c | 0 <= c < size
      ensures Complete(ColumnLine(vals, size, c), size) <==> AllPresent(ColumnLine(vals, size, c), size)
    {
      CompleteIffAllPresent(ColumnLine(vals, size, c), size);
    }
    forall kr, kc | 0 <= kr < b && 0 <= kc < b
      ensures Complete(AlignedBox(vals, size, b, kr, kc), size) <==> AllPresent(AlignedBox(vals, size, b, kr, kc), size)
    {
      CompleteIffAllPresent(AlignedBox(vals, size, b, kr, kc), size);
    }
  }

  /** Counting over two stretches of cells adds up. */
  lemma {:induction false} CountAppend(a: seq<Option<int>>, b: seq<Option<int>>, v: int)
    ensures Count(a + b, v) == Count(a, v) + Count(b, v)
    ensures DefinedCount(a + b) == DefinedCount(a) + DefinedCount(b)
  {
    if |b| > 0 {
      var w := b[..|b| - 1];
      CountAppend(a, w, v);
      assert a + b == (a + w) + [b[|b| - 1]];
      assert b == w + [b[|b| - 1]];
      CountSnoc(a + w, b[|b| - 1]);
      CountSnoc(w, b[|b| - 1]);
    } else {
      assert a + b == a;
    }
  }

  /** In a unit without repeats a number is counted once if it occurs and not at all otherwise. */
  lemma {:induction false} CountDistinct(u: seq<Option<int>>, v: int)
    requires Distinct(u)
    ensures Count(u, v) == if Some(v) in u then 1 else 0
  {
    if |u| > 0 {
      var w, x := u[..|u| - 1], u[|u| - 1];
      assert u == w + [x];
      CountDistinct(w, v);
      if x == Some(v) {
        forall i | 0 <= i < |w| ensures w[i] != Some(v) {
          assert u[i] != u[|u| - 1];
        }
      }
    }
  }

  /** In a complete grid every number of 1 .. size has been used exactly once per row, size times in all. */
  lemma {:induction false} CompleteGridCounts(vals: seq<seq<Option<int>>>, size: nat, k: nat, v: int)
    requires IsSquare(vals, size) && RowsComplete(vals, size) && k <= size && 1 <= v <= size
    ensures Count(Flat(vals[..k]), v) == k
  {
    if k > 0 {
      CompleteGridCounts(vals, size, k - 1, v);
      assert vals[..k][..k - 1] == vals[..k - 1];
      var row := vals[k - 1];
      assert Flat(vals[..k]) == Flat(vals[..k - 1]) + row;
      CountAppend(Flat(vals[..k - 1]), row, v);
      CompleteIffAllPresent(row, size);
      CountDistinct(row, v);
    } else {
      assert vals[..k] == [];
    }
  }

  /** In a complete grid all k*size cells of the first k rows are filled. */
  lemma {:induction false} CompleteGridFilled(vals: seq<seq<Option<int>>>, size: nat, k: nat)
    requires IsSquare(vals, size) && RowsComplete(vals, size) && k <= size
    ensures DefinedCount(Flat(vals[..k])) == k * size
  {
    if k > 0 {
      CompleteGridFilled(vals, size, k - 1);
      assert vals[..k][..k - 1] == vals[..k - 1];
      var row := vals[k - 1];
      assert Flat(vals[..k]) == Flat(vals[..k - 1]) + row;
      CountAppend(Flat(vals[..k - 1]), row, 0);
      RowDefinedCount(row, size);
      calc {
        DefinedCount(Flat(vals[..k]));
        DefinedCount(Flat(vals[..k - 1])) + DefinedCount(row);
        (k - 1) * size + size;
        { MulSucc(k - 1, size); }
        k * size;
      }
    } else {
      assert vals[..k] == [];
    }
  }

  /** A complete row of n cells has n filled cells. */
  lemma {:induction false} RowDefinedCount(u: seq<Option<int>>, n: int)
    requires forall i :: 0 <= i < |u| ==> InRange(u[i], n)
    ensures DefinedCount(u) == |u|
  {
    if |u| > 0 {
      RowDefinedCount(u[..|u| - 1], n);
    }
  }

  /**
   * A complete grid has no conflict: checkSudokuErrors leaves every flag
   * cleared on it, so isValid is true after it.
   */
  lemma CompleteHasNoConflict(vals: seq<seq<Option<int>>>, size: nat, b: nat, r: int, c: int)
    requires IsSquare(vals, size) && b > 0 && b * b == size && 0 <= r < size && 0 <= c < size
    requires RowsComplete(vals, size) && ColumnsComplete(vals, size) && BoxesComplete(vals, size, b)
    ensures !InConflict(vals, size, b, r, c)
  {
    assert Complete(vals[r], size);
    assert Complete(ColumnLine(vals, size, c), size);
    var kr, kc := r / b, c / b;
    BandLimit(r, b);
    BandLimit(c, b);
    assert Complete(AlignedBox(vals, size, b, kr, kc), size);
    AlignedSquare(vals, size, b, kr, kc, r, c);
    BoxLineRepeat(vals, size, kr * b, kc * b, b, r, c);
  }
}
