/**
 * The board validator `isValidSudoku` (src/lib/index.ts): a size×size board
 * of cells, "." for an empty cell and a number otherwise, is valid when no
 * row, no column and no aligned box holds the same number twice. Empty cells
 * are allowed anywhere: the validator does not ask for a complete board.
 */
module Validator {
  import opened Geometry

  /** A board cell: the string "." is `Empty`, any other string the number it parses to. */
  datatype Cell = Empty | Filled(v: int)

  /**
   * What the validator demands of its caller: a size×size board whose numbers
   * all index the counting buffer of size+1 entries.
   */
  predicate WellFormed(board: seq<seq<Cell>>, size: nat)
  {
    |board| == size &&
    (forall r :: 0 <= r < size ==> |board[r]| == size) &&
    (forall r, c :: 0 <= r < size && 0 <= c < size && board[r][c].Filled? ==> 0 <= board[r][c].v <= size)
  }

  /** Some number occurs twice in the unit `u`; empty cells never clash. */
  predicate HasDuplicate(u: seq<Cell>)
  {
    exists p, q :: 0 <= p < q < |u| && u[p].Filled? && u[p] == u[q]
  }

  /** Column j, top to bottom. */
  ghost function Column(board: seq<seq<Cell>>, size: nat, j: int): seq<Cell>
    requires WellFormed(board, size) && 0 <= j < size
  {
    seq(size, k requires 0 <= k < size => board[k][j])
  }

  /** Box i, its cells in row-major order starting from its top-left corner. */
  ghost function Box(board: seq<seq<Cell>>, size: nat, b: nat, i: int): seq<Cell>
    requires WellFormed(board, size) && b * b == size && 0 <= i < size
  {
    CornerInGrid(b, i);
    seq(size, t requires 0 <= t < size => board[CellRow(CornerRow(b, i), b, t)][CellCol(CornerCol(b, i), b, t)])
  }

  /** Row i, column i and box i are all free of duplicates, for every i. */
  ghost predicate UnitsDistinct(board: seq<seq<Cell>>, size: nat, b: nat)
    requires WellFormed(board, size) && b * b == size
  {
    forall i :: 0 <= i < size ==>
      !HasDuplicate(board[i]) && !HasDuplicate(Column(board, size, i)) && !HasDuplicate(Box(board, size, b, i))
  }

  /**
   * Cells (r1, c1) and (r2, c2) clash: they are two different cells of the
   * same row, column or aligned box holding the same number.
   */
  ghost predicate Clash(board: seq<seq<Cell>>, size: nat, b: nat, r1: int, c1: int, r2: int, c2: int)
    requires WellFormed(board, size) && b * b == size
  {
    0 <= r1 < size && 0 <= c1 < size && 0 <= r2 < size && 0 <= c2 < size &&
    (r1, c1) != (r2, c2) && (r1 == r2 || c1 == c2 || SameBox(b, r1, c1, r2, c2)) &&
    board[r1][c1].Filled? && board[r1][c1] == board[r2][c2]
  }

  /**
   * The rule stated cell by cell, independently of how the units are
   * enumerated: no two cells clash.
   */
  ghost predicate NoConflict(board: seq<seq<Cell>>, size: nat, b: nat)
    requires WellFormed(board, size) && b * b == size
  {
    forall r1, c1, r2, c2 :: !Clash(board, size, b, r1, c1, r2, c2)
  }

  /**
   * isValidSudoku. One counting buffer of size+1 entries is cleared before
   * each unit; the count of a number is raised at each occurrence and the
   * answer is `false` as soon as a count passes 1. The board is only read.
   */
  method IsValidSudoku(board: seq<seq<Cell>>, size: nat, boxSize: nat) returns (ok: bool)
    requires WellFormed(board, size) && boxSize * boxSize == size
    ensures ok <==> UnitsDistinct(board, size, boxSize)
    ensures ok <==> NoConflict(board, size, boxSize)
  {
    ValidIffNoConflict(board, size, boxSize);
    var countArray := new int[size + 1](_ => 0);
    for i := 0 to size
      invariant countArray.Length == size + 1
      invariant forall i' :: 0 <= i' < i ==>
        !HasDuplicate(board[i']) && !HasDuplicate(Column(board, size, i')) && !HasDuplicate(Box(board, size, boxSize, i'))
    {
      var r1 := (i / boxSize) * boxSize;
      var c1 := (i % boxSize) * boxSize;
      var dup := CountRow(board, size, i, countArray);
      if dup { return false; }
      dup := CountColumn(board, size, i, countArray);
      if dup { return false; }
      dup := CountBox(board, size, boxSize, i, r1, c1, countArray);
      if dup { return false; }
    }
    return true;
  }

  /** The loop over row i: clear the buffer, count each number, stop at a second occurrence. */
  method CountRow(board: seq<seq<Cell>>, size: nat, i: int, countArray: array<int>) returns (dup: bool)
    requires WellFormed(board, size) && 0 <= i < size && countArray.Length == size + 1
    modifies countArray
    ensures dup <==> HasDuplicate(board[i])
  {
    ghost var u := board[i];
    forall v | 0 <= v < countArray.Length { countArray[v] := 0; }
    for j := 0 to size
      invariant Tallied(countArray[..], u, j) && !HasDuplicate(u[..j])
    {
      var currElement := board[i][j];
      dup := CountCell(currElement, u, j, countArray);
      if dup { return; }
    }
    assert u[..size] == u;
    return false;
  }

  /** The loop over column i, with the same buffer discipline as CountRow. */
  method CountColumn(board: seq<seq<Cell>>, size: nat, i: int, countArray: array<int>) returns (dup: bool)
    requires WellFormed(board, size) && 0 <= i < size && countArray.Length == size + 1
    modifies countArray
    ensures dup <==> HasDuplicate(Column(board, size, i))
  {
    ghost var u := Column(board, size, i);
    forall v | 0 <= v < countArray.Length { countArray[v] := 0; }
    for k := 0 to size
      invariant Tallied(countArray[..], u, k) && !HasDuplicate(u[..k])
    {
      var currElement := board[k][i];
      assert u[k] == currElement;
      dup := CountCell(currElement, u, k, countArray);
      if dup { return; }
    }
    assert u[..size] == u;
    return false;
  }

  /** The two nested loops over box i, whose top-left corner is (r1, c1). */
  method CountBox(board: seq<seq<Cell>>, size: nat, boxSize: nat, i: int, r1: int, c1: int,
                  countArray: array<int>) returns (dup: bool)
    requires WellFormed(board, size) && boxSize * boxSize == size && 0 <= i < size
    requires r1 == CornerRow(boxSize, i) && c1 == CornerCol(boxSize, i)
    requires countArray.Length == size + 1
    modifies countArray
    ensures dup <==> HasDuplicate(Box(board, size, boxSize, i))
  {
    ghost var u := Box(board, size, boxSize, i);
    CornerInGrid(boxSize, i);
    forall v | 0 <= v < countArray.Length { countArray[v] := 0; }
    ghost var base := 0;  // cells of the box counted so far
    for r := r1 to r1 + boxSize
      invariant base == (r - r1) * boxSize && 0 <= base <= size
      invariant Tallied(countArray[..], u, base) && !HasDuplicate(u[..base])
    {
      RowMajorBound(r - r1, boxSize);
      BoxRowSlice(board, size, boxSize, i, r, base);
      dup := CountBoxRow(board, size, boxSize, r, c1, u, base, countArray);
      if dup { return; }
      base := base + boxSize;
      assert base == (r + 1 - r1) * boxSize;
    }
    assert u[..size] == u;
    return false;
  }

  /**
   * The inner loop over row r of box i: the cells (r, c1) .. (r, c1 + boxSize - 1),
   * which are the cells base .. base + boxSize - 1 of the box's cell sequence u.
   */
  method CountBoxRow(board: seq<seq<Cell>>, size: nat, boxSize: nat, r: int, c1: int,
                     ghost u: seq<Cell>, ghost base: int, countArray: array<int>) returns (dup: bool)
    requires WellFormed(board, size) && 0 <= r < size && 0 <= c1 && c1 + boxSize <= size
    requires |u| == size && 0 <= base && base + boxSize <= size
    requires forall c :: c1 <= c < c1 + boxSize ==> board[r][c] == u[base + (c - c1)]
    requires countArray.Length == size + 1
    requires Tallied(countArray[..], u, base) && !HasDuplicate(u[..base])
    modifies countArray
    ensures dup ==> HasDuplicate(u)
    ensures !dup ==> Tallied(countArray[..], u, base + boxSize)
    ensures !dup ==> !HasDuplicate(u[..base + boxSize])
  {
    for k := 0 to boxSize
      invariant Tallied(countArray[..], u, base + k) && !HasDuplicate(u[..base + k])
    {
      var c := c1 + k;
      ghost var t := base + k;
      var currElement := board[r][c];
      assert currElement == u[t];
      dup := CountCell(currElement, u, t, countArray);
      if dup { return; }
    }
    return false;
  }

  /**
   * One turn of a counting loop: the cell at position t of unit u. An empty cell
   * is skipped; a number raises its count, and a count above one is a duplicate.
   */
  method CountCell(currElement: Cell, ghost u: seq<Cell>, ghost t: int, countArray: array<int>) returns (dup: bool)
    requires 0 <= t < |u| && u[t] == currElement
    requires currElement.Filled? ==> 0 <= currElement.v < countArray.Length
    requires Tallied(countArray[..], u, t) && !HasDuplicate(u[..t])
    modifies countArray
    ensures dup ==> HasDuplicate(u)
    ensures !dup ==> Tallied(countArray[..], u, t + 1) && !HasDuplicate(u[..t + 1])
  {
    if currElement == Empty {
      TallyEmpty(countArray[..], u, t);
      ExtendDistinct(u, t);
      return false;
    }
    var n := currElement.v;
    TallyFilled(countArray[..], u, t);
    countArray[n] := countArray[n] + 1;
    if countArray[n] > 1 {
      RepeatIsDuplicate(u, t);
      return true;
    }
    ExtendDistinct(u, t);
    return false;
  }

  /** Row r of box i is the stretch of the box's cell sequence that starts at position base. */
  lemma BoxRowSlice(board: seq<seq<Cell>>, size: nat, b: nat, i: int, r: int, base: int)
    requires WellFormed(board, size) && b * b == size && 0 <= i < size
    requires CornerRow(b, i) <= r < CornerRow(b, i) + b && base == (r - CornerRow(b, i)) * b
    ensures 0 <= r < size && 0 <= CornerCol(b, i) && CornerCol(b, i) + b <= size
    ensures 0 <= base && base + b <= size
    ensures forall c :: CornerCol(b, i) <= c < CornerCol(b, i) + b ==>
      board[r][c] == Box(board, size, b, i)[base + (c - CornerCol(b, i))]
  {
    CornerInGrid(b, i);
    RowMajorBound(r - CornerRow(b, i), b);
    forall c | CornerCol(b, i) <= c < CornerCol(b, i) + b
      ensures board[r][c] == Box(board, size, b, i)[base + (c - CornerCol(b, i))]
    {
      BoxCellInRow(board, size, b, i, r, c, base);
    }
  }

  /** Cell (r, c) of box i, in the band of the box that starts at position base. */
  lemma BoxCellInRow(board: seq<seq<Cell>>, size: nat, b: nat, i: int, r: int, c: int, base: int)
    requires WellFormed(board, size) && b * b == size && 0 <= i < size
    requires CornerRow(b, i) <= r < CornerRow(b, i) + b && CornerCol(b, i) <= c < CornerCol(b, i) + b
    requires base == (r - CornerRow(b, i)) * b
    ensures 0 <= r < size && 0 <= c < size
    ensures 0 <= base + (c - CornerCol(b, i)) < size
    ensures Box(board, size, b, i)[base + (c - CornerCol(b, i))] == board[r][c]
  {
    var t := BoxPosition(board, size, b, i, r, c);
  }

  /** Entry v of the buffer holds the number of occurrences of v among the first k cells of u. */
  ghost predicate Tallied(counts: seq<int>, u: seq<Cell>, k: int)
    requires 0 <= k <= |u|
  {
    forall v :: 0 <= v < |counts| ==> counts[v] == multiset(u[..k])[Filled(v)]
  }

  /** An empty cell leaves every count as it was. */
  lemma TallyEmpty(counts: seq<int>, u: seq<Cell>, k: int)
    requires 0 <= k < |u| && u[k] == Empty && Tallied(counts, u, k)
    ensures Tallied(counts, u, k + 1)
  {
    assert u[..k + 1] == u[..k] + [u[k]];
  }

  /** A number raises its own count by one and no other. */
  lemma TallyFilled(counts: seq<int>, u: seq<Cell>, k: int)
    requires 0 <= k < |u| && u[k].Filled? && 0 <= u[k].v < |counts| && Tallied(counts, u, k)
    ensures counts[u[k].v] == multiset(u[..k])[u[k]]
    ensures Tallied(counts[u[k].v := counts[u[k].v] + 1], u, k + 1)
  {
    assert u[..k + 1] == u[..k] + [u[k]];
  }

  /** A number met at position j that the prefix already holds is a duplicate of the unit. */
  lemma RepeatIsDuplicate(u: seq<Cell>, j: int)
    requires 0 <= j < |u| && u[j].Filled? && multiset(u[..j])[u[j]] >= 1
    ensures HasDuplicate(u)
  {
    assert u[j] in u[..j];
    var p :| 0 <= p < j && u[p] == u[j];
  }

  /** A number the prefix does not yet hold keeps the longer prefix free of duplicates. */
  lemma ExtendDistinct(u: seq<Cell>, j: int)
    requires 0 <= j < |u| && !HasDuplicate(u[..j])
    requires u[j].Filled? ==> multiset(u[..j])[u[j]] == 0
    ensures !HasDuplicate(u[..j + 1])
  {
    var w := u[..j + 1];
    forall p, q | 0 <= p < q < |w| && w[p].Filled?
      ensures w[p] != w[q]
    {
      assert w[p] == u[..j][p] && w[p] in multiset(u[..j]);
      if q < j {
        assert w[q] == u[..j][q];
      }
    }
  }

  /** The unit-by-unit rule and the cell-by-cell rule agree. */
  lemma ValidIffNoConflict(board: seq<seq<Cell>>, size: nat, b: nat)
    requires WellFormed(board, size) && b * b == size
    ensures UnitsDistinct(board, size, b) <==> NoConflict(board, size, b)
  {
    if !NoConflict(board, size, b) {
      var r1, c1, r2, c2 :| Clash(board, size, b, r1, c1, r2, c2);
      ConflictBreaksUnit(board, size, b, r1, c1, r2, c2);
    }
    if !UnitsDistinct(board, size, b) {
      var i :| 0 <= i < size &&
        (HasDuplicate(board[i]) || HasDuplicate(Column(board, size, i)) || HasDuplicate(Box(board, size, b, i)));
      if HasDuplicate(board[i]) {
        RowDuplicateClashes(board, size, b, i);
      } else if HasDuplicate(Column(board, size, i)) {
        ColumnDuplicateClashes(board, size, b, i);
      } else {
        BoxDuplicateClashes(board, size, b, i);
      }
    }
  }

  /** Two clashing cells make their common row, column or box hold a duplicate. */
  lemma ConflictBreaksUnit(board: seq<seq<Cell>>, size: nat, b: nat, r1: int, c1: int, r2: int, c2: int)
    requires WellFormed(board, size) && b * b == size
    requires Clash(board, size, b, r1, c1, r2, c2)
    ensures !UnitsDistinct(board, size, b)
  {
    if r1 == r2 {
      var u := board[r1];
      if c1 < c2 { assert u[c1].Filled? && u[c1] == u[c2]; } else { assert u[c2].Filled? && u[c2] == u[c1]; }
      assert HasDuplicate(u);
    } else if c1 == c2 {
      var u := Column(board, size, c1);
      if r1 < r2 { assert u[r1] == u[r2]; } else { assert u[r2] == u[r1]; }
      assert HasDuplicate(u);
    } else {
      var i := BoxIndex(b, r1, c1);
      InBoxIffSameBox(b, r1, c1, r2, c2);
      InBoxIffSameBox(b, r1, c1, r1, c1);
      var u := Box(board, size, b, i);
      var t1 := BoxPosition(board, size, b, i, r1, c1);
      var t2 := BoxPosition(board, size, b, i, r2, c2);
      if t1 < t2 { assert u[t1] == u[t2]; } else { assert u[t2] == u[t1]; }
      assert HasDuplicate(u);
    }
  }

  /** Where cell (r, c) of box i sits in the unit Box(board, size, b, i). */
  lemma BoxPosition(board: seq<seq<Cell>>, size: nat, b: nat, i: int, r: int, c: int) returns (t: int)
    requires WellFormed(board, size) && b * b == size && 0 <= i < size
    requires CornerRow(b, i) <= r < CornerRow(b, i) + b && CornerCol(b, i) <= c < CornerCol(b, i) + b
    ensures 0 <= r < size && 0 <= c < size
    ensures t == (r - CornerRow(b, i)) * b + (c - CornerCol(b, i))
    ensures t / b == r - CornerRow(b, i) && t % b == c - CornerCol(b, i)
    ensures 0 <= t < size && Box(board, size, b, i)[t] == board[r][c]
  {
    CornerInGrid(b, i);
    var q, m := r - CornerRow(b, i), c - CornerCol(b, i);
    t := q * b + m;
    RowMajorBound(q, b);
    DivModRowMajor(q, m, b);
    BoxAt(board, size, b, i, t);
  }

  /** The t-th cell of box i, in row-major order from the box's corner. */
  lemma BoxAt(board: seq<seq<Cell>>, size: nat, b: nat, i: int, t: int)
    requires WellFormed(board, size) && b * b == size && 0 <= i < size && 0 <= t < size
    ensures 0 <= t / b < b && 0 <= t % b < b
    ensures 0 <= CornerRow(b, i) && CornerRow(b, i) + b <= size && 0 <= CornerCol(b, i) && CornerCol(b, i) + b <= size
    ensures Box(board, size, b, i)[t] == board[CornerRow(b, i) + t / b][CornerCol(b, i) + t % b]
  {
    BandLimit(t, b);
    CornerInGrid(b, i);
  }

  /** A duplicate in row i is a pair of clashing cells. */
  lemma RowDuplicateClashes(board: seq<seq<Cell>>, size: nat, b: nat, i: int)
    requires WellFormed(board, size) && b * b == size && 0 <= i < size && HasDuplicate(board[i])
    ensures !NoConflict(board, size, b)
  {
    var p, q :| 0 <= p < q < size && board[i][p].Filled? && board[i][p] == board[i][q];
    assert Clash(board, size, b, i, p, i, q);
  }

  /** A duplicate in column i is a pair of clashing cells. */
  lemma ColumnDuplicateClashes(board: seq<seq<Cell>>, size: nat, b: nat, i: int)
    requires WellFormed(board, size) && b * b == size && 0 <= i < size && HasDuplicate(Column(board, size, i))
    ensures !NoConflict(board, size, b)
  {
    var u := Column(board, size, i);
    var p, q :| 0 <= p < q < size && u[p].Filled? && u[p] == u[q];
    assert Clash(board, size, b, p, i, q, i);
  }

  /** A duplicate in box i is a pair of clashing cells. */
  lemma BoxDuplicateClashes(board: seq<seq<Cell>>, size: nat, b: nat, i: int)
    requires WellFormed(board, size) && b * b == size && 0 <= i < size && HasDuplicate(Box(board, size, b, i))
    ensures !NoConflict(board, size, b)
  {
    var u := Box(board, size, b, i);
    var p, q :| 0 <= p < q < size && u[p].Filled? && u[p] == u[q];
    var rp, cp := BoxCellOf(board, size, b, i, p);
    var rq, cq := BoxCellOf(board, size, b, i, q);
    DivModInjective(p, q, b);
    assert Clash(board, size, b, rp, cp, rq, cq);
  }

  /** Position t of box i is the cell t / b rows and t % b columns from the box's corner. */
  lemma BoxCellOf(board: seq<seq<Cell>>, size: nat, b: nat, i: int, t: int) returns (r: int, c: int)
    requires WellFormed(board, size) && b * b == size && 0 <= i < size && 0 <= t < size
    ensures 0 <= r < size && 0 <= c < size && Box(board, size, b, i)[t] == board[r][c]
    ensures r / b == i / b && c / b == i % b
    ensures r == CornerRow(b, i) + t / b && c == CornerCol(b, i) + t % b
  {
    BoxAt(board, size, b, i, t);
    r, c := CornerRow(b, i) + t / b, CornerCol(b, i) + t % b;
    BandBounds(r, i / b, b);
    BandBounds(c, i % b, b);
  }

}
