/** Line clearing (main.c:169-192): full_row, fall_row_until and
    clean_full_rows. */
module Lines {
  import opened Board

  /** full_row: no cell of the row is OFF. */
  predicate IsFull(row: seq<int>) {
    forall j :: 0 <= j < |row| ==> row[j] != Off
  }

  /** fall_row_until(n): rows 1 .. n take the rows above them; row 0 and the rows
      below n keep their values. Row 0 is not emptied, so it ends up both in
      row 0 and in row 1. */
  function FallRowUntil(g: Grid, n: int): (r: Grid)
    requires WellFormed(g) && 0 <= n < Rows
    ensures WellFormed(r)
  {
    seq(Rows, i requires 0 <= i < Rows => if 1 <= i <= n then g[i - 1] else g[i])
  }

  /** The rest of clean_full_rows' scan, from row i down: a full row i collapses
      the rows above it, then the scan goes on with row i + 1. */
  function CleanFrom(g: Grid, i: int): (r: Grid)
    requires WellFormed(g) && 1 <= i <= Rows
    ensures WellFormed(r)
    decreases Rows - i
  {
    if i == Rows then g
    else CleanFrom(if IsFull(g[i]) then FallRowUntil(g, i) else g, i + 1)
  }

  /** clean_full_rows: the scan of rows 1 .. Rows - 1, top to bottom. Row 0 is
      never tested. */
  function CleanFullRows(g: Grid): (r: Grid)
    requires WellFormed(g)
    ensures WellFormed(r)
  {
    CleanFrom(g, 1)
  }

  /** How many full rows the scan from row i collapses. */
  function ClearedFrom(g: Grid, i: int): nat
    requires WellFormed(g) && 1 <= i <= Rows
    decreases Rows - i
  {
    if i == Rows then 0
    else if IsFull(g[i]) then 1 + ClearedFrom(FallRowUntil(g, i), i + 1)
    else ClearedFrom(g, i + 1)
  }

  /** fall_row_until keeps row 0 and creates no P cell. */
  lemma FallRowUntilKeeps(g: Grid, n: int)
    requires WellFormed(g) && 0 <= n < Rows
    ensures FallRowUntil(g, n)[0] == g[0]
    ensures NoPiece(g) ==> NoPiece(FallRowUntil(g, n))
  {
    if NoPiece(g) {
      var r := FallRowUntil(g, n);
      forall a, b | InGrid(a, b)
        ensures r[a][b] != Player
      {
        if 1 <= a <= n {
          assert r[a][b] == g[a - 1][b];
        }
      }
    }
  }

  /** The scan never changes row 0, and creates no P cell. */
  lemma {:induction false} CleanFromKeeps(g: Grid, i: int)
    requires WellFormed(g) && 1 <= i <= Rows
    ensures CleanFrom(g, i)[0] == g[0]
    ensures NoPiece(g) ==> NoPiece(CleanFrom(g, i))
    decreases Rows - i
  {
    if i < Rows {
      if IsFull(g[i]) {
        FallRowUntilKeeps(g, i);
        CleanFromKeeps(FallRowUntil(g, i), i + 1);
      } else {
        CleanFromKeeps(g, i + 1);
      }
    }
  }

  /** clean_full_rows keeps row 0 and creates no P cell. */
  lemma CleanFullRowsKeeps(g: Grid)
    requires WellFormed(g)
    ensures CleanFullRows(g)[0] == g[0]
    ensures NoPiece(g) ==> NoPiece(CleanFullRows(g))
  {
    CleanFromKeeps(g, 1);
  }

  /** If row 0 and the rows 1 .. i - 1 already scanned are not full, no row
      below row 0 is full when the scan ends. */
  lemma {:induction false} CleanFromLeavesNoFullRow(g: Grid, i: int)
    requires WellFormed(g) && 1 <= i <= Rows
    requires forall k :: 0 <= k < i ==> !IsFull(g[k])
    ensures forall k :: 1 <= k < Rows ==> !IsFull(CleanFrom(g, i)[k])
    decreases Rows - i
  {
    if i < Rows {
      var g' := if IsFull(g[i]) then FallRowUntil(g, i) else g;
      forall k | 0 <= k < i + 1
        ensures !IsFull(g'[k])
      {
        if IsFull(g[i]) && 1 <= k {
          assert g'[k] == g[k - 1];
        }
      }
      CleanFromLeavesNoFullRow(g', i + 1);
    }
  }

  /** clean_full_rows scans top-down without retesting a row after a collapse;
      this is enough, provided row 0 (which it never tests) is not full: then no
      row 1 .. Rows - 1 is full afterwards. */
  lemma CleanFullRowsLeavesNoFullRow(g: Grid)
    requires WellFormed(g) && !IsFull(g[0])
    ensures forall k :: 1 <= k < Rows ==> !IsFull(CleanFullRows(g)[k])
  {
    CleanFromLeavesNoFullRow(g, 1);
  }

  /** The number of occupied (not OFF) cells of a row. */
  function RowCount(row: seq<int>): nat {
    if row == [] then 0 else (if row[0] != Off then 1 else 0) + RowCount(row[1..])
  }

  /** The number of occupied cells of a sequence of rows. */
  function Occupied(rows: seq<seq<int>>): nat {
    if rows == [] then 0 else RowCount(rows[0]) + Occupied(rows[1..])
  }

  lemma {:induction false} RowCountFull(row: seq<int>)
    requires IsFull(row)
    ensures RowCount(row) == |row|
  {
    if row != [] {
      RowCountFull(row[1..]);
    }
  }

  lemma {:induction false} OccupiedAppend(a: seq<seq<int>>, b: seq<seq<int>>)
    ensures Occupied(a + b) == Occupied(a) + Occupied(b)
  {
    if a != [] {
      assert (a + b)[1..] == a[1..] + b;
      OccupiedAppend(a[1..], b);
    } else {
      assert a + b == b;
    }
  }

  /** fall_row_until(n) loses the occupied cells of row n and gains a second copy
      of those of row 0. */
  lemma FallRowUntilCount(g: Grid, n: int)
    requires WellFormed(g) && 0 <= n < Rows
    ensures Occupied(FallRowUntil(g, n)) + RowCount(g[n]) == Occupied(g) + RowCount(g[0])
  {
    var r := FallRowUntil(g, n);
    assert g == g[..n] + [g[n]] + g[n + 1..];
    assert r == [g[0]] + g[..n] + g[n + 1..];
    OccupiedAppend([g[0]] + g[..n], g[n + 1..]);
    OccupiedAppend([g[0]], g[..n]);
    OccupiedAppend(g[..n] + [g[n]], g[n + 1..]);
    OccupiedAppend(g[..n], [g[n]]);
    assert Occupied([g[0]]) == RowCount(g[0]) by { assert [g[0]][1..] == []; }
    assert Occupied([g[n]]) == RowCount(g[n]) by { assert [g[n]][1..] == []; }
  }

  /** With row 0 empty, each row the scan collapses removes exactly one row of
      occupied cells. */
  lemma {:induction false} CleanFromCount(g: Grid, i: int)
    requires WellFormed(g) && 1 <= i <= Rows && RowCount(g[0]) == 0
    ensures Occupied(CleanFrom(g, i)) + Cols * ClearedFrom(g, i) == Occupied(g)
    decreases Rows - i
  {
    if i < Rows {
      if IsFull(g[i]) {
        var g' := FallRowUntil(g, i);
        FallRowUntilCount(g, i);
        RowCountFull(g[i]);
        assert g'[0] == g[0];
        CleanFromCount(g', i + 1);
      } else {
        CleanFromCount(g, i + 1);
      }
    }
  }

  /** With row 0 empty, clean_full_rows removes Cols occupied cells for every
      row it clears. */
  lemma CleanFullRowsCount(g: Grid)
    requires WellFormed(g) && RowCount(g[0]) == 0
    ensures Occupied(CleanFullRows(g)) + Cols * ClearedFrom(g, 1) == Occupied(g)
  {
    CleanFromCount(g, 1);
  }
}
