/** The position index `encrypt` builds first: for every symbol of the grid,
    the list of its 1-based (row, column) coordinates in row-major order. */
module Positions {
  import opened Grid

  /** A 1-based grid coordinate, the tuple `(i + 1, j + 1)`. */
  datatype Coord = Coord(row: nat, col: nat)

  /** One grid cell: where it is and the symbol it holds. */
  datatype Cell = Cell(at: Coord, symbol: char)

  /** `positions_full`: symbol to the list of its coordinates. */
  type Index = map<char, seq<Coord>>

  /** A list without repetitions. */
  predicate NoDup<T(==)>(s: seq<T>) {
    forall i, j :: 0 <= i < j < |s| ==> s[i] != s[j]
  }

  /** `co` names a cell of `m`. */
  predicate InGrid(m: Matrix, co: Coord) {
    1 <= co.row <= |m| && 1 <= co.col <= |m[co.row - 1]|
  }

  /** The symbol at coordinate `co`: `matrix[r - 1][c - 1]`. */
  function At(m: Matrix, co: Coord): char
    requires InGrid(m, co)
  {
    m[co.row - 1][co.col - 1]
  }

  /** `ch` is held by some cell of `m`. */
  predicate Occurs(m: Matrix, ch: char) {
    exists r, c :: 0 <= r < |m| && 0 <= c < |m[r]| && m[r][c] == ch
  }

  /** The cells of row number `r` (1-based), left to right. */
  function RowCells(row: seq<char>, r: nat): seq<Cell> {
    if |row| == 0 then [] else RowCells(row[..|row| - 1], r) + [Cell(Coord(r, |row|), row[|row| - 1])]
  }

  /** The cells of a grid in the order the nested loops visit them. */
  function Cells(m: Matrix): seq<Cell> {
    if |m| == 0 then [] else Cells(m[..|m| - 1]) + RowCells(m[|m| - 1], |m|)
  }

  /** One pass of the inner loop body: append the cell's coordinate to its
      symbol's list, creating the list on the symbol's first appearance. */
  function Insert(index: Index, cell: Cell): Index {
    var before := if cell.symbol in index then index[cell.symbol] else [];
    index[cell.symbol := before + [cell.at]]
  }

  /** The index after visiting `cells` in order, starting from `{}`. */
  function IndexOf(cells: seq<Cell>): Index {
    if |cells| == 0 then map[] else Insert(IndexOf(cells[..|cells| - 1]), cells[|cells| - 1])
  }

  /** `positions_full` for grid `m`. */
  function PositionsOf(m: Matrix): Index {
    IndexOf(Cells(m))
  }

  /** Every list of an index is non-empty and repeats no coordinate. */
  predicate IndexValid(index: Index) {
    forall ch :: ch in index ==> |index[ch]| > 0 && NoDup(index[ch])
  }

  // ---------------------------------------------------------------------------
  // The loops of lines 21-25

  /** The nested loops that fill `positions_full`. */
  method IndexPositions(matrix: Matrix) returns (positions: Index)
    ensures positions == PositionsOf(matrix)
  {
    positions := map[];
    assert matrix[..0] == [];
    for i := 0 to |matrix|
      invariant positions == IndexOf(Cells(matrix[..i]))
    {
      var row := matrix[i];
      assert Cells(matrix[..i]) + RowCells(row[..0], i + 1) == Cells(matrix[..i]);
      for j := 0 to |row|
        invariant positions == IndexOf(Cells(matrix[..i]) + RowCells(row[..j], i + 1))
      {
        var cell := Cell(Coord(i + 1, j + 1), row[j]);
        ghost var done := Cells(matrix[..i]) + RowCells(row[..j], i + 1);
        assert row[..j + 1][..j] == row[..j];
        assert Cells(matrix[..i]) + RowCells(row[..j + 1], i + 1) == done + [cell];
        assert (done + [cell])[..|done|] == done;
        positions := Insert(positions, cell);
      }
      assert row[..|row|] == row;
      assert matrix[..i + 1][..i] == matrix[..i];
    }
    assert matrix[..|matrix|] == matrix;
  }

  // ---------------------------------------------------------------------------
  // What the index says about the grid

  /** The cells of one row are exactly its columns, each holding its symbol,
      and no column is listed twice. */
  lemma {:induction false} RowCellsFacts(row: seq<char>, r: nat)
    ensures forall x :: x in RowCells(row, r) <==>
                        x.at.row == r && 1 <= x.at.col <= |row| && x.symbol == row[x.at.col - 1]
    ensures forall i, j :: 0 <= i < j < |RowCells(row, r)| ==> RowCells(row, r)[i].at != RowCells(row, r)[j].at
  {
    if |row| > 0 {
      var front := row[..|row| - 1];
      RowCellsFacts(front, r);
      var last := Cell(Coord(r, |row|), row[|row| - 1]);
      assert RowCells(row, r) == RowCells(front, r) + [last];
      forall x | x in RowCells(front, r) ensures x.at.col < |row| && x.symbol == row[x.at.col - 1] {
      }
    }
  }

  /** The cells of a grid are exactly its in-grid coordinates, each with the
      symbol it holds, and no coordinate is listed twice. */
  lemma {:induction false} CellsFacts(m: Matrix)
    ensures forall x :: x in Cells(m) <==> InGrid(m, x.at) && x.symbol == At(m, x.at)
    ensures forall i, j :: 0 <= i < j < |Cells(m)| ==> Cells(m)[i].at != Cells(m)[j].at
  {
    if |m| > 0 {
      var front := m[..|m| - 1];
      var last := m[|m| - 1];
      CellsFacts(front);
      RowCellsFacts(last, |m|);
      var before := Cells(front);
      var added := RowCells(last, |m|);
      assert Cells(m) == before + added;
      forall x ensures x in Cells(m) <==> InGrid(m, x.at) && x.symbol == At(m, x.at) {
        if x in before {
          assert InGrid(front, x.at);
        }
      }
      forall i, j | 0 <= i < j < |Cells(m)| ensures Cells(m)[i].at != Cells(m)[j].at {
        if i < |before| && j >= |before| {
          assert Cells(m)[i] in before;
          assert Cells(m)[j] == added[j - |before|];
          assert added[j - |before|] in added;
        }
      }
    }
  }

  /** The index has a key for exactly the symbols some cell holds. */
  lemma {:induction false} IndexOfKeys(cells: seq<Cell>)
    ensures forall ch :: ch in IndexOf(cells) <==> exists x :: x in cells && x.symbol == ch
  {
    if |cells| > 0 {
      var front := cells[..|cells| - 1];
      var last := cells[|cells| - 1];
      IndexOfKeys(front);
      assert cells == front + [last];
      forall ch ensures ch in IndexOf(cells) <==> exists x :: x in cells && x.symbol == ch {
        if ch in IndexOf(cells) && ch != last.symbol {
          assert ch in IndexOf(front);
          var x :| x in front && x.symbol == ch;
          assert x in cells;
        }
        if (exists x :: x in cells && x.symbol == ch) && ch != last.symbol {
          var x :| x in cells && x.symbol == ch;
          assert x in front;
        }
      }
    }
  }

  /** For cells at pairwise distinct coordinates, the index lists under `ch`
      exactly the coordinates of the cells holding `ch`, each once. */
  lemma {:induction false} IndexOfLists(cells: seq<Cell>)
    requires forall i, j :: 0 <= i < j < |cells| ==> cells[i].at != cells[j].at
    ensures IndexValid(IndexOf(cells))
    ensures forall ch, co :: ch in IndexOf(cells) ==> (co in IndexOf(cells)[ch] <==> Cell(co, ch) in cells)
  {
    if |cells| > 0 {
      var front := cells[..|cells| - 1];
      var last := cells[|cells| - 1];
      IndexOfLists(front);
      var before := IndexOf(front);
      assert cells == front + [last];
      assert Cell(last.at, last.symbol) == last;
      forall ch, co | ch in before && co in before[ch] ensures co != last.at {
        var i :| 0 <= i < |front| && front[i] == Cell(co, ch);
        assert cells[i] == Cell(co, ch);
      }
      IndexValidInsert(before, last);
      IndexOfKeys(front);
      InsertLists(before, front, last);
    }
  }

  /** If an index lists exactly the coordinates of `cells`, inserting one more
      cell gives an index that lists exactly the coordinates of `cells` and
      that cell. */
  lemma InsertLists(before: Index, cells: seq<Cell>, last: Cell)
    requires forall ch :: ch in before <==> exists x :: x in cells && x.symbol == ch
    requires forall ch, co :: ch in before ==> (co in before[ch] <==> Cell(co, ch) in cells)
    ensures forall ch, co :: ch in Insert(before, last) ==>
              (co in Insert(before, last)[ch] <==> Cell(co, ch) in cells + [last])
  {
    var after := Insert(before, last);
    forall ch, co | ch in after ensures co in after[ch] <==> Cell(co, ch) in cells + [last] {
      assert Cell(co, ch) in cells + [last] <==> Cell(co, ch) in cells || Cell(co, ch) == last;
      if ch != last.symbol {
        assert after[ch] == before[ch];
      } else if ch !in before {
        assert Cell(co, ch) !in cells;
      }
    }
  }

  /** Appending a coordinate that is not yet listed keeps every list
      non-empty and free of repetitions. */
  lemma IndexValidInsert(before: Index, cell: Cell)
    requires IndexValid(before)
    requires cell.symbol in before ==> cell.at !in before[cell.symbol]
    ensures IndexValid(Insert(before, cell))
  {
  }

  /** No list of the index is empty or repeats a coordinate. */
  lemma PositionsValid(m: Matrix)
    ensures IndexValid(PositionsOf(m))
  {
    CellsFacts(m);
    IndexOfLists(Cells(m));
  }

  /** The index is consistent with the grid: every listed coordinate is in the
      grid and holds the symbol it is listed under; every cell of the grid is
      listed under its own symbol and under no other; no list is empty or
      repeats a coordinate; and the keys are exactly the symbols the grid
      holds. */
  lemma PositionsConsistent(m: Matrix)
    ensures IndexValid(PositionsOf(m))
    ensures forall ch, co :: ch in PositionsOf(m) && co in PositionsOf(m)[ch] ==> InGrid(m, co) && At(m, co) == ch
    ensures forall ch, co :: InGrid(m, co) && ch in PositionsOf(m) ==> (co in PositionsOf(m)[ch] <==> At(m, co) == ch)
    ensures forall co :: InGrid(m, co) ==> At(m, co) in PositionsOf(m)
    ensures forall ch :: ch in PositionsOf(m) <==> Occurs(m, ch)
  {
    CellsFacts(m);
    IndexOfKeys(Cells(m));
    IndexOfLists(Cells(m));
    var index := PositionsOf(m);
    forall co | InGrid(m, co) ensures At(m, co) in index {
      assert Cell(co, At(m, co)) in Cells(m);
    }
    PositionsKeys(m);
  }

  /** The keys of the index are exactly the symbols the grid holds. */
  lemma PositionsKeys(m: Matrix)
    ensures forall ch :: ch in PositionsOf(m) <==> Occurs(m, ch)
  {
    CellsFacts(m);
    IndexOfKeys(Cells(m));
    forall ch ensures ch in PositionsOf(m) <==> Occurs(m, ch) {
      if ch in PositionsOf(m) {
        var x :| x in Cells(m) && x.symbol == ch;
        assert m[x.at.row - 1][x.at.col - 1] == ch;
      }
      if Occurs(m, ch) {
        var r, c :| 0 <= r < |m| && 0 <= c < |m[r]| && m[r][c] == ch;
        assert At(m, Coord(r + 1, c + 1)) == ch;
        assert Cell(Coord(r + 1, c + 1), ch) in Cells(m);
      }
    }
  }
}
