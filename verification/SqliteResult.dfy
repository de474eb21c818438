/** SQLite_Result: a cursor over the flat table of sqlite3_get_table, whose row 0 holds
    the column names.  The cursor owns the table it was given. */
module SqliteResult {
  import opened Arithmetic

  datatype Cell = Null | Text(s: string)

  /** A table allocated by SQLite; `frees` counts the calls of sqlite3_free_table. */
  class Table {
    const cells: seq<Cell>
    var frees: nat

    constructor (cells: seq<Cell>)
      ensures this.cells == cells && frees == 0
    {
      this.cells, frees := cells, 0;
    }

    method Free()
      modifies this
      ensures frees == old(frees) + 1
    {
      frees := frees + 1;
    }
  }

  /** (int8_t) of an int: the low eight bits, as a signed number. */
  function Int8(x: int): (y: int)
    ensures -128 <= y <= 127 && exists k :: y == x + 256 * k
  {
    assert (x + 128) % 256 - 128 == x + 256 * -((x + 128) / 256);
    (x + 128) % 256 - 128
  }

  class Cursor {
    var result: Table?
    var rowCount: nat
    var colCount: nat
    var currentRow: nat
    var currentCol: nat

    /** Every table ever handed over. */
    ghost var taken: set<Table>

    /** Of the tables handed over the current one is still allocated, and every other has
        been freed exactly once; the position stays inside the current table. */
    ghost predicate Valid()
      reads this, taken
    {
      && (result != null ==> result in taken)
      && (forall t :: t in taken ==> t.frees == if t == result then 0 else 1)
      && (result != null ==> |result.cells| == (rowCount + 1) * colCount)
      && currentRow <= rowCount && currentCol <= colCount
    }

    constructor ()
      ensures Valid() && result == null && taken == {}
    {
      result, rowCount, colCount, currentRow, currentCol := null, 0, 0, 0, 0;
      taken := {};
    }

    /** The destructor. */
    method Destroy()
      requires Valid()
      modifies this, result
      ensures result == null && taken == old(taken) && forall t :: t in taken ==> t.frees == 1
    {
      if result != null {
        result.Free();
        result := null;
      }
    }

    /** The null pointer is taken like a table, with whatever counts come with it. */
    method SetResult(table: Table?, rows: nat, cols: nat)
      requires Valid()
      requires table != null ==> table !in taken && table.frees == 0 && |table.cells| == (rows + 1) * cols
      modifies this, result
      ensures Valid() && taken == if table == null then old(taken) else old(taken) + {table}
      ensures result == table && rowCount == rows && colCount == cols && currentRow == 0 && currentCol == 0
    {
      if result != null {
        FreeResult();
      }
      result := table;
      rowCount, colCount, currentRow, currentCol := rows, cols, 0, 0;
      if table != null {
        taken := taken + {table};
      }
    }

    method FreeResult()
      requires Valid()
      modifies this, result
      ensures Valid() && taken == old(taken) && result == null
      ensures old(result) == null ==> unchanged(this)
      ensures old(result) != null ==> rowCount == colCount == currentRow == currentCol == 0
    {
      if result != null {
        result.Free();
        result := null;
        rowCount, colCount, currentRow, currentCol := 0, 0, 0, 0;
      }
    }

    method FetchNextRow() returns (ok: bool)
      requires Valid()
      modifies this
      ensures Valid() && taken == old(taken) && result == old(result)
      ensures rowCount == old(rowCount) && colCount == old(colCount)
      ensures ok <==> result != null && old(currentRow) < rowCount
      ensures currentRow == old(currentRow) + (if ok then 1 else 0)
      ensures currentCol == if ok then 0 else old(currentCol)
    {
      if result == null {
        return false;
      }
      if currentRow < rowCount {
        currentRow := currentRow + 1;
        currentCol := 0;
        return true;
      }
      ok := false;
    }

    /** The read operators do not test for null, only for a column that is left. */
    predicate Readable()
      reads this
    {
      currentCol < colCount ==> result != null
    }

    /** The cell under the cursor, while the current row has one left. */
    ghost function Here(): Cell
      requires Valid() && Readable() && currentCol < colCount
      reads this, taken
    {
      result.cells[Index()]
    }

    /** The flat index of that cell. */
    function Index(): (k: nat)
      requires Valid() && Readable() && currentCol < colCount
      reads this, taken
      ensures result != null && k < |result.cells|
      ensures currentRow * colCount <= k < (currentRow + 1) * colCount
    {
      IndexInTable(currentRow, currentCol, rowCount, colCount);
      currentRow * colCount + currentCol
    }

    /** What every read leaves behind: the cursor one column on, in the same row. */
    twostate predicate MovedOn(moved: bool)
      reads this
    {
      && taken == old(taken) && result == old(result)
      && rowCount == old(rowCount) && colCount == old(colCount) && currentRow == old(currentRow)
      && currentCol == old(currentCol) + if moved then 1 else 0
    }

    /** operator>> into a string; a NULL cell leaves the variable as it was. */
    method ReadString(val0: string) returns (val: string)
      requires Valid() && Readable()
      modifies this
      ensures Valid() && MovedOn(old(currentCol) < old(colCount))
      ensures val == if old(currentCol) < old(colCount) && old(Here()).Text? then old(Here()).s else val0
    {
      val := val0;
      if currentRow <= rowCount && currentCol < colCount {
        var currentIndex := Index();
        if result.cells[currentIndex] != Null {
          val := result.cells[currentIndex].s;
        }
        currentCol := currentCol + 1;
      }
    }

    /** operator>> into an int8_t; `atoi` is the C library's. */
    method ReadInt8(val0: int, atoi: string -> int) returns (val: int)
      requires Valid() && Readable()
      modifies this
      ensures Valid() && MovedOn(old(currentCol) < old(colCount))
      ensures val == if old(currentCol) < old(colCount) && old(Here()).Text? then Int8(atoi(old(Here()).s)) else val0
    {
      val := val0;
      if currentRow <= rowCount && currentCol < colCount {
        var currentIndex := Index();
        if result.cells[currentIndex] != Null {
          val := Int8(atoi(result.cells[currentIndex].s));
        }
        currentCol := currentCol + 1;
      }
    }

    /** get_string into a caller's buffer.  A text that does not fit with its terminator is
        skipped; without a buffer the cursor does not move. */
    method GetString(buff: array?<char>, buffLen: nat)
      requires Valid() && (buff != null ==> Readable() && buffLen <= buff.Length)
      modifies this, buff
      ensures Valid() && MovedOn(buff != null && old(currentCol) < old(colCount))
      ensures buff != null ==>
                var here := if old(currentCol) < old(colCount) then old(Here()) else Null;
                buff[..] == if here.Text? && |here.s| < buffLen then Copied(old(buff[..]), here.s) else old(buff[..])
    {
      if buff != null && currentRow <= rowCount && currentCol < colCount {
        var currentIndex := Index();
        if result.cells[currentIndex] != Null && buffLen > |result.cells[currentIndex].s| {
          StrCpy(buff, result.cells[currentIndex].s);
        }
        currentCol := currentCol + 1;
      }
    }
  }

  /** A buffer over whose start a text and its terminator are written. */
  function Copied(buff: seq<char>, s: string): (after: seq<char>)
    requires |s| < |buff|
    ensures |after| == |buff|
    ensures forall k :: 0 <= k < |buff| ==> after[k] == if k < |s| then s[k] else if k == |s| then '\0' else buff[k]
  {
    s + ['\0'] + buff[|s| + 1..]
  }

  method StrCpy(buff: array<char>, s: string)
    requires |s| < buff.Length
    modifies buff
    ensures buff[..] == Copied(old(buff[..]), s)
  {
    forall k | 0 <= k <= |s| {
      buff[k] := if k < |s| then s[k] else '\0';
    }
  }

  /** The flat index of a column of a row lies in that row, inside the table. */
  lemma IndexInTable(row: nat, col: nat, rows: nat, cols: nat)
    requires row <= rows && col < cols
    ensures row * cols <= row * cols + col < (row + 1) * cols <= (rows + 1) * cols
  {
    Distribute(cols, row, 1);
    Distribute(cols, rows - row, row + 1);
    NaturalProduct(rows - row, cols);
  }

  // ----- reading a whole table -----------------------------------------------------------

  ghost predicate Rectangular(m: seq<seq<Cell>>, cols: nat) {
    forall r :: 0 <= r < |m| ==> |m[r]| == cols
  }

  /** Row after row, as SQLite lays a table out. */
  function Flatten(m: seq<seq<Cell>>): seq<Cell> {
    if m == [] then [] else Flatten(m[..|m| - 1]) + m[|m| - 1]
  }

  lemma {:induction false} FlattenLength(m: seq<seq<Cell>>, cols: nat)
    requires Rectangular(m, cols)
    ensures |Flatten(m)| == |m| * cols
  {
    if m != [] {
      FlattenLength(m[..|m| - 1], cols);
      Distribute(cols, |m| - 1, 1);
    }
  }

  lemma {:induction false} FlattenAt(m: seq<seq<Cell>>, cols: nat, r: nat, c: nat)
    requires Rectangular(m, cols) && r < |m| && c < cols
    ensures 0 <= r * cols + c < |Flatten(m)| && Flatten(m)[r * cols + c] == m[r][c]
    decreases |m|
  {
    var n := |m| - 1;
    FlattenLength(m, cols);
    FlattenLength(m[..n], cols);
    IndexInTable(r, c, n, cols);
    if r < n {
      FlattenAt(m[..n], cols, r, c);
    }
  }

  /** Row r of the flat table reads `row`. */
  ghost predicate RowReads(cells: seq<Cell>, r: nat, cols: nat, row: seq<Cell>) {
    && |row| == cols
    && forall c: nat :: c < cols ==> CellReads(cells, r, cols, c, row[c])
  }

  ghost predicate CellReads(cells: seq<Cell>, r: nat, cols: nat, c: nat, cell: Cell) {
    var k := r * cols + c;
    0 <= k < |cells| && cells[k] == cell
  }

  lemma FlattenRows(m: seq<seq<Cell>>, cols: nat, r: nat)
    requires Rectangular(m, cols) && r < |m|
    ensures RowReads(Flatten(m), r, cols, m[r])
  {
    forall c: nat | c < cols ensures CellReads(Flatten(m), r, cols, c, m[r][c]) {
      FlattenAt(m, cols, r, c);
    }
  }

  function Shown(c: Cell, default: string): string {
    if c.Text? then c.s else default
  }

  function ShownRow(row: seq<Cell>, default: string): seq<string> {
    seq(|row|, c requires 0 <= c < |row| => Shown(row[c], default))
  }

  /** Reading the rest of the current row. */
  method ReadRow(cursor: Cursor, default: string, ghost row: seq<Cell>) returns (texts: seq<string>)
    requires cursor.Valid() && cursor.result != null && cursor.currentCol == 0
    requires RowReads(cursor.result.cells, cursor.currentRow, cursor.colCount, row)
    modifies cursor
    ensures cursor.Valid() && cursor.taken == old(cursor.taken) && cursor.result == old(cursor.result)
    ensures cursor.rowCount == old(cursor.rowCount) && cursor.colCount == old(cursor.colCount)
    ensures cursor.currentRow == old(cursor.currentRow)
    ensures texts == ShownRow(row, default)
  {
    texts := [];
    while cursor.currentCol < cursor.colCount
      invariant cursor.Valid() && cursor.taken == old(cursor.taken) && cursor.result == old(cursor.result)
      invariant cursor.rowCount == old(cursor.rowCount) && cursor.colCount == old(cursor.colCount)
      invariant cursor.currentRow == old(cursor.currentRow) && |texts| == cursor.currentCol
      invariant forall c :: 0 <= c < |texts| ==> texts[c] == Shown(row[c], default)
      decreases cursor.colCount - cursor.currentCol
    {
      ghost var c := cursor.currentCol;
      assert CellReads(cursor.result.cells, cursor.currentRow, cursor.colCount, c, row[c]);
      var text := cursor.ReadString(default);
      texts := texts + [text];
    }
  }

  /** Reading the column names and then fetching and reading until fetch_next_row fails
      gives back the matrix that was flattened. */
  method ReadAll(cursor: Cursor, default: string, ghost m: seq<seq<Cell>>) returns (rows: seq<seq<string>>)
    requires cursor.Valid() && cursor.result != null && cursor.currentRow == 0 && cursor.currentCol == 0
    requires |m| == cursor.rowCount + 1 && Rectangular(m, cursor.colCount) && cursor.result.cells == Flatten(m)
    modifies cursor
    ensures cursor.Valid()
    ensures |rows| == |m| && forall r :: 0 <= r < |m| ==> rows[r] == ShownRow(m[r], default)
  {
    FlattenRows(m, cursor.colCount, 0);
    var names := ReadRow(cursor, default, m[0]);
    rows := [names];
    var more := cursor.FetchNextRow();
    while more
      invariant cursor.Valid() && cursor.taken == old(cursor.taken) && cursor.result == old(cursor.result)
      invariant cursor.rowCount == old(cursor.rowCount) && cursor.colCount == old(cursor.colCount)
      invariant if more then |rows| == cursor.currentRow && cursor.currentCol == 0 else |rows| == cursor.rowCount + 1
      invariant forall r :: 0 <= r < |rows| ==> rows[r] == ShownRow(m[r], default)
      decreases |m| - |rows|
    {
      FlattenRows(m, cursor.colCount, cursor.currentRow);
      var texts := ReadRow(cursor, default, m[cursor.currentRow]);
      rows := rows + [texts];
      more := cursor.FetchNextRow();
    }
  }
}
