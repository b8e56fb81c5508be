/** The loops that write and read an OpenDocument table. */
module OdsCodec {
  import opened Wrappers
  import opened Text
  import opened Xml
  import opened CellRefs
  import opened CellOrder
  import opened Sheets
  import opened OdsTables

  // ---------------------------------------------------------------- writing

  /** Row `row` of the map lists exactly the filled columns among `done`, ascending. */
  ghost predicate RowDone(rows: map<u32, seq<u32>>, done: set<CellRef>, cells: Cells, row: u32) {
    var columns := if row in rows then rows[row] else [];
    && Ascending(columns)
    && (row in rows <==> columns != [])
    && forall x: u32 :: x in columns <==> CellRef(x, row) in done && Filled(cells, CellRef(x, row))
  }

  lemma RowDoneIsSorted(rows: map<u32, seq<u32>>, cells: Cells, row: u32)
    requires RowDone(rows, cells.Keys, cells, row)
    ensures row in rows <==> row in RowsOf(cells)
    ensures row in rows ==> rows[row] == Sorted(ColumnsOf(cells, row))
  {
    var columns := if row in rows then rows[row] else [];
    forall x: u32
      ensures x in columns <==> x in ColumnsOf(cells, row)
    {
      assert x in columns <==> Filled(cells, CellRef(x, row));
      assert Filled(cells, CellRef(x, row)) ==> x in ColumnsOf(cells, row);
    }
    AscendingIsSorted(columns, ColumnsOf(cells, row));
    if row in rows {
      assert columns[0] in columns;
      assert Filled(cells, CellRef(columns[0], row));
    }
    if row in RowsOf(cells) {
      var c :| c in cells && Filled(cells, c) && c.row == row;
      assert c == CellRef(c.column, row);
      assert c.column in columns;
    }
  }

  lemma SkipBlank(rows: map<u32, seq<u32>>, done: set<CellRef>, cells: Cells, row: u32, c: CellRef)
    requires RowDone(rows, done, cells, row) && !Filled(cells, c)
    ensures RowDone(rows, done + {c}, cells, row)
  {
  }

  lemma PushCell(rows: map<u32, seq<u32>>, done: set<CellRef>, cells: Cells, row: u32, c: CellRef)
    requires RowDone(rows, done, cells, row) && Filled(cells, c)
    requires forall x :: x in done ==> CellBefore(x, c)
    ensures RowDone(rows[c.row := (if c.row in rows then rows[c.row] else []) + [c.column]], done + {c}, cells, row)
  {
    if row == c.row {
      var columns := if row in rows then rows[row] else [];
      var more := columns + [c.column];
      forall i | 0 <= i < |columns|
        ensures columns[i] < c.column
      {
        assert columns[i] in columns;
        assert CellBefore(CellRef(columns[i], row), c);
      }
      assert forall x: u32 :: x in more <==> x in columns || x == c.column;
    }
  }

  /** Non-blank cells grouped by row; visiting cells by column leaves every group ascending. */
  method GroupRows(cells: Cells) returns (rows: map<u32, seq<u32>>)
    ensures rows.Keys == RowsOf(cells)
    ensures forall row :: row in rows ==> rows[row] == Sorted(ColumnsOf(cells, row))
  {
    rows := map[];
    var todo := cells.Keys;
    ghost var done: set<CellRef> := {};
    while todo != {}
      invariant todo <= cells.Keys && done == cells.Keys - todo
      invariant forall x, y :: x in done && y in todo ==> CellBefore(x, y)
      invariant forall row: u32 :: RowDone(rows, done, cells, row)
      decreases |todo|
    {
      hide RowDone, CellBefore;
      FirstCellExists(todo);
      var c :| FirstCell(c, todo);
      todo := todo - {c};
      if !cells[c].Blank? {
        ghost var before := rows;
        rows := rows[c.row := (if c.row in rows then rows[c.row] else []) + [c.column]];
        forall row: u32
          ensures RowDone(rows, done + {c}, cells, row)
        {
          PushCell(before, done, cells, row, c);
        }
      } else {
        forall row: u32
          ensures RowDone(rows, done + {c}, cells, row)
        {
          SkipBlank(rows, done, cells, row, c);
        }
      }
      done := done + {c};
    }
    assert done == cells.Keys;
    forall row: u32 {
      RowDoneIsSorted(rows, cells, row);
    }
  }

  /** One row: a gap where columns are skipped, then the cell. */
  method WriteRow(cells: Cells, row: u32, columns: seq<u32>, build: Build) returns (r: Nodes)
    ensures r == RowNodes(cells, row, columns, 1, build)
  {
    hide After, RowNodes, Gap, CellNodes, CellAt, EmptyCells;
    var nodes: seq<Node> := [];
    var nextColumn: u32 := 1;
    AfterNothing(RowNodes(cells, row, columns, 1, build));
    assert columns[0..] == columns;
    for i := 0 to |columns|
      invariant RowNodes(cells, row, columns, 1, build) ==
                After(nodes, RowNodes(cells, row, columns[i..], nextColumn, build))
    {
      var cell := CellRef(columns[i], row);
      RowNodesFirst(cells, row, columns, i, nextColumn, build);
      ghost var before, gap := nodes, Gap(nextColumn, cell.column);
      GapIs(nextColumn, cell.column);
      if nextColumn < cell.column {
        nodes := nodes + [EmptyCells(cell.column - nextColumn)];
      }
      nodes := nodes + CellNodes(cell, CellAt(cells, cell));
      if Stops(cell.column, build) {
        AfterFailure(before, Overflow);
        return Failure(Overflow);
      }
      assert nodes == before + (gap + CellNodes(cell, CellAt(cells, cell)));
      AfterAfter(before, gap + CellNodes(cell, CellAt(cells, cell)),
                 RowNodes(cells, row, columns[i + 1..], Following(cell.column), build));
      nextColumn := Following(cell.column);
    }
    assert columns[|columns|..] == [];
    AfterEnd(nodes);
    RowNodesEnd(cells, row, nextColumn, build);
    return Success(nodes);
  }

  lemma RowNodesFirst(cells: Cells, row: u32, columns: seq<u32>, i: nat, next: u32, build: Build)
    requires i < |columns|
    ensures RowNodes(cells, row, columns[i..], next, build) ==
            if Stops(columns[i], build) then Failure(Overflow)
            else After(Gap(next, columns[i])
                       + CellNodes(CellRef(columns[i], row), CellAt(cells, CellRef(columns[i], row))),
                       RowNodes(cells, row, columns[i + 1..], Following(columns[i]), build))
  {
    hide CellNodes, CellAt, Gap, After;
    assert columns[i..][1..] == columns[i + 1..];
  }

  lemma RowNodesEnd(cells: Cells, row: u32, next: u32, build: Build)
    ensures RowNodes(cells, row, [], next, build) == Success([])
  {
  }

  lemma GapIs(next: u32, column: u32)
    ensures Gap(next, column) == if next < column then [EmptyCells(column - next)] else []
  {
  }

  lemma AfterNothing(rest: Nodes)
    ensures After([], rest) == rest
  {
    if rest.Success? {
      assert [] + rest.value == rest.value;
    }
  }

  lemma AfterEnd(nodes: seq<Node>)
    ensures After(nodes, Success([])) == Success(nodes)
  {
    assert nodes + [] == nodes;
  }

  lemma AfterFailure(nodes: seq<Node>, e: OdsError)
    ensures After(nodes, Failure(e)) == Failure(e)
  {
  }

  lemma AfterAfter(a: seq<Node>, b: seq<Node>, rest: Nodes)
    ensures After(a, After(b, rest)) == After(a + b, rest)
  {
    if rest.Success? {
      assert a + (b + rest.value) == a + b + rest.value;
    }
  }

  lemma EmptyRowsSnoc(count: nat)
    ensures EmptyRows(count) + [EMPTY_ROW] == EmptyRows(count + 1)
  {
    if count > 0 {
      EmptyRowsSnoc(count - 1);
      assert EmptyRows(count) + [EMPTY_ROW] == [EMPTY_ROW] + (EmptyRows(count - 1) + [EMPTY_ROW]);
    }
  }

  lemma NextSorted(rows: set<u32>, row: u32)
    requires IsSmallest(row, rows)
    ensures Sorted(rows) != [] && Sorted(rows)[0] == row && Sorted(rows)[1..] == Sorted(rows - {row})
  {
    SortedStep(rows);
  }

  method WriteTable(sheet: Sheet, build: Build) returns (r: Result<Node, OdsError>)
    ensures r == TableOf(sheet, build)
  {
    hide RowNodes, RowsOf, ColumnsOf, TableNodes, After, Sorted, IsSmallest, EmptyRows, RowElement;
    var cells := sheet.cells;
    var rows := GroupRows(cells);
    var nodes: seq<Node> := [];
    var nextRow: u32 := 1;
    var todo := rows.Keys;
    ghost var all := TableNodes(cells, Sorted(todo), 1, build);
    AfterNothing(all);
    while todo != {}
      invariant todo <= rows.Keys
      invariant all == After(nodes, TableNodes(cells, Sorted(todo), nextRow, build))
      decreases |todo|
    {
      SmallestExists(todo);
      var row: u32 :| IsSmallest(row, todo);
      SmallestIsIn(row, todo);
      ghost var before, start, here := nodes, nextRow, if nextRow < row then row else nextRow;
      NoEmptyRows();
      while nextRow < row
        invariant start <= nextRow <= here
        invariant nodes == before + EmptyRows(nextRow - start)
      {
        EmptyRowsSnoc(nextRow - start);
        nodes := nodes + [EMPTY_ROW];
        nextRow := nextRow + 1;
      }
      assert nextRow == here;
      TableNodesFirst(cells, todo, row, start, build);
      var children := WriteRow(cells, row, rows[row], build);
      todo := todo - {row};
      if children.Failure? {
        AfterFailure(before, children.error);
        return Failure(children.error);
      }
      nodes := nodes + [RowElement(children.value)];
      if Stops(nextRow, build) {
        AfterFailure(before, Overflow);
        return Failure(Overflow);
      }
      ghost var block := EmptyRows(here - start) + [RowElement(children.value)];
      assert nodes == before + block;
      AfterAfter(before, block, TableNodes(cells, Sorted(todo), Following(here), build));
      nextRow := Following(nextRow);
    }
    NoTableNodes(cells, nextRow, build);
    AfterEnd(nodes);
    return Success(TableElement(sheet.name, nodes));
  }

  lemma SmallestIsIn(x: u32, xs: set<u32>)
    requires IsSmallest(x, xs)
    ensures x in xs
  {
  }

  lemma NoEmptyRows()
    ensures EmptyRows(0) == []
  {
  }

  lemma NoTableNodes(cells: Cells, next: u32, build: Build)
    ensures TableNodes(cells, Sorted({}), next, build) == Success([])
  {
  }

  lemma TableNodesFirst(cells: Cells, todo: set<u32>, row: u32, next: u32, build: Build)
    requires IsSmallest(row, todo)
    ensures TableNodes(cells, Sorted(todo), next, build) ==
            (match RowNodes(cells, row, Sorted(ColumnsOf(cells, row)), 1, build)
             case Failure(e) => Failure(e)
             case Success(children) =>
               var here := if next < row then row else next;
               if Stops(here, build) then Failure(Overflow)
               else After(EmptyRows(here - next) + [RowElement(children)],
                          TableNodes(cells, Sorted(todo - {row}), Following(here), build)))
  {
    hide RowNodes, After, EmptyRows, RowElement, ColumnsOf;
    NextSorted(todo, row);
    hide Sorted;
  }

  // ---------------------------------------------------------------- reading

  /** The repetitions of one cell, each set unless the value is blank. */
  method ReadRepeated(
    node: Node, value: CellValue, column: u32, row: u32, repeats: u32, start: Cells, build: Build)
    returns (r: Decoded)
    ensures r == SetRepeated(node, value, column, row, 0, repeats, start, build)
  {
    var cells := start;
    for offset := 0 to repeats
      invariant SetRepeated(node, value, column, row, 0, repeats, start, build) ==
                SetRepeated(node, value, column, row, offset, repeats, cells, build)
    {
      if !value.Blank? {
        var cell := Address(node, column, row, offset, build);
        if cell.Failure? {
          return Failure(cell.error);
        }
        cells := SetCell(cells, cell.value, value);
      }
    }
    return Success(cells);
  }

  /** `decode_row`: the column moves on by each child's repeat count. */
  method ReadRow(nodes: seq<Node>, row: u32, start: Cells, build: Build) returns (r: Decoded)
    ensures r == DecodeRow(nodes, 1, row, start, build)
  {
    hide DecodeCell, SetRepeated, RepeatCount;
    var cells := start;
    var column: u32 := 1;
    for i := 0 to |nodes|
      invariant DecodeRow(nodes, 1, row, start, build) == DecodeRow(nodes[i..], column, row, cells, build)
    {
      var node := nodes[i];
      assert nodes[i..][0] == node && nodes[i..][1..] == nodes[i + 1..];
      if IsCell(node) {
        var repeats := RepeatCount(node, COLUMNS_REPEATED);
        if repeats.Failure? {
          return Failure(repeats.error);
        }
        if !HasTag(node, "covered-table-cell") {
          var value := DecodeCell(node);
          if value.Failure? {
            return Failure(value.error);
          }
          var next := ReadRepeated(node, value.value, column, row, repeats.value, cells, build);
          if next.Failure? {
            return Failure(next.error);
          }
          cells := next.value;
        }
        var after := Advance(column, repeats.value, build);
        if after.Failure? {
          return Failure(after.error);
        }
        column := after.value;
      }
    }
    assert nodes[|nodes|..] == [];
    return Success(cells);
  }

  /** `decode_rows`: each row is read once for every repetition. */
  method ReadRows(nodes: seq<Node>, start: Cells, build: Build) returns (r: Decoded)
    ensures r == DecodeRows(nodes, 1, start, build)
  {
    hide DecodeRow, RepeatCount;
    var cells := start;
    var row: u32 := 1;
    for i := 0 to |nodes|
      invariant DecodeRows(nodes, 1, start, build) == DecodeRows(nodes[i..], row, cells, build)
    {
      var node := nodes[i];
      assert nodes[i..][0] == node && nodes[i..][1..] == nodes[i + 1..];
      if HasTag(node, "table-row") {
        var repeats := RepeatCount(node, ROWS_REPEATED);
        if repeats.Failure? {
          return Failure(repeats.error);
        }
        ghost var whole := DecodeRepeated(node, row, repeats.value, cells, build);
        for k := 0 to repeats.value
          invariant whole == DecodeRepeated(node, row, repeats.value - k, cells, build)
        {
          var next := ReadRow(ChildrenOf(node), row, cells, build);
          if next.Failure? {
            return Failure(next.error);
          }
          cells := next.value;
          var below := Advance(row, 1, build);
          if below.Failure? {
            return Failure(below.error);
          }
          row := below.value;
        }
      }
    }
    assert nodes[|nodes|..] == [];
    return Success(cells);
  }

  // ---------------------------------------------------------------- tables written elsewhere

  /** Where the repetitions of an unaddressed cell land. */
  predicate InRun(c: CellRef, column: u32, row: u32, offset: nat, repeats: nat) {
    c.row == row && column + offset <= c.column < column + repeats
  }

  /** An unaddressed, non-blank cell fills exactly the run of columns its repeat count covers. */
  lemma {:induction false} RepeatedCellFillsRun(
    node: Node, value: CellValue, column: u32, row: u32, offset: nat, repeats: nat, cells: Cells, c: CellRef,
    build: Build)
    requires !value.Blank? && offset <= repeats <= U32_MAX && 1 <= column && 1 <= row && column + offset <= WIDTH_32
    requires AttrNs(AttributesOf(node), SIM_NS, "cell") == None
    ensures var r := SetRepeated(node, value, column, row, offset, repeats, cells, build);
            && (r.Failure? <==> offset < repeats && column + repeats - 1 > U32_MAX)
            && (r.Failure? ==> r.error == if build.Checked? then Overflow else BadCellRef)
            && (r.Success? ==> CellAt(r.value, c) ==
                               if InRun(c, column, row, offset, repeats) then value else CellAt(cells, c))
    decreases repeats - offset
  {
    hide AttrNs, AttributesOf;
    if offset < repeats && column + offset <= U32_MAX {
      RepeatedCellFillsRun(node, value, column, row, offset + 1, repeats,
                           SetCell(cells, CellRef(column + offset, row), value), c, build);
    }
  }
}
