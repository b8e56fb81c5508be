/** Where the cells of any table land: repeat counts add up to rows and columns. */
module OdsPlaces {
  import opened Wrappers
  import opened Text
  import opened Xml
  import opened XmlNames
  import opened CellRefs
  import opened Sheets
  import opened OdsTables
  import opened OdsForeign
  import OdsCodec

  // ---------------------------------------------------------------- extents

  predicate Counted(node: Node, rows: bool) {
    if rows then HasTag(node, "table-row") else IsCell(node)
  }

  function CountOf(node: Node, rows: bool): Result<u32, OdsError> {
    RepeatCount(node, if rows then ROWS_REPEATED else COLUMNS_REPEATED)
  }

  /** How many rows or columns a node stands for. */
  function Steps(node: Node, rows: bool): nat {
    if Counted(node, rows) && CountOf(node, rows).Success? then CountOf(node, rows).value else 0
  }

  function Extent(nodes: seq<Node>, rows: bool): nat {
    if nodes == [] then 0 else Steps(nodes[0], rows) + Extent(nodes[1..], rows)
  }

  /** Counting from `start`, the `k`-th node stands for this row or column. */
  ghost predicate Covers(nodes: seq<Node>, rows: bool, start: nat, k: nat, at: nat) {
    k < |nodes|
    && start + Extent(nodes[..k], rows) <= at < start + Extent(nodes[..k], rows) + Steps(nodes[k], rows)
  }

  /** A written count is the number it spells; without one, the node stands for itself. */
  lemma CountReads(node: Node, rows: bool, n: nat)
    ensures WithoutLocal(node, if rows then ROWS_REPEATED else COLUMNS_REPEATED) ==> CountOf(node, rows) == Success(1)
    ensures Given(node, TABLE_NS, if rows then ROWS_REPEATED else COLUMNS_REPEATED, NatText(n)) ==>
              CountOf(node, rows) == if n <= U32_MAX then Success(n) else Failure(BadRepeat)
  {
    GivenIff(node, TABLE_NS, if rows then ROWS_REPEATED else COLUMNS_REPEATED);
    ParseU32OfText(1);
    ParseU32OfText(n);
    assert NatText(1) == "1";
    hide Given, WithoutLocal, Lookup, ParseU32, NatText;
  }

  /** The node found by counting down from the first. */
  function Over(nodes: seq<Node>, rows: bool, start: nat, at: nat): Option<Node> {
    if nodes == [] || at < start then None
    else if at < start + Steps(nodes[0], rows) then Some(nodes[0])
    else Over(nodes[1..], rows, start + Steps(nodes[0], rows), at)
  }

  lemma {:induction false} CoversOver(nodes: seq<Node>, rows: bool, start: nat, k: nat, at: nat)
    requires Covers(nodes, rows, start, k, at)
    ensures Over(nodes, rows, start, at) == Some(nodes[k])
  {
    hide Steps;
    if k > 0 {
      assert nodes[..k][0] == nodes[0] && nodes[..k][1..] == nodes[1..][..k - 1];
      CoversOver(nodes[1..], rows, start + Steps(nodes[0], rows), k - 1, at);
    }
  }

  lemma {:induction false} OverCovers(nodes: seq<Node>, rows: bool, start: nat, at: nat) returns (k: nat)
    requires Over(nodes, rows, start, at).Some?
    ensures Covers(nodes, rows, start, k, at) && Over(nodes, rows, start, at) == Some(nodes[k])
  {
    hide Steps;
    var here := Steps(nodes[0], rows);
    if at < start + here {
      k := 0;
    } else {
      var rest := OverCovers(nodes[1..], rows, start + here, at);
      k := rest + 1;
      assert nodes[..k][0] == nodes[0] && nodes[..k][1..] == nodes[1..][..rest];
    }
  }

  // ---------------------------------------------------------------- one row

  /** A cell that can be read and has no stored address. */
  ghost predicate Readable(node: Node) {
    && CountOf(node, false).Success?
    && (HasTag(node, "table-cell") ==>
          Without(node, SIM_NS, "cell") && exists value :: Reads(node, Success(value)))
  }

  ghost predicate GoodRow(nodes: seq<Node>) {
    forall i :: 0 <= i < |nodes| && IsCell(nodes[i]) ==> Readable(nodes[i])
  }

  /** The value a child of a row puts down. */
  function ValueOf(node: Node): CellValue {
    if HasTag(node, "table-cell") && DecodeCell(node).Success? then DecodeCell(node).value else CellValue.Blank
  }

  lemma ValueIsRead(node: Node, value: CellValue)
    requires HasTag(node, "table-cell") && Reads(node, Success(value))
    ensures ValueOf(node) == value
  {
    ReadsIff(node, Success(value));
    hide Reads, DecodeCell;
  }

  lemma ReadableDecodes(node: Node)
    requires Readable(node) && HasTag(node, "table-cell")
    ensures DecodeCell(node) == Success(ValueOf(node)) && AttrNs(AttributesOf(node), SIM_NS, "cell") == None
  {
    var value :| Reads(node, Success(value));
    ReadsIff(node, Success(value));
    HasIff(node, SIM_NS, "cell");
    hide Reads, DecodeCell, Has, Without, AttrNs;
  }

  /** What a row shows in a column. */
  function Shown(nodes: seq<Node>, start: nat, at: nat): CellValue {
    var node := Over(nodes, false, start, at);
    if node.Some? then ValueOf(node.value) else CellValue.Blank
  }

  function Shadowed(value: CellValue, below: CellValue): CellValue {
    if value.Blank? then below else value
  }

  lemma ChildPlaces(node: Node, column: u32, row: u32, cells: Cells, build: Build, c: CellRef)
    requires IsCell(node) && Readable(node) && 1 <= column && 1 <= row
    ensures var n := Steps(node, false); var r := DecodeChild(node, column, row, n, cells, build);
            && (column + n <= WIDTH_32 ==>
                  r.Success? && CellAt(r.value, c) ==
                                if c.row == row && column <= c.column < column + n
                                then Shadowed(ValueOf(node), CellAt(cells, c)) else CellAt(cells, c))
            && (build.Checked? && r.Failure? ==> r.error == Overflow)
  {
    var n := Steps(node, false);
    if HasTag(node, "covered-table-cell") {
      assert !HasTag(node, "table-cell");
    } else {
      ReadableDecodes(node);
      hide Readable, DecodeCell, CountOf;
      if !ValueOf(node).Blank? {
        OdsCodec.RepeatedCellFillsRun(node, ValueOf(node), column, row, 0, n, cells, c, build);
      }
    }
  }

  /** A row puts every value in the columns its cell stands for and touches nothing else. */
  lemma {:induction false} RowPlaces(
    nodes: seq<Node>, column: u32, row: u32, cells: Cells, build: Build, c: CellRef)
    requires GoodRow(nodes) && 1 <= column && 1 <= row
    ensures var r := DecodeRow(nodes, column, row, cells, build);
            && (column + Extent(nodes, false) <= U32_MAX ==>
                  r.Success? && CellAt(r.value, c) ==
                                if c.row == row then Shadowed(Shown(nodes, column, c.column), CellAt(cells, c))
                                else CellAt(cells, c))
            && (build.Checked? && column + Extent(nodes, false) > U32_MAX ==> r == Failure(Overflow))
  {
    hide ValueOf, Readable, DecodeChild, CellAt;
    if nodes != [] {
      var node, rest := nodes[0], nodes[1..];
      assert GoodRow(rest);
      if !IsCell(node) {
        assert Steps(node, false) == 0;
        RowPlaces(rest, column, row, cells, build, c);
      } else {
        var n := Steps(node, false);
        ChildPlaces(node, column, row, cells, build, c);
        ReadableCounts(node);
        RowTakes(nodes, column, row, cells, build);
        ShownSteps(nodes, column, c.column);
        hide Steps, DecodeRow, Shown, IsCell, GoodRow;
        var next := DecodeChild(node, column, row, n, cells, build);
        if next.Success? && column + n <= U32_MAX {
          RowPlaces(rest, column + n, row, next.value, build, c);
        }
      }
    }
  }

  lemma ShownSteps(nodes: seq<Node>, start: nat, at: nat)
    requires nodes != []
    ensures var after := start + Steps(nodes[0], false);
            Shown(nodes, start, at) == if at < start then CellValue.Blank
                                       else if at < after then ValueOf(nodes[0])
                                       else Shown(nodes[1..], after, at)
    ensures at < start ==> Shown(nodes[1..], start + Steps(nodes[0], false), at) == CellValue.Blank
  {
    hide Steps, ValueOf;
  }

  lemma TableSteps(nodes: seq<Node>, start: nat, c: CellRef)
    requires nodes != []
    ensures var after := start + Steps(nodes[0], true);
            TableShows(nodes, start, c) == if c.row < start then CellValue.Blank
                                           else if c.row < after then Shown(ChildrenOf(nodes[0]), 1, c.column)
                                           else TableShows(nodes[1..], after, c)
    ensures c.row < start ==> TableShows(nodes[1..], start + Steps(nodes[0], true), c) == CellValue.Blank
  {
    hide Steps, Shown;
  }

  lemma ReadableCounts(node: Node)
    requires Readable(node) && IsCell(node)
    ensures RepeatCount(node, COLUMNS_REPEATED) == Success(Steps(node, false))
  {
  }

  lemma RowTakes(nodes: seq<Node>, column: u32, row: u32, cells: Cells, build: Build)
    requires nodes != [] && IsCell(nodes[0])
    requires RepeatCount(nodes[0], COLUMNS_REPEATED) == Success(Steps(nodes[0], false))
    ensures var n := Steps(nodes[0], false); var next := DecodeChild(nodes[0], column, row, n, cells, build);
            && (next.Failure? ==> DecodeRow(nodes, column, row, cells, build) == next)
            && (next.Success? && column + n <= U32_MAX ==>
                  DecodeRow(nodes, column, row, cells, build) ==
                  DecodeRow(nodes[1..], column + n, row, next.value, build))
            && (next.Success? && column + n > U32_MAX && build.Checked? ==>
                  DecodeRow(nodes, column, row, cells, build) == Failure(Overflow))
  {
    hide Steps, DecodeChild, RepeatCount;
  }

  /** A cell whose count or content is refused with this error. */
  ghost predicate Faulty(node: Node, error: OdsError) {
    && IsCell(node)
    && (|| CountOf(node, false) == Failure(error)
        || (CountOf(node, false).Success? && HasTag(node, "table-cell") && Reads(node, Failure(error))))
  }

  /** The first child that cannot be counted or read refuses the row with its error. */
  lemma {:induction false} FirstFaultRefuses(
    nodes: seq<Node>, k: nat, column: u32, row: u32, cells: Cells, build: Build, error: OdsError)
    requires k < |nodes| && GoodRow(nodes[..k]) && 1 <= column && 1 <= row
    requires column + Extent(nodes[..k], false) <= U32_MAX && Faulty(nodes[k], error)
    ensures DecodeRow(nodes, column, row, cells, build) == Failure(error)
  {
    hide *;
    if k == 0 {
      FaultRefuses(nodes, column, row, cells, build, error);
    } else {
      var n, rest := Steps(nodes[0], false), nodes[1..];
      PrefixSteps(nodes, k);
      var next := RowPasses(nodes, column, row, cells, build);
      assert rest[k - 1] == nodes[k];
      FirstFaultRefuses(rest, k - 1, column + n, row, next, build, error);
    }
  }

  lemma PrefixSteps(nodes: seq<Node>, k: nat)
    requires 0 < k < |nodes| && GoodRow(nodes[..k])
    ensures GoodRow(nodes[1..][..k - 1]) && (IsCell(nodes[0]) ==> Readable(nodes[0]))
    ensures Extent(nodes[..k], false) == Steps(nodes[0], false) + Extent(nodes[1..][..k - 1], false)
  {
    hide Readable, Steps, IsCell;
    var good := nodes[..k];
    assert good[0] == nodes[0] && good[1..] == nodes[1..][..k - 1];
  }

  /** A child that can be read lets the row go on behind its columns. */
  lemma RowPasses(nodes: seq<Node>, column: u32, row: u32, cells: Cells, build: Build) returns (next: Cells)
    requires nodes != [] && (IsCell(nodes[0]) ==> Readable(nodes[0])) && 1 <= column && 1 <= row
    requires column + Steps(nodes[0], false) <= U32_MAX
    ensures DecodeRow(nodes, column, row, cells, build) ==
            DecodeRow(nodes[1..], column + Steps(nodes[0], false), row, next, build)
  {
    if IsCell(nodes[0]) {
      ReadableCounts(nodes[0]);
      ChildPlaces(nodes[0], column, row, cells, build, CellRef(column, row));
      RowTakes(nodes, column, row, cells, build);
      next := DecodeChild(nodes[0], column, row, Steps(nodes[0], false), cells, build).value;
    } else {
      next := cells;
    }
  }

  lemma FaultRefuses(nodes: seq<Node>, column: u32, row: u32, cells: Cells, build: Build, error: OdsError)
    requires nodes != [] && Faulty(nodes[0], error)
    ensures DecodeRow(nodes, column, row, cells, build) == Failure(error)
  {
    assert HasTag(nodes[0], "table-cell") ==> !HasTag(nodes[0], "covered-table-cell");
    ReadsIff(nodes[0], Failure(error));
    hide Reads, DecodeCell, RepeatCount;
  }

  // ---------------------------------------------------------------- stored addresses

  /** A stored address wins over the place of the cell, for its first repetition; one that is none is refused. */
  lemma StoredAddress(
    node: Node, value: CellValue, column: u32, row: u32, repeats: nat, cells: Cells, build: Build, text: string,
    c: CellRef)
    requires Has(node, SIM_NS, "cell", text) && !value.Blank?
    requires 1 <= column && 1 <= row && 1 <= repeats && column + repeats <= WIDTH_32
    ensures var r := SetRepeated(node, value, column, row, 0, repeats, cells, build);
            && (ParseCell(text).None? ==> r == Failure(BadCellRef))
            && (ParseCell(text).Some? ==>
                  r.Success? && CellAt(r.value, c) ==
                                if c == ParseCell(text).value
                                   || (c.row == row && column + 1 <= c.column < column + repeats)
                                then value else CellAt(cells, c))
  {
    HasIff(node, SIM_NS, "cell");
    hide Has, AttrNs, ParseCell, AttributesOf;
    if ParseCell(text).Some? {
      var next := SetCell(cells, ParseCell(text).value, value);
      LaterRepetitions(node, value, column, row, 1, repeats, next, build, c);
    }
  }

  lemma {:induction false} LaterRepetitions(
    node: Node, value: CellValue, column: u32, row: u32, offset: nat, repeats: nat, cells: Cells, build: Build,
    c: CellRef)
    requires !value.Blank? && 1 <= column && 1 <= row && 1 <= offset <= repeats && column + repeats <= WIDTH_32
    ensures var r := SetRepeated(node, value, column, row, offset, repeats, cells, build);
            r.Success? && CellAt(r.value, c) ==
                          if c.row == row && column + offset <= c.column < column + repeats then value
                          else CellAt(cells, c)
    decreases repeats - offset
  {
    hide AttrNs, AttributesOf, ParseCell;
    if offset < repeats {
      LaterRepetitions(node, value, column, row, offset + 1, repeats,
                       SetCell(cells, CellRef(column + offset, row), value), build, c);
    }
  }

  // ---------------------------------------------------------------- repeated rows

  /** Every child of the row can be read and all its columns are in range. */
  ghost predicate InRange(node: Node) {
    GoodRow(ChildrenOf(node)) && 1 + Extent(ChildrenOf(node), false) <= U32_MAX
  }

  /** A row repeated `n` times sets exactly those `n` rows and leaves the next row behind them. */
  lemma {:induction false} RepeatedRow(node: Node, row: u32, n: nat, cells: Cells, build: Build, c: CellRef)
    requires InRange(node) && 1 <= row
    ensures var r := DecodeRepeated(node, row, n, cells, build);
            && (row + n <= U32_MAX ==>
                  && r.Success? && r.value.0 == row + n
                  && CellAt(r.value.1, c) ==
                     if row <= c.row < row + n then Shadowed(Shown(ChildrenOf(node), 1, c.column), CellAt(cells, c))
                     else CellAt(cells, c))
            && (build.Checked? && row + n > U32_MAX ==> r == Failure(Overflow))
    decreases n
  {
    hide DecodeRow, GoodRow, Extent, Shown, CellAt;
    if n > 0 {
      RowPlaces(ChildrenOf(node), 1, row, cells, build, c);
      var next := DecodeRow(ChildrenOf(node), 1, row, cells, build).value;
      if row < U32_MAX {
        RepeatedRow(node, row + 1, n - 1, next, build, c);
      }
    }
  }

  // ---------------------------------------------------------------- whole tables

  ghost predicate GoodTable(nodes: seq<Node>) {
    forall i :: 0 <= i < |nodes| && HasTag(nodes[i], "table-row") ==>
      CountOf(nodes[i], true).Success? && InRange(nodes[i])
  }

  /** What the rows show at a place. */
  function TableShows(nodes: seq<Node>, row: nat, c: CellRef): CellValue {
    var over := Over(nodes, true, row, c.row);
    if over.Some? then Shown(ChildrenOf(over.value), 1, c.column) else CellValue.Blank
  }

  /** A table row stands for its repeated rows, and the next one begins behind them. */
  lemma {:induction false} RowsPlace(nodes: seq<Node>, row: u32, cells: Cells, build: Build, c: CellRef)
    requires GoodTable(nodes) && 1 <= row
    ensures var r := DecodeRows(nodes, row, cells, build);
            && (row + Extent(nodes, true) <= U32_MAX ==>
                  r.Success? && CellAt(r.value, c) == Shadowed(TableShows(nodes, row, c), CellAt(cells, c)))
            && (build.Checked? && row + Extent(nodes, true) > U32_MAX ==> r == Failure(Overflow))
  {
    hide InRange, DecodeRepeated, Shown, CellAt;
    if nodes != [] {
      var node, rest := nodes[0], nodes[1..];
      assert GoodTable(rest);
      if !HasTag(node, "table-row") {
        assert Steps(node, true) == 0;
        RowsPlace(rest, row, cells, build, c);
      } else {
        var n := Steps(node, true);
        RepeatedRow(node, row, n, cells, build, c);
        TableTakes(nodes, row, cells, build);
        TableSteps(nodes, row, c);
        hide Steps, DecodeRows, TableShows, GoodTable;
        if row + n <= U32_MAX {
          RowsPlace(rest, row + n, DecodeRepeated(node, row, n, cells, build).value.1, build, c);
        }
      }
    }
  }

  lemma TableTakes(nodes: seq<Node>, row: u32, cells: Cells, build: Build)
    requires nodes != [] && HasTag(nodes[0], "table-row") && CountOf(nodes[0], true).Success?
    ensures var next := DecodeRepeated(nodes[0], row, Steps(nodes[0], true), cells, build);
            DecodeRows(nodes, row, cells, build) ==
            match next
            case Failure(e) => Failure(e)
            case Success((below, more)) => DecodeRows(nodes[1..], below, more, build)
  {
    hide DecodeRepeated;
  }

  /** Reading a whole table puts every value where the counts say and nothing anywhere else. */
  lemma TablePlaces(table: Node, build: Build, c: CellRef)
    requires GoodTable(ChildrenOf(table))
    ensures var rows := ChildrenOf(table); var r := DecodeTable(table, build);
            && (1 + Extent(rows, true) <= U32_MAX ==>
                  && r.Success?
                  && (forall i: nat, j: nat :: Stands(rows, i, j, c) ==>
                        forall value :: Reads(rows[i].children[j], Success(value)) ==>
                          CellAt(r.value.cells, c) == value)
                  && (!CellAt(r.value.cells, c).Blank? ==> exists i: nat, j: nat :: Stands(rows, i, j, c)))
            && (r.Success? ==> GivenOr(table, TABLE_NS, "name", "Sheet1", r.value.name))
            && (build.Checked? && 1 + Extent(rows, true) > U32_MAX ==> r == Failure(Overflow))
  {
    var rows := ChildrenOf(table);
    NameReads(table);
    RowsPlace(rows, 1, map[], build, c);
    if 1 + Extent(rows, true) <= U32_MAX {
      forall i: nat, j: nat | Stands(rows, i, j, c)
        ensures forall value :: Reads(rows[i].children[j], Success(value)) ==> TableShows(rows, 1, c) == value
      {
        StandsShown(rows, i, j, c);
      }
      if !TableShows(rows, 1, c).Blank? {
        ShownStands(rows, c);
      }
    }
    hide GoodTable, Extent, TableShows, Stands, DecodeRows, Reads, GivenOr, Lookup;
  }

  lemma NameReads(table: Node)
    ensures GivenOr(table, TABLE_NS, "name", "Sheet1", GetOr(Lookup(table, TABLE_NS, "name"), "Sheet1"))
  {
    GivenIff(table, TABLE_NS, "name");
    hide Given, WithoutLocal, Lookup;
  }

  /** The `j`-th cell of the `i`-th child of the table stands for this place. */
  ghost predicate Stands(rows: seq<Node>, i: nat, j: nat, c: CellRef) {
    && Covers(rows, true, 1, i, c.row) && rows[i].Element?
    && Covers(rows[i].children, false, 1, j, c.column) && HasTag(rows[i].children[j], "table-cell")
  }

  lemma StandsShown(rows: seq<Node>, i: nat, j: nat, c: CellRef)
    requires Stands(rows, i, j, c)
    ensures forall value :: Reads(rows[i].children[j], Success(value)) ==> TableShows(rows, 1, c) == value
  {
    CoversOver(rows, true, 1, i, c.row);
    CoversOver(rows[i].children, false, 1, j, c.column);
    hide Covers, ValueOf, Over, Reads;
    forall value | Reads(rows[i].children[j], Success(value))
      ensures TableShows(rows, 1, c) == value
    {
      ValueIsRead(rows[i].children[j], value);
    }
  }

  lemma ShownStands(rows: seq<Node>, c: CellRef)
    requires !TableShows(rows, 1, c).Blank?
    ensures exists i: nat, j: nat :: Stands(rows, i, j, c)
  {
    var i := OverCovers(rows, true, 1, c.row);
    var children := ChildrenOf(rows[i]);
    var j := OverCovers(children, false, 1, c.column);
    assert HasTag(children[j], "table-cell");
    hide Covers, Over;
    assert Stands(rows, i, j, c);
  }
}
