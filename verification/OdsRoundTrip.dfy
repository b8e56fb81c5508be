/** Decoding an encoded table gives back the sheet, with or without the stored addresses. */
module OdsRoundTrip {
  import opened Wrappers
  import opened Text
  import opened Xml
  import opened CellRefs
  import opened Rationals
  import opened Sheets
  import opened Decimals
  import opened OdsTables

  // ---------------------------------------------------------------- what survives of a value

  /** A value as it comes back: numbers in lowest terms, formulas with one leading `=`. */
  function Stored(value: CellValue): CellValue {
    match value
    case Number(q) => if q.den == 0 then value else Number(Reduce(q.num, q.den))
    case Formula(formula) => Formula("=" + TrimEquals(formula))
    case _ => value
  }

  ghost predicate OneEquals(formula: string) {
    formula != [] && formula[0] == '=' && (|formula| > 1 ==> formula[1] != '=')
  }

  /** A value is stored exactly when it is already in that form. */
  lemma StoredExactIff(value: CellValue)
    requires value.Number? ==> value.value.den != 0
    ensures Stored(value) == value <==>
              (value.Number? ==> Canonical(value.value)) && (value.Formula? ==> OneEquals(value.formula))
  {
    match value {
      case Number(q) =>
        ReduceIsCanonical(q.num, q.den);
        if Canonical(q) {
          ReduceCanonical(q);
        }
      case Formula(formula) =>
        TrimEqualsFirst(formula);
        if OneEquals(formula) {
          assert formula == "=" + formula[1..];
          assert TrimEquals(formula) == TrimEquals(formula[1..]) == formula[1..];
        } else if formula != [] && formula[0] == '=' {
          TrimEqualsShrinks(formula[1..]);
          TrimEqualsShrinks(formula[2..]);
        }
      case _ =>
    }
  }

  lemma {:induction false} TrimEqualsFirst(formula: string)
    ensures TrimEquals(formula) != [] ==> TrimEquals(formula)[0] != '='
  {
    if formula != [] && formula[0] == '=' {
      TrimEqualsFirst(formula[1..]);
    }
  }

  lemma {:induction false} TrimEqualsShrinks(formula: string)
    ensures |TrimEquals(formula)| <= |formula|
  {
    if formula != [] && formula[0] == '=' {
      TrimEqualsShrinks(formula[1..]);
    }
  }

  // ---------------------------------------------------------------- attribute lookup

  predicate PlainLead(lead: seq<Attribute>) {
    forall j :: 0 <= j < |lead| ==> lead[j].name.space != SIM_NS && lead[j].name.local != COLUMNS_REPEATED
  }

  /** The stored attributes of an encoded cell are found behind whatever comes first. */
  lemma CellAttributesRead(lead: seq<Attribute>, cell: CellRef, kind: string, value: string)
    requires PlainLead(lead)
    ensures var a := lead + AddressAttributes(cell, kind, value);
            && AttrNs(a, SIM_NS, "cell") == Some(CellText(cell))
            && AttrNs(a, SIM_NS, "kind") == Some(kind)
            && AttrNs(a, SIM_NS, "value") == Some(value)
            && AttrNs(a, TABLE_NS, COLUMNS_REPEATED) == None
            && AttrAny(a, COLUMNS_REPEATED) == None
  {
    hide AttrNs, AttrAny, CellText;
    var n := |lead|;
    var a := lead + AddressAttributes(cell, kind, value);
    assert "cell"[0] != "kind"[0] && |"value"| != |"cell"| && |"value"| != |"kind"|;
    assert a[n].name == Name(SIM_NS, "cell") && a[n + 1].name == Name(SIM_NS, "kind");
    assert a[n + 2].name == Name(SIM_NS, "value");
    assert forall j :: 0 <= j < n ==> a[j] == lead[j];
    AttrNsAt(a, n, SIM_NS, "cell");
    AttrNsAt(a, n + 1, SIM_NS, "kind");
    AttrNsAt(a, n + 2, SIM_NS, "value");
    assert |COLUMNS_REPEATED| > 5;
    AttrAnyNone(a, TABLE_NS, COLUMNS_REPEATED);
  }

  // ---------------------------------------------------------------- one cell

  predicate Good(cell: CellRef, value: CellValue, build: Build) {
    && !value.Blank?
    && OneBased(cell)
    && !Stops(cell.column, build)
    && !Stops(cell.row, build)
    && (value.Number? ==> value.value.den != 0)
  }

  function KindOf(value: CellValue): string
    requires !value.Blank?
  {
    match value
    case Text(_) => "text"
    case Number(_) => "number"
    case Bool(_) => "bool"
    case Formula(_) => "formula"
  }

  function ValueText(value: CellValue): string
    requires !value.Blank?
  {
    match value
    case Text(text) => text
    case Number(number) => RationalText(number)
    case Bool(flag) => BoolText(flag)
    case Formula(formula) => formula
  }

  lemma BoolReads(flag: bool)
    ensures BoolValue(BoolText(flag)) == Success(Bool(flag))
  {
    var t := BoolText(flag);
    TrimIdentity(t);
    assert |"false"| != |"true"| && |"1"| != |"true"|;
    assert "TRUE"[0] != 'f' && "FALSE"[0] != 'f' && |"false"| != |"TRUE"|;
  }

  lemma NumberReads(q: Rational)
    requires q.den != 0
    ensures NumberValue(RationalText(q)) == Success(Number(Reduce(q.num, q.den)))
  {
    hide Trim, RationalFromText, RationalText, Reduce;
    RationalTextReads(q);
    assert RationalLiteral(RationalText(q)) == Some(RationalText(q));
  }

  /** The kind and the stored text decide what comes back. */
  lemma StoredReads(node: Node, value: CellValue)
    requires !value.Blank? && (value.Number? ==> value.value.den != 0)
    requires AttrNs(AttributesOf(node), SIM_NS, "kind") == Some(KindOf(value))
    requires AttrNs(AttributesOf(node), SIM_NS, "value") == Some(ValueText(value))
    ensures DecodeCell(node) == Success(Stored(value))
  {
    hide AttrNs, AttributesOf, BoolValue, NumberValue, DecodeUntyped, TextContent, RationalText, TrimEquals, Reduce;
    match value {
      case Bool(flag) => BoolReads(flag);
      case Number(q) => NumberReads(q);
      case _ =>
    }
  }

  function Perhaps(stripped: bool, node: Node): Node {
    if stripped then Unaddressed(node) else node
  }

  /** What decoding needs to know of a cell's node, with or without its stored address. */
  ghost predicate Encodes(node: Node, stripped: bool, cell: CellRef, value: CellValue)
    requires value.Number? ==> value.value.den != 0
  {
    && IsCell(node) && !HasTag(node, "covered-table-cell")
    && RepeatCount(node, COLUMNS_REPEATED) == Success(1)
    && DecodeCell(node) == Success(Stored(value))
    && AttrNs(AttributesOf(node), SIM_NS, "cell") == if stripped then None else Some(CellText(cell))
  }

  lemma OneReads()
    ensures ParseU32("1") == Some(1)
  {
    ParseU32OfText(1);
    assert NatText(1) == "1";
  }

  lemma CellEncodes(cell: CellRef, value: CellValue, stripped: bool, build: Build)
    requires Good(cell, value, build)
    ensures |CellNodes(cell, value)| == 1
    ensures Encodes(Perhaps(stripped, CellNodes(cell, value)[0]), stripped, cell, value)
  {
    var node := CellNodes(cell, value)[0];
    var kind, text := KindOf(value), ValueText(value);
    assert node == CellElement(LeadAttributes(value), cell, kind, text);
    var attributes := LeadAttributes(value) + AddressAttributes(cell, kind, text);
    CellAttributesRead(LeadAttributes(value), cell, kind, text);
    ElementEncodes(node, stripped, cell, value);
  }

  lemma ElementEncodes(node: Node, stripped: bool, cell: CellRef, value: CellValue)
    requires !value.Blank? && (value.Number? ==> value.value.den != 0)
    requires HasTag(node, "table-cell")
    requires AttrNs(node.attributes, SIM_NS, "cell") == Some(CellText(cell))
    requires AttrNs(node.attributes, SIM_NS, "kind") == Some(KindOf(value))
    requires AttrNs(node.attributes, SIM_NS, "value") == Some(ValueText(value))
    requires AttrNs(node.attributes, TABLE_NS, COLUMNS_REPEATED) == None
    requires AttrAny(node.attributes, COLUMNS_REPEATED) == None
    ensures Encodes(Perhaps(stripped, node), stripped, cell, value)
  {
    hide AttrNs, AttrAny, DropAddress, KindOf, ValueText, DecodeCell, CellText, Stored, ParseU32;
    var n := Perhaps(stripped, node);
    OneReads();
    assert "cell"[0] != "kind"[0] && |"value"| != |"cell"| && |COLUMNS_REPEATED| != |"cell"|;
    DropAddressKeeps(node.attributes, SIM_NS, "cell");
    DropAddressKeeps(node.attributes, SIM_NS, "kind");
    DropAddressKeeps(node.attributes, SIM_NS, "value");
    DropAddressKeeps(node.attributes, TABLE_NS, COLUMNS_REPEATED);
    StoredReads(n, value);
  }

  /** Decoding a row past one encoded cell. */
  lemma StepCell(
    node: Node, stripped: bool, rest: seq<Node>, cell: CellRef, value: CellValue, cells: Cells, build: Build)
    requires Good(cell, value, build)
    ensures Encodes(node, stripped, cell, value) ==>
              DecodeRow([node] + rest, cell.column, cell.row, cells, build) ==
              DecodeRow(rest, Following(cell.column), cell.row, cells[cell := Stored(value)], build)
  {
    hide DecodeCell, RepeatCount, IsCell, HasTag, AttrNs, CellText;
    assert ([node] + rest)[1..] == rest;
    if Encodes(node, stripped, cell, value) {
      EncodedSets(node, stripped, cell, value, cells, build);
      StepsOn(cell.column, build);
      hide SetRepeated, Stored, Advance, Following, Perhaps;
    }
  }

  lemma StepsOn(column: u32, build: Build)
    requires !Stops(column, build)
    ensures Advance(column, 1, build) == Success(Following(column))
  {
  }

  lemma EncodedSets(
    node: Node, stripped: bool, cell: CellRef, value: CellValue, cells: Cells, build: Build)
    requires Good(cell, value, build) && Encodes(node, stripped, cell, value)
    ensures SetRepeated(node, Stored(value), cell.column, cell.row, 0, 1, cells, build) ==
            Success(cells[cell := Stored(value)])
  {
    hide DecodeCell, RepeatCount, IsCell, HasTag, AttrNs, CellText;
    CellTextRoundTrip(cell);
    assert Address(node, cell.column, cell.row, 0, build) == Success(cell);
    var next := cells[cell := Stored(value)];
    assert SetRepeated(node, Stored(value), cell.column, cell.row, 1, 1, next, build) == Success(next);
    hide Address;
  }

  // ---------------------------------------------------------------- gaps

  /** An empty cell written with a repeat count reads as that many blanks. */
  lemma EmptyCellsRead(count: u32, stripped: bool)
    requires count > 0
    ensures var node := Perhaps(stripped, EmptyCells(count));
            && IsCell(node) && !HasTag(node, "covered-table-cell")
            && RepeatCount(node, COLUMNS_REPEATED) == Success(count)
            && DecodeCell(node) == Success(Blank)
  {
    var plain := EmptyCells(count);
    OneReads();
    ParseU32OfText(count);
    EmptyCellBlank(plain);
    EmptyCellUnaddressed(plain);
    if count == 1 {
      assert AttrNs(plain.attributes, TABLE_NS, COLUMNS_REPEATED) == None;
      assert AttrAny(plain.attributes, COLUMNS_REPEATED) == None;
    } else {
      AttrNsAt(plain.attributes, 0, TABLE_NS, COLUMNS_REPEATED);
    }
  }

  lemma EmptyCellUnaddressed(node: Node)
    requires node.Element? && |node.attributes| <= 1
    requires |node.attributes| == 1 ==> node.attributes[0].name == Name(TABLE_NS, COLUMNS_REPEATED)
    ensures Unaddressed(node) == node
  {
    assert |COLUMNS_REPEATED| != |"cell"|;
    if |node.attributes| == 1 {
      assert node.attributes[1..] == [];
      assert DropAddress(node.attributes[1..]) == [];
    }
  }

  lemma EmptyCellBlank(node: Node)
    requires node.Element? && node.name.local == "table-cell" && node.children == [] && |node.attributes| <= 1
    requires |node.attributes| == 1 ==> node.attributes[0].name == Name(TABLE_NS, COLUMNS_REPEATED)
    ensures DecodeCell(node) == Success(Blank)
  {
    assert |COLUMNS_REPEATED| == 23;
    AttrAnyNone(node.attributes, SIM_NS, "kind");
    AttrAnyNone(node.attributes, SIM_NS, "value");
    AttrAnyNone(node.attributes, TABLE_NS, "formula");
    AttrAnyNone(node.attributes, OFFICE_NS, "value-type");
    assert TextContent(node) == [] by {
      assert |"p"| != |"table-cell"|;
      assert Descendants(node) == [node];
      NoParagraph(node);
    }
    assert Trim([]) == [];
  }

  lemma NoParagraph(node: Node)
    requires !HasTag(node, "p")
    ensures ParagraphTexts([node]) == []
  {
    assert [node][1..] == [] && ParagraphTexts([]) == [];
  }

  lemma StepGap(next: u32, column: u32, row: u32, rest: seq<Node>, stripped: bool, cells: Cells, build: Build)
    requires next < column
    ensures DecodeRow([Perhaps(stripped, EmptyCells(column - next))] + rest, next, row, cells, build) ==
            DecodeRow(rest, column, row, cells, build)
  {
    EmptyCellsRead(column - next, stripped);
    hide EmptyCells, DecodeCell, RepeatCount, IsCell, HasTag, Perhaps;
    var node := Perhaps(stripped, EmptyCells(column - next));
    assert ([node] + rest)[1..] == rest;
    assert DecodeChild(node, next, row, column - next, cells, build) == Success(cells);
  }

  // ---------------------------------------------------------------- one row

  ghost predicate GoodRow(cells: Cells, row: u32, columns: seq<u32>, build: Build) {
    && Ascending(columns)
    && forall i :: 0 <= i < |columns| ==>
         Good(CellRef(columns[i], row), CellAt(cells, CellRef(columns[i], row)), build)
  }

  /** The cells of these columns added to what is there. */
  function PutRow(into: Cells, cells: Cells, row: u32, columns: seq<u32>): Cells
    decreases |columns|
  {
    if columns == [] then into else PutRow(PutOne(into, cells, CellRef(columns[0], row)), cells, row, columns[1..])
  }

  function PutOne(into: Cells, cells: Cells, cell: CellRef): Cells {
    into[cell := Stored(CellAt(cells, cell))]
  }

  function PerhapsAll(stripped: bool, nodes: seq<Node>): seq<Node> {
    if stripped then UnaddressedAll(nodes) else nodes
  }

  lemma PerhapsAllCons(stripped: bool, node: Node, rest: seq<Node>)
    ensures PerhapsAll(stripped, [node] + rest) == [Perhaps(stripped, node)] + PerhapsAll(stripped, rest)
  {
    assert ([node] + rest)[1..] == rest;
  }

  lemma StepGapIfAny(
    next: u32, column: u32, row: u32, rest: seq<Node>, stripped: bool, cells: Cells, build: Build)
    requires next <= column
    ensures DecodeRow(PerhapsAll(stripped, Gap(next, column) + rest), next, row, cells, build) ==
            DecodeRow(PerhapsAll(stripped, rest), column, row, cells, build)
  {
    hide EmptyCells, DecodeRow, PerhapsAll, Perhaps;
    if next < column {
      PerhapsAllCons(stripped, EmptyCells(column - next), rest);
      StepGap(next, column, row, PerhapsAll(stripped, rest), stripped, cells, build);
    } else {
      assert Gap(next, column) + rest == rest;
    }
  }

  lemma GoodRowTail(cells: Cells, row: u32, columns: seq<u32>, build: Build)
    requires GoodRow(cells, row, columns, build) && columns != []
    ensures !Stops(columns[0], build) && GoodRow(cells, row, columns[1..], build)
    ensures |columns| > 1 ==> Following(columns[0]) <= columns[1]
  {
    assert Good(CellRef(columns[0], row), CellAt(cells, CellRef(columns[0], row)), build);
    forall i | 0 <= i < |columns[1..]|
      ensures Good(CellRef(columns[1..][i], row), CellAt(cells, CellRef(columns[1..][i], row)), build)
    {
      assert columns[1..][i] == columns[i + 1];
    }
  }

  lemma {:induction false} RowDecodes(
    cells: Cells, row: u32, columns: seq<u32>, next: u32, into: Cells, stripped: bool, build: Build)
    requires GoodRow(cells, row, columns, build) && (columns != [] ==> next <= columns[0])
    ensures RowNodes(cells, row, columns, next, build).Success?
    ensures DecodeRow(PerhapsAll(stripped, RowNodes(cells, row, columns, next, build).value), next, row, into, build) ==
            Success(PutRow(into, cells, row, columns))
    decreases |columns|
  {
    hide RowNodes, DecodeRow, PerhapsAll, GoodRow, PutOne;
    if columns == [] {
      EmptyRowDecodes(cells, row, next, into, stripped, build);
    } else {
      GoodRowTail(cells, row, columns, build);
      var cell := CellRef(columns[0], row);
      RowDecodes(cells, row, columns[1..], Following(columns[0]), PutOne(into, cells, cell), stripped, build);
      var rest := RowNodes(cells, row, columns[1..], Following(columns[0]), build).value;
      RowStep(cells, row, columns, next, into, stripped, rest, build);
    }
  }

  /** The gap and the first cell of a row. */
  lemma RowStep(
    cells: Cells, row: u32, columns: seq<u32>, next: u32, into: Cells, stripped: bool, rest: seq<Node>, build: Build)
    requires GoodRow(cells, row, columns, build) && columns != [] && next <= columns[0] && !Stops(columns[0], build)
    requires RowNodes(cells, row, columns[1..], Following(columns[0]), build) == Success(rest)
    ensures RowNodes(cells, row, columns, next, build).Success?
    ensures DecodeRow(PerhapsAll(stripped, RowNodes(cells, row, columns, next, build).value), next, row, into, build) ==
            DecodeRow(PerhapsAll(stripped, rest), Following(columns[0]), row,
                      PutOne(into, cells, CellRef(columns[0], row)), build)
  {
    var cell := CellRef(columns[0], row);
    assert Good(cell, CellAt(cells, cell), build);
    hide PerhapsAll, Gap, CellNodes, PutOne, RowNodes, DecodeRow, GoodRow, CellAt, Good;
    GapAndCell(cell, cells, into, stripped, next, rest, build);
    RowNodesStep(cells, row, columns, next, rest, build);
  }

  lemma GapAndCell(cell: CellRef, cells: Cells, into: Cells, stripped: bool, next: u32, rest: seq<Node>, build: Build)
    requires Good(cell, CellAt(cells, cell), build) && next <= cell.column
    ensures !Stops(cell.column, build) && |CellNodes(cell, CellAt(cells, cell))| == 1
    ensures DecodeRow(PerhapsAll(stripped, Gap(next, cell.column) + ([CellNodes(cell, CellAt(cells, cell))[0]] + rest)),
                      next, cell.row, into, build) ==
            DecodeRow(PerhapsAll(stripped, rest), Following(cell.column), cell.row, PutOne(into, cells, cell), build)
  {
    hide PerhapsAll, Gap, CellNodes, PutOne, Perhaps, DecodeRow, CellAt, Good;
    CellDecodes(cell, cells, into, stripped, PerhapsAll(stripped, rest), build);
    var node := CellNodes(cell, CellAt(cells, cell))[0];
    PerhapsAllCons(stripped, node, rest);
    StepGapIfAny(next, cell.column, cell.row, [node] + rest, stripped, into, build);
  }

  lemma CellDecodes(cell: CellRef, cells: Cells, into: Cells, stripped: bool, rest: seq<Node>, build: Build)
    requires Good(cell, CellAt(cells, cell), build)
    ensures !Stops(cell.column, build) && |CellNodes(cell, CellAt(cells, cell))| == 1
    ensures DecodeRow([Perhaps(stripped, CellNodes(cell, CellAt(cells, cell))[0])] + rest,
                      cell.column, cell.row, into, build) ==
            DecodeRow(rest, Following(cell.column), cell.row, PutOne(into, cells, cell), build)
  {
    hide CellNodes, Stored, Encodes, Perhaps, DecodeRow, CellAt;
    var value := CellAt(cells, cell);
    CellEncodes(cell, value, stripped, build);
    StepCell(Perhaps(stripped, CellNodes(cell, value)[0]), stripped, rest, cell, value, into, build);
  }

  lemma EmptyRowDecodes(cells: Cells, row: u32, next: u32, into: Cells, stripped: bool, build: Build)
    ensures RowNodes(cells, row, [], next, build) == Success([])
    ensures DecodeRow(PerhapsAll(stripped, []), next, row, into, build) == Success(into)
  {
  }

  lemma RowNodesStep(cells: Cells, row: u32, columns: seq<u32>, next: u32, rest: seq<Node>, build: Build)
    requires columns != [] && !Stops(columns[0], build)
    requires RowNodes(cells, row, columns[1..], Following(columns[0]), build) == Success(rest)
    requires |CellNodes(CellRef(columns[0], row), CellAt(cells, CellRef(columns[0], row)))| == 1
    ensures RowNodes(cells, row, columns, next, build) ==
            Success(Gap(next, columns[0])
                    + ([CellNodes(CellRef(columns[0], row), CellAt(cells, CellRef(columns[0], row)))[0]] + rest))
  {
    hide Gap, CellNodes, CellAt;
    var nodes := CellNodes(CellRef(columns[0], row), CellAt(cells, CellRef(columns[0], row)));
    assert nodes == [nodes[0]];
    assert Gap(next, columns[0]) + nodes + rest == Gap(next, columns[0]) + ([nodes[0]] + rest);
  }

  // ---------------------------------------------------------------- the rows

  ghost predicate GoodCells(cells: Cells, build: Build) {
    forall c :: c in cells && Filled(cells, c) ==> Good(c, cells[c], build)
  }

  lemma GoodCellsRow(cells: Cells, row: u32, build: Build)
    requires GoodCells(cells, build)
    ensures GoodRow(cells, row, Sorted(ColumnsOf(cells, row)), build)
    ensures Sorted(ColumnsOf(cells, row)) != [] ==> 1 <= Sorted(ColumnsOf(cells, row))[0]
  {
    var columns := Sorted(ColumnsOf(cells, row));
    SortedIsAscending(ColumnsOf(cells, row));
    forall i | 0 <= i < |columns|
      ensures Good(CellRef(columns[i], row), CellAt(cells, CellRef(columns[i], row)), build)
    {
      assert columns[i] in ColumnsOf(cells, row);
    }
  }

  lemma GoodCellsRows(cells: Cells, build: Build)
    requires GoodCells(cells, build)
    ensures var rows := Sorted(RowsOf(cells));
            Ascending(rows) && forall i :: 0 <= i < |rows| ==> 1 <= rows[i] && !Stops(rows[i], build)
  {
    var rows := Sorted(RowsOf(cells));
    SortedIsAscending(RowsOf(cells));
    forall i | 0 <= i < |rows|
      ensures 1 <= rows[i] && !Stops(rows[i], build)
    {
      assert rows[i] in RowsOf(cells);
    }
  }

  function PerhapsRows(stripped: bool, rows: seq<Node>): seq<Node> {
    if stripped then UnaddressedRows(rows) else rows
  }

  lemma PerhapsRowsCons(stripped: bool, children: seq<Node>, rest: seq<Node>)
    ensures PerhapsRows(stripped, [RowElement(children)] + rest) ==
            [RowElement(PerhapsAll(stripped, children))] + PerhapsRows(stripped, rest)
  {
    assert ([RowElement(children)] + rest)[1..] == rest;
  }

  lemma StepRow(children: seq<Node>, rest: seq<Node>, row: u32, cells: Cells, build: Build)
    requires !Stops(row, build) && DecodeRow(children, 1, row, cells, build).Success?
    ensures DecodeRows([RowElement(children)] + rest, row, cells, build) ==
            DecodeRows(rest, Following(row), DecodeRow(children, 1, row, cells, build).value, build)
  {
    hide DecodeRow;
    var node := RowElement(children);
    assert ([node] + rest)[1..] == rest;
    OneReads();
    assert RepeatCount(node, ROWS_REPEATED) == Success(1);
    var next := DecodeRow(children, 1, row, cells, build).value;
    assert DecodeRepeated(node, Following(row), 0, next, build) == Success((Following(row), next));
  }

  lemma {:induction false} StepEmptyRows(
    count: nat, rest: seq<Node>, row: u32, stripped: bool, cells: Cells, build: Build)
    requires row + count <= U32_MAX
    ensures DecodeRows(PerhapsRows(stripped, EmptyRows(count) + rest), row, cells, build) ==
            DecodeRows(PerhapsRows(stripped, rest), row + count, cells, build)
  {
    hide DecodeRows, PerhapsRows, DecodeRow, PerhapsAll;
    if count == 0 {
      assert EmptyRows(0) + rest == rest;
    } else {
      var more := EmptyRows(count - 1) + rest;
      assert EmptyRows(count) + rest == [RowElement([])] + more;
      PerhapsRowsCons(stripped, [], more);
      EmptyRowDecodes(map[], row, 1, cells, stripped, build);
      StepRow(PerhapsAll(stripped, []), PerhapsRows(stripped, more), row, cells, build);
      StepEmptyRows(count - 1, rest, row + 1, stripped, cells, build);
    }
  }

  ghost function PutRows(into: Cells, cells: Cells, rows: seq<u32>): Cells
    decreases |rows|
  {
    if rows == [] then into
    else PutRows(PutRow(into, cells, rows[0], Sorted(ColumnsOf(cells, rows[0]))), cells, rows[1..])
  }

  lemma {:induction false} RowsDecode(
    cells: Cells, rows: seq<u32>, next: u32, into: Cells, stripped: bool, build: Build)
    requires GoodCells(cells, build) && Ascending(rows)
    requires forall i :: 0 <= i < |rows| ==> 1 <= next <= rows[i] && !Stops(rows[i], build)
    ensures TableNodes(cells, rows, next, build).Success?
    ensures DecodeRows(PerhapsRows(stripped, TableNodes(cells, rows, next, build).value), next, into, build) ==
            Success(PutRows(into, cells, rows))
    decreases |rows|
  {
    hide DecodeRows, TableNodes, PerhapsRows, GoodCells, PutRow;
    if rows == [] {
      NoRowsDecode(cells, next, into, stripped, build);
    } else {
      var row, columns := rows[0], Sorted(ColumnsOf(cells, rows[0]));
      AscendingTail(rows);
      hide Ascending, Following, Stops;
      RowsDecode(cells, rows[1..], Following(row), PutRow(into, cells, row, columns), stripped, build);
      var rest := TableNodes(cells, rows[1..], Following(row), build).value;
      RowsStep(cells, rows, next, into, stripped, rest, build);
    }
  }

  lemma AscendingTail(rows: seq<u32>)
    requires Ascending(rows) && rows != []
    ensures Ascending(rows[1..])
    ensures |rows| > 1 ==> 1 <= Following(rows[0])
    ensures forall i :: 0 <= i < |rows[1..]| ==> Following(rows[0]) <= rows[1..][i]
  {
    forall i | 0 <= i < |rows[1..]|
      ensures Following(rows[0]) <= rows[1..][i]
    {
      assert rows[0] < rows[i + 1];
    }
    assert |rows| > 1 ==> rows[0] < rows[1];
  }

  lemma NoRowsDecode(cells: Cells, next: u32, into: Cells, stripped: bool, build: Build)
    ensures TableNodes(cells, [], next, build) == Success([])
    ensures DecodeRows(PerhapsRows(stripped, []), next, into, build) == Success(into)
  {
  }

  lemma RowsStep(
    cells: Cells, rows: seq<u32>, next: u32, into: Cells, stripped: bool, rest: seq<Node>, build: Build)
    requires GoodCells(cells, build) && rows != [] && 1 <= next <= rows[0] && !Stops(rows[0], build)
    requires TableNodes(cells, rows[1..], Following(rows[0]), build) == Success(rest)
    ensures TableNodes(cells, rows, next, build).Success?
    ensures DecodeRows(PerhapsRows(stripped, TableNodes(cells, rows, next, build).value), next, into, build) ==
            DecodeRows(PerhapsRows(stripped, rest), Following(rows[0]),
                       PutRow(into, cells, rows[0], Sorted(ColumnsOf(cells, rows[0]))), build)
  {
    hide DecodeRows, PerhapsRows, DecodeRow, RowNodes, PutRow, GoodCells, GoodRow, PerhapsAll, EmptyRows, RowElement;
    var row, columns := rows[0], Sorted(ColumnsOf(cells, rows[0]));
    GoodCellsRow(cells, row, build);
    RowDecodes(cells, row, columns, 1, into, stripped, build);
    var children := RowNodes(cells, row, columns, 1, build).value;
    TableNodesStep(cells, rows, next, children, rest, build);
    PerhapsRowsCons(stripped, children, rest);
    StepRow(PerhapsAll(stripped, children), PerhapsRows(stripped, rest), row, into, build);
    StepEmptyRows(row - next, [RowElement(children)] + rest, next, stripped, into, build);
  }

  lemma TableNodesStep(cells: Cells, rows: seq<u32>, next: u32, children: seq<Node>, rest: seq<Node>, build: Build)
    requires rows != [] && 1 <= next <= rows[0] && !Stops(rows[0], build)
    requires RowNodes(cells, rows[0], Sorted(ColumnsOf(cells, rows[0])), 1, build) == Success(children)
    requires TableNodes(cells, rows[1..], Following(rows[0]), build) == Success(rest)
    ensures TableNodes(cells, rows, next, build) ==
            Success(EmptyRows(rows[0] - next) + ([RowElement(children)] + rest))
  {
    hide RowNodes, EmptyRows, RowElement;
    assert EmptyRows(rows[0] - next) + [RowElement(children)] + rest ==
           EmptyRows(rows[0] - next) + ([RowElement(children)] + rest);
  }

  // ---------------------------------------------------------------- the whole sheet

  /** What the decoded sheet holds: every non-blank cell, in stored form, and nothing else. */
  function Kept(cells: Cells): Cells {
    map c | c in cells && Filled(cells, c) :: Stored(cells[c])
  }

  lemma {:induction false} PutRowHolds(into: Cells, cells: Cells, row: u32, columns: seq<u32>, c: CellRef)
    ensures c in PutRow(into, cells, row, columns) <==> c in into || (c.row == row && c.column in columns)
    ensures c.row == row && c.column in columns ==> PutRow(into, cells, row, columns)[c] == Stored(CellAt(cells, c))
    ensures c in into && !(c.row == row && c.column in columns) ==> PutRow(into, cells, row, columns)[c] == into[c]
    decreases |columns|
  {
    hide Stored;
    if columns != [] {
      PutRowHolds(PutOne(into, cells, CellRef(columns[0], row)), cells, row, columns[1..], c);
    }
  }

  lemma {:induction false} PutRowsHold(into: Cells, cells: Cells, rows: seq<u32>, c: CellRef)
    ensures c in PutRows(into, cells, rows) <==> c in into || (c.row in rows && Filled(cells, c))
    ensures c.row in rows && Filled(cells, c) ==> PutRows(into, cells, rows)[c] == Stored(CellAt(cells, c))
    ensures c in into && !(c.row in rows && Filled(cells, c)) ==> PutRows(into, cells, rows)[c] == into[c]
    decreases |rows|
  {
    hide Stored, PutRow;
    if rows != [] {
      var columns := Sorted(ColumnsOf(cells, rows[0]));
      SortedIsAscending(ColumnsOf(cells, rows[0]));
      PutRowHolds(into, cells, rows[0], columns, c);
      PutRowsHold(PutRow(into, cells, rows[0], columns), cells, rows[1..], c);
    }
  }

  lemma PutAllIsKept(cells: Cells)
    ensures PutRows(map[], cells, Sorted(RowsOf(cells))) == Kept(cells)
  {
    hide Stored;
    var rows := Sorted(RowsOf(cells));
    SortedIsAscending(RowsOf(cells));
    forall c
      ensures c in PutRows(map[], cells, rows) <==> c in Kept(cells)
      ensures c in Kept(cells) ==> PutRows(map[], cells, rows)[c] == Kept(cells)[c]
    {
      PutRowsHold(map[], cells, rows, c);
    }
  }

  function PerhapsTable(stripped: bool, table: Node): Node {
    if stripped then UnaddressedTable(table) else table
  }

  lemma TableDecodes(sheet: Sheet, stripped: bool, build: Build)
    requires GoodCells(sheet.cells, build)
    ensures TableOf(sheet, build).Success?
    ensures DecodeTable(PerhapsTable(stripped, TableOf(sheet, build).value), build) ==
            Success(Sheet(sheet.name, Kept(sheet.cells)))
  {
    hide DecodeRows, TableNodes, PutRows, Kept, GoodCells, PerhapsRows;
    GoodCellsRows(sheet.cells, build);
    RowsDecode(sheet.cells, Sorted(RowsOf(sheet.cells)), 1, map[], stripped, build);
    PutAllIsKept(sheet.cells);
    var rows := TableNodes(sheet.cells, Sorted(RowsOf(sheet.cells)), 1, build).value;
    TableElementReads(sheet.name, rows, stripped);
  }

  lemma TableElementReads(name: string, rows: seq<Node>, stripped: bool)
    ensures var table := PerhapsTable(stripped, TableElement(name, rows));
            ChildrenOf(table) == PerhapsRows(stripped, rows) && Lookup(table, TABLE_NS, "name") == Some(name)
  {
    AttrNsAt(TableElement(name, rows).attributes, 0, TABLE_NS, "name");
  }

  /** Decoding an encoded table gives back exactly the non-blank cells, in stored form. */
  lemma TableRoundTrip(sheet: Sheet, build: Build)
    requires GoodCells(sheet.cells, build)
    ensures TableOf(sheet, build).Success?
    ensures DecodeTable(TableOf(sheet, build).value, build) == Success(Sheet(sheet.name, Kept(sheet.cells)))
  {
    TableDecodes(sheet, false, build);
  }

  /** Rows, gaps and repeat counts alone already say where every cell is. */
  lemma PositionsSuffice(sheet: Sheet, build: Build)
    requires GoodCells(sheet.cells, build)
    ensures TableOf(sheet, build).Success?
    ensures DecodeTable(UnaddressedTable(TableOf(sheet, build).value), build) ==
            DecodeTable(TableOf(sheet, build).value, build)
  {
    TableDecodes(sheet, false, build);
    TableDecodes(sheet, true, build);
  }

  /** Nothing blank is stored, every number is in lowest terms, every formula has one `=`. */
  ghost predicate Plain(cells: Cells) {
    forall c :: c in cells ==>
      && !cells[c].Blank?
      && (cells[c].Number? ==> Canonical(cells[c].value))
      && (cells[c].Formula? ==> OneEquals(cells[c].formula))
  }

  /** The sheet itself comes back exactly when it is plain. */
  lemma SheetRoundTripIff(sheet: Sheet, build: Build)
    requires GoodCells(sheet.cells, build)
    ensures TableOf(sheet, build).Success?
    ensures DecodeTable(TableOf(sheet, build).value, build) == Success(sheet) <==> Plain(sheet.cells)
  {
    TableRoundTrip(sheet, build);
    hide TableOf, DecodeTable;
    KeptExactIff(sheet.cells, build);
  }

  lemma KeptExactIff(cells: Cells, build: Build)
    requires GoodCells(cells, build)
    ensures Kept(cells) == cells <==> Plain(cells)
  {
    hide Stored, Canonical, OneEquals;
    forall c | c in cells
      ensures Filled(cells, c) ==>
                (Stored(cells[c]) == cells[c] <==>
                 (cells[c].Number? ==> Canonical(cells[c].value)) && (cells[c].Formula? ==>
                           OneEquals(cells[c].formula)))
    {
      if Filled(cells, c) {
        assert Good(c, cells[c], build);
        StoredExactIff(cells[c]);
      }
    }
    if Kept(cells) == cells {
      forall c | c in cells
        ensures Filled(cells, c) && Stored(cells[c]) == cells[c]
      {
        assert c in Kept(cells);
      }
    }
  }

  // ---------------------------------------------------------------- when encoding overflows

  /** A cell in the last column or row stops a checked build, and nothing else stops any. */
  lemma EncodeOverflowIff(sheet: Sheet, build: Build)
    requires forall c :: c in sheet.cells ==> OneBased(c)
    ensures TableOf(sheet, build).Failure? <==>
              build.Checked? &&
              exists c :: c in sheet.cells && Filled(sheet.cells, c) && (c.column == U32_MAX || c.row == U32_MAX)
  {
    var rows := Sorted(RowsOf(sheet.cells));
    SortedIsAscending(RowsOf(sheet.cells));
    forall i | 0 <= i < |rows|
      ensures 1 <= rows[i]
    {
      assert rows[i] in RowsOf(sheet.cells);
    }
    RowsOverflowIff(sheet.cells, rows, 1, build);
    if c :| c in sheet.cells && Filled(sheet.cells, c) && (c.column == U32_MAX || c.row == U32_MAX) {
      assert c.row in RowsOf(sheet.cells);
      assert c.column in ColumnsOf(sheet.cells, c.row);
      assert LastPlace(sheet.cells, c.row);
    }
    if row :| row in rows && LastPlace(sheet.cells, row) {
      assert row in RowsOf(sheet.cells);
    }
  }

  predicate LastPlace(cells: Cells, row: u32) {
    row == U32_MAX || U32_MAX in ColumnsOf(cells, row)
  }

  lemma {:induction false} RowOverflowIff(cells: Cells, row: u32, columns: seq<u32>, next: u32, build: Build)
    requires Ascending(columns)
    ensures RowNodes(cells, row, columns, next, build).Failure? <==> build.Checked? && U32_MAX in columns
    decreases |columns|
  {
    if columns != [] && !Stops(columns[0], build) {
      RowOverflowIff(cells, row, columns[1..], Following(columns[0]), build);
    }
  }

  lemma {:induction false} RowsOverflowIff(cells: Cells, rows: seq<u32>, next: u32, build: Build)
    requires Ascending(rows) && forall i :: 0 <= i < |rows| ==> next <= rows[i]
    ensures TableNodes(cells, rows, next, build).Failure? <==>
              build.Checked? && exists row :: row in rows && LastPlace(cells, row)
    decreases |rows|
  {
    hide RowNodes, LastPlace;
    if rows != [] {
      var columns := Sorted(ColumnsOf(cells, rows[0]));
      SortedIsAscending(ColumnsOf(cells, rows[0]));
      RowOverflowIff(cells, rows[0], columns, 1, build);
      LastPlaceMeans(cells, rows[0]);
      if !Stops(rows[0], build) {
        RowsOverflowIff(cells, rows[1..], Following(rows[0]), build);
      }
      assert forall row :: row in rows <==> row == rows[0] || row in rows[1..];
    }
  }

  lemma LastPlaceMeans(cells: Cells, row: u32)
    ensures LastPlace(cells, row) <==> row == U32_MAX || U32_MAX in ColumnsOf(cells, row)
  {
  }
}
