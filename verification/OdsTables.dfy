/** OpenDocument tables as element trees: what encoding writes and what decoding reads. */
module OdsTables {
  import opened Wrappers
  import opened Text
  import opened Xml
  import opened CellRefs
  import opened Rationals
  import opened Sheets
  import opened Decimals

  const OFFICE_NS := "urn:oasis:names:tc:opendocument:xmlns:office:1.0"
  const TABLE_NS := "urn:oasis:names:tc:opendocument:xmlns:table:1.0"
  const TEXT_NS := "urn:oasis:names:tc:opendocument:xmlns:text:1.0"
  const SIM_NS := "https://sim.nest/office/odf"

  const ROWS_REPEATED := "number-rows-repeated"
  const COLUMNS_REPEATED := "number-columns-repeated"

  /** `Overflow` stands for u32 arithmetic leaving its range in a checked build. */
  datatype OdsError = BadRepeat | BadCellRef | BadNumber | BadBool | BadFormula | Overflow

  type Nodes = Result<seq<Node>, OdsError>

  /** Counting on from here stops this build. */
  predicate Stops(x: u32, build: Build) {
    x == U32_MAX && build.Checked?
  }

  function Following(x: u32): u32 {
    (x + 1) % WIDTH_32
  }

  // ---------------------------------------------------------------- encoding

  predicate Filled(cells: Cells, cell: CellRef) {
    cell in cells && !cells[cell].Blank?
  }

  /** Row numbers that hold a non-blank cell. */
  function RowsOf(cells: Cells): set<u32> {
    set c | c in cells && Filled(cells, c) :: c.row
  }

  /** Columns of the non-blank cells of a row. */
  function ColumnsOf(cells: Cells, row: u32): set<u32> {
    set c | c in cells && Filled(cells, c) && c.row == row :: c.column
  }

  function TrimEquals(formula: string): string {
    if formula != [] && formula[0] == '=' then TrimEquals(formula[1..]) else formula
  }

  function BoolText(flag: bool): string {
    if flag then "true" else "false"
  }

  function Paragraph(text: string): Node {
    Element(Name(TEXT_NS, "p"), [], CharData(text))
  }

  function AddressAttributes(cell: CellRef, kind: string, value: string): seq<Attribute> {
    [ Attribute(Name(SIM_NS, "cell"), CellText(cell)),
      Attribute(Name(SIM_NS, "kind"), kind),
      Attribute(Name(SIM_NS, "value"), value) ]
  }

  function ValueType(kind: string): Attribute {
    Attribute(Name(OFFICE_NS, "value-type"), kind)
  }

  function CellElement(lead: seq<Attribute>, cell: CellRef, kind: string, value: string): Node {
    Element(Name(TABLE_NS, "table-cell"), lead + AddressAttributes(cell, kind, value), [Paragraph(value)])
  }

  /** The typed attributes that come before the stored address. */
  function LeadAttributes(value: CellValue): seq<Attribute> {
    match value
    case Bool(flag) => [ValueType("boolean"), Attribute(Name(OFFICE_NS, "boolean-value"), BoolText(flag))]
    case Formula(formula) =>
      [ValueType("string"), Attribute(Name(TABLE_NS, "formula"), "of:=" + TrimEquals(formula))]
    case _ => [ValueType("string")]
  }

  function CellNodes(cell: CellRef, value: CellValue): seq<Node> {
    match value
    case Blank => []
    case Text(text) => [CellElement(LeadAttributes(value), cell, "text", text)]
    case Number(number) => [CellElement(LeadAttributes(value), cell, "number", RationalText(number))]
    case Bool(flag) => [CellElement(LeadAttributes(value), cell, "bool", BoolText(flag))]
    case Formula(formula) => [CellElement(LeadAttributes(value), cell, "formula", formula)]
  }

  /** A run of empty cells, written once with a repeat count. */
  function EmptyCells(count: u32): Node {
    Element(Name(TABLE_NS, "table-cell"),
            if count == 1 then [] else [Attribute(Name(TABLE_NS, COLUMNS_REPEATED), NatText(count))],
            [])
  }

  const EMPTY_ROW := Element(Name(TABLE_NS, "table-row"), [], [])

  function EmptyRows(count: nat): seq<Node> {
    if count == 0 then [] else [EMPTY_ROW] + EmptyRows(count - 1)
  }

  function After(nodes: seq<Node>, rest: Nodes): Nodes {
    match rest
    case Failure(e) => Failure(e)
    case Success(more) => Success(nodes + more)
  }

  function Gap(next: u32, column: u32): seq<Node> {
    if next < column then [EmptyCells(column - next)] else []
  }

  /** The cells of one row, gaps first, from column `next` on. */
  function RowNodes(cells: Cells, row: u32, columns: seq<u32>, next: u32, build: Build): Nodes {
    if columns == [] then Success([])
    else if Stops(columns[0], build) then Failure(Overflow)
    else
      var cell := CellRef(columns[0], row);
      After(Gap(next, columns[0]) + CellNodes(cell, CellAt(cells, cell)),
            RowNodes(cells, row, columns[1..], Following(columns[0]), build))
  }

  function RowElement(children: seq<Node>): Node {
    Element(Name(TABLE_NS, "table-row"), [], children)
  }

  /** The rows of the table from row `next` on; rows between are written empty. */
  ghost function TableNodes(cells: Cells, rows: seq<u32>, next: u32, build: Build): Nodes {
    if rows == [] then Success([])
    else
      match RowNodes(cells, rows[0], Sorted(ColumnsOf(cells, rows[0])), 1, build)
      case Failure(e) => Failure(e)
      case Success(children) =>
        var here := if next < rows[0] then rows[0] else next;
        if Stops(here, build) then Failure(Overflow)
        else
          After(EmptyRows(here - next) + [RowElement(children)],
                TableNodes(cells, rows[1..], Following(here), build))
  }

  function TableElement(name: string, rows: seq<Node>): Node {
    Element(Name(TABLE_NS, "table"), [Attribute(Name(TABLE_NS, "name"), name)], rows)
  }

  ghost function TableOf(sheet: Sheet, build: Build): Result<Node, OdsError> {
    match TableNodes(sheet.cells, Sorted(RowsOf(sheet.cells)), 1, build)
    case Failure(e) => Failure(e)
    case Success(rows) => Success(TableElement(sheet.name, rows))
  }

  // ---------------------------------------------------------------- ascending sequences

  ghost predicate Ascending(xs: seq<u32>) {
    forall i, j :: 0 <= i < j < |xs| ==> xs[i] < xs[j]
  }

  ghost function Sorted(xs: set<u32>): seq<u32>
    decreases |xs|
  {
    if xs == {} then []
    else
      SmallestExists(xs);
      var least :| IsSmallest(least, xs);
      [least] + Sorted(xs - {least})
  }

  predicate IsSmallest(x: u32, xs: set<u32>) {
    x in xs && forall y :: y in xs ==> x <= y
  }

  lemma {:induction false} SmallestExists(xs: set<u32>)
    requires xs != {}
    ensures exists x :: IsSmallest(x, xs)
    decreases |xs|
  {
    var x :| x in xs;
    if xs == {x} {
      assert IsSmallest(x, xs);
    } else {
      var rest := xs - {x};
      assert xs == rest + {x};
      SmallestExists(rest);
      var y :| IsSmallest(y, rest);
      assert IsSmallest(if x < y then x else y, xs);
    }
  }

  lemma SortedStep(xs: set<u32>)
    requires xs != {}
    ensures Sorted(xs) != [] && IsSmallest(Sorted(xs)[0], xs)
    ensures Sorted(xs)[1..] == Sorted(xs - {Sorted(xs)[0]})
  {
  }

  lemma {:induction false} SortedMembers(xs: set<u32>)
    ensures forall x :: x in Sorted(xs) <==> x in xs
    decreases |xs|
  {
    if xs != {} {
      var least, rest := Sorted(xs)[0], Sorted(xs)[1..];
      SortedStep(xs);
      SortedMembers(xs - {least});
      hide Sorted, IsSmallest;
      assert Sorted(xs) == [least] + rest;
      assert forall x :: x in rest <==> x in xs && x != least;
      assert forall x :: x in Sorted(xs) <==> x == least || x in rest;
    }
  }

  lemma {:induction false} SortedIsAscending(xs: set<u32>)
    ensures Ascending(Sorted(xs))
    ensures forall x :: x in Sorted(xs) <==> x in xs
    decreases |xs|
  {
    SortedMembers(xs);
    if xs != {} {
      var least, rest := Sorted(xs)[0], Sorted(xs)[1..];
      SortedStep(xs);
      SortedIsAscending(xs - {least});
      SmallestBelowRest(least, xs, rest);
      hide Sorted, IsSmallest;
      assert Sorted(xs) == [least] + rest;
    }
  }

  lemma SmallestBelowRest(least: u32, xs: set<u32>, rest: seq<u32>)
    requires IsSmallest(least, xs) && forall x :: x in rest <==> x in xs - {least}
    ensures forall i :: 0 <= i < |rest| ==> least < rest[i]
  {
    forall i | 0 <= i < |rest|
      ensures least < rest[i]
    {
      assert rest[i] in rest;
    }
  }

  /** There is only one ascending enumeration of a set. */
  lemma {:induction false} AscendingIsSorted(s: seq<u32>, xs: set<u32>)
    requires Ascending(s) && forall x :: x in s <==> x in xs
    ensures s == Sorted(xs)
    decreases |xs|
  {
    if s == [] {
      assert forall x :: x in xs ==> x in s;
    } else {
      assert s[0] in xs && IsSmallest(s[0], xs);
      forall x
        ensures x in s[1..] <==> x in xs - {s[0]}
      {
        assert s == [s[0]] + s[1..];
        if x in s[1..] {
          var i :| 0 <= i < |s[1..]| && s[1..][i] == x;
          assert s[0] < s[i + 1];
        }
      }
      AscendingIsSorted(s[1..], xs - {s[0]});
    }
  }

  // ---------------------------------------------------------------- decoding

  function OrElse(a: Option<string>, b: Option<string>): Option<string> {
    if a.Some? then a else b
  }

  /** An attribute in its namespace, or failing that in any. */
  function Lookup(node: Node, space: string, local: string): Option<string> {
    OrElse(AttrNs(AttributesOf(node), space, local), AttrAny(AttributesOf(node), local))
  }

  function RepeatCount(node: Node, local: string): Result<u32, OdsError> {
    match ParseU32(GetOr(Lookup(node, TABLE_NS, local), "1"))
    case None => Failure(BadRepeat)
    case Some(n) => Success(n)
  }

  function BoolValue(text: string): Result<CellValue, OdsError> {
    var t := Trim(text);
    if t == "1" || t == "true" || t == "TRUE" then Success(Bool(true))
    else if t == "0" || t == "false" || t == "FALSE" || t == "" then Success(Bool(false))
    else Failure(BadBool)
  }

  function NumberValue(text: string): Result<CellValue, OdsError> {
    match CellNumber(text)
    case None => Failure(BadNumber)
    case Some(q) => Success(Number(q))
  }

  function NormalizeFormula(formula: string): Result<CellValue, OdsError> {
    var t := Trim(formula);
    var plain := if StartsWith(t, "of:") then t[3..] else if StartsWith(t, "oooc:") then t[5..] else t;
    if plain != [] && plain[0] == '=' then Success(Formula(plain)) else Failure(BadFormula)
  }

  /** The texts of the paragraphs at or below a node, one line each. */
  function TextContent(node: Node): string {
    Lines(ParagraphTexts(Descendants(node)))
  }

  function ParagraphTexts(nodes: seq<Node>): seq<string> {
    if nodes == [] then []
    else (if HasTag(nodes[0], "p") && TextOf(nodes[0]).Some? then [TextOf(nodes[0]).value] else [])
         + ParagraphTexts(nodes[1..])
  }

  function Lines(texts: seq<string>): string {
    if texts == [] then "" else if |texts| == 1 then texts[0] else texts[0] + "\n" + Lines(texts[1..])
  }

  function DecodeCell(node: Node): Result<CellValue, OdsError> {
    var kind := AttrNs(AttributesOf(node), SIM_NS, "kind");
    var stored := AttrNs(AttributesOf(node), SIM_NS, "value");
    var text := if stored.Some? then stored.value else TextContent(node);
    if kind == Some("blank") then Success(Blank)
    else if kind == Some("bool") then BoolValue(text)
    else if kind == Some("formula") then Success(Formula("=" + TrimEquals(text)))
    else if kind == Some("number") then NumberValue(text)
    else if kind == Some("text") then Success(CellValue.Text(text))
    else DecodeUntyped(node, text)
  }

  function DecodeUntyped(node: Node, text: string): Result<CellValue, OdsError> {
    var formula := Lookup(node, TABLE_NS, "formula");
    var kind := AttrNs(AttributesOf(node), OFFICE_NS, "value-type");
    if formula.Some? then NormalizeFormula(formula.value)
    else if kind == Some("boolean") then BoolValue(GetOr(Lookup(node, OFFICE_NS, "boolean-value"), text))
    else if kind == Some("float") || kind == Some("currency") || kind == Some("percentage")
    then NumberValue(GetOr(Lookup(node, OFFICE_NS, "value"), text))
    else if kind == Some("string") || kind == Some("date") || kind == Some("time") then Success(CellValue.Text(text))
    else if Trim(text) == [] then Success(Blank)
    else Success(CellValue.Text(text))
  }

  /**
   The address the `offset`-th repetition of a cell goes to: a stored address wins at the first, but
   the implied one is computed all the same and must be one-based.
   */
  function Address(node: Node, column: u32, row: u32, offset: nat, build: Build): Result<CellRef, OdsError> {
    var stored := if offset == 0 then AttrNs(AttributesOf(node), SIM_NS, "cell") else None;
    if stored.Some? && ParseCell(stored.value).None? then Failure(BadCellRef)
    else
      match Plus32(column, offset, build)
      case None => Failure(Overflow)
      case Some(implied) =>
        if implied == 0 || row == 0 then Failure(BadCellRef)
        else if stored.Some? then Success(ParseCell(stored.value).value)
        else Success(CellRef(implied, row))
  }

  type Decoded = Result<Cells, OdsError>

  /** Repetitions `offset..repeats` of a non-blank cell. */
  function SetRepeated(
    node: Node, value: CellValue, column: u32, row: u32, offset: nat, repeats: nat, cells: Cells, build: Build): Decoded
    requires offset <= repeats
    decreases repeats - offset
  {
    if offset == repeats || value.Blank? then Success(cells)
    else
      match Address(node, column, row, offset, build)
      case Failure(e) => Failure(e)
      case Success(cell) =>
        SetRepeated(node, value, column, row, offset + 1, repeats, SetCell(cells, cell, value), build)
  }

  function Advance(index: u32, steps: u32, build: Build): Result<u32, OdsError> {
    match Plus32(index, steps, build)
    case None => Failure(Overflow)
    case Some(next) => Success(next)
  }

  /** One child of a row: the cells it sets. */
  function DecodeChild(node: Node, column: u32, row: u32, repeats: u32, cells: Cells, build: Build): Decoded {
    if HasTag(node, "covered-table-cell") then Success(cells)
    else
      match DecodeCell(node)
      case Failure(e) => Failure(e)
      case Success(value) => SetRepeated(node, value, column, row, 0, repeats, cells, build)
  }

  predicate IsCell(node: Node) {
    HasTag(node, "table-cell") || HasTag(node, "covered-table-cell")
  }

  function DecodeRow(nodes: seq<Node>, column: u32, row: u32, cells: Cells, build: Build): Decoded
    decreases |nodes|
  {
    if nodes == [] then Success(cells)
    else if !IsCell(nodes[0]) then DecodeRow(nodes[1..], column, row, cells, build)
    else
      match RepeatCount(nodes[0], COLUMNS_REPEATED)
      case Failure(e) => Failure(e)
      case Success(repeats) =>
        match DecodeChild(nodes[0], column, row, repeats, cells, build)
        case Failure(e) => Failure(e)
        case Success(next) =>
          match Advance(column, repeats, build)
          case Failure(e) => Failure(e)
          case Success(after) => DecodeRow(nodes[1..], after, row, next, build)
  }

  /** A row repeated: the same children at each following row. */
  function DecodeRepeated(
    node: Node, row: u32, repeats: nat, cells: Cells, build: Build): Result<(u32, Cells), OdsError>
    decreases repeats
  {
    if repeats == 0 then Success((row, cells))
    else
      match DecodeRow(ChildrenOf(node), 1, row, cells, build)
      case Failure(e) => Failure(e)
      case Success(next) =>
        match Advance(row, 1, build)
        case Failure(e) => Failure(e)
        case Success(below) => DecodeRepeated(node, below, repeats - 1, next, build)
  }

  function DecodeRows(nodes: seq<Node>, row: u32, cells: Cells, build: Build): Decoded
    decreases |nodes|
  {
    if nodes == [] then Success(cells)
    else if !HasTag(nodes[0], "table-row") then DecodeRows(nodes[1..], row, cells, build)
    else
      match RepeatCount(nodes[0], ROWS_REPEATED)
      case Failure(e) => Failure(e)
      case Success(repeats) =>
        match DecodeRepeated(nodes[0], row, repeats, cells, build)
        case Failure(e) => Failure(e)
        case Success((below, next)) => DecodeRows(nodes[1..], below, next, build)
  }

  function DecodeTable(table: Node, build: Build): Result<Sheet, OdsError> {
    match DecodeRows(ChildrenOf(table), 1, map[], build)
    case Failure(e) => Failure(e)
    case Success(cells) => Success(Sheet(GetOr(Lookup(table, TABLE_NS, "name"), "Sheet1"), cells))
  }

  // ---------------------------------------------------------------- tables without stored addresses

  function DropAddress(attributes: seq<Attribute>): seq<Attribute> {
    if attributes == [] then []
    else (if attributes[0].name == Name(SIM_NS, "cell") then [] else [attributes[0]]) + DropAddress(attributes[1..])
  }

  function Unaddressed(node: Node): Node {
    if node.Element? then node.(attributes := DropAddress(node.attributes)) else node
  }

  function UnaddressedAll(nodes: seq<Node>): seq<Node> {
    if nodes == [] then [] else [Unaddressed(nodes[0])] + UnaddressedAll(nodes[1..])
  }

  function UnaddressedRow(row: Node): Node {
    if row.Element? then row.(children := UnaddressedAll(row.children)) else row
  }

  function UnaddressedRows(rows: seq<Node>): seq<Node> {
    if rows == [] then [] else [UnaddressedRow(rows[0])] + UnaddressedRows(rows[1..])
  }

  /** The same table with every cell's stored address removed. */
  function UnaddressedTable(table: Node): Node {
    if table.Element? then table.(children := UnaddressedRows(table.children)) else table
  }

  lemma {:induction false} DropAddressKeeps(attributes: seq<Attribute>, space: string, local: string)
    ensures AttrNs(DropAddress(attributes), space, local) ==
            if Name(space, local) == Name(SIM_NS, "cell") then None else AttrNs(attributes, space, local)
    ensures local != "cell" ==> AttrAny(DropAddress(attributes), local) == AttrAny(attributes, local)
  {
    if attributes != [] {
      DropAddressKeeps(attributes[1..], space, local);
      var rest := DropAddress(attributes[1..]);
      if attributes[0].name == Name(SIM_NS, "cell") {
        assert DropAddress(attributes) == rest;
      } else {
        assert DropAddress(attributes) == [attributes[0]] + rest;
        assert DropAddress(attributes)[1..] == rest;
      }
    }
  }
}
