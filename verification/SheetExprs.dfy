/** Sheets and cell values as document expressions. */
module SheetExprs {
  import opened Wrappers
  import opened Text
  import opened CellRefs
  import opened CellOrder
  import opened Rationals
  import opened Sheets

  /** A name with an optional namespace. */
  datatype Symbol = Symbol(space: string, name: string)

  datatype Expr =
    | Nil
    | Truth(flag: bool)
    | Str(text: string)
    | Num(domain: Symbol, canonical: string)
    | Sym(symbol: Symbol)
    | List(items: seq<Expr>)
    | Map(entries: seq<(Expr, Expr)>)

  datatype SheetError = InvalidCellRef | InvalidRational | WrongDocKind | WrongDocBody | WrongEdit

  const RATIONAL_DOMAIN := Symbol("numbers", "rational")

  function Office(name: string): Symbol {
    Symbol("office", name)
  }

  function QualifiedText(symbol: Symbol): string {
    if symbol.space == "" then symbol.name else symbol.space + "/" + symbol.name
  }

  function Field(name: string, value: Expr): (Expr, Expr) {
    (Sym(Symbol("", name)), value)
  }

  // ---------------------------------------------------------------- writing

  function ValueExpr(value: CellValue): Expr {
    match value
    case Blank => Map([Field("kind", Sym(Office("sheet-blank")))])
    case Text(text) => Map([Field("kind", Sym(Office("sheet-text"))), Field("value", Str(text))])
    case Number(number) =>
      Map([Field("kind", Sym(Office("sheet-number"))), Field("value", Num(RATIONAL_DOMAIN, RationalText(number)))])
    case Bool(flag) => Map([Field("kind", Sym(Office("sheet-bool"))), Field("value", Truth(flag))])
    case Formula(formula) => Map([Field("kind", Sym(Office("sheet-formula"))), Field("value", Str(formula))])
  }

  function CellExpr(cell: CellRef, value: CellValue): Expr {
    Map([Field("cell", Str(CellText(cell))), Field("value", ValueExpr(value))])
  }

  function CellExprs(cells: Cells, order: seq<CellRef>): seq<Expr> {
    if order == [] then [] else [CellExpr(order[0], CellAt(cells, order[0]))] + CellExprs(cells, order[1..])
  }

  /** A sheet's expression lists its cells in cell order. */
  ghost function SheetExpr(sheet: Sheet): Expr {
    Map([ Field("kind", Sym(Office("sheet"))), Field("name", Str(sheet.name)),
          Field("cells", List(CellExprs(sheet.cells, InOrder(sheet.cells.Keys)))) ])
  }

  // ---------------------------------------------------------------- reading

  /** The value of the first entry keyed by this plain symbol. */
  function FieldValue(entries: seq<(Expr, Expr)>, name: string): Result<Expr, SheetError> {
    if entries == [] then Failure(WrongDocBody)
    else if entries[0].0 == Sym(Symbol("", name)) then Success(entries[0].1)
    else FieldValue(entries[1..], name)
  }

  function ExpectMap(expr: Expr): Result<seq<(Expr, Expr)>, SheetError> {
    if expr.Map? then Success(expr.entries) else Failure(WrongDocBody)
  }

  function StringField(entries: seq<(Expr, Expr)>, name: string): Result<string, SheetError> {
    match FieldValue(entries, name)
    case Failure(e) => Failure(e)
    case Success(value) => if value.Str? then Success(value.text) else Failure(WrongDocBody)
  }

  function SymbolField(entries: seq<(Expr, Expr)>, name: string): Result<Symbol, SheetError> {
    match FieldValue(entries, name)
    case Failure(e) => Failure(e)
    case Success(value) => if value.Sym? then Success(value.symbol) else Failure(WrongDocBody)
  }

  function NumberFrom(expr: Expr): Result<CellValue, SheetError> {
    if !expr.Num? || expr.domain != RATIONAL_DOMAIN then Failure(WrongDocBody)
    else
      match RationalFromText(expr.canonical)
      case None => Failure(InvalidRational)
      case Some(q) => Success(Number(q))
  }

  /** The value under a kind; the kind is compared as qualified text. */
  function ValueOfKind(kind: string, entries: seq<(Expr, Expr)>): Result<CellValue, SheetError> {
    if kind == "office/sheet-blank" then Success(Blank)
    else if kind == "office/sheet-text" then
      (match StringField(entries, "value") case Failure(e) => Failure(e) case Success(t) => Success(CellValue.Text(t)))
    else if kind == "office/sheet-number" then
      (match FieldValue(entries, "value") case Failure(e) => Failure(e) case Success(v) => NumberFrom(v))
    else if kind == "office/sheet-bool" then
      (match FieldValue(entries, "value")
       case Failure(e) => Failure(e)
       case Success(v) => if v.Truth? then Success(Bool(v.flag)) else Failure(WrongDocBody))
    else if kind == "office/sheet-formula" then
      (match StringField(entries, "value") case Failure(e) => Failure(e) case Success(t) => Success(Formula(t)))
    else Failure(WrongDocBody)
  }

  function ValueFrom(expr: Expr): Result<CellValue, SheetError> {
    match ExpectMap(expr)
    case Failure(e) => Failure(e)
    case Success(entries) =>
      match SymbolField(entries, "kind")
      case Failure(e) => Failure(e)
      case Success(kind) => ValueOfKind(QualifiedText(kind), entries)
  }

  /** The cell and value fields of a map, in that order. */
  function CellFields(entries: seq<(Expr, Expr)>): Result<(CellRef, CellValue), SheetError> {
    match StringField(entries, "cell")
    case Failure(e) => Failure(e)
    case Success(text) =>
      match ParseCell(text)
      case None => Failure(InvalidCellRef)
      case Some(cell) =>
        match FieldValue(entries, "value")
        case Failure(e) => Failure(e)
        case Success(expr) =>
          match ValueFrom(expr)
          case Failure(e) => Failure(e)
          case Success(value) => Success((cell, value))
  }

  function CellFrom(expr: Expr): Result<(CellRef, CellValue), SheetError> {
    match ExpectMap(expr)
    case Failure(e) => Failure(e)
    case Success(entries) => CellFields(entries)
  }

  function CellsFrom(exprs: seq<Expr>, cells: Cells): Result<Cells, SheetError>
    decreases |exprs|
  {
    if exprs == [] then Success(cells)
    else
      match CellFrom(exprs[0])
      case Failure(e) => Failure(e)
      case Success((cell, value)) => CellsFrom(exprs[1..], SetCell(cells, cell, value))
  }

  function SheetFrom(expr: Expr): Result<Sheet, SheetError> {
    match ExpectMap(expr)
    case Failure(e) => Failure(e)
    case Success(entries) =>
      match SymbolField(entries, "kind")
      case Failure(e) => Failure(e)
      case Success(kind) =>
        if kind != Office("sheet") then Failure(WrongDocBody)
        else
          match StringField(entries, "name")
          case Failure(e) => Failure(e)
          case Success(name) =>
            match FieldValue(entries, "cells")
            case Failure(e) => Failure(e)
            case Success(list) =>
              if !list.List? then Failure(WrongDocBody)
              else
                match CellsFrom(list.items, map[])
                case Failure(e) => Failure(e)
                case Success(cells) => Success(Sheet(name, cells))
  }

  // ---------------------------------------------------------------- round trips

  /** A value as expressions carry it: numbers come back in lowest terms. */
  function Carried(value: CellValue): Result<CellValue, SheetError> {
    if !value.Number? then Success(value)
    else
      match FromParts(value.value.num, value.value.den)
      case None => Failure(InvalidRational)
      case Some(q) => Success(Number(q))
  }

  lemma BlankKind()
    ensures QualifiedText(Office("sheet-blank")) == "office/sheet-blank"
  {
    assert "office" + "/" + "sheet-blank" == "office/sheet-blank";
  }

  lemma TextKind()
    ensures QualifiedText(Office("sheet-text")) == "office/sheet-text"
  {
    assert "office" + "/" + "sheet-text" == "office/sheet-text";
  }

  lemma NumberKind()
    ensures QualifiedText(Office("sheet-number")) == "office/sheet-number"
  {
    assert "office" + "/" + "sheet-number" == "office/sheet-number";
  }

  lemma BoolKind()
    ensures QualifiedText(Office("sheet-bool")) == "office/sheet-bool"
  {
    assert "office" + "/" + "sheet-bool" == "office/sheet-bool";
  }

  lemma FormulaKind()
    ensures QualifiedText(Office("sheet-formula")) == "office/sheet-formula"
  {
    assert "office" + "/" + "sheet-formula" == "office/sheet-formula";
  }

  lemma FieldRead(entries: seq<(Expr, Expr)>, name: string, other: string)
    requires |entries| == 2 && entries[0].0 == Sym(Symbol("", name)) && entries[1].0 == Sym(Symbol("", other))
    requires name != other
    ensures FieldValue(entries, name) == Success(entries[0].1)
    ensures FieldValue(entries, other) == Success(entries[1].1)
  {
    assert entries[1..] == [entries[1]];
  }

  lemma ValueNames()
    ensures "kind" != "value" && "cell" != "value" && "kind" != "cell"
  {
    assert "kind"[0] == 'k' && "cell"[0] == 'c';
  }

  /** Every value survives the trip through expressions, up to lowest terms. */
  lemma ValueRoundTrip(value: CellValue)
    ensures ValueFrom(ValueExpr(value)) == Carried(value)
  {
    hide QualifiedText, RationalText, RationalFromText, FromParts;
    BlankKind();
    TextKind();
    NumberKind();
    BoolKind();
    FormulaKind();
    ValueNames();
    var entries := ValueExpr(value).entries;
    if value.Blank? {
      assert FieldValue(entries, "kind") == Success(entries[0].1);
    } else {
      FieldRead(entries, "kind", "value");
    }
    hide FieldValue;
    if value.Number? {
      RationalTextReads(value.value);
    }
  }

  /** A printed cell reads back; one that is not one-based is refused. */
  lemma CellTextReads(cell: CellRef)
    ensures ParseCell(CellText(cell)) == if OneBased(cell) then Some(cell) else None
  {
    if OneBased(cell) {
      CellTextRoundTrip(cell);
    } else if cell.column == 0 {
      RowAloneRefused(cell.row);
    } else {
      RowZeroRefused(cell.column);
    }
  }

  lemma RowAloneRefused(row: u32)
    ensures ParseCell(NatText(row)) == None
    ensures CellText(CellRef(0, row)) == NatText(row)
  {
    var t := NatText(row);
    assert IsDigit(t[0]) && IsDigit(t[|t| - 1]);
    TrimIdentity(t);
    assert LetterRun(t) == 0;
    assert ColumnText(0) == [] && [] + t == t;
  }

  lemma RowZeroRefused(column: u32)
    requires column > 0
    ensures ParseCell(CellText(CellRef(column, 0))) == None
  {
    hide DigitsValue, LettersValue;
    var letters, digits := ColumnText(column), NatText(0);
    var t := letters + digits;
    ColumnTextValue(column);
    NatTextValue(0);
    assert letters != [];
    LetterRunConcat(letters, digits);
    assert t[0] == letters[0] && IsLetter(letters[0]) && t[|t| - 1] == digits[|digits| - 1];
    TrimIdentity(t);
    assert t[..|letters|] == letters && t[|letters|..] == digits;
  }

  lemma CellRoundTrip(entries: seq<(Expr, Expr)>, cell: CellRef, value: CellValue)
    requires FieldValue(entries, "cell") == Success(Str(CellText(cell)))
    requires FieldValue(entries, "value") == Success(ValueExpr(value))
    ensures CellFields(entries) ==
            if !OneBased(cell) then Failure(InvalidCellRef)
            else match Carried(value) case Failure(e) => Failure(e) case Success(v) => Success((cell, v))
  {
    hide FieldValue, ParseCell, CellText, ValueFrom, ValueExpr, Carried;
    CellTextReads(cell);
    ValueRoundTrip(value);
  }

  // ---------------------------------------------------------------- regular sheets

  /** What decoding produces: one-based cells, no blank entries, numbers in lowest terms. */
  ghost predicate Regular(cells: Cells) {
    forall c :: c in cells ==> RegularCell(c, cells[c])
  }

  ghost predicate RegularCell(cell: CellRef, value: CellValue) {
    OneBased(cell) && !value.Blank? && RegularValue(value)
  }

  ghost predicate RegularValue(value: CellValue) {
    value.Number? ==> Canonical(value.value)
  }

  lemma RegularCarried(value: CellValue)
    requires RegularValue(value)
    ensures Carried(value) == Success(value)
  {
    if value.Number? {
      ReduceCanonical(value.value);
    }
  }

  lemma ParsedIsRegular(text: string)
    ensures RationalFromText(text).Some? ==> Canonical(RationalFromText(text).value)
  {
    hide Trim, FirstAt, ParseInt, Reduce;
    var source := Trim(text);
    var s := if '/' in source then source else source + "/1";
    if ParseRational(s).Some? {
      var i := FirstAt(s, '/').value;
      ReduceIsCanonical(ParseInt(s[..i]).value, ParseInt(s[i + 1..]).value);
    }
  }

  lemma DecodedValueRegular(expr: Expr)
    ensures ValueFrom(expr).Success? ==> RegularValue(ValueFrom(expr).value)
  {
    hide FieldValue, RationalFromText, QualifiedText;
    if expr.Map? && FieldValue(expr.entries, "value").Success? && FieldValue(expr.entries, "value").value.Num? {
      ParsedIsRegular(FieldValue(expr.entries, "value").value.canonical);
    }
  }

  lemma DecodedCellRegular(entries: seq<(Expr, Expr)>)
    ensures CellFields(entries).Success? ==>
              OneBased(CellFields(entries).value.0) && RegularValue(CellFields(entries).value.1)
  {
    hide FieldValue, ParseCell, ValueFrom, RegularValue;
    if CellFields(entries).Success? {
      AcceptedTextNormalises(StringField(entries, "cell").value);
      DecodedValueRegular(FieldValue(entries, "value").value);
    }
  }

  lemma {:induction false} DecodedCellsRegular(exprs: seq<Expr>, cells: Cells)
    requires Regular(cells)
    ensures CellsFrom(exprs, cells).Success? ==> Regular(CellsFrom(exprs, cells).value)
    decreases |exprs|
  {
    hide CellFields, RegularValue;
    if exprs != [] && CellFrom(exprs[0]).Success? {
      DecodedCellRegular(exprs[0].entries);
      DecodedCellsRegular(exprs[1..], SetCell(cells, CellFrom(exprs[0]).value.0, CellFrom(exprs[0]).value.1));
    }
  }

  /** Whatever a document body holds, the sheet read from it is regular. */
  lemma DecodedSheetRegular(expr: Expr)
    ensures SheetFrom(expr).Success? ==> Regular(SheetFrom(expr).value.cells)
  {
    hide FieldValue, CellsFrom;
    if expr.Map? && FieldValue(expr.entries, "cells").Success? && FieldValue(expr.entries, "cells").value.List? {
      DecodedCellsRegular(FieldValue(expr.entries, "cells").value.items, map[]);
    }
  }

  /** Reading the listed cells adds exactly them. */
  lemma {:induction false} CellsRoundTrip(cells: Cells, order: seq<CellRef>, into: Cells)
    requires forall i :: 0 <= i < |order| ==> order[i] in cells && RegularCell(order[i], cells[order[i]])
    ensures CellsFrom(CellExprs(cells, order), into).Success?
    ensures forall c :: CellAt(CellsFrom(CellExprs(cells, order), into).value, c) ==
                        if c in order then cells[c] else CellAt(into, c)
    ensures CellsFrom(CellExprs(cells, order), into).value.Keys == into.Keys + set c | c in order
    decreases |order|
  {
    hide FieldValue, CellExpr, RegularValue;
    if order == [] {
    } else {
      var cell := order[0];
      assert RegularCell(cell, cells[cell]);
      CellExprReads(cell, cells[cell]);
      CellsRoundTrip(cells, order[1..], SetCell(into, cell, cells[cell]));
      assert CellExprs(cells, order)[1..] == CellExprs(cells, order[1..]);
      assert forall c :: c in order <==> c == cell || c in order[1..];
    }
  }

  lemma CellExprReads(cell: CellRef, value: CellValue)
    requires RegularCell(cell, value)
    ensures CellFrom(CellExpr(cell, value)) == Success((cell, value))
  {
    hide RegularValue, ValueExpr, CellFields, CellText;
    var entries := CellExpr(cell, value).entries;
    ValueNames();
    FieldRead(entries, "cell", "value");
    CellRoundTrip(entries, cell, value);
    RegularCarried(value);
  }

  lemma SheetFields(sheet: Sheet)
    ensures var entries := SheetExpr(sheet).entries;
            && FieldValue(entries, "kind") == Success(Sym(Office("sheet")))
            && FieldValue(entries, "name") == Success(Str(sheet.name))
            && FieldValue(entries, "cells") == Success(List(CellExprs(sheet.cells, InOrder(sheet.cells.Keys))))
  {
    hide CellExprs, InOrder;
    var entries := SheetExpr(sheet).entries;
    assert "kind"[0] == 'k' && "name"[0] == 'n' && |"cells"| == 5;
    assert entries[1..][0] == entries[1] && entries[2..][0] == entries[2] && entries[1..][1..] == entries[2..];
    assert FieldValue(entries, "name") == FieldValue(entries[1..], "name");
    assert FieldValue(entries[2..], "cells") == Success(entries[2].1);
    assert FieldValue(entries[1..], "cells") == FieldValue(entries[2..], "cells");
  }

  /** Regular sheets survive the trip through expressions. */
  lemma SheetRoundTrip(sheet: Sheet)
    requires Regular(sheet.cells)
    ensures SheetFrom(SheetExpr(sheet)) == Success(sheet)
  {
    hide FieldValue, CellExprs, InOrder, RegularCell, CellsFrom;
    SheetFields(sheet);
    var order := InOrder(sheet.cells.Keys);
    InOrderMembers(sheet.cells.Keys);
    CellsRoundTrip(sheet.cells, order, map[]);
    var back := CellsFrom(CellExprs(sheet.cells, order), map[]).value;
    assert back.Keys == sheet.cells.Keys;
    SameCells(back, sheet.cells);
  }

  lemma SameCells(a: Cells, b: Cells)
    requires a.Keys == b.Keys && forall c :: CellAt(a, c) == CellAt(b, c)
    ensures a == b
  {
    forall c | c in a
      ensures a[c] == b[c]
    {
      assert CellAt(a, c) == CellAt(b, c);
    }
  }
}
