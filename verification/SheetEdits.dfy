/** Reversible edits of sheet documents. */
module SheetEdits {
  import opened Wrappers
  import opened CellRefs
  import opened CellOrder
  import opened Rationals
  import opened Sheets
  import opened SheetExprs

  const SHEET_KIND := "sheet"
  const SHEET_EDIT_DOMAIN := "office/sheet"

  datatype Doc = Doc(kind: string, id: string, body: Expr)

  /** An open edit: a document, a domain, the operation and the operation that reverses it. */
  datatype Edit = Edit(doc: string, domain: string, op: Expr, inverse: Expr)

  function Invert(edit: Edit): Edit {
    edit.(op := edit.inverse, inverse := edit.op)
  }

  function DocToSheet(doc: Doc): Result<Sheet, SheetError> {
    if doc.kind != SHEET_KIND then Failure(WrongDocKind) else SheetFrom(doc.body)
  }

  ghost function SheetToDoc(id: string, sheet: Sheet): Doc {
    Doc(SHEET_KIND, id, SheetExpr(sheet))
  }

  /**
   A sheet comes back from its document exactly when it holds only one-based, non-blank cells and
   numbers in lowest terms.
   */
  lemma SheetDocIff(id: string, sheet: Sheet)
    ensures DocToSheet(SheetToDoc(id, sheet)) == Success(sheet) <==> Regular(sheet.cells)
  {
    hide SheetExpr, SheetFrom, RegularCell;
    DecodedSheetRegular(SheetExpr(sheet));
    if Regular(sheet.cells) {
      SheetRoundTrip(sheet);
    }
  }

  function SetExpr(cell: CellRef, value: CellValue): Expr {
    Map([Field("kind", Sym(Office("set-cell"))), Field("cell", Str(CellText(cell))), Field("value", ValueExpr(value))])
  }

  function SetFrom(expr: Expr): Result<(CellRef, CellValue), SheetError> {
    match ExpectMap(expr)
    case Failure(e) => Failure(e)
    case Success(entries) =>
      match SymbolField(entries, "kind")
      case Failure(e) => Failure(e)
      case Success(kind) => if kind != Office("set-cell") then Failure(WrongEdit) else CellFields(entries)
  }

  /** The edit that sets one cell, with what the cell holds now as its inverse. */
  function EditOf(doc: Doc, cell: CellRef, value: CellValue): Result<Edit, SheetError> {
    match DocToSheet(doc)
    case Failure(e) => Failure(e)
    case Success(sheet) =>
      Success(Edit(doc.id, SHEET_EDIT_DOMAIN, SetExpr(cell, value), SetExpr(cell, CellAt(sheet.cells, cell))))
  }

  /** The document after an edit; a refused edit leaves it alone. */
  ghost function Applied(doc: Doc, edit: Edit): Result<Doc, SheetError> {
    if doc.kind != SHEET_KIND then Failure(WrongDocKind)
    else if edit.domain != SHEET_EDIT_DOMAIN || edit.doc != doc.id then Failure(WrongEdit)
    else
      match SetFrom(edit.op)
      case Failure(e) => Failure(e)
      case Success((cell, value)) =>
        match DocToSheet(doc)
        case Failure(e) => Failure(e)
        case Success(sheet) =>
          Success(doc.(body := SheetExpr(sheet.(cells := SetCell(sheet.cells, cell, value)))))
  }

  /** An edit is refused for any other kind of document, another domain or another document. */
  lemma ForeignEditRefused(doc: Doc, edit: Edit)
    ensures doc.kind != "sheet" ==> Applied(doc, edit) == Failure(WrongDocKind)
    ensures doc.kind == "sheet" && (edit.domain != "office/sheet" || edit.doc != doc.id) ==>
              Applied(doc, edit) == Failure(WrongEdit)
  {
  }

  /** Whatever an applied edit holds, the document keeps its kind and id and changes one cell at most. */
  lemma AppliedChangesOneCell(doc: Doc, edit: Edit)
    ensures Applied(doc, edit).Success? ==>
              var after := Applied(doc, edit).value;
              && doc.kind == "sheet" && edit.domain == "office/sheet" && edit.doc == doc.id
              && after.kind == doc.kind && after.id == doc.id
              && DocToSheet(doc).Success? && DocToSheet(after).Success?
              && DocToSheet(after).value.name == DocToSheet(doc).value.name
              && SetFrom(edit.op).Success?
              && forall c :: c != SetFrom(edit.op).value.0 ==>
                   CellAt(DocToSheet(after).value.cells, c) == CellAt(DocToSheet(doc).value.cells, c)
  {
    hide SetFrom, SheetFrom, SheetExpr, Regular;
    if Applied(doc, edit).Success? {
      var (cell, value) := SetFrom(edit.op).value;
      var sheet := DocToSheet(doc).value;
      DecodedSheetRegular(doc.body);
      SetFromRegular(edit.op);
      WithCellRegular(sheet, cell, value);
      SheetRoundTrip(WithCell(sheet, cell, value));
    }
  }

  lemma SetFromRegular(expr: Expr)
    ensures SetFrom(expr).Success? ==> OneBased(SetFrom(expr).value.0) && RegularValue(SetFrom(expr).value.1)
  {
    hide CellFields, RegularValue;
    if SetFrom(expr).Success? {
      DecodedCellRegular(expr.entries);
    }
  }

  // ---------------------------------------------------------------- the document object

  class Document {
    const kind: string
    const id: string
    var body: Expr

    constructor (kind: string, id: string, body: Expr)
      ensures View() == Doc(kind, id, body)
    {
      this.kind, this.id, this.body := kind, id, body;
    }

    function View(): Doc
      reads this
    {
      Doc(kind, id, body)
    }

    /** `set_cell_edit`: reads the sheet to remember the old value; changes nothing. */
    method SetCellEdit(cell: CellRef, value: CellValue) returns (r: Result<Edit, SheetError>)
      ensures r == EditOf(View(), cell, value)
    {
      var sheet := DocToSheet(View());
      if sheet.Failure? {
        return Failure(sheet.error);
      }
      var inverse := CellAt(sheet.value.cells, cell);
      return Success(Edit(id, SHEET_EDIT_DOMAIN, SetExpr(cell, value), SetExpr(cell, inverse)));
    }

    /** `apply_sheet_edit`: replaces the body, or reports why not and leaves it. */
    method ApplySheetEdit(edit: Edit) returns (r: Result<(), SheetError>)
      modifies this`body
      ensures match Applied(old(View()), edit)
              case Failure(e) => r == Failure(e) && View() == old(View())
              case Success(after) => r.Success? && View() == after
    {
      hide SetFrom, SheetFrom;
      if kind != SHEET_KIND {
        return Failure(WrongDocKind);
      }
      if edit.domain != SHEET_EDIT_DOMAIN || edit.doc != id {
        return Failure(WrongEdit);
      }
      var op := SetFrom(edit.op);
      if op.Failure? {
        return Failure(op.error);
      }
      var decoded := DocToSheet(View());
      if decoded.Failure? {
        return Failure(decoded.error);
      }
      var sheet := decoded.value;
      sheet := sheet.(cells := SetCell(sheet.cells, op.value.0, op.value.1));
      body := WriteSheet(sheet);
      return Success(());
    }
  }

  /** `sheet_to_expr`: the cells in their own order. */
  method WriteSheet(sheet: Sheet) returns (expr: Expr)
    ensures expr == SheetExpr(sheet)
  {
    hide CellExpr, FirstCell, InOrder;
    var cells := sheet.cells;
    var exprs: seq<Expr> := [];
    var todo := cells.Keys;
    ghost var all := CellExprs(cells, InOrder(todo));
    while todo != {}
      invariant todo <= cells.Keys
      invariant all == exprs + CellExprs(cells, InOrder(todo))
      decreases |todo|
    {
      FirstCellExists(todo);
      var cell :| FirstCell(cell, todo);
      InOrderFirst(todo, cell);
      FirstIsIn(cell, todo);
      exprs := exprs + [CellExpr(cell, cells[cell])];
      todo := todo - {cell};
    }
    NoCells();
    assert CellExprs(cells, []) == [] && exprs + [] == exprs;
    return Map([Field("kind", Sym(Office("sheet"))), Field("name", Str(sheet.name)), Field("cells", List(exprs))]);
  }

  lemma FirstIsIn(c: CellRef, cells: set<CellRef>)
    requires FirstCell(c, cells)
    ensures c in cells
  {
  }

  lemma NoCells()
    ensures InOrder({}) == []
  {
  }

  // ---------------------------------------------------------------- one edit

  lemma SetFields(cell: CellRef, value: CellValue)
    ensures var entries := SetExpr(cell, value).entries;
            && SymbolField(entries, "kind") == Success(Office("set-cell"))
            && FieldValue(entries, "cell") == Success(Str(CellText(cell)))
            && FieldValue(entries, "value") == Success(ValueExpr(value))
  {
    hide CellText, ValueExpr;
    var entries := SetExpr(cell, value).entries;
    ValueNames();
    assert entries[1..][0] == entries[1] && entries[2..][0] == entries[2] && entries[1..][1..] == entries[2..];
    assert FieldValue(entries, "cell") == FieldValue(entries[1..], "cell");
    assert FieldValue(entries[2..], "value") == Success(entries[2].1);
    assert FieldValue(entries[1..], "value") == FieldValue(entries[2..], "value");
  }

  /** A set-cell payload reads back, unless its cell or its number is not valid. */
  lemma SetRoundTrip(cell: CellRef, value: CellValue)
    ensures SetFrom(SetExpr(cell, value)) ==
            if !OneBased(cell) then Failure(InvalidCellRef)
            else match Carried(value) case Failure(e) => Failure(e) case Success(v) => Success((cell, v))
  {
    hide FieldValue, SymbolField, CellFields, CellText, ValueExpr, Carried;
    SetFields(cell, value);
    CellRoundTrip(SetExpr(cell, value).entries, cell, value);
  }

  predicate Settable(cell: CellRef, value: CellValue) {
    OneBased(cell) && (value.Number? ==> value.value.den != 0)
  }

  /** The sheet after setting one cell. */
  function WithCell(sheet: Sheet, cell: CellRef, value: CellValue): Sheet {
    sheet.(cells := SetCell(sheet.cells, cell, value))
  }

  lemma WithCellRegular(sheet: Sheet, cell: CellRef, value: CellValue)
    requires Regular(sheet.cells) && OneBased(cell) && RegularValue(value)
    ensures Regular(WithCell(sheet, cell, value).cells)
  {
    hide RegularValue;
    forall c | c in WithCell(sheet, cell, value).cells
      ensures RegularCell(c, WithCell(sheet, cell, value).cells[c])
    {
      if c != cell {
        assert RegularCell(c, sheet.cells[c]);
      }
    }
  }

  lemma CarriedIff(value: CellValue)
    ensures Carried(value).Success? <==> (value.Number? ==> value.value.den != 0)
    ensures Carried(value).Success? ==> RegularValue(Carried(value).value)
  {
    if value.Number? && value.value.den != 0 {
      ReduceIsCanonical(value.value.num, value.value.den);
    }
  }

  /**
   An edit built for a readable document applies exactly when its cell is one-based and its number
   has a denominator; then it changes that one cell and nothing else.
   */
  lemma EditAppliesIff(doc: Doc, cell: CellRef, value: CellValue)
    requires DocToSheet(doc).Success?
    ensures EditOf(doc, cell, value).Success?
    ensures Applied(doc, EditOf(doc, cell, value).value).Success? <==> Settable(cell, value)
    ensures Settable(cell, value) ==>
              var after := Applied(doc, EditOf(doc, cell, value).value).value;
              && after.kind == doc.kind && after.id == doc.id
              && Carried(value).Success?
              && DocToSheet(after) == Success(WithCell(DocToSheet(doc).value, cell, Carried(value).value))
  {
    hide SetFrom, SheetFrom, SheetExpr, SetExpr, Regular, RegularValue, Carried;
    SetRoundTrip(cell, value);
    CarriedIff(value);
    DecodedSheetRegular(doc.body);
    if Settable(cell, value) {
      var sheet := DocToSheet(doc).value;
      WithCellRegular(sheet, cell, Carried(value).value);
      SheetRoundTrip(WithCell(sheet, cell, Carried(value).value));
    }
  }

  /** Setting a cell and putting back what it held restores a regular sheet, blank cells included. */
  lemma PutBack(sheet: Sheet, cell: CellRef, value: CellValue)
    requires Regular(sheet.cells)
    ensures WithCell(WithCell(sheet, cell, value), cell, CellAt(sheet.cells, cell)) == sheet
  {
    hide RegularValue;
    var before := sheet.cells;
    if cell in before {
      assert RegularCell(cell, before[cell]);
      assert before[cell := value][cell := before[cell]] == before;
      assert (before - {cell})[cell := before[cell]] == before;
    } else {
      assert before - {cell} == before;
      assert before[cell := value] - {cell} == before;
    }
  }

  /** What a cell of a regular sheet holds can always be set again. */
  lemma HeldIsCarried(sheet: Sheet, cell: CellRef)
    requires Regular(sheet.cells)
    ensures Carried(CellAt(sheet.cells, cell)) == Success(CellAt(sheet.cells, cell))
  {
    hide RegularValue;
    if cell in sheet.cells {
      assert RegularCell(cell, sheet.cells[cell]);
      RegularCarried(sheet.cells[cell]);
    }
  }

  /**
   The inverse, applied to any readable document with the edited sheet and the same identity,
   restores the sheet the edit was built for.
   */
  lemma InverseRestores(doc: Doc, cell: CellRef, value: CellValue, later: Doc)
    requires DocToSheet(doc).Success? && Settable(cell, value)
    requires later.kind == doc.kind && later.id == doc.id
    ensures EditOf(doc, cell, value).Success? && Carried(value).Success?
    ensures DocToSheet(later) == Success(WithCell(DocToSheet(doc).value, cell, Carried(value).value)) ==>
              Applied(later, Invert(EditOf(doc, cell, value).value)) ==
              Success(doc.(body := SheetExpr(DocToSheet(doc).value)))
    ensures DocToSheet(doc.(body := SheetExpr(DocToSheet(doc).value))) == DocToSheet(doc)
  {
    hide SetFrom, SheetFrom, SheetExpr, SetExpr, Regular, RegularValue, Carried, WithCell;
    EditAppliesIff(doc, cell, value);
    var sheet := DocToSheet(doc).value;
    DecodedSheetRegular(doc.body);
    SetRoundTrip(cell, CellAt(sheet.cells, cell));
    HeldIsCarried(sheet, cell);
    PutBack(sheet, cell, Carried(value).value);
    SheetRoundTrip(sheet);
    WithCellMeans(WithCell(sheet, cell, Carried(value).value), cell, CellAt(sheet.cells, cell));
  }

  lemma WithCellMeans(sheet: Sheet, cell: CellRef, value: CellValue)
    ensures WithCell(sheet, cell, value) == sheet.(cells := SetCell(sheet.cells, cell, value))
  {
  }

  // ---------------------------------------------------------------- runs of edits

  type Change = (CellRef, CellValue)

  /** Each edit is built for the document as it then is, and applied. */
  ghost function Run(doc: Doc, changes: seq<Change>): Result<(Doc, seq<Edit>), SheetError>
    decreases |changes|
  {
    if changes == [] then Success((doc, []))
    else
      match EditOf(doc, changes[0].0, changes[0].1)
      case Failure(e) => Failure(e)
      case Success(edit) =>
        match Applied(doc, edit)
        case Failure(e) => Failure(e)
        case Success(next) =>
          match Run(next, changes[1..])
          case Failure(e) => Failure(e)
          case Success((after, edits)) => Success((after, [edit] + edits))
  }

  /** The inverses, last edit first. */
  ghost function UndoAll(doc: Doc, edits: seq<Edit>): Result<Doc, SheetError>
    decreases |edits|
  {
    if edits == [] then Success(doc)
    else
      match Applied(doc, Invert(edits[|edits| - 1]))
      case Failure(e) => Failure(e)
      case Success(next) => UndoAll(next, edits[..|edits| - 1])
  }

  lemma {:induction false} UndoFirstLast(doc: Doc, first: Edit, rest: seq<Edit>)
    ensures UndoAll(doc, [first] + rest) ==
            match UndoAll(doc, rest) case Failure(e) => Failure(e) case Success(d) => Applied(d, Invert(first))
    decreases |rest|
  {
    hide Applied;
    var edits := [first] + rest;
    if rest == [] {
      assert edits[..|edits| - 1] == [];
    } else {
      assert edits[|edits| - 1] == rest[|rest| - 1];
      assert edits[..|edits| - 1] == [first] + rest[..|rest| - 1];
      var next := Applied(doc, Invert(rest[|rest| - 1]));
      if next.Success? {
        UndoFirstLast(next.value, first, rest[..|rest| - 1]);
      }
    }
  }

  predicate AllSettable(changes: seq<Change>) {
    forall i :: 0 <= i < |changes| ==> Settable(changes[i].0, changes[i].1)
  }

  /** A run of edits goes through exactly when every change can be set. */
  lemma {:induction false} RunSucceedsIff(doc: Doc, changes: seq<Change>)
    requires DocToSheet(doc).Success?
    ensures Run(doc, changes).Success? <==> AllSettable(changes)
    decreases |changes|
  {
    hide Applied, EditOf, DocToSheet, Settable;
    if changes != [] {
      EditAppliesIff(doc, changes[0].0, changes[0].1);
      var next := Applied(doc, EditOf(doc, changes[0].0, changes[0].1).value);
      if next.Success? {
        RunSucceedsIff(next.value, changes[1..]);
      }
    }
  }

  /**
   For any run of set-cell edits, applying the inverses in reverse order succeeds and restores the
   sheet: every cell as it was, including the blank ones.
   */
  lemma {:induction false} RunIsUndone(doc: Doc, changes: seq<Change>)
    requires DocToSheet(doc).Success? && AllSettable(changes)
    ensures Run(doc, changes).Success?
    ensures var (after, edits) := Run(doc, changes).value;
            var restored := UndoAll(after, edits);
            && |edits| == |changes|
            && restored.Success?
            && restored.value.kind == doc.kind && restored.value.id == doc.id
            && DocToSheet(restored.value) == DocToSheet(doc)
            && (changes != [] ==> restored.value.body == SheetExpr(DocToSheet(doc).value))
    decreases |changes|
  {
    hide Applied, EditOf, DocToSheet, Settable, SheetExpr, Carried;
    RunSucceedsIff(doc, changes);
    if changes != [] {
      var (cell, value) := changes[0];
      EditAppliesIff(doc, cell, value);
      var edit := EditOf(doc, cell, value).value;
      var next := Applied(doc, edit).value;
      RunIsUndone(next, changes[1..]);
      var (after, edits) := Run(next, changes[1..]).value;
      UndoFirstLast(after, edit, edits);
      InverseRestores(doc, cell, value, UndoAll(after, edits).value);
    }
  }
}
