/** Sparse sheets and the snapshot the formula engine makes of them. */
module Sheets {
  import opened CellRefs
  import opened Evaluation
  import opened Formulas
  import opened Rationals
  import opened Wrappers

  /** A number is a pair of integers; nothing but `ExactNumber::new` puts it in lowest terms. */
  datatype CellValue =
    | Blank
    | Text(text: string)
    | Number(value: Rational)
    | Bool(flag: bool)
    | Formula(formula: string)

  type Cells = map<CellRef, CellValue>

  datatype Sheet = Sheet(name: string, cells: Cells)

  /** Looking up a cell of a sparse sheet. */
  function CellAt(cells: Cells, cell: CellRef): CellValue {
    if cell in cells then cells[cell] else Blank
  }

  /** Assigning blank clears the sparse entry. */
  function SetCell(cells: Cells, cell: CellRef, value: CellValue): Cells {
    if value.Blank? then cells - {cell} else cells[cell := value]
  }

  /** `EngineCellValue::from_cell_value`: blanks vanish, numbers are reduced or refused. */
  function ToContent(value: CellValue): Result<Option<Content>, FormulaFailure> {
    match value
    case Blank => Success(None)
    case Number(q) =>
      (match FromParts(q.num, q.den)
       case None => Failure(InvalidRational(IntText(q.num) + "/" + IntText(q.den)))
       case Some(exact) => Success(Some(NumberCell(exact))))
    case Formula(formula) => Success(Some(FormulaCell(formula)))
    case Text(text) => Success(Some(TextCell(text)))
    case Bool(flag) => Success(Some(BoolCell(flag)))
  }

  predicate Convertible(cells: Cells) {
    forall c :: c in cells ==> ToContent(cells[c]).Success?
  }

  function Snapshot(cells: Cells): Source
    requires Convertible(cells)
  {
    map c | c in cells && ToContent(cells[c]).value.Some? :: ToContent(cells[c]).value.value
  }

  /** The snapshot after one assignment that converts to `content`. */
  function PutContent(src: Source, cell: CellRef, content: Option<Content>): Source {
    match content
    case None => src - {cell}
    case Some(c) => src[cell := c]
  }

  lemma SnapshotOfSetCell(cells: Cells, cell: CellRef, value: CellValue)
    requires Convertible(cells) && ToContent(value).Success?
    ensures Convertible(SetCell(cells, cell, value))
    ensures Snapshot(SetCell(cells, cell, value)) == PutContent(Snapshot(cells), cell, ToContent(value).value)
  {
  }

  lemma ContentExact(value: CellValue)
    ensures var content := ToContent(value);
            content.Success? && content.value.Some? && content.value.value.NumberCell?
            ==> Canonical(content.value.value.value)
  {
    if value.Number? && value.value.den != 0 {
      ReduceDenotes(value.value.num, value.value.den);
    }
  }

  lemma SnapshotExact(cells: Cells)
    requires Convertible(cells)
    ensures ExactSource(Snapshot(cells))
  {
    var src := Snapshot(cells);
    forall c | c in src && src[c].NumberCell?
      ensures Canonical(src[c].value)
    {
      var q := cells[c].value;
      ReduceDenotes(q.num, q.den);
    }
  }
}
