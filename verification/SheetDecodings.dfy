/** Which document expressions are cells, sheets and edits, whoever wrote them. */
module SheetDecodings {
  import opened Wrappers
  import opened CellRefs
  import opened Rationals
  import opened Sheets
  import opened SheetExprs
  import opened SheetEdits

  type Entries = seq<(Expr, Expr)>

  // ---------------------------------------------------------------- fields

  /** The first entry under this plain name holds this value. */
  ghost predicate FirstKeyed(entries: Entries, name: string, value: Expr) {
    exists i :: 0 <= i < |entries| && entries[i] == (Sym(Symbol("", name)), value)
                && forall j :: 0 <= j < i ==> entries[j].0 != Sym(Symbol("", name))
  }

  lemma {:induction false} FieldIff(entries: Entries, name: string)
    ensures forall value :: FirstKeyed(entries, name, value) <==> FieldValue(entries, name) == Success(value)
    ensures FieldValue(entries, name).Failure? ==> FieldValue(entries, name) == Failure(WrongDocBody)
  {
    if entries != [] {
      FieldIff(entries[1..], name);
      forall value
        ensures FirstKeyed(entries, name, value) <==> FieldValue(entries, name) == Success(value)
      {
        FirstKeyedStep(entries, name, value);
      }
    }
  }

  lemma FirstKeyedStep(entries: Entries, name: string, value: Expr)
    requires entries != []
    ensures FirstKeyed(entries, name, value) <==>
              if entries[0].0 == Sym(Symbol("", name)) then entries[0].1 == value
              else FirstKeyed(entries[1..], name, value)
  {
    var key, rest := Sym(Symbol("", name)), entries[1..];
    if entries[0].0 == key {
      assert FirstKeyed(entries, name, value) ==> entries[0] == (key, value);
    } else if FirstKeyed(entries, name, value) {
      var i :| 0 <= i < |entries| && entries[i] == (key, value) && forall j :: 0 <= j < i ==> entries[j].0 != key;
      assert rest[i - 1] == entries[i];
    } else if FirstKeyed(rest, name, value) {
      var i :| 0 <= i < |rest| && rest[i] == (key, value) && forall j :: 0 <= j < i ==> rest[j].0 != key;
      assert entries[i + 1] == rest[i];
      forall j | 0 <= j < i + 1
        ensures entries[j].0 != key
      {
        assert j > 0 ==> rest[j - 1] == entries[j];
      }
    }
  }

  // ---------------------------------------------------------------- values

  /** The fields under a kind that make up a value. */
  ghost predicate Makes(kind: string, entries: Entries, value: CellValue) {
    match value
    case Blank => kind == "office/sheet-blank"
    case Text(text) => kind == "office/sheet-text" && FirstKeyed(entries, "value", Str(text))
    case Number(q) =>
      && kind == "office/sheet-number"
      && exists text :: FirstKeyed(entries, "value", Num(Symbol("numbers", "rational"), text))
                        && RationalFromText(text) == Some(q)
    case Bool(flag) => kind == "office/sheet-bool" && FirstKeyed(entries, "value", Truth(flag))
    case Formula(formula) => kind == "office/sheet-formula" && FirstKeyed(entries, "value", Str(formula))
  }

  lemma MakesIff(kind: string, entries: Entries, value: CellValue)
    ensures Makes(kind, entries, value) <==> ValueOfKind(kind, entries) == Success(value)
  {
    FieldIff(entries, "value");
    hide FirstKeyed, FieldValue, RationalFromText;
    KindsDiffer();
  }

  lemma KindsDiffer()
    ensures "office/sheet-text"[13] != "office/sheet-bool"[13]
    ensures |"office/sheet-blank"| == 18 && |"office/sheet-text"| == 17 && |"office/sheet-number"| == 19
    ensures |"office/sheet-bool"| == 17 && |"office/sheet-formula"| == 20
  {
  }

  /** An expression is a value exactly when its kind and its fields make that value. */
  lemma ValueDecodes(expr: Expr, value: CellValue)
    ensures ValueFrom(expr) == Success(value) <==>
              expr.Map? && exists kind :: FirstKeyed(expr.entries, "kind", Sym(kind))
                                          && Makes(QualifiedText(kind), expr.entries, value)
  {
    if expr.Map? {
      FieldIff(expr.entries, "kind");
      hide FirstKeyed, FieldValue, ValueOfKind, Makes;
      forall kind
        ensures Makes(QualifiedText(kind), expr.entries, value) <==>
                  ValueOfKind(QualifiedText(kind), expr.entries) == Success(value)
      {
        MakesIff(QualifiedText(kind), expr.entries, value);
      }
    }
  }

  // ---------------------------------------------------------------- cells

  ghost predicate CellFieldsAre(entries: Entries, cell: CellRef, value: CellValue) {
    exists text, expr ::
      && FirstKeyed(entries, "cell", Str(text)) && ParseCell(text) == Some(cell)
      && FirstKeyed(entries, "value", expr) && ValueFrom(expr) == Success(value)
  }

  lemma CellFieldsIff(entries: Entries, cell: CellRef, value: CellValue)
    ensures CellFieldsAre(entries, cell, value) <==> CellFields(entries) == Success((cell, value))
  {
    FieldIff(entries, "cell");
    FieldIff(entries, "value");
    hide FirstKeyed, FieldValue, ParseCell, ValueFrom;
  }

  /** An expression is a cell exactly when it names one and holds a value. */
  lemma CellDecodes(expr: Expr, cell: CellRef, value: CellValue)
    ensures CellFrom(expr) == Success((cell, value)) <==> expr.Map? && CellFieldsAre(expr.entries, cell, value)
  {
    if expr.Map? {
      CellFieldsIff(expr.entries, cell, value);
    }
  }

  /** An expression is an edit exactly when it says so, names a cell and holds a value. */
  lemma EditDecodes(expr: Expr, cell: CellRef, value: CellValue)
    ensures SetFrom(expr) == Success((cell, value)) <==>
              && expr.Map?
              && FirstKeyed(expr.entries, "kind", Sym(Symbol("office", "set-cell")))
              && CellFieldsAre(expr.entries, cell, value)
  {
    if expr.Map? {
      FieldIff(expr.entries, "kind");
      CellFieldsIff(expr.entries, cell, value);
    }
    hide FirstKeyed, FieldValue, CellFields, CellFieldsAre;
  }

  // ---------------------------------------------------------------- sheets

  /** The last item that names this cell gives it this value. */
  ghost predicate LastNames(items: seq<Expr>, cell: CellRef, value: CellValue) {
    exists i :: 0 <= i < |items| && CellFrom(items[i]) == Success((cell, value))
                && forall j :: i < j < |items| ==> !Names(items[j], cell)
  }

  predicate Names(item: Expr, cell: CellRef) {
    CellFrom(item).Success? && CellFrom(item).value.0 == cell
  }

  lemma {:induction false} CellsDecode(items: seq<Expr>, into: Cells, cell: CellRef)
    ensures var r := CellsFrom(items, into);
            && (r.Success? <==> forall i :: 0 <= i < |items| ==> CellFrom(items[i]).Success?)
            && (r.Success? ==>
                  if exists i :: 0 <= i < |items| && Names(items[i], cell)
                  then LastNames(items, cell, CellAt(r.value, cell))
                  else CellAt(r.value, cell) == CellAt(into, cell))
    decreases |items|
  {
    hide CellFrom;
    if items != [] && CellFrom(items[0]).Success? {
      var (first, value) := CellFrom(items[0]).value;
      var rest := items[1..];
      CellsDecode(rest, SetCell(into, first, value), cell);
      NamesLater(items, cell);
    }
  }

  lemma NamesLater(items: seq<Expr>, cell: CellRef)
    requires items != []
    ensures forall value :: LastNames(items[1..], cell, value) ==> LastNames(items, cell, value)
    ensures (exists i :: 0 <= i < |items| && Names(items[i], cell)) <==>
              Names(items[0], cell) || exists i :: 0 <= i < |items[1..]| && Names(items[1..][i], cell)
    ensures (forall i :: 0 <= i < |items[1..]| ==> !Names(items[1..][i], cell)) && Names(items[0], cell) ==>
              LastNames(items, cell, CellFrom(items[0]).value.1)
  {
    hide CellFrom;
    var rest := items[1..];
    assert forall i :: 0 <= i < |rest| ==> rest[i] == items[i + 1];
    assert forall i :: 1 <= i < |items| ==> items[i] == rest[i - 1];
    forall value | LastNames(rest, cell, value)
      ensures LastNames(items, cell, value)
    {
      var i :| 0 <= i < |rest| && CellFrom(rest[i]) == Success((cell, value))
               && forall j :: i < j < |rest| ==> !Names(rest[j], cell);
      assert items[i + 1] == rest[i];
    }
  }

  /** The sheet of an expression: its name, and for every cell the last item that names it. */
  lemma SheetDecodes(expr: Expr, cell: CellRef)
    ensures SheetFrom(expr).Success? ==>
              && expr.Map?
              && FirstKeyed(expr.entries, "kind", Sym(Symbol("office", "sheet")))
              && FirstKeyed(expr.entries, "name", Str(SheetFrom(expr).value.name))
              && exists items :: FirstKeyed(expr.entries, "cells", List(items))
                                 && ItemsGive(items, SheetFrom(expr).value.cells, cell)
  {
    if SheetFrom(expr).Success? {
      var entries := expr.entries;
      FieldIff(entries, "kind");
      FieldIff(entries, "name");
      FieldIff(entries, "cells");
      var items := FieldValue(entries, "cells").value.items;
      ItemsDecode(items, cell);
      hide FirstKeyed, FieldValue, CellsFrom, ItemsGive;
    }
  }

  /** Every item is a cell, and the last one that names this cell decides it. */
  ghost predicate ItemsGive(items: seq<Expr>, cells: Cells, cell: CellRef) {
    && (forall i :: 0 <= i < |items| ==> CellFrom(items[i]).Success?)
    && (LastNames(items, cell, CellAt(cells, cell))
        || (CellAt(cells, cell).Blank? && forall i :: 0 <= i < |items| ==> !Names(items[i], cell)))
  }

  lemma ItemsDecode(items: seq<Expr>, cell: CellRef)
    ensures CellsFrom(items, map[]).Success? ==> ItemsGive(items, CellsFrom(items, map[]).value, cell)
  {
    CellsDecode(items, map[], cell);
    hide CellsFrom, CellFrom, LastNames, Names;
  }

  /** Exactly the expressions with the kind, a name and a list of cells are sheets. */
  lemma SheetAcceptedIff(expr: Expr)
    ensures SheetFrom(expr).Success? <==>
              && expr.Map?
              && FirstKeyed(expr.entries, "kind", Sym(Symbol("office", "sheet")))
              && (exists name :: FirstKeyed(expr.entries, "name", Str(name)))
              && exists items :: FirstKeyed(expr.entries, "cells", List(items))
                                 && forall i :: 0 <= i < |items| ==> CellFrom(items[i]).Success?
  {
    if expr.Map? {
      var entries := expr.entries;
      FieldIff(entries, "kind");
      FieldIff(entries, "name");
      FieldIff(entries, "cells");
      hide FirstKeyed, CellFrom;
      if FieldValue(entries, "cells").Success? && FieldValue(entries, "cells").value.List? {
        CellsDecode(FieldValue(entries, "cells").value.items, map[], CellRef(0, 0));
      }
      hide FieldValue, CellsFrom;
    }
  }
}
