/** The order of cell references, which ordered maps of cells are iterated in. */
module CellOrder {
  import opened CellRefs

  /** The order of cell references: by column, then by row. */
  predicate CellBefore(a: CellRef, b: CellRef) {
    a.column < b.column || (a.column == b.column && a.row < b.row)
  }

  predicate FirstCell(c: CellRef, cells: set<CellRef>) {
    c in cells && forall x :: x in cells && x != c ==> CellBefore(c, x)
  }

  lemma {:induction false} FirstCellExists(cells: set<CellRef>)
    requires cells != {}
    ensures exists c :: FirstCell(c, cells)
    decreases |cells|
  {
    var x :| x in cells;
    var rest := cells - {x};
    assert cells == rest + {x};
    if rest == {} {
      assert FirstCell(x, cells);
    } else {
      FirstCellExists(rest);
      var c :| FirstCell(c, rest);
      assert FirstCell(if CellBefore(x, c) then x else c, cells);
    }
  }

  /** The cells of a set, first to last. */
  ghost function InOrder(cells: set<CellRef>): seq<CellRef>
    decreases |cells|
  {
    if cells == {} then []
    else
      FirstCellExists(cells);
      var first :| FirstCell(first, cells);
      [first] + InOrder(cells - {first})
  }

  lemma {:induction false} InOrderMembers(cells: set<CellRef>)
    ensures forall c :: c in InOrder(cells) <==> c in cells
    decreases |cells|
  {
    hide FirstCell, CellBefore;
    if cells != {} {
      var first, rest := InOrder(cells)[0], InOrder(cells)[1..];
      InOrderStep(cells);
      InOrderMembers(cells - {first});
      hide InOrder;
      assert InOrder(cells) == [first] + rest;
    }
  }

  lemma InOrderStep(cells: set<CellRef>)
    requires cells != {}
    ensures InOrder(cells) != [] && FirstCell(InOrder(cells)[0], cells)
    ensures InOrder(cells)[0] in cells
    ensures InOrder(cells)[1..] == InOrder(cells - {InOrder(cells)[0]})
  {
  }

  /** The first cell of a set is where its enumeration starts. */
  lemma InOrderFirst(cells: set<CellRef>, c: CellRef)
    requires FirstCell(c, cells)
    ensures InOrder(cells) != [] && InOrder(cells)[0] == c && InOrder(cells)[1..] == InOrder(cells - {c})
  {
    InOrderStep(cells);
  }

  /** The enumeration goes column by column, and down each column. */
  lemma {:induction false} InOrderAscends(cells: set<CellRef>)
    ensures var order := InOrder(cells);
            forall i, j :: 0 <= i < j < |order| ==>
              order[i].column < order[j].column
              || (order[i].column == order[j].column && order[i].row < order[j].row)
    decreases |cells|
  {
    if cells != {} {
      var first, rest := InOrder(cells)[0], InOrder(cells)[1..];
      InOrderStep(cells);
      InOrderMembers(cells - {first});
      InOrderAscends(cells - {first});
      forall j | 0 <= j < |rest|
        ensures CellBefore(first, rest[j])
      {
        assert rest[j] in InOrder(cells - {first});
      }
      hide InOrder;
      assert InOrder(cells) == [first] + rest;
    }
  }
}
