/** One HTML `<table>` as the parser hands it to the pipeline. HTML parsing itself is
    not modelled: a table arrives already split into rows and cells, each cell already
    reduced to its stripped text nodes. */
module Markup {
  import opened Wrappers
  import opened Text

  datatype CellKind = Th | Td

  /** A `th` or `td` element; `strings` are its descendant text nodes, each stripped of
      surrounding whitespace, blank ones dropped (BeautifulSoup's `stripped_strings`). */
  datatype Cell = Cell(kind: CellKind, strings: seq<string>)

  /** A `tr` element and its `th`/`td` cells in document order. `markup` stands for the rest
      of its tag structure (attributes, nested tags), so two rows are equal values exactly
      when BeautifulSoup's structural `Tag.__eq__` says they are equal. */
  datatype Row = Row(markup: string, cells: seq<Cell>)

  /** A `table` element: the rows of its first `thead` and of its first `tbody`, when the
      table has one, and all of its `tr` elements in document order. */
  datatype Table = Table(thead: Option<seq<Row>>, tbody: Option<seq<Row>>, rows: seq<Row>)

  /** The `thead` and `tbody` rows are rows of the table. */
  predicate Valid(t: Table) {
    && (t.thead.Some? ==> forall r :: r in t.thead.value ==> r in t.rows)
    && (t.tbody.Some? ==> forall r :: r in t.tbody.value ==> r in t.rows)
  }

  /** `cell.get_text(strip=True)`: the stripped text nodes glued together. */
  function StrippedText(c: Cell): string {
    Concat(c.strings)
  }

  /** `' '.join(cell.stripped_strings)`: the stripped text nodes separated by one space. */
  function SpacedText(c: Cell): string {
    Join(" ", c.strings)
  }

  /** `[c.get_text(strip=True) for c in cells]`. */
  function Texts(cells: seq<Cell>): (r: seq<string>)
    ensures |r| == |cells|
    ensures forall i :: 0 <= i < |cells| ==> r[i] == StrippedText(cells[i])
  {
    if cells == [] then [] else Texts(cells[..|cells| - 1]) + [StrippedText(cells[|cells| - 1])]
  }

  /** The cells of `kind` among `cells`, in order (`find_all('th')` or `find_all('td')`). */
  function KindCells(cells: seq<Cell>, kind: CellKind): (r: seq<Cell>)
    ensures forall c :: c in r ==> c in cells && c.kind == kind
    ensures forall c :: c in cells && c.kind == kind ==> c in r
  {
    if cells == [] then []
    else (if cells[0].kind == kind then [cells[0]] else []) + KindCells(cells[1..], kind)
  }

  /** `find_all('th')`. */
  function ThCells(cells: seq<Cell>): seq<Cell> {
    KindCells(cells, Th)
  }

  /** `find_all('td')`. */
  function TdCells(cells: seq<Cell>): seq<Cell> {
    KindCells(cells, Td)
  }

  /** The positions of the cells of `kind` among `cells`. */
  ghost function KindPositions(cells: seq<Cell>, kind: CellKind): seq<nat> {
    if cells == [] then [] else Consed(cells[0].kind == kind, KindPositions(cells[1..], kind))
  }

  /** `find_all` keeps every cell of the kind once, at its own position and in document
      order, and nothing else. */
  lemma {:induction false} KindCellsSelection(cells: seq<Cell>, kind: CellKind)
    ensures SelectedAt(KindCells(cells, kind), cells, KindPositions(cells, kind))
    ensures forall j :: 0 <= j < |cells| ==> (j in KindPositions(cells, kind) <==> cells[j].kind == kind)
  {
    if cells != [] {
      var tail, keep := cells[1..], cells[0].kind == kind;
      var idx := KindPositions(tail, kind);
      KindCellsSelection(tail, kind);
      assert [cells[0]] + tail == cells;
      assert KindCells(cells, kind) == (if keep then [cells[0]] else []) + KindCells(tail, kind);
      assert KindPositions(cells, kind) == Consed(keep, idx);
      SelectedStep(cells[0], keep, KindCells(tail, kind), tail, idx);
      ConsedMembers(keep, idx);
      forall j | 0 < j < |cells|
        ensures j in KindPositions(cells, kind) <==> cells[j].kind == kind
      {
        assert cells[j] == tail[j - 1];
      }
    }
  }
}
