/** The table normaliser of app.py (`html_table_to_dataframe`), the preview selection of
    the `scrape` route and the lookup of the `extract_table` route. A DataFrame is modelled
    by the header list and the rows handed to pandas. */
module App {
  import opened Wrappers
  import opened Text
  import opened Markup

  /** A normalised table: column headers and rows of cell texts. */
  datatype Frame = Frame(headers: seq<string>, rows: seq<seq<string>>)

  function Min(a: nat, b: nat): nat {
    if a <= b then a else b
  }

  /** `[c.get_text(strip=True) for c in tr.find_all(['th', 'td'])]`. */
  function CellTexts(tr: Row): (r: seq<string>)
    ensures |r| == |tr.cells|
  {
    Texts(tr.cells)
  }

  // ---------------------------------------------------------------------------
  // Headers

  /** The texts of the first `tr` of the `thead`, or nothing. */
  function TheadHeaders(t: Table): seq<string> {
    if t.thead.Some? && |t.thead.value| > 0 then CellTexts(t.thead.value[0]) else []
  }

  /** The texts of the first `tr` of the table, or nothing. */
  function FirstRowHeaders(t: Table): seq<string> {
    if |t.rows| > 0 then CellTexts(t.rows[0]) else []
  }

  /** The largest number of cells in any row, 0 for no rows. */
  function MaxWidth(rows: seq<Row>): (m: nat)
    ensures forall r :: r in rows ==> |r.cells| <= m
    ensures m == 0 || exists r :: r in rows && |r.cells| == m
  {
    if rows == [] then 0
    else
      var init := rows[..|rows| - 1];
      var m := MaxWidth(init);
      var c := |rows[|rows| - 1].cells|;
      assert forall r :: r in rows ==> r in init || r == rows[|rows| - 1];
      if m >= c then m else c
  }

  /** `['Column 1', ..., 'Column n']`. */
  function ColumnNames(n: nat): (names: seq<string>)
    ensures |names| == n
  {
    seq(n, k requires 0 <= k => "Column " + NatToString(k + 1))
  }

  /** The header list: the `thead`'s first row if that gives any, else the table's first row
      if that gives any, else as many synthetic names as the widest row has cells. */
  function Headers(t: Table): seq<string> {
    if TheadHeaders(t) != [] then TheadHeaders(t)
    else if FirstRowHeaders(t) != [] then FirstRowHeaders(t)
    else ColumnNames(MaxWidth(t.rows))
  }

  // ---------------------------------------------------------------------------
  // Rows

  /** The rows the loop visits: the `tbody`'s if the table has one, else all of them. */
  function Candidates(t: Table): seq<Row> {
    if t.tbody.Some? then t.tbody.value else t.rows
  }

  /** Without a `tbody`, a row that equals the table's first `tr` (as a tag) and whose cell
      texts equal the headers is taken for the header row and skipped. */
  predicate SkippedAsHeader(t: Table, headers: seq<string>, tr: Row) {
    t.tbody.None? && |t.rows| > 0 && tr == t.rows[0] && headers == CellTexts(tr)
  }

  /** A candidate row is kept when it is not skipped and has exactly one cell per header. */
  predicate Kept(t: Table, headers: seq<string>, tr: Row) {
    !SkippedAsHeader(t, headers, tr) && |tr.cells| > 0 && |tr.cells| == |headers|
  }

  /** The cell texts of the kept rows among `trs`, in order. */
  function KeptRows(t: Table, headers: seq<string>, trs: seq<Row>): seq<seq<string>> {
    if trs == [] then []
    else
      var tr := trs[|trs| - 1];
      KeptRows(t, headers, trs[..|trs| - 1]) + (if Kept(t, headers, tr) then [CellTexts(tr)] else [])
  }

  /** The positions of the kept rows among `trs`. */
  ghost function KeptIndices(t: Table, headers: seq<string>, trs: seq<Row>): seq<nat> {
    if trs == [] then []
    else KeptIndices(t, headers, trs[..|trs| - 1]) + (if Kept(t, headers, trs[|trs| - 1]) then [|trs| - 1] else [])
  }

  /** What `html_table_to_dataframe` hands to pandas. */
  function Normalize(t: Table): Frame {
    var headers := Headers(t);
    Frame(headers, KeptRows(t, headers, Candidates(t)))
  }

  /** `DataFrame.empty`: no rows or no columns. */
  predicate IsEmpty(df: Frame) {
    |df.rows| == 0 || |df.headers| == 0
  }

  /** `df.head()`: the first five rows under the same headers. */
  function Head(df: Frame): (p: Frame)
    ensures p.headers == df.headers
    ensures p.rows <= df.rows && |p.rows| == Min(5, |df.rows|)
  {
    Frame(df.headers, df.rows[..Min(5, |df.rows|)])
  }

  // ---------------------------------------------------------------------------
  // The imperative code

  /** The `max_cols` loop. */
  method MaxColumns(rows: seq<Row>) returns (maxCols: nat)
    ensures maxCols == MaxWidth(rows)
    ensures forall r :: r in rows ==> |r.cells| <= maxCols
  {
    maxCols := 0;
    for k := 0 to |rows|
      invariant maxCols == MaxWidth(rows[..k])
    {
      var cols := |rows[k].cells|;
      assert rows[..k + 1][..k] == rows[..k];
      maxCols := if maxCols >= cols then maxCols else cols;
    }
    assert rows[..|rows|] == rows;
  }

  /** Lines 36-58 of `html_table_to_dataframe`: the header fallback chain. */
  method FindHeaders(t: Table) returns (headers: seq<string>)
    ensures headers == Headers(t)
  {
    headers := [];
    if t.thead.Some? {
      if |t.thead.value| > 0 {
        headers := CellTexts(t.thead.value[0]);
      }
    }
    if headers == [] {
      if |t.rows| > 0 {
        headers := CellTexts(t.rows[0]);
      }
    }
    if headers == [] {
      var maxCols := MaxColumns(t.rows);
      headers := ColumnNames(maxCols);
    }
  }

  /** Lines 60-72 of `html_table_to_dataframe`: the row loop. */
  method CollectRows(t: Table, headers: seq<string>) returns (rows: seq<seq<string>>)
    ensures rows == KeptRows(t, headers, Candidates(t))
  {
    var container := if t.tbody.Some? then t.tbody.value else t.rows;
    rows := [];
    for k := 0 to |container|
      invariant rows == KeptRows(t, headers, container[..k])
    {
      var tr := container[k];
      assert container[..k + 1][..k] == container[..k];
      if t.tbody.None? && |t.rows| > 0 && tr == t.rows[0] && headers == CellTexts(tr) {
        continue;
      }
      var row := CellTexts(tr);
      if |row| > 0 && |row| == |headers| {
        rows := rows + [row];
      }
    }
    assert container[..|container|] == container;
  }

  /** `html_table_to_dataframe`: the headers, then the rows that fit them. */
  method HtmlTableToDataframe(t: Table) returns (df: Frame)
    ensures df == Normalize(t)
    ensures forall row :: row in df.rows ==> |row| > 0 && |row| == |df.headers|
  {
    var headers := FindHeaders(t);
    var rows := CollectRows(t, headers);
    df := Frame(headers, rows);
    NormalizeRectangular(t);
  }

  /** The preview loop of `scrape`: table `i` gets a preview exactly when it normalises to a
      non-empty frame, and the preview is that frame's first five rows. */
  method TablePreviews(tables: seq<Table>) returns (previews: map<nat, Frame>)
    ensures forall i: nat :: i in previews <==> i < |tables| && Normalize(tables[i]).rows != []
    ensures forall i: nat :: i in previews ==> previews[i] == Head(Normalize(tables[i]))
  {
    previews := map[];
    for i := 0 to |tables|
      invariant forall k: nat :: k in previews <==> k < i && Normalize(tables[k]).rows != []
      invariant forall k: nat :: k in previews ==> previews[k] == Head(Normalize(tables[k]))
    {
      var df := HtmlTableToDataframe(tables[i]);
      EmptyIffNoRows(tables[i]);
      ghost var before := previews;
      if !IsEmpty(df) {
        previews := previews[i := Head(df)];
      }
      forall k: nat
        ensures k in previews <==> k < i + 1 && Normalize(tables[k]).rows != []
      {
        if k != i {
          assert k in previews <==> k in before;
        }
      }
    }
  }

  // ---------------------------------------------------------------------------
  // extract_table

  /** A CSV download: the table and its attachment name. */
  datatype Download = Download(frame: Frame, filename: string)

  const TableNotFound := "Error extracting table: Table not found"
  const IndexOutOfRange := "Error extracting table: list index out of range"

  /** The lookup of `extract_table` after the page has been parsed into `tables`. The guard
      rejects only indices at or past the end; a negative index then selects from the end as
      Python lists do, and one below `-len(tables)` raises IndexError. */
  function ExtractTable(tables: seq<Table>, index: int): (r: Result<Download, string>)
    ensures r == Err(TableNotFound) <==> |tables| == 0 || index >= |tables|
    ensures r.Ok? <==> -|tables| <= index < |tables|
    ensures r.Ok? ==> r.value.frame == Normalize(tables[if index < 0 then index + |tables| else index])
    ensures r.Ok? ==> r.value.filename == "table_" + IntToString(index) + ".csv"
    ensures 0 < |tables| && index < -|tables| ==> r == Err(IndexOutOfRange)
  {
    if |tables| == 0 || index >= |tables| then Err(TableNotFound)
    else if index < -|tables| then Err(IndexOutOfRange)
    else
      var selected := tables[if index < 0 then index + |tables| else index];
      Ok(Download(Normalize(selected), "table_" + IntToString(index) + ".csv"))
  }

  // ---------------------------------------------------------------------------
  // Properties

  /** Every kept row is non-empty and has one cell per header. */
  lemma {:induction false} KeptRowsRectangular(t: Table, headers: seq<string>, trs: seq<Row>)
    ensures forall row :: row in KeptRows(t, headers, trs) ==> |row| > 0 && |row| == |headers|
  {
    if trs != [] {
      KeptRowsRectangular(t, headers, trs[..|trs| - 1]);
    }
  }

  /** Normalised rows are never padded or truncated: each has exactly one cell per header. */
  lemma NormalizeRectangular(t: Table)
    ensures forall row :: row in Normalize(t).rows ==> |row| > 0 && |row| == |Normalize(t).headers|
  {
    KeptRowsRectangular(t, Headers(t), Candidates(t));
  }

  /** The output rows are exactly the kept candidates, in their source order. */
  lemma {:induction false} KeptRowsSelection(t: Table, headers: seq<string>, trs: seq<Row>)
    ensures var idx := KeptIndices(t, headers, trs);
            && |idx| == |KeptRows(t, headers, trs)|
            && (forall k :: 0 <= k < |idx| ==>
                  idx[k] < |trs| && KeptRows(t, headers, trs)[k] == CellTexts(trs[idx[k]]))
            && (forall k, l :: 0 <= k < l < |idx| ==> idx[k] < idx[l])
            && (forall j :: 0 <= j < |trs| ==> (j in idx <==> Kept(t, headers, trs[j])))
  {
    if trs != [] {
      var init := trs[..|trs| - 1];
      KeptRowsSelection(t, headers, init);
      assert forall j :: 0 <= j < |init| ==> init[j] == trs[j];
    }
  }

  /** Without a `thead` or a `tbody`, the first row gives the headers, and so every later
      row equal to it as a tag never comes out: the skip compares the tag, not the
      position. */
  lemma RepeatedHeaderRowSkipped(t: Table, j: nat)
    requires t.thead.None? && t.tbody.None?
    requires 0 < j < |t.rows| && t.rows[j] == t.rows[0] && t.rows[0].cells != []
    ensures Headers(t) == CellTexts(t.rows[0])
    ensures j !in KeptIndices(t, Headers(t), Candidates(t))
  {
    var h, trs := Headers(t), Candidates(t);
    KeptRowsSelection(t, h, trs);
    var idx := KeptIndices(t, h, trs);
    assert !Kept(t, h, trs[j]);
  }

  /** With a `tbody` whose rows all have one cell per header, every one of them comes out,
      unchanged and in order: no `tbody` row is ever skipped as a header. */
  lemma TbodyRowsAllKept(t: Table, trs: seq<Row>)
    requires t.tbody.Some?
    requires forall tr :: tr in trs ==> 0 < |tr.cells| == |Headers(t)|
    ensures |KeptRows(t, Headers(t), trs)| == |trs|
    ensures forall k :: 0 <= k < |trs| ==> KeptRows(t, Headers(t), trs)[k] == CellTexts(trs[k])
  {
    WideRowsKept(t, Headers(t), trs);
  }

  /** With a `tbody`, rows with one cell per header all come out, unchanged and in order. */
  lemma {:induction false} WideRowsKept(t: Table, headers: seq<string>, trs: seq<Row>)
    requires t.tbody.Some?
    requires forall tr :: tr in trs ==> 0 < |tr.cells| == |headers|
    ensures |KeptRows(t, headers, trs)| == |trs|
    ensures forall k :: 0 <= k < |trs| ==> KeptRows(t, headers, trs)[k] == CellTexts(trs[k])
  {
    if trs != [] {
      var init, last := trs[..|trs| - 1], trs[|trs| - 1];
      assert forall tr :: tr in init ==> tr in trs;
      WideRowsKept(t, headers, init);
      assert last in trs;
      assert KeptRows(t, headers, trs) == KeptRows(t, headers, init) + [CellTexts(last)];
      forall k | 0 <= k < |trs|
        ensures KeptRows(t, headers, trs)[k] == CellTexts(trs[k])
      {
        if k < |init| {
          assert init[k] == trs[k];
        }
      }
    }
  }

  /** A normalised frame is empty exactly when it has no rows. */
  lemma EmptyIffNoRows(t: Table)
    ensures IsEmpty(Normalize(t)) <==> Normalize(t).rows == []
  {
    NormalizeRectangular(t);
    var df := Normalize(t);
    if df.rows != [] {
      assert df.rows[0] in df.rows;
    }
  }

  /** Synthetic names are pairwise different. */
  lemma ColumnNamesDistinct(n: nat)
    ensures forall j, k :: 0 <= j < k < n ==> ColumnNames(n)[j] != ColumnNames(n)[k]
  {
    forall j, k | 0 <= j < k < n
      ensures ColumnNames(n)[j] != ColumnNames(n)[k]
    {
      var prefix := "Column ";
      if ColumnNames(n)[j] == ColumnNames(n)[k] {
        assert ColumnNames(n)[j][|prefix|..] == NatToString(j + 1);
        assert ColumnNames(n)[k][|prefix|..] == NatToString(k + 1);
        NatToStringInjective(j + 1, k + 1);
      }
    }
  }

  /** When neither the `thead` nor the first row yields a header, the headers are
      `Column 1` ... `Column N`, N being the largest cell count of any row. */
  lemma SyntheticHeaders(t: Table)
    requires TheadHeaders(t) == [] && FirstRowHeaders(t) == []
    ensures forall r :: r in t.rows ==> |r.cells| <= |Headers(t)|
    ensures |Headers(t)| == 0 || exists r :: r in t.rows && |r.cells| == |Headers(t)|
    ensures forall k :: 0 <= k < |Headers(t)| ==> Headers(t)[k] == "Column " + NatToString(k + 1)
    ensures forall j, k :: 0 <= j < k < |Headers(t)| ==> Headers(t)[j] != Headers(t)[k]
  {
    ColumnNamesDistinct(MaxWidth(t.rows));
  }

  /** There are no headers exactly when no row has a cell, and then no row comes out. */
  lemma NoHeadersIffNoCells(t: Table)
    requires Valid(t)
    ensures Headers(t) == [] <==> forall r :: r in t.rows ==> r.cells == []
    ensures Headers(t) == [] ==> Normalize(t).rows == []
  {
    if TheadHeaders(t) != [] {
      assert t.thead.value[0] in t.rows;
    } else if FirstRowHeaders(t) != [] {
      assert t.rows[0] in t.rows;
    }
    NormalizeRectangular(t);
    if Normalize(t).rows != [] {
      assert Normalize(t).rows[0] in Normalize(t).rows;
    }
  }

  /** Different indices never share an attachment name. */
  lemma ExtractFilenamesDistinct(tables: seq<Table>, i: int, j: int)
    requires ExtractTable(tables, i).Ok? && ExtractTable(tables, j).Ok?
    requires ExtractTable(tables, i).value.filename == ExtractTable(tables, j).value.filename
    ensures i == j
  {
    var a, b := IntToString(i), IntToString(j);
    assert "table_" + a + ".csv" == "table_" + b + ".csv";
    assert a == ("table_" + a + ".csv")[6..6 + |a|];
    assert |a| == |b|;
    assert b == ("table_" + b + ".csv")[6..6 + |b|];
    IntToStringInjective(i, j);
  }

  /** A negative index is accepted: `-1` selects the last table and names it `table_-1.csv`. */
  lemma NegativeIndexAccepted(tables: seq<Table>)
    requires |tables| > 0
    ensures ExtractTable(tables, -1) == Ok(Download(Normalize(tables[|tables| - 1]), "table_-1.csv"))
  {
    assert NatToString(1) == "1";
    assert IntToString(-1) == "-1";
    assert "table_" + "-1" + ".csv" == "table_-1.csv";
  }
}
