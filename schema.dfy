/** app/schema/routes.py: the local schema inference of `generate_schema_from_table` (its own
    header and data-row rules, one field per header with samples and a guessed type), the
    recovery of JSON from the model's reply, and the gating of the `generate_schema` route. */
module Schema {
  import opened Wrappers
  import opened Text
  import opened Markup
  import opened Recovery
  import App

  // ---------------------------------------------------------------------------
  // Headers and data rows

  /** `[th.get_text(strip=True) for th in soup.find_all('th')]`: every `th`, in document order. */
  function ThTexts(rows: seq<Row>): seq<string> {
    if rows == [] then [] else ThTexts(rows[..|rows| - 1]) + Texts(ThCells(rows[|rows| - 1].cells))
  }

  /** The texts of every `th` if there is one; otherwise the `td` texts of the first `tr`. */
  function SchemaHeaders(t: Table): seq<string> {
    var ths := ThTexts(t.rows);
    if ths != [] then ths
    else if t.rows != [] then Texts(TdCells(t.rows[0].cells))
    else []
  }

  /** `[' '.join(c.stripped_strings) for c in cells]`. */
  function SpacedTexts(cells: seq<Cell>): (r: seq<string>)
    ensures |r| == |cells|
    ensures forall i :: 0 <= i < |cells| ==> r[i] == SpacedText(cells[i])
  {
    if cells == [] then [] else SpacedTexts(cells[..|cells| - 1]) + [SpacedText(cells[|cells| - 1])]
  }

  /** The rows of `trs` that hold a `td`, each as the spaced texts of its `td`s. */
  function TdRows(trs: seq<Row>): seq<seq<string>> {
    if trs == [] then []
    else
      var tds := TdCells(trs[|trs| - 1].cells);
      TdRows(trs[..|trs| - 1]) + (if tds != [] then [SpacedTexts(tds)] else [])
  }

  /** The data rows: every `tr` after the first one (by position) that holds a `td`. */
  function DataRowsOf(rows: seq<Row>): seq<seq<string>> {
    if rows == [] then [] else TdRows(rows[1..])
  }

  /** The positions of the rows of `trs` that hold a `td`. */
  ghost function TdPositions(trs: seq<Row>): seq<nat> {
    if trs == [] then []
    else TdPositions(trs[..|trs| - 1]) + (if TdCells(trs[|trs| - 1].cells) != [] then [|trs| - 1] else [])
  }

  /** The positions in `rows` of the rows that give data rows. */
  ghost function DataPositions(rows: seq<Row>): seq<nat> {
    if rows == [] then [] else Shifted(TdPositions(rows[1..]))
  }

  /** Lines 53-57: the inner loop that fills `row_data`. */
  method SpacedRow(cells: seq<Cell>) returns (rowData: seq<string>)
    ensures rowData == SpacedTexts(cells)
  {
    rowData := [];
    for j := 0 to |cells|
      invariant rowData == SpacedTexts(cells[..j])
    {
      assert cells[..j + 1][..j] == cells[..j];
      rowData := rowData + [SpacedText(cells[j])];
    }
    assert cells[..|cells|] == cells;
  }

  /** Lines 48-59: the loop over the rows after the first that fills `data`. */
  method DataRows(rows: seq<Row>) returns (data: seq<seq<string>>)
    ensures data == DataRowsOf(rows)
  {
    data := [];
    if rows == [] {
      return;
    }
    for k := 1 to |rows|
      invariant data == TdRows(rows[1..k])
    {
      TdRowsStep(rows, k);
      var cells := TdCells(rows[k].cells);
      if cells != [] {
        var rowData := SpacedRow(cells);
        if rowData != [] {
          data := data + [rowData];
        }
      }
    }
    assert rows[1..|rows|] == rows[1..];
  }

  /** One more row adds its `td` texts when it has a `td`, and nothing otherwise. */
  lemma TdRowsSnoc(trs: seq<Row>, tr: Row)
    ensures TdRows(trs + [tr])
            == TdRows(trs) + (if TdCells(tr.cells) != [] then [SpacedTexts(TdCells(tr.cells))] else [])
  {
    assert (trs + [tr])[..|trs|] == trs;
  }

  /** The step of the loop in `DataRows`: row `k` extends the data rows of `rows[1..k]`. */
  lemma TdRowsStep(rows: seq<Row>, k: nat)
    requires 1 <= k < |rows|
    ensures TdRows(rows[1..k + 1])
            == TdRows(rows[1..k]) + (if TdCells(rows[k].cells) != [] then [SpacedTexts(TdCells(rows[k].cells))] else [])
  {
    assert rows[1..k + 1] == rows[1..k] + [rows[k]];
    TdRowsSnoc(rows[1..k], rows[k]);
  }

  // ---------------------------------------------------------------------------
  // Fields

  datatype FieldType = String | Integer | Decimal | TextLong | Link {
    /** The `field_type` string the source stores. */
    function Name(): string {
      match this
      case String => "string"
      case Integer => "integer"
      case Decimal => "decimal"
      case TextLong => "text_long"
      case Link => "link"
    }
  }

  datatype Field = Field(fieldName: string, fieldLabel: string, fieldType: FieldType,
                         required: bool, sampleValues: seq<string>)

  datatype TableStructure = TableStructure(contentTypeName: string, fields: seq<Field>)

  /** `header.lower().replace(' ', '_')`. */
  function MachineName(header: string): string {
    ReplaceChar(Lower(header), ' ', '_')
  }

  /** `[row[i] for row in rows if i < len(row)]`. */
  function ColumnOf(rows: seq<seq<string>>, i: nat): (col: seq<string>)
    ensures |col| <= |rows|
  {
    if rows == [] then [] else (if i < |rows[0]| then [rows[0][i]] else []) + ColumnOf(rows[1..], i)
  }

  /** `[row[i] for row in data[:3] if i < len(row)]`. */
  function SampleValues(data: seq<seq<string>>, i: nat): seq<string> {
    ColumnOf(data[..App.Min(3, |data|)], i)
  }

  predicate AllIntegers(samples: seq<string>) {
    forall v :: v in samples ==> IsDigitString(v)
  }

  predicate AllDecimals(samples: seq<string>) {
    forall v :: v in samples ==> IsDigitString(Delete(v, '.'))
  }

  predicate AllLong(samples: seq<string>) {
    forall v :: v in samples ==> |v| > 100
  }

  predicate AnyLink(samples: seq<string>) {
    exists v :: v in samples && Contains(Lower(v), "<a href")
  }

  /** The type guessed from the samples: the first test that passes, else `string`. */
  function InferredType(samples: seq<string>): FieldType {
    if samples == [] then String
    else if AllIntegers(samples) then Integer
    else if AllDecimals(samples) then Decimal
    else if AllLong(samples) then TextLong
    else if AnyLink(samples) then Link
    else String
  }

  /** Lines 70-92: one field per header, its type first set to `string` and then overwritten
      by the first test its samples pass. */
  method BuildFields(headers: seq<string>, data: seq<seq<string>>) returns (fields: seq<Field>)
    ensures |fields| == |headers|
    ensures forall i :: 0 <= i < |headers| ==>
              && fields[i].fieldName == MachineName(headers[i])
              && fields[i].fieldLabel == headers[i]
              && fields[i].required
              && fields[i].sampleValues == SampleValues(data, i)
              && fields[i].fieldType == InferredType(SampleValues(data, i))
  {
    fields := [];
    for i := 0 to |headers|
      invariant |fields| == i
      invariant forall k :: 0 <= k < i ==>
                  && fields[k].fieldName == MachineName(headers[k])
                  && fields[k].fieldLabel == headers[k]
                  && fields[k].required
                  && fields[k].sampleValues == SampleValues(data, k)
                  && fields[k].fieldType == InferredType(SampleValues(data, k))
    {
      var header := headers[i];
      var field := Field(MachineName(header), header, String, true, SampleValues(data, i));
      var samples := field.sampleValues;
      if samples != [] {
        if AllIntegers(samples) {
          field := field.(fieldType := Integer);
        } else if AllDecimals(samples) {
          field := field.(fieldType := Decimal);
        } else if AllLong(samples) {
          field := field.(fieldType := TextLong);
        } else if AnyLink(samples) {
          field := field.(fieldType := Link);
        }
      }
      fields := fields + [field];
    }
  }

  /** Lines 33-92: headers, data rows and the `table_content` structure built from them. */
  method LocalSchema(t: Table) returns (structure: TableStructure)
    ensures structure.contentTypeName == "table_content"
    ensures |structure.fields| == |SchemaHeaders(t)|
    ensures forall i :: 0 <= i < |structure.fields| ==>
              && structure.fields[i].fieldLabel == SchemaHeaders(t)[i]
              && structure.fields[i].fieldName == MachineName(SchemaHeaders(t)[i])
              && structure.fields[i].required
              && structure.fields[i].sampleValues == SampleValues(DataRowsOf(t.rows), i)
              && structure.fields[i].fieldType == InferredType(SampleValues(DataRowsOf(t.rows), i))
  {
    var headers: seq<string> := [];
    var ths := ThTexts(t.rows);
    if ths != [] {
      headers := ths;
    } else if t.rows != [] {
      headers := Texts(TdCells(t.rows[0].cells));
    }
    var data := DataRows(t.rows);
    var fields := BuildFields(headers, data);
    structure := TableStructure("table_content", fields);
  }

  // ---------------------------------------------------------------------------
  // Recovering the schema from the model's reply

  /** Lines 128-146 from the reply on: `None` for a failed call; the re-serialised JSON when
      the whole reply parses; otherwise the text from the first `{` to the last `}`, which is
      not parsed again; otherwise `None`. `prettyJson` stands for
      `json.dumps(json.loads(text), indent=2)`, `None` when `json.loads` fails. */
  function SchemaFromReply(reply: Option<string>, prettyJson: string -> Option<string>): Option<string> {
    match reply
    case None => None
    case Some(text) =>
      if prettyJson(text).Some? then prettyJson(text)
      else match Search(text, SchemaPattern)
        case Some(m) => Some(text[m.start..m.end])
        case None => None
  }

  // ---------------------------------------------------------------------------
  // The generate_schema route

  datatype HttpMethod = Get | Post

  /** The two session flags the routes read and set, by truthiness. */
  datatype Session = Session(currentTable: bool, currentSchema: bool)

  datatype SchemaView =
    | RedirectToScrapeForm
    | BadRequest(error: string)
    | SchemaErrorPage(error: string)
    | SchemaPage(schema: string, tableHtml: string)

  /** `generate_schema`: the response and the session afterwards. `reply` is the model's
      answer to the prompt built from `tableHtml`. */
  function GenerateSchemaRoute(session: Session, verb: HttpMethod, tableHtml: Option<string>,
                               reply: Option<string>, prettyJson: string -> Option<string>): (r: (SchemaView, Session))
    ensures !session.currentTable || verb.Get? ==> r == (RedirectToScrapeForm, session)
    ensures r.0.BadRequest? <==> session.currentTable && verb.Post? && (tableHtml.None? || tableHtml.value == "")
    ensures r.0.SchemaPage? ==> session.currentTable && verb.Post? && tableHtml.Some? && tableHtml.value != ""
    ensures session.currentTable && verb.Post? && tableHtml.Some? && tableHtml.value != "" && reply.None? ==>
              r == (SchemaErrorPage("Failed to generate schema. Please try again."), session)
    ensures session.currentTable && verb.Post? && tableHtml.Some? && tableHtml.value != "" ==>
              var s := SchemaFromReply(reply, prettyJson);
              r == if s.None? || s.value == "" then
                     (SchemaErrorPage("Failed to generate schema. Please try again."), session)
                   else
                     (SchemaPage(match prettyJson(s.value) case Some(p) => p case None => s.value, tableHtml.value),
                      session.(currentSchema := true))
    ensures r.1.currentTable == session.currentTable
    ensures r.1.currentSchema == (session.currentSchema || r.0.SchemaPage?)
  {
    if !session.currentTable then (RedirectToScrapeForm, session)
    else if verb.Get? then (RedirectToScrapeForm, session)
    else if tableHtml.None? || tableHtml.value == "" then (BadRequest("No table HTML provided"), session)
    else
      var schema := SchemaFromReply(reply, prettyJson);
      if schema.None? || schema.value == "" then
        (SchemaErrorPage("Failed to generate schema. Please try again."), session)
      else
        var pretty := match prettyJson(schema.value) case Some(p) => p case None => schema.value;
        (SchemaPage(pretty, tableHtml.value), session.(currentSchema := true))
  }

  // ---------------------------------------------------------------------------
  // Properties

  /** Each machine name keeps the header's length, lower-cases ASCII letters and turns each
      space into `_`; it therefore holds no space and no upper-case letter. */
  lemma MachineNameShape(header: string)
    ensures |MachineName(header)| == |header|
    ensures forall i :: 0 <= i < |header| ==>
              MachineName(header)[i] == if header[i] == ' ' then '_' else LowerChar(header[i])
    ensures ' ' !in MachineName(header)
    ensures forall c :: c in MachineName(header) ==> !IsUpper(c)
  {
    var n := MachineName(header);
    forall c | c in n
      ensures c != ' ' && !IsUpper(c)
    {
      var i :| 0 <= i < |n| && n[i] == c;
    }
  }

  /** Turning a machine name into a machine name changes nothing. */
  lemma MachineNameIdempotent(header: string)
    ensures MachineName(MachineName(header)) == MachineName(header)
  {
    var n := MachineName(header);
    MachineNameShape(header);
    MachineNameShape(n);
    forall i | 0 <= i < |n|
      ensures MachineName(n)[i] == n[i]
    {
      assert n[i] in n;
    }
  }

  /** Machine names are not unique: `A B` and `a_b` share one. */
  lemma MachineNamesCollide()
    ensures MachineName("A B") == MachineName("a_b") == "a_b"
  {
    var header, lower, name := "A B", "a b", "a_b";
    LowerIs(header, lower);
    ReplaceSpacesIs(lower, name);
    LowerOfLowercase(name);
    ReplaceSpacesIs(name, name);
  }

  /** `Lower(s)` is `t` when `t` is `s` lower-cased character by character. */
  lemma LowerIs(s: string, t: string)
    requires |s| == |t|
    requires forall i :: 0 <= i < |s| ==> t[i] == LowerChar(s[i])
    ensures Lower(s) == t
  {
  }

  /** `ReplaceChar(s, ' ', '_')` is `t` when `t` is `s` with each space turned into `_`. */
  lemma ReplaceSpacesIs(s: string, t: string)
    requires |s| == |t|
    requires forall i :: 0 <= i < |s| ==> t[i] == if s[i] == ' ' then '_' else s[i]
    ensures ReplaceChar(s, ' ', '_') == t
  {
  }

  /** `[row[i] for row in rows if i < len(row)]` holds exactly the `i`-th cells of the rows
      that have one. */
  lemma {:induction false} ColumnOfMembers(rows: seq<seq<string>>, i: nat, v: string)
    ensures v in ColumnOf(rows, i) <==> exists j :: 0 <= j < |rows| && i < |rows[j]| && rows[j][i] == v
  {
    if rows != [] {
      ColumnOfMembers(rows[1..], i, v);
      if v in ColumnOf(rows[1..], i) {
        var j :| 0 <= j < |rows[1..]| && i < |rows[1..][j]| && rows[1..][j][i] == v;
        assert rows[j + 1] == rows[1..][j];
      }
      forall j | 1 <= j < |rows| && i < |rows[j]| && rows[j][i] == v
        ensures v in ColumnOf(rows[1..], i)
      {
        assert rows[1..][j - 1] == rows[j];
      }
    }
  }

  /** When every row is wide enough, the column is the rows' `i`-th cells in order. */
  lemma {:induction false} ColumnOfWide(rows: seq<seq<string>>, i: nat)
    requires forall j :: 0 <= j < |rows| ==> i < |rows[j]|
    ensures |ColumnOf(rows, i)| == |rows|
    ensures forall j :: 0 <= j < |rows| ==> ColumnOf(rows, i)[j] == rows[j][i]
  {
    if rows != [] {
      ColumnOfWide(rows[1..], i);
    }
  }

  /** At most three samples, each the `i`-th cell of one of the first three data rows that
      has one, and every such cell among them. */
  lemma SampleValuesBound(data: seq<seq<string>>, i: nat)
    ensures |SampleValues(data, i)| <= 3
    ensures forall v :: v in SampleValues(data, i) <==>
              exists j :: 0 <= j < App.Min(3, |data|) && i < |data[j]| && data[j][i] == v
  {
    var first := data[..App.Min(3, |data|)];
    forall v
      ensures v in SampleValues(data, i) <==> exists j :: 0 <= j < App.Min(3, |data|) && i < |data[j]| && data[j][i] == v
    {
      ColumnOfMembers(first, i, v);
      assert forall j :: 0 <= j < |first| ==> first[j] == data[j];
    }
  }

  /** Each row of `TdRows(trs)` is the non-empty list of `td` texts of a row of `trs`. */
  lemma {:induction false} TdRowsSound(trs: seq<Row>)
    ensures |TdRows(trs)| <= |trs|
    ensures forall d :: d in TdRows(trs) ==>
              d != [] && exists j :: 0 <= j < |trs| && d == SpacedTexts(TdCells(trs[j].cells))
  {
    if trs != [] {
      var init := trs[..|trs| - 1];
      TdRowsSound(init);
      forall d | d in TdRows(trs)
        ensures d != [] && exists j :: 0 <= j < |trs| && d == SpacedTexts(TdCells(trs[j].cells))
      {
        if d in TdRows(init) {
          var j :| 0 <= j < |init| && d == SpacedTexts(TdCells(init[j].cells));
          assert init[j] == trs[j];
        }
      }
    }
  }

  /** Every row of `trs` that has a `td` gives a row of `TdRows(trs)`. */
  lemma {:induction false} TdRowsComplete(trs: seq<Row>, j: nat)
    requires j < |trs| && TdCells(trs[j].cells) != []
    ensures SpacedTexts(TdCells(trs[j].cells)) in TdRows(trs)
  {
    var init := trs[..|trs| - 1];
    var last := TdCells(trs[|trs| - 1].cells);
    var d := SpacedTexts(TdCells(trs[j].cells));
    var extra := if last != [] then [SpacedTexts(last)] else [];
    assert trs == init + [trs[|trs| - 1]];
    TdRowsSnoc(init, trs[|trs| - 1]);
    if j < |init| {
      TdRowsComplete(init, j);
      assert init[j] == trs[j];
      SeqMemberLeft(d, TdRows(init), extra);
    } else {
      assert extra == [d];
      SeqMemberRight(d, TdRows(init), extra);
    }
  }

  lemma SeqMemberLeft<T>(x: T, a: seq<T>, b: seq<T>)
    requires x in a
    ensures x in a + b
  {
    var i :| 0 <= i < |a| && a[i] == x;
    assert (a + b)[i] == x;
  }

  lemma SeqMemberRight<T>(x: T, a: seq<T>, b: seq<T>)
    requires x in b
    ensures x in a + b
  {
    var i :| 0 <= i < |b| && b[i] == x;
    assert (a + b)[|a| + i] == x;
  }

  /** A row's position is listed exactly when the row holds a `td`; positions only grow. */
  lemma {:induction false} TdPositionsMembers(trs: seq<Row>)
    ensures forall k :: 0 <= k < |TdPositions(trs)| ==> TdPositions(trs)[k] < |trs|
    ensures forall k, l :: 0 <= k < l < |TdPositions(trs)| ==> TdPositions(trs)[k] < TdPositions(trs)[l]
    ensures forall j :: 0 <= j < |trs| ==> (j in TdPositions(trs) <==> TdCells(trs[j].cells) != [])
  {
    if trs != [] {
      var init := trs[..|trs| - 1];
      TdPositionsMembers(init);
      var p := TdPositions(init);
      var has := TdCells(trs[|trs| - 1].cells) != [];
      assert TdPositions(trs) == p + (if has then [|trs| - 1] else []);
      forall j | 0 <= j < |trs|
        ensures j in TdPositions(trs) <==> TdCells(trs[j].cells) != []
      {
        if j < |init| {
          assert init[j] == trs[j];
        } else {
          assert j !in p;
        }
      }
    }
  }

  /** The rows of `TdRows(trs)` are the `td` texts of the rows that hold a `td`, one for
      each such row and in their order. */
  lemma {:induction false} TdRowsSelection(trs: seq<Row>)
    ensures var idx := TdPositions(trs);
            && |idx| == |TdRows(trs)|
            && (forall k :: 0 <= k < |idx| ==>
                  idx[k] < |trs| && TdRows(trs)[k] == SpacedTexts(TdCells(trs[idx[k]].cells)))
            && (forall k, l :: 0 <= k < l < |idx| ==> idx[k] < idx[l])
            && (forall j :: 0 <= j < |trs| ==> (j in idx <==> TdCells(trs[j].cells) != []))
  {
    TdPositionsMembers(trs);
    TdRowsAt(trs);
  }

  /** One data row per listed position, holding that row's `td` texts. */
  lemma {:induction false} TdRowsAt(trs: seq<Row>)
    ensures |TdPositions(trs)| == |TdRows(trs)|
    ensures forall k :: 0 <= k < |TdPositions(trs)| ==>
              TdPositions(trs)[k] < |trs| && TdRows(trs)[k] == SpacedTexts(TdCells(trs[TdPositions(trs)[k]].cells))
  {
    if trs != [] {
      var init, last := trs[..|trs| - 1], trs[|trs| - 1];
      TdRowsAt(init);
      var p := TdPositions(init);
      var has := TdCells(last.cells) != [];
      assert TdRows(trs) == TdRows(init) + (if has then [SpacedTexts(TdCells(last.cells))] else []);
      assert TdPositions(trs) == p + (if has then [|trs| - 1] else []);
      forall k | 0 <= k < |p|
        ensures TdRows(trs)[k] == SpacedTexts(TdCells(trs[p[k]].cells))
      {
        assert init[p[k]] == trs[p[k]];
      }
    }
  }

  /** The data rows are the `td` texts of the rows after the first that hold a `td`: one
      data row for each such row, in the rows' order; the first row never gives one. */
  lemma {:induction false} DataRowsSelection(rows: seq<Row>)
    ensures var idx := DataPositions(rows);
            && |idx| == |DataRowsOf(rows)|
            && (forall k :: 0 <= k < |idx| ==>
                  idx[k] < |rows| && DataRowsOf(rows)[k] == SpacedTexts(TdCells(rows[idx[k]].cells)))
            && (forall k, l :: 0 <= k < l < |idx| ==> idx[k] < idx[l])
            && (forall j :: 0 <= j < |rows| ==> (j in idx <==> 1 <= j && TdCells(rows[j].cells) != []))
  {
    DataRowsAt(rows);
    DataPositionsIncreasing(rows);
    DataPositionsMembers(rows);
  }

  /** One data row per listed position, holding that row's `td` texts. */
  lemma {:induction false} DataRowsAt(rows: seq<Row>)
    ensures |DataPositions(rows)| == |DataRowsOf(rows)|
    ensures forall k :: 0 <= k < |DataPositions(rows)| ==>
              DataPositions(rows)[k] < |rows|
              && DataRowsOf(rows)[k] == SpacedTexts(TdCells(rows[DataPositions(rows)[k]].cells))
  {
    if rows != [] {
      var later := rows[1..];
      var p := TdPositions(later);
      TdRowsAt(later);
      var q := DataPositions(rows);
      assert q == Shifted(p);
      assert DataRowsOf(rows) == TdRows(later);
      forall k | 0 <= k < |q|
        ensures q[k] < |rows| && DataRowsOf(rows)[k] == SpacedTexts(TdCells(rows[q[k]].cells))
      {
        assert q[k] == p[k] + 1;
        assert rows[p[k] + 1] == later[p[k]];
      }
    }
  }

  /** The listed positions only grow. */
  lemma {:induction false} DataPositionsIncreasing(rows: seq<Row>)
    ensures forall k, l :: 0 <= k < l < |DataPositions(rows)| ==> DataPositions(rows)[k] < DataPositions(rows)[l]
  {
    if rows != [] {
      var p := TdPositions(rows[1..]);
      TdPositionsMembers(rows[1..]);
      var q := DataPositions(rows);
      forall k, l | 0 <= k < l < |q|
        ensures q[k] < q[l]
      {
        assert q[k] == p[k] + 1 && q[l] == p[l] + 1;
      }
    }
  }

  /** A row's position is listed exactly when it is not the first and holds a `td`. */
  lemma {:induction false} DataPositionsMembers(rows: seq<Row>)
    ensures forall j :: 0 <= j < |rows| ==> (j in DataPositions(rows) <==> 1 <= j && TdCells(rows[j].cells) != [])
  {
    if rows != [] {
      var later := rows[1..];
      var p := TdPositions(later);
      TdPositionsMembers(later);
      ConsedMembers(false, p);
      assert DataPositions(rows) == Consed(false, p);
      forall j | 0 <= j < |rows|
        ensures j in DataPositions(rows) <==> 1 <= j && TdCells(rows[j].cells) != []
      {
        if j > 0 {
          assert rows[j] == later[j - 1];
        }
      }
    }
  }

  /** The data rows come from the rows after the first, by position: each is the non-empty
      list of `td` texts of a later row, every later row with a `td` gives exactly one, in
      the rows' order, and no row is dropped for its length. */
  lemma {:induction false} DataRowsShape(rows: seq<Row>)
    ensures |DataRowsOf(rows)| < |rows| || rows == []
    ensures var idx := DataPositions(rows);
            && |idx| == |DataRowsOf(rows)|
            && (forall k :: 0 <= k < |idx| ==>
                  idx[k] < |rows| && DataRowsOf(rows)[k] == SpacedTexts(TdCells(rows[idx[k]].cells)))
            && (forall k, l :: 0 <= k < l < |idx| ==> idx[k] < idx[l])
            && (forall j :: 0 <= j < |rows| ==> (j in idx <==> 1 <= j && TdCells(rows[j].cells) != []))
    ensures forall d :: d in DataRowsOf(rows) ==>
              d != [] && exists j :: 1 <= j < |rows| && d == SpacedTexts(TdCells(rows[j].cells))
    ensures forall j :: 1 <= j < |rows| && TdCells(rows[j].cells) != [] ==>
              SpacedTexts(TdCells(rows[j].cells)) in DataRowsOf(rows)
  {
    DataRowsSelection(rows);
    DataRowsMembers(rows);
  }

  /** Each data row is the non-empty `td` text list of a row after the first, and each such
      list occurs. */
  lemma {:induction false} DataRowsMembers(rows: seq<Row>)
    ensures |DataRowsOf(rows)| < |rows| || rows == []
    ensures forall d :: d in DataRowsOf(rows) ==>
              d != [] && exists j :: 1 <= j < |rows| && d == SpacedTexts(TdCells(rows[j].cells))
    ensures forall j :: 1 <= j < |rows| && TdCells(rows[j].cells) != [] ==>
              SpacedTexts(TdCells(rows[j].cells)) in DataRowsOf(rows)
  {
    if rows != [] {
      var later := rows[1..];
      TdRowsSound(later);
      forall j | 1 <= j < |rows| && TdCells(rows[j].cells) != []
        ensures SpacedTexts(TdCells(rows[j].cells)) in DataRowsOf(rows)
      {
        assert rows[j] == later[j - 1];
        TdRowsComplete(later, j - 1);
      }
      forall d | d in DataRowsOf(rows)
        ensures exists j :: 1 <= j < |rows| && d == SpacedTexts(TdCells(rows[j].cells))
      {
        var j :| 0 <= j < |later| && d == SpacedTexts(TdCells(later[j].cells));
        assert rows[j + 1] == later[j];
      }
    }
  }

  /** Only digits and dots, and at least one digit. */
  predicate DigitsAndDots(v: string) {
    (forall c :: c in v ==> IsDigit(c) || c == '.') && (exists c :: c in v && IsDigit(c))
  }

  /** `s.replace('.', '').isdigit()` holds exactly when `s` has only digits and dots and at
      least one digit: any number of dots passes. */
  lemma DeleteDotsIsDigits(v: string)
    ensures IsDigitString(Delete(v, '.')) <==> DigitsAndDots(v)
  {
    var r := Delete(v, '.');
    if IsDigitString(r) {
      forall c | c in v
        ensures IsDigit(c) || c == '.'
      {
        if c != '.' {
          assert c in r;
          var i :| 0 <= i < |r| && r[i] == c;
        }
      }
      assert r[0] in v;
    }
    if DigitsAndDots(v) {
      var c :| c in v && IsDigit(c);
      assert c in r;
      forall i | 0 <= i < |r|
        ensures IsDigit(r[i])
      {
        assert r[i] in v;
      }
    }
  }

  /** A string of digits and dots with a digit that is not all digits has a dot. */
  lemma NonDigitStringHasDot(v: string)
    requires DigitsAndDots(v)
    requires !IsDigitString(v)
    ensures '.' in v
  {
    var c :| c in v && IsDigit(c);
    var i :| 0 <= i < |v| && !IsDigit(v[i]);
    assert v[i] in v;
  }

  /** `decimal` is chosen exactly when every sample is digits and dots with at least one digit
      and some sample has a dot. */
  lemma DecimalMeans(samples: seq<string>)
    ensures InferredType(samples) == Decimal <==>
              && samples != []
              && (forall v :: v in samples ==> DigitsAndDots(v))
              && (exists v :: v in samples && '.' in v)
  {
    forall v | v in samples
      ensures IsDigitString(Delete(v, '.')) <==> DigitsAndDots(v)
    {
      DeleteDotsIsDigits(v);
    }
    if InferredType(samples) == Decimal {
      var v :| v in samples && !IsDigitString(v);
      NonDigitStringHasDot(v);
    }
    if samples != [] && (forall v :: v in samples ==> DigitsAndDots(v))
                     && (exists v :: v in samples && '.' in v) {
      var v :| v in samples && '.' in v;
      var i :| 0 <= i < |v| && v[i] == '.';
      assert !IsDigitString(v);
    }
  }

  /** The worked examples of the type heuristic. */
  lemma IntegerExample()
    ensures InferredType(["1", "2", "3"]) == Integer
  {
  }

  lemma DecimalExample()
    ensures InferredType(["1.5", "2.0"]) == Decimal
  {
    var a, b := "1.5", "2.0";
    assert a[0] == '1' && a[1] == '.' && a[2] == '5';
    assert b[0] == '2' && b[1] == '.' && b[2] == '0';
    DotsAndDigits(a);
    DotsAndDigits(b);
    assert !IsDigitString(a);
  }

  /** A dotted version number is taken for a decimal: any number of dots passes. */
  lemma VersionNumberIsDecimal()
    ensures InferredType(["1.2.3"]) == Decimal
  {
    VersionLiteral();
    DottedNumberIsDecimal("1.2.3", 1);
  }

  /** A string of digits and dots that starts with a digit and holds a dot is typed `decimal`,
      however many dots it holds. */
  lemma DottedNumberIsDecimal(v: string, dot: nat)
    requires |v| > 0 && IsDigit(v[0]) && dot < |v| && v[dot] == '.'
    requires forall i :: 0 <= i < |v| ==> IsDigit(v[i]) || v[i] == '.'
    ensures InferredType([v]) == Decimal
  {
    DotsAndDigits(v);
    assert !AllIntegers([v]) by { assert v in [v]; }
  }

  /** The characters of `1.2.3`: digits and dots, a digit first and a dot second. */
  lemma VersionLiteral()
    ensures var v := "1.2.3";
            && |v| == 5 && IsDigit(v[0]) && v[1] == '.'
            && forall i :: 0 <= i < |v| ==> IsDigit(v[i]) || v[i] == '.'
  {
    var v := "1.2.3";
    assert v[0] == '1' && v[1] == '.' && v[2] == '2' && v[3] == '.' && v[4] == '3';
  }

  /** A string of digits and dots, the first a digit, passes the decimal test. */
  lemma DotsAndDigits(v: string)
    requires |v| > 0 && IsDigit(v[0])
    requires forall i :: 0 <= i < |v| ==> IsDigit(v[i]) || v[i] == '.'
    ensures IsDigitString(Delete(v, '.'))
  {
    DeleteDotsIsDigits(v);
    assert v[0] in v;
  }

  lemma TextLongExample()
    ensures InferredType([seq(101, _ => 'a')]) == TextLong
  {
    var long := seq(101, _ => 'a');
    assert long[0] in long;
    assert long[0] in Delete(long, '.');
    assert !IsDigitString(Delete(long, '.'));
  }

  /** `Lower` leaves a string without upper-case letters unchanged. */
  lemma LowerOfLowercase(s: string)
    requires forall i :: 0 <= i < |s| ==> !IsUpper(s[i])
    ensures Lower(s) == s
  {
  }

  lemma LinkExample()
    ensures InferredType(["<a href=x>"]) == Link
  {
    var link := "<a href=x>";
    LowerOfLink();
    assert "<a href" <= Lower(link);
    AnchorIsLink(link);
  }

  /** A value of at most 100 characters whose first character is neither a digit nor a dot, and
      whose lower-cased text holds `<a href`, is typed `link`. */
  lemma AnchorIsLink(v: string)
    requires 0 < |v| <= 100 && !IsDigit(v[0]) && v[0] != '.'
    requires Contains(Lower(v), "<a href")
    ensures InferredType([v]) == Link
  {
    assert AnyLink([v]) by { assert v in [v]; }
    assert !AllLong([v]) by { assert v in [v]; }
    assert !AllIntegers([v]) by { assert v in [v]; }
    NotDecimal(v, 0);
  }

  /** `<a href=x>` holds no upper-case letter, so lower-casing leaves it unchanged. */
  lemma LowerOfLink()
    ensures Lower("<a href=x>") == "<a href=x>"
  {
    var link := "<a href=x>";
    assert link[0] == '<' && link[1] == 'a' && link[2] == ' ' && link[3] == 'h' && link[4] == 'r'
        && link[5] == 'e' && link[6] == 'f' && link[7] == '=' && link[8] == 'x' && link[9] == '>';
    LowerOfLowercase(link);
  }

  lemma LowerOfUpperLink()
    ensures Lower("<A HREF=x>") == "<a href=x>"
  {
    var upper, link := "<A HREF=x>", "<a href=x>";
    LowerIs(upper, link);
  }

  /** The anchor test ignores case. */
  lemma UpperCaseLinkExample()
    ensures InferredType(["<A HREF=x>"]) == Link
  {
    var upper := "<A HREF=x>";
    LowerOfUpperLink();
    assert "<a href" <= Lower(upper);
    AnchorIsLink(upper);
  }

  lemma StringExample()
    ensures InferredType(["abc"]) == String
    ensures InferredType([]) == String
  {
    var v := "abc";
    assert v[0] == 'a' && v[1] == 'b' && v[2] == 'c';
    LowerOfLowercase(v);
    ContainsLonger(v, "<a href");
    assert !AnyLink([v]) by { assert forall w :: w in [v] ==> w == v; }
    assert !AllLong([v]) by { assert v in [v]; }
    NotDecimal(v, 0);
  }

  /** A sample with a character that is neither a digit nor a dot fails the decimal test. */
  lemma NotDecimal(v: string, i: nat)
    requires i < |v| && !IsDigit(v[i]) && v[i] != '.'
    ensures !AllDecimals([v])
  {
    assert v[i] in v;
    assert v[i] in Delete(v, '.');
  }

  /** A string never contains a longer one. */
  lemma {:induction false} ContainsLonger(s: string, sub: string)
    requires |s| < |sub|
    ensures !Contains(s, sub)
    decreases |s|
  {
    if |s| > 0 {
      ContainsLonger(s[1..], sub);
    }
  }

  /** When the reply does not parse as a whole, the schema is the text from its first `{` to
      its last `}`, present exactly when some `{` comes before some `}`. */
  lemma SchemaRecoveryFirstToLast(text: string, prettyJson: string -> Option<string>)
    requires prettyJson(text).None?
    ensures var r := SchemaFromReply(Some(text), prettyJson);
            && (r.Some? <==> exists p, q :: 0 <= p < q < |text| && text[p] == '{' && text[q] == '}')
            && (r.Some? ==> exists i, j :: 0 <= i < j < |text| && r.value == text[i..j + 1]
                             && text[i] == '{' && text[j] == '}'
                             && (forall k :: 0 <= k < i ==> text[k] != '{')
                             && (forall k :: j < k < |text| ==> text[k] != '}'))
  {
    var found := Search(text, SchemaPattern);
    assert SchemaPattern[0] == Braces;
    if found.Some? {
      var i, j := found.value.start, found.value.end - 1;
      assert MatchAt(text, i, SchemaPattern) == found;
      MatchAtTriesInOrder(text, i, SchemaPattern);
      assert MatchOne(text, i, Braces) == found;
      forall k | 0 <= k < i
        ensures text[k] != '{'
      {
        assert MatchAt(text, k, SchemaPattern).None?;
        MatchAtTriesInOrder(text, k, SchemaPattern);
        assert !Opens(text, k, Braces);
      }
    } else {
      forall p | 0 <= p < |text|
        ensures !Opens(text, p, Braces)
      {
        assert MatchAt(text, p, SchemaPattern).None?;
        MatchAtTriesInOrder(text, p, SchemaPattern);
      }
      assert forall p, q :: 0 <= p < q < |text| && text[p] == '{' && text[q] == '}' ==> Opens(text, p, Braces);
    }
  }

  /** Once past the gate, a reply that does not parse as a whole yields the schema page
      exactly when it holds a `{` before a `}`; the page then shows the text from the first `{`
      to the last `}`, re-indented when that parses, and the session records a schema. */
  lemma SchemaRouteOnUnparsedReply(session: Session, tableHtml: string, text: string,
                                   prettyJson: string -> Option<string>)
    requires session.currentTable && tableHtml != ""
    requires prettyJson(text).None?
    ensures var r := GenerateSchemaRoute(session, Post, Some(tableHtml), Some(text), prettyJson);
            && (r.0.SchemaPage? <==> exists p, q :: 0 <= p < q < |text| && text[p] == '{' && text[q] == '}')
            && (r.0.SchemaErrorPage? <==> !r.0.SchemaPage?)
            && (r.0.SchemaPage? ==> r.0.tableHtml == tableHtml && r.1.currentSchema)
            && (r.0.SchemaPage? ==>
                  exists i, j :: (&& 0 <= i < j < |text| && text[i] == '{' && text[j] == '}'
                                  && (forall k :: 0 <= k < i ==> text[k] != '{')
                                  && (forall k :: j < k < |text| ==> text[k] != '}')
                                  && r.0.schema == (match prettyJson(text[i..j + 1])
                                                    case Some(pretty) => pretty
                                                    case None => text[i..j + 1])))
  {
    SchemaRecoveryFirstToLast(text, prettyJson);
  }

  /** Once past the gate, a reply that parses as a whole to a non-empty serialisation is shown
      on the schema page, serialised a second time, and the session records a schema. */
  lemma ParsedReplyShown(session: Session, tableHtml: string, text: string,
                         prettyJson: string -> Option<string>, p: string)
    requires session.currentTable && tableHtml != ""
    requires prettyJson(text) == Some(p) && p != ""
    ensures GenerateSchemaRoute(session, Post, Some(tableHtml), Some(text), prettyJson)
            == (SchemaPage(match prettyJson(p) case Some(q) => q case None => p, tableHtml),
                session.(currentSchema := true))
  {
    assert SchemaFromReply(Some(text), prettyJson) == Some(p);
  }

  /** The worked example: prose around one object gives back exactly that object. */
  lemma SchemaRecoveryExample(prettyJson: string -> Option<string>)
    requires prettyJson("Here is the schema: {\"a\":1} Thanks!").None?
    ensures SchemaFromReply(Some("Here is the schema: {\"a\":1} Thanks!"), prettyJson) == Some("{\"a\":1}")
  {
    var pre, m, post := "Here is the schema: ", "{\"a\":1}", " Thanks!";
    assert pre + m + post == "Here is the schema: {\"a\":1} Thanks!";
    SearchFinds(pre + m + post, SchemaPattern, 0, pre, m, post);
    assert (pre + m + post)[|pre|..|pre| + |m|] == m;
  }

  /** The match is greedy, not balanced: two objects come back as one span with prose inside. */
  lemma SchemaRecoveryGreedy(prettyJson: string -> Option<string>)
    requires prettyJson("{\"a\":1} and {\"b\":2}").None?
    ensures SchemaFromReply(Some("{\"a\":1} and {\"b\":2}"), prettyJson) == Some("{\"a\":1} and {\"b\":2}")
  {
    var m := "{\"a\":1} and {\"b\":2}";
    assert "" + m + "" == m;
    SearchFinds(m, SchemaPattern, 0, "", m, "");
  }

  /** The th-based header rule of this module and the first-row rule of app.py agree on a
      table whose first row is all `th` and whose other rows are all `td`. */
  lemma {:induction false} ThTextsOfHeaderRow(rows: seq<Row>)
    requires |rows| > 0
    requires forall c :: c in rows[0].cells ==> c.kind == Th
    requires forall j, c :: 1 <= j < |rows| && c in rows[j].cells ==> c.kind == Td
    ensures ThTexts(rows) == Texts(rows[0].cells)
  {
    if |rows| == 1 {
      ThCellsAll(rows[0].cells);
      assert rows[..0] == [];
    } else {
      var init := rows[..|rows| - 1];
      ThTextsOfHeaderRow(init);
      ThCellsNone(rows[|rows| - 1].cells);
    }
  }

  lemma {:induction false} ThCellsAll(cells: seq<Cell>)
    requires forall c :: c in cells ==> c.kind == Th
    ensures ThCells(cells) == cells
  {
    if cells != [] {
      ThCellsAll(cells[1..]);
    }
  }

  lemma {:induction false} ThCellsNone(cells: seq<Cell>)
    requires forall c :: c in cells ==> c.kind == Td
    ensures ThCells(cells) == []
  {
    if cells != [] {
      ThCellsNone(cells[1..]);
    }
  }

  lemma HeadersAgreeOnThHeaderRow(t: Table)
    requires |t.rows| > 0 && t.rows[0].cells != []
    requires forall c :: c in t.rows[0].cells ==> c.kind == Th
    requires forall j, c :: 1 <= j < |t.rows| && c in t.rows[j].cells ==> c.kind == Td
    requires t.thead.None? || t.thead.value == [] || t.thead.value[0] == t.rows[0]
    ensures SchemaHeaders(t) == App.Headers(t)
  {
    ThTextsOfHeaderRow(t.rows);
  }

  /** The two header rules differ once a body row holds a `th`: app.py takes the first row,
      this module takes every `th`, so it gets more headers. */
  lemma HeadersDifferOnRowHeaders(t: Table)
    requires t.thead.None? && |t.rows| == 2
    requires t.rows[0].cells != [] && forall c :: c in t.rows[0].cells ==> c.kind == Th
    requires exists c :: c in t.rows[1].cells && c.kind == Th
    ensures App.Headers(t) == Texts(t.rows[0].cells)
    ensures SchemaHeaders(t) == Texts(t.rows[0].cells) + Texts(ThCells(t.rows[1].cells))
    ensures |SchemaHeaders(t)| > |App.Headers(t)|
  {
    var r0, r1 := t.rows[0], t.rows[1];
    assert t.rows == [r0, r1];
    ThTextsOfTwoRows(r0, r1);
    var c :| c in r1.cells && c.kind == Th;
    assert c in ThCells(r1.cells);
  }

  lemma ThTextsOfTwoRows(r0: Row, r1: Row)
    requires forall c :: c in r0.cells ==> c.kind == Th
    ensures ThTexts([r0, r1]) == Texts(r0.cells) + Texts(ThCells(r1.cells))
  {
    var first := ThTexts([r0]);
    assert first == Texts(r0.cells) by {
      ThTextsSnoc([], r0);
      assert [] + [r0] == [r0];
      ThCellsAll(r0.cells);
    }
    assert ThTexts([r0, r1]) == first + Texts(ThCells(r1.cells)) by {
      ThTextsSnoc([r0], r1);
      assert [r0] + [r1] == [r0, r1];
    }
  }

  /** One more row adds the texts of its `th` cells. */
  lemma ThTextsSnoc(rows: seq<Row>, r: Row)
    ensures ThTexts(rows + [r]) == ThTexts(rows) + Texts(ThCells(r.cells))
  {
    assert (rows + [r])[..|rows|] == rows;
  }
}
