/** app/extract/routes.py: the `extract_content` route. It checks its two form fields, builds
    the extraction prompt, cuts the JSON out of the model's reply and pretty-prints it. As
    written, the module never imports `json`, so once the model has answered, every request
    ends in the route's catch-all error; `ExtractContentAsWritten` models that, and
    `ExtractContent` models the evidently intended route. */
module Extract {
  import opened Wrappers
  import opened Text
  import opened Recovery

  /** The two kinds of response: the rendered `extract/extract.html` page, or a JSON error
      body `{"error": ...}` with its HTTP status. */
  datatype ExtractView = ExtractPage(content: string) | JsonError(status: nat, error: string)

  const MissingInput := "Missing schema or table HTML"
  const ErrorPrefix := "Error extracting content: "

  /** `str(e)` of the `NameError` raised by the first use of the unimported `json`. */
  const JsonUndefined := "name 'json' is not defined"

  // ---------------------------------------------------------------------------
  // The prompt

  const PromptHead := "Based on the following Schema and html table, \nextract ALL content from the table and convert it to json. \nDo not truncate or summarize the data - include every row from the table.\nReturn the complete dataset as valid JSON that matches the schema structure.\n\nSchema:\n"
  const PromptMiddle := "\n\nHTML Table:\n"
  const PromptTail := "\n\nImportant: Return the complete JSON for all rows. Do not use ellipsis (...) or truncate the data."

  /** `head + schema + middle + table + tail`, each part at its own offset. */
  function Fill(head: string, schema: string, middle: string, table: string, tail: string): (p: string)
    ensures |p| == |head| + |schema| + |middle| + |table| + |tail|
    ensures head <= p
    ensures p[|head|..|head| + |schema|] == schema
    ensures p[|head| + |schema|..|head| + |schema| + |middle|] == middle
    ensures p[|head| + |schema| + |middle|..|p| - |tail|] == table
    ensures p[|p| - |tail|..] == tail
  {
    head + schema + middle + table + tail
  }

  /** Lines 14-25: the f-string sent to the model, the fixed instructions with the schema and
      the table HTML inserted verbatim at fixed offsets between them. */
  function Prompt(schema: string, tableHtml: string): (p: string)
    ensures |p| == |PromptHead| + |schema| + |PromptMiddle| + |tableHtml| + |PromptTail|
    ensures PromptHead <= p
    ensures p[|PromptHead|..|PromptHead| + |schema|] == schema
    ensures p[|PromptHead| + |schema|..|PromptHead| + |schema| + |PromptMiddle|] == PromptMiddle
    ensures p[|p| - |PromptTail| - |tableHtml|..|p| - |PromptTail|] == tableHtml
    ensures p[|p| - |PromptTail|..] == PromptTail
  {
    Fill(PromptHead, schema, PromptMiddle, tableHtml, PromptTail)
  }

  /** The prompt and the length of the schema determine both inputs. */
  lemma PromptDeterminesInputs(schema1: string, table1: string, schema2: string, table2: string)
    requires Prompt(schema1, table1) == Prompt(schema2, table2)
    requires |schema1| == |schema2|
    ensures schema1 == schema2 && table1 == table2
  {
    var p := Prompt(schema1, table1);
    var h, m, t := |PromptHead|, |PromptMiddle|, |PromptTail|;
    assert schema1 == p[h..h + |schema1|];
    assert table1 == p[h + |schema1| + m..|p| - t];
  }

  // ---------------------------------------------------------------------------
  // Recovering the JSON from the reply

  /** A `{` before a `}`, or a `[` before a `]`. */
  predicate Pairs(open: char, close: char) {
    (open == '{' && close == '}') || (open == '[' && close == ']')
  }

  /** The opener at `p` has its closer somewhere after it. */
  predicate StartsPair(s: string, p: nat)
    requires p < |s|
  {
    exists q :: p < q < |s| && Pairs(s[p], s[q])
  }

  /** Lines 43-45: `re.search(r'\{[\s\S]*\}|\[[\s\S]*\]', content)` and, on a match, the
      matched text in place of the reply. The match starts at the leftmost `{` or `[` whose
      closer occurs later and runs to the last such closer in the whole reply; without one
      the reply is kept as it is. */
  function RecoverContent(content: string): (r: string)
    ensures (exists p :: 0 <= p < |content| && StartsPair(content, p)) ==>
              exists i, j :: 0 <= i < j < |content| && r == content[i..j + 1]
                             && Pairs(content[i], content[j])
                             && (forall k :: 0 <= k < i ==> !StartsPair(content, k))
                             && (forall k :: j < k < |content| ==> content[k] != content[j])
    ensures (forall p :: 0 <= p < |content| ==> !StartsPair(content, p)) ==> r == content
  {
    match Search(content, ExtractPattern)
    case Some(m) =>
      RecoveredSpan(content, m);
      content[m.start..m.end]
    case None =>
      NoMatchNoPair(content);
      content
  }

  /** A match at `p` exists exactly when a pair starts at `p`. */
  lemma MatchIffPair(s: string, p: nat)
    requires p < |s|
    ensures MatchAt(s, p, ExtractPattern).Some? <==> StartsPair(s, p)
  {
    MatchAtTriesInOrder(s, p, ExtractPattern);
    assert ExtractPattern[0] == Braces && ExtractPattern[1] == Brackets;
    if StartsPair(s, p) {
      var q :| p < q < |s| && Pairs(s[p], s[q]);
      if s[p] == '{' {
        assert Opens(s, p, ExtractPattern[0]);
      } else {
        assert Opens(s, p, ExtractPattern[1]);
      }
    }
    if MatchAt(s, p, ExtractPattern).Some? {
      var a :| 0 <= a < 2 && Opens(s, p, ExtractPattern[a]);
      var q :| p < q < |s| && s[q] == ExtractPattern[a].close;
      assert Pairs(s[p], s[q]);
    }
  }

  lemma RecoveredSpan(content: string, m: Span)
    requires Search(content, ExtractPattern) == Some(m)
    ensures 0 <= m.start < m.end - 1 < |content|
    ensures Pairs(content[m.start], content[m.end - 1])
    ensures StartsPair(content, m.start)
    ensures forall k :: 0 <= k < m.start ==> !StartsPair(content, k)
    ensures forall k :: m.end - 1 < k < |content| ==> content[k] != content[m.end - 1]
  {
    var i := m.start;
    assert MatchAt(content, i, ExtractPattern) == Some(m);
    MatchAtTriesInOrder(content, i, ExtractPattern);
    var a :| 0 <= a < |ExtractPattern| && Some(m) == MatchOne(content, i, ExtractPattern[a]);
    assert ExtractPattern[a] == Braces || ExtractPattern[a] == Brackets;
    forall k | 0 <= k < i
      ensures !StartsPair(content, k)
    {
      MatchIffPair(content, k);
    }
  }

  lemma NoMatchNoPair(content: string)
    requires Search(content, ExtractPattern).None?
    ensures forall p :: 0 <= p < |content| ==> !StartsPair(content, p)
  {
    forall p | 0 <= p < |content|
      ensures !StartsPair(content, p)
    {
      MatchIffPair(content, p);
    }
  }

  /** With no `[` in the reply, this pattern finds what the schema route's `\{.*\}` finds. */
  lemma ExtractAgreesWithSchemaPattern(content: string)
    requires '[' !in content
    ensures Search(content, ExtractPattern) == Search(content, SchemaPattern)
  {
    assert ExtractPattern == SchemaPattern + [Brackets];
    SearchIgnoresAbsentOpener(content, 0, SchemaPattern, [Brackets]);
  }

  /** A reply that is one object from its first to its last character is kept whole. */
  lemma RecoverWholeObject(content: string)
    requires |content| >= 2 && content[0] == '{' && content[|content| - 1] == '}'
    ensures RecoverContent(content) == content
  {
    assert "" + content + "" == content;
    SearchFinds(content, ExtractPattern, 0, "", content, "");
  }

  /** A reply that is one array from its first to its last character is kept whole, whatever
      objects it holds. */
  lemma RecoverWholeArray(content: string)
    requires |content| >= 2 && content[0] == '[' && content[|content| - 1] == ']'
    ensures RecoverContent(content) == content
  {
    assert "" + content + "" == content;
    SearchFinds(content, ExtractPattern, 1, "", content, "");
  }

  /** Prose around an array is cut away. */
  lemma ArrayInProseExample()
    ensures RecoverContent("Rows: [1, 2] done") == "[1, 2]"
  {
    var pre, m, post := "Rows: ", "[1, 2]", " done";
    assert pre + m + post == "Rows: [1, 2] done";
    SearchFinds(pre + m + post, ExtractPattern, 1, pre, m, post);
    assert (pre + m + post)[|pre|..|pre| + |m|] == m;
  }

  /** The leftmost opener wins even when it belongs to the prose: a bracketed word before the
      object is all that is kept. */
  lemma ProseBracketWinsExample()
    ensures RecoverContent("See [note] then {\"a\":1}") == "[note]"
  {
    var pre, m, post := "See ", "[note]", " then {\"a\":1}";
    assert pre + m + post == "See [note] then {\"a\":1}";
    SearchFinds(pre + m + post, ExtractPattern, 1, pre, m, post);
    assert (pre + m + post)[|pre|..|pre| + |m|] == m;
  }

  /** A truncated reply without any closer is kept as it is. */
  lemma TruncatedReplyKeptExample()
    ensures RecoverContent("{oops") == "{oops"
  {
    var s := "{oops";
    assert s[0] == '{' && s[1] == 'o' && s[2] == 'o' && s[3] == 'p' && s[4] == 's';
    forall p | 0 <= p < |s|
      ensures !StartsPair(s, p)
    {
    }
  }

  // ---------------------------------------------------------------------------
  // The route

  /** `not schema or not table_html`: the field is absent from the form or empty. */
  predicate Missing(field: Option<string>) {
    field.None? || field.value == ""
  }

  /** The route as written. `reply` is the model's answer to `Prompt(schema, tableHtml)`, or
      the text of the exception the call raised. Once the model has answered, `json.loads`
      raises `NameError`; evaluating `json.JSONDecodeError` in the inner `except` raises it
      again, and the outer handler turns it into a 500. */
  function ExtractContentAsWritten(schema: Option<string>, tableHtml: Option<string>,
                                   reply: Result<string, string>): (v: ExtractView)
    ensures v == JsonError(400, MissingInput) <==> Missing(schema) || Missing(tableHtml)
    ensures !Missing(schema) && !Missing(tableHtml) && reply.Err? ==>
              v == JsonError(500, ErrorPrefix + reply.error)
    ensures !Missing(schema) && !Missing(tableHtml) && reply.Ok? ==>
              v == JsonError(500, ErrorPrefix + JsonUndefined)
    ensures !v.ExtractPage?
  {
    if Missing(schema) || Missing(tableHtml) then JsonError(400, MissingInput)
    else match reply
      case Err(e) => JsonError(500, ErrorPrefix + e)
      case Ok(_) => JsonError(500, ErrorPrefix + JsonUndefined)
  }

  /** The route with `json` imported: the recovered text re-serialised with an indent of two
      when it parses, the recovered text itself when it does not. `prettyJson` stands for
      `json.dumps(json.loads(text), indent=2)`, `None` when `json.loads` fails. */
  function ExtractContent(schema: Option<string>, tableHtml: Option<string>,
                          reply: Result<string, string>, prettyJson: string -> Option<string>): (v: ExtractView)
    ensures v == JsonError(400, MissingInput) <==> Missing(schema) || Missing(tableHtml)
    ensures !Missing(schema) && !Missing(tableHtml) && reply.Err? ==>
              v == JsonError(500, ErrorPrefix + reply.error)
    ensures v.ExtractPage? <==> !Missing(schema) && !Missing(tableHtml) && reply.Ok?
    ensures v.ExtractPage? ==>
              v.content == match prettyJson(RecoverContent(reply.value))
                           case Some(pretty) => pretty
                           case None => RecoverContent(reply.value)
  {
    if Missing(schema) || Missing(tableHtml) then JsonError(400, MissingInput)
    else match reply
      case Err(e) => JsonError(500, ErrorPrefix + e)
      case Ok(text) =>
        var content := RecoverContent(text);
        match prettyJson(content)
        case Some(pretty) => ExtractPage(pretty)
        case None => ExtractPage(content)
  }

  /** With `json` imported, a request the written route fails with a 500 renders the page. */
  lemma MissingImportBreaksEveryAnswer(schema: string, tableHtml: string, text: string,
                                        prettyJson: string -> Option<string>)
    requires schema != "" && tableHtml != ""
    ensures ExtractContentAsWritten(Some(schema), Some(tableHtml), Ok(text))
            == JsonError(500, ErrorPrefix + JsonUndefined)
    ensures ExtractContent(Some(schema), Some(tableHtml), Ok(text), prettyJson).ExtractPage?
  {
  }

  /** A reply that is exactly one JSON object or array is shown re-indented. */
  lemma WholeJsonReplyShown(schema: string, tableHtml: string, text: string,
                            prettyJson: string -> Option<string>)
    requires schema != "" && tableHtml != "" && |text| >= 2
    requires Pairs(text[0], text[|text| - 1])
    requires prettyJson(text).Some?
    ensures ExtractContent(Some(schema), Some(tableHtml), Ok(text), prettyJson)
            == ExtractPage(prettyJson(text).value)
  {
    if text[0] == '{' {
      RecoverWholeObject(text);
    } else {
      RecoverWholeArray(text);
    }
  }

  /** A reply that does not parse once cut down is shown as the cut-down text, which is the
      reply itself when it holds no pair of delimiters. */
  lemma UnparsedReplyShownRaw(schema: string, tableHtml: string, text: string,
                              prettyJson: string -> Option<string>)
    requires schema != "" && tableHtml != ""
    requires forall p :: 0 <= p < |text| ==> !StartsPair(text, p)
    requires prettyJson(text).None?
    ensures ExtractContent(Some(schema), Some(tableHtml), Ok(text), prettyJson) == ExtractPage(text)
  {
  }
}
