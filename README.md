# Table migrator: a Dafny model of its table handling

The migrator is a Flask application. It scrapes HTML tables from a web page and turns each one
into a DataFrame. It shows previews, offers a table as a CSV download, asks a language model for
a Drupal content-type schema, and asks it to extract a table's content as JSON. This project
models the deterministic core of that pipeline and proves properties of it:

- `app.dfy` (module `App`) covers `html_table_to_dataframe`, the preview loop of `scrape` and
  the lookup of `extract_table` in `app.py`. It models the header fallback chain (the `thead`'s
  first row, then the table's first row, then `Column 1` … `Column N`). It models the row filter
  that skips a repeated header row and drops every row whose width differs from the header
  count. It models `df.empty` and `df.head()`, and the index guard with Python's negative
  indexing.
- `schema.dfy` (module `Schema`) covers `app/schema/routes.py`:
  - the local header and data-row extraction;
  - one field per header with a machine name, up to three samples and a guessed type;
  - the recovery of JSON from the model's reply;
  - the gating of the `generate_schema` route on the session flag, the method and the form
    field.
- `extract.dfy` (module `Extract`) covers `app/extract/routes.py`: the missing-field check, the
  prompt, the recovery of a `{…}` or `[…]` span from the reply, and the response. The route
  exists twice: as written, where `json` is never imported, and corrected.
- `recovery.dfy` (module `Recovery`) is the shared model of Python's `re.search` for the two
  delimiter patterns. The search is leftmost, the alternatives are tried in order, and the
  middle part is greedy.
- `markup.dfy` (module `Markup`) holds the parsed-table datatypes. `text.dfy` (module `Text`)
  holds the ASCII string operations the code relies on, and `wrappers.dfy` holds `Option` and
  `Result`.

The parts with loops in the source are methods whose loops are proved against specification
functions. These are `MaxColumns`, `FindHeaders`, `CollectRows`, `HtmlTableToDataframe`,
`TablePreviews`, `SpacedRow`, `DataRows`, `BuildFields` and `LocalSchema`. Everything else is
functions and lemmas.

The external parts are parameters:
- The language model's answer is an input: `Option<string>` or `Result<string, string>`.
- `json.dumps(json.loads(text), indent=2)` is the parameter `prettyJson: string -> Option<string>`.
  It gives `None` where `json.loads` raises.

Three behaviours of the code are easy to misread:
- The decimal test `val.replace('.', '').isdigit()` accepts any number of dots, not at most one
  (`VersionNumberIsDecimal`).
- The JSON recovery is greedy from the first opener to the last closer. It does not balance
  delimiters (`SchemaRecoveryGreedy`, `ProseBracketWinsExample`).
- `extract_table` accepts negative indices (`NegativeIndexAccepted`).

## Model

| member | source | states |
|---|---|---|
| App.MaxWidth | app.py:52-57 | the width bounds every row's cell count and is 0 or the cell count of some row |
| App.MaxColumns | app.py:54-57 | the `max_cols` loop computes the largest cell count of any row |
| App.FindHeaders | app.py:36-58 | the header loop yields the `thead` first-row texts, else the first-row texts, else synthetic names for the widest row |
| App.CollectRows | app.py:60-72 | the row loop keeps, in order, exactly the candidate rows that are not the skipped header row and have one cell per header |
| App.HtmlTableToDataframe | app.py:34-76 | the frame is the normalised table, and every row in it is non-empty with exactly one cell per header |
| App.Head | app.py:123 | a preview keeps the headers and the first min(5, n) rows as a prefix |
| App.TablePreviews | app.py:118-124 | table i gets a preview exactly when its normalised frame has rows, and the preview is that frame's first five rows |
| App.ExtractTable | app.py:245-253 | "Table not found" exactly when there are no tables or the index is at or past the end; IndexError for an index below -len on a non-empty list; a download exactly when -len ≤ index < len, holding the table at the Python index and named `table_<str(index)>.csv` |
| App.KeptRowsRectangular | app.py:70-72 | rows are never padded or cut: every kept row has exactly one cell per header |
| App.NormalizeRectangular | app.py:64-75 | every row handed to pandas is non-empty and as wide as the headers |
| App.KeptRowsSelection | app.py:64-72 | the output rows are the cell texts of the kept candidates at increasing positions, and a position appears exactly when its row is kept |
| App.RepeatedHeaderRowSkipped | app.py:46-68 | with no `thead` and no `tbody`, the first row gives the headers, and every later row equal to the first as a tag is skipped too, not only the first row |
| App.TbodyRowsAllKept | app.py:61-72 | with a `tbody` whose rows are all as wide as the headers, every row comes out unchanged and in order; none is skipped as a header |
| App.EmptyIffNoRows | app.py:122 | a normalised frame is empty exactly when it has no rows |
| App.ColumnNamesDistinct | app.py:58 | synthetic column names are pairwise different |
| App.SyntheticHeaders | app.py:51-58 | without `thead` or first-row headers, the headers are `Column 1` … `Column N`, with N the largest cell count, and are distinct |
| App.NoHeadersIffNoCells | app.py:36-75 | the header list is empty exactly when no row has a cell, and then no row comes out |
| App.ExtractFilenamesDistinct | app.py:253 | different accepted indices give different attachment names |
| App.NegativeIndexAccepted | app.py:245-253 | index -1 passes the guard, selects the last table and names it `table_-1.csv` |
| Text.Delete | app/schema/routes.py:85 | `replace('.', '')` leaves no dot, changes a dot-free string not at all, and keeps every other character |
| Text.DeleteSelection | app/schema/routes.py:85 | `replace('.', '')` removes every dot and nothing else (multisets), and keeps each other character once, in order, at increasing positions that are exactly the non-dot positions |
| Text.Lower | app/schema/routes.py:89 | `lower()` keeps the length and lower-cases each ASCII letter in place |
| Text.NatToStringRoundTrip | app.py:253 | reading back the decimal digits of `str(n)` gives n |
| Text.IntToStringInjective | app.py:253 | `str(i)` differs for different integers, the minus sign included |
| Markup.Texts | app.py:43 | one stripped text per cell, in cell order |
| Markup.KindCells | app/schema/routes.py:39-51 | `find_all('th')` (line 39) and `find_all('td')` (line 51) select exactly the cells of the kind |
| Markup.KindCellsSelection | app/schema/routes.py:39-51 | `find_all` gives the cells at strictly increasing positions, a position taken exactly when its cell is of the kind, so each such cell appears once and in document order |
| Recovery.MatchOne | app/schema/routes.py:139 | one greedy alternative matches at p exactly when its opener is at p and a closer follows, and it ends at the last closer |
| Recovery.MatchAtTriesInOrder | app/extract/routes.py:43 | a match at p exists exactly when some alternative opens there, and it is the match of the first one that does |
| Recovery.SearchFrom | app/schema/routes.py:139 | the match found is the leftmost one; no earlier position matches |
| Recovery.SearchFinds | app/schema/routes.py:139-141 | a reply split into opener-free prose, one delimited span and closer-free prose yields exactly that span |
| Recovery.SearchIgnoresAbsentOpener | app/extract/routes.py:43 | an alternative whose opener never occurs changes no search |
| Schema.SpacedRow | app/schema/routes.py:53-57 | the inner loop gives the space-joined stripped strings of each `td`, in order |
| Schema.DataRows | app/schema/routes.py:48-59 | the data loop gives, for each row after the first that has a `td`, the list of its `td` texts |
| Schema.TdRowsSound | app/schema/routes.py:50-59 | each data row is the non-empty `td` text list of a scanned row |
| Schema.TdRowsComplete | app/schema/routes.py:50-59 | every scanned row with a `td` gives a data row |
| Schema.TdRowsSelection | app/schema/routes.py:50-59 | the data rows are the `td` texts of the scanned rows at strictly increasing positions, a position taken exactly when its row has a `td` |
| Schema.DataRowsSelection | app/schema/routes.py:48-59 | data row k is the `td` texts of the k-th row after the first that has a `td`: one per such row, in document order, and never the first row |
| Schema.DataRowsShape | app/schema/routes.py:48-59 | data rows come only from rows after the first, in their order, exactly one for every such row with a `td`, and none is dropped for its width |
| Schema.BuildFields | app/schema/routes.py:71-92 | one field per header, with machine name, label, required, the samples of column i and the type of the first test the samples pass |
| Schema.LocalSchema | app/schema/routes.py:33-92 | the structure is `table_content`, with one field per `th` text (else first-row `td` text) and samples from the data rows |
| Schema.MachineNameShape | app/schema/routes.py:73 | the machine name keeps the length, lower-cases letters, turns spaces into `_`, and has no space and no capital |
| Schema.MachineNameIdempotent | app/schema/routes.py:73 | a machine name is its own machine name |
| Schema.MachineNamesCollide | app/schema/routes.py:73 | `A B` and `a_b` both get the machine name `a_b`, so field names need not be unique |
| Schema.ColumnOfMembers | app/schema/routes.py:77 | a value is a sample exactly when it is cell i of a scanned row that has a cell i |
| Schema.ColumnOfWide | app/schema/routes.py:77 | when every row has a cell i, the samples are those cells in row order |
| Schema.SampleValuesBound | app/schema/routes.py:77 | at most three samples, exactly the i-th cells of the first three data rows that have one |
| Schema.DeleteDotsIsDigits | app/schema/routes.py:85 | the dot-stripped value is all digits exactly when the value has only digits and dots and at least one digit |
| Schema.DecimalMeans | app/schema/routes.py:82-86 | `decimal` is chosen exactly when the samples are non-empty, each has only digits and dots with a digit, and some has a dot |
| Schema.IntegerExample | app/schema/routes.py:83-84 | digit samples give `integer` |
| Schema.DecimalExample | app/schema/routes.py:85-86 | `1.5`, `2.0` give `decimal` |
| Schema.DottedNumberIsDecimal | app/schema/routes.py:83-86 | a value of digits and dots that starts with a digit and holds a dot gives `decimal`, whatever the number of dots |
| Schema.VersionNumberIsDecimal | app/schema/routes.py:85-86 | `1.2.3` gives `decimal`: any number of dots passes |
| Schema.TextLongExample | app/schema/routes.py:87-88 | a 101-character value gives `text_long` |
| Schema.LinkExample | app/schema/routes.py:89-90 | a value containing `<a href` gives `link` |
| Schema.AnchorIsLink | app/schema/routes.py:82-90 | a value of at most 100 characters that starts with neither a digit nor a dot and holds `<a href` in any case gives `link` |
| Schema.UpperCaseLinkExample | app/schema/routes.py:89-90 | the anchor test ignores case |
| Schema.StringExample | app/schema/routes.py:75-90 | plain text and an empty sample list keep the default `string` |
| Schema.GenerateSchemaRoute | app/schema/routes.py:149-212 | no table flag or a GET redirects unchanged; a 400 exactly for a POST with an empty or missing field; past the gate, no recovered schema (a failed call, or an empty or unrecoverable reply) gives the error page with the session unchanged, and any other recovered schema is shown on the schema page, re-indented when it parses, beside the posted table, with the schema flag set; the schema flag is set exactly when the schema page is shown |
| Schema.SchemaRecoveryFirstToLast | app/schema/routes.py:132-142 | an unparsable reply yields a schema exactly when a `{` precedes a `}`, and it is the span from the first `{` to the last `}` |
| Schema.ParsedReplyShown | app/schema/routes.py:191-209 | past the gate, a reply that parses as a whole is shown as its re-indented form, passed through the re-indenting a second time, beside the posted table, and the schema flag is set |
| Schema.SchemaRouteOnUnparsedReply | app/schema/routes.py:191-209 | past the gate, an unparsable reply gives the schema page exactly when it holds a `{` before a `}`, showing that span re-indented when it parses, and the error page otherwise |
| Schema.SchemaRecoveryExample | app/schema/routes.py:137-141 | prose around one object yields exactly the object |
| Schema.SchemaRecoveryGreedy | app/schema/routes.py:139-141 | two objects with prose between come back as one span, prose included |
| Schema.ThTextsOfHeaderRow | app/schema/routes.py:39-41 | when the first row is all `th` and every later row all `td`, the `th` texts are the first row's texts |
| Schema.HeadersAgreeOnThHeaderRow | app/schema/routes.py:39-46 | on a table with an all-`th` first row and all-`td` body, this module's headers equal `html_table_to_dataframe`'s |
| Schema.HeadersDifferOnRowHeaders | app/schema/routes.py:39-41 | on a two-row table without a `thead` whose first row is all `th` and whose second row holds a `th`, this module's headers are the first row's texts followed by the second row's `th` texts, more than app.py takes |
| Extract.Prompt | app/extract/routes.py:14-25 | the prompt is the fixed instructions with the schema and the table inserted verbatim at known offsets |
| Extract.PromptDeterminesInputs | app/extract/routes.py:14-25 | the prompt and the schema's length determine schema and table |
| Extract.RecoverContent | app/extract/routes.py:42-45 | the kept text runs from the leftmost `{` or `[` whose closer follows to the last such closer; with no such pair the reply is kept whole |
| Extract.MatchIffPair | app/extract/routes.py:43 | the pattern matches at p exactly when a `{` or `[` at p has its closer later |
| Extract.ExtractAgreesWithSchemaPattern | app/extract/routes.py:43 | without `[` in the reply, this pattern finds what the schema route's `\{.*\}` finds |
| Extract.RecoverWholeObject | app/extract/routes.py:43-45 | a reply that is one object end to end is kept whole |
| Extract.RecoverWholeArray | app/extract/routes.py:43-45 | a reply that is one array end to end is kept whole, whatever it holds |
| Extract.ArrayInProseExample | app/extract/routes.py:43-45 | prose around an array is cut away |
| Extract.ProseBracketWinsExample | app/extract/routes.py:43-45 | a bracketed word before the object is all that is kept |
| Extract.TruncatedReplyKeptExample | app/extract/routes.py:43-45 | a reply without a closer is kept as it is |
| Extract.ExtractContentAsWritten | app/extract/routes.py:1-56 | a 400 exactly for a missing field; a failed call gives a 500 with its message; an answered call always gives the 500 `name 'json' is not defined`; the page is never rendered |
| Extract.ExtractContent | app/extract/routes.py:11-52 | a 400 exactly for a missing field; a failed call gives a 500; the page is rendered exactly when both fields are present and the model answered, and it shows the recovered span re-indented when that parses and the recovered span itself when it does not |
| Extract.MissingImportBreaksEveryAnswer | app/extract/routes.py:47-56 | every answered request fails as written and renders the page once `json` is imported |
| Extract.WholeJsonReplyShown | app/extract/routes.py:43-52 | a reply that is exactly one parsable object or array is shown re-indented |
| Extract.UnparsedReplyShownRaw | app/extract/routes.py:43-52 | an unparsable reply without any delimiter pair is shown as it is |

## Left out

- Selenium, the browser, Cloudflare waits, `time.sleep` and the debug dumps of `scrape` and `extract_table` are not modelled. This includes the branch at `app.py` lines 129-134, which reads `current_attempt` before assigning it when a page with previews has "Just a moment" in its title (the `while` condition evaluates `current_attempt` first, so `max_attempts` is never read). The model starts from the tables the page yields.
- HTML parsing is not modelled. A table arrives already split into `thead`/`tbody` rows and cells with their stripped text nodes. Nested tables, the `html.parser`/`lxml` difference and the `repr` escaping of the schema route are outside that datatype.
- pandas is not modelled beyond the header list and rows it receives: `to_html`, `to_csv` and its quoting are left out. The preview map holds the head frame rather than its HTML.
- The language-model calls, their parameters and the wording of the schema prompts (`app/schema/routes.py` lines 100-116 and 169-189) are left out. The reply is an input. `table_json`, which the source computes and never uses, is modelled only as the local structure. The reply is not tied to the prompt.
- JSON parsing and printing are the oracle `prettyJson`. Nothing is assumed about it.
- `int()` failures on `table_index` and the `print` calls are left out. The `except` branches that nothing in the modelled code can reach are left out too. A `None` message content from the model is also left out.
- Text.Delete: its own contract gives membership only; the order and the number of kept characters are stated by Text.DeleteSelection, kept apart so that proofs using Delete stay small.
- Markup.KindCells: its own contract gives membership only; order and multiplicity are stated by Markup.KindCellsSelection, for the same reason.
- Text.Lower: ASCII only (Text.IsDigitString likewise). Python's Unicode `lower()` and `isdigit()` accept more characters, and Unicode case mapping is not modelled.
- Flask redirects, templates and session storage are reduced to the `SchemaView`/`ExtractView` datatypes and two boolean session flags.
- Schema.ParsedReplyShown: requires the re-indented reply to be non-empty. `json.dumps` never returns an empty string, but the `prettyJson` parameter is not constrained to behave like it, so an empty serialisation falls to the error page in the model.

## Findings

| source | as written | input that shows it | evidently intended | confidence | as-written member | corrected member |
|---|---|---|---|---|---|---|
| app/extract/routes.py:3-56 | `json.loads`/`json.dumps`/`json.JSONDecodeError` are used but `json` is never imported, so the `NameError` escapes the inner handler and every answered request returns a 500 "Error extracting content: name 'json' is not defined" | any request with non-empty `schema` and `table_html` whose model call succeeds | render the extracted JSON, re-indented when it parses and the recovered text otherwise | high (not executed) | Extract.ExtractContentAsWritten | Extract.ExtractContent |
