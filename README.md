# ALKI PREDICT CSV format validator, modelled in Dafny

The validator checks a sample CSV file against a fixed three-column schema before a
larger batch is sent on. The file must have the header `DATE, WORKFLOW, QUANTITY`.
Either `,` or `;` may separate the fields. Every data row is checked cell by cell, on the
text of each cell as the CSV reader hands it over (see "## Left out" for how that text can
differ from what the file contains):

- DATE must *start with* `DDDD-DD-DD`. Text after it is not looked at.
- WORKFLOW must be one or more ASCII letters and nothing else.
- QUANTITY must be one or more ASCII digits and nothing else.

The result is a list of `(row, column, message)` violations. It is grouped by column
(DATE, then WORKFLOW, then QUANTITY) and ascends by row within a group.

The model has four parts:

- `regex.dfy`, module `Regex`: the three regular expressions as data, in a tiny
  pattern language, with Python's two ways of running them (`re.match`, anchored
  at the start only, and `^...$`).
- `regex.dfy`, module `CellRules`: the cell rules as plain predicates on strings,
  each proved equal to its regular expression run the way the source runs it, with
  `$` read as the end of the string (see "## Left out").
- `validator.dfy`, module `Validator`: `validate_data`. Each column pass is a
  function over the row sequence. The method `ValidateData` extends an empty list
  with the three passes. Lemmas state exactly which cells are reported, with
  which message, in which order, and when the list is empty.
- `upload.dfy`, module `Upload`: the separator search in `main` and what follows
  it. The CSV reader is a parameter `read: char -> Result<Table>`, so parsing the
  file with a given separator gives either a table or the failure it raised.

The table is a Dafny value. Validation therefore cannot modify it, and no lemma is
needed for that.

The WORKFLOW rule is the one the code applies: letters only, no underscore
(`app.py:15`), with the message "only letters, no spaces or special characters"
(`app.py:17`). The project's design notes allow underscores as well and ask for the
rule to be configurable. The code has one fixed rule, and so does the model.

## Model

| member | source | states |
|---|---|---|
| `CellRules.DatePatternMatchesAll` | app.py:10 | `\d{4}-\d{2}-\d{2}` matches a whole string iff it is exactly ten characters DDDD-DD-DD |
| `CellRules.DateRuleIsRegexMatch` | app.py:10-11 | `str.match` of the date pattern succeeds iff the value starts with DDDD-DD-DD; anything may follow |
| `CellRules.WorkflowRuleIsRegexMatch` | app.py:15-16 | `^[a-zA-Z]+$` matches iff the value is non-empty and every character is an ASCII letter |
| `CellRules.QuantityRuleIsRegexMatch` | app.py:20 | `^\d+$` matches iff the value is non-empty and every character is a digit |
| `CellRules.WorkflowTrailingNewlineGap` | app.py:15-16 | with Python's `$`, the WORKFLOW pattern also accepts letters followed by one final newline; this is exactly what the model's end-of-string reading gives up |
| `CellRules.DateRuleExamples` | app.py:10-11 | `2025-03-03` and `2025-03-03XYZ` pass; `2025-3-03` and `03/03/2025` fail |
| `CellRules.WorkflowRuleExamples` | app.py:15-16 | `Shipping` passes; a space, an underscore or an empty value fails |
| `CellRules.QuantityRuleExamples` | app.py:20 | `42` passes; `12.5`, `-3`, `abc` and the empty value fail |
| `CellRules.MissingCellText` | app.py:11-20 | the text `nan`, which a missing cell becomes, passes the WORKFLOW rule and fails the DATE and QUANTITY rules |
| `Validator.ColumnViolations` | app.py:11-21 | one column pass reports at most one violation per row (row indices strictly increase), each with a row index inside the table and that column's tag |
| `Validator.ColumnViolationsExact` | app.py:11-21 | a column pass reports a row iff its cell breaks the rule, with that column's message, in strictly ascending row order |
| `Validator.ReportWellFormed` | app.py:12-21 | no (row, column) pair is reported twice, so at most 3 violations per row and 3·rows in all; every row index is a valid index; every tag is DATE, WORKFLOW or QUANTITY |
| `Validator.ReportedIff` | app.py:9-21 | for every column and row index, the row is reported under that column iff the index is in the table and the cell breaks the column's rule; the checks do not short-circuit |
| `Validator.ReportMessages` | app.py:12-21 | each violation carries its column's message; the DATE and QUANTITY messages are constants; the WORKFLOW message is built from the row's own value |
| `Validator.WorkflowMessageQuotesValue` | app.py:17 | the WORKFLOW message contains the offending value verbatim at a fixed position |
| `Validator.ColumnOrdered` | app.py:11-21 | one column pass is strictly ascending by row and carries only that column's tag |
| `Validator.ReportOrdered` | app.py:7-21 | all DATE violations come first, then WORKFLOW, then QUANTITY, each group strictly ascending by row; no cell is reported twice |
| `Validator.ReportEmptyIff` | app.py:6-23 | the result is empty iff every row passes all three rules |
| `Validator.GroupedNotRowMajor` | app.py:9-21 | rows [bad DATE, bad QUANTITY (`abc`), missing DATE (`nan`)] give [row 0 DATE, row 2 DATE, row 1 QUANTITY] |
| `Validator.ValidateData` | app.py:6-23 | the three extends give the column passes in order; the result has the bounds, messages, ordering and emptiness properties above |
| `Upload.FirstMatchStopsAt` | app.py:34-38 | the search stops at the first separator whose parse does not give another header: it stops with the parse failure if that parse failed, and otherwise with the table, whose header is then exactly DATE, WORKFLOW, QUANTITY |
| `Upload.FirstMatchNotFound` | app.py:34-41 | the search finds nothing iff every separator parses to another header (the `for ... else`) |
| `Upload.CheckUpload` | app.py:32-59 | the loop with `break` and `else` gives the search's outcome: a parse failure aborts; a schema mismatch happens iff both separators give another header, and then nothing is validated; otherwise the first matching separator is used and the file is rejected with exactly the validator's non-empty report, or accepted iff every row is valid |
| `Upload.CommaFailureStopsSearch` | app.py:34-36 | a parse failure with `,` ends the upload, and `;` is never tried |
| `Upload.SeparatorDoesNotChangeReport` | app.py:34-43 | the same table read from a comma file and from a semicolon file gives the same verdict and the same violations, provided the semicolon file parses with `,` to another header and does not fail |
| `Upload.WrongHeaderIsMismatch` | app.py:37-41 | a header that differs only in case or in column order is a schema mismatch, whatever the rows |

## Left out

- Streamlit UI: the title, the uploader, the `st.error`, `st.success` and `st.dataframe` calls and the download button (app.py:26-29, 40, 47-56, 59). These are presentation. `Upload.Outcome` says which message the user gets.
- The CSV reader `pd.read_csv` and rewinding the file (app.py:35-36). They come from a library. The reader is the parameter `read` of `Upload.CheckUpload`.
- pandas' typing of the columns and `astype(str)` (app.py:11, 16, 20). Cells are modelled as the text that reaches the rules, so the model does not capture how that text arises from the file. Two consequences of the reader's defaults follow. (a) An empty field, or `NA`, `N/A`, `#N/A` or `null`, is read as a missing value and reaches the rules as `"nan"`. That passes the WORKFLOW rule (`CellRules.MissingCellText`), so an upload with an empty WORKFLOW cell is accepted. (b) When every other QUANTITY cell in the file is a number, one empty or decimal cell makes the reader type the whole column as floating point. Every integer in it then reaches the rule as e.g. `"42.0"`, so every row of the file gets a QUANTITY violation. When the column also holds a non-numeric cell such as `abc`, it stays text and `42` reaches the rule as `"42"`. These are the defaults of pandas 1.x and 2.x. This effect crosses rows and is not modelled.
- The index of a row is its position in the table. This is pandas' default index 0..n-1. When every data row has one field more than the header (for example a trailing `,` on each data line), the reader instead uses the first field as the row label and shifts the other cells one column left. The header test still passes, and the reported rows are those labels. The model does not capture this.
- Building, writing and offering the error report as CSV (app.py:46, 51-53). That is library I/O. The round trip "serialise the report and parse it back" is therefore not modelled.
- `CellRules.IsDigits` / `CellRules.IsDatePrefix`: Python's `\d` also matches non-ASCII Unicode digits. The model admits only `'0'..'9'`, on purpose.
- `CellRules.IsLetters` / `CellRules.IsDigits`: Python's `$` also matches just before a final `"\n"`. The model reads `$` as the end of the string, on purpose. `CellRules.WorkflowTrailingNewlineGap` states exactly what this gives up for WORKFLOW. QUANTITY differs in the same way.
- Exceptions are modelled only where parsing raises them, as `Err` results of `read`. The catch-all `except` (app.py:58-59) would also catch failures inside validation or the UI calls. Those cannot happen in the model.
- app.py:48 ends in a stray `w` (`st.dataframe(error_df)w`), which is a syntax error. As written, the module would not load at all. The model follows the evidently intended code. The line is UI and does not affect validation.
