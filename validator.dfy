/**
 `validate_data`: one pass per column over the table, in the fixed order DATE,
 WORKFLOW, QUANTITY, each pass reporting the rows whose cell breaks that
 column's rule. A row is identified by its position in the table (the default
 0..n-1 index of the parsed table).
 */
module Validator {
  import opened CellRules

  /** One data row; every cell already in its text form. */
  datatype Row = Row(date: string, workflow: string, quantity: string)

  /** One reported problem: `(row_index, column, message)`. */
  datatype Violation = Violation(row: nat, column: string, message: string)

  datatype Column = Date | Workflow | Quantity

  function Name(col: Column): string {
    match col
    case Date => "DATE"
    case Workflow => "WORKFLOW"
    case Quantity => "QUANTITY"
  }

  /** Position of a column's group in the report. */
  function Rank(col: Column): nat {
    match col
    case Date => 0
    case Workflow => 1
    case Quantity => 2
  }

  const DATE_MESSAGE := "Invalid format (YYYY-MM-DD expected)"

  const QUANTITY_MESSAGE := "Invalid format (integer expected)"

  /** The WORKFLOW message quotes the offending value. */
  function WorkflowMessage(value: string): string {
    "Invalid format ('" + value + "' - only letters, no spaces or special characters)"
  }

  /** The rule a column applies to its cell of a row. */
  predicate CellOk(col: Column, row: Row) {
    match col
    case Date => IsDatePrefix(row.date)
    case Workflow => IsLetters(row.workflow)
    case Quantity => IsDigits(row.quantity)
  }

  predicate RowValid(row: Row) {
    CellOk(Date, row) && CellOk(Workflow, row) && CellOk(Quantity, row)
  }

  /** The violation a failing cell produces. */
  function ViolationAt(col: Column, i: nat, row: Row): Violation {
    match col
    case Date => Violation(i, "DATE", DATE_MESSAGE)
    case Workflow => Violation(i, "WORKFLOW", WorkflowMessage(row.workflow))
    case Quantity => Violation(i, "QUANTITY", QUANTITY_MESSAGE)
  }

  /** Row indices strictly increase along `s`: no row appears twice. */
  predicate RowsAscending(s: seq<Violation>) {
    forall k, l :: 0 <= k < l < |s| ==> s[k].row < s[l].row
  }

  /** One column's list comprehension: the failing rows, in table order. */
  function ColumnViolations(col: Column, rows: seq<Row>): (r: seq<Violation>)
    ensures |r| <= |rows|
    ensures forall v :: v in r ==> v.row < |rows| && v.column == Name(col)
    ensures RowsAscending(r)
    decreases |rows|
  {
    if rows == [] then []
    else
      var n := |rows| - 1;
      ColumnViolations(col, rows[..n])
      + (if CellOk(col, rows[n]) then [] else [ViolationAt(col, n, rows[n])])
  }

  /** What `validate_data` returns: the three column passes one after another. */
  function Report(rows: seq<Row>): seq<Violation> {
    ColumnViolations(Date, rows) + ColumnViolations(Workflow, rows) + ColumnViolations(Quantity, rows)
  }

  /** The column of a reported violation, read back from its tag. */
  function ColumnOf(v: Violation): Column {
    if v.column == "DATE" then Date
    else if v.column == "WORKFLOW" then Workflow
    else Quantity
  }

  /** `a` comes before `b` in the report: by column group, then by row. */
  predicate Precedes(a: Violation, b: Violation) {
    Rank(ColumnOf(a)) < Rank(ColumnOf(b)) || (a.column == b.column && a.row < b.row)
  }

  /**
   A column pass reports exactly the failing rows, each once, with that column's
   message, in strictly ascending row order.
   */
  lemma {:induction false} ColumnViolationsExact(col: Column, rows: seq<Row>)
    ensures forall v :: v in ColumnViolations(col, rows) <==>
      (v.row < |rows| && !CellOk(col, rows[v.row]) && v == ViolationAt(col, v.row, rows[v.row]))
    ensures forall k, l :: 0 <= k < l < |ColumnViolations(col, rows)| ==>
      ColumnViolations(col, rows)[k].row < ColumnViolations(col, rows)[l].row
    decreases |rows|
  {
    if rows != [] {
      var n := |rows| - 1;
      var init := rows[..n];
      ColumnViolationsExact(col, init);
      assert forall i :: 0 <= i < n ==> init[i] == rows[i];
    }
  }

  /**
   Every reported row exists, every tag is one of the three column names, and
   no (row, column) pair is reported twice; so at most three violations per row.
   */
  lemma ReportWellFormed(rows: seq<Row>)
    ensures |Report(rows)| <= 3 * |rows|
    ensures forall v :: v in Report(rows) ==>
      v.row < |rows| && v.column in {"DATE", "WORKFLOW", "QUANTITY"}
    ensures forall k, l :: 0 <= k < l < |Report(rows)| ==>
      Report(rows)[k].row != Report(rows)[l].row || Report(rows)[k].column != Report(rows)[l].column
  {
    ReportOrdered(rows);
  }

  /** A row is reported for a column iff its cell breaks that column's rule. */
  lemma ReportedIff(rows: seq<Row>, col: Column, i: nat)
    ensures (exists v :: v in Report(rows) && v.row == i && v.column == Name(col))
      <==> i < |rows| && !CellOk(col, rows[i])
  {
    ColumnViolationsExact(Date, rows);
    ColumnViolationsExact(Workflow, rows);
    ColumnViolationsExact(Quantity, rows);
    if i < |rows| && !CellOk(col, rows[i]) {
      assert ViolationAt(col, i, rows[i]) in ColumnViolations(col, rows);
    }
  }

  /** A reported violation carries the message of its column for that row. */
  lemma ReportMessages(rows: seq<Row>)
    ensures forall v :: v in Report(rows) ==>
      v.row < |rows| && v == ViolationAt(ColumnOf(v), v.row, rows[v.row])
  {
    ColumnViolationsExact(Date, rows);
    ColumnViolationsExact(Workflow, rows);
    ColumnViolationsExact(Quantity, rows);
  }

  /** The WORKFLOW message holds the offending value verbatim. */
  lemma WorkflowMessageQuotesValue(value: string)
    ensures WorkflowMessage(value)[17..17 + |value|] == value
  {
  }

  /** Every earlier element precedes every later one. */
  predicate Ordered(s: seq<Violation>) {
    forall k, l :: 0 <= k < l < |s| ==> Precedes(s[k], s[l])
  }

  lemma ConcatOrdered(a: seq<Violation>, b: seq<Violation>)
    requires Ordered(a) && Ordered(b)
    requires forall x, y :: x in a && y in b ==> Precedes(x, y)
    ensures Ordered(a + b)
  {
  }

  lemma ColumnOrdered(col: Column, rows: seq<Row>)
    ensures Ordered(ColumnViolations(col, rows))
    ensures forall v :: v in ColumnViolations(col, rows) ==> ColumnOf(v) == col
  {
  }

  /**
   The report is grouped DATE, WORKFLOW, QUANTITY and strictly ascending by row
   within a group; so no cell is reported twice.
   */
  lemma ReportOrdered(rows: seq<Row>)
    ensures Ordered(Report(rows))
    ensures forall k, l :: 0 <= k < l < |Report(rows)| ==>
      Report(rows)[k].row != Report(rows)[l].row || Report(rows)[k].column != Report(rows)[l].column
  {
    var d, w, q := ColumnViolations(Date, rows), ColumnViolations(Workflow, rows), ColumnViolations(Quantity, rows);
    ColumnOrdered(Date, rows);
    ColumnOrdered(Workflow, rows);
    ColumnOrdered(Quantity, rows);
    ConcatOrdered(d, w);
    ConcatOrdered(d + w, q);
    assert Report(rows) == d + w + q;
  }

  /** No violation at all iff every row satisfies all three rules. */
  lemma ReportEmptyIff(rows: seq<Row>)
    ensures Report(rows) == [] <==> forall i :: 0 <= i < |rows| ==> RowValid(rows[i])
  {
    if exists i :: 0 <= i < |rows| && !RowValid(rows[i]) {
      var i :| 0 <= i < |rows| && !RowValid(rows[i]);
      var col := if !CellOk(Date, rows[i]) then Date else if !CellOk(Workflow, rows[i]) then Workflow else Quantity;
      ColumnViolationsExact(col, rows);
      assert ViolationAt(col, i, rows[i]) in ColumnViolations(col, rows);
    }
    if Report(rows) != [] {
      NonEmptyReportHasInvalidRow(rows);
    }
  }

  lemma NonEmptyReportHasInvalidRow(rows: seq<Row>)
    requires Report(rows) != []
    ensures exists i :: 0 <= i < |rows| && !RowValid(rows[i])
  {
    var v := Report(rows)[0];
    var col := if v in ColumnViolations(Date, rows) then Date
      else if v in ColumnViolations(Workflow, rows) then Workflow else Quantity;
    assert v in ColumnViolations(col, rows);
    ColumnViolationsExact(col, rows);
    assert !RowValid(rows[v.row]);
  }

  /**
   The table of the grouping example below, as an upload reaches the rules: the
   missing DATE cell of row 2 arrives as the text "nan".
   */
  const EXAMPLE_ROWS: seq<Row> :=
    [Row("03/03/2025", "Picking", "5"), Row("2025-03-03", "Picking", "abc"), Row("nan", "Picking", "7")]

  lemma ExampleDatePass()
    ensures ColumnViolations(Date, EXAMPLE_ROWS)
      == [Violation(0, "DATE", DATE_MESSAGE), Violation(2, "DATE", DATE_MESSAGE)]
  {
  }

  lemma ExampleWorkflowPass()
    ensures ColumnViolations(Workflow, EXAMPLE_ROWS) == []
  {
  }

  lemma ExampleQuantityPass()
    ensures ColumnViolations(Quantity, EXAMPLE_ROWS) == [Violation(1, "QUANTITY", QUANTITY_MESSAGE)]
  {
    var rows := EXAMPLE_ROWS;
    assert "abc"[0] == 'a';
    assert rows[..2][..1] == rows[..1] && rows[..1][..0] == [];
    assert ColumnViolations(Quantity, rows[..1]) == [];
    assert ColumnViolations(Quantity, rows[..2]) == [Violation(1, "QUANTITY", QUANTITY_MESSAGE)];
  }

  /**
   Rows [bad DATE, bad QUANTITY, bad DATE] give [row 0 DATE, row 2 DATE,
   row 1 QUANTITY]: grouping by column, not row-major order.
   */
  lemma GroupedNotRowMajor()
    ensures Report(EXAMPLE_ROWS)
      == [Violation(0, "DATE", DATE_MESSAGE), Violation(2, "DATE", DATE_MESSAGE),
          Violation(1, "QUANTITY", QUANTITY_MESSAGE)]
  {
    ExampleDatePass();
    ExampleWorkflowPass();
    ExampleQuantityPass();
  }

  /**
   `validate_data`: extends an initially empty list with the DATE, WORKFLOW and
   QUANTITY passes in turn. The table is a value and is left as it was.
   */
  method ValidateData(rows: seq<Row>) returns (errors: seq<Violation>)
    ensures errors == Report(rows)
    ensures |errors| <= 3 * |rows|
    ensures forall v :: v in errors ==>
      v.row < |rows| && !CellOk(ColumnOf(v), rows[v.row]) && v == ViolationAt(ColumnOf(v), v.row, rows[v.row])
    ensures Ordered(errors)
    ensures errors == [] <==> forall i :: 0 <= i < |rows| ==> RowValid(rows[i])
  {
    errors := [];
    errors := errors + ColumnViolations(Date, rows);
    errors := errors + ColumnViolations(Workflow, rows);
    errors := errors + ColumnViolations(Quantity, rows);
    assert errors == Report(rows);
    ReportWellFormed(rows);
    ReportMessages(rows);
    ReportOrdered(rows);
    ReportEmptyIff(rows);
    forall v | v in errors
      ensures !CellOk(ColumnOf(v), rows[v.row])
    {
      ColumnViolationsExact(Date, rows);
      ColumnViolationsExact(Workflow, rows);
      ColumnViolationsExact(Quantity, rows);
    }
  }
}
