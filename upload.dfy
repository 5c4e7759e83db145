/**
 The part of `main` that decides what happens to an uploaded file: try the
 separators `,` then `;`, keep the first parse whose header is exactly
 DATE, WORKFLOW, QUANTITY, and validate that table. The CSV reader itself is a
 parameter: `read(sep)` is what parsing the file with separator `sep` gives,
 either a table or the failure it raised.
 */
module Upload {
  import opened Validator

  datatype Result<T> = Ok(value: T) | Err(reason: string)

  /** A parsed file: its header and its data rows in file order. */
  datatype Table = Table(columns: seq<string>, rows: seq<Row>)

  /** What the user is told about an upload. */
  datatype Outcome =
    | Unreadable(reason: string)
    | SchemaMismatch
    | Accepted(sep: char)
    | Rejected(sep: char, errors: seq<Violation>)

  /** The result of the separator search alone. */
  datatype Search = Found(sep: char, table: Table) | NotFound | Failed(reason: string)

  const SEPARATORS: seq<char> := [',', ';']

  const EXPECTED_COLUMNS: seq<string> := ["DATE", "WORKFLOW", "QUANTITY"]

  /** The separator search as a function: the first separator whose header is the expected one. */
  function FirstMatch(read: char -> Result<Table>, seps: seq<char>): Search
    decreases |seps|
  {
    if seps == [] then NotFound
    else match read(seps[0])
      case Err(e) => Failed(e)
      case Ok(t) => if t.columns == EXPECTED_COLUMNS then Found(seps[0], t) else FirstMatch(read, seps[1..])
  }

  /** Parsing with `sep` succeeded but gave some other header. */
  predicate Rejects(read: char -> Result<Table>, sep: char) {
    read(sep).Ok? && read(sep).value.columns != EXPECTED_COLUMNS
  }

  /** What an upload leads to, given the search result. */
  function Decide(s: Search): Outcome {
    match s
    case Failed(e) => Unreadable(e)
    case NotFound => SchemaMismatch
    case Found(sep, t) =>
      var errors := Report(t.rows);
      if errors == [] then Accepted(sep) else Rejected(sep, errors)
  }

  /**
   Where the search stops: at the first separator that does not parse to some
   other header, with a failure if that parse failed and with the table
   otherwise (whose header is then the expected one).
   */
  lemma {:induction false} FirstMatchStopsAt(read: char -> Result<Table>, seps: seq<char>, i: nat)
    requires i < |seps| && !Rejects(read, seps[i])
    requires forall j :: 0 <= j < i ==> Rejects(read, seps[j])
    ensures read(seps[i]).Err? ==> FirstMatch(read, seps) == Failed(read(seps[i]).reason)
    ensures read(seps[i]).Ok? ==>
      read(seps[i]).value.columns == EXPECTED_COLUMNS
      && FirstMatch(read, seps) == Found(seps[i], read(seps[i]).value)
    decreases i
  {
    if 0 < i {
      assert Rejects(read, seps[0]);
      FirstMatchStopsAt(read, seps[1..], i - 1);
    }
  }

  /** The search finds nothing iff every separator parses to some other header. */
  lemma {:induction false} FirstMatchNotFound(read: char -> Result<Table>, seps: seq<char>)
    ensures FirstMatch(read, seps) == NotFound <==> forall j :: 0 <= j < |seps| ==> Rejects(read, seps[j])
    decreases |seps|
  {
    if seps != [] {
      FirstMatchNotFound(read, seps[1..]);
      if forall j :: 0 <= j < |seps[1..]| ==> Rejects(read, seps[1..][j]) {
        forall j | 0 < j < |seps|
          ensures Rejects(read, seps[j])
        {
          assert seps[1..][j - 1] == seps[j];
        }
      }
    }
  }

  /**
   The file-handling branch of `main`: try each separator in turn, stop at the
   first whose header matches (`break`), report a schema mismatch if none did
   (the loop's `else`), otherwise validate that table. A parse failure ends the
   search at once, as the surrounding `except` does.
   */
  method CheckUpload(read: char -> Result<Table>) returns (outcome: Outcome)
    ensures outcome == Decide(FirstMatch(read, SEPARATORS))
    ensures outcome == SchemaMismatch <==> Rejects(read, ',') && Rejects(read, ';')
    ensures outcome.Accepted? || outcome.Rejected? ==>
      && read(outcome.sep).Ok? && read(outcome.sep).value.columns == EXPECTED_COLUMNS
      && (outcome.sep == ',' || (outcome.sep == ';' && Rejects(read, ',')))
    ensures outcome.Rejected? ==>
      outcome.errors == Report(read(outcome.sep).value.rows) && outcome.errors != []
    ensures outcome.Accepted? ==>
      forall i :: 0 <= i < |read(outcome.sep).value.rows| ==> RowValid(read(outcome.sep).value.rows[i])
  {
    var i := 0;
    var matched := false;
    var table := Table([], []);
    var sep := ',';
    while i < |SEPARATORS|
      invariant 0 <= i <= |SEPARATORS|
      invariant !matched
      invariant FirstMatch(read, SEPARATORS) == FirstMatch(read, SEPARATORS[i..])
      decreases |SEPARATORS| - i
    {
      var parsed := read(SEPARATORS[i]);
      if parsed.Err? {
        outcome := Unreadable(parsed.reason);
        return;
      }
      table := parsed.value;
      sep := SEPARATORS[i];
      if table.columns == EXPECTED_COLUMNS {
        matched := true;
        break;
      }
      i := i + 1;
    }
    assert matched ==> FirstMatch(read, SEPARATORS) == Found(sep, table);
    if !matched {
      outcome := SchemaMismatch;
      return;
    }
    var errors := ValidateData(table.rows);
    if errors != [] {
      outcome := Rejected(sep, errors);
    } else {
      outcome := Accepted(sep);
    }
  }

  /**
   A parse failure with `,` ends the upload even when `;` would have given the
   expected header.
   */
  lemma CommaFailureStopsSearch(read: char -> Result<Table>)
    requires read(',').Err?
    ensures Decide(FirstMatch(read, SEPARATORS)) == Unreadable(read(',').reason)
  {
  }

  /**
   The same table, once read from a comma file and once from a semicolon file
   whose comma parse gives some other header, yields the same violations.
   */
  lemma SeparatorDoesNotChangeReport(commaFile: char -> Result<Table>, semicolonFile: char -> Result<Table>)
    requires commaFile(',').Ok? && commaFile(',').value.columns == EXPECTED_COLUMNS
    requires Rejects(semicolonFile, ',')
    requires semicolonFile(';') == commaFile(',')
    ensures Decide(FirstMatch(commaFile, SEPARATORS)).Accepted? <==>
      Decide(FirstMatch(semicolonFile, SEPARATORS)).Accepted?
    ensures Decide(FirstMatch(commaFile, SEPARATORS)).Rejected? ==>
      Decide(FirstMatch(semicolonFile, SEPARATORS)).Rejected? &&
      Decide(FirstMatch(commaFile, SEPARATORS)).errors == Decide(FirstMatch(semicolonFile, SEPARATORS)).errors
  {
  }

  /** A header in another case or order is a schema mismatch, whatever the rows. */
  lemma WrongHeaderIsMismatch(rows: seq<Row>)
    ensures Decide(FirstMatch((sep: char) => Ok(Table(["Date", "Workflow", "Quantity"], rows)), SEPARATORS))
      == SchemaMismatch
    ensures Decide(FirstMatch((sep: char) => Ok(Table(["DATE", "QUANTITY", "WORKFLOW"], rows)), SEPARATORS))
      == SchemaMismatch
  {
  }
}
