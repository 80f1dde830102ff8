/**
 * `CredentialRow` and `load_rows_from_csv` (app.py): the rows of the uploaded
 * CSV file, validated and turned into the (output name, login, password)
 * triples a batch is generated from.
 *
 * The CSV text itself is not parsed here: the input is what `csv.DictReader`
 * yields, the header (`fieldnames`, absent for an empty file) and one record
 * per data row, a record mapping column names to field values.
 */
module Credentials {
  import opened Results
  import opened Text

  /** One output file to produce: its name and the credentials written into it. */
  datatype CredentialRow = CredentialRow(outputName: string, login: string, password: string)

  /**
   * A record of `csv.DictReader`. A column the row has no value for (a short
   * row, where the reader fills in `None`) is a missing key.
   */
  type Record = map<string, string>

  /** The ways `load_rows_from_csv` rejects a file (each a `ValueError` in the source). */
  datatype CsvError =
    | MissingColumns(found: Option<seq<string>>)   // a required column is absent
    | EmptyOutputName(line: nat)                   // a record's output name is blank
    | EmptyCredentials(line: nat)                  // a record's login or password is blank
    | NoRecords                                    // the file has no data row

  /** The three columns the file must have. */
  const Required: set<string> := {"output_name", "login", "password"}

  /** The header names every required column. */
  predicate HasRequired(header: Option<seq<string>>) {
    header.Some? && forall name :: name in Required ==> name in header.value
  }

  /** `(record.get(key) or "").strip()`. */
  function Field(record: Record, key: string): (r: string)
    ensures key !in record ==> r == []
  {
    if key in record then Strip(record[key]) else []
  }

  /** The row a record gives, every field stripped of surrounding whitespace. */
  function RowOf(record: Record): CredentialRow {
    CredentialRow(Field(record, "output_name"), Field(record, "login"), Field(record, "password"))
  }

  /** Every field of a row is stripped, and stripping it again changes nothing. */
  lemma RowOfStripped(record: Record)
    ensures var row := RowOf(record);
      && Stripped(row.outputName) && Stripped(row.login) && Stripped(row.password)
      && Strip(row.outputName) == row.outputName && Strip(row.login) == row.login
      && Strip(row.password) == row.password
  {
    var keys := ["output_name", "login", "password"];
    forall key | key in keys && key in record
      ensures Stripped(Field(record, key)) && Strip(Field(record, key)) == Field(record, key)
    {
      StripSpec(record[key]);
      StripIdempotent(record[key]);
    }
  }

  /** The rows of all the records, in order. */
  function RowsOf(records: seq<Record>): (rows: seq<CredentialRow>)
    ensures |rows| == |records|
  {
    if records == [] then [] else RowsOf(records[..|records| - 1]) + [RowOf(records[|records| - 1])]
  }

  /** Each row comes from the record at the same position. */
  lemma {:induction false} RowsOfAt(records: seq<Record>, i: nat)
    requires i < |records|
    ensures RowsOf(records)[i] == RowOf(records[i])
  {
    if i < |records| - 1 {
      RowsOfAt(records[..|records| - 1], i);
    }
  }

  /**
   * What is wrong with the row read from line `line`, if anything: a blank
   * output name, or, unless blank credentials are allowed, a blank login or
   * password.
   */
  function Problem(row: CredentialRow, line: nat, allowEmptyCredentials: bool): (r: Option<CsvError>)
    ensures r.None? <==> (row.outputName != [] &&
      (allowEmptyCredentials || (row.login != [] && row.password != [])))
    ensures r.Some? ==> (r.value == EmptyOutputName(line) <==> row.outputName == [])
    ensures r.Some? ==> r.value == EmptyOutputName(line) || r.value == EmptyCredentials(line)
  {
    if row.outputName == [] then Some(EmptyOutputName(line))
    else if !allowEmptyCredentials && (row.login == [] || row.password == []) then Some(EmptyCredentials(line))
    else None
  }

  /** The line a record comes from: the header is line 1. */
  function LineOf(index: nat): nat {
    index + 2
  }

  /** Index of the first row with a problem, at or after `from`; `|rows|` when there is none. */
  function FirstProblem(rows: seq<CredentialRow>, allowEmptyCredentials: bool, from: nat): (k: nat)
    requires from <= |rows|
    ensures from <= k <= |rows|
    ensures forall i :: from <= i < k ==> Problem(rows[i], LineOf(i), allowEmptyCredentials).None?
    ensures k < |rows| ==> Problem(rows[k], LineOf(k), allowEmptyCredentials).Some?
    decreases |rows| - from
  {
    if from == |rows| then from
    else if Problem(rows[from], LineOf(from), allowEmptyCredentials).Some? then from
    else FirstProblem(rows, allowEmptyCredentials, from + 1)
  }

  /**
   * Allowing blank credentials only removes problems: the first problem comes
   * no earlier than when they are refused.
   */
  lemma {:induction false} AllowingBlanksDefersProblems(rows: seq<CredentialRow>, from: nat)
    requires from <= |rows|
    ensures FirstProblem(rows, false, from) <= FirstProblem(rows, true, from)
    decreases |rows| - from
  {
    if from < |rows| && Problem(rows[from], LineOf(from), false).None? {
      AllowingBlanksDefersProblems(rows, from + 1);
    }
  }

  /**
   * `load_rows_from_csv`: rejects a header without the three columns, then
   * reads the records in order, stopping at the first one with a problem;
   * rejects a file with no record. The rows are the records' stripped fields,
   * in order: each has an output name, and a login and a password unless blank
   * credentials are allowed.
   */
  method LoadRowsFromCsv(header: Option<seq<string>>, records: seq<Record>, allowEmptyCredentials: bool)
    returns (r: Result<seq<CredentialRow>, CsvError>)
    ensures !HasRequired(header) ==> r == Err(MissingColumns(header))
    ensures HasRequired(header) ==>
      var rows := RowsOf(records);
      var k := FirstProblem(rows, allowEmptyCredentials, 0);
      if k < |rows| then r == Err(Problem(rows[k], LineOf(k), allowEmptyCredentials).value)
      else if rows == [] then r == Err(NoRecords)
      else r == Ok(rows)
    ensures r.Ok? ==> |r.value| == |records| > 0
    ensures r.Ok? ==> forall row :: row in r.value ==>
      && row.outputName != []
      && (allowEmptyCredentials || (row.login != [] && row.password != []))
  {
    if !HasRequired(header) {
      return Err(MissingColumns(header));
    }
    ghost var all := RowsOf(records);
    ghost var k := FirstProblem(all, allowEmptyCredentials, 0);
    var rows: seq<CredentialRow> := [];
    var i := 0;
    while i < |records|
      invariant i <= k && rows == RowsOf(records[..i])
    {
      var row := RowOf(records[i]);
      RowsOfAt(records, i);
      assert Problem(all[i], LineOf(i), allowEmptyCredentials).Some? ==> k == i;
      if row.outputName == [] {
        return Err(EmptyOutputName(LineOf(i)));
      }
      if !allowEmptyCredentials && (row.login == [] || row.password == []) {
        return Err(EmptyCredentials(LineOf(i)));
      }
      assert RowsOf(records[..i + 1]) == RowsOf(records[..i]) + [row] by {
        assert records[..i + 1][..i] == records[..i];
        assert records[..i + 1][i] == records[i];
      }
      rows := rows + [row];
      i := i + 1;
    }
    assert records[..i] == records;
    if rows == [] {
      return Err(NoRecords);
    }
    return Ok(rows);
  }
}
