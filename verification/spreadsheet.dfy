/**
  The spreadsheet side of the main process: a parsed CSV data row and the
  validity filter applied when a CSV file is selected.
*/
module Spreadsheet {
  import opened Wrappers
  import opened Text
  import opened Seqs

  /** One parsed CSV data row: column name to cell text. */
  type Row = map<string, string>

  /** The column holding the desired base name of an image. */
  const FileNameColumn: string := "FileName"

  /** The source's `value && value.trim().length > 0`. */
  predicate Filled(v: string) {
    v != "" && |Trim(v)| > 0
  }

  /** A row is kept when its FileName is filled and some value of the row is filled. */
  predicate IsValidRow(row: Row) {
    && FileNameColumn in row
    && Filled(row[FileNameColumn])
    && exists k :: k in row && Filled(row[k])
  }

  /**
    The "some value is filled" conjunct adds nothing: a row is valid exactly
    when its FileName has a character that `trim` keeps.
  */
  lemma ValidRowIff(row: Row)
    ensures IsValidRow(row) <==> FileNameColumn in row && HasVisibleChar(row[FileNameColumn])
  {
    if FileNameColumn in row && HasVisibleChar(row[FileNameColumn]) {
      assert Filled(row[FileNameColumn]);
    }
  }

  /** The rows kept by the CSV selection, in file order. */
  function ValidRows(rows: seq<Row>): seq<Row> {
    Filter(IsValidRow, rows)
  }

  /** The filter keeps every occurrence of the rows whose FileName has a visible character, and no other row. */
  lemma ValidRowsCounts(rows: seq<Row>)
    ensures forall row ::
              multiset(ValidRows(rows))[row]
              == (if FileNameColumn in row && HasVisibleChar(row[FileNameColumn]) then multiset(rows)[row] else 0)
  {
    FilterCounts(IsValidRow, rows);
    forall row
      ensures multiset(ValidRows(rows))[row]
              == (if FileNameColumn in row && HasVisibleChar(row[FileNameColumn]) then multiset(rows)[row] else 0)
    {
      ValidRowIff(row);
    }
  }

  /** Every kept row has a FileName with a visible character. */
  lemma ValidRowsVisible(rows: seq<Row>)
    ensures forall i :: 0 <= i < |ValidRows(rows)| ==>
      FileNameColumn in ValidRows(rows)[i] && HasVisibleChar(ValidRows(rows)[i][FileNameColumn])
  {
    var v := ValidRows(rows);
    forall i | 0 <= i < |v|
      ensures FileNameColumn in v[i] && HasVisibleChar(v[i][FileNameColumn])
    {
      ValidRowIff(v[i]);
    }
  }

  /** A row of the input is kept exactly when its FileName has a visible character. */
  lemma ValidRowsMembers(rows: seq<Row>)
    ensures forall i :: 0 <= i < |rows| ==>
      (rows[i] in ValidRows(rows) <==> FileNameColumn in rows[i] && HasVisibleChar(rows[i][FileNameColumn]))
  {
    FilterMembers(IsValidRow, rows);
    forall i | 0 <= i < |rows|
      ensures rows[i] in ValidRows(rows) <==> FileNameColumn in rows[i] && HasVisibleChar(rows[i][FileNameColumn])
    {
      ValidRowIff(rows[i]);
    }
  }

  /**
    The filter keeps exactly the rows whose FileName has a visible character,
    every occurrence of them and in their original order, and applying it again
    changes nothing.
  */
  lemma ValidRowsKeepVisibleNames(rows: seq<Row>)
    ensures forall i :: 0 <= i < |ValidRows(rows)| ==>
      FileNameColumn in ValidRows(rows)[i] && HasVisibleChar(ValidRows(rows)[i][FileNameColumn])
    ensures forall row ::
              multiset(ValidRows(rows))[row]
              == (if FileNameColumn in row && HasVisibleChar(row[FileNameColumn]) then multiset(rows)[row] else 0)
    ensures IsSubsequence(ValidRows(rows), rows)
    ensures ValidRows(ValidRows(rows)) == ValidRows(rows)
  {
    ValidRowsVisible(rows);
    ValidRowsCounts(rows);
    FilterIsSubsequence(IsValidRow, rows);
    FilterIdempotent(IsValidRow, rows);
  }

  /**
    The body of the CSV selection handler once the file is read: a parse error
    is passed on, otherwise the valid rows are returned.
  */
  function SelectCsv(parsed: Result<seq<Row>>): (r: Result<seq<Row>>)
    ensures r.Err? <==> parsed.Err?
    ensures r.Err? ==> r.message == parsed.message
    ensures r.Ok? ==> IsSubsequence(r.value, parsed.value)
    ensures r.Ok? ==> forall i :: 0 <= i < |r.value| ==>
      FileNameColumn in r.value[i] && HasVisibleChar(r.value[i][FileNameColumn])
    ensures r.Ok? ==> forall i :: 0 <= i < |parsed.value| ==>
      (parsed.value[i] in r.value <==>
       FileNameColumn in parsed.value[i] && HasVisibleChar(parsed.value[i][FileNameColumn]))
    ensures r.Ok? ==> r.value == ValidRows(parsed.value)
  {
    match parsed
    case Err(m) => Err(m)
    case Ok(rows) =>
      ValidRowsVisible(rows);
      ValidRowsMembers(rows);
      FilterIsSubsequence(IsValidRow, rows);
      Ok(ValidRows(rows))
  }
}
