/**
 * The CSV files of the pipeline: `parse_csv` over the input file, and the output file that
 * `initialize_csv`, `append_to_csv` and `export_to_new_csv` write. A file is the list of
 * rows the `csv` module reads or writes.
 */
module Table {
  import opened Types
  import opened Records

  /** Why `parse_csv` fails: `next(reader)` finds no header line, or a data row cannot be decoded. */
  datatype LoadError = NoHeader | BadRow(line: nat, cause: DecodeError)

  /**
   * `parse_csv`: skips the header line, then builds one record per remaining line, in file
   * order; the first line that cannot be decoded aborts the whole load.
   */
  method ParseCsv(lines: seq<seq<string>>) returns (r: Result<seq<Data>, LoadError>)
    ensures r.Success? <==> |lines| > 0 && forall i :: 1 <= i < |lines| ==> DecodeRow(lines[i]).Success?
    ensures r.Success? ==>
      && |r.value| == |lines| - 1
      && forall i :: 0 <= i < |r.value| ==> DecodeRow(lines[i + 1]) == Success(r.value[i])
    ensures |lines| == 0 ==> r == Failure(NoHeader)
    ensures r.Failure? && |lines| > 0 ==>
      && r.error.BadRow?
      && 1 <= r.error.line < |lines|
      && DecodeRow(lines[r.error.line]) == Failure(r.error.cause)
      && forall i :: 1 <= i < r.error.line ==> DecodeRow(lines[i]).Success?
  {
    if |lines| == 0 {
      return Failure(NoHeader);
    }
    var records: seq<Data> := [];
    var i := 1;
    while i < |lines|
      invariant 1 <= i <= |lines|
      invariant |records| == i - 1
      invariant forall k :: 1 <= k < i ==> DecodeRow(lines[k]).Success?
      invariant forall k :: 0 <= k < |records| ==> DecodeRow(lines[k + 1]) == Success(records[k])
    {
      var decoded := DecodeRow(lines[i]);
      if decoded.Failure? {
        return Failure(BadRow(i, decoded.error));
      }
      records := records + [decoded.value];
      i := i + 1;
    }
    return Success(records);
  }

  /** The output file, held as the rows it contains. */
  class CsvFile {
    var rows: seq<seq<string>>

    /** A file that currently holds `rows`. */
    constructor (rows: seq<seq<string>>)
      ensures this.rows == rows
    {
      this.rows := rows;
    }

    /** `initialize_csv`: truncates the file and writes the header alone. */
    method Initialize()
      modifies this
      ensures rows == [Header]
    {
      rows := [Header];
    }

    /** `append_to_csv`: adds one row for the record after what is already there. */
    method Append(d: Data)
      modifies this
      ensures rows == old(rows) + [EncodeRow(d)]
    {
      rows := rows + [EncodeRow(d)];
    }

    /** `export_to_new_csv`: truncates the file and writes the header and one row per record. */
    method Export(records: seq<Data>)
      modifies this
      ensures rows == [Header] + EncodeRows(records)
    {
      rows := [Header] + EncodeRows(records);
    }
  }

  /**
   * Reading back a file written as a header plus one row per record gives, line by line,
   * each record without its country — for records whose station list is empty and whose
   * optional fields hold no present empty string.
   */
  lemma ReloadWrittenFile(ds: seq<Data>)
    requires forall i :: 0 <= i < |ds| ==> Canonical(ds[i]) && ds[i].stationIds == []
    ensures forall i :: 1 <= i < |[Header] + EncodeRows(ds)| ==>
      DecodeRow(([Header] + EncodeRows(ds))[i]) == Success(ds[i - 1].(country := None))
  {
    var file := [Header] + EncodeRows(ds);
    forall i | 1 <= i < |file|
      ensures DecodeRow(file[i]) == Success(ds[i - 1].(country := None))
    {
      assert file[i] == EncodeRow(ds[i - 1]);
      RowRoundTrip(ds[i - 1]);
    }
  }
}
