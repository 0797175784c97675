/**
 * The enrichment script: load the roster, create the output file, look every record's
 * last name up and copy the country found on the page into the record, append each
 * record that went through without an exception, and finally rewrite the whole file.
 *
 * The HTTP request and the HTML parsing are replaced by one `Lookup` value per record,
 * and the possibility that `append_to_csv` itself raises by one flag per record.
 */
module Enrichment {
  import opened Types
  import opened Records
  import opened Table

  /** One element of class `detail-value` inside the search result; only its `title` attribute is read. */
  datatype Detail = Detail(title: Option<string>)

  /**
   * What looking up one last name produced. `Raised`: an exception escaped the lookup before
   * the append, from `requests.get`, the HTML parser or a `print`; every such exception leaves
   * the record as it was and skips its append. `Response`: the status code and, when the page
   * has an element of class `search-result`, the `detail-value` elements found inside it.
   */
  datatype Lookup =
    | Raised
    | Response(statusCode: int, searchResult: Option<seq<Detail>>)

  /** The country on a page: the title of the third detail value of the search result. */
  function ExtractCountry(searchResult: Option<seq<Detail>>): (r: Option<string>)
    ensures r.Some? <==> searchResult.Some? && |searchResult.value| > 2 && searchResult.value[2].title.Some?
    ensures r.Some? ==> r == searchResult.value[2].title
  {
    match searchResult
    case None => None
    case Some(details) => if |details| > 2 then details[2].title else None
  }

  /** The lookup for `d` yields the country `t`. */
  predicate Found(d: Data, lookup: Lookup, t: string)
  {
    && d.lastName.Some?
    && lookup.Response?
    && lookup.statusCode == 200
    && lookup.searchResult.Some?
    && |lookup.searchResult.value| > 2
    && lookup.searchResult.value[2].title == Some(t)
  }

  /**
   * The pass over one record raises: the URL concatenation raises a `TypeError` when the
   * last name is `None`, the request may raise, and so may the append.
   */
  predicate Raises(d: Data, lookup: Lookup, appendRaises: bool)
    ensures !Raises(d, lookup, appendRaises) ==> d.lastName.Some? && lookup.Response?
    ensures Raises(d, lookup, appendRaises) && !appendRaises ==> Enrich(d, lookup) == d
  {
    d.lastName.None? || lookup.Raised? || appendRaises
  }

  /** The record after one pass of the loop body. */
  function Enrich(d: Data, lookup: Lookup): (r: Data)
    ensures r == d.(country := r.country)
    ensures r.country != d.country ==>
      && d.lastName.Some? && lookup.Response? && lookup.statusCode == 200
      && r.country.Some? && r.country == ExtractCountry(lookup.searchResult)
  {
    if d.lastName.None? || lookup.Raised? || lookup.statusCode != 200 then d
    else match ExtractCountry(lookup.searchResult)
      case None => d
      case Some(t) => d.(country := Some(t))
  }

  /**
   * A pass changes nothing but the country; it sets the country to `t` exactly when the
   * lookup yields `t`, and otherwise leaves the record as it was.
   */
  lemma EnrichSetsCountry(d: Data, lookup: Lookup, t: string)
    ensures Enrich(d, lookup) == d.(country := Enrich(d, lookup).country)
    ensures Found(d, lookup, t) ==> Enrich(d, lookup) == d.(country := Some(t))
    ensures Enrich(d, lookup) != d ==> Found(d, lookup, Enrich(d, lookup).country.value)
    ensures d.country.None? ==> (Enrich(d, lookup).country == Some(t) <==> Found(d, lookup, t))
  {
  }

  /** The in-memory records after the loop: every record passed once through the body. */
  function EnrichAll(rs: seq<Data>, lookups: seq<Lookup>): (r: seq<Data>)
    requires |lookups| == |rs|
    ensures |r| == |rs|
    ensures forall i :: 0 <= i < |rs| ==> r[i] == rs[i].(country := r[i].country)
  {
    seq(|rs|, i requires 0 <= i < |rs| => Enrich(rs[i], lookups[i]))
  }

  /**
   * The positions, among the first `n` records, of those appended to the output file:
   * increasing, and holding exactly the records whose pass raises nothing.
   */
  function AppendedIndices(rs: seq<Data>, lookups: seq<Lookup>, appendRaises: seq<bool>, n: nat): (idx: seq<nat>)
    requires n <= |rs| && |lookups| == |rs| && |appendRaises| == |rs|
    ensures forall j :: 0 <= j < |idx| ==> idx[j] < n
  {
    if n == 0 then []
    else
      AppendedIndices(rs, lookups, appendRaises, n - 1)
        + (if Raises(rs[n - 1], lookups[n - 1], appendRaises[n - 1]) then [] else [n - 1])
  }

  /** The appended positions increase strictly and are exactly those whose pass raises nothing. */
  lemma {:induction false} AppendedIndicesSpec(rs: seq<Data>, lookups: seq<Lookup>, appendRaises: seq<bool>, n: nat)
    requires n <= |rs| && |lookups| == |rs| && |appendRaises| == |rs|
    ensures var idx := AppendedIndices(rs, lookups, appendRaises, n);
      && (forall j, k :: 0 <= j < k < |idx| ==> idx[j] < idx[k])
      && (forall i :: 0 <= i < n ==> (i in idx <==> !Raises(rs[i], lookups[i], appendRaises[i])))
  {
    if n > 0 {
      AppendedIndicesSpec(rs, lookups, appendRaises, n - 1);
    }
  }

  /** The records, as they stand when appended, whose rows are appended while the first `n` are processed. */
  function AppendedRecords(rs: seq<Data>, lookups: seq<Lookup>, appendRaises: seq<bool>, n: nat): (appended: seq<Data>)
    requires n <= |rs| && |lookups| == |rs| && |appendRaises| == |rs|
    ensures |appended| <= n
  {
    if n == 0 then []
    else
      AppendedRecords(rs, lookups, appendRaises, n - 1)
        + (if Raises(rs[n - 1], lookups[n - 1], appendRaises[n - 1]) then []
           else [Enrich(rs[n - 1], lookups[n - 1])])
  }

  /**
   * The appended records are, in order, the enriched records at the appended positions:
   * each record whose pass raises nothing is appended exactly once, in load order.
   */
  lemma {:induction false} AppendedRecordsAtIndices(rs: seq<Data>, lookups: seq<Lookup>, appendRaises: seq<bool>, n: nat)
    requires n <= |rs| && |lookups| == |rs| && |appendRaises| == |rs|
    ensures var idx := AppendedIndices(rs, lookups, appendRaises, n);
      && |AppendedRecords(rs, lookups, appendRaises, n)| == |idx|
      && forall j :: 0 <= j < |idx| ==>
           AppendedRecords(rs, lookups, appendRaises, n)[j] == Enrich(rs[idx[j]], lookups[idx[j]])
  {
    if n > 0 {
      AppendedRecordsAtIndices(rs, lookups, appendRaises, n - 1);
    }
  }

  /**
   * The per-record loop over `data_list`. Records are updated in place; one row is appended
   * for each record whose pass raises nothing, in load order, and the loop always moves on.
   */
  method EnrichRecords(records: array<Data>, lookups: seq<Lookup>, appendRaises: seq<bool>, out: CsvFile)
    requires records.Length == |lookups| && records.Length == |appendRaises|
    modifies records, out
    ensures records[..] == EnrichAll(old(records[..]), lookups)
    ensures out.rows == old(out.rows) + EncodeRows(AppendedRecords(old(records[..]), lookups, appendRaises, records.Length))
  {
    ghost var original := records[..];
    for i := 0 to records.Length
      invariant forall k :: 0 <= k < i ==> records[k] == Enrich(original[k], lookups[k])
      invariant forall k :: i <= k < records.Length ==> records[k] == original[k]
      invariant out.rows == old(out.rows) + EncodeRows(AppendedRecords(original, lookups, appendRaises, i))
    {
      ghost var before := AppendedRecords(original, lookups, appendRaises, i);
      EnrichOne(records, i, lookups[i], appendRaises[i], out);
      if Raises(original[i], lookups[i], appendRaises[i]) {
        assert AppendedRecords(original, lookups, appendRaises, i + 1) == before;
      } else {
        EncodeRowsAppend(before, Enrich(original[i], lookups[i]));
        assert AppendedRecords(original, lookups, appendRaises, i + 1) == before + [Enrich(original[i], lookups[i])];
      }
    }
    assert records[..] == EnrichAll(original, lookups);
  }

  /**
   * One pass of the loop body over `records[i]`: the record is enriched in place, and its row
   * is appended unless the pass raises.
   */
  method EnrichOne(records: array<Data>, i: nat, lookup: Lookup, appendRaises: bool, out: CsvFile)
    requires i < records.Length
    modifies records, out
    ensures records[..] == old(records[..])[i := Enrich(old(records[i]), lookup)]
    ensures out.rows == old(out.rows) +
      (if Raises(old(records[i]), lookup, appendRaises) then [] else [EncodeRow(Enrich(old(records[i]), lookup))])
  {
    var data := records[i];
    // With no last name the URL concatenation raises before any request is made.
    if data.lastName.Some? && lookup.Response? {
      if lookup.statusCode == 200 {
        var found := ExtractCountry(lookup.searchResult);
        if found.Some? {
          // `data` is the list's own object: setting its country updates the list in place.
          records[i] := data.(country := found);
        }
      }
      if !appendRaises {
        out.Append(records[i]);
      }
    }
  }

  /**
   * The whole script: `parse_csv`, `initialize_csv`, the loop, then `export_to_new_csv`.
   * A load failure stops the script before the output file is touched. Otherwise the final
   * file is the header and every record in load order, whatever happened to each one.
   */
  method Run(input: seq<seq<string>>, lookups: seq<Lookup>, appendRaises: seq<bool>, out: CsvFile)
    returns (r: Result<seq<Data>, LoadError>)
    requires |input| <= |lookups| + 1 && |appendRaises| == |lookups|
    modifies out
    ensures r.Success? <==> |input| > 0 && forall i :: 1 <= i < |input| ==> DecodeRow(input[i]).Success?
    ensures r.Failure? ==> out.rows == old(out.rows)
    ensures r.Success? ==>
      && |r.value| == |input| - 1
      && (forall i :: 0 <= i < |r.value| ==> r.value[i] == Enrich(DecodeRow(input[i + 1]).value, lookups[i]))
      && out.rows == [Header] + EncodeRows(r.value)
  {
    var loaded := ParseCsv(input);
    if loaded.Failure? {
      return Failure(loaded.error);
    }
    var dataList := loaded.value;
    var n := |dataList|;
    var records := new Data[n](i requires 0 <= i < n => dataList[i]);
    assert records[..] == dataList;
    out.Initialize();
    EnrichRecords(records, lookups[..n], appendRaises[..n], out);
    out.Export(records[..]);
    r := Success(records[..]);
  }

  // ---------------------------------------------------------------- properties of a run

  /** When no pass raises, every record is appended, in order. */
  lemma {:induction false} AllAppended(rs: seq<Data>, lookups: seq<Lookup>, appendRaises: seq<bool>, n: nat)
    requires n <= |rs| && |lookups| == |rs| && |appendRaises| == |rs|
    requires forall i :: 0 <= i < n ==> !Raises(rs[i], lookups[i], appendRaises[i])
    ensures AppendedIndices(rs, lookups, appendRaises, n) == seq(n, i => i)
  {
    if n > 0 {
      AllAppended(rs, lookups, appendRaises, n - 1);
      assert seq(n - 1, i => i) + [n - 1] == seq(n, i => i);
    }
  }

  /**
   * When no pass raises, the incrementally appended rows are exactly the rows of the final
   * rewrite, so an interrupted run and a completed one differ only in their row count.
   */
  lemma CheckpointMatchesExport(rs: seq<Data>, lookups: seq<Lookup>, appendRaises: seq<bool>)
    requires |lookups| == |rs| && |appendRaises| == |rs|
    requires forall i :: 0 <= i < |rs| ==> !Raises(rs[i], lookups[i], appendRaises[i])
    ensures AppendedRecords(rs, lookups, appendRaises, |rs|) == EnrichAll(rs, lookups)
  {
    AllAppended(rs, lookups, appendRaises, |rs|);
    AppendedRecordsAtIndices(rs, lookups, appendRaises, |rs|);
  }

  /**
   * When exactly the pass over record `k` raises, every other record is appended, in order,
   * and record `k` is skipped.
   */
  lemma {:induction false} OneFailure(rs: seq<Data>, lookups: seq<Lookup>, appendRaises: seq<bool>, k: nat, n: nat)
    requires n <= |rs| && |lookups| == |rs| && |appendRaises| == |rs|
    requires k < |rs| && Raises(rs[k], lookups[k], appendRaises[k])
    requires forall i :: 0 <= i < |rs| && i != k ==> !Raises(rs[i], lookups[i], appendRaises[i])
    ensures |AppendedIndices(rs, lookups, appendRaises, n)| == if n <= k then n else n - 1
    ensures forall j :: 0 <= j < |AppendedIndices(rs, lookups, appendRaises, n)| ==>
      AppendedIndices(rs, lookups, appendRaises, n)[j] == if j < k then j else j + 1
  {
    if n > 0 {
      OneFailure(rs, lookups, appendRaises, k, n - 1);
      var prev := AppendedIndices(rs, lookups, appendRaises, n - 1);
      var idx := AppendedIndices(rs, lookups, appendRaises, n);
      if n - 1 == k {
        assert idx == prev;
      } else {
        assert !Raises(rs[n - 1], lookups[n - 1], appendRaises[n - 1]);
        assert idx == prev + [n - 1];
        SkipStep(prev, k, n - 1);
      }
    }
  }

  /** Extending the positions `0 .. m-1` with `k` skipped by the next position `m` keeps `k` skipped. */
  lemma SkipStep(prev: seq<nat>, k: nat, m: nat)
    requires k != m
    requires |prev| == if m <= k then m else m - 1
    requires forall j :: 0 <= j < |prev| ==> prev[j] == if j < k then j else j + 1
    ensures forall j :: 0 <= j < |prev + [m]| ==> (prev + [m])[j] == if j < k then j else j + 1
  {
  }

  /**
   * Five records, the third of whose lookups raises: four rows are appended, the final file
   * still holds all five records, and the third keeps its country.
   */
  lemma FaultInjection(rs: seq<Data>, lookups: seq<Lookup>)
    requires |rs| == 5 && |lookups| == 5
    requires forall i :: 0 <= i < 5 ==> rs[i].lastName.Some?
    requires lookups[2] == Raised
    requires forall i :: 0 <= i < 5 && i != 2 ==> lookups[i].Response?
    ensures |AppendedRecords(rs, lookups, [false, false, false, false, false], 5)| == 4
    ensures |[Header] + EncodeRows(EnrichAll(rs, lookups))| == 6
    ensures EnrichAll(rs, lookups)[2] == rs[2]
  {
    OneFailure(rs, lookups, [false, false, false, false, false], 2, 5);
    AppendedRecordsAtIndices(rs, lookups, [false, false, false, false, false], 5);
  }

  /**
   * Two records: "Smith", whose page names the United Kingdom, and "Xyzzyplonk", whose
   * lookup answers 404. Both are appended; only Smith gets a country.
   */
  lemma TwoRecordScenario(smith: Data, other: Data)
    requires smith.lastName == Some("Smith") && smith.country.None?
    requires other.lastName == Some("Xyzzyplonk") && other.country.None?
    ensures var lookups := [
        Response(200, Some([Detail(None), Detail(None), Detail(Some("United Kingdom"))])),
        Response(404, None)];
      var final := EnrichAll([smith, other], lookups);
      && final[0].country == Some("United Kingdom")
      && final[1].country.None?
      && EncodeRows(final)[0][16] == "United Kingdom"
      && EncodeRows(final)[1][16] == ""
      && AppendedRecords([smith, other], lookups, [false, false], 2) == final
  {
    var lookups := [
      Response(200, Some([Detail(None), Detail(None), Detail(Some("United Kingdom"))])),
      Response(404, None)];
    CheckpointMatchesExport([smith, other], lookups, [false, false]);
  }
}
