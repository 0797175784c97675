/**
 * The roster record (`Data`) and the codec between one record and one CSV row: the
 * decoding done inside `parse_csv` and the encoding done by `append_to_csv` and
 * `export_to_new_csv`. A row is the list of cells the `csv` module reads or writes.
 */
module Records {
  import opened Types
  import opened PyText

  /** One person or organisation of the roster; `country` is the field the enrichment fills in. */
  datatype Data = Data(
    uuid: string,
    path: Option<string>,
    publishedDate: string,
    updatedDate: string,
    name: string,
    firstName: Option<string>,
    lastName: Option<string>,
    role: Option<string>,
    isOrganisation: bool,
    body: Option<string>,
    gender: Option<string>,
    url: Option<string>,
    stationIds: seq<int>,
    alternateNames: Option<string>,
    relationships: Option<string>,
    connections: Option<string>,
    country: Option<string>)

  /** Why a row cannot be decoded: an `IndexError` on a missing cell or a `ValueError` from `int()`. */
  datatype DecodeError = MissingCell(index: nat) | BadInteger(literal: string)

  /** The header row, written both when the output file is created and when it is rewritten. */
  const Header: seq<string> := [
    "uuid", "path", "published_date", "updated_date", "name", "first_name", "last_name",
    "role", "isOrganisation", "body", "gender", "url", "station_id", "alternateNames",
    "relationships", "connections", "country"]

  /**
   * The header row names 17 columns, `country` last. It is not itself a record: its
   * `station_id` cell fails to decode, which is why `parse_csv` skips it.
   */
  lemma HeaderRow()
    ensures |Header| == 17 && Header[12] == "station_id" && Header[16] == "country"
    ensures DecodeRow(Header) == Failure(BadInteger("tation_i"))
  {
    assert |Header| == 17;
    assert Header[12] == "station_id";
    StationHeaderCell();
  }

  /** The `station_id` header cell is not a station list. */
  lemma StationHeaderCell()
    ensures DecodeStations("station_id") == Failure("tation_i")
  {
    assert Inner("station_id") == "tation_i";
    assert Split("tation_i", ',') == ["tation_i"] by {
      SplitPlain("tation_i", ',');
    }
    assert StripEnd(StripStart("tation_i")) == "tation_i";
    assert ParseInt("tation_i") == None;
  }

  // ---------------------------------------------------------------- optional strings

  /** `cell if cell else None`. */
  function DecodeOptional(cell: string): (r: Option<string>)
    ensures r != Some("")
    ensures EncodeOptional(r) == cell
  {
    if cell == "" then None else Some(cell)
  }

  /** The `csv` writer's cell for an optional value: `None` becomes the empty cell. */
  function EncodeOptional(o: Option<string>): (r: string)
    ensures r == "" <==> o == None || o == Some("")
  {
    match o
    case None => ""
    case Some(s) => s
  }

  /** Encoding then decoding an optional value restores it, except a present empty string. */
  lemma OptionalRoundTrip(o: Option<string>)
    ensures DecodeOptional(EncodeOptional(o)) == o <==> o != Some("")
  {
  }

  // ---------------------------------------------------------------- isOrganisation

  /** `cell.lower() == 'true'`. */
  function DecodeFlag(cell: string): (r: bool)
    ensures r <==> |cell| == 4 && cell[0] in "tT" && cell[1] in "rR" && cell[2] in "uU" && cell[3] in "eE"
  {
    var low := Lower(cell);
    assert |cell| == 4 ==> low == [LowerChar(cell[0]), LowerChar(cell[1]), LowerChar(cell[2]), LowerChar(cell[3])];
    low == "true"
  }

  /** `str(b)`, as the `csv` writer renders a boolean. */
  function EncodeFlag(b: bool): (r: string)
    ensures DecodeFlag(r) == b
  {
    if b then "True" else "False"
  }

  // ---------------------------------------------------------------- station_id

  /** `[int(x) for x in pieces]`; the failure carries the first piece `int()` rejects. */
  function ParseInts(pieces: seq<string>): (r: Result<seq<int>, string>)
    ensures r.Success? ==>
      && |r.value| == |pieces|
      && forall i :: 0 <= i < |pieces| ==> ParseInt(pieces[i]) == Some(r.value[i])
    ensures r.Failure? ==>
      exists i :: 0 <= i < |pieces| && pieces[i] == r.error && ParseInt(pieces[i]).None?
                  && forall j :: 0 <= j < i ==> ParseInt(pieces[j]).Some?
  {
    if pieces == [] then Success([])
    else match ParseInt(pieces[0])
      case None => Failure(pieces[0])
      case Some(v) =>
        match ParseInts(pieces[1..])
        case Failure(bad) => Failure(bad)
        case Success(vs) => Success([v] + vs)
  }

  /** `[int(x) for x in cell[1:-1].split(',')] if cell else []`. */
  function DecodeStations(cell: string): (r: Result<seq<int>, string>)
    ensures cell == "" ==> r == Success([])
    ensures r.Failure? ==>
      cell != "" && r.error in Split(Inner(cell), ',') && ParseInt(r.error).None?
    ensures r.Success? && cell != "" ==>
      && |r.value| == |Split(Inner(cell), ',')|
      && forall i :: 0 <= i < |r.value| ==> ParseInt(Split(Inner(cell), ',')[i]) == Some(r.value[i])
  {
    if cell == "" then Success([]) else ParseInts(Split(Inner(cell), ','))
  }

  /** The `str()` of every station id, in order. */
  function ShowInts(ids: seq<int>): (r: seq<string>)
    ensures |r| == |ids|
  {
    seq(|ids|, i requires 0 <= i < |ids| => ShowInt(ids[i]))
  }

  /** `",".join(map(str, ids))`: no brackets around the list. */
  function EncodeStations(ids: seq<int>): (r: string)
    ensures r == "" <==> ids == []
    ensures ids != [] ==> Split(r, ',') == ShowInts(ids)
  {
    if ids != [] then
      ShowIntsCommaFree(ids);
      SplitJoin(ShowInts(ids), ',');
      Join(ShowInts(ids), ',')
    else Join(ShowInts(ids), ',')
  }

  // ---------------------------------------------------------------- rows

  /** No optional field other than `country` holds a present empty string. */
  predicate Canonical(d: Data)
  {
    && d.path != Some("")
    && d.firstName != Some("")
    && d.lastName != Some("")
    && d.role != Some("")
    && d.body != Some("")
    && d.gender != Some("")
    && d.url != Some("")
    && d.alternateNames != Some("")
    && d.relationships != Some("")
    && d.connections != Some("")
  }

  /**
   * The record `parse_csv` builds from one row. Cells are read left to right, so a row
   * shorter than 13 cells fails on its first missing cell before the station list is
   * parsed, and a bad station list fails before cells 13 to 15 are looked at. Cell 16,
   * the country, is never read.
   */
  function DecodeRow(row: seq<string>): (r: Result<Data, DecodeError>)
    ensures r.Success? <==> |row| >= 16 && DecodeStations(row[12]).Success?
    ensures r.Success? ==> r.value.country == None && Canonical(r.value)
    ensures r.Success? ==> r.value.stationIds == DecodeStations(row[12]).value
    ensures |row| < 13 ==> r == Failure(MissingCell(|row|))
    ensures |row| >= 13 && DecodeStations(row[12]).Failure? ==>
      r == Failure(BadInteger(DecodeStations(row[12]).error))
    ensures |row| >= 13 && DecodeStations(row[12]).Success? && |row| < 16 ==>
      r == Failure(MissingCell(|row|))
  {
    if |row| < 13 then Failure(MissingCell(|row|))
    else match DecodeStations(row[12])
      case Failure(bad) => Failure(BadInteger(bad))
      case Success(ids) =>
        if |row| < 16 then Failure(MissingCell(|row|))
        else Success(Data(
          uuid := row[0],
          path := DecodeOptional(row[1]),
          publishedDate := row[2],
          updatedDate := row[3],
          name := row[4],
          firstName := DecodeOptional(row[5]),
          lastName := DecodeOptional(row[6]),
          role := DecodeOptional(row[7]),
          isOrganisation := DecodeFlag(row[8]),
          body := DecodeOptional(row[9]),
          gender := DecodeOptional(row[10]),
          url := DecodeOptional(row[11]),
          stationIds := ids,
          alternateNames := DecodeOptional(row[13]),
          relationships := DecodeOptional(row[14]),
          connections := DecodeOptional(row[15]),
          country := None))
  }

  /** The row written for one record, in header order with `country` last. */
  function EncodeRow(d: Data): (r: seq<string>)
    ensures |r| == |Header|
    ensures Header[12] == "station_id" && r[12] == EncodeStations(d.stationIds)
    ensures Header[16] == "country" && r[16] == EncodeOptional(d.country)
  {
    [ d.uuid,
      EncodeOptional(d.path),
      d.publishedDate,
      d.updatedDate,
      d.name,
      EncodeOptional(d.firstName),
      EncodeOptional(d.lastName),
      EncodeOptional(d.role),
      EncodeFlag(d.isOrganisation),
      EncodeOptional(d.body),
      EncodeOptional(d.gender),
      EncodeOptional(d.url),
      EncodeStations(d.stationIds),
      EncodeOptional(d.alternateNames),
      EncodeOptional(d.relationships),
      EncodeOptional(d.connections),
      EncodeOptional(d.country) ]
  }

  /** The rows written for a list of records, one per record, in list order. */
  function EncodeRows(ds: seq<Data>): (r: seq<seq<string>>)
    ensures |r| == |ds|
  {
    seq(|ds|, i requires 0 <= i < |ds| => EncodeRow(ds[i]))
  }

  /** Writing one more record adds its row after the others. */
  lemma EncodeRowsAppend(ds: seq<Data>, d: Data)
    ensures EncodeRows(ds + [d]) == EncodeRows(ds) + [EncodeRow(d)]
  {
  }

  // ---------------------------------------------------------------- laws of the station codec

  /** `str()` never writes a comma, so the pieces of a station list are separable. */
  lemma ShowIntsCommaFree(ids: seq<int>)
    ensures forall i :: 0 <= i < |ids| ==> ',' !in ShowInts(ids)[i]
  {
    forall i | 0 <= i < |ids| ensures ',' !in ShowInts(ids)[i] {
      var s := ShowInt(ids[i]);
      assert forall k :: 0 <= k < |s| ==> s[k] != ',';
    }
  }

  /** `int()` reads back every `str()` of a station list. */
  lemma {:induction false} ParseShowInts(ids: seq<int>)
    ensures ParseInts(ShowInts(ids)) == Success(ids)
  {
    if ids != [] {
      ParseShowInt(ids[0]);
      assert ShowInts(ids)[1..] == ShowInts(ids[1..]);
      ParseShowInts(ids[1..]);
      assert [ids[0]] + ids[1..] == ids;
    }
  }

  /**
   * The decoder is the inverse of the bracketed join `"[" + ",".join(...) + "]"` for every
   * non-empty station list: the brackets it strips are the ones the encoder leaves out.
   */
  lemma BracketedStationsRoundTrip(ids: seq<int>)
    requires ids != []
    ensures DecodeStations("[" + EncodeStations(ids) + "]") == Success(ids)
  {
    var pieces := ShowInts(ids);
    var e := EncodeStations(ids);
    var cell := "[" + e + "]";
    assert Inner(cell) == e;
    ShowIntsCommaFree(ids);
    SplitJoin(pieces, ',');
    ParseShowInts(ids);
  }

  /**
   * The station list written to the output file decodes back to itself only when it is
   * empty: a written non-empty list either fails to parse or parses to a different list.
   */
  lemma StationsRoundTrip(ids: seq<int>)
    ensures DecodeStations(EncodeStations(ids)) == Success(ids) <==> ids == []
  {
    if ids != [] && DecodeStations(EncodeStations(ids)) == Success(ids) {
      FirstPieceIsNotFirstId(ids);
      assert false;
    }
  }

  /** The first piece the decoder cuts from a written non-empty list never reads back as its first id. */
  lemma FirstPieceIsNotFirstId(ids: seq<int>)
    requires ids != []
    ensures DecodeStations(EncodeStations(ids)) != Success(ids)
  {
    if |ids| == 1 {
      SingleIdIsNotRead(ids);
    } else {
      LeadingIdIsNotRead(ids);
    }
  }

  /** A single written id `n` is read as `str(n)` without its first and last digits. */
  lemma SingleIdIsNotRead(ids: seq<int>)
    requires |ids| == 1
    ensures DecodeStations(EncodeStations(ids)) != Success(ids)
  {
    var a := ShowInts(ids)[0];
    var e := EncodeStations(ids);
    assert e == a;
    var first := Inner(a);
    if |a| > 2 {
      assert ',' !in first by {
        assert forall k :: 0 <= k < |first| ==> first[k] == a[k + 1] && IsDigit(a[k + 1]);
      }
      SplitPlain(first, ',');
    }
    assert Split(Inner(e), ',')[0] == first;
    assert forall k :: 0 <= k < |first| ==> IsDigit(first[k]);
    DigitsOnlyParse(first);
    if DecodeStations(e) == Success(ids) {
      assert ParseInt(first) == Some(ids[0]);
      assert first != [] && ids[0] == DigitsValue(first);
      var n: nat := ids[0];
      assert a == ShowNat(n);
      assert n >= 10;
      assert a[..|a| - 1] == ShowNat(n / 10);
      assert first == ShowNat(n / 10)[1..];
      TailSmaller(n / 10);
    }
  }

  /** With several written ids, the first piece read is `str(ids[0])` without its first digit. */
  lemma LeadingIdIsNotRead(ids: seq<int>)
    requires |ids| > 1
    ensures DecodeStations(EncodeStations(ids)) != Success(ids)
  {
    var a := ShowInts(ids)[0];
    var first := a[1..];
    LeadingPiece(ids);
    assert forall k :: 0 <= k < |first| ==> IsDigit(first[k]);
    DigitsOnlyParse(first);
    if DecodeStations(EncodeStations(ids)) == Success(ids) {
      assert ParseInt(first) == Some(ids[0]);
      assert first != [] && ids[0] == DigitsValue(first);
      var n: nat := ids[0];
      assert a == ShowNat(n);
      TailSmaller(n);
    }
  }

  /** With several written ids, the first piece the decoder cuts is `str(ids[0])` without its first character. */
  lemma LeadingPiece(ids: seq<int>)
    requires |ids| > 1
    ensures Split(Inner(EncodeStations(ids)), ',')[0] == ShowInts(ids)[0][1..]
  {
    var pieces := ShowInts(ids);
    var a := pieces[0];
    var e := EncodeStations(ids);
    var rest := Join(pieces[1..], ',');
    assert e == a + [','] + rest;
    var first := a[1..];
    assert Inner(e) == first + ([','] + rest[..|rest| - 1]);
    assert ',' !in first by {
      assert forall k :: 0 <= k < |first| ==> IsDigit(first[k]);
    }
    SplitHead(first, [','] + rest[..|rest| - 1], ',');
  }

  // ---------------------------------------------------------------- laws of the row codec

  /**
   * Writing a record and reading the row back gives the record without its country,
   * provided no optional field holds a present empty string — and only when its station
   * list is empty.
   */
  lemma RowRoundTrip(d: Data)
    requires Canonical(d)
    ensures DecodeRow(EncodeRow(d)) == Success(d.(country := None)) <==> d.stationIds == []
  {
    var row := EncodeRow(d);
    StationsRoundTrip(d.stationIds);
    if d.stationIds == [] {
      assert row[12] == "";
      OptionalRoundTrip(d.path);
      OptionalRoundTrip(d.firstName);
      OptionalRoundTrip(d.lastName);
      OptionalRoundTrip(d.role);
      OptionalRoundTrip(d.body);
      OptionalRoundTrip(d.gender);
      OptionalRoundTrip(d.url);
      OptionalRoundTrip(d.alternateNames);
      OptionalRoundTrip(d.relationships);
      OptionalRoundTrip(d.connections);
    }
  }

  /**
   * Reading a row and writing the record back reproduces every cell except the flag,
   * which is normalised to `True`/`False`, the station list, which loses its brackets,
   * and the country, which comes out empty.
   */
  lemma DecodeThenEncode(row: seq<string>)
    requires DecodeRow(row).Success?
    ensures var out := EncodeRow(DecodeRow(row).value);
      && (forall i :: 0 <= i < 16 && i != 8 && i != 12 ==> out[i] == row[i])
      && out[8] == (if DecodeFlag(row[8]) then "True" else "False")
      && out[16] == ""
  {
    var d := DecodeRow(row).value;
    var out := EncodeRow(d);
    assert d.path == DecodeOptional(row[1]) && d.firstName == DecodeOptional(row[5]);
    assert d.lastName == DecodeOptional(row[6]) && d.role == DecodeOptional(row[7]);
    assert d.body == DecodeOptional(row[9]) && d.gender == DecodeOptional(row[10]);
    assert d.url == DecodeOptional(row[11]) && d.alternateNames == DecodeOptional(row[13]);
    assert d.relationships == DecodeOptional(row[14]) && d.connections == DecodeOptional(row[15]);
    forall i | 0 <= i < 16 && i != 8 && i != 12
      ensures out[i] == row[i]
    {
      if i in {1, 5, 6, 7, 9, 10, 11, 13, 14, 15} {
        assert out[i] == EncodeOptional(DecodeOptional(row[i]));
      }
    }
  }

  // ---------------------------------------------------------------- worked examples

  /** A bracketed list cell reads as its integers. */
  lemma ListCellExample()
    ensures DecodeStations("[4,5,6]") == Success([4, 5, 6])
  {
    assert Inner("[4,5,6]") == "4,5,6";
    assert Split("4,5,6", ',') == ["4", "5", "6"] by {
      SplitJoin(["4", "5", "6"], ',');
      assert Join(["4", "5", "6"], ',') == "4,5,6";
    }
    assert ShowInts([4, 5, 6]) == ["4", "5", "6"];
    ParseShowInts([4, 5, 6]);
  }

  /** A list cell with a piece that is not an integer fails on that piece. */
  lemma BadPieceExample()
    ensures DecodeStations("[4,x,6]") == Failure("x")
  {
    assert Inner("[4,x,6]") == "4,x,6";
    assert Split("4,x,6", ',') == ["4", "x", "6"] by {
      SplitJoin(["4", "x", "6"], ',');
      assert Join(["4", "x", "6"], ',') == "4,x,6";
    }
    ParsePieceExamples();
    assert ["4", "x", "6"][1..] == ["x", "6"];
    assert ParseInts(["x", "6"]) == Failure("x");
  }

  /** `int("4")` is 4, and `int("x")` raises. */
  lemma ParsePieceExamples()
    ensures ParseInt("4") == Some(4)
    ensures ParseInt("x") == None
  {
    assert ShowInt(4) == "4";
    ParseShowInt(4);
    assert StripEnd(StripStart("x")) == "x";
  }

  /** The bracketed empty list leaves one empty piece, which `int()` rejects. */
  lemma EmptyListCellExample()
    ensures DecodeStations("[]") == Failure("")
  {
    assert Inner("[]") == "";
    assert Split("", ',') == [""];
  }

  /** The written form of `[4, 5, 6]` does not read back: its inner part starts with a comma. */
  lemma WrittenListFails()
    ensures EncodeStations([4, 5, 6]) == "4,5,6"
    ensures DecodeStations("4,5,6") == Failure("")
  {
    assert ShowInts([4, 5, 6]) == ["4", "5", "6"];
    assert Inner("4,5,6") == ",5,";
    assert Split(",5,", ',') == ["", "5", ""] by {
      SplitJoin(["", "5", ""], ',');
      assert Join(["", "5", ""], ',') == ",5,";
    }
  }

  /** The written form of `[45, 67]` reads back silently as `[5, 6]`. */
  lemma WrittenListCorrupted()
    ensures EncodeStations([45, 67]) == "45,67"
    ensures DecodeStations("45,67") == Success([5, 6])
  {
    WrittenFortyFiveSixtySeven();
    assert Inner("45,67") == "5,6";
    assert Split("5,6", ',') == ["5", "6"] by {
      SplitJoin(["5", "6"], ',');
      assert Join(["5", "6"], ',') == "5,6";
    }
    assert ShowInts([5, 6]) == ["5", "6"];
    ParseShowInts([5, 6]);
  }

  /** `[45, 67]` is written as `45,67`. */
  lemma WrittenFortyFiveSixtySeven()
    ensures EncodeStations([45, 67]) == "45,67"
  {
    assert ShowNat(45) == "45" by {
      assert ShowNat(4) == "4";
      assert DigitChar(5) == '5';
    }
    assert ShowNat(67) == "67" by {
      assert ShowNat(6) == "6";
      assert DigitChar(7) == '7';
    }
    assert ShowInts([45, 67]) == ["45", "67"];
  }
}
