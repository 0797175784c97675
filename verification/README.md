# Country enrichment of a radio roster, modelled in Dafny

The script `main.py` reads a roster of people and organisations from a CSV file and
creates an output CSV file with a header row. For every record it looks the last name up on
a surname web site and copies the country named on the result page into the record. Each
record whose lookup went through without an exception is appended to the output file as
soon as it is processed. At the end the whole output file is rewritten from the records in
memory. This project models that core and proves what it does:

- `types.dfy`: module `Types`. `Option` (Python's `Optional`) and `Result` (a value, or the
  exception Python would raise).
- `pytext.dfy`: module `PyText`. The Python string builtins the codec relies on: `lower()`,
  `split(',')`, `','.join`, the slice `s[1:-1]`, `str(int)` and base-10 `int(str)`.
- `record.dfy`: module `Records`. The `Data` record, the header row, and the codec between a
  record and a CSV row, with its round-trip laws and their failures.
- `table.dfy`: module `Table`. `parse_csv` as a loop over the input rows, and the output file
  as a class whose methods are `initialize_csv`, `append_to_csv` and `export_to_new_csv`.
- `tally.dfy`: module `Tally`. `find_most_country_occurence`: a counting loop over a
  dictionary that keeps insertion order, then Python's `max` over its keys.
- `driver.dfy`: module `Enrichment`. The per-record loop and the whole script. The web
  request and the HTML parsing are replaced by one `Lookup` value per record.

Behaviour as written, which the model keeps:

- Decoding reads cells 0 to 15 only. A row therefore needs 16 cells, not the 17 that are
  written, and the country written in cell 16 is never read back.
- The station list is decoded by dropping the first and last characters of the cell,
  splitting on `,` and applying `int` to each piece. It is encoded as the pieces joined by
  `,` without brackets. A written non-empty list never reads back as itself: `4,5,6` fails,
  and `45,67` silently reads as `[5, 6]`. The bracketed empty list `[]` fails to decode.
- An exception in the loop body skips that record's append. A country already copied into
  the record stays in memory, so the final rewrite still holds every record.
- When several countries share the highest count, the tally returns the one that occurs
  first in the roster, because the dictionary keeps insertion order and `max` keeps the
  first maximum. It fails when no record has a non-empty country.

## Model

| member | source | states |
|---|---|---|
| `Records.HeaderRow` | main.py:74-76 | the header row names 17 columns, `station_id` twelfth from zero and `country` last; read as a data row it fails on its `station_id` cell, which is why `parse_csv` skips the first line |
| `Records.DecodeOptional` | main.py:39 | an empty cell decodes to `None` and any other cell to itself; the result is never a present empty string, and writing it back gives the cell unchanged |
| `Records.OptionalRoundTrip` | main.py:81 | writing an optional value (`None` as the empty cell) and reading it back restores it exactly when it is not a present empty string |
| `Records.DecodeFlag` | main.py:46 | `isOrganisation` is true exactly when the cell is `true` in any mix of upper and lower case |
| `Records.EncodeFlag` | main.py:88 | the written `True`/`False` decodes back to the same boolean |
| `Records.EncodeOptional` | main.py:81 | the `csv` writer's cell for an optional value is empty exactly for `None` and the present empty string |
| `Records.DecodeStations` | main.py:50 | the empty cell gives no stations; otherwise the result has one id per piece of `cell[1:-1].split(',')`, each `int()` of its piece, or fails with a piece of that split that `int()` rejects |
| `Records.EncodeStations` | main.py:92 | the written list is empty exactly for no ids, and splitting it on `,` gives back the `str()` of each id, in order |
| `Records.ParseInts` | main.py:50 | the list comprehension over the pieces: on success one integer per piece, each `int()` of its piece; on failure the first piece that `int()` rejects, all earlier pieces accepted |
| `Records.ListCellExample` | main.py:50 | the cell `[4,5,6]` decodes to `[4, 5, 6]` |
| `Records.BadPieceExample` | main.py:50 | the cell `[4,x,6]` fails on the piece `x` |
| `Records.EmptyListCellExample` | main.py:50 | the cell `[]` fails: it leaves one empty piece, which `int()` rejects |
| `Records.StationsRoundTrip` | main.py:92 | a written station list decodes back to itself if and only if it is empty |
| `Records.FirstPieceIsNotFirstId` | main.py:50 | a written non-empty station list never decodes back to itself: it either fails or reads as a different list |
| `Records.WrittenListFails` | main.py:92 | `[4, 5, 6]` is written as `4,5,6`, which fails to decode |
| `Records.WrittenListCorrupted` | main.py:92 | `[45, 67]` is written as `45,67`, which decodes without error to `[5, 6]` |
| `Records.BracketedStationsRoundTrip` | main.py:50 | the decoder is the inverse of the bracketed join `"[" + ",".join(...) + "]"` for every non-empty list, which is the form the encoder does not write |
| `Records.ParseShowInts` | main.py:92 | `int()` reads back the `str()` of every station id, in order |
| `Records.DecodeRow` | main.py:37-54 | a row decodes exactly when it has at least 16 cells and its station cell decodes; the decoded record's stations are the decoded cell 12, it has no country and no present empty string; failures follow Python's left-to-right evaluation: fewer than 13 cells is the missing cell, otherwise a bad station cell is its rejected piece, otherwise fewer than 16 cells is the missing cell |
| `Records.EncodeRow` | main.py:79-97 | every written row has as many cells as the header (17); the cell under `station_id` is the written station list and the last cell, under `country`, is the record's country (empty for `None`) |
| `Records.EncodeRowsAppend` | main.py:78-97 | writing one more record adds its row after the rows already written |
| `Records.RowRoundTrip` | main.py:111-129 | writing a record whose optional fields hold no present empty string and reading the row back gives the record without its country, and does so if and only if its station list is empty |
| `Records.DecodeThenEncode` | main.py:37-54 | reading a row and writing the record back reproduces every cell except the flag, which becomes `True`/`False`, the station list, and the country, which comes out empty |
| `Table.ParseCsv` | main.py:30-57 | the header line is skipped; one record per remaining line, in file order, each the decoding of its line; an empty file fails; otherwise the first undecodable line aborts the load with its line number and cause |
| `Table.CsvFile.constructor` | main.py:140 | the output file as it stands before `initialize_csv`, holding whatever rows it already had |
| `Table.CsvFile.Initialize` | main.py:99-105 | the file is truncated to the header row alone |
| `Table.CsvFile.Append` | main.py:107-129 | one row, the record's encoding, is added after the existing rows |
| `Table.CsvFile.Export` | main.py:70-97 | the file is truncated and holds the header, then one encoded row per record in list order |
| `Table.ReloadWrittenFile` | main.py:70-97 | reading back a written file gives each record in order without its country, for records with empty station lists and no present empty strings |
| `Tally.CountCountries` | main.py:60-66 | the dictionary holds exactly the non-empty countries of the records, keyed in order of first occurrence, each mapped to its number of records |
| `Tally.MaxByCount` | main.py:67 | `max` by count returns a key with the largest count, and no earlier key has that count |
| `Tally.FindMostCountryOccurrence` | main.py:59-67 | fails exactly when no record has a non-empty country; otherwise returns a non-empty country of some record whose count is at least every other country's, and which occurs first among the countries with that count |
| `Tally.HasCountryCell` | main.py:62 | a record's country is truthy exactly when its written country cell is non-empty |
| `Tally.CountOf` | main.py:63-66 | a country's count is at most the number of records |
| `Tally.CountOfZero` | main.py:63-66 | a country's count is zero exactly when no record carries it |
| `Tally.DistinctCountries` | main.py:60-66 | the dictionary's keys are non-empty and distinct |
| `Tally.DistinctCountriesMembers` | main.py:62-66 | a string is a key exactly when it is the non-empty country of some record |
| `Tally.DistinctCountriesPrefix` | main.py:61-66 | the keys inserted after a prefix of the records are a prefix of the final key order |
| `Tally.CountOfAbsent` | main.py:63-66 | a non-empty country that is not yet a key of the dictionary has count zero in the records seen so far, so setting it to 1 on first sight is the count |
| `Tally.KeyOrderIsFirstOccurrence` | main.py:60-67 | an earlier key in the dictionary occurs no later in the records than any later key |
| `Enrichment.ExtractCountry` | main.py:146-152 | a country is extracted exactly when the search result exists, holds more than two detail values and the third has a title; it is that title |
| `Enrichment.Raises` | main.py:143-166 | the handler is reached exactly when the last name is `None` (the URL concatenation raises), the lookup raised, or the append raised; a pass that does not raise had a last name and a response, and one that raised before the append leaves the record as it was |
| `Enrichment.Enrich` | main.py:143-160 | one pass changes nothing but the country, and changes it only for a present last name and a 200 response, to the country extracted from the page |
| `Enrichment.EnrichAll` | main.py:142-160 | `data_list` after the loop: one record per record loaded, each differing from it at most in its country |
| `Enrichment.EnrichSetsCountry` | main.py:143-160 | one pass changes nothing but the country; for a record without a country, the country becomes `t` if and only if the last name is present, the status is 200, the search result holds more than two details and the third has title `t` |
| `Enrichment.AppendedRecords` | main.py:164 | no more records are appended than have been processed |
| `Enrichment.AppendedIndices` | main.py:142-166 | every appended position is one of the records processed so far |
| `Enrichment.AppendedIndicesSpec` | main.py:142-166 | the appended positions increase strictly and are exactly the records whose pass raises nothing |
| `Enrichment.AppendedRecordsAtIndices` | main.py:164 | the appended rows are those of the enriched records at the appended positions, one each, in load order |
| `Enrichment.EnrichOne` | main.py:143-166 | one pass of the loop body: only the current record changes, to its enrichment, and its row is appended after the existing rows exactly when the pass raises nothing |
| `Enrichment.EnrichRecords` | main.py:142-166 | after the loop each record is its enrichment by its own lookup, and the file has gained the rows of the records that raised nothing, in load order |
| `Enrichment.Run` | main.py:138-168 | a load failure leaves the output file untouched; otherwise the result is one enriched record per input line and the final file is the header plus every record's row in load order, whatever happened to each record |
| `Enrichment.AllAppended` | main.py:142-166 | when no pass raises, every record is appended, in order |
| `Enrichment.CheckpointMatchesExport` | main.py:164-168 | when no pass raises, the appended records are exactly the records of the final rewrite |
| `Enrichment.OneFailure` | main.py:165-166 | when exactly one pass raises, every other record is appended in order and that one is skipped |
| `Enrichment.FaultInjection` | main.py:142-168 | five records whose third lookup raises: four rows are appended, the final file holds five records plus the header, and the third record keeps its country |
| `Enrichment.TwoRecordScenario` | main.py:142-168 | "Smith" with a page naming the United Kingdom and "Xyzzyplonk" answered with 404: both are appended, and only Smith's country cell is non-empty |
| `PyText.Lower` | main.py:46 | `lower()` keeps the length, changes exactly the ASCII capitals, and maps each to its small letter |
| `PyText.Inner` | main.py:50 | `s[1:-1]` is `s` without its first and last characters, and empty for strings shorter than three |
| `PyText.Join` | main.py:92 | `','.join` of no pieces is empty; otherwise it starts with the first piece, followed by the separator when there is a second piece |
| `PyText.Split` | main.py:50 | `split(',')` returns at least one piece and no piece contains the separator |
| `PyText.JoinSplit` | main.py:50 | joining the pieces of a split gives back the string |
| `PyText.SplitJoin` | main.py:92 | splitting a join of separator-free pieces gives back the pieces |
| `PyText.ShowInt` | main.py:92 | `str()` of an int is an optional minus sign followed by digits, so it contains no comma |
| `PyText.ParseInt` | main.py:50 | `int()` succeeds only on a string that holds a decimal digit |
| `PyText.IntStripsOnlyAsciiWhitespace` | main.py:50 | `int()` strips surrounding ASCII white space such as space and line feed, but rejects a literal preceded by the file separator (code point 28) |
| `PyText.ParseShowInt` | main.py:92 | `int(str(n)) == n` for every integer; Python's digit limit is not modelled (see below) |
| `PyText.DigitsOnlyParse` | main.py:50 | on a string of digits only, `int()` fails exactly when the string is empty and is never negative |
| `PyText.TailSmaller` | main.py:50 | dropping the leading digit of `str(n)` leaves a smaller number, which is why `[1:-1]` corrupts a written list |

## Left out

- The HTTP request, its URL and its `User-Agent` header (main.py:133-136, main.py:144) are replaced by the `Lookup` value given for each record.
- BeautifulSoup's parsing (main.py:146-149) is replaced by the optional list of detail values, each with an optional title, carried by a 200 `Lookup`.
- An exception raised by `append_to_csv` is modelled by one flag per record. A row is treated as either written whole or not at all.
- The `csv` module's quoting, escaping and line splitting, and file opening, truncation and append mode: files are lists of rows held in memory.
- The `print` logging (main.py:153-166) and the unused `time` import are left out.
- The handler's own `print` (main.py:166) is assumed not to raise. If it did, for a last name that standard output cannot encode, the exception would end the script before `export_to_new_csv`.
- The first, duplicated `parse_csv` call (main.py:131) is left out. It reads the same file as the second call and its result is overwritten.
- `world.py` (grouping with pandas, a shapefile merge, plotting) is not part of this model.
- The list `data_list` holds distinct record objects, and an in-place field update is modelled by replacing an element of an array of record values. Object identity and aliasing are not modelled.
- `PyText.Lower`: case mapping covers ASCII letters only. No non-ASCII character lower-cases to a letter of `true`, so `Records.DecodeFlag` is unaffected.
- `PyText.ParseInt`: strips ASCII white space only and accepts ASCII digits only. Python's `int()` also strips other Unicode white space and accepts other Unicode decimal digits; the model rejects those.
- `PyText.ParseInt`: does not model the limit on the length of integer literals. Python 3.11 and later, and some security releases of 3.7 to 3.10, reject more than 4300 digits in `int()` and `str()` by default.
- `PyText.ParseShowInt`: under the default limit of 4300 digits, Python's `int(str(n)) == n` holds only for ids whose `str()` has at most 4300 digits. Longer ids make `str()` raise.
- `PyText.DigitsOnlyParse`: under the same limit, Python's `int()` of a digit string longer than 4300 characters raises. The model parses it.
- `Enrichment.Run`: takes one `Lookup` and one append flag per record as parameters, since the network and the file system are outside the model.
