/** `ScrapeOpendataLocation`: the coordinates of Asahikawa's medical
    institutions, read from the prefecture's open-data CSV. The CSV is given
    as the records `csv.reader` yields, each a sequence of fields. */
module OpendataLocation {
  import opened Base
  import opened Text
  import opened Normalizer

  /** The number of fields a data row must have. */
  const FieldCount: nat := 37
  /** The municipality (column 4) whose rows are kept. */
  const City: string := "旭川市"

  /** `_get_table_values`: every record after the first, or the
      StopIteration `next(reader)` raises when there is none. */
  method TableValues(records: seq<seq<string>>) returns (r: Result<seq<seq<string>>>)
    ensures records == [] <==> r.Failure?
    ensures r.Failure? ==> r.error == StopIteration
    ensures r.Success? ==> [records[0]] + r.value == records
  {
    if records == [] {
      return Failure(StopIteration);
    }
    var values: seq<seq<string>> := [];
    for i := 1 to |records|
      invariant values == records[1..i]
    {
      values := values + [records[i]];
    }
    assert [records[0]] + records[1..] == records;
    r := Success(values);
  }

  /** `_extract_location_data`: a row of exactly 37 fields whose normalized
      municipality is Asahikawa gives the institution's name without spaces
      and the longitude (column 12) and latitude (column 11) that `parse`
      reads from the normalized fields; any other row gives `None`. */
  function ExtractLocation(row: seq<string>, parse: DecimalParser): (r: Option<GeoRecord>)
    ensures r.Some? <==> && |row| == FieldCount && Normalize(row[4]) == City
                         && parse(Normalize(row[12])).Some? && parse(Normalize(row[11])).Some?
    ensures r.Some? ==> && ' ' !in r.value.name
                        && r.value.name == Dropped(Normalize(row[5]), ' ')
                        && multiset(r.value.name) == multiset(Normalize(row[5]))[' ' := 0]
                        && Some(r.value.longitude) == parse(Normalize(row[12]))
                        && Some(r.value.latitude) == parse(Normalize(row[11]))
  {
    if |row| != FieldCount then None
    else
      var n := NormalizeRow(row);
      if n[4] != City then None
      else
        match (parse(n[12]), parse(n[11]))
        case (Some(longitude), Some(latitude)) =>
          RemoveCharSpec(n[5], ' ');
          Some(GeoRecord(Replace(n[5], " ", ""), longitude, latitude))
        case _ => None
  }

  /** The loop of `__init__` with the extractor as a parameter: the value
      of every row the extractor accepts, in order. */
  function Kept<T>(rows: seq<seq<string>>, extract: seq<string> -> Option<T>): (r: seq<T>)
    ensures |r| <= |rows|
  {
    if rows == [] then []
    else
      Kept(rows[..|rows| - 1], extract)
        + match extract(rows[|rows| - 1]) case Some(g) => [g] case None => []
  }

  /** The locations `__init__` collects from the data rows, in order. */
  function Locations(rows: seq<seq<string>>, parse: DecimalParser): (r: seq<GeoRecord>)
    ensures |r| <= |rows|
  {
    Kept(rows, row => ExtractLocation(row, parse))
  }

  /** Keeping over two parts of the file is keeping over each. */
  lemma {:induction false} KeptAppend<T>(a: seq<seq<string>>, b: seq<seq<string>>, extract: seq<string> -> Option<T>)
    ensures Kept(a + b, extract) == Kept(a, extract) + Kept(b, extract)
    decreases |b|
  {
    if b == [] {
      assert a + b == a;
    } else {
      var init := b[..|b| - 1];
      assert (a + b)[..|a + b| - 1] == a + init;
      assert (a + b)[|a + b| - 1] == b[|b| - 1];
      KeptAppend(a, init, extract);
    }
  }

  /** Each kept value comes from a row that yields it, and every row that
      yields a value contributes it. */
  lemma {:induction false} KeptFromRows<T>(rows: seq<seq<string>>, extract: seq<string> -> Option<T>)
    ensures |Kept(rows, extract)| <= |rows|
    ensures forall g :: g in Kept(rows, extract) <==>
              exists i :: 0 <= i < |rows| && extract(rows[i]) == Some(g)
  {
    if rows != [] {
      var init, last := rows[..|rows| - 1], rows[|rows| - 1];
      KeptFromRows(init, extract);
      forall g ensures g in Kept(rows, extract) <==>
                       exists i :: 0 <= i < |rows| && extract(rows[i]) == Some(g) {
        if g in Kept(rows, extract) {
          if g in Kept(init, extract) {
            var i :| 0 <= i < |init| && extract(init[i]) == Some(g);
            assert rows[i] == init[i];
          } else {
            assert extract(rows[|rows| - 1]) == Some(g);
          }
        }
        if exists i :: 0 <= i < |rows| && extract(rows[i]) == Some(g) {
          var i :| 0 <= i < |rows| && extract(rows[i]) == Some(g);
          if i < |init| {
            assert init[i] == rows[i];
          }
        }
      }
    }
  }

  /** Collecting over two parts of the file is collecting over each. */
  lemma LocationsAppend(a: seq<seq<string>>, b: seq<seq<string>>, parse: DecimalParser)
    ensures Locations(a + b, parse) == Locations(a, parse) + Locations(b, parse)
  {
    KeptAppend(a, b, row => ExtractLocation(row, parse));
  }

  /** A row of its own contributes its own location, if any. */
  lemma LocationsOfOne(row: seq<string>, parse: DecimalParser)
    ensures Locations([row], parse) == match ExtractLocation(row, parse) case Some(g) => [g] case None => []
  {
    KeptOfOne(row, row => ExtractLocation(row, parse));
  }

  lemma KeptOfOne<T>(row: seq<string>, extract: seq<string> -> Option<T>)
    ensures Kept([row], extract) == match extract(row) case Some(g) => [g] case None => []
  {
    assert [row][..0] == [];
  }

  /** Every location is one a row yields, and every row that yields one
      contributes it. */
  lemma LocationsFromRows(rows: seq<seq<string>>, parse: DecimalParser)
    ensures |Locations(rows, parse)| <= |rows|
    ensures forall g :: g in Locations(rows, parse) <==>
              exists i :: 0 <= i < |rows| && ExtractLocation(rows[i], parse) == Some(g)
  {
    KeptFromRows(rows, row => ExtractLocation(row, parse));
  }

  /** A coordinate written as "0" normalizes to "", which `float()` rejects:
      such a row is dropped. */
  lemma ZeroCoordinateDropped(row: seq<string>, parse: DecimalParser)
    requires parse("") == None
    requires |row| == FieldCount && (row[11] == Sentinel || row[12] == Sentinel)
    ensures ExtractLocation(row, parse) == None
  {
  }

  /** `ScrapeOpendataLocation.__init__` after the download and the decoding:
      the locations of the records after the first, or StopIteration. */
  method Scrape(records: seq<seq<string>>, parse: DecimalParser) returns (r: Result<seq<GeoRecord>>)
    ensures records == [] ==> r == Failure(StopIteration)
    ensures records != [] ==> r == Success(Locations(records[1..], parse))
  {
    var table := TableValues(records);
    if table.Failure? {
      return Failure(table.error);
    }
    var rows := table.value;
    assert rows == records[1..];
    var lists: seq<GeoRecord> := [];
    for i := 0 to |rows|
      invariant lists == Locations(rows[..i], parse)
    {
      var location := ExtractLocation(rows[i], parse);
      assert rows[..i + 1][..i] == rows[..i];
      if location.Some? {
        lists := lists + [location.value];
      }
    }
    assert rows[..|rows|] == rows;
    r := Success(lists);
  }

  /** The first record is skipped whatever it holds: a file that starts with
      a blank line loses the blank line, and its header row is read as data,
      then dropped because its municipality column says "市町村". */
  lemma HeaderAfterBlankLineDropped(header: seq<string>, parse: DecimalParser)
    requires |header| == FieldCount && header[4] == "市町村"
    ensures ExtractLocation(header, parse) == None
  {
    NormalizeFixedPoint("市町村");
  }
}
