/** The `update_outpatients` management command: refreshes the outpatient
    table from the prefecture's spreadsheet, deletes the institutions that
    left it, then refreshes the location table from the hospital and clinic
    open-data files. Downloads are parameters that map a URL to its parsed
    content. */
module UpdateOutpatients {
  import opened Base
  import opened Tables
  import SourceUrl
  import OutpatientSheet
  import OpendataLocation

  const OutpatientsUrl: string := "https://www.pref.hokkaido.lg.jp/hf/kst/youkou.html"
  const HospitalOpendataUrl: string :=
    "https://www.harp.lg.jp/opendata/dataset/1243/resource/4967/"
    + "01_%E7%97%85%E9%99%A2_%E5%8C%97%E6%B5%B7%E9%81%93_%E7%B7%AF%E5%BA%A6%E7%B5%8C%E5%BA%A6%E4%BB%98%E3%81%8D.csv"
  const ClinicOpendataUrl: string :=
    "https://www.harp.lg.jp/opendata/dataset/1243/resource/4968/"
    + "02_%E8%A8%BA%E7%99%82%E6%89%80_%E5%8C%97%E6%B5%B7%E9%81%93_%E7%B7%AF%E5%BA%A6%E7%B5%8C%E5%BA%A6%E4%BB%98%E3%81%8D.csv"

  /** The key each table stores its records under. */
  function OutpatientName(o: OutpatientSheet.Outpatient): string { o.name }
  function LocationName(g: GeoRecord): string { g.name }

  /** The rows whose name is not in `names`. */
  function Without<V>(rows: seq<Entry<V>>, names: set<string>): (r: seq<Entry<V>>)
    ensures |r| <= |rows|
    ensures forall i :: 0 <= i < |r| ==> r[i] in rows && r[i].name !in names
    ensures forall i :: 0 <= i < |rows| && rows[i].name !in names ==> rows[i] in r
  {
    if rows == [] then []
    else (if rows[0].name in names then [] else [rows[0]]) + Without(rows[1..], names)
  }

  /** Deleting the names one at a time, in any order, removes them all. */
  lemma {:induction false} DeletedWithout<V>(rows: seq<Entry<V>>, names: set<string>, name: string)
    ensures Deleted(Without(rows, names), name) == Without(rows, names + {name})
    decreases |rows|
  {
    if rows != [] {
      DeletedWithout(rows[1..], names, name);
      var w, rest := Without(rows, names), Without(rows[1..], names);
      var head := if rows[0].name == name then [] else [rows[0]];
      assert Without(rows, names + {name}) == (if rows[0].name in names then [] else head) + Without(rows[1..], names + {name});
      if rows[0].name in names {
        assert w == rest;
      } else {
        assert w == [rows[0]] + rest;
        assert w[0] == rows[0] && w[1..] == rest;
        assert Deleted(w, name) == head + Deleted(rest, name);
      }
    }
  }

  lemma WithoutNothing<V>(rows: seq<Entry<V>>)
    ensures Without(rows, {}) == rows
  {
  }

  /** The outpatient names the spreadsheet yields. */
  function ScrapedNames(os: seq<OutpatientSheet.Outpatient>): set<string> {
    set o | o in os :: o.name
  }

  /** The spreadsheet the command reads: the link found on the prefecture's
      page, downloaded. A page without a qualifying link gives the address
      "", and `requests.get("")` raises MissingSchema. */
  function Sheet(page: string -> (nat, seq<SourceUrl.Div>), sheetAt: string -> seq<seq<string>>): (r: Result<seq<seq<string>>>)
    ensures var (articles, divs) := page(OutpatientsUrl);
            r.Failure? <==> articles == 0 || forall j :: 0 <= j < |divs| ==> !SourceUrl.Qualifies(divs[j])
    ensures r.Failure? ==> r.error == MissingSchema
  {
    var (articles, divs) := page(OutpatientsUrl);
    var url := SourceUrl.SourceUrl(articles, divs);
    SourceUrl.SourceUrlSpec(articles, divs);
    if url == "" then Failure(MissingSchema) else Success(sheetAt(url))
  }

  /** The records the command upserts, or the exception that stops it
      before any write. */
  function Scraped(page: string -> (nat, seq<SourceUrl.Div>), sheetAt: string -> seq<seq<string>>)
    : (r: Result<seq<OutpatientSheet.Outpatient>>)
    ensures r.Failure? ==> r.error == MissingSchema || r.error == IndexError
  {
    match Sheet(page, sheetAt)
    case Failure(e) => Failure(e)
    case Success(rows) => OutpatientSheet.Outpatients(rows)
  }

  /** The outpatient rows after the upserts and the deletions. */
  function RefreshedOutpatients(rows: seq<Entry<OutpatientSheet.Outpatient>>, admin: nat,
                                os: seq<OutpatientSheet.Outpatient>): (r: seq<Entry<OutpatientSheet.Outpatient>>)
    ensures forall i :: 0 <= i < |r| ==> r[i].name in ScrapedNames(os) || r[i].name !in Names(rows)
  {
    Without(UpsertAll(rows, admin, os, OutpatientName), Names(rows) - ScrapedNames(os))
  }

  /** After the refresh the table names exactly the institutions of the
      spreadsheet, with one row per name and user. */
  lemma RefreshedNames(rows: seq<Entry<OutpatientSheet.Outpatient>>, admin: nat, os: seq<OutpatientSheet.Outpatient>)
    requires Unique(rows)
    ensures Unique(RefreshedOutpatients(rows, admin, os))
    ensures Names(RefreshedOutpatients(rows, admin, os)) == ScrapedNames(os)
  {
    var u := UpsertAll(rows, admin, os, OutpatientName);
    UpsertAllNames(rows, admin, os, OutpatientName);
    assert (set x | x in os :: OutpatientName(x)) == ScrapedNames(os);
    WithoutSpec(u, Names(rows) - ScrapedNames(os));
  }

  /** Leaving out other names does not change the record stored under a
      name. */
  lemma {:induction false} GetWithout<V>(rows: seq<Entry<V>>, names: set<string>, name: string, owner: nat)
    requires name !in names
    ensures Get(Without(rows, names), name, owner) == Get(rows, name, owner)
    decreases |rows|
  {
    if rows != [] {
      GetWithout(rows[1..], names, name, owner);
      var w, rest := Without(rows, names), Without(rows[1..], names);
      if rows[0].name in names {
        assert w == rest;
        assert rows[0].name != name;
        assert Get(rows, name, owner) == Get(rows[1..], name, owner);
      } else {
        assert w == [rows[0]] + rest;
        assert w[0] == rows[0] && w[1..] == rest;
      }
    }
  }

  /** After the refresh, every institution of the spreadsheet is stored
      under the admin user with the last record the spreadsheet gives it. */
  lemma RefreshedKeepsLatest(rows: seq<Entry<OutpatientSheet.Outpatient>>, admin: nat,
                             os: seq<OutpatientSheet.Outpatient>, k: nat)
    requires Unique(rows)
    requires k < |os| && forall j :: k < j < |os| ==> os[j].name != os[k].name
    ensures Get(RefreshedOutpatients(rows, admin, os), os[k].name, admin) == Some(os[k])
  {
    UpsertAllLastWins(rows, admin, os, OutpatientName, k);
    assert os[k].name in ScrapedNames(os);
    GetWithout(UpsertAll(rows, admin, os, OutpatientName), Names(rows) - ScrapedNames(os), os[k].name, admin);
  }

  /** The location table after both files: names are only added, never
      removed, and a name listed in the clinic file keeps its last clinic
      location, whatever the hospital file said. */
  lemma RefreshedLocations(rows: seq<Entry<GeoRecord>>, admin: nat, hospitals: seq<GeoRecord>,
                           clinics: seq<GeoRecord>, k: nat)
    requires Unique(rows)
    requires k < |clinics| && forall j :: k < j < |clinics| ==> clinics[j].name != clinics[k].name
    ensures var after := UpsertAll(UpsertAll(rows, admin, hospitals, LocationName), admin, clinics, LocationName);
            && Unique(after)
            && Names(after) == Names(rows) + (set g | g in hospitals :: g.name) + (set g | g in clinics :: g.name)
            && Get(after, clinics[k].name, admin) == Some(clinics[k])
  {
    var mid := UpsertAll(rows, admin, hospitals, LocationName);
    UpsertAllNames(rows, admin, hospitals, LocationName);
    UpsertAllNames(mid, admin, clinics, LocationName);
    assert (set x | x in hospitals :: LocationName(x)) == (set g | g in hospitals :: g.name);
    assert (set x | x in clinics :: LocationName(x)) == (set g | g in clinics :: g.name);
    UpsertAllLastWins(mid, admin, clinics, LocationName, k);
  }

  /** Leaving out names removes exactly them and keeps keys unique. */
  lemma WithoutSpec<V>(rows: seq<Entry<V>>, names: set<string>)
    requires Unique(rows)
    ensures Unique(Without(rows, names))
    ensures Names(Without(rows, names)) == Names(rows) - names
  {
    WithoutUnique(rows, names);
    WithoutNames(rows, names);
  }

  lemma {:induction false} WithoutNames<V>(rows: seq<Entry<V>>, names: set<string>)
    ensures Names(Without(rows, names)) == Names(rows) - names
    decreases |rows|
  {
    if rows != [] {
      WithoutNames(rows[1..], names);
      var head := if rows[0].name in names then [] else [rows[0]];
      var tail := Without(rows[1..], names);
      assert Without(rows, names) == head + tail;
      assert rows == [rows[0]] + rows[1..];
      assert Names(rows) == {rows[0].name} + Names(rows[1..]);
      assert Names(head + tail) == Names(head) + Names(tail);
    }
  }

  lemma {:induction false} WithoutUnique<V>(rows: seq<Entry<V>>, names: set<string>)
    requires Unique(rows)
    ensures Unique(Without(rows, names))
    decreases |rows|
  {
    if rows != [] {
      UniqueTail(rows);
      WithoutUnique(rows[1..], names);
      var tail := Without(rows[1..], names);
      if rows[0].name in names {
        assert Without(rows, names) == tail;
      } else {
        forall m | 0 <= m < |tail| ensures !(tail[m].name == rows[0].name && tail[m].owner == rows[0].owner) {
          WithoutMember(rows[1..], names, m);
          var p :| 0 <= p < |rows[1..]| && rows[1..][p] == tail[m];
          assert rows[p + 1] == tail[m];
        }
        UniqueCons(rows[0], tail);
        assert Without(rows, names) == [rows[0]] + tail;
      }
    }
  }

  lemma {:induction false} WithoutMember<V>(rows: seq<Entry<V>>, names: set<string>, m: nat)
    requires m < |Without(rows, names)|
    ensures exists p :: 0 <= p < |rows| && rows[p] == Without(rows, names)[m]
    decreases |rows|
  {
    var w := Without(rows, names);
    if rows[0].name in names {
      WithoutMember(rows[1..], names, m);
      var p :| 0 <= p < |rows[1..]| && rows[1..][p] == w[m];
      assert rows[p + 1] == w[m];
    } else if m == 0 {
      assert rows[0] == w[0];
    } else {
      WithoutMember(rows[1..], names, m - 1);
      var p :| 0 <= p < |rows[1..]| && rows[1..][p] == w[m];
      assert rows[p + 1] == w[m];
    }
  }

  /** Upserts every record of a list into a table, in order. */
  method UpsertEach<V>(table: Table<V>, admin: nat, items: seq<V>, nameOf: V -> string)
    requires table.Valid()
    modifies table
    ensures table.Valid()
    ensures table.rows == UpsertAll(old(table.rows), admin, items, nameOf)
  {
    ghost var start := table.rows;
    for i := 0 to |items|
      invariant table.Valid()
      invariant table.rows == UpsertAll(start, admin, items[..i], nameOf)
    {
      assert items[..i + 1][..i] == items[..i];
      var _ := table.Upsert(nameOf(items[i]), admin, items[i]);
    }
    assert items[..|items|] == items;
  }

  /** Deletes every name of a set, one at a time, in whatever order the set
      yields them. */
  method DeleteAll<V>(table: Table<V>, names: set<string>)
    requires table.Valid()
    modifies table
    ensures table.Valid()
    ensures table.rows == Without(old(table.rows), names)
  {
    ghost var start := table.rows;
    var stale := names;
    ghost var gone: set<string> := {};
    WithoutNothing(start);
    while stale != {}
      invariant gone + stale == names && gone !! stale
      invariant table.Valid()
      invariant table.rows == Without(start, gone)
      decreases |stale|
    {
      var name :| name in stale;
      var _ := table.Delete(name);
      DeletedWithout(start, gone, name);
      gone := gone + {name};
      stale := stale - {name};
    }
  }

  /** The outpatient half of the command: upsert every scraped record, then
      delete the names the table held before and the spreadsheet no longer
      has. */
  method RefreshOutpatients(outpatients: Table<OutpatientSheet.Outpatient>, admin: nat,
                            os: seq<OutpatientSheet.Outpatient>)
    requires outpatients.Valid()
    modifies outpatients
    ensures outpatients.Valid()
    ensures outpatients.rows == RefreshedOutpatients(old(outpatients.rows), admin, os)
    ensures Names(outpatients.rows) == ScrapedNames(os)
  {
    var current := outpatients.NameList();
    ghost var before := outpatients.rows;
    UpsertEach(outpatients, admin, os, OutpatientName);
    var newNames := set o | o in os :: o.name;
    var stale := (set n | n in current) - newNames;
    assert stale == Names(before) - ScrapedNames(os);
    DeleteAll(outpatients, stale);
    RefreshedNames(before, admin, os);
  }

  /** One open-data file: its locations upserted, or StopIteration when the
      file has no record at all. */
  method RefreshLocations(locations: Table<GeoRecord>, admin: nat, records: seq<seq<string>>, parse: DecimalParser)
    returns (r: Result<()>)
    requires locations.Valid()
    modifies locations
    ensures locations.Valid()
    ensures records == [] ==> r == Failure(StopIteration) && locations.rows == old(locations.rows)
    ensures records != [] ==>
              && r == Success(())
              && locations.rows == UpsertAll(old(locations.rows), admin,
                                             OpendataLocation.Locations(records[1..], parse), LocationName)
  {
    var scraped := OpendataLocation.Scrape(records, parse);
    if scraped.Failure? {
      return Failure(scraped.error);
    }
    ghost var before := locations.rows;
    UpsertEach(locations, admin, scraped.value, LocationName);
    UpsertAllNames(before, admin, scraped.value, LocationName);
    r := Success(());
  }

  /** The hospital file and then the clinic file; the first CSV failure ends
      the command, leaving the upserts done before it. */
  method RefreshAllLocations(locations: Table<GeoRecord>, admin: nat, hospitals: seq<seq<string>>,
                             clinics: seq<seq<string>>, parse: DecimalParser)
    returns (r: Result<()>)
    requires locations.Valid()
    modifies locations
    ensures locations.Valid()
    ensures hospitals == [] ==> r == Failure(StopIteration) && locations.rows == old(locations.rows)
    ensures hospitals != [] && clinics == [] ==>
              && r == Failure(StopIteration)
              && locations.rows == UpsertAll(old(locations.rows), admin,
                                             OpendataLocation.Locations(hospitals[1..], parse), LocationName)
    ensures hospitals != [] && clinics != [] ==>
              && r == Success(())
              && locations.rows ==
                   UpsertAll(UpsertAll(old(locations.rows), admin,
                                       OpendataLocation.Locations(hospitals[1..], parse), LocationName),
                             admin, OpendataLocation.Locations(clinics[1..], parse), LocationName)
  {
    r := RefreshLocations(locations, admin, hospitals, parse);
    if r.Failure? {
      return;
    }
    r := RefreshLocations(locations, admin, clinics, parse);
  }

  /** The spreadsheet's address from the prefecture's page, then its
      records. */
  method ScrapeSheet(page: string -> (nat, seq<SourceUrl.Div>), sheetAt: string -> seq<seq<string>>)
    returns (scraped: Result<seq<OutpatientSheet.Outpatient>>)
    ensures scraped == Scraped(page, sheetAt)
  {
    var (articles, divs) := page(OutpatientsUrl);
    var sourceUrl := SourceUrl.Get(articles, divs);
    if sourceUrl == "" {
      return Failure(MissingSchema);
    }
    scraped := OutpatientSheet.Scrape(sheetAt(sourceUrl));
  }

  /** `Command.handle`. `admin` is the user named "admin"; `page` gives the
      number of articles and the divs of a page, `sheetAt` the rows of a
      spreadsheet, `csvAt` the records of a CSV file. The result is the
      exception the command ends with, if any: a failed spreadsheet leaves
      both tables as they were, a failed CSV file leaves the work done
      before it in place. */
  method Handle(outpatients: Table<OutpatientSheet.Outpatient>, locations: Table<GeoRecord>, admin: nat,
                page: string -> (nat, seq<SourceUrl.Div>), sheetAt: string -> seq<seq<string>>,
                csvAt: string -> seq<seq<string>>, parse: DecimalParser)
    returns (r: Result<()>)
    requires outpatients.Valid() && locations.Valid()
    modifies outpatients, locations
    ensures outpatients.Valid() && locations.Valid()
    ensures var scraped := Scraped(page, sheetAt);
            && (scraped.Failure? ==> r == Failure(scraped.error) && unchanged(outpatients, locations))
            && (scraped.Success? ==>
                  && outpatients.rows == RefreshedOutpatients(old(outpatients.rows), admin, scraped.value)
                  && Names(outpatients.rows) == ScrapedNames(scraped.value))
    ensures var hospitals, clinics := csvAt(HospitalOpendataUrl), csvAt(ClinicOpendataUrl);
            Scraped(page, sheetAt).Success? ==>
              && (hospitals == [] ==> r == Failure(StopIteration) && locations.rows == old(locations.rows))
              && (hospitals != [] && clinics == [] ==>
                    && r == Failure(StopIteration)
                    && locations.rows == UpsertAll(old(locations.rows), admin,
                                                   OpendataLocation.Locations(hospitals[1..], parse), LocationName))
              && (hospitals != [] && clinics != [] ==>
                    && r == Success(())
                    && locations.rows ==
                         UpsertAll(UpsertAll(old(locations.rows), admin,
                                             OpendataLocation.Locations(hospitals[1..], parse), LocationName),
                                   admin, OpendataLocation.Locations(clinics[1..], parse), LocationName))
  {
    var scraped := ScrapeSheet(page, sheetAt);
    if scraped.Failure? {
      return Failure(scraped.error);
    }
    RefreshOutpatients(outpatients, admin, scraped.value);
    r := RefreshAllLocations(locations, admin, csvAt(HospitalOpendataUrl), csvAt(ClinicOpendataUrl), parse);
  }
}
