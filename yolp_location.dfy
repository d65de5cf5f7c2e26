/** `ScrapeYOLPLocation`: the coordinates of one facility from the local
    search of Yahoo! Open Local Platform. The download is a parameter that
    maps the request URL to the decoded JSON response. */
module YolpLocation {
  import opened Base
  import opened Text

  /** A decoded JSON value, as `json.loads` returns it. */
  datatype Json =
    | JNull
    | JBool(b: bool)
    | JNum(n: real)
    | JStr(s: string)
    | JArr(items: seq<Json>)
    | JObj(fields: map<string, Json>)

  /** The request's fixed parts: Asahikawa's municipality code and the
      industry code of hospitals. */
  const Endpoint: string := "https://map.yahooapis.jp/search/local/V1/localSearch"
  const CityCode: string := "01204"
  const IndustryCode: string := "0401"

  /** `markupsafe.escape` on one character. */
  function EscapeChar(c: char): string {
    match c
    case '&' => "&amp;"
    case '<' => "&lt;"
    case '>' => "&gt;"
    case '\'' => "&#39;"
    case '"' => "&#34;"
    case _ => [c]
  }

  /** `markupsafe.escape` on a str. */
  function Escape(s: string): (r: string)
    ensures '<' !in r && '>' !in r && '\'' !in r && '"' !in r
    ensures |r| >= |s|
    decreases |s|
  {
    if s == [] then [] else EscapeChar(s[0]) + Escape(s[1..])
  }

  /** The five entities `Escape` writes, read back; any other text is kept. */
  function Unescape(t: string): string
    decreases |t|
  {
    if t == [] then []
    else if "&amp;" <= t then "&" + Unescape(t[5..])
    else if "&lt;" <= t then "<" + Unescape(t[4..])
    else if "&gt;" <= t then ">" + Unescape(t[4..])
    else if "&#39;" <= t then "'" + Unescape(t[5..])
    else if "&#34;" <= t then "\"" + Unescape(t[5..])
    else [t[0]] + Unescape(t[1..])
  }

  /** One escaped character reads back to itself, whatever follows it. */
  lemma UnescapeEscapeChar(c: char, rest: string)
    ensures Unescape(EscapeChar(c) + rest) == [c] + Unescape(rest)
  {
    var t := EscapeChar(c) + rest;
    if c == '&' {
      assert "&amp;" <= t && t[5..] == rest;
    } else if c == '<' || c == '>' {
      UnescapeAngle(c, rest);
    } else if c == '\'' || c == '"' {
      UnescapeQuote(c, rest);
    } else {
      assert t[0] == c && t[1..] == rest;
    }
  }

  /** `&lt;` and `&gt;`: the second character tells them apart, and from `&amp;`. */
  lemma UnescapeAngle(c: char, rest: string)
    requires c == '<' || c == '>'
    ensures Unescape(EscapeChar(c) + rest) == [c] + Unescape(rest)
  {
    var t := EscapeChar(c) + rest;
    assert t[1] == (if c == '<' then 'l' else 'g') && t[4..] == rest;
    assert t[..4] == EscapeChar(c);
  }

  /** `&#39;` and `&#34;`: the fourth character tells them apart. */
  lemma UnescapeQuote(c: char, rest: string)
    requires c == '\'' || c == '"'
    ensures Unescape(EscapeChar(c) + rest) == [c] + Unescape(rest)
  {
    var t := EscapeChar(c) + rest;
    assert t[1] == '#' && t[3] == (if c == '\'' then '9' else '4') && t[5..] == rest;
    assert t[..5] == EscapeChar(c);
  }

  /** Escaping loses nothing: the entities read back to the name. */
  lemma {:induction false} UnescapeEscape(s: string)
    ensures Unescape(Escape(s)) == s
    decreases |s|
  {
    if s != [] {
      UnescapeEscape(s[1..]);
      UnescapeEscapeChar(s[0], Escape(s[1..]));
      assert s == [s[0]] + s[1..];
    }
  }

  /** `json_res[key]`: a dict without the key raises KeyError, and anything
      that is not a dict raises TypeError. */
  function Lookup(j: Json, key: string): (r: Result<Json>)
    ensures r.Success? <==> j.JObj? && key in j.fields
    ensures r.Success? ==> r.value == j.fields[key]
    ensures r.Failure? ==> r.error == (if j.JObj? then KeyError else TypeError)
  {
    match j
    case JObj(fields) => if key in fields then Success(fields[key]) else Failure(KeyError)
    case _ => Failure(TypeError)
  }

  /** Python's `value == 0` for a JSON value: true for the numbers equal to
      zero and for `false`. */
  predicate IsZero(j: Json) {
    j == JNum(0.0) || j == JBool(false)
  }

  /** The result that stands in for an empty search: coordinates "0,0". */
  const Origin: Json := JObj(map["Geometry" := JObj(map["Coordinates" := JStr("0,0")])])

  /** `_get_search_results`: the synthetic `[Origin]` when the count is
      zero, the `Feature` member otherwise. A missing key becomes
      RuntimeError; a TypeError is not caught. */
  function SearchResults(response: Json): (r: Result<Json>)
    ensures r.Success? ==> response.JObj? && "ResultInfo" in response.fields
    ensures r == Failure(RuntimeError) <==>
              || (response.JObj? && "ResultInfo" !in response.fields)
              || (response.JObj? && Lookup(response, "ResultInfo").Success?
                  && Lookup(response.fields["ResultInfo"], "Count") == Failure(KeyError))
              || (response.JObj? && Lookup(response, "ResultInfo").Success?
                  && Lookup(response.fields["ResultInfo"], "Count").Success?
                  && !IsZero(response.fields["ResultInfo"].fields["Count"])
                  && "Feature" !in response.fields)
    ensures r == Failure(TypeError) <==>
              || !response.JObj?
              || ("ResultInfo" in response.fields && !response.fields["ResultInfo"].JObj?)
    ensures r.Failure? ==> r.error == RuntimeError || r.error == TypeError
    ensures r.Success? ==>
              && response.fields["ResultInfo"].JObj? && "Count" in response.fields["ResultInfo"].fields
              && (IsZero(response.fields["ResultInfo"].fields["Count"]) ==> r.value == JArr([Origin]))
              && (!IsZero(response.fields["ResultInfo"].fields["Count"]) ==>
                    "Feature" in response.fields && r.value == response.fields["Feature"])
  {
    match Lookup(response, "ResultInfo")
    case Failure(e) => Failure(if e == KeyError then RuntimeError else e)
    case Success(info) =>
      match Lookup(info, "Count")
      case Failure(e) => Failure(if e == KeyError then RuntimeError else e)
      case Success(count) =>
        if IsZero(count) then Success(JArr([Origin]))
        else
          match Lookup(response, "Feature")
          case Failure(e) => Failure(if e == KeyError then RuntimeError else e)
          case Success(features) => Success(features)
  }

  /** The values a `for` loop visits, as far as the loop body can use them:
      a list gives its items; an empty dict or str gives nothing; a
      non-empty dict or str gives keys or characters, and a str cannot be
      subscripted with "Geometry", so the first of them raises TypeError; any
      other value is not iterable. */
  function Iterate(j: Json): (r: Result<seq<Json>>)
    ensures r.Failure? ==> r.error == TypeError
    ensures j.JArr? ==> r == Success(j.items)
  {
    match j
    case JArr(items) => Success(items)
    case JObj(fields) => if |fields| == 0 then Success([]) else Failure(TypeError)
    case JStr(s) => if s == [] then Success([]) else Failure(TypeError)
    case _ => Failure(TypeError)
  }

  /** A search result's `Geometry.Coordinates` member. */
  function CoordinateValue(result: Json): Result<Json> {
    match Lookup(result, "Geometry")
    case Failure(e) => Failure(e)
    case Success(geometry) => Lookup(geometry, "Coordinates")
  }

  /** `_extract_location_data`: the longitude and the latitude written as
      "longitude,latitude", as `float()` reads them, in the order Python
      raises: the lookups, `.split` on a non-str, the first number, the
      missing second field, the second number. */
  function ExtractLocation(result: Json, parse: DecimalParser): (r: Result<(real, real)>)
    ensures r.Success? <==>
              && CoordinateValue(result).Success? && CoordinateValue(result).value.JStr?
              && var parts := Split(CoordinateValue(result).value.s, ',');
                 parse(parts[0]).Some? && |parts| >= 2 && parse(parts[1]).Some?
    ensures r.Success? ==>
              var parts := Split(CoordinateValue(result).value.s, ',');
              parse(parts[0]) == Some(r.value.0) && parse(parts[1]) == Some(r.value.1)
    ensures r.Failure? && CoordinateValue(result).Success? ==>
              r.error == (if !CoordinateValue(result).value.JStr? then AttributeError
                          else if parse(Split(CoordinateValue(result).value.s, ',')[0]).None? then ValueError
                          else if |Split(CoordinateValue(result).value.s, ',')| < 2 then IndexError
                          else ValueError)
  {
    match CoordinateValue(result)
    case Failure(e) => Failure(e)
    case Success(coordinates) =>
      if !coordinates.JStr? then Failure(AttributeError)
      else
        var parts := Split(coordinates.s, ',');
        match parse(parts[0])
        case None => Failure(ValueError)
        case Some(longitude) =>
          if |parts| < 2 then Failure(IndexError)
          else
            match parse(parts[1])
            case None => Failure(ValueError)
            case Some(latitude) => Success((longitude, latitude))
  }

  /** A result whose coordinates are two comma-free numbers joined by a comma
      yields exactly those numbers. */
  lemma CoordinatesRoundTrip(lon: string, lat: string, x: real, y: real, parse: DecimalParser)
    requires ',' !in lon && ',' !in lat
    requires parse(lon) == Some(x) && parse(lat) == Some(y)
    ensures ExtractLocation(JObj(map["Geometry" := JObj(map["Coordinates" := JStr(lon + "," + lat)])]), parse)
            == Success((x, y))
  {
    SplitJoin([lon, lat], ',');
    assert Join([lon, lat], ',') == lon + "," + lat;
  }

  /** The locations of the visited results, each named `facility`, or the
      first error. */
  function Locations(items: seq<Json>, parse: DecimalParser, facility: string): (r: Result<seq<GeoRecord>>)
    ensures r.Success? ==> |r.value| == |items| && forall g :: g in r.value ==> g.name == facility
    ensures r.Failure? ==> exists k :: 0 <= k < |items| && ExtractLocation(items[k], parse) == Failure(r.error)
  {
    if items == [] then Success([])
    else
      var init := items[..|items| - 1];
      assert forall k :: 0 <= k < |init| ==> init[k] == items[k];
      match Locations(init, parse, facility)
      case Failure(e) => Failure(e)
      case Success(done) =>
        match ExtractLocation(items[|items| - 1], parse)
        case Failure(e) => Failure(e)
        case Success(p) => Success(done + [GeoRecord(facility, p.0, p.1)])
  }

  /** A failure on a prefix is the failure of the whole list. */
  lemma {:induction false} LocationsFailureSticks(items: seq<Json>, parse: DecimalParser, facility: string, k: nat)
    requires k <= |items| && Locations(items[..k], parse, facility).Failure?
    ensures Locations(items, parse, facility) == Locations(items[..k], parse, facility)
    decreases |items| - k
  {
    if k < |items| {
      assert items[..k + 1][..k] == items[..k];
      LocationsFailureSticks(items, parse, facility, k + 1);
    } else {
      assert items[..k] == items;
    }
  }

  /** On success there is one location per result, in order, all named
      `facility`. */
  lemma {:induction false} LocationsOnePerResult(items: seq<Json>, parse: DecimalParser, facility: string)
    requires Locations(items, parse, facility).Success?
    ensures var ls := Locations(items, parse, facility).value;
            && |ls| == |items|
            && forall k :: 0 <= k < |ls| ==>
                 ls[k].name == facility && ExtractLocation(items[k], parse) == Success((ls[k].longitude, ls[k].latitude))
  {
    if items != [] {
      var init := items[..|items| - 1];
      LocationsOnePerResult(init, parse, facility);
      forall k | 0 <= k < |init| ensures items[k] == init[k] { }
    }
  }

  /** The search request for an app id and an already quoted query. */
  function RequestUrl(appId: string, query: string): (r: string)
    ensures UrlHead(appId) <= r && |r| == |UrlHead(appId)| + |query| + |UrlTail|
    ensures r[|UrlHead(appId)|..|r| - |UrlTail|] == query
    ensures r[|r| - |UrlTail|..] == UrlTail
  {
    UrlHead(appId) + query + UrlTail
  }

  /** The request up to the query: the endpoint and the app id. */
  function UrlHead(appId: string): string {
    Endpoint + "?appid=" + appId + "&query="
  }

  /** The request after the query: the city and industry codes, best match
      first, the simple detail level and JSON output. */
  const UrlTail: string := "&ac=" + CityCode + "&gc=" + IndustryCode + "&sort=-match&detail=simple&output=json"

  /** What `ScrapeYOLPLocation(name).lists` holds, or the error its
      constructor raises. `appId` is `YOLP_APP_ID`, `fetch` the download,
      `quote` and `unquote` the two `urllib.parse` functions. */
  function YolpLocations(name: Value, appId: Option<string>, fetch: string -> Json, parse: DecimalParser,
                         quote: string -> string, unquote: string -> string): (r: Result<seq<GeoRecord>>)
    ensures r.Success? ==> name.Str? && appId.Some? && appId.value != ""
    ensures r.Success? ==> forall g :: g in r.value ==> g.name == unquote(quote(Escape(name.s)))
  {
    if name.NotStr? then Failure(TypeError)
    else if appId.None? || appId.value == "" then Failure(RuntimeError)
    else
      var query := quote(Escape(name.s));
      match SearchResults(fetch(RequestUrl(appId.value, query)))
      case Failure(e) => Failure(e)
      case Success(results) =>
        match Iterate(results)
        case Failure(e) => Failure(e)
        case Success(items) => Locations(items, parse, unquote(query))
  }

  /** `ScrapeYOLPLocation.__init__`. */
  method Scrape(name: Value, appId: Option<string>, fetch: string -> Json, parse: DecimalParser,
                quote: string -> string, unquote: string -> string) returns (r: Result<seq<GeoRecord>>)
    ensures r == YolpLocations(name, appId, fetch, parse, quote, unquote)
  {
    if name.NotStr? {
      return Failure(TypeError);
    }
    var query := quote(Escape(name.s));
    if appId.None? || appId.value == "" {
      return Failure(RuntimeError);
    }
    var url := RequestUrl(appId.value, query);
    var results := SearchResults(fetch(url));
    if results.Failure? {
      return Failure(results.error);
    }
    var items := Iterate(results.value);
    if items.Failure? {
      return Failure(items.error);
    }
    var facility := unquote(query);
    var lists: seq<GeoRecord> := [];
    for i := 0 to |items.value|
      invariant Locations(items.value[..i], parse, facility) == Success(lists)
    {
      var location := ExtractLocation(items.value[i], parse);
      assert items.value[..i + 1][..i] == items.value[..i];
      if location.Failure? {
        LocationsFailureSticks(items.value, parse, facility, i + 1);
        return Failure(location.error);
      }
      lists := lists + [GeoRecord(facility, location.value.0, location.value.1)];
    }
    assert items.value[..|items.value|] == items.value;
    r := Success(lists);
  }

  /** The preconditions the constructor checks, in its order: a non-str
      name, then a missing or empty app id. */
  lemma ConstructorChecks(name: Value, appId: Option<string>, fetch: string -> Json, parse: DecimalParser,
                          quote: string -> string, unquote: string -> string)
    ensures name.NotStr? ==> YolpLocations(name, appId, fetch, parse, quote, unquote) == Failure(TypeError)
    ensures name.Str? && (appId.None? || appId.value == "") ==>
              YolpLocations(name, appId, fetch, parse, quote, unquote) == Failure(RuntimeError)
  {
  }

  /** Every location carries the facility's name as escaped, quoted and
      unquoted again; when unquoting undoes quoting, that is the escaped
      name, which reads back to the name itself. */
  lemma LocationsNamedAfterFacility(name: string, appId: string, fetch: string -> Json, parse: DecimalParser,
                                    quote: string -> string, unquote: string -> string)
    requires appId != ""
    requires unquote(quote(Escape(name))) == Escape(name)
    requires YolpLocations(Str(name), Some(appId), fetch, parse, quote, unquote).Success?
    ensures forall g :: g in YolpLocations(Str(name), Some(appId), fetch, parse, quote, unquote).value ==>
              g.name == Escape(name) && Unescape(g.name) == name
  {
    var query := quote(Escape(name));
    var results := SearchResults(fetch(RequestUrl(appId, query)));
    var items := Iterate(results.value);
    LocationsOnePerResult(items.value, parse, unquote(query));
    UnescapeEscape(name);
  }

  /** A count equal to zero, the number 0 or `false`, stands for one result
      at the origin. */
  lemma ZeroCountGivesOrigin(response: Json)
    requires Lookup(response, "ResultInfo").Success?
    requires Lookup(response.fields["ResultInfo"], "Count").Success?
    requires IsZero(response.fields["ResultInfo"].fields["Count"])
    ensures SearchResults(response) == Success(JArr([Origin]))
  {
  }

  /** A single result contributes its own location. */
  lemma LocationsOfOne(item: Json, parse: DecimalParser, facility: string)
    ensures var x := ExtractLocation(item, parse);
            && (x.Failure? ==> Locations([item], parse, facility) == Failure(x.error))
            && (x.Success? ==> Locations([item], parse, facility) == Success([GeoRecord(facility, x.value.0, x.value.1)]))
  {
    assert [item][..0] == [] && [item][0] == item;
    assert Locations([], parse, facility) == Success([]);
    var x := ExtractLocation(item, parse);
    if x.Success? {
      var g := GeoRecord(facility, x.value.0, x.value.1);
      assert [] + [g] == [g];
    }
  }

  /** The origin result reads as the number "0" twice. */
  lemma OriginLocation(facility: string, parse: DecimalParser, zero: real)
    requires parse("0") == Some(zero)
    ensures Locations([Origin], parse, facility) == Success([GeoRecord(facility, zero, zero)])
  {
    CoordinatesRoundTrip("0", "0", zero, zero, parse);
    assert "0" + "," + "0" == "0,0";
    assert ExtractLocation(Origin, parse) == Success((zero, zero));
    LocationsOfOne(Origin, parse, facility);
  }

  /** A search with no hits still yields one location, at the coordinates
      "0,0" read as numbers. */
  lemma ZeroHitsGiveOrigin(name: string, appId: string, fetch: string -> Json, parse: DecimalParser,
                           quote: string -> string, unquote: string -> string, zero: real)
    requires appId != ""
    requires parse("0") == Some(zero)
    requires var response := fetch(RequestUrl(appId, quote(Escape(name))));
             && Lookup(response, "ResultInfo").Success?
             && Lookup(response.fields["ResultInfo"], "Count").Success?
             && IsZero(response.fields["ResultInfo"].fields["Count"])
    ensures YolpLocations(Str(name), Some(appId), fetch, parse, quote, unquote)
            == Success([GeoRecord(unquote(quote(Escape(name))), zero, zero)])
  {
    var query := quote(Escape(name));
    ZeroCountGivesOrigin(fetch(RequestUrl(appId, query)));
    OriginLocation(unquote(query), parse, zero);
  }

  /** The characters `markupsafe.escape` replaces. */
  predicate IsMarkup(c: char) {
    c == '&' || c == '<' || c == '>' || c == '\'' || c == '"'
  }

  /** A name without markup characters escapes to itself. */
  lemma {:induction false} EscapePlain(s: string)
    requires forall i :: 0 <= i < |s| ==> !IsMarkup(s[i])
    ensures Escape(s) == s
    decreases |s|
  {
    if s != [] {
      assert !IsMarkup(s[0]);
      assert EscapeChar(s[0]) == [s[0]];
      assert forall i :: 0 <= i < |s[1..]| ==> s[1..][i] == s[i + 1];
      EscapePlain(s[1..]);
      assert s == [s[0]] + s[1..];
    }
  }

  /** A search with one hit yields that hit's coordinates under the name,
      when the name has no markup and quoting round-trips. */
  lemma OneHit(name: string, appId: string, fetch: string -> Json, parse: DecimalParser,
               quote: string -> string, unquote: string -> string,
               lon: string, lat: string, x: real, y: real, hit: Json)
    requires appId != ""
    requires forall i :: 0 <= i < |name| ==> !IsMarkup(name[i])
    requires unquote(quote(name)) == name
    requires ',' !in lon && ',' !in lat && parse(lon) == Some(x) && parse(lat) == Some(y)
    requires hit == JObj(map["Geometry" := JObj(map["Coordinates" := JStr(lon + "," + lat)])])
    requires var response := fetch(RequestUrl(appId, quote(name)));
             && Lookup(response, "ResultInfo").Success?
             && Lookup(response.fields["ResultInfo"], "Count") == Success(JNum(1.0))
             && Lookup(response, "Feature") == Success(JArr([hit]))
    ensures YolpLocations(Str(name), Some(appId), fetch, parse, quote, unquote) == Success([GeoRecord(name, x, y)])
  {
    EscapePlain(name);
    CoordinatesRoundTrip(lon, lat, x, y, parse);
    LocationsOfOne(hit, parse, name);
  }
}
