/** `ScrapeOutpatientSourceURL.get`: finds the link to Asahikawa's spreadsheet
    on the prefecture's page. The parsed page is given as the number of its
    `<article>` elements and a summary of each of its `<div>` elements, in
    document order. */
module SourceUrl {
  import opened Base
  import opened Text

  /** Prefixed to the matching href, whatever its form. */
  const Host: string := "https://www.pref.hokkaido.lg.jp"
  /** The token the image caption must carry. */
  const Locality: string := "旭川"

  /** One `<div>`: the `href` of its first `<a>` and the `alt` of its first
      `<img>`; `None` when the element or the attribute is missing. */
  datatype Div = Div(href: Option<string>, alt: Option<string>)

  /** `re.match(r"^.*.xlsx$", href)`: the dot is not escaped, so any character
      other than a newline may stand before "xlsx". */
  predicate IsXlsxLink(href: string) {
    match LineBody(href)
    case Some(l) => |l| >= 5 && l[|l| - 4..] == "xlsx"
    case None => false
  }

  /** `re.match("^.*旭川.*$", alt)`. */
  predicate HasLocality(alt: string) {
    match LineBody(alt)
    case Some(l) => Contains(l, Locality)
    case None => false
  }

  /** The tests the inner loop applies to one `<div>`. */
  predicate Qualifies(d: Div) {
    && d.href.Some? && d.href.value != "" && IsXlsxLink(d.href.value)
    && d.alt.Some? && d.alt.value != "" && HasLocality(d.alt.value)
  }

  /** The index of the last qualifying div. */
  function LastQualifying(divs: seq<Div>): (r: Option<nat>)
    ensures r.Some? ==> r.value < |divs| && Qualifies(divs[r.value])
                        && forall j :: r.value < j < |divs| ==> !Qualifies(divs[j])
    ensures r.None? ==> forall j :: 0 <= j < |divs| ==> !Qualifies(divs[j])
  {
    if divs == [] then None
    else if Qualifies(divs[|divs| - 1]) then Some(|divs| - 1)
    else LastQualifying(divs[..|divs| - 1])
  }

  /** `url` after one pass of the inner loop that started from `prior`. */
  function Scan(divs: seq<Div>, prior: string): string {
    match LastQualifying(divs)
    case Some(i) => Host + divs[i].href.value
    case None => prior
  }

  /** What `get` returns for a page with `articleCount` articles. */
  function SourceUrl(articleCount: nat, divs: seq<Div>): string {
    if articleCount == 0 then "" else Scan(divs, "")
  }

  /** The URL is empty exactly when there is no article or no div
      qualifies; otherwise it is the host followed by the href of the last
      qualifying div. */
  lemma SourceUrlSpec(articleCount: nat, divs: seq<Div>)
    ensures var url := SourceUrl(articleCount, divs);
            && (url == "" <==> articleCount == 0 || forall j :: 0 <= j < |divs| ==> !Qualifies(divs[j]))
            && (url != "" ==> exists i :: 0 <= i < |divs| && Qualifies(divs[i])
                                          && url == Host + divs[i].href.value
                                          && forall j :: i < j < |divs| ==> !Qualifies(divs[j]))
  {
    if articleCount > 0 {
      match LastQualifying(divs)
      case Some(i) =>
        assert |Host + divs[i].href.value| > 0;
      case None =>
    }
  }

  /** One more div: a qualifying one replaces the URL found so far. */
  lemma ScanStep(divs: seq<Div>, j: nat, prior: string)
    requires j < |divs|
    ensures Scan(divs[..j + 1], prior) ==
            if Qualifies(divs[j]) then Host + divs[j].href.value else Scan(divs[..j], prior)
  {
    assert divs[..j + 1][..j] == divs[..j];
  }

  /** `ScrapeOutpatientSourceURL.get`, after the download and the parse. For
      every article it rescans every div of the document, and a later match
      overwrites an earlier one. */
  method Get(articleCount: nat, divs: seq<Div>) returns (url: string)
    ensures url == SourceUrl(articleCount, divs)
    ensures url == "" <==> articleCount == 0 || forall j :: 0 <= j < |divs| ==> !Qualifies(divs[j])
    ensures url != "" ==> exists i :: 0 <= i < |divs| && Qualifies(divs[i])
                                      && url == Host + divs[i].href.value
                                      && forall j :: i < j < |divs| ==> !Qualifies(divs[j])
  {
    url := "";
    for a := 0 to articleCount
      invariant url == if a == 0 then "" else Scan(divs, "")
    {
      ghost var prior := url;
      for j := 0 to |divs|
        invariant url == Scan(divs[..j], prior)
      {
        var d := divs[j];
        ScanStep(divs, j, prior);
        if d.href.Some? {
          var href := d.href.value;
          if href != "" && IsXlsxLink(href) {
            if d.alt.Some? {
              var alt := d.alt.value;
              if alt != "" && HasLocality(alt) {
                url := Host + href;
              }
            }
          }
        }
      }
      assert divs[..|divs|] == divs;
    }
    SourceUrlSpec(articleCount, divs);
  }

  /** The dot before "xlsx" is unescaped: a name ending in "_xlsx" is
      accepted as a spreadsheet link. */
  lemma UnescapedDotAcceptsAnyCharacter()
    ensures IsXlsxLink("/fs/a_xlsx")
    ensures !IsXlsxLink("xlsx")
  {
    assert LineBody("/fs/a_xlsx") == Some("/fs/a_xlsx");
    assert LineBody("xlsx") == Some("xlsx");
  }
}
