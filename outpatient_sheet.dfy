/** `ScrapeOutpatient`: turns the rows of the prefecture's spreadsheet into
    outpatient records. The rows are given as `pandas` hands them over: every
    cell a str, a missing cell "". */
module OutpatientSheet {
  import opened Base
  import opened Text
  import opened Normalizer

  /** Cells a row must have: `_get_outpatient` reads up to column 57. */
  const RowWidth: nat := 58
  /** The one value of column 7 that sets `is_target_not_family`. */
  const NotFamilyPhrase: string := "かかりつけ患者以外の診療も可"
  /** Removed from the address wherever it occurs. */
  const Prefecture: string := "北海道"
  /** The sheet's "no time" value once seconds are dropped. */
  const ZeroTime: string := "00:00"
  /** U+FF5E, between the two ends of a range. */
  const Tilde: string := "～"
  /** U+3001, between the morning and the afternoon range. */
  const Comma: string := "、"
  /** A morning range that ends where the afternoon range starts at 00:00. */
  const Gap: string := "～00:00、00:00～"

  /** One `Outpatient` row as `_get_outpatient` builds it. `week` holds the
      fields `mon` to `sun`, Monday first. */
  datatype Outpatient = Outpatient(
    isOutpatient: bool,
    isPositivePatients: bool,
    publicHealthCareCenter: string,
    name: string,
    city: string,
    address: string,
    phoneNumber: string,
    isTargetNotFamily: bool,
    isPediatrics: bool,
    week: seq<string>,
    isFaceToFaceForPositivePatients: bool,
    isOnlineForPositivePatients: bool,
    isHomeVisitationForPositivePatients: bool,
    memo: string)

  /** The characters of the class `[○|〇]`: the bar is a member too. */
  predicate IsMark(c: char) {
    c == '○' || c == '〇' || c == '|'
  }

  /** `_get_available`: `re.search("^(.*)[○|〇](.*)$", text)`. */
  function Available(text: string): (r: bool)
    ensures r ==> exists i :: 0 <= i < |text| && IsMark(text[i])
    ensures NoNewline(text) ==> (r <==> exists i :: 0 <= i < |text| && IsMark(text[i]))
  {
    match LineBody(text)
    case Some(l) =>
      assert forall i :: 0 <= i < |l| ==> l[i] == text[i];
      exists i :: 0 <= i < |l| && IsMark(l[i])
    case None => false
  }

  predicate IsDigit(c: char) {
    '0' <= c <= '9'
  }

  /** `s` ends in `DD:DD:DD` (the pattern `([0-9]{2}):([0-9]{2}):([0-9]{2})$`). */
  predicate EndsWithTime(s: string) {
    var n := |s|;
    && n >= 8
    && IsDigit(s[n - 8]) && IsDigit(s[n - 7]) && s[n - 6] == ':'
    && IsDigit(s[n - 5]) && IsDigit(s[n - 4]) && s[n - 3] == ':'
    && IsDigit(s[n - 2]) && IsDigit(s[n - 1])
  }

  /** Five characters `DD:DD`. */
  predicate IsHourMinute(s: string) {
    |s| == 5 && IsDigit(s[0]) && IsDigit(s[1]) && s[2] == ':' && IsDigit(s[3]) && IsDigit(s[4])
  }

  /** `_strip_if_time_format`: a text ending in `HH:MM:SS` becomes `HH:MM`,
      whatever stood before; any other text is returned as it is. */
  function StripIfTimeFormat(text: string): (r: string)
    ensures r == text || IsHourMinute(r)
    ensures NoNewline(text) ==> (r == text <==> !EndsWithTime(text))
  {
    match LineBody(text)
    case Some(l) =>
      if EndsWithTime(l) then l[|l| - 8..|l| - 3]
      else text
    case None => text
  }

  /** Any prefix before a trailing `HH:MM:SS` is dropped with the seconds. */
  lemma StripTimeCell(prefix: string, hh: string, mm: string, ss: string)
    requires NoNewline(prefix)
    requires |hh| == 2 && |mm| == 2 && |ss| == 2
    requires forall i :: 0 <= i < 2 ==> IsDigit(hh[i]) && IsDigit(mm[i]) && IsDigit(ss[i])
    ensures StripIfTimeFormat(prefix + hh + ":" + mm + ":" + ss) == hh + ":" + mm
  {
    var t := prefix + hh + ":" + mm + ":" + ss;
    assert NoNewline(t) by {
      forall i | 0 <= i < |t| ensures t[i] != '\n' {
        if i < |prefix| { assert t[i] in prefix; }
      }
    }
    assert t[|t| - 8..|t| - 3] == hh + ":" + mm;
  }

  /** The hours of one day from the four ends once their seconds are gone:
      a half is written when either end differs from 00:00, the halves are
      joined with "、", and "～00:00、00:00～" is contracted to "～". */
  function DayHours(amStart: string, amEnd: string, pmStart: string, pmEnd: string): (r: string)
    ensures r == "" <==> amStart == ZeroTime && amEnd == ZeroTime && pmStart == ZeroTime && pmEnd == ZeroTime
  {
    var am := if amStart != ZeroTime || amEnd != ZeroTime then amStart + Tilde + amEnd else "";
    var pm := if pmStart != ZeroTime || pmEnd != ZeroTime then pmStart + Tilde + pmEnd else "";
    if am == "" then pm
    else if pm == "" then am
    else Replace(am + Comma + pm, Gap, Tilde)
  }

  /** `_get_opening_hours`: one day's hours from its six cells
      `[am_start, "～", am_end, pm_start, "～", pm_end]`; the two "～" cells
      are not read. */
  function OpeningHours(window: seq<string>): (r: string)
    requires |window| >= 6
    ensures r == "" <==> && StripIfTimeFormat(window[0]) == ZeroTime && StripIfTimeFormat(window[2]) == ZeroTime
                         && StripIfTimeFormat(window[3]) == ZeroTime && StripIfTimeFormat(window[5]) == ZeroTime
  {
    DayHours(StripIfTimeFormat(window[0]), StripIfTimeFormat(window[2]),
             StripIfTimeFormat(window[3]), StripIfTimeFormat(window[5]))
  }

  /** Neither "～" nor "、" occurs in `s`. */
  predicate PlainEnd(s: string) {
    '～' !in s && '、' !in s
  }

  /** The day's hours, case by case: a half is left out exactly when both of
      its ends are 00:00, and two halves that meet at 00:00 are contracted
      into one range. Holds for all ends without "～" or "、", times and
      empty cells alike. An end that holds "～" or "、" can itself take part
      in the "～00:00、00:00～" pattern, so no closed form is claimed for it. */
  lemma DayHoursCases(a0: string, a1: string, p0: string, p1: string)
    requires PlainEnd(a0) && PlainEnd(a1) && PlainEnd(p0) && PlainEnd(p1)
    ensures var amOff, pmOff := a0 == ZeroTime && a1 == ZeroTime, p0 == ZeroTime && p1 == ZeroTime;
            DayHours(a0, a1, p0, p1) ==
              if amOff && pmOff then ""
              else if pmOff then a0 + Tilde + a1
              else if amOff then p0 + Tilde + p1
              else if a1 == ZeroTime && p0 == ZeroTime then a0 + Tilde + p1
              else (a0 + Tilde + a1) + Comma + (p0 + Tilde + p1)
  {
    if (a0 != ZeroTime || a1 != ZeroTime) && (p0 != ZeroTime || p1 != ZeroTime) {
      if a1 == ZeroTime && p0 == ZeroTime {
        ContractedDay(a0, p1);
      } else {
        UncontractedDay(a0, a1, p0, p1);
      }
    }
  }

  /** A morning that ends and an afternoon that starts at 00:00 become one
      range. */
  lemma ContractedDay(a0: string, p1: string)
    requires PlainEnd(a0) && PlainEnd(p1)
    ensures Replace((a0 + Tilde + ZeroTime) + Comma + (ZeroTime + Tilde + p1), Gap, Tilde) == a0 + Tilde + p1
  {
    SkipMorningStart(a0, ZeroTime, ZeroTime, p1);
    GapContracted(p1);
    AppendAssoc(a0, Tilde, p1);
  }

  /** Otherwise the two ranges are left as they are. */
  lemma UncontractedDay(a0: string, a1: string, p0: string, p1: string)
    requires PlainEnd(a0) && PlainEnd(a1) && PlainEnd(p0) && PlainEnd(p1)
    requires a1 != ZeroTime || p0 != ZeroTime
    ensures var x := (a0 + Tilde + a1) + Comma + (p0 + Tilde + p1); Replace(x, Gap, Tilde) == x
  {
    SkipMorningStart(a0, a1, p0, p1);
    NoGapAfterMorningStart(a1, p0, p1);
    assert (a0 + Tilde + a1) + Comma + (p0 + Tilde + p1) == a0 + (Tilde + a1 + Comma + p0 + Tilde + p1);
  }

  /** The morning's start holds no "～", so no gap begins inside it. */
  lemma SkipMorningStart(a0: string, a1: string, p0: string, p1: string)
    requires PlainEnd(a0)
    ensures Replace((a0 + Tilde + a1) + Comma + (p0 + Tilde + p1), Gap, Tilde) ==
            a0 + Replace(Tilde + a1 + Comma + p0 + Tilde + p1, Gap, Tilde)
  {
    var t := Tilde + a1 + Comma + p0 + Tilde + p1;
    assert (a0 + Tilde + a1) + Comma + (p0 + Tilde + p1) == a0 + t;
    assert Gap[0] == '～';
    ReplaceSkip(a0, t, Gap, Tilde);
  }

  /** From the "～" after the morning's start: the gap and what follows it. */
  lemma GapContracted(p1: string)
    requires PlainEnd(p1)
    ensures Replace(Tilde + ZeroTime + Comma + ZeroTime + Tilde + p1, Gap, Tilde) == Tilde + p1
  {
    var t := Tilde + ZeroTime + Comma + ZeroTime + Tilde + p1;
    assert Gap == Tilde + ZeroTime + Comma + ZeroTime + Tilde;
    assert t == Gap + p1;
    assert t[..|Gap|] == Gap && t[|Gap|..] == p1;
    ReplaceNone(p1, Gap, Tilde);
  }

  lemma NoGapAfterMorningStart(a1: string, p0: string, p1: string)
    requires PlainEnd(a1) && PlainEnd(p0) && PlainEnd(p1)
    requires a1 != ZeroTime || p0 != ZeroTime
    ensures var t := Tilde + a1 + Comma + p0 + Tilde + p1; Replace(t, Gap, Tilde) == t
  {
    var t := Tilde + a1 + Comma + p0 + Tilde + p1;
    if |t| < |Gap| {
      ReplaceShort(t, Gap, Tilde);
    } else {
      var mid := a1 + Comma + p0;
      assert t[..|Gap|] != Gap by {
        if t[..|Gap|] == Gap { GapForcesZeros(a1, p0, p1); }
      }
      assert t == Tilde + mid + (Tilde + p1);
      assert t[1..] == mid + (Tilde + p1);
      assert Replace(t, Gap, Tilde) == Tilde + Replace(mid + (Tilde + p1), Gap, Tilde);
      ReplaceSkip(mid, Tilde + p1, Gap, Tilde);
      TildeWithoutGap(p1);
    }
  }

  /** The "～" that ends the afternoon's start never begins a gap. */
  lemma TildeWithoutGap(p1: string)
    requires PlainEnd(p1)
    ensures Replace(Tilde + p1, Gap, Tilde) == Tilde + p1
  {
    var t := Tilde + p1;
    if |t| < |Gap| {
      ReplaceShort(t, Gap, Tilde);
    } else {
      assert t[6] == p1[5] && p1[5] in p1;
      assert t[..|Gap|] != Gap by { assert Gap[6] == '、'; }
      assert t[1..] == p1;
      ReplaceNone(p1, Gap, Tilde);
    }
  }

  /** Only "00:00" before and after the comma can complete the gap pattern. */
  lemma GapForcesZeros(a1: string, p0: string, p1: string)
    requires PlainEnd(a1) && PlainEnd(p0)
    requires var t := Tilde + a1 + Comma + p0 + Tilde + p1; |t| >= |Gap| && t[..|Gap|] == Gap
    ensures a1 == ZeroTime && p0 == ZeroTime
  {
    var t := Tilde + a1 + Comma + p0 + Tilde + p1;
    var n, m := |a1|, |p0|;
    assert forall i :: 0 <= i < |Gap| ==> t[i] == Gap[i];
    assert Gap[6] == '、' && Gap[12] == '～';
    assert forall i :: 1 <= i < 6 ==> Gap[i] != '、' && Gap[i] != '～';
    forall i | 1 <= i < 1 + n ensures t[i] == a1[i - 1] && t[i] != '、' {
      assert a1[i - 1] in a1;
    }
    assert t[1 + n] == '、';
    assert n == 5;
    assert a1 == t[1..6];
    forall i | 7 <= i < 7 + m ensures t[i] == p0[i - 7] && t[i] != '～' {
      assert p0[i - 7] in p0;
    }
    assert t[7 + m] == '～';
    assert forall i :: 7 <= i < 12 ==> Gap[i] != '～';
    assert m == 5;
    assert p0 == t[7..12];
  }

  /** A cell that holds exactly `HH:MM:SS`, as the sheet's time cells do. */
  predicate IsTimeCell(t: string) {
    |t| == 8 && NoNewline(t) && EndsWithTime(t)
  }

  /** A time cell loses its seconds. */
  lemma TimeCell(t: string)
    requires IsTimeCell(t)
    ensures StripIfTimeFormat(t) == t[..5] && IsHourMinute(t[..5]) && PlainEnd(t[..5])
  {
    assert LineBody(t) == Some(t);
    assert t[|t| - 8..|t| - 3] == t[..5];
    var h := t[..5];
    assert h[0] == t[0] && h[1] == t[1] && h[2] == t[2] && h[3] == t[3] && h[4] == t[4];
    HourMinutePlain(h);
  }

  lemma HourMinutePlain(s: string)
    requires IsHourMinute(s)
    ensures PlainEnd(s)
  {
    forall i | 0 <= i < |s| ensures s[i] != '～' && s[i] != '、' {
    }
  }

  /** A day whose four ends are time cells: its hours are `DayHours` of the
      four `HH:MM`, so `DayHoursCases` applies. */
  lemma OpeningHoursOfTimes(w: seq<string>)
    requires |w| >= 6
    requires IsTimeCell(w[0]) && IsTimeCell(w[2]) && IsTimeCell(w[3]) && IsTimeCell(w[5])
    ensures OpeningHours(w) == DayHours(w[0][..5], w[2][..5], w[3][..5], w[5][..5])
  {
    TimeCell(w[0]);
    TimeCell(w[2]);
    TimeCell(w[3]);
    TimeCell(w[5]);
  }

  /** Open from `a` to `b` through a 00:00 gap: one range. */
  lemma ThroughGap(a: string, b: string)
    requires PlainEnd(a) && PlainEnd(b) && a != ZeroTime && b != ZeroTime
    ensures DayHours(a, ZeroTime, ZeroTime, b) == a + Tilde + b
  {
    DayHoursCases(a, ZeroTime, ZeroTime, b);
  }

  /** A closed afternoon leaves the morning's range alone. */
  lemma MorningOnly(a: string, b: string)
    requires PlainEnd(a) && PlainEnd(b) && a != ZeroTime
    ensures DayHours(a, b, ZeroTime, ZeroTime) == a + Tilde + b
  {
    assert PlainEnd(ZeroTime);
    DayHoursCases(a, b, ZeroTime, ZeroTime);
  }

  lemma JoinedFixtureCells(w: seq<string>)
    requires |w| == 6 && w[0] == "08:30:00" && w[2] == "00:00:00" && w[3] == "00:00:00" && w[5] == "17:00:00"
    ensures IsTimeCell(w[0]) && IsTimeCell(w[2]) && IsTimeCell(w[3]) && IsTimeCell(w[5])
    ensures w[0][..5] == "08:30" && w[2][..5] == ZeroTime && w[3][..5] == ZeroTime && w[5][..5] == "17:00"
    ensures PlainEnd("08:30") && PlainEnd("17:00") && PlainEnd(ZeroTime)
    ensures w[0][..5] + Tilde + w[5][..5] == "08:30～17:00"
  {
  }

  /** The first fixture row's weekdays: open 08:30 to 17:00 through a 00:00
      gap. The separator cells are not read. */
  lemma OpeningHoursJoinedFixture(w: seq<string>)
    requires |w| == 6 && w[0] == "08:30:00" && w[2] == "00:00:00" && w[3] == "00:00:00" && w[5] == "17:00:00"
    ensures OpeningHours(w) == "08:30～17:00"
  {
    JoinedFixtureCells(w);
    OpeningHoursOfTimes(w);
    ThroughGap(w[0][..5], w[5][..5]);
  }

  lemma MorningFixtureCells(w: seq<string>)
    requires |w| == 6 && w[0] == "08:30:00" && w[2] == "11:30:00" && w[3] == "00:00:00" && w[5] == "00:00:00"
    ensures IsTimeCell(w[0]) && IsTimeCell(w[2]) && IsTimeCell(w[3]) && IsTimeCell(w[5])
    ensures w[0][..5] == "08:30" && w[2][..5] == "11:30" && w[3][..5] == ZeroTime && w[5][..5] == ZeroTime
    ensures PlainEnd("08:30") && PlainEnd("11:30")
    ensures w[0][..5] + Tilde + w[2][..5] == "08:30～11:30"
  {
  }

  /** The second fixture row's weekdays: a morning only. */
  lemma OpeningHoursMorningFixture(w: seq<string>)
    requires |w| == 6 && w[0] == "08:30:00" && w[2] == "11:30:00" && w[3] == "00:00:00" && w[5] == "00:00:00"
    ensures OpeningHours(w) == "08:30～11:30"
  {
    MorningFixtureCells(w);
    OpeningHoursOfTimes(w);
    MorningOnly(w[0][..5], w[2][..5]);
  }

  /** A closed day: every end 00:00. */
  lemma OpeningHoursClosedFixture(w: seq<string>)
    requires |w| == 6 && w[0] == "00:00:00" && w[2] == "00:00:00" && w[3] == "00:00:00" && w[5] == "00:00:00"
    ensures OpeningHours(w) == ""
  {
    assert IsTimeCell(w[0]) && w[0][..5] == ZeroTime;
    assert w[2] == w[0] && w[3] == w[0] && w[5] == w[0];
    OpeningHoursOfTimes(w);
  }

  /** A "0" cell normalizes to "", which is not "00:00": the range keeps an
      empty end. */
  lemma EmptyCellIsNotZeroTime(w: seq<string>)
    requires |w| == 6 && w[0] == Normalize("0") && w[2] == "" && w[3] == "00:00:00" && w[5] == "17:00:00"
    ensures OpeningHours(w) == "～、00:00～17:00"
  {
    assert w[0] == "";
    EmptyStartCells(w);
    EmptyStartDay(w);
    EmptyStartText(w[3][..5], w[5][..5]);
  }

  lemma EmptyStartCells(w: seq<string>)
    requires |w| == 6 && w[0] == "" && w[2] == "" && w[3] == "00:00:00" && w[5] == "17:00:00"
    ensures StripIfTimeFormat(w[0]) == "" && StripIfTimeFormat(w[2]) == ""
    ensures IsTimeCell(w[3]) && IsTimeCell(w[5])
    ensures w[3][..5] == ZeroTime && w[5][..5] == "17:00" && w[5][..5] != ZeroTime
  {
  }

  /** Empty morning ends before an afternoon that does not end at 00:00. */
  lemma EmptyStartDay(w: seq<string>)
    requires |w| >= 6 && StripIfTimeFormat(w[0]) == "" && StripIfTimeFormat(w[2]) == ""
    requires IsTimeCell(w[3]) && IsTimeCell(w[5]) && w[5][..5] != ZeroTime
    ensures OpeningHours(w) == Tilde + Comma + (w[3][..5] + Tilde + w[5][..5])
  {
    TimeCell(w[3]);
    TimeCell(w[5]);
    EmptyMorning(w[3][..5], w[5][..5]);
  }

  lemma EmptyStartText(p0: string, p1: string)
    requires p0 == ZeroTime && p1 == "17:00"
    ensures Tilde + Comma + (p0 + Tilde + p1) == "～、00:00～17:00"
  {
  }

  /** A morning whose two ends are empty is written as a bare "～". */
  lemma EmptyMorning(p0: string, p1: string)
    requires PlainEnd(p0) && PlainEnd(p1) && p1 != ZeroTime
    ensures DayHours("", "", p0, p1) == Tilde + Comma + (p0 + Tilde + p1)
  {
    DayHoursCases("", "", p0, p1);
    assert "" + Tilde + "" == Tilde;
  }

  /** The seven days' hours, Monday first, from the 42 cells of columns
      9..50: day k reads the six cells that start at column 9 + 6k. */
  function Week(cells: seq<string>): seq<string>
    requires |cells| == 42
  {
    seq(7, k requires 0 <= k < 7 => OpeningHours(cells[6 * k..6 * k + 6]))
  }

  /** Day `k` of the week (Monday first) reads the six normalized cells
      that start at column 9 + 6k. */
  lemma WeekDay(n: seq<string>, k: nat)
    requires |n| >= RowWidth && k < 7
    ensures Record(n).week[k] == OpeningHours(n[9 + 6 * k..15 + 6 * k])
  {
    WeekWindow(n[9..51], k);
    DayCells(n, 6 * k);
  }

  lemma DayCells(n: seq<string>, lo: nat)
    requires |n| >= RowWidth && lo <= 36
    ensures n[9..51][lo..lo + 6] == n[9 + lo..15 + lo]
  {
    var day, cells := n[9..51][lo..lo + 6], n[9 + lo..15 + lo];
    forall i | 0 <= i < 6 ensures day[i] == cells[i] {
      assert day[i] == n[9 + lo + i];
    }
  }

  lemma SliceOfNormalized(cells: seq<string>, i: nat, j: nat)
    requires i <= j <= |cells|
    ensures NormalizeRow(cells)[i..j] == NormalizeRow(cells[i..j])
  {
  }

  lemma WeekWindow(cells: seq<string>, k: nat)
    requires |cells| == 42 && k < 7
    ensures Week(cells)[k] == OpeningHours(cells[6 * k..6 * k + 6])
  {
  }

  /** Normalized text holds no newline, so on every cell the extractor reads
      the mark test is exact and the time test is exact. */
  lemma NormalizedCellTests(t: string)
    ensures Available(Normalize(t)) <==> exists i :: 0 <= i < |Normalize(t)| && IsMark(Normalize(t)[i])
    ensures StripIfTimeFormat(Normalize(t)) == Normalize(t) <==> !EndsWithTime(Normalize(t))
  {
    assert IsBlank('\n');
    assert NoNewline(Normalize(t));
  }

  /** The record built from a row whose cells are already normalized. */
  function Record(n: seq<string>): (r: Outpatient)
    requires |n| >= RowWidth
    ensures ' ' !in r.name && |r.week| == 7
    ensures (r.isFaceToFaceForPositivePatients || r.isOnlineForPositivePatients
             || r.isHomeVisitationForPositivePatients) ==> r.isPositivePatients
  {
    RemoveCharSpec(n[3], ' ');
    var positive := Available(n[1]);
    Outpatient(
      isOutpatient := Available(n[0]),
      isPositivePatients := positive,
      publicHealthCareCenter := n[2],
      name := Replace(n[3], " ", ""),
      city := n[4],
      address := Replace(n[5], Prefecture, ""),
      phoneNumber := n[6],
      isTargetNotFamily := n[7] == NotFamilyPhrase,
      isPediatrics := Available(n[8]),
      week := Week(n[9..51]),
      isFaceToFaceForPositivePatients := positive && Available(n[51]),
      isOnlineForPositivePatients := positive && Available(n[52]),
      isHomeVisitationForPositivePatients := positive && Available(n[53]),
      memo := n[57])
  }

  /** What every record `_get_outpatient` returns satisfies: a name without
      spaces, seven days, a positive-patient modality only for a facility
      that sees positive patients, and normalized text fields. */
  predicate WellFormed(o: Outpatient) {
    && ' ' !in o.name
    && |o.week| == 7
    && ((o.isFaceToFaceForPositivePatients || o.isOnlineForPositivePatients
         || o.isHomeVisitationForPositivePatients) ==> o.isPositivePatients)
    && Trimmed(o.publicHealthCareCenter) && Trimmed(o.city) && Trimmed(o.phoneNumber) && Trimmed(o.memo)
  }

  /** `_get_outpatient`: the record of one row, or the IndexError a row
      shorter than 58 cells raises. */
  function GetOutpatient(row: seq<string>): (r: Result<Outpatient>)
    ensures r.Failure? <==> |row| < RowWidth
    ensures r.Failure? ==> r.error == IndexError
    ensures r.Success? ==> WellFormed(r.value)
    ensures r.Success? ==> r.value.name == Dropped(Normalize(row[3]), ' ')
    ensures r.Success? ==> multiset(r.value.name) == multiset(Normalize(row[3]))[' ' := 0]
  {
    if |row| < RowWidth then Failure(IndexError)
    else
      var n := NormalizeRow(row);
      RemoveCharSpec(n[3], ' ');
      Success(Record(n))
  }

  /** The column each field is read from, after normalization. */
  lemma OutpatientColumns(row: seq<string>, o: Outpatient)
    requires |row| >= RowWidth && GetOutpatient(row) == Success(o)
    ensures && o.isOutpatient == Available(Normalize(row[0]))
            && o.isPositivePatients == Available(Normalize(row[1]))
            && o.publicHealthCareCenter == Normalize(row[2])
            && o.name == Replace(Normalize(row[3]), " ", "")
            && o.city == Normalize(row[4])
            && o.address == Replace(Normalize(row[5]), Prefecture, "")
            && o.phoneNumber == Normalize(row[6])
            && (o.isTargetNotFamily <==> Normalize(row[7]) == NotFamilyPhrase)
            && o.isPediatrics == Available(Normalize(row[8]))
            && (o.isPositivePatients ==>
                  && o.isFaceToFaceForPositivePatients == Available(Normalize(row[51]))
                  && o.isOnlineForPositivePatients == Available(Normalize(row[52]))
                  && o.isHomeVisitationForPositivePatients == Available(Normalize(row[53])))
            && o.memo == Normalize(row[57])
  {
    assert o == Record(NormalizeRow(row));
  }

  /** Two rows that agree on columns 0..53 and 57 give the same record:
      columns 54..56 and any beyond 57 are never read. */
  lemma UnreadColumns(row1: seq<string>, row2: seq<string>)
    requires |row1| >= RowWidth && |row2| >= RowWidth
    requires row1[..54] == row2[..54] && row1[57] == row2[57]
    ensures GetOutpatient(row1) == GetOutpatient(row2)
  {
    var n1, n2 := NormalizeRow(row1), NormalizeRow(row2);
    forall i | 0 <= i < 54 ensures n1[i] == n2[i] {
      assert row1[i] == row1[..54][i] && row2[i] == row2[..54][i];
    }
    RecordReads(n1, n2);
  }

  lemma RecordReads(n1: seq<string>, n2: seq<string>)
    requires |n1| >= RowWidth && |n2| >= RowWidth
    requires forall i :: 0 <= i < 54 ==> n1[i] == n2[i]
    requires n1[57] == n2[57]
    ensures Record(n1) == Record(n2)
  {
    assert n1[9..51] == n2[9..51];
  }

  /** The rows `__init__` turns into records: every row with at least one
      cell, in order. */
  function NonEmptyRows(rows: seq<seq<string>>): (r: seq<seq<string>>)
    ensures |r| <= |rows|
    ensures forall x :: x in r <==> x in rows && |x| > 0
  {
    if rows == [] then []
    else
      var init := rows[..|rows| - 1];
      var last := rows[|rows| - 1];
      assert rows == init + [last];
      NonEmptyRows(init) + if |last| > 0 then [last] else []
  }

  /** The loop of `ScrapeOutpatient.__init__` with the row converter as a
      parameter: every row with at least one cell is converted, in order,
      and the first failure is the result. */
  function Collect<T>(rows: seq<seq<string>>, convert: seq<string> -> Result<T>): (r: Result<seq<T>>)
    ensures r.Success? ==> |r.value| <= |rows|
    ensures r.Failure? ==> exists k :: 0 <= k < |rows| && |rows[k]| > 0 && convert(rows[k]) == Failure(r.error)
  {
    if rows == [] then Success([])
    else
      var init := rows[..|rows| - 1];
      assert forall k :: 0 <= k < |init| ==> init[k] == rows[k];
      match Collect(init, convert)
      case Failure(e) => Failure(e)
      case Success(os) =>
        var last := rows[|rows| - 1];
        if |last| == 0 then Success(os)
        else
          match convert(last)
          case Failure(e) => Failure(e)
          case Success(o) => Success(os + [o])
  }

  /** What `ScrapeOutpatient(...).lists` holds, or the error its constructor
      raises. */
  function Outpatients(rows: seq<seq<string>>): (r: Result<seq<Outpatient>>)
    ensures r.Failure? ==> r.error == IndexError
    ensures r.Success? ==> |r.value| <= |rows|
  {
    Collect(rows, GetOutpatient)
  }

  /** A failure on a prefix is the failure of the whole sheet. */
  lemma {:induction false} CollectFailureSticks<T>(rows: seq<seq<string>>, convert: seq<string> -> Result<T>, k: nat)
    requires k <= |rows| && Collect(rows[..k], convert).Failure?
    ensures Collect(rows, convert) == Collect(rows[..k], convert)
    decreases |rows| - k
  {
    if k < |rows| {
      assert rows[..k + 1][..k] == rows[..k];
      CollectFailureSticks(rows, convert, k + 1);
    } else {
      assert rows[..k] == rows;
    }
  }

  /** No row has between 1 and 57 cells. */
  predicate RowsFit(rows: seq<seq<string>>) {
    forall i :: 0 <= i < |rows| ==> |rows[i]| == 0 || |rows[i]| >= RowWidth
  }

  /** A converter that, like `_get_outpatient`, fails on exactly the rows
      shorter than 58 cells, with an IndexError. */
  ghost predicate FailsOnShortRows<T>(convert: seq<string> -> Result<T>) {
    forall row :: (convert(row).Failure? <==> |row| < RowWidth)
                  && (convert(row).Failure? ==> convert(row).error == IndexError)
  }

  /** The sheet yields records exactly when its rows fit; otherwise the
      error is the IndexError of a short row. */
  lemma {:induction false} CollectSucceeds<T>(rows: seq<seq<string>>, convert: seq<string> -> Result<T>)
    requires FailsOnShortRows(convert)
    ensures Collect(rows, convert).Success? <==> RowsFit(rows)
    ensures Collect(rows, convert).Failure? ==> Collect(rows, convert).error == IndexError
  {
    if rows != [] {
      var init := rows[..|rows| - 1];
      CollectSucceeds(init, convert);
      assert forall i :: 0 <= i < |init| ==> init[i] == rows[i];
    }
  }

  /** One result per non-empty row, in order, each that row's conversion. */
  lemma {:induction false} CollectRecords<T>(rows: seq<seq<string>>, convert: seq<string> -> Result<T>)
    requires Collect(rows, convert).Success?
    ensures var os, kept := Collect(rows, convert).value, NonEmptyRows(rows);
            |os| == |kept| && forall k :: 0 <= k < |os| ==> convert(kept[k]) == Success(os[k])
  {
    if rows != [] {
      var init := rows[..|rows| - 1];
      var last := rows[|rows| - 1];
      assert Collect(init, convert).Success?;
      CollectRecords(init, convert);
      var os0, kept0 := Collect(init, convert).value, NonEmptyRows(init);
      var os, kept := Collect(rows, convert).value, NonEmptyRows(rows);
      if |last| == 0 {
        assert os == os0 && kept == kept0 + [];
      } else {
        assert os == os0 + [convert(last).value] && kept == kept0 + [last];
        forall k | 0 <= k < |os| ensures convert(kept[k]) == Success(os[k]) {
          if k < |os0| {
            assert kept[k] == kept0[k] && os[k] == os0[k];
          }
        }
      }
    }
  }

  /** The sheet's records, row by row: they exist exactly when the rows fit,
      and then each is the record of the matching non-empty row. */
  lemma OutpatientsSpec(rows: seq<seq<string>>)
    ensures Outpatients(rows).Success? <==> RowsFit(rows)
    ensures Outpatients(rows).Failure? ==> Outpatients(rows).error == IndexError
    ensures Outpatients(rows).Success? ==>
              var os, kept := Outpatients(rows).value, NonEmptyRows(rows);
              |os| == |kept| && forall k :: 0 <= k < |os| ==> GetOutpatient(kept[k]) == Success(os[k])
  {
    CollectSucceeds(rows, GetOutpatient);
    if Outpatients(rows).Success? {
      CollectRecords(rows, GetOutpatient);
    }
  }

  /** One more row of the sheet through the loop of `__init__`. */
  lemma CollectStep<T>(rows: seq<seq<string>>, convert: seq<string> -> Result<T>, i: nat, done: seq<T>)
    requires i < |rows| && Collect(rows[..i], convert) == Success(done)
    ensures var next := Collect(rows[..i + 1], convert);
            && (|rows[i]| == 0 ==> next == Success(done))
            && (|rows[i]| > 0 && convert(rows[i]).Failure? ==> next == Failure(convert(rows[i]).error))
            && (|rows[i]| > 0 && convert(rows[i]).Success? ==> next == Success(done + [convert(rows[i]).value]))
  {
    assert rows[..i + 1][..i] == rows[..i];
  }

  /** `ScrapeOutpatient.__init__` over the rows `_get_excel_lists` returned:
      one record per row that has at least one cell, in order. */
  method Scrape(sheet: seq<seq<string>>) returns (r: Result<seq<Outpatient>>)
    ensures r == Outpatients(sheet)
    ensures r.Success? <==> RowsFit(sheet)
    ensures r.Success? ==> |r.value| == |NonEmptyRows(sheet)|
  {
    var lists: seq<Outpatient> := [];
    for i := 0 to |sheet|
      invariant Collect(sheet[..i], GetOutpatient) == Success(lists)
    {
      var row := sheet[i];
      CollectStep(sheet, GetOutpatient, i, lists);
      if |row| > 0 {
        var o := GetOutpatient(row);
        if o.Failure? {
          CollectFailureSticks(sheet, GetOutpatient, i + 1);
          OutpatientsSpec(sheet);
          return Failure(o.error);
        }
        lists := lists + [o.value];
      }
    }
    assert sheet[..|sheet|] == sheet;
    OutpatientsSpec(sheet);
    r := Success(lists);
  }
}
