/** `Scraper.normalize` and `Scraper._format_string`: the text clean-up every
    extractor applies to every cell it reads. */
module Normalizer {
  import opened Base
  import opened Text

  /** The open-data convention: a bare "0" means "no value". */
  const Sentinel: string := "0"

  /** The characters `_format_string` turns into a space: U+3000 (ideographic
      space), CR and LF. */
  predicate IsBlank(c: char) {
    c == '\U{3000}' || c == '\r' || c == '\n'
  }

  /** The three chained `str.replace` calls of `_format_string`. */
  function BlanksToSpaces(s: string): (r: string)
    ensures |r| == |s|
    ensures forall i :: 0 <= i < |s| ==> r[i] == if IsBlank(s[i]) then ' ' else s[i]
    decreases |s|
  {
    if s == [] then [] else [if IsBlank(s[0]) then ' ' else s[0]] + BlanksToSpaces(s[1..])
  }

  predicate NoDoubleSpace(s: string) {
    forall i :: 0 <= i < |s| - 1 ==> !(s[i] == ' ' && s[i + 1] == ' ')
  }

  /** `re.sub("( +)", " ", s)`: every run of spaces becomes one space. */
  function CollapseSpaces(s: string): (r: string)
    ensures |r| <= |s| && NoDoubleSpace(r)
    ensures forall c :: c in r ==> c in s
    ensures s != [] ==> r != [] && r[0] == s[0] && r[|r| - 1] == s[|s| - 1]
    decreases |s|
  {
    if s == [] then []
    else if |s| >= 2 && s[0] == ' ' && s[1] == ' ' then CollapseSpaces(s[1..])
    else
      var rest := CollapseSpaces(s[1..]);
      assert forall c :: c in rest ==> c in s by {
        forall c | c in rest ensures c in s { assert c in s[1..]; }
      }
      [s[0]] + rest
  }

  /** `n` spaces. */
  function Spaces(n: nat): (r: string)
    ensures |r| == n && forall i :: 0 <= i < n ==> r[i] == ' '
  {
    seq(n, i => ' ')
  }

  /** Two texts that do not meet in two spaces collapse separately. */
  lemma {:induction false} CollapseAppend(x: string, y: string)
    requires x == [] || y == [] || !(x[|x| - 1] == ' ' && y[0] == ' ')
    ensures CollapseSpaces(x + y) == CollapseSpaces(x) + CollapseSpaces(y)
    decreases |x|
  {
    if x == [] {
      assert x + y == y;
    } else if y == [] {
      assert x + y == x;
    } else {
      var s := x + y;
      assert s[1..] == x[1..] + y;
      CollapseAppend(x[1..], y);
      if |x| >= 2 && x[0] == ' ' && x[1] == ' ' {
        assert s[0] == ' ' && s[1] == ' ';
      } else {
        assert CollapseSpaces(s) == [s[0]] + CollapseSpaces(s[1..]);
        assert CollapseSpaces(x) == [x[0]] + CollapseSpaces(x[1..]);
        AppendAssoc([x[0]], CollapseSpaces(x[1..]), CollapseSpaces(y));
      }
    }
  }

  /** A run of spaces at the front becomes one space. */
  lemma {:induction false} CollapseRun(n: nat, y: string)
    requires n >= 1 && (y == [] || y[0] != ' ')
    ensures CollapseSpaces(Spaces(n) + y) == " " + CollapseSpaces(y)
    decreases n
  {
    var s := Spaces(n) + y;
    if n == 1 {
      assert s[1..] == y;
    } else {
      assert s[1..] == Spaces(n - 1) + y;
      CollapseRun(n - 1, y);
    }
  }

  /** What the pattern `( +)` does: a maximal run of spaces, whatever its
      length, is replaced by a single space, and the text on either side is
      collapsed on its own. */
  lemma RunBecomesOneSpace(x: string, n: nat, y: string)
    requires n >= 1
    requires x == [] || x[|x| - 1] != ' '
    requires y == [] || y[0] != ' '
    ensures CollapseSpaces(x + Spaces(n) + y) == CollapseSpaces(x) + " " + CollapseSpaces(y)
  {
    CollapseRun(n, y);
    AppendAssoc(x, Spaces(n), y);
    CollapseAppend(x, Spaces(n) + y);
    AppendAssoc(CollapseSpaces(x), " ", CollapseSpaces(y));
  }

  /** Text with two spaces in a row gets strictly shorter. */
  lemma {:induction false} CollapseShortens(s: string)
    requires !NoDoubleSpace(s)
    ensures |CollapseSpaces(s)| < |s|
    decreases |s|
  {
    if !(s[0] == ' ' && s[1] == ' ') {
      assert !NoDoubleSpace(s[1..]) by {
        var i :| 0 <= i < |s| - 1 && s[i] == ' ' && s[i + 1] == ' ';
        assert s[1..][i - 1] == s[i];
      }
      CollapseShortens(s[1..]);
    }
  }

  lemma SpacedHasNoBlank(s: string)
    ensures forall c :: c in BlanksToSpaces(s) ==> !IsBlank(c) && (c in s || c == ' ')
  {
    var b := BlanksToSpaces(s);
    forall c | c in b ensures !IsBlank(c) && (c in s || c == ' ') {
      var i :| 0 <= i < |b| && b[i] == c;
      assert s[i] in s;
    }
  }

  /** Collapsing the spaces of stripped blank-free text leaves it clean. */
  lemma CollapsedIsClean(b: string)
    requires forall c :: c in b ==> !IsBlank(c)
    ensures Clean(CollapseSpaces(Strip(b)))
  {
    var t := Strip(b);
    var r := CollapseSpaces(t);
    CollapsedKeepsEnds(t);
    assert forall c :: c in r ==> c in b;
  }

  lemma CollapsedKeepsEnds(t: string)
    requires NoOuterWhitespace(t)
    ensures NoOuterWhitespace(CollapseSpaces(t))
  {
  }

  /** `_format_string` on a str. */
  function FormatString(text: string): (r: string)
    ensures Clean(r)
    ensures forall c :: c in r ==> c in text || c == ' '
  {
    SpacedHasNoBlank(text);
    CollapsedIsClean(BlanksToSpaces(text));
    CollapseSpaces(Strip(BlanksToSpaces(text)))
  }

  /** No CR, LF or U+3000, and no whitespace at either end. */
  predicate Trimmed(s: string) {
    && (forall c :: c in s ==> !IsBlank(c))
    && NoOuterWhitespace(s)
  }

  /** What `_format_string` guarantees: trimmed, and no two spaces in a row. */
  predicate Clean(s: string) {
    Trimmed(s) && NoDoubleSpace(s)
  }

  /** The forms U+FF01..U+FF5E: full-width ASCII punctuation, digits and letters. */
  predicate IsFullwidthForm(c: char) {
    '\U{FF01}' <= c <= '\U{FF5E}'
  }

  /** The spaces other than U+3000 that NFKC turns into U+0020: the no-break
      space U+00A0, the typographic spaces U+2000..U+200A, U+202F and U+205F. */
  predicate IsCompatSpace(c: char) {
    c == '\U{00A0}' || '\U{2000}' <= c <= '\U{200A}' || c == '\U{202F}' || c == '\U{205F}'
  }

  /** NFKC on one character, restricted to the characters it maps to a
      single other character that the extractors meet: the full-width ASCII
      forms go to U+0021..U+007E, the compatibility spaces and U+3000 to
      U+0020; every other character is left alone. */
  function HalfWidth(c: char): (r: char)
    ensures !IsFullwidthForm(r) && !IsCompatSpace(r) && r != '\U{3000}'
    ensures IsPyWhitespace(r) <==> IsPyWhitespace(c)
    ensures IsBlank(r) <==> c == '\r' || c == '\n'
    ensures r == ' ' <==> c == ' ' || c == '\U{3000}' || IsCompatSpace(c)
    ensures IsFullwidthForm(c) ==> '!' <= r <= '~'
    ensures !IsFullwidthForm(c) && !IsCompatSpace(c) && c != '\U{3000}' ==> r == c
  {
    if IsFullwidthForm(c) then (c as int - 0xFEE0) as char
    else if IsCompatSpace(c) || c == '\U{3000}' then ' '
    else c
  }

  /** `unicodedata.normalize("NFKC", s)` on that fragment. */
  function Nfkc(s: string): (r: string)
    ensures |r| == |s|
    ensures forall i :: 0 <= i < |s| ==> r[i] == HalfWidth(s[i])
  {
    seq(|s|, i requires 0 <= i < |s| => HalfWidth(s[i]))
  }

  predicate NoFullwidthForms(s: string) {
    forall c :: c in s ==> !IsFullwidthForm(c)
  }

  predicate NoCompatSpaces(s: string) {
    forall c :: c in s ==> !IsCompatSpace(c)
  }

  /** `Scraper.normalize` on a str. NFKC runs after the spaces are
      collapsed, so a compatibility space next to a space gives two spaces
      in a row; text without compatibility spaces comes out clean. */
  function Normalize(text: string): (r: string)
    ensures text == Sentinel ==> r == ""
    ensures Trimmed(r) && NoFullwidthForms(r) && NoCompatSpaces(r)
    ensures NoCompatSpaces(text) ==> Clean(r)
  {
    if text == Sentinel then ""
    else
      NfkcKeepsTrimmed(FormatString(text));
      NfkcKeepsSpacing(text);
      Nfkc(FormatString(text))
  }

  /** `Scraper.normalize` on any Python object: a non-str gives "". */
  function NormalizeValue(v: Value): (r: string)
    ensures v.NotStr? ==> r == ""
    ensures v.Str? ==> r == Normalize(v.s)
  {
    match v
    case Str(s) => Normalize(s)
    case NotStr => ""
  }

  /** Every cell of the row through `Scraper.normalize`, as `list(map(self.normalize, row))` does. */
  function NormalizeRow(row: seq<string>): (n: seq<string>)
    ensures |n| == |row|
    ensures forall i :: 0 <= i < |row| ==> n[i] == Normalize(row[i])
  {
    seq(|row|, i requires 0 <= i < |row| => Normalize(row[i]))
  }

  lemma NfkcKeepsTrimmed(s: string)
    requires Clean(s)
    ensures Trimmed(Nfkc(s)) && NoFullwidthForms(Nfkc(s)) && NoCompatSpaces(Nfkc(s))
  {
    var r := Nfkc(s);
    forall c | c in r ensures !IsBlank(c) && !IsFullwidthForm(c) && !IsCompatSpace(c) {
      var i :| 0 <= i < |r| && r[i] == c;
      assert s[i] in s;
    }
  }

  /** Without compatibility spaces in the text, NFKC adds no space to the
      formatted text. */
  lemma NfkcKeepsSpacing(text: string)
    ensures NoCompatSpaces(text) ==> NoDoubleSpace(Nfkc(FormatString(text)))
  {
    var f := FormatString(text);
    if NoCompatSpaces(text) {
      forall i | 0 <= i < |f| ensures (Nfkc(f)[i] == ' ') == (f[i] == ' ') {
        assert f[i] in f;
      }
    }
  }

  /** The text with all of Python's whitespace taken out. */
  function Squeeze(s: string): string
    decreases |s|
  {
    if s == [] then [] else (if IsPyWhitespace(s[0]) then [] else [s[0]]) + Squeeze(s[1..])
  }

  lemma {:induction false} SqueezeAppend(a: string, b: string)
    ensures Squeeze(a + b) == Squeeze(a) + Squeeze(b)
    decreases |a|
  {
    if a != [] {
      assert (a + b)[1..] == a[1..] + b;
      SqueezeAppend(a[1..], b);
    } else {
      assert a + b == b;
    }
  }

  lemma {:induction false} SqueezeAllWhitespace(s: string)
    requires forall i :: 0 <= i < |s| ==> IsPyWhitespace(s[i])
    ensures Squeeze(s) == []
    decreases |s|
  {
    if s != [] {
      SqueezeAllWhitespace(s[1..]);
    }
  }

  lemma {:induction false} SqueezeBlanks(s: string)
    ensures Squeeze(BlanksToSpaces(s)) == Squeeze(s)
    decreases |s|
  {
    if s != [] {
      SqueezeBlanks(s[1..]);
      assert BlanksToSpaces(s)[1..] == BlanksToSpaces(s[1..]);
    }
  }

  lemma SqueezeLStrip(s: string)
    ensures Squeeze(LStrip(s)) == Squeeze(s)
  {
    var l := LStrip(s);
    var k := |s| - |l|;
    assert s == s[..k] + l;
    SqueezeAllWhitespace(s[..k]);
    SqueezeAppend(s[..k], l);
  }

  lemma SqueezeRStrip(s: string)
    ensures Squeeze(RStrip(s)) == Squeeze(s)
  {
    var r := RStrip(s);
    assert s == r + s[|r|..];
    SqueezeAllWhitespace(s[|r|..]);
    SqueezeAppend(r, s[|r|..]);
  }

  lemma SqueezeStrip(s: string)
    ensures Squeeze(Strip(s)) == Squeeze(s)
  {
    assert Strip(s) == RStrip(LStrip(s));
    SqueezeLStrip(s);
    SqueezeRStrip(LStrip(s));
  }

  lemma {:induction false} SqueezeCollapse(s: string)
    ensures Squeeze(CollapseSpaces(s)) == Squeeze(s)
    decreases |s|
  {
    if s != [] {
      SqueezeCollapse(s[1..]);
      if |s| >= 2 && s[0] == ' ' && s[1] == ' ' {
      } else {
        assert CollapseSpaces(s) == [s[0]] + CollapseSpaces(s[1..]);
        SqueezeAppend([s[0]], CollapseSpaces(s[1..]));
      }
    }
  }

  /** `_format_string` changes nothing but whitespace. */
  lemma FormatStringOnlyTouchesWhitespace(text: string)
    ensures Squeeze(FormatString(text)) == Squeeze(text)
  {
    SqueezeBlanks(text);
    SqueezeStrip(BlanksToSpaces(text));
    SqueezeCollapse(Strip(BlanksToSpaces(text)));
  }

  lemma {:induction false} CollapseNoDoubleSpace(s: string)
    requires NoDoubleSpace(s)
    ensures CollapseSpaces(s) == s
    decreases |s|
  {
    if s != [] {
      CollapseNoDoubleSpace(s[1..]);
    }
  }

  /** Trimmed text meets only the space collapsing of `_format_string`. */
  lemma FormatStringOfTrimmed(s: string)
    requires Trimmed(s)
    ensures FormatString(s) == CollapseSpaces(s)
  {
    assert BlanksToSpaces(s) == s;
    assert LStrip(s) == s;
    assert RStrip(s) == s;
  }

  /** Text that is already clean passes `_format_string` unchanged. */
  lemma FormatStringKeepsClean(s: string)
    requires Clean(s)
    ensures FormatString(s) == s
  {
    FormatStringOfTrimmed(s);
    CollapseNoDoubleSpace(s);
  }

  /** Clean text without full-width forms or compatibility spaces, other
      than "0", is its own normal form. */
  lemma NormalizeFixedPoint(s: string)
    requires s != Sentinel && Clean(s) && NoFullwidthForms(s) && NoCompatSpaces(s)
    ensures Normalize(s) == s
  {
    FormatStringKeepsClean(s);
    NfkcKeepsHalfWidth(s);
  }

  lemma NfkcKeepsHalfWidth(s: string)
    requires NoFullwidthForms(s) && NoCompatSpaces(s) && '\U{3000}' !in s
    ensures Nfkc(s) == s
  {
    forall i | 0 <= i < |s| ensures Nfkc(s)[i] == s[i] {
      assert s[i] in s;
    }
  }

  /** A second pass changes the normalized text exactly when the first pass
      gave "0" (the sentinel test runs before NFKC) or left two spaces in a
      row (NFKC runs after the spaces are collapsed). */
  lemma NormalizeTwice(s: string)
    ensures Normalize(Normalize(s)) == Normalize(s) <==> Normalize(s) != Sentinel && NoDoubleSpace(Normalize(s))
  {
    var r := Normalize(s);
    if r == Sentinel {
      assert Normalize(r) == "";
    } else if NoDoubleSpace(r) {
      NormalizeFixedPoint(r);
    } else {
      DoubleSpaceShrinks(r);
    }
  }

  lemma DoubleSpaceShrinks(r: string)
    requires r != Sentinel && Trimmed(r) && !NoDoubleSpace(r)
    ensures |Normalize(r)| < |r|
  {
    FormatStringOfTrimmed(r);
    CollapseShortens(r);
  }

  /** Normalization is not idempotent: full-width zero becomes "0", which a
      second pass turns into "". */
  lemma NormalizeNotIdempotent()
    ensures Normalize("０") == "0"
    ensures Normalize(Normalize("０")) == ""
  {
    FullwidthZeroFirstPass("０");
  }

  lemma FullwidthZeroFirstPass(t: string)
    requires |t| == 1 && t[0] == '\U{FF10}'
    ensures Normalize(t) == Sentinel
  {
    assert Clean(t);
    FormatStringKeepsClean(t);
    assert Nfkc(t)[0] == '0';
  }

  /** Nor is it on a no-break space beside a space: `_format_string` keeps
      both, NFKC makes the first a space, and only a second pass collapses
      the two. */
  lemma NoBreakSpaceDoubles()
    ensures Normalize("a\U{00A0} b") == "a  b"
    ensures Normalize("a  b") == "a b"
  {
    NoBreakSpaceFirstPass("a\U{00A0} b");
    DoubleSpaceSecondPass("a  b");
  }

  /** A character NFKC leaves alone and `strip` does not remove. */
  predicate Plain(c: char) {
    !IsPyWhitespace(c) && !IsFullwidthForm(c)
  }

  lemma NoBreakSpaceFirstPass(t: string)
    requires |t| == 4 && Plain(t[0]) && t[1] == '\U{00A0}' && t[2] == ' ' && Plain(t[3])
    ensures Normalize(t) == [t[0], ' ', ' ', t[3]]
  {
    assert Clean(t);
    FormatStringKeepsClean(t);
    var d := Nfkc(t);
    assert d[1] == ' ' by {
      assert IsCompatSpace(t[1]);
    }
  }

  lemma DoubleSpaceSecondPass(d: string)
    requires |d| == 4 && Plain(d[0]) && d[1] == ' ' && d[2] == ' ' && Plain(d[3])
    ensures Normalize(d) == [d[0], ' ', d[3]]
  {
    assert Trimmed(d);
    FormatStringOfTrimmed(d);
    assert d == [d[0]] + Spaces(2) + [d[3]];
    RunBecomesOneSpace([d[0]], 2, [d[3]]);
    var e := [d[0], ' ', d[3]];
    assert FormatString(d) == e;
    assert '\U{3000}' !in e && NoCompatSpaces(e) && NoFullwidthForms(e);
    NfkcKeepsHalfWidth(e);
  }
}
