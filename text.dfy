/** The pieces of Python's `str` and `re` behaviour the extractors rely on. */
module Text {
  import opened Base

  /** Python's `str.isspace()`. */
  predicate IsPyWhitespace(c: char) {
    || c == '\t' || c == '\n' || c == '\U{000B}' || c == '\U{000C}' || c == '\r'
    || '\U{001C}' <= c <= '\U{001F}' || c == ' ' || c == '\U{0085}' || c == '\U{00A0}'
    || c == '\U{1680}' || '\U{2000}' <= c <= '\U{200A}' || c == '\U{2028}' || c == '\U{2029}'
    || c == '\U{202F}' || c == '\U{205F}' || c == '\U{3000}'
  }

  predicate NoNewline(s: string) {
    '\n' !in s
  }

  /** `t` occurs in `s` (Python's `t in s`). */
  predicate Contains(s: string, t: string)
    decreases |s|
  {
    t <= s || (s != [] && Contains(s[1..], t))
  }

  /** The line a pattern `^...$` made of `.` and literals can match (Python, no
      MULTILINE flag): `.` never matches a newline, and `$` matches at the end
      or just before a final newline. `None` when no such match can exist. */
  function LineBody(s: string): (r: Option<string>)
    ensures r.Some? ==> NoNewline(r.value) && (s == r.value || s == r.value + "\n")
    ensures forall l :: NoNewline(l) && (s == l || s == l + "\n") ==> r == Some(l)
  {
    if NoNewline(s) then Some(s)
    else if |s| > 0 && s[|s| - 1] == '\n' && NoNewline(s[..|s| - 1]) then
      assert s == s[..|s| - 1] + "\n";
      Some(s[..|s| - 1])
    else
      assert forall l :: NoNewline(l) && s == l + "\n" ==> s[..|s| - 1] == l;
      None
  }

  /** Python's `s.replace(pat, rep)`: occurrences are replaced left to right,
      without overlap. */
  function Replace(s: string, pat: string, rep: string): (r: string)
    requires |pat| > 0
    ensures |rep| <= |pat| ==> |r| <= |s|
    ensures s != [] && rep != [] ==> r != []
    decreases |s|
  {
    if |s| < |pat| then s
    else if s[..|pat|] == pat then rep + Replace(s[|pat|..], pat, rep)
    else [s[0]] + Replace(s[1..], pat, rep)
  }

  /** A prefix holding no copy of the pattern's first character is passed over. */
  lemma {:induction false} ReplaceSkip(x: string, rest: string, pat: string, rep: string)
    requires |pat| > 0 && pat[0] !in x
    ensures Replace(x + rest, pat, rep) == x + Replace(rest, pat, rep)
  {
    if x != [] {
      var s := x + rest;
      if |s| < |pat| {
        ReplaceShort(rest, pat, rep);
        ReplaceShort(s, pat, rep);
      } else {
        assert s[..|pat|][0] == x[0] != pat[0];
        assert s[1..] == x[1..] + rest;
        assert Replace(s, pat, rep) == [x[0]] + Replace(x[1..] + rest, pat, rep);
        ReplaceSkip(x[1..], rest, pat, rep);
        assert x == [x[0]] + x[1..];
        assert [x[0]] + (x[1..] + Replace(rest, pat, rep)) == x + Replace(rest, pat, rep);
      }
    } else {
      assert x + rest == rest;
    }
  }

  lemma ReplaceShort(s: string, pat: string, rep: string)
    requires 0 < |pat| && |s| < |pat|
    ensures Replace(s, pat, rep) == s
  {
  }

  /** A string without the pattern's first character is left as it is. */
  lemma ReplaceNone(s: string, pat: string, rep: string)
    requires |pat| > 0 && pat[0] !in s
    ensures Replace(s, pat, rep) == s
  {
    ReplaceSkip(s, "", pat, rep);
    assert s + "" == s;
  }

  /** The text with every `c` left out and the other characters kept, in
      order. */
  function Dropped(s: string, c: char): string
    decreases |s|
  {
    if s == [] then [] else (if s[0] == c then [] else [s[0]]) + Dropped(s[1..], c)
  }

  /** Python's `s.replace(c, "")` removes every `c` and keeps every other
      character, in order and with its count. */
  lemma {:induction false} RemoveCharSpec(s: string, c: char)
    ensures Replace(s, [c], "") == Dropped(s, c)
    ensures c !in Replace(s, [c], "")
    ensures multiset(Replace(s, [c], "")) == multiset(s)[c := 0]
  {
    ReplaceCharDrops(s, c);
    DroppedSpec(s, c);
  }

  lemma {:induction false} ReplaceCharDrops(s: string, c: char)
    ensures Replace(s, [c], "") == Dropped(s, c)
    decreases |s|
  {
    if s != [] {
      ReplaceCharDrops(s[1..], c);
      assert s[..1] == [s[0]];
    }
  }

  lemma {:induction false} DroppedSpec(s: string, c: char)
    ensures c !in Dropped(s, c)
    ensures multiset(Dropped(s, c)) == multiset(s)[c := 0]
    decreases |s|
  {
    if s != [] {
      DroppedSpec(s[1..], c);
      assert s == [s[0]] + s[1..];
    }
  }

  /** Python's `s.split(sep)` for a one-character separator. */
  function Split(s: string, sep: char): (parts: seq<string>)
    ensures |parts| >= 1
    ensures forall i :: 0 <= i < |parts| ==> sep !in parts[i]
    decreases |s|
  {
    if s == [] then [""]
    else
      var rest := Split(s[1..], sep);
      if s[0] == sep then [""] + rest
      else [[s[0]] + rest[0]] + rest[1..]
  }

  /** Python's `sep.join(parts)`. */
  function Join(parts: seq<string>, sep: char): string
    requires |parts| >= 1
  {
    if |parts| == 1 then parts[0] else parts[0] + [sep] + Join(parts[1..], sep)
  }

  /** Joining the fields of a split gives the text back. */
  lemma {:induction false} JoinSplit(s: string, sep: char)
    ensures Join(Split(s, sep), sep) == s
    decreases |s|
  {
    if s != [] {
      var rest := Split(s[1..], sep);
      JoinSplit(s[1..], sep);
      if s[0] == sep {
        assert Split(s, sep)[1..] == rest;
      } else {
        var parts := Split(s, sep);
        if |rest| == 1 {
          assert parts == [[s[0]] + rest[0]];
        } else {
          assert parts[1..] == rest[1..];
          assert Join(rest, sep) == rest[0] + [sep] + Join(rest[1..], sep);
        }
      }
    }
  }

  /** Splitting a join of separator-free fields gives the fields back. */
  lemma {:induction false} SplitJoin(parts: seq<string>, sep: char)
    requires |parts| >= 1
    requires forall i :: 0 <= i < |parts| ==> sep !in parts[i]
    ensures Split(Join(parts, sep), sep) == parts
    decreases |parts|, |parts[0]|
  {
    var p := parts[0];
    if p == [] {
      if |parts| > 1 {
        SplitJoin(parts[1..], sep);
        assert Join(parts, sep) == [sep] + Join(parts[1..], sep);
        assert ([sep] + Join(parts[1..], sep))[1..] == Join(parts[1..], sep);
        assert parts == [""] + parts[1..];
      }
    } else {
      var parts' := [p[1..]] + parts[1..];
      assert p[1..] == parts'[0];
      forall i | 0 <= i < |parts'| ensures sep !in parts'[i] {
        if i > 0 { assert parts'[i] == parts[i]; }
      }
      SplitJoin(parts', sep);
      assert parts'[1..] == parts[1..];
      if |parts| == 1 {
        assert Join(parts, sep) == p;
        assert Join(parts', sep) == p[1..];
      } else {
        assert Join(parts, sep) == [p[0]] + Join(parts', sep);
      }
      var j := Join(parts, sep);
      assert j[1..] == Join(parts', sep);
      assert j[0] == p[0] != sep;
      assert [p[0]] + p[1..] == p;
    }
  }

  /** Python's `s.lstrip()`: drops the leading whitespace. */
  function LStrip(s: string): (r: string)
    ensures |r| <= |s| && r == s[|s| - |r|..]
    ensures forall i :: 0 <= i < |s| - |r| ==> IsPyWhitespace(s[i])
    ensures r == [] || !IsPyWhitespace(r[0])
    decreases |s|
  {
    if s != [] && IsPyWhitespace(s[0]) then LStrip(s[1..]) else s
  }

  /** Python's `s.rstrip()`: drops the trailing whitespace. */
  function RStrip(s: string): (r: string)
    ensures |r| <= |s| && r == s[..|r|]
    ensures forall i :: |r| <= i < |s| ==> IsPyWhitespace(s[i])
    ensures r == [] || !IsPyWhitespace(r[|r| - 1])
    decreases |s|
  {
    if s != [] && IsPyWhitespace(s[|s| - 1]) then RStrip(s[..|s| - 1]) else s
  }

  /** Neither end of `r` is whitespace. */
  predicate NoOuterWhitespace(r: string) {
    r == [] || (!IsPyWhitespace(r[0]) && !IsPyWhitespace(r[|r| - 1]))
  }

  /** `r` is a slice `s[k..m]` with only whitespace before `k` and after `m`. */
  predicate CutBetweenWhitespace(s: string, r: string) {
    exists k, m :: 0 <= k <= m <= |s| && r == s[k..m]
                   && (forall i :: 0 <= i < k ==> IsPyWhitespace(s[i]))
                   && (forall i :: m <= i < |s| ==> IsPyWhitespace(s[i]))
  }

  /** Python's `s.strip()`: the text between the leading and the trailing
      whitespace. */
  function Strip(s: string): (r: string)
    ensures CutBetweenWhitespace(s, r)
    ensures forall c :: c in r ==> c in s
    ensures NoOuterWhitespace(r)
  {
    StripSpec(s);
    RStrip(LStrip(s))
  }

  lemma StripSpec(s: string)
    ensures CutBetweenWhitespace(s, RStrip(LStrip(s)))
    ensures forall c :: c in RStrip(LStrip(s)) ==> c in s
    ensures NoOuterWhitespace(RStrip(LStrip(s)))
  {
    StripBounds(s, LStrip(s), RStrip(LStrip(s)));
  }

  /** Where the two strips cut the text: `l` is what the left strip keeps
      of `s`, and `r` what the right strip keeps of `l`. */
  lemma StripBounds(s: string, l: string, r: string)
    requires |l| <= |s| && l == s[|s| - |l|..] && forall i :: 0 <= i < |s| - |l| ==> IsPyWhitespace(s[i])
    requires |r| <= |l| && r == l[..|r|] && forall i :: |r| <= i < |l| ==> IsPyWhitespace(l[i])
    requires l == [] || !IsPyWhitespace(l[0])
    requires r == [] || !IsPyWhitespace(r[|r| - 1])
    ensures CutBetweenWhitespace(s, r)
    ensures forall c :: c in r ==> c in s
    ensures NoOuterWhitespace(r)
  {
    var k := |s| - |l|;
    assert r == s[k..k + |r|];
    assert r != [] ==> r[0] == l[0];
    forall i | k + |r| <= i < |s| ensures IsPyWhitespace(s[i]) {
      assert s[i] == l[i - k];
    }
    forall c | c in r ensures c in s {
      var i :| 0 <= i < |r| && r[i] == c;
      assert s[k + i] == c;
    }
  }

  lemma AppendAssoc<T>(a: seq<T>, b: seq<T>, c: seq<T>)
    ensures a + (b + c) == a + b + c
  {
  }
}
