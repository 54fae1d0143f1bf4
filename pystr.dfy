/**
 * The few Python `str` and `int` built-ins the modelled scripts rely on:
 * `str.isspace`, `str.strip()`, `str.split(sep)`, `str.split()` and `int(s)`
 * in base 10. Strings are sequences of Unicode scalar values, as in Python 3.
 *
 * The functions carry almost no postconditions; what they compute is stated
 * by the lemmas after them, which callers invoke where they need it.
 */
module PyStr {
  import opened Wrappers

  /** The characters for which Python's `str.isspace()` is true. */
  predicate IsSpace(c: char) {
    c == ' ' || ('\t' <= c <= '\r') || ('\U{1C}' <= c <= '\U{1F}') ||
    c == '\U{85}' || c == '\U{A0}' || c == '\U{1680}' ||
    ('\U{2000}' <= c <= '\U{200A}') || c == '\U{2028}' || c == '\U{2029}' ||
    c == '\U{202F}' || c == '\U{205F}' || c == '\U{3000}'
  }

  predicate IsDigit(c: char) {
    '0' <= c <= '9'
  }

  /** `s.lstrip()`: `s` without its leading whitespace. */
  function StripLeft(s: string): string {
    if s != [] && IsSpace(s[0]) then StripLeft(s[1..]) else s
  }

  /** `s.rstrip()`: `s` without its trailing whitespace. */
  function StripRight(s: string): string {
    if s != [] && IsSpace(s[|s| - 1]) then StripRight(s[..|s| - 1]) else s
  }

  /** `s.strip()`: `s` without its leading and trailing whitespace. */
  function Strip(s: string): string {
    StripRight(StripLeft(s))
  }

  /** `lstrip` drops exactly the leading run of whitespace. */
  lemma {:induction false} StripLeftSpec(s: string)
    ensures var r := StripLeft(s);
      |r| <= |s| && r == s[|s| - |r|..] &&
      (forall k :: 0 <= k < |s| - |r| ==> IsSpace(s[k])) &&
      (r != [] ==> !IsSpace(r[0])) &&
      ((s == [] || !IsSpace(s[0])) ==> r == s)
  {
    if s != [] && IsSpace(s[0]) {
      StripLeftSpec(s[1..]);
    }
  }

  /** `rstrip` drops exactly the trailing run of whitespace. */
  lemma {:induction false} StripRightSpec(s: string)
    ensures var r := StripRight(s);
      |r| <= |s| && r == s[..|r|] &&
      (forall k :: |r| <= k < |s| ==> IsSpace(s[k])) &&
      (r != [] ==> !IsSpace(r[|r| - 1])) &&
      ((s == [] || !IsSpace(s[|s| - 1])) ==> r == s)
  {
    if s != [] && IsSpace(s[|s| - 1]) {
      StripRightSpec(s[..|s| - 1]);
    }
  }

  /**
   * `strip` leaves a string that neither starts nor ends with whitespace,
   * leaves such a string unchanged, and yields the empty string exactly
   * for an all-whitespace line.
   */
  lemma StripSpec(s: string)
    ensures var r := Strip(s);
      (r != [] ==> !IsSpace(r[0]) && !IsSpace(r[|r| - 1])) &&
      ((s == [] || (!IsSpace(s[0]) && !IsSpace(s[|s| - 1]))) ==> r == s) &&
      (r == [] <==> forall k :: 0 <= k < |s| ==> IsSpace(s[k]))
  {
    var l := StripLeft(s);
    StripLeftSpec(s);
    StripRightSpec(l);
    var i := |s| - |l|;
    if Strip(s) == [] {
      assert l == [];
    } else {
      assert !IsSpace(l[0]) && l[0] == s[i];
    }
  }

  /** A string that neither starts nor ends with whitespace is its own `strip()`. */
  lemma StripUnchanged(s: string)
    requires s != [] && !IsSpace(s[0]) && !IsSpace(s[|s| - 1])
    ensures Strip(s) == s
  {
    StripSpec(s);
  }

  /** `s.split(sep)` for a one-character separator: every field, empty ones included. */
  function SplitOn(s: string, sep: char): (r: seq<string>)
    ensures |r| >= 1
  {
    if s == [] then [[]]
    else
      var rest := SplitOn(s[1..], sep);
      if s[0] == sep then [[]] + rest
      else [[s[0]] + rest[0]] + rest[1..]
  }

  /** `sep.join(fields)`, the inverse of `SplitOn`. */
  function Join(fields: seq<string>, sep: char): string
    requires |fields| >= 1
  {
    if |fields| == 1 then fields[0] else fields[0] + [sep] + Join(fields[1..], sep)
  }

  /** No field of a split contains the separator. */
  lemma {:induction false} SplitOnFields(s: string, sep: char)
    ensures forall k :: 0 <= k < |SplitOn(s, sep)| ==> sep !in SplitOn(s, sep)[k]
  {
    if s != [] {
      SplitOnFields(s[1..], sep);
    }
  }

  /** Joining the fields of a split gives back the string. */
  lemma {:induction false} JoinSplit(s: string, sep: char)
    ensures Join(SplitOn(s, sep), sep) == s
  {
    if s != [] {
      JoinSplit(s[1..], sep);
      var rest := SplitOn(s[1..], sep);
      if s[0] != sep && |rest| > 1 {
        assert ([[s[0]] + rest[0]] + rest[1..])[1..] == rest[1..];
      }
    }
  }

  lemma {:induction false} SplitPrefix(a: string, t: string, sep: char)
    requires sep !in a
    ensures SplitOn(a + t, sep) == [a + SplitOn(t, sep)[0]] + SplitOn(t, sep)[1..]
  {
    var x := SplitOn(t, sep);
    if a == [] {
      assert a + t == t && a + x[0] == x[0];
      assert [x[0]] + x[1..] == x;
    } else {
      assert (a + t)[0] == a[0] && (a + t)[1..] == a[1..] + t;
      SplitPrefix(a[1..], t, sep);
      var rest := SplitOn(a[1..] + t, sep);
      assert rest[0] == a[1..] + x[0] && rest[1..] == x[1..];
      assert [a[0]] + (a[1..] + x[0]) == a + x[0];
    }
  }

  /** Splitting a join of separator-free fields gives back the fields. */
  lemma {:induction false} SplitJoin(fields: seq<string>, sep: char)
    requires |fields| >= 1
    requires forall k :: 0 <= k < |fields| ==> sep !in fields[k]
    ensures SplitOn(Join(fields, sep), sep) == fields
  {
    var f := fields[0];
    if |fields| == 1 {
      SplitPrefix(f, [], sep);
      assert f + [] == f;
    } else {
      var tail := [sep] + Join(fields[1..], sep);
      assert Join(fields, sep) == f + tail;
      SplitJoin(fields[1..], sep);
      SplitPrefix(f, tail, sep);
      assert tail[1..] == Join(fields[1..], sep);
      assert SplitOn(tail, sep) == [[]] + fields[1..];
      assert f + [] == f;
    }
  }

  /** Length of the leading run of non-whitespace characters. */
  function WordEnd(s: string): (n: nat)
    ensures n <= |s|
    ensures s != [] && !IsSpace(s[0]) ==> n >= 1
  {
    if s == [] || IsSpace(s[0]) then 0 else 1 + WordEnd(s[1..])
  }

  /** `s.split()`: the maximal runs of non-whitespace characters, in order. */
  function SplitWs(s: string): seq<string>
    decreases |s|
  {
    if s == [] then []
    else if IsSpace(s[0]) then SplitWs(s[1..])
    else
      var n := WordEnd(s);
      [s[..n]] + SplitWs(s[n..])
  }

  /** A non-empty string without whitespace. */
  predicate IsWord(w: string) {
    w != [] && forall c :: c in w ==> !IsSpace(c)
  }

  lemma {:induction false} WordEndSpec(s: string)
    ensures var n := WordEnd(s);
      (forall k :: 0 <= k < n ==> !IsSpace(s[k])) && (n < |s| ==> IsSpace(s[n]))
  {
    if s != [] && !IsSpace(s[0]) {
      WordEndSpec(s[1..]);
    }
  }

  /** Whitespace splitting drops empty fields: every field is a word. */
  lemma {:induction false} SplitWsWords(s: string)
    ensures forall k :: 0 <= k < |SplitWs(s)| ==> IsWord(SplitWs(s)[k])
    decreases |s|
  {
    if s != [] {
      if IsSpace(s[0]) {
        SplitWsWords(s[1..]);
      } else {
        var n := WordEnd(s);
        WordEndSpec(s);
        SplitWsWords(s[n..]);
        assert IsWord(s[..n]);
      }
    }
  }

  lemma {:induction false} WordEndOfWord(w: string, t: string)
    requires IsWord(w)
    requires t == [] || IsSpace(t[0])
    ensures WordEnd(w + t) == |w|
  {
    if |w| > 1 {
      assert (w + t)[1..] == w[1..] + t;
      WordEndOfWord(w[1..], t);
    } else {
      assert (w + t)[1..] == t;
    }
  }

  /** Splitting words joined by single spaces gives back the words. */
  lemma {:induction false} SplitWsJoin(words: seq<string>)
    requires |words| >= 1
    requires forall k :: 0 <= k < |words| ==> IsWord(words[k])
    ensures SplitWs(Join(words, ' ')) == words
  {
    var w := words[0];
    var t := if |words| == 1 then [] else [' '] + Join(words[1..], ' ');
    assert Join(words, ' ') == w + t;
    WordEndOfWord(w, t);
    assert (w + t)[..|w|] == w && (w + t)[|w|..] == t;
    if |words| > 1 {
      SplitWsJoin(words[1..]);
      assert t[1..] == Join(words[1..], ' ');
    }
  }

  /** Python's grammar for a base-10 integer body: digits, single `_` between digits. */
  predicate ValidDigits(d: string) {
    d != [] && IsDigit(d[0]) && IsDigit(d[|d| - 1]) && DigitsOrSeparators(d) &&
    forall k :: 0 <= k < |d| && d[k] == '_' ==> k + 1 < |d| && IsDigit(d[k + 1])
  }

  predicate DigitsOrSeparators(d: string) {
    forall k :: 0 <= k < |d| ==> IsDigit(d[k]) || d[k] == '_'
  }

  /** The value of a digit string, `_` separators ignored. */
  function DigitsValue(d: string): nat
    requires DigitsOrSeparators(d)
  {
    if d == [] then 0
    else if d[|d| - 1] == '_' then DigitsValue(d[..|d| - 1])
    else
      assert IsDigit(d[|d| - 1]);
      DigitsValue(d[..|d| - 1]) * 10 + (d[|d| - 1] as int - '0' as int)
  }

  /**
   * The whitespace `int()` skips around its digits. Characters below U+007F
   * are read as they are, and of those only space and `\t \n \v \f \r` are
   * skipped, so U+001C to U+001F are not. Every `str.isspace` character above
   * U+007F is first turned into a space, so those are skipped too.
   */
  predicate IsIntSpace(c: char) {
    c == ' ' || ('\t' <= c <= '\r') || ('\U{7F}' < c && IsSpace(c))
  }

  /** `s` without the leading whitespace `int()` skips. */
  function IntStripLeft(s: string): string {
    if s != [] && IsIntSpace(s[0]) then IntStripLeft(s[1..]) else s
  }

  /** `s` without the trailing whitespace `int()` skips. */
  function IntStripRight(s: string): string {
    if s != [] && IsIntSpace(s[|s| - 1]) then IntStripRight(s[..|s| - 1]) else s
  }

  /** The text `int(s)` reads its number from. */
  function IntBody(s: string): string {
    IntStripRight(IntStripLeft(s))
  }

  /** `int(s)` in base 10: None where Python raises `ValueError`. */
  function ParseInt(s: string): Option<int> {
    var t := IntBody(s);
    if t != [] && (t[0] == '+' || t[0] == '-') then
      if ValidDigits(t[1..]) then
        var v: int := DigitsValue(t[1..]);
        Some(if t[0] == '-' then -v else v)
      else None
    else if ValidDigits(t) then Some(DigitsValue(t))
    else None
  }

  /** A plain run of decimal digits parses to its decimal value. */
  lemma ParseDigits(s: string)
    requires |s| > 0 && forall k :: 0 <= k < |s| ==> IsDigit(s[k])
    ensures ParseInt(s) == Some(DigitsValue(s))
  {
    assert !IsIntSpace(s[0]) && !IsIntSpace(s[|s| - 1]);
    assert IntBody(s) == s;
    assert s[0] != '+' && s[0] != '-';
    assert DigitsOrSeparators(s);
    assert ValidDigits(s);
  }

  /** A string holding no digit at all (the empty string included) is not an integer. */
  lemma NoDigitsNoInt(s: string)
    requires forall k :: 0 <= k < |s| ==> !IsDigit(s[k])
    ensures ParseInt(s) == None
  {
    var t := IntBody(s);
    IntBodyWithin(s);
    assert forall k :: 0 <= k < |t| ==> t[k] in t;
    assert !ValidDigits(t);
    assert t != [] ==> !ValidDigits(t[1..]);
  }

  /**
   * `int()` skips ASCII whitespace and the non-ASCII spaces around the digits,
   * but never the `isspace` characters U+001C to U+001F: `int("\x1c1")` and
   * `int("\x1c1\xa0")` fail while `int(" 1\n")` and `int("\xa01\x85")` are 1.
   */
  lemma IntWhitespace()
    ensures ParseInt(" 1\n") == Some(1)
    ensures ParseInt("\U{A0}1\U{85}") == Some(1)
    ensures ParseInt("\U{1C}1") == None
    ensures ParseInt("\U{1C}1\U{A0}") == None
  {
    AsciiSpaceSkipped();
    NonAsciiSpaceSkipped();
    ParseDigits("1");
    SeparatorKept();
    SeparatorKeptBesideNonAscii();
  }

  lemma AsciiSpaceSkipped()
    ensures IntBody(" 1\n") == "1"
  {
    assert IntStripLeft(" 1\n") == "1\n";
    assert IntStripRight("1\n") == "1";
  }

  lemma NonAsciiSpaceSkipped()
    ensures IntBody("\U{A0}1\U{85}") == "1"
  {
    assert IntStripLeft("\U{A0}1\U{85}") == "1\U{85}";
    assert IntStripRight("1\U{85}") == "1";
  }

  lemma SeparatorKept()
    ensures ParseInt("\U{1C}1") == None
  {
    assert IntBody("\U{1C}1") == "\U{1C}1";
    assert !ValidDigits("\U{1C}1");
  }

  lemma SeparatorKeptBesideNonAscii()
    ensures ParseInt("\U{1C}1\U{A0}") == None
  {
    assert IntStripLeft("\U{1C}1\U{A0}") == "\U{1C}1\U{A0}";
    assert IntStripRight("\U{1C}1\U{A0}") == "\U{1C}1";
    assert !ValidDigits("\U{1C}1");
  }

  /** `int()` reads the digits between any runs of the whitespace it skips. */
  lemma IntSkipsSpaces(w1: string, d: string, w2: string)
    requires ValidDigits(d)
    requires forall k :: 0 <= k < |w1| ==> IsIntSpace(w1[k])
    requires forall k :: 0 <= k < |w2| ==> IsIntSpace(w2[k])
    ensures ParseInt(w1 + d + w2) == Some(DigitsValue(d))
  {
    assert w1 + d + w2 == w1 + (d + w2);
    IntStripLeftSpaces(w1, d + w2);
    IntStripRightSpaces(d, w2);
    assert IntBody(w1 + d + w2) == d;
    assert d[0] != '+' && d[0] != '-';
  }

  lemma {:induction false} IntStripLeftSpaces(w: string, x: string)
    requires forall k :: 0 <= k < |w| ==> IsIntSpace(w[k])
    requires x != [] && !IsIntSpace(x[0])
    ensures IntStripLeft(w + x) == x
    decreases |w|
  {
    if w == [] {
      assert w + x == x;
    } else {
      assert (w + x)[1..] == w[1..] + x;
      IntStripLeftSpaces(w[1..], x);
    }
  }

  lemma {:induction false} IntStripRightSpaces(x: string, w: string)
    requires forall k :: 0 <= k < |w| ==> IsIntSpace(w[k])
    requires x != [] && !IsIntSpace(x[|x| - 1])
    ensures IntStripRight(x + w) == x
    decreases |w|
  {
    if w == [] {
      assert x + w == x;
    } else {
      var w' := w[..|w| - 1];
      assert (x + w)[..|x + w| - 1] == x + w';
      IntStripRightSpaces(x, w');
    }
  }

  /** Wherever an information separator U+001C to U+001F stands in `s`, `int(s)` fails. */
  lemma SeparatorNeverSkipped(s: string, k: nat)
    requires k < |s| && '\U{1C}' <= s[k] <= '\U{1F}'
    ensures ParseInt(s) == None
  {
    var c := s[k];
    IntStripLeftKeeps(s, c);
    IntStripRightKeeps(IntStripLeft(s), c);
    var t := IntBody(s);
    var i :| 0 <= i < |t| && t[i] == c;
    assert !DigitsOrSeparators(t);
    if t[0] == '+' || t[0] == '-' {
      assert t[1..][i - 1] == c;
      assert !DigitsOrSeparators(t[1..]);
    }
  }

  lemma {:induction false} IntStripLeftKeeps(s: string, c: char)
    requires c in s && !IsIntSpace(c)
    ensures c in IntStripLeft(s)
  {
    if s != [] && IsIntSpace(s[0]) {
      var i :| 0 <= i < |s| && s[i] == c;
      assert s[1..][i - 1] == c;
      IntStripLeftKeeps(s[1..], c);
    }
  }

  lemma {:induction false} IntStripRightKeeps(s: string, c: char)
    requires c in s && !IsIntSpace(c)
    ensures c in IntStripRight(s)
  {
    if s != [] && IsIntSpace(s[|s| - 1]) {
      var i :| 0 <= i < |s| && s[i] == c;
      assert s[..|s| - 1][i] == c;
      IntStripRightKeeps(s[..|s| - 1], c);
    }
  }

  /** The text `int()` reads only holds characters of its argument. */
  lemma IntBodyWithin(s: string)
    ensures forall c :: c in IntBody(s) ==> c in s
  {
    IntStripLeftWithin(s);
    IntStripRightWithin(IntStripLeft(s));
  }

  lemma {:induction false} IntStripLeftWithin(s: string)
    ensures forall c :: c in IntStripLeft(s) ==> c in s
  {
    if s != [] && IsIntSpace(s[0]) {
      IntStripLeftWithin(s[1..]);
    }
  }

  lemma {:induction false} IntStripRightWithin(s: string)
    ensures forall c :: c in IntStripRight(s) ==> c in s
  {
    if s != [] && IsIntSpace(s[|s| - 1]) {
      IntStripRightWithin(s[..|s| - 1]);
    }
  }

}
