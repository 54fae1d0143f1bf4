/**
 * Locating the header line of a transaction log (src/task_1_statistics/main.py).
 *
 * The log starts with free text: blank lines and `[...]` description lines
 * are skipped, and the header is the first remaining line whose columns
 * include TIME, EVENT and AVGTSMR. Columns are tab-separated, or
 * whitespace-separated when a tab split yields fewer than three of them.
 */
module HeaderSpec {
  import opened PyStr

  /** The columns a header line must contain; their order and any extra columns do not matter. */
  const COLS: set<string> := {"TIME", "EVENT", "AVGTSMR"}

  /** Message of the `ValueError` raised when no line qualifies (spelling as in the source). */
  const NOT_FOUND: string := "[WARIN] Header line not found: TIME/EVENT/AVGTSMR"

  /** Message of the `AttributeError` raised by the call `COLS.issubclass(...)`. */
  const NO_ISSUBCLASS: string := "'set' object has no attribute 'issubclass'"

  datatype Error = ValueError(message: string) | AttributeError(message: string)

  /** A stripped line that the scan passes over: blank, or starting with `[`. */
  predicate Skipped(s: string) {
    s == [] || s[0] == '['
  }

  /** The columns of a stripped line: its tab fields, or its whitespace fields when there are fewer than three tab fields. */
  function Fields(s: string): seq<string> {
    var cols := SplitOn(s, '\t');
    if |cols| < 3 then SplitWs(s) else cols
  }

  /** Every name in COLS is one of the columns `cols` (Python's `COLS <= set(cols)`). */
  predicate Covers(cols: seq<string>) {
    forall name :: name in COLS ==> name in cols
  }

  /** The intended test: the line is not skipped and its columns cover COLS. */
  predicate IsHeader(line: string) {
    var s := Strip(line);
    !Skipped(s) && Covers(Fields(s))
  }

  /** A line of whitespace only strips to the empty string, so it is skipped and is never the header. */
  lemma BlankLineIsNotHeader(line: string)
    requires forall k :: 0 <= k < |line| ==> IsSpace(line[k])
    ensures Strip(line) == [] && Skipped(Strip(line))
    ensures !IsHeader(line)
  {
    StripSpec(line);
  }

  lemma {:induction false} JoinEnds(fields: seq<string>, sep: char)
    requires |fields| >= 1
    requires forall k :: 0 <= k < |fields| ==> fields[k] != []
    ensures var s := Join(fields, sep);
      s != [] && s[0] == fields[0][0] && s[|s| - 1] == fields[|fields| - 1][|fields[|fields| - 1]| - 1]
  {
    if |fields| > 1 {
      JoinEnds(fields[1..], sep);
    }
  }

  lemma {:induction false} JoinChars(fields: seq<string>, sep: char, c: char)
    requires |fields| >= 1
    requires c in Join(fields, sep)
    ensures c == sep || exists k :: 0 <= k < |fields| && c in fields[k]
  {
    if |fields| > 1 && c !in fields[0] && c != sep {
      JoinChars(fields[1..], sep, c);
      var k :| 0 <= k < |fields[1..]| && c in fields[1..][k];
      assert c in fields[k + 1];
    }
  }

  /**
   * A tab-separated line of at least three columns is a header exactly when
   * its columns include COLS, in any order and with any extra columns.
   */
  lemma TabSeparatedHeader(cols: seq<string>)
    requires |cols| >= 3
    requires forall k :: 0 <= k < |cols| ==> cols[k] != [] && '\t' !in cols[k]
    requires !IsSpace(cols[0][0]) && cols[0][0] != '['
    requires !IsSpace(cols[|cols| - 1][|cols[|cols| - 1]| - 1])
    ensures IsHeader(Join(cols, '\t')) <==> Covers(cols)
  {
    var line := Join(cols, '\t');
    JoinEnds(cols, '\t');
    StripSpec(line);
    SplitJoin(cols, '\t');
    assert Fields(line) == cols;
  }

  lemma WordsLineStripped(words: seq<string>)
    requires |words| >= 1
    requires forall k :: 0 <= k < |words| ==> IsWord(words[k])
    ensures Strip(Join(words, ' ')) == Join(words, ' ')
  {
    JoinEnds(words, ' ');
    var first, last := words[0], words[|words| - 1];
    assert IsWord(first) && IsWord(last);
    assert first[0] in first && last[|last| - 1] in last;
    var line := Join(words, ' ');
    assert !IsSpace(line[0]) && !IsSpace(line[|line| - 1]);
    StripUnchanged(line);
  }

  lemma NoTabBetweenWords(words: seq<string>)
    requires |words| >= 1
    requires forall k :: 0 <= k < |words| ==> IsWord(words[k])
    ensures '\t' !in Join(words, ' ')
  {
    if '\t' in Join(words, ' ') {
      JoinChars(words, ' ', '\t');
    }
  }

  /** A line of single-space-separated words has one tab field, so its columns are its words. */
  lemma SpaceLineFields(words: seq<string>)
    requires |words| >= 1
    requires forall k :: 0 <= k < |words| ==> IsWord(words[k])
    ensures Fields(Join(words, ' ')) == words
  {
    var line := Join(words, ' ');
    NoTabBetweenWords(words);
    assert Join([line], '\t') == line;
    SplitJoin([line], '\t');
    SplitWsJoin(words);
  }

  /**
   * A line of words separated by single spaces has no tab, so it is split on
   * whitespace, and it is a header exactly when its words include COLS.
   */
  lemma SpaceSeparatedHeader(words: seq<string>)
    requires |words| >= 1
    requires forall k :: 0 <= k < |words| ==> IsWord(words[k])
    requires words[0] != [] && words[0][0] != '['
    ensures IsHeader(Join(words, ' ')) <==> Covers(words)
  {
    var line := Join(words, ' ');
    WordsLineStripped(words);
    JoinEnds(words, ' ');
    SpaceLineFields(words);
  }

  /**
   * The line `TIME<TAB>EVENT<TAB>AVGTSMR` is a header and is not skipped:
   * the intended test accepts it at index 0, while the code as written
   * raises `AttributeError` on it.
   */
  lemma IssubclassRejectsHeader()
    ensures IsHeader("TIME\tEVENT\tAVGTSMR")
    ensures !Skipped(Strip("TIME\tEVENT\tAVGTSMR"))
  {
    var cols := ["TIME", "EVENT", "AVGTSMR"];
    assert Join(cols, '\t') == "TIME\tEVENT\tAVGTSMR";
    TabSeparatedHeader(cols);
    assert Covers(cols) by {
      assert cols[0] in cols && cols[1] in cols && cols[2] in cols;
    }
  }
}

/** The scan itself, as the source writes it and as it was evidently meant. */
module HeaderLine {
  import opened Wrappers
  import opened PyStr
  import opened HeaderSpec

  /**
   * `find_header_line_idx` with the evidently intended subset test
   * `COLS <= set(cols)`: the index of the first header line, or
   * `ValueError` when there is none.
   */
  method FindHeaderLineIdx(lines: seq<string>) returns (r: Result<nat, Error>)
    ensures r.Ok? ==> r.value < |lines| && IsHeader(lines[r.value])
    ensures r.Ok? ==> !Skipped(Strip(lines[r.value]))
    ensures r.Ok? ==> forall j :: 0 <= j < r.value ==> !IsHeader(lines[j])
    ensures r.Err? <==> forall j :: 0 <= j < |lines| ==> !IsHeader(lines[j])
    ensures r.Err? ==> r.error == ValueError(NOT_FOUND)
  {
    var i := 0;
    while i < |lines|
      invariant 0 <= i <= |lines|
      invariant forall j :: 0 <= j < i ==> !IsHeader(lines[j])
    {
      var s := Strip(lines[i]);
      if s == [] || s[0] == '[' {
        assert !IsHeader(lines[i]);
        i := i + 1;
        continue;
      }
      var cols := SplitOn(s, '\t');
      if |cols| < 3 {
        cols := SplitWs(s);
      }
      assert cols == Fields(s);
      if Covers(cols) {
        assert IsHeader(lines[i]);
        return Ok(i);
      }
      assert !IsHeader(lines[i]);
      i := i + 1;
    }
    return Err(ValueError(NOT_FOUND));
  }

  /**
   * `find_header_line_idx` as written: `set` has no method `issubclass`,
   * so the first line that is not skipped raises `AttributeError`; only
   * input made entirely of skipped lines reaches the final `ValueError`.
   */
  method FindHeaderLineIdxAsWritten(lines: seq<string>) returns (r: Result<nat, Error>)
    ensures r.Err?
    ensures r.error.AttributeError? <==> exists j :: 0 <= j < |lines| && !Skipped(Strip(lines[j]))
    ensures r.error == ValueError(NOT_FOUND) || r.error == AttributeError(NO_ISSUBCLASS)
  {
    var i := 0;
    while i < |lines|
      invariant 0 <= i <= |lines|
      invariant forall j :: 0 <= j < i ==> Skipped(Strip(lines[j]))
    {
      var s := Strip(lines[i]);
      if s == [] || s[0] == '[' {
        i := i + 1;
        continue;
      }
      var cols := SplitOn(s, '\t');
      if |cols| < 3 {
        cols := SplitWs(s);
      }
      return Err(AttributeError(NO_ISSUBCLASS));
    }
    return Err(ValueError(NOT_FOUND));
  }
}
