/**
 * The output extractor: it scans a debugger transcript line by line and,
 * for each line mentioning `$1`, prints the text between the first and the
 * last double quote with trailing `\` and `n` characters stripped. A
 * matching line with fewer than two quotes makes the regular-expression
 * search come back empty and the script stops with an exception. The strip
 * as written (`Extract`), which the loop below uses, also eats a word's
 * final `n`; `ExtractIntended` strips only whole `\n` escapes.
 */
module ExtractOutput {
  import opened Wrappers
  import TraceChecker

  /** The line mentions the first value history entry `$1`. */
  predicate HasMarker(line: seq<char>)
  {
    exists i :: 0 <= i < |line| - 1 && line[i] == '$' && line[i + 1] == '1'
  }

  /** The position of the first double quote, or `|s|` when there is none. */
  function FirstQuote(s: seq<char>): (i: nat)
    ensures i <= |s|
    ensures i < |s| ==> s[i] == '"'
    ensures forall j :: 0 <= j < i ==> s[j] != '"'
  {
    if |s| == 0 then 0 else if s[0] == '"' then 0 else 1 + FirstQuote(s[1..])
  }

  /** The number of characters after the last double quote, or `|s|` when there is none. */
  function AfterLastQuote(s: seq<char>): (n: nat)
    ensures n <= |s|
    ensures n < |s| ==> s[|s| - 1 - n] == '"'
    ensures forall j :: |s| - n <= j < |s| ==> s[j] != '"'
  {
    if |s| == 0 then 0 else if s[|s| - 1] == '"' then 0 else 1 + AfterLastQuote(s[..|s| - 1])
  }

  /**
   * `re.search('".*"', line)`: the leftmost quote followed, greedily, by the
   * last quote of the line (the line holds no newline, so `.` matches every
   * character in between). `None` when there are fewer than two quotes.
   */
  function QuotedSpan(line: seq<char>): (r: Option<(nat, nat)>)
    ensures r.Some? ==> var (f, l) := r.value;
      f < l < |line| && line[f] == '"' && line[l] == '"'
      && (forall j :: 0 <= j < f ==> line[j] != '"')
      && (forall j :: l < j < |line| ==> line[j] != '"')
    ensures r.None? <==> forall j, k :: 0 <= j < k < |line| ==> !(line[j] == '"' && line[k] == '"')
  {
    var f := FirstQuote(line);
    var l := |line| - 1 - AfterLastQuote(line);
    if f < l then Some((f, l)) else None
  }

  /** `s.rstrip("\\n")` as written: every trailing `\` or `n` character is removed. */
  function StripSet(s: seq<char>): (r: seq<char>)
  {
    if |s| > 0 && (s[|s| - 1] == '\\' || s[|s| - 1] == 'n') then StripSet(s[..|s| - 1]) else s
  }

  /** The part `StripSet` keeps is a prefix, what it removes is `\` and `n` only, and what it keeps ends in neither. */
  lemma {:induction false} StripSetSpec(s: seq<char>)
    ensures var r := StripSet(s);
      |r| <= |s| && r == s[..|r|]
      && (forall j :: |r| <= j < |s| ==> s[j] == '\\' || s[j] == 'n')
      && (|r| > 0 ==> r[|r| - 1] != '\\' && r[|r| - 1] != 'n')
  {
    if |s| > 0 && (s[|s| - 1] == '\\' || s[|s| - 1] == 'n') {
      StripSetSpec(s[..|s| - 1]);
    }
  }

  /** The printed text for one line as the script computes it, or `None` when the search finds nothing. */
  function Extract(line: seq<char>): (r: Option<seq<char>>)
    ensures r.Some? <==> QuotedSpan(line).Some?
  {
    match QuotedSpan(line)
    case None => None
    case Some((f, l)) => Some(StripSet(line[f + 1..l]))
  }

  /** A quoted word ending in `n` loses its last letter: `$1 = "green"` prints `gree`. */
  lemma {:induction false} WordEndingInNTruncated()
    ensures Extract("$1 = \"green\"") == Some("gree")
  {
    var line := "$1 = \"green\"";
    assert FirstQuote(line) == 5 by {
      assert line[5] == '"';
      assert forall j :: 0 <= j < 5 ==> line[j] != '"';
    }
    assert AfterLastQuote(line) == 0;
    assert line[6..11] == "green";
    assert StripSet("green") == StripSet("gree");
    assert StripSet("gree") == "gree";
  }

  /** The two characters `\n`, the escape debuggers print for a newline. */
  const NewlineEscape: seq<char> := ['\\', 'n']

  /** Stripping as intended: only whole trailing `\n` escapes are removed. */
  function StripEscapes(s: seq<char>): (r: seq<char>)
    decreases |s|
  {
    if |s| >= 2 && s[|s| - 2..] == NewlineEscape then StripEscapes(s[..|s| - 2]) else s
  }

  /** Some number of `\n` escapes in a row. */
  function Escapes(n: nat): (e: seq<char>)
    ensures |e| == 2 * n
  {
    if n == 0 then [] else Escapes(n - 1) + NewlineEscape
  }

  /**
   * `StripEscapes` removes a run of whole escapes and nothing else: the text
   * is what it keeps followed by that run, and what it keeps does not end in
   * an escape.
   */
  lemma {:induction false} StripEscapesSpec(s: seq<char>)
    ensures var r := StripEscapes(s);
      (exists n: nat :: s == r + Escapes(n))
      && !(|r| >= 2 && r[|r| - 2..] == NewlineEscape)
    decreases |s|
  {
    if |s| >= 2 && s[|s| - 2..] == NewlineEscape {
      var t := s[..|s| - 2];
      StripEscapesSpec(t);
      var r := StripEscapes(t);
      var n: nat :| t == r + Escapes(n);
      assert s == t + NewlineEscape;
      assert s == r + Escapes(n + 1);
    } else {
      assert s == s + Escapes(0);
    }
  }

  /** Text that does not end in an escape is printed whole. */
  lemma {:induction false} StripEscapesKeeps(s: seq<char>)
    requires !(|s| >= 2 && s[|s| - 2..] == NewlineEscape)
    ensures StripEscapes(s) == s
  {
  }

  /** The printed text for one line with the intended stripping. */
  function ExtractIntended(line: seq<char>): (r: Option<seq<char>>)
    ensures r.Some? <==> QuotedSpan(line).Some?
    ensures r.Some? ==> var (f, l) := QuotedSpan(line).value;
      exists n: nat :: line[f + 1..l] == r.value + Escapes(n)
  {
    match QuotedSpan(line)
    case None => None
    case Some((f, l)) =>
      StripEscapesSpec(line[f + 1..l]);
      Some(StripEscapes(line[f + 1..l]))
  }

  /** With the intended stripping, `$1 = "green"` prints `green`. */
  lemma {:induction false} WordEndingInNKept()
    ensures ExtractIntended("$1 = \"green\"") == Some("green")
  {
    var line := "$1 = \"green\"";
    assert FirstQuote(line) == 5 by {
      assert line[5] == '"';
      assert forall j :: 0 <= j < 5 ==> line[j] != '"';
    }
    assert AfterLastQuote(line) == 0;
    assert line[6..11] == "green";
    StripEscapesKeeps("green");
  }

  /** What the script prints for a sequence of lines, and whether it stopped with an exception. */
  datatype Outcome = Outcome(printed: seq<seq<char>>, crashed: bool)

  /** The loop over the lines, with the strip as written: non-matching lines are skipped, a matching line without a span ends the run. */
  function ExtractLines(lines: seq<seq<char>>): (o: Outcome)
  {
    if |lines| == 0 then Outcome([], false)
    else if !HasMarker(lines[0]) then ExtractLines(lines[1..])
    else match Extract(lines[0])
      case None => Outcome([], true)
      case Some(text) =>
        var rest := ExtractLines(lines[1..]);
        Outcome([text] + rest.printed, rest.crashed)
  }

  /** The script on the whole transcript: the text split at newlines, then the loop. */
  function ExtractAll(transcript: seq<char>): (o: Outcome)
  {
    ExtractLines(TraceChecker.SplitOn(transcript, '\n'))
  }

  /** The lines mentioning `$1`, in order. */
  function Matching(lines: seq<seq<char>>): (ms: seq<seq<char>>)
    ensures forall k :: 0 <= k < |ms| ==> HasMarker(ms[k])
  {
    if |lines| == 0 then []
    else if HasMarker(lines[0]) then [lines[0]] + Matching(lines[1..])
    else Matching(lines[1..])
  }

  /** The extracts of the lines `ms` in order, up to the first line without a quoted span. */
  function ExtractEach(ms: seq<seq<char>>): (o: Outcome)
  {
    if |ms| == 0 then Outcome([], false)
    else match Extract(ms[0])
      case None => Outcome([], true)
      case Some(text) =>
        var rest := ExtractEach(ms[1..]);
        Outcome([text] + rest.printed, rest.crashed)
  }

  /** The loop is the extraction of the lines that mention `$1`, the others being skipped. */
  lemma {:induction false} ExtractLinesFiltered(lines: seq<seq<char>>)
    ensures ExtractLines(lines) == ExtractEach(Matching(lines))
  {
    if |lines| > 0 {
      ExtractLinesFiltered(lines[1..]);
      if HasMarker(lines[0]) {
        assert Matching(lines)[1..] == Matching(lines[1..]);
      }
    }
  }

  /**
   * Extraction goes one for one and in order: it stops exactly when some
   * line has no quoted span, and up to that line each line gives its
   * extract.
   */
  lemma {:induction false} ExtractEachSpec(ms: seq<seq<char>>)
    ensures var o := ExtractEach(ms);
      (o.crashed <==> exists k :: 0 <= k < |ms| && Extract(ms[k]).None?)
      && |o.printed| <= |ms|
      && (forall k :: 0 <= k < |o.printed| ==> Extract(ms[k]) == Some(o.printed[k]))
      && (!o.crashed ==> |o.printed| == |ms|)
  {
    if |ms| > 0 && Extract(ms[0]).Some? {
      var rest := ms[1..];
      ExtractEachSpec(rest);
      var o, r := ExtractEach(ms), ExtractEach(rest);
      forall k | 1 <= k < |o.printed|
        ensures Extract(ms[k]) == Some(o.printed[k])
      {
        assert o.printed[k] == r.printed[k - 1] && ms[k] == rest[k - 1];
      }
      if exists k :: 0 <= k < |ms| && Extract(ms[k]).None? {
        var k :| 0 <= k < |ms| && Extract(ms[k]).None?;
        assert Extract(rest[k - 1]).None?;
      }
      if exists k :: 0 <= k < |rest| && Extract(rest[k]).None? {
        var k :| 0 <= k < |rest| && Extract(rest[k]).None?;
        assert ms[k + 1] == rest[k];
      }
    }
  }

  /**
   * Output follows the matching lines one for one and in order: the run
   * stops exactly when some matching line has no quoted span, and up to that
   * line each matching line gives its extract.
   */
  lemma {:induction false} ExtractLinesFollowsMatches(lines: seq<seq<char>>)
    ensures var o := ExtractLines(lines); var ms := Matching(lines);
      (o.crashed <==> exists k :: 0 <= k < |ms| && Extract(ms[k]).None?)
      && |o.printed| <= |ms|
      && (forall k :: 0 <= k < |o.printed| ==> Extract(ms[k]) == Some(o.printed[k]))
      && (!o.crashed ==> |o.printed| == |ms|)
  {
    ExtractLinesFiltered(lines);
    ExtractEachSpec(Matching(lines));
  }
}
