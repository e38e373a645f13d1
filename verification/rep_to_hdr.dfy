/**
 * The header generator: a trace file's text becomes one C preprocessor line
 * `#define TESTSTRING "..."` whose string literal holds the trace with each
 * newline written as the escape `\n`, so the device can be built with the
 * trace compiled in.
 */
module HeaderString {

  /** The text before the string's contents. */
  const Opening: seq<char> := "#define TESTSTRING \""

  /** `text.replace("\n", "\\n")`: each newline becomes a backslash and an `n`, everything else is copied. */
  function Escape(text: seq<char>): (e: seq<char>)
    ensures '\n' !in e
  {
    if |text| == 0 then []
    else (if text[0] == '\n' then ['\\', 'n'] else [text[0]]) + Escape(text[1..])
  }

  /** The number of newlines in the text. */
  function Newlines(text: seq<char>): nat
  {
    if |text| == 0 then 0 else (if text[0] == '\n' then 1 else 0) + Newlines(text[1..])
  }

  /** The header line for a trace. */
  function Header(text: seq<char>): (h: seq<char>)
    ensures |h| >= |Opening| + 1 && h[..|Opening|] == Opening && h[|h| - 1] == '"'
    ensures '\n' !in h
  {
    Opening + Escape(text) + "\""
  }

  /** Escaping grows the text by one character per newline. */
  lemma {:induction false} EscapeLength(text: seq<char>)
    ensures |Escape(text)| == |text| + Newlines(text)
  {
    if |text| > 0 {
      EscapeLength(text[1..]);
    }
  }

  /** A C compiler's reading of the literal's contents, for the one escape the generator writes. */
  function Unescape(e: seq<char>): seq<char>
  {
    if |e| >= 2 && e[0] == '\\' && e[1] == 'n' then ['\n'] + Unescape(e[2..])
    else if |e| == 0 then []
    else [e[0]] + Unescape(e[1..])
  }

  /** For a trace without backslashes, the compiled string is the trace itself. */
  lemma {:induction false} UnescapeEscape(text: seq<char>)
    requires '\\' !in text
    ensures Unescape(Escape(text)) == text
  {
    if |text| > 0 {
      UnescapeEscape(text[1..]);
      var rest := Escape(text[1..]);
      if text[0] == '\n' {
        assert Escape(text) == ['\\', 'n'] + rest;
        assert (['\\', 'n'] + rest)[2..] == rest;
      } else {
        assert Escape(text) == [text[0]] + rest;
        assert ([text[0]] + rest)[1..] == rest;
      }
      assert text == [text[0]] + text[1..];
    }
  }

  /** Backslashes are not escaped: a trace holding the two characters `\n` compiles to a newline instead. */
  lemma {:induction false} BackslashNotEscaped()
    ensures Unescape(Escape(['\\', 'n'])) == ['\n']
  {
    assert Escape(['\\', 'n']) == ['\\', 'n'] by {
      assert Escape(['n']) == ['n'];
    }
  }
}
