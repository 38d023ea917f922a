/**
 * The two string transforms of the main window: the `Replace` chain that
 * turns file text into the body of the JavaScript string literal passed to
 * `setText("...")`, and the quote strip applied to the text `getText()`
 * returns.
 */
module EditorText {
  import opened Wrappers

  // ---------------------------------------------------------------------
  // The escape chain
  // ---------------------------------------------------------------------

  /** The occurrences of `c` in `s`. */
  function Count(s: string, c: char): nat
    decreases |s|
  {
    if s == [] then 0 else (if s[0] == c then 1 else 0) + Count(s[1..], c)
  }

  /** `s.Replace(target, repl)` for a one-character `target`: every occurrence
      is replaced, ordinal comparison. */
  function ReplaceChar(s: string, target: char, repl: string): (r: string)
    ensures |r| == |s| + Count(s, target) * (|repl| - 1)
    ensures forall c | c in r :: c in repl || (c in s && c != target)
    decreases |s|
  {
    if s == [] then []
    else (if s[0] == target then repl else [s[0]]) + ReplaceChar(s[1..], target, repl)
  }

  /** The expression at lines 77 and 187: backslash first, then the double
      quote, then line feed and carriage return. */
  function EscapeForScript(s: string): string
  {
    ReplaceChar(ReplaceChar(ReplaceChar(ReplaceChar(s, '\\', "\\\\"), '"', "\\\""), '\n', "\\n"), '\r', "\\r")
  }

  /** The characters the chain rewrites. */
  predicate IsSpecial(c: char)
  {
    c == '\\' || c == '"' || c == '\n' || c == '\r'
  }

  function SpecialCount(s: string): nat
    decreases |s|
  {
    if s == [] then 0 else (if IsSpecial(s[0]) then 1 else 0) + SpecialCount(s[1..])
  }

  /** The escape of one character, as a JavaScript string literal writes it. */
  function EscapeChar(c: char): (e: string)
    ensures IsSpecial(c) ==> |e| == 2 && e[0] == '\\'
    ensures !IsSpecial(c) ==> e == [c]
  {
    if c == '\\' then "\\\\"
    else if c == '"' then "\\\""
    else if c == '\n' then "\\n"
    else if c == '\r' then "\\r"
    else [c]
  }

  /** The reference escape: each character escaped on its own. */
  function Escaped(s: string): string
    decreases |s|
  {
    if s == [] then [] else EscapeChar(s[0]) + Escaped(s[1..])
  }

  /** The decoding of a JavaScript string literal body that uses only the
      four escapes above: a raw double quote or line break ends or breaks
      the literal, so it is refused, and so is any other escape. */
  function DecodeLiteral(t: string): Option<string>
    decreases |t|
  {
    if t == [] then Some([])
    else if t[0] == '\\' then
      if |t| < 2 then None
      else
        var c := if t[1] == '\\' then Some('\\')
          else if t[1] == '"' then Some('"')
          else if t[1] == 'n' then Some('\n')
          else if t[1] == 'r' then Some('\r')
          else None;
        match (c, DecodeLiteral(t[2..]))
        case (Some(d), Some(rest)) => Some([d] + rest)
        case _ => None
    else if t[0] == '"' || t[0] == '\n' || t[0] == '\r' then None
    else
      match DecodeLiteral(t[1..])
      case Some(rest) => Some([t[0]] + rest)
      case None => None
  }

  lemma {:induction false} ReplaceConcat(a: string, b: string, target: char, repl: string)
    ensures ReplaceChar(a + b, target, repl) == ReplaceChar(a, target, repl) + ReplaceChar(b, target, repl)
    decreases |a|
  {
    if a != [] {
      ReplaceConcat(a[1..], b, target, repl);
      assert (a + b)[1..] == a[1..] + b;
    } else {
      assert a + b == b;
    }
  }

  /** Replacing a character that does not occur changes nothing. */
  lemma {:induction false} ReplaceAbsent(s: string, target: char, repl: string)
    requires target !in s
    ensures ReplaceChar(s, target, repl) == s
    decreases |s|
  {
    if s != [] {
      ReplaceAbsent(s[1..], target, repl);
    }
  }

  /** The chain on one character is that character's escape: once a
      character is rewritten, the later steps find nothing of theirs in its
      replacement, because the backslash goes first. */
  lemma EscapeOne(c: char)
    ensures EscapeForScript([c]) == EscapeChar(c)
  {
    var r1 := ReplaceChar([c], '\\', "\\\\");
    assert [c][1..] == [];
    var r2 := ReplaceChar(r1, '"', "\\\"");
    var r3 := ReplaceChar(r2, '\n', "\\n");
    if c == '\\' {
      ReplaceAbsent(r1, '"', "\\\"");
      ReplaceAbsent(r2, '\n', "\\n");
      ReplaceAbsent(r3, '\r', "\\r");
    } else if c == '"' {
      assert r1 == [c];
      assert r2 == "\\\"" by { assert r1[1..] == []; }
      ReplaceAbsent(r2, '\n', "\\n");
      ReplaceAbsent(r3, '\r', "\\r");
    } else if c == '\n' {
      assert r1 == [c] && r2 == [c] by { assert r1 == [c] && r1[1..] == []; }
      assert r3 == "\\n" by { assert r2[1..] == []; }
      ReplaceAbsent(r3, '\r', "\\r");
    } else if c == '\r' {
      assert r1 == [c] && r2 == [c] by { assert r1 == [c] && r1[1..] == []; }
      assert r3 == [c] by { assert r2[1..] == []; }
      assert r3[1..] == [];
    } else {
      assert r1 == [c] && r2 == [c] by { assert r1 == [c] && r1[1..] == []; }
      assert r3 == [c] by { assert r2[1..] == []; }
      assert r3[1..] == [];
    }
  }

  /** The whole chain distributes over concatenation. */
  lemma EscapeConcat(a: string, b: string)
    ensures EscapeForScript(a + b) == EscapeForScript(a) + EscapeForScript(b)
  {
    var r1a, r1b := ReplaceChar(a, '\\', "\\\\"), ReplaceChar(b, '\\', "\\\\");
    ReplaceConcat(a, b, '\\', "\\\\");
    var r2a, r2b := ReplaceChar(r1a, '"', "\\\""), ReplaceChar(r1b, '"', "\\\"");
    ReplaceConcat(r1a, r1b, '"', "\\\"");
    var r3a, r3b := ReplaceChar(r2a, '\n', "\\n"), ReplaceChar(r2b, '\n', "\\n");
    ReplaceConcat(r2a, r2b, '\n', "\\n");
    ReplaceConcat(r3a, r3b, '\r', "\\r");
  }

  /** The chain of `Replace` calls escapes each character on its own. */
  lemma {:induction false} EscapeIsCharwise(s: string)
    ensures EscapeForScript(s) == Escaped(s)
    decreases |s|
  {
    if s == [] {
      ReplaceAbsent(s, '\\', "\\\\");
      ReplaceAbsent(s, '"', "\\\"");
      ReplaceAbsent(s, '\n', "\\n");
      ReplaceAbsent(s, '\r', "\\r");
    } else {
      assert s == [s[0]] + s[1..];
      EscapeConcat([s[0]], s[1..]);
      EscapeOne(s[0]);
      EscapeIsCharwise(s[1..]);
    }
  }

  /** The escaped text holds no raw line break, so the `setText("...")`
      call stays on one line. */
  lemma NoRawLineBreaks(s: string)
    ensures '\n' !in EscapeForScript(s) && '\r' !in EscapeForScript(s)
  {
    var r3 := ReplaceChar(ReplaceChar(ReplaceChar(s, '\\', "\\\\"), '"', "\\\""), '\n', "\\n");
    assert '\n' !in r3;
  }

  /** The escaped text is the input lengthened by one for each backslash,
      double quote, line feed and carriage return. */
  lemma EscapeLength(s: string)
    ensures |EscapeForScript(s)| == |s| + SpecialCount(s)
  {
    EscapeIsCharwise(s);
    EscapedLength(s);
  }

  lemma {:induction false} EscapedLength(s: string)
    ensures |Escaped(s)| == |s| + SpecialCount(s)
    decreases |s|
  {
    if s != [] {
      EscapedLength(s[1..]);
    }
  }

  /** Decoding one escaped character ahead of some text. */
  lemma DecodeStep(c: char, t: string)
    ensures DecodeLiteral(EscapeChar(c) + t) ==
      match DecodeLiteral(t)
      case Some(rest) => Some([c] + rest)
      case None => None
  {
    var e := EscapeChar(c) + t;
    if IsSpecial(c) {
      assert e[2..] == t;
    } else {
      assert e[1..] == t;
    }
  }

  lemma {:induction false} DecodeEscaped(s: string)
    ensures DecodeLiteral(Escaped(s)) == Some(s)
    decreases |s|
  {
    if s != [] {
      DecodeEscaped(s[1..]);
      DecodeStep(s[0], Escaped(s[1..]));
      assert [s[0]] + s[1..] == s;
    }
  }

  /** Reading the literal back recovers the file text exactly. */
  lemma EscapeRoundTrip(s: string)
    ensures DecodeLiteral(EscapeForScript(s)) == Some(s)
  {
    EscapeIsCharwise(s);
    DecodeEscaped(s);
  }

  /** Two different texts never load as the same literal. */
  lemma EscapeInjective(a: string, b: string)
    requires EscapeForScript(a) == EscapeForScript(b)
    ensures a == b
  {
    EscapeRoundTrip(a);
    EscapeRoundTrip(b);
  }

  // ---------------------------------------------------------------------
  // The quote strip of GetScriptContent
  // ---------------------------------------------------------------------

  /** The exception `textContent[1..^1]` throws on a lone double quote. */
  datatype StripError = ArgumentOutOfRange

  /** `text.StartsWith("\"") && text.EndsWith("\"")`. */
  predicate IsQuoted(text: string)
  {
    |text| >= 1 && text[0] == '"' && text[|text| - 1] == '"'
  }

  /** Drops one pair of surrounding double quotes; text without them is
      returned as it is. A lone double quote passes both tests and the slice
      then throws. */
  function StripQuotes(text: string): (r: Result<string, StripError>)
    ensures r.Failure? <==> text == "\""
    ensures r.Success? && IsQuoted(text) ==> "\"" + r.value + "\"" == text
    ensures r.Success? && !IsQuoted(text) ==> r.value == text
  {
    if IsQuoted(text) then
      if |text| < 2 then Failure(ArgumentOutOfRange) else Success(text[1..|text| - 1])
    else Success(text)
  }

  /** A quoted text loses exactly its two quotes. */
  lemma StripQuotesOfQuoted(s: string)
    ensures StripQuotes("\"" + s + "\"") == Success(s)
  {
    var t := "\"" + s + "\"";
    assert t[1..|t| - 1] == s;
  }

  /** If the editor hands the loaded literal back between double quotes,
      the strip returns exactly that literal body, and decoding it gives the
      file text. Whether `getText()` returns it in that form is outside the
      model. */
  lemma LoadThenReadBack(s: string)
    ensures StripQuotes("\"" + EscapeForScript(s) + "\"") == Success(EscapeForScript(s))
    ensures DecodeLiteral(StripQuotes("\"" + EscapeForScript(s) + "\"").value) == Some(s)
  {
    StripQuotesOfQuoted(EscapeForScript(s));
    EscapeRoundTrip(s);
  }
}
