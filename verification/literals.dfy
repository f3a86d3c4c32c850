/** Text that the tools of src/apple_mail_mcp/apple_mail_mcp.py place inside
    AppleScript string literals: the quote escaping of `reply_to_email` and
    `compose_email`, and the comma-separated recipient lists of
    `compose_email`.

    Inside an AppleScript string literal a backslash starts an escape
    (`\"`, `\\`, `\n`, `\t`, `\r`) and an unescaped `"` ends the literal.
    The tools escape only the quotes. */
module ScriptLiterals {
  import opened Common
  import opened Text

  // ---------------------------------------------------------------------
  // Reading a literal back

  /** The character an escape sequence `\c` stands for. */
  function Unescape(c: char): Option<char> {
    if c == '"' then Some('"')
    else if c == '\\' then Some('\\')
    else if c == 'n' then Some('\n')
    else if c == 't' then Some('\t')
    else if c == 'r' then Some('\r')
    else None
  }

  function Prepend(c: char, rest: Option<string>): Option<string> {
    match rest
    case None => None
    case Some(s) => Some([c] + s)
  }

  /** The text a literal body denotes, or `None` when the body is not a
      well-formed literal body (a bare `"`, a dangling `\` or an unknown
      escape). */
  function DecodeLiteral(body: string): Option<string>
    decreases |body|
  {
    if body == [] then Some([])
    else if body[0] == '"' then None
    else if body[0] == '\\' then
      if |body| < 2 then None
      else match Unescape(body[1])
        case None => None
        case Some(c) => Prepend(c, DecodeLiteral(body[2..]))
    else Prepend(body[0], DecodeLiteral(body[1..]))
  }

  // ---------------------------------------------------------------------
  // The escaping as written: every quote is replaced by backslash-quote

  function EscapeQuotes(s: string): string {
    Replace(s, "\"", "\\\"")
  }

  /** One character after the escaping as written. */
  function QuotedChar(c: char): string {
    if c == '"' then "\\\"" else [c]
  }

  /** Character by character: a quote becomes backslash-quote, every other
      character stays. */
  function QuoteEscaped(s: string): string
    decreases |s|
  {
    if s == [] then [] else QuotedChar(s[0]) + QuoteEscaped(s[1..])
  }

  lemma {:induction false} EscapeQuotesCharwise(s: string)
    ensures EscapeQuotes(s) == QuoteEscaped(s)
    decreases |s|
  {
    assert "\"" == ['"'];
    if s != [] {
      SplitCharStep(s, '"');
      EscapeQuotesCharwise(s[1..]);
      if s[0] == '"' {
        JoinConsEmpty(SplitOn(s[1..], "\""), "\\\"");
      } else {
        JoinConsFirst(s[0], SplitOn(s[1..], "\""), "\\\"");
      }
    }
  }

  /** A text without backslashes reads back unchanged after the escaping. */
  lemma {:induction false} QuoteEscapedReadsBack(s: string)
    requires '\\' !in s
    ensures DecodeLiteral(QuoteEscaped(s)) == Some(s)
    decreases |s|
  {
    if s != [] {
      assert s[0] != '\\' && '\\' !in s[1..];
      QuoteEscapedReadsBack(s[1..]);
      assert QuotedChar(s[0]) == EscapedChar(s[0]);
      DecodeEscapedChar(s[0], QuoteEscaped(s[1..]));
      assert s == [s[0]] + s[1..];
    }
  }

  lemma EscapeQuotesWithoutBackslash(s: string)
    requires '\\' !in s
    ensures DecodeLiteral(EscapeQuotes(s)) == Some(s)
  {
    EscapeQuotesCharwise(s);
    QuoteEscapedReadsBack(s);
  }

  /** A text ending in a backslash: the escaped body ends in a dangling
      backslash, which in the script escapes the closing quote. */
  lemma TrailingBackslashBreaksLiteral()
    ensures EscapeQuotes("a\\") == "a\\"
    ensures DecodeLiteral(EscapeQuotes("a\\")) == None
  {
    EscapeQuotesCharwise("a\\");
    assert QuoteEscaped("a\\") == "a\\" by {
      assert "a\\"[1..] == "\\";
      assert "\\"[1..] == [];
    }
    assert DecodeLiteral("a\\") == Prepend('a', DecodeLiteral("\\")) by {
      assert "a\\"[1..] == "\\";
    }
  }

  /** A text containing a backslash and `n`: the script reads a line break
      where the text had two characters. */
  lemma BackslashSequenceChanged()
    ensures EscapeQuotes("\\n") == "\\n"
    ensures DecodeLiteral(EscapeQuotes("\\n")) == Some("\n")
  {
    EscapeQuotesCharwise("\\n");
    assert QuoteEscaped("\\n") == "\\n" by {
      assert "\\n"[1..] == "n";
      assert "n"[1..] == [];
    }
    var body := "\\n";
    assert body[0] == '\\' && body[1] == 'n' && body[2..] == [];
    assert Unescape('n') == Some('\n');
    assert DecodeLiteral(body) == Prepend('\n', DecodeLiteral([]));
    var empty: string := [];
    assert ['\n'] + empty == "\n";
  }

  // ---------------------------------------------------------------------
  // The escaping as intended

  /** One character after the intended escaping: backslashes and quotes
      both escaped. */
  function EscapedChar(c: char): string {
    if c == '"' then "\\\"" else if c == '\\' then "\\\\" else [c]
  }

  function EscapeForLiteral(s: string): string
    decreases |s|
  {
    if s == [] then [] else EscapedChar(s[0]) + EscapeForLiteral(s[1..])
  }

  /** Reading an escaped character gives the character back. */
  lemma DecodeEscapedChar(c: char, rest: string)
    ensures DecodeLiteral(EscapedChar(c) + rest) == Prepend(c, DecodeLiteral(rest))
  {
    var body := EscapedChar(c) + rest;
    if c == '"' || c == '\\' {
      assert body[0] == '\\' && body[1] == c && body[2..] == rest;
    } else {
      assert body[0] == c && body[1..] == rest;
    }
  }

  /** Every text reads back unchanged after the intended escaping. */
  lemma {:induction false} EscapeForLiteralReadsBack(s: string)
    ensures DecodeLiteral(EscapeForLiteral(s)) == Some(s)
    decreases |s|
  {
    if s != [] {
      EscapeForLiteralReadsBack(s[1..]);
      DecodeEscapedChar(s[0], EscapeForLiteral(s[1..]));
      assert s == [s[0]] + s[1..];
    }
  }

  /** On text without backslashes the intended escaping is the one the tools
      apply. */
  lemma {:induction false} EscapingAgreesWithoutBackslash(s: string)
    requires '\\' !in s
    ensures EscapeForLiteral(s) == EscapeQuotes(s)
    decreases |s|
  {
    EscapeQuotesCharwise(s);
    if s != [] {
      EscapingAgreesWithoutBackslash(s[1..]);
      EscapeQuotesCharwise(s[1..]);
    }
  }

  // ---------------------------------------------------------------------
  // compose_email: a given `cc` field is split at commas and each address
  // stripped

  /** Every element stripped. */
  function StripEach(xs: seq<string>): (r: seq<string>)
    ensures |r| == |xs|
  {
    seq(|xs|, i requires 0 <= i < |xs| => Strip(xs[i]))
  }

  /** The recipient addresses of a `cc` or `bcc` field; an empty field gives
      none. */
  function Recipients(field: string): (addresses: seq<string>)
    ensures forall i :: 0 <= i < |addresses| ==> Stripped(addresses[i]) && ',' !in addresses[i]
  {
    if field == [] then []
    else
      var parts := SplitOn(field, ",");
      SplitCharPieces(field, ',');
      assert "," == [','];
      forall i | 0 <= i < |parts| ensures ',' !in Strip(parts[i]) {
        var p := parts[i];
        var lo := SkipSpace(p, 0);
        assert Strip(p) == p[lo..TrimSpace(p, lo, |p|)];
      }
      StripEach(parts)
  }

  /** The addresses with a blank in front of all but the first. */
  function Spaced(xs: seq<string>): seq<string>
    requires xs != []
  {
    [xs[0]] + seq(|xs| - 1, i requires 0 <= i < |xs| - 1 => " " + xs[i + 1])
  }

  /** Extending the first element by a prefix extends the joined string by
      that prefix. */
  lemma JoinPrefixFirst(p: string, xs: seq<string>, sep: string)
    requires xs != []
    ensures JoinWith([p + xs[0]] + xs[1..], sep) == p + JoinWith(xs, sep)
  {
    var ys := [p + xs[0]] + xs[1..];
    assert ys[1..] == xs[1..];
  }

  /** Joining with `, ` is joining the spaced addresses with `,`. */
  lemma {:induction false} JoinCommaSpace(xs: seq<string>)
    requires xs != []
    ensures JoinWith(xs, ", ") == JoinWith(Spaced(xs), ",")
    decreases |xs|
  {
    if |xs| > 1 {
      var tail := xs[1..];
      JoinCommaSpace(tail);
      var st := Spaced(tail);
      assert Spaced(xs)[1..] == [" " + st[0]] + st[1..];
      JoinPrefixFirst(" ", st, ",");
      assert JoinWith(Spaced(xs), ",") == xs[0] + "," + JoinWith(Spaced(xs)[1..], ",");
    }
  }

  lemma SpacedHasNoComma(addresses: seq<string>)
    requires addresses != []
    requires forall i :: 0 <= i < |addresses| ==> ',' !in addresses[i]
    ensures NoneContains(Spaced(addresses), ',')
  {
    var sp := Spaced(addresses);
    forall k | 0 <= k < |sp| ensures ',' !in sp[k] {
      if k > 0 { assert sp[k] == " " + addresses[k]; }
    }
  }

  /** Stripping the spaced addresses gives the addresses back. */
  lemma StripSpaced(addresses: seq<string>)
    requires addresses != []
    requires forall i :: 0 <= i < |addresses| ==> Stripped(addresses[i])
    ensures StripEach(Spaced(addresses)) == addresses
  {
    var sp := Spaced(addresses);
    forall k | 0 <= k < |sp| ensures Strip(sp[k]) == addresses[k] {
      if k == 0 {
        StripFixesStripped(addresses[0]);
      } else {
        assert sp[k] == " " + addresses[k];
        StripLeadingSpace(addresses[k]);
      }
    }
  }

  /** Joining anything but a lone empty address gives a non-empty field. */
  lemma JoinedFieldNonEmpty(addresses: seq<string>)
    requires addresses != [] && addresses != [[]]
    ensures JoinWith(addresses, ", ") != []
  {
    if |addresses| > 1 {
      assert JoinWith(addresses, ", ") == addresses[0] + ", " + JoinWith(addresses[1..], ", ");
    } else {
      assert addresses == [addresses[0]];
    }
  }

  /** Addresses written as `a, b, c` are read back as they were, provided
      each is stripped and free of commas (a lone empty address is read as
      no address). */
  lemma RecipientsRoundTrip(addresses: seq<string>)
    requires forall i :: 0 <= i < |addresses| ==> Stripped(addresses[i]) && ',' !in addresses[i]
    requires addresses != [[]]
    ensures Recipients(JoinWith(addresses, ", ")) == addresses
  {
    if addresses != [] {
      var sp := Spaced(addresses);
      JoinCommaSpace(addresses);
      SpacedHasNoComma(addresses);
      JoinSplitChar(sp, ',');
      assert "," == [','];
      JoinedFieldNonEmpty(addresses);
      StripSpaced(addresses);
    }
  }
}
