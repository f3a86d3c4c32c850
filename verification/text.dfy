/** The string primitives of Python that the modelled code relies on:
    `str.strip()`, `str.startswith`, `str.split(sep)`, `sep.join(xs)`,
    `str.replace(target, replacement)`, `str(n)` for integers and `int(s)` for digit
    strings. Strings are sequences of Unicode code points, as in Python. */
module Text {
  import opened Common

  // ---------------------------------------------------------------------
  // Whitespace and str.strip()

  /** The characters for which Python's `str.isspace()` holds, which are the
      characters `str.strip()` with no argument removes. */
  predicate IsSpace(c: char) {
    || ('\t' <= c <= '\r')                // tab, line feed, vertical tab, form feed, carriage return
    || ('\U{001C}' <= c <= '\U{001F}')    // file, group, record and unit separators
    || c == ' ' || c == '\U{0085}' || c == '\U{00A0}' || c == '\U{1680}'
    || ('\U{2000}' <= c <= '\U{200A}')    // en quad .. hair space
    || c == '\U{2028}' || c == '\U{2029}' || c == '\U{202F}' || c == '\U{205F}' || c == '\U{3000}'
  }

  predicate AllSpace(s: string) {
    forall k :: 0 <= k < |s| ==> IsSpace(s[k])
  }

  /** Every character of `s` from index `lo` up to, not including, `hi` is
      whitespace. */
  predicate SpaceBetween(s: string, lo: nat, hi: nat)
    requires lo <= hi <= |s|
  {
    forall k :: lo <= k < hi ==> IsSpace(s[k])
  }

  /** No whitespace at either end: what `strip()` leaves behind. */
  predicate Stripped(s: string) {
    s == [] || (!IsSpace(s[0]) && !IsSpace(s[|s| - 1]))
  }

  /** The forward scan of `strip()`: the first index at or after `i` whose
      character is not whitespace, or the length of `s` when there is none. */
  function SkipSpace(s: string, i: nat): (k: nat)
    requires i <= |s|
    ensures i <= k <= |s|
    ensures SpaceBetween(s, i, k)
    ensures k < |s| ==> !IsSpace(s[k])
    decreases |s| - i
  {
    if i < |s| && IsSpace(s[i]) then SkipSpace(s, i + 1) else i
  }

  /** The backward scan of `strip()`: the end of `s[lo..j]` once its trailing
      whitespace is dropped. */
  function TrimSpace(s: string, lo: nat, j: nat): (k: nat)
    requires lo <= j <= |s|
    ensures lo <= k <= j
    ensures SpaceBetween(s, k, j)
    ensures k > lo ==> !IsSpace(s[k - 1])
    decreases j
  {
    if j > lo && IsSpace(s[j - 1]) then TrimSpace(s, lo, j - 1) else j
  }

  /** `s.strip()`: the part of `s` between its leading and its trailing
      whitespace. */
  function Strip(s: string): (r: string)
    ensures Stripped(r)
    ensures |r| <= |s|
  {
    var lo := SkipSpace(s, 0);
    s[lo..TrimSpace(s, lo, |s|)]
  }

  /** `Strip` removes exactly the surrounding whitespace: whenever `s[i..j]`
      has no whitespace at its ends and everything outside it is whitespace,
      `Strip(s)` is `s[i..j]`. */
  lemma StripUnique(s: string, i: nat, j: nat)
    requires i <= j <= |s|
    requires SpaceBetween(s, 0, i) && SpaceBetween(s, j, |s|)
    requires i < j ==> !IsSpace(s[i]) && !IsSpace(s[j - 1])
    ensures Strip(s) == s[i..j]
  {
    var lo := SkipSpace(s, 0);
    if i < j {
      assert lo == i;
      assert TrimSpace(s, lo, |s|) == j;
    } else {
      assert lo == |s|;
    }
  }

  /** Stripping is idempotent, and it changes nothing exactly when the string
      has no surrounding whitespace. */
  lemma StripFixesStripped(s: string)
    ensures Strip(s) == s <==> Stripped(s)
    ensures Strip(Strip(s)) == Strip(s)
  {
    if Stripped(s) {
      assert s[0..|s|] == s;
      StripUnique(s, 0, |s|);
    }
    var t := Strip(s);
    assert t[0..|t|] == t;
    StripUnique(t, 0, |t|);
  }

  /** Whitespace added around an already stripped string is removed again. */
  lemma StripPadded(pre: string, core: string, post: string)
    requires AllSpace(pre) && AllSpace(post) && Stripped(core)
    ensures Strip(pre + core + post) == core
  {
    var s := pre + core + post;
    var i, j := |pre|, |pre| + |core|;
    forall k | 0 <= k < i ensures IsSpace(s[k]) {
      assert s[k] == pre[k];
    }
    forall k | j <= k < |s| ensures IsSpace(s[k]) {
      assert s[k] == post[k - j];
    }
    if i < j {
      assert s[i] == core[0] && s[j - 1] == core[|core| - 1];
    }
    assert s[i..j] == core;
    StripUnique(s, i, j);
  }

  /** A line that begins and ends with non-whitespace is its own strip. */
  lemma StripKeepsLine(x: string, y: string)
    requires x != [] && !IsSpace(x[0])
    requires y != [] && !IsSpace(y[|y| - 1])
    ensures Strip(x + y) == x + y
  {
    var line := x + y;
    assert line[0] == x[0] && line[|line| - 1] == y[|y| - 1];
    StripFixesStripped(line);
  }

  /** A line that ends in a single space loses just that space. */
  lemma StripDropsTrailingSpace(x: string)
    requires x != [] && !IsSpace(x[0]) && !IsSpace(x[|x| - 1])
    ensures Strip(x + " ") == x
  {
    StripPadded([], x, " ");
    assert [] + x + " " == x + " ";
  }

  /** A single leading space is dropped from a stripped string. */
  lemma StripLeadingSpace(v: string)
    requires Stripped(v)
    ensures Strip(" " + v) == v
  {
    StripPadded(" ", v, []);
    assert " " + v + [] == " " + v;
  }

  // ---------------------------------------------------------------------
  // Prefixes and occurrences

  /** `s.startswith(p)`. */
  predicate StartsWith(s: string, p: string) {
    |p| <= |s| && s[..|p|] == p
  }

  /** A string whose first character differs from the prefix's does not
      start with it. */
  lemma FirstCharRulesOut(s: string, p: string)
    requires s != [] && p != [] && s[0] != p[0]
    ensures !StartsWith(s, p)
  {
    if |p| <= |s| { assert s[..|p|][0] == s[0]; }
  }

  /** `p` occurs in `s` starting at index `i`. */
  predicate OccursAt(s: string, p: string, i: nat) {
    i + |p| <= |s| && s[i..i + |p|] == p
  }

  /** Python's `p in s` for strings. */
  predicate Contains(s: string, p: string) {
    exists i: nat | i <= |s| :: OccursAt(s, p, i)
  }

  lemma PrefixIsContained(p: string, s: string)
    ensures Contains(p + s, p)
  {
    assert (p + s)[0..|p|] == p;
    assert OccursAt(p + s, p, 0);
  }

  // ---------------------------------------------------------------------
  // str.split(sep) and sep.join(xs)

  /** `s.split(sep)` for a non-empty separator: the pieces between the
      occurrences of `sep` found scanning left to right without overlap.
      (Python raises `ValueError` for an empty separator; every call site
      passes a literal non-empty one.) */
  function SplitOn(s: string, sep: string): (r: seq<string>)
    requires |sep| > 0
    ensures |r| >= 1
    decreases |s|
  {
    if |s| < |sep| then [s]
    else if s[..|sep|] == sep then [[]] + SplitOn(s[|sep|..], sep)
    else
      var rest := SplitOn(s[1..], sep);
      [[s[0]] + rest[0]] + rest[1..]
  }

  /** `sep.join(xs)`. */
  function JoinWith(xs: seq<string>, sep: string): string
  {
    if |xs| == 0 then []
    else if |xs| == 1 then xs[0]
    else xs[0] + sep + JoinWith(xs[1..], sep)
  }

  /** Joining builds the string left to right: adding one more element
      appends the separator and that element. */
  lemma {:induction false} JoinWithSnoc(xs: seq<string>, x: string, sep: string)
    requires |xs| > 0
    ensures JoinWith(xs + [x], sep) == JoinWith(xs, sep) + sep + x
    decreases |xs|
  {
    if |xs| == 1 {
      assert xs + [x] == [xs[0], x];
    } else {
      assert (xs + [x])[1..] == xs[1..] + [x];
      JoinWithSnoc(xs[1..], x, sep);
    }
  }

  /** Extending the first element by one character extends the joined
      string by that character. */
  lemma JoinConsFirst(x: char, xs: seq<string>, sep: string)
    requires |xs| > 0
    ensures JoinWith([[x] + xs[0]] + xs[1..], sep) == [x] + JoinWith(xs, sep)
  {
    var ys := [[x] + xs[0]] + xs[1..];
    assert ys[0] == [x] + xs[0] && ys[1..] == xs[1..];
  }

  /** An empty first element contributes just the separator. */
  lemma JoinConsEmpty(xs: seq<string>, sep: string)
    requires |xs| > 0
    ensures JoinWith([[]] + xs, sep) == sep + JoinWith(xs, sep)
  {
    assert ([[]] + xs)[1..] == xs;
  }

  /** Splitting and joining again with the same separator gives back the
      original string. */
  lemma {:induction false} SplitJoin(s: string, sep: string)
    requires |sep| > 0
    ensures JoinWith(SplitOn(s, sep), sep) == s
    decreases |s|
  {
    if |s| < |sep| {
    } else if s[..|sep|] == sep {
      SplitJoin(s[|sep|..], sep);
      JoinConsEmpty(SplitOn(s[|sep|..], sep), sep);
      assert s == sep + s[|sep|..];
    } else {
      SplitJoin(s[1..], sep);
      JoinConsFirst(s[0], SplitOn(s[1..], sep), sep);
      assert s == [s[0]] + s[1..];
    }
  }

  /** A string without the separator is not split at all. */
  lemma {:induction false} SplitAbsent(s: string, sep: string)
    requires |sep| > 0 && !Contains(s, sep)
    ensures SplitOn(s, sep) == [s]
    decreases |s|
  {
    if |s| < |sep| {
    } else {
      assert !OccursAt(s, sep, 0);
      assert s[0..|sep|] == s[..|sep|];
      assert !Contains(s[1..], sep) by {
        forall i: nat | OccursAt(s[1..], sep, i) ensures OccursAt(s, sep, i + 1) {
          assert s[1..][i..i + |sep|] == s[i + 1..i + 1 + |sep|];
        }
      }
      SplitAbsent(s[1..], sep);
      assert s == [s[0]] + s[1..];
    }
  }

  /** Splitting at a character: no piece contains the separator character. */
  lemma {:induction false} SplitCharPieces(s: string, c: char)
    ensures forall k :: 0 <= k < |SplitOn(s, [c])| ==> c !in SplitOn(s, [c])[k]
    decreases |s|
  {
    if |s| < 1 {
    } else if s[..1] == [c] {
      SplitCharPieces(s[1..], c);
    } else {
      SplitCharPieces(s[1..], c);
      assert s[0] != c by { assert s[..1] == [s[0]]; }
    }
  }

  /** Splitting at a character, one character at a time: a separator starts
      a new piece, any other character extends the first piece. */
  lemma SplitCharStep(s: string, c: char)
    requires s != []
    ensures s[0] == c ==> SplitOn(s, [c]) == [[]] + SplitOn(s[1..], [c])
    ensures s[0] != c ==>
      SplitOn(s, [c]) == [[s[0]] + SplitOn(s[1..], [c])[0]] + SplitOn(s[1..], [c])[1..]
  {
    assert s[..1] == [s[0]];
  }

  /** Putting a character in front of the first of several pieces. */
  lemma ConsFirstPiece(x: char, ra: seq<string>, rb: seq<string>)
    requires |ra| > 0
    ensures [[x] + (ra + rb)[0]] + (ra + rb)[1..] == ([[x] + ra[0]] + ra[1..]) + rb
  {
    assert (ra + rb)[0] == ra[0];
    assert (ra + rb)[1..] == ra[1..] + rb;
  }

  /** Splitting at a character distributes over one occurrence of that character. */
  lemma {:induction false} SplitCharConcat(a: string, c: char, b: string)
    ensures SplitOn(a + [c] + b, [c]) == SplitOn(a, [c]) + SplitOn(b, [c])
    decreases |a|
  {
    var s := a + [c] + b;
    SplitCharStep(s, c);
    if |a| == 0 {
      assert s[1..] == b;
    } else {
      assert s[0] == a[0];
      assert s[1..] == a[1..] + [c] + b;
      SplitCharConcat(a[1..], c, b);
      SplitCharStep(a, c);
      if a[0] != c {
        ConsFirstPiece(a[0], SplitOn(a[1..], [c]), SplitOn(b, [c]));
      }
    }
  }

  /** No element of `xs` contains the character `c`. */
  predicate NoneContains(xs: seq<string>, c: char) {
    forall k :: 0 <= k < |xs| ==> c !in xs[k]
  }

  lemma NoneContainsConcat(xs: seq<string>, ys: seq<string>, c: char)
    requires NoneContains(xs, c) && NoneContains(ys, c)
    ensures NoneContains(xs + ys, c)
  {
    forall k | 0 <= k < |xs + ys| ensures c !in (xs + ys)[k] {
      if k < |xs| { assert (xs + ys)[k] == xs[k]; } else { assert (xs + ys)[k] == ys[k - |xs|]; }
    }
  }

  /** Splitting at a character undoes joining with it, provided no element
      contains that character. */
  lemma {:induction false} JoinSplitChar(xs: seq<string>, c: char)
    requires |xs| > 0
    requires NoneContains(xs, c)
    ensures SplitOn(JoinWith(xs, [c]), [c]) == xs
    decreases |xs|
  {
    SplitCharAbsent(xs[0], c);
    if |xs| > 1 {
      JoinSplitChar(xs[1..], c);
      SplitCharConcat(xs[0], c, JoinWith(xs[1..], [c]));
      assert xs == [xs[0]] + xs[1..];
    }
  }

  /** Joining lines without line breaks at line feeds and splitting the text
      there again gives the lines back. */
  lemma JoinSplitLines(lines: seq<string>)
    requires |lines| > 0 && NoneContains(lines, '\n')
    ensures SplitOn(JoinWith(lines, "\n"), "\n") == lines
  {
    assert "\n" == ['\n'];
    JoinSplitChar(lines, '\n');
  }

  /** A string without the separator character is not split at all. */
  lemma {:induction false} SplitCharAbsent(s: string, c: char)
    requires c !in s
    ensures SplitOn(s, [c]) == [s]
    decreases |s|
  {
    if |s| > 0 {
      assert s[..1] != [c] by { assert s[..1][0] == s[0]; }
      SplitCharAbsent(s[1..], c);
      assert s == [s[0]] + s[1..];
    }
  }

  /** `s.replace(target, replacement)`: every occurrence found by `split` is replaced. */
  function Replace(s: string, target: string, replacement: string): string
    requires |target| > 0
  {
    JoinWith(SplitOn(s, target), replacement)
  }

  /** Replacing a substring that does not occur leaves the string unchanged. */
  lemma ReplaceAbsent(s: string, target: string, replacement: string)
    requires |target| > 0 && !Contains(s, target)
    ensures Replace(s, target, replacement) == s
  {
    SplitAbsent(s, target);
  }
  /** Joining without a separator is never longer than joining with one. */
  lemma {:induction false} JoinWithoutSeparatorShorter(xs: seq<string>, sep: string)
    ensures |JoinWith(xs, [])| <= |JoinWith(xs, sep)|
    decreases |xs|
  {
    if |xs| > 1 {
      JoinWithoutSeparatorShorter(xs[1..], sep);
    }
  }

  /** Removing every occurrence of a non-empty target never lengthens a string. */
  lemma RemoveShortens(s: string, target: string)
    requires |target| > 0
    ensures |Replace(s, target, [])| <= |s|
  {
    SplitJoin(s, target);
    JoinWithoutSeparatorShorter(SplitOn(s, target), target);
  }


  // ---------------------------------------------------------------------
  // Decimal numbers: str(n) and int(s)

  predicate IsDigit(c: char) {
    '0' <= c <= '9'
  }

  function DigitChar(d: nat): (c: char)
    requires d < 10
    ensures IsDigit(c)
  {
    ('0' as int + d) as char
  }

  function DigitValue(c: char): (d: nat)
    requires IsDigit(c)
    ensures d < 10
  {
    (c as int - '0' as int) as nat
  }

  /** `str(n)` for a natural number: its decimal digits, most significant first. */
  function NatToString(n: nat): (r: string)
    ensures |r| > 0
    ensures forall k :: 0 <= k < |r| ==> IsDigit(r[k])
  {
    if n < 10 then [DigitChar(n)] else NatToString(n / 10) + [DigitChar(n % 10)]
  }

  /** `str(n)` for any integer: a minus sign before negative numbers. */
  function IntToString(n: int): string
  {
    if n < 0 then "-" + NatToString(-n) else NatToString(n)
  }

  /** The value of a string of decimal digits. */
  function DigitsValue(s: string): nat
    requires forall k :: 0 <= k < |s| ==> IsDigit(s[k])
  {
    if |s| == 0 then 0 else DigitsValue(s[..|s| - 1]) * 10 + DigitValue(s[|s| - 1])
  }

  /** `int(s)` restricted to plain ASCII digit strings; anything else is
      rejected as Python's `int` would reject most of it. */
  function ParseNat(s: string): (r: Option<nat>)
    ensures r.Some? <==> |s| > 0 && forall k :: 0 <= k < |s| ==> IsDigit(s[k])
  {
    if |s| > 0 && forall k :: 0 <= k < |s| ==> IsDigit(s[k]) then Some(DigitsValue(s)) else None
  }

  /** Every character is a decimal digit. */
  predicate AllDigits(s: string) {
    forall k :: 0 <= k < |s| ==> IsDigit(s[k])
  }

  /** The digit string without its leading zeros, keeping at least one
      digit: the canonical decimal text of the same number. */
  function DropLeadingZeros(s: string): (r: string)
    ensures |s| > 0 ==> |r| > 0 && (|r| == 1 || r[0] != '0')
    decreases |s|
  {
    if |s| > 1 && s[0] == '0' then DropLeadingZeros(s[1..]) else s
  }

  /** A leading zero does not change the value. */
  lemma {:induction false} LeadingZeroValue(s: string)
    requires AllDigits(s)
    ensures AllDigits(['0'] + s) && DigitsValue(['0'] + s) == DigitsValue(s)
    decreases |s|
  {
    var z := ['0'] + s;
    assert AllDigits(z) by {
      forall k | 0 <= k < |z| ensures IsDigit(z[k]) {
        if k > 0 { assert z[k] == s[k - 1]; }
      }
    }
    if |s| == 0 {
      assert z[..0] == [];
    } else {
      var init := s[..|s| - 1];
      assert AllDigits(init) by {
        forall k | 0 <= k < |init| ensures IsDigit(init[k]) { assert init[k] == s[k]; }
      }
      LeadingZeroValue(init);
      assert z[..|z| - 1] == ['0'] + init;
      assert z[|z| - 1] == s[|s| - 1];
    }
  }

  /** Dropping leading zeros keeps the digits and the value. */
  lemma {:induction false} DropLeadingZerosValue(s: string)
    requires AllDigits(s)
    ensures AllDigits(DropLeadingZeros(s)) && DigitsValue(DropLeadingZeros(s)) == DigitsValue(s)
    decreases |s|
  {
    if |s| > 1 && s[0] == '0' {
      var t := s[1..];
      assert AllDigits(t) by {
        forall k | 0 <= k < |t| ensures IsDigit(t[k]) { assert t[k] == s[k + 1]; }
      }
      DropLeadingZerosValue(t);
      LeadingZeroValue(t);
      assert ['0'] + t == s;
    }
  }

  /** A digit string that does not start with `0` has a positive value. */
  lemma {:induction false} DigitsPositive(s: string)
    requires |s| > 0 && AllDigits(s) && s[0] != '0'
    ensures DigitsValue(s) > 0
    decreases |s|
  {
    var init := s[..|s| - 1];
    if |s| > 1 {
      assert init[0] == s[0];
      assert AllDigits(init) by {
        forall k | 0 <= k < |init| ensures IsDigit(init[k]) { assert init[k] == s[k]; }
      }
      DigitsPositive(init);
    } else {
      assert init == [];
    }
  }

  /** A digit string without leading zeros is the decimal text of its value. */
  lemma {:induction false} CanonicalDigits(s: string)
    requires |s| > 0 && AllDigits(s) && (|s| == 1 || s[0] != '0')
    ensures NatToString(DigitsValue(s)) == s
    decreases |s|
  {
    var init, last := s[..|s| - 1], s[|s| - 1];
    var d := DigitValue(last);
    assert DigitChar(d) == last;
    if |s| == 1 {
      assert init == [];
      assert s == [last];
    } else {
      assert init[0] == s[0];
      assert AllDigits(init) by {
        forall k | 0 <= k < |init| ensures IsDigit(init[k]) { assert init[k] == s[k]; }
      }
      DigitsPositive(init);
      CanonicalDigits(init);
      var v := DigitsValue(s);
      assert v == DigitsValue(init) * 10 + d;
      assert v / 10 == DigitsValue(init) && v % 10 == d;
      assert s == init + [last];
    }
  }

  /** `int(s)` on a digit string is the number whose decimal text is `s`
      without its leading zeros. */
  lemma ParseNatValue(s: string)
    requires ParseNat(s).Some?
    ensures NatToString(ParseNat(s).value) == DropLeadingZeros(s)
  {
    DropLeadingZerosValue(s);
    CanonicalDigits(DropLeadingZeros(s));
  }

  lemma DigitRoundTrip(d: nat)
    requires d < 10
    ensures DigitValue(DigitChar(d)) == d
  {
  }

  /** Reading back the decimal text of a number gives the number. */
  lemma {:induction false} NatToStringRoundTrip(n: nat)
    ensures ParseNat(NatToString(n)) == Some(n)
    decreases n
  {
    var s := NatToString(n);
    if n < 10 {
      DigitRoundTrip(n);
      assert s == [DigitChar(n)];
      assert s[..0] == [];
      assert DigitsValue(s) == DigitsValue([]) * 10 + DigitValue(DigitChar(n));
    } else {
      NatToStringRoundTrip(n / 10);
      DigitRoundTrip(n % 10);
      assert s[..|s| - 1] == NatToString(n / 10);
    }
  }
}
