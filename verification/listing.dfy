/** An idealised listing format that `parse_email_list` accepts, with lines
    separated by line feeds: per message a marker line (`✉` or `✓`, a blank,
    the subject), then optional `From:`, `Date:` and `Preview:` lines, and
    after the last message a `TOTAL EMAILS: n` line. It follows the shape of
    the tools' AppleScript listings without their indentation, headers and
    banners. Writing records in this format and parsing the text gives the
    records back. */
module EmailListing {
  import opened Common
  import opened Text
  import opened EmailParser

  /** Text that survives being written on a line and stripped again. */
  predicate LineSafe(s: string) {
    Stripped(s) && '\n' !in s
  }

  predicate OptionalLineSafe(v: Option<string>) {
    v.Some? ==> LineSafe(v.value)
  }

  /** A record the listing format can carry: subject and read flag set, and
      every text free of line breaks and surrounding whitespace. */
  predicate Listable(e: Email) {
    && e.subject.Some? && e.isRead.Some?
    && LineSafe(e.subject.value)
    && OptionalLineSafe(e.sender) && OptionalLineSafe(e.date) && OptionalLineSafe(e.preview)
  }

  /** Every record of the list is listable. */
  predicate AllListable(es: seq<Email>)
    decreases |es|
  {
    es == [] || (Listable(es[0]) && AllListable(es[1..]))
  }

  lemma {:induction false} AllListableAt(es: seq<Email>, i: nat)
    requires AllListable(es) && i < |es|
    ensures Listable(es[i])
    decreases i
  {
    if i > 0 {
      AllListableAt(es[1..], i - 1);
    }
  }

  /** The line that opens a record: its read marker, a blank, its subject. */
  function MarkerLine(e: Email): string {
    [if e.isRead == Some(true) then ReadMarker else UnreadMarker, ' '] + e.subject.GetOr("")
  }

  /** The line for one field, or no line when the field is unset. */
  function FieldLine(name: string, v: Option<string>): seq<string> {
    if v.Some? then [name + " " + v.value] else []
  }

  /** The lines written for one message. */
  function RecordLines(e: Email): seq<string> {
    [MarkerLine(e)] + FieldLine("From:", e.sender) + FieldLine("Date:", e.date) + FieldLine("Preview:", e.preview)
  }

  function ListingBody(es: seq<Email>): seq<string> {
    if es == [] then [] else RecordLines(es[0]) + ListingBody(es[1..])
  }

  /** The `TOTAL EMAILS` line that ends a listing of `n` records. */
  function TotalLine(n: nat): string {
    TotalPrefix + ": " + IntToString(n)
  }

  /** A whole listing: the records, then the `TOTAL EMAILS` line. */
  function Listing(es: seq<Email>): string {
    JoinWith(ListingBody(es) + [TotalLine(|es|)], "\n")
  }

  // ---------------------------------------------------------------------
  // What the parser should see: the classified lines of a listing

  /** The kind of a `From:` line, or nothing when the sender is unset. */
  function SenderKind(v: Option<string>): seq<LineKind> {
    if v.Some? then [SetsSender(v.value)] else []
  }

  function DateKind(v: Option<string>): seq<LineKind> {
    if v.Some? then [SetsDate(v.value)] else []
  }

  function PreviewKind(v: Option<string>): seq<LineKind> {
    if v.Some? then [SetsPreview(v.value)] else []
  }

  /** The kinds of the lines written for one message. */
  function RecordKinds(e: Email): seq<LineKind> {
    [Opens(e.isRead == Some(true), e.subject.GetOr(""))] + SenderKind(e.sender) + DateKind(e.date) + PreviewKind(e.preview)
  }

  function BodyKinds(es: seq<Email>): seq<LineKind> {
    if es == [] then [] else RecordKinds(es[0]) + BodyKinds(es[1..])
  }

  // ---------------------------------------------------------------------
  // Stripping the written lines

  /** The stripped marker line starts with its marker and carries the
      subject after the marker and the blank. */
  lemma MarkerLineParts(m: char, subject: string)
    requires !IsSpace(m) && LineSafe(subject)
    ensures Strip([m, ' '] + subject) != [] && Strip([m, ' '] + subject)[0] == m
    ensures Strip(DropPrefix(Strip([m, ' '] + subject), 2)) == subject
  {
    if subject == [] {
      assert [m, ' '] + subject == [m] + " ";
      StripDropsTrailingSpace([m]);
      assert DropPrefix([m], 2) == [];
      StripFixesStripped([]);
    } else {
      assert [m, ' '] + subject == [m] + (" " + subject);
      StripKeepsLine([m], " " + subject);
      assert ([m] + (" " + subject))[2..] == subject;
      StripFixesStripped(subject);
    }
  }

  /** The marker line of a record opens that record. */
  lemma MarkerLineOpens(e: Email)
    requires Listable(e)
    ensures KindOf(MarkerLine(e)) == Opens(e.isRead.value, e.subject.value)
  {
    var m := if e.isRead == Some(true) then ReadMarker else UnreadMarker;
    assert MarkerLine(e) == [m, ' '] + e.subject.value;
    MarkerLineParts(m, e.subject.value);
  }

  /** The stripped field line `name value` and the value it carries. */
  lemma FieldLineParts(name: string, v: string)
    requires |name| > 0 && !IsSpace(name[0]) && !IsSpace(name[|name| - 1])
    requires LineSafe(v)
    ensures StartsWith(Strip(name + " " + v), name)
    ensures Strip(Strip(name + " " + v)[|name|..]) == v
  {
    var line := Strip(name + " " + v);
    if v == [] {
      StripDropsTrailingSpace(name);
      assert name + " " + v == name + " ";
      assert line == name;
      assert line[..|name|] == name;
      StripFixesStripped([]);
    } else {
      StripKeepsLine(name, " " + v);
      assert name + " " + v == name + (" " + v);
      assert line[..|name|] == name;
      assert line[|name|..] == " " + v;
      StripLeadingSpace(v);
    }
  }

  lemma SenderLine(v: string)
    requires LineSafe(v)
    ensures KindOf("From:" + " " + v) == SetsSender(v)
  {
    FieldLineParts("From:", v);
    ClassifySender(Strip("From:" + " " + v));
  }

  lemma DateLine(v: string)
    requires LineSafe(v)
    ensures KindOf("Date:" + " " + v) == SetsDate(v)
  {
    FieldLineParts("Date:", v);
    ClassifyDate(Strip("Date:" + " " + v));
  }

  lemma PreviewLine(v: string)
    requires LineSafe(v)
    ensures KindOf("Preview:" + " " + v) == SetsPreview(v)
  {
    FieldLineParts("Preview:", v);
    ClassifyPreview(Strip("Preview:" + " " + v));
  }

  lemma TotalLineTerminates(n: nat)
    ensures KindOf(TotalLine(n)) == Terminates
  {
    var digits := IntToString(n);
    assert !IsSpace(digits[|digits| - 1]);
    StripKeepsLine(TotalPrefix + ": ", digits);
    var line := TotalPrefix + ": " + digits;
    assert line[..|TotalPrefix|] == TotalPrefix;
    ClassifyTotal(line);
  }

  // ---------------------------------------------------------------------
  // The written lines classify as intended

  lemma SenderKinds(v: Option<string>)
    requires OptionalLineSafe(v)
    ensures Kinds(FieldLine("From:", v)) == SenderKind(v)
  {
    if v.Some? {
      SenderLine(v.value);
      KindsSingle("From:" + " " + v.value);
    }
  }

  lemma DateKinds(v: Option<string>)
    requires OptionalLineSafe(v)
    ensures Kinds(FieldLine("Date:", v)) == DateKind(v)
  {
    if v.Some? {
      DateLine(v.value);
      KindsSingle("Date:" + " " + v.value);
    }
  }

  lemma PreviewKinds(v: Option<string>)
    requires OptionalLineSafe(v)
    ensures Kinds(FieldLine("Preview:", v)) == PreviewKind(v)
  {
    if v.Some? {
      PreviewLine(v.value);
      KindsSingle("Preview:" + " " + v.value);
    }
  }

  /** The lines of one listable record classify as its kinds. */
  lemma RecordLinesKinds(e: Email)
    requires Listable(e)
    ensures Kinds(RecordLines(e)) == RecordKinds(e)
  {
    var m := [MarkerLine(e)];
    var f1, f2, f3 := FieldLine("From:", e.sender), FieldLine("Date:", e.date), FieldLine("Preview:", e.preview);
    MarkerLineOpens(e);
    KindsSingle(MarkerLine(e));
    SenderKinds(e.sender);
    DateKinds(e.date);
    PreviewKinds(e.preview);
    KindsConcat(m + f1 + f2, f3);
    KindsConcat(m + f1, f2);
    KindsConcat(m, f1);
  }

  lemma {:induction false} ListingBodyKinds(es: seq<Email>)
    requires AllListable(es)
    ensures Kinds(ListingBody(es)) == BodyKinds(es)
    decreases |es|
  {
    if es != [] {
      RecordLinesKinds(es[0]);
      ListingBodyKinds(es[1..]);
      KindsConcat(RecordLines(es[0]), ListingBody(es[1..]));
    }
  }

  // ---------------------------------------------------------------------
  // Scanning the kinds of a listing

  lemma ScanField(st: ScanState, ks: seq<LineKind>, next: ScanState)
    requires !st.stopped
    requires ks == [] ==> next == st
    requires ks != [] ==> |ks| == 1 && next == Step(st, ks[0])
    ensures Scan(st, ks) == next
  {
    if ks != [] {
      ScanSingle(st, ks[0]);
    }
  }

  /** Scanning the kinds of one record closes the record open before it and
      leaves exactly this record open. */
  lemma RecordKindsScan(st: ScanState, e: Email)
    requires !st.stopped && e.subject.Some? && e.isRead.Some?
    ensures Scan(st, RecordKinds(e)) == ScanState(Flush(st.emails, st.current), e, false)
  {
    var k := Opens(e.isRead == Some(true), e.subject.GetOr(""));
    var f1 := SenderKind(e.sender);
    var f2 := DateKind(e.date);
    var f3 := PreviewKind(e.preview);
    var s0 := ScanState(Flush(st.emails, st.current), Email(e.subject, e.isRead, None, None, None), false);
    var s1 := s0.(current := s0.current.(sender := e.sender));
    var s2 := s1.(current := s1.current.(date := e.date));
    assert e.subject.GetOr("") == e.subject.value;
    assert Some(e.isRead == Some(true)) == e.isRead by {
      if e.isRead.value { } else { }
    }
    assert Step(st, k) == s0;
    ScanSingle(st, k);
    ScanField(s0, f1, s1);
    ScanField(s1, f2, s2);
    ScanField(s2, f3, s2.(current := e));
    assert RecordKinds(e) == [k] + (f1 + (f2 + f3));
    ScanConcat(st, [k], f1 + (f2 + f3));
    ScanConcat(s0, f1, f2 + f3);
    ScanConcat(s1, f2, f3);
  }

  /** Moving the first element of `es` to the end of `done`. */
  lemma AppendFront<T>(done: seq<T>, es: seq<T>)
    requires |es| > 1
    ensures done + [es[0]] + es[1..][..|es| - 2] == done + es[..|es| - 1]
    ensures es[1..][|es| - 2] == es[|es| - 1]
  {
    assert es[..|es| - 1] == [es[0]] + es[1..][..|es| - 2];
  }

  /** Scanning the records of a listing lists all but the last and leaves
      the last one open. */
  lemma {:induction false} BodyKindsScan(st: ScanState, es: seq<Email>)
    requires !st.stopped && es != [] && AllListable(es)
    ensures Scan(st, BodyKinds(es)) ==
            ScanState(Flush(st.emails, st.current) + es[..|es| - 1], es[|es| - 1], false)
    decreases |es|
  {
    var e, rest := es[0], es[1..];
    var done := Flush(st.emails, st.current);
    var s1 := ScanState(done, e, false);
    RecordKindsScan(st, e);
    ScanConcat(st, RecordKinds(e), BodyKinds(rest));
    if |es| == 1 {
      assert BodyKinds(rest) == [];
      assert es[..|es| - 1] == [];
    } else {
      BodyKindsScan(s1, rest);
      assert Flush(done, e) == done + [e];
      AppendFront(done, es);
    }
  }

  /** The last record is non-empty, so closing it appends it. */
  lemma LastRecordCloses(es: seq<Email>, st: ScanState)
    requires es != [] && Listable(es[|es| - 1])
    requires st.emails == es[..|es| - 1] && st.current == es[|es| - 1]
    ensures Flush(st.emails, st.current) == es
  {
    assert es[..|es| - 1] + [es[|es| - 1]] == es;
  }

  /** Scanning the kinds of a whole listing lists its records and stops. */
  lemma ListingKindsScan(es: seq<Email>)
    requires AllListable(es)
    ensures Scan(Initial, BodyKinds(es) + [Terminates]).emails == es
    ensures Scan(Initial, BodyKinds(es) + [Terminates]).stopped
    ensures es != [] ==> Scan(Initial, BodyKinds(es) + [Terminates]).current == es[|es| - 1]
  {
    ScanConcat(Initial, BodyKinds(es), [Terminates]);
    if es == [] {
      assert BodyKinds(es) == [];
      ScanSingle(Initial, Terminates);
    } else {
      NonEmptyListingScan(es, Scan(Initial, BodyKinds(es)));
    }
  }

  lemma NonEmptyListingScan(es: seq<Email>, st: ScanState)
    requires es != [] && AllListable(es)
    requires st == Scan(Initial, BodyKinds(es))
    ensures Scan(st, [Terminates]) == ScanState(es, es[|es| - 1], true)
  {
    BodyKindsScan(Initial, es);
    AllListableAt(es, |es| - 1);
    LastRecordCloses(es, st);
    ScanSingle(st, Terminates);
  }

  // ---------------------------------------------------------------------
  // The round trip

  /** The lines of a record are single lines. */
  lemma RecordLinesSingle(e: Email)
    requires Listable(e)
    ensures NoneContains(RecordLines(e), '\n')
  {
    var m := if e.isRead == Some(true) then ReadMarker else UnreadMarker;
    assert MarkerLine(e) == [m, ' '] + e.subject.value;
    forall name, v | (name == "From:" || name == "Date:" || name == "Preview:") && LineSafe(v)
      ensures '\n' !in name + " " + v {}
  }

  lemma {:induction false} ListingBodySingleLines(es: seq<Email>)
    requires AllListable(es)
    ensures NoneContains(ListingBody(es), '\n')
    decreases |es|
  {
    if es != [] {
      ListingBodySingleLines(es[1..]);
      RecordLinesSingle(es[0]);
      NoneContainsConcat(RecordLines(es[0]), ListingBody(es[1..]), '\n');
    }
  }

  lemma TotalLineSingle(n: nat)
    ensures '\n' !in TotalLine(n)
  {
    var digits := IntToString(n);
    assert TotalLine(n) == TotalPrefix + ": " + digits;
    assert forall k :: 0 <= k < |digits| ==> IsDigit(digits[k]);
  }

  /** Splitting a listing at line breaks gives back its lines. */
  lemma ListingLines(es: seq<Email>)
    requires AllListable(es)
    ensures SplitOn(Listing(es), "\n") == ListingBody(es) + [TotalLine(|es|)]
  {
    var lines := ListingBody(es) + [TotalLine(|es|)];
    ListingBodySingleLines(es);
    TotalLineSingle(|es|);
    NoneContainsConcat(ListingBody(es), [TotalLine(|es|)], '\n');
    JoinSplitLines(lines);
  }

  /** The lines of a listing classify as its records' kinds and a
      terminator. */
  lemma ListingKinds(es: seq<Email>)
    requires AllListable(es)
    ensures Kinds(SplitOn(Listing(es), "\n")) == BodyKinds(es) + [Terminates]
  {
    ListingLines(es);
    ListingBodyKinds(es);
    TotalLineTerminates(|es|);
    KindsSingle(TotalLine(|es|));
    KindsConcat(ListingBody(es), [TotalLine(|es|)]);
  }

  /** Parsing a listing written in this format gives back the records it was
      written from, with either final append. */
  lemma ListingRoundTrip(es: seq<Email>)
    requires AllListable(es)
    ensures ParseEmailList(Listing(es)) == es
    ensures ParseEmailListIntended(Listing(es)) == es
  {
    ListingKinds(es);
    ListingKindsScan(es);
    if es != [] {
      assert es[|es| - 1] in es;
    }
  }
}
