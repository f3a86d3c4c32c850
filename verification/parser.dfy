/** `parse_email_list` (src/apple_mail_mcp/apple_mail_mcp.py): turns a
    line-oriented listing, split at line feeds, into a list of email
    records. No tool of the server calls it; the tools return the
    AppleScript's text as it is.

    The Python code keeps a dictionary `current_email` that starts empty; a
    record-start line pushes the open dictionary (when it is non-empty) and
    opens a new one, field lines write one key of the open dictionary, and a
    `TOTAL EMAILS` line pushes the open dictionary and stops. At the end of
    the input the open dictionary is pushed once more unless it is empty or
    equal to a dictionary already in the list.

    What a line means does not depend on the parser's state, so the model
    classifies every stripped line first and runs the loop over the
    classified lines. */
module EmailParser {
  import opened Common
  import opened Text

  /** `✉`: a record for an unread message starts here. */
  const UnreadMarker: char := '\U{2709}'
  /** `✓`: a record for a read message starts here. */
  const ReadMarker: char := '\U{2713}'
  /** `=`, `━`, `📧` and `⚠`: banner and icon lines that are skipped. */
  const DecorationGlyphs: set<char> := {'=', '\U{2501}', '\U{1F4E7}', '\U{26A0}'}

  const TotalPrefix: string := "TOTAL EMAILS"

  /** One parsed record; a field is `None` when its dictionary key was never
      set. */
  datatype Email = Email(
    subject: Option<string>,
    isRead: Option<bool>,
    sender: Option<string>,
    date: Option<string>,
    preview: Option<string>)

  /** The empty dictionary: Python treats it as false. */
  const NoFields: Email := Email(None, None, None, None, None)

  /** What a stripped line means to the parser. */
  datatype LineKind =
    | Skipped                               // blank or decoration
    | Opens(isRead: bool, subject: string)  // record start
    | SetsSender(value: string)             // `From:`
    | SetsDate(value: string)               // `Date:`
    | SetsPreview(value: string)            // `Preview:`
    | Terminates                            // `TOTAL EMAILS`
    | Ignored                               // anything else

  /** The line without its first `n` characters; empty when the line is
      shorter than `n`. */
  function DropPrefix(line: string, n: nat): string {
    if n <= |line| then line[n..] else []
  }

  /** The branches of the loop body, in the order the code tests them, for a
      line that has already been stripped. */
  function Classify(line: string): (k: LineKind)
    ensures k == Skipped <==> line == [] || line[0] in DecorationGlyphs
    ensures k.Opens? <==> line != [] && (line[0] == UnreadMarker || line[0] == ReadMarker)
    ensures k.Opens? ==> k.isRead == (line[0] == ReadMarker) && k.subject == Strip(DropPrefix(line, 2))
  {
    if line == [] || line[0] in DecorationGlyphs then Skipped
    else if line[0] == UnreadMarker || line[0] == ReadMarker then
      Opens(line[0] == ReadMarker, Strip(DropPrefix(line, 2)))
    else if StartsWith(line, "From:") then SetsSender(Strip(line[5..]))
    else if StartsWith(line, "Date:") then SetsDate(Strip(line[5..]))
    else if StartsWith(line, "Preview:") then SetsPreview(Strip(line[8..]))
    else if StartsWith(line, TotalPrefix) then Terminates
    else Ignored
  }

  /** What a raw line of the output means: the line is stripped first and
      then classified. */
  function KindOf(line: string): LineKind {
    Classify(Strip(line))
  }

  /** Every line of the output, classified. */
  function Kinds(lines: seq<string>): (ks: seq<LineKind>)
    ensures |ks| == |lines|
  {
    seq(|lines|, i requires 0 <= i < |lines| => KindOf(lines[i]))
  }

  /** The parser's variables between two lines: the list built so far, the
      open dictionary and whether the loop has been left by `break`. */
  datatype ScanState = ScanState(emails: seq<Email>, current: Email, stopped: bool)

  const Initial: ScanState := ScanState([], NoFields, false)

  /** Closing the open record: it is appended unless it is still empty. */
  function Flush(emails: seq<Email>, current: Email): seq<Email> {
    if current != NoFields then emails + [current] else emails
  }

  /** One iteration of the loop body. */
  function Step(st: ScanState, k: LineKind): ScanState {
    match k
    case Skipped => st
    case Ignored => st
    case Opens(isRead, subject) =>
      st.(emails := Flush(st.emails, st.current),
          current := Email(Some(subject), Some(isRead), None, None, None))
    case SetsSender(v) => st.(current := st.current.(sender := Some(v)))
    case SetsDate(v) => st.(current := st.current.(date := Some(v)))
    case SetsPreview(v) => st.(current := st.current.(preview := Some(v)))
    case Terminates => st.(emails := Flush(st.emails, st.current), stopped := true)
  }

  /** The loop over the lines; nothing is scanned once it has stopped. */
  function Scan(st: ScanState, ks: seq<LineKind>): (r: ScanState)
    ensures st.stopped ==> r == st
    decreases |ks|
  {
    if st.stopped || ks == [] then st else Scan(Step(st, ks[0]), ks[1..])
  }

  /** The step after the loop, as written: the open record is appended when
      it is non-empty and no equal record is already in the list. */
  function Finish(st: ScanState): seq<Email> {
    if st.current != NoFields && st.current !in st.emails then st.emails + [st.current] else st.emails
  }

  /** The parse of output already split into lines; `TerminatorEndsParse`,
      `NoRecordLinesNoRecords` and `BlankLinesNoRecords` characterise it. */
  function ParseLines(lines: seq<string>): seq<Email> {
    Finish(Scan(Initial, Kinds(lines)))
  }

  /** `parse_email_list(output)`. */
  function ParseEmailList(output: string): seq<Email> {
    ParseLines(SplitOn(output, "\n"))
  }

  // ---------------------------------------------------------------------
  // Classification of the field lines

  /** The field prefixes: a line is a field line exactly when it starts with
      its field's prefix, and the value is the stripped rest of the line. */
  lemma ClassifyFieldLines(line: string)
    ensures Classify(line).SetsSender? <==> StartsWith(line, "From:")
    ensures Classify(line).SetsSender? ==> Classify(line).value == Strip(line[5..])
    ensures Classify(line).SetsDate? <==> StartsWith(line, "Date:")
    ensures Classify(line).SetsDate? ==> Classify(line).value == Strip(line[5..])
    ensures Classify(line).SetsPreview? <==> StartsWith(line, "Preview:")
    ensures Classify(line).SetsPreview? ==> Classify(line).value == Strip(line[8..])
    ensures Classify(line).Terminates? <==> StartsWith(line, TotalPrefix)
  {
    if StartsWith(line, "From:") { ClassifySender(line); }
    if StartsWith(line, "Date:") { ClassifyDate(line); }
    if StartsWith(line, "Preview:") { ClassifyPreview(line); }
    if StartsWith(line, TotalPrefix) { ClassifyTotal(line); }
  }

  lemma ClassifySender(line: string)
    requires StartsWith(line, "From:")
    ensures Classify(line) == SetsSender(Strip(line[5..]))
  {
    assert line[0] == 'F';
  }

  lemma ClassifyDate(line: string)
    requires StartsWith(line, "Date:")
    ensures Classify(line) == SetsDate(Strip(line[5..]))
  {
    assert line[0] == 'D';
    FirstCharRulesOut(line, "From:");
  }

  lemma ClassifyPreview(line: string)
    requires StartsWith(line, "Preview:")
    ensures Classify(line) == SetsPreview(Strip(line[8..]))
  {
    assert line[0] == 'P';
    FirstCharRulesOut(line, "From:");
    FirstCharRulesOut(line, "Date:");
  }

  lemma ClassifyTotal(line: string)
    requires StartsWith(line, TotalPrefix)
    ensures Classify(line) == Terminates
  {
    assert line[0] == 'T';
    FirstCharRulesOut(line, "From:");
    FirstCharRulesOut(line, "Date:");
    FirstCharRulesOut(line, "Preview:");
  }

  // ---------------------------------------------------------------------
  // The loop is a fold

  /** Classifying two blocks of lines is classifying each. */
  lemma KindsConcat(a: seq<string>, b: seq<string>)
    ensures Kinds(a + b) == Kinds(a) + Kinds(b)
  {
    var ks := Kinds(a + b);
    forall i | 0 <= i < |ks| ensures ks[i] == (Kinds(a) + Kinds(b))[i] {
      if i < |a| { assert (a + b)[i] == a[i]; } else { assert (a + b)[i] == b[i - |a|]; }
    }
  }

  lemma KindsSingle(line: string)
    ensures Kinds([line]) == [KindOf(line)]
  {
  }

  /** Scanning two blocks of lines is scanning the first, then the second
      from where the first left off. */
  lemma {:induction false} ScanConcat(st: ScanState, a: seq<LineKind>, b: seq<LineKind>)
    ensures Scan(st, a + b) == Scan(Scan(st, a), b)
    decreases |a|
  {
    if st.stopped || a == [] {
      assert a == [] ==> a + b == b;
    } else {
      assert (a + b)[0] == a[0];
      assert (a + b)[1..] == a[1..] + b;
      ScanConcat(Step(st, a[0]), a[1..], b);
    }
  }

  lemma ScanSingle(st: ScanState, k: LineKind)
    requires !st.stopped
    ensures Scan(st, [k]) == Step(st, k)
  {
    assert [k][1..] == [];
  }

  /** Scanning only ever appends records: none is removed or reordered. */
  lemma {:induction false} ScanKeepsRecords(st: ScanState, ks: seq<LineKind>)
    ensures st.emails <= Scan(st, ks).emails
    decreases |ks|
  {
    if !st.stopped && ks != [] {
      ScanKeepsRecords(Step(st, ks[0]), ks[1..]);
    }
  }

  /** The records of an earlier part of the output come before those of a
      later part. */
  lemma OutputOrderFollowsInput(a: seq<string>, b: seq<string>)
    ensures Scan(Initial, Kinds(a)).emails <= Scan(Initial, Kinds(a + b)).emails
  {
    KindsConcat(a, b);
    ScanConcat(Initial, Kinds(a), Kinds(b));
    ScanKeepsRecords(Scan(Initial, Kinds(a)), Kinds(b));
  }

  // ---------------------------------------------------------------------
  // The terminator

  /** At a `TOTAL EMAILS` line the open record is appended, exactly once,
      and no later line has any effect. */
  lemma TerminatorEndsParse(pre: seq<string>, t: string, post: seq<string>)
    requires KindOf(t) == Terminates
    requires !Scan(Initial, Kinds(pre)).stopped
    ensures ParseLines(pre + [t] + post) == Flush(Scan(Initial, Kinds(pre)).emails, Scan(Initial, Kinds(pre)).current)
  {
    var st := Scan(Initial, Kinds(pre));
    KindsConcat(pre + [t], post);
    KindsConcat(pre, [t]);
    KindsSingle(t);
    ScanConcat(Initial, Kinds(pre) + [Terminates], Kinds(post));
    ScanConcat(Initial, Kinds(pre), [Terminates]);
    ScanSingle(st, Terminates);
    var after := Scan(Initial, Kinds(pre) + [Terminates]);
    assert after == ScanState(Flush(st.emails, st.current), st.current, true);
    if after.current != NoFields {
      assert after.emails[|after.emails| - 1] == st.current;
    }
  }

  /** Lines after the first `TOTAL EMAILS` line never affect the result. */
  lemma LinesAfterTerminatorIgnored(pre: seq<string>, t: string, post: seq<string>)
    requires KindOf(t) == Terminates
    ensures ParseLines(pre + [t] + post) == ParseLines(pre + [t])
  {
    KindsConcat(pre + [t], post);
    KindsConcat(pre, [t]);
    KindsSingle(t);
    ScanConcat(Initial, Kinds(pre) + [Terminates], Kinds(post));
    ScanConcat(Initial, Kinds(pre), [Terminates]);
    var st := Scan(Initial, Kinds(pre));
    if !st.stopped {
      ScanSingle(st, Terminates);
    }
  }

  /** The same, stated on the text: whatever follows a terminator line is
      never scanned. */
  lemma TextAfterTerminatorIgnored(head: string, t: string, tail: string)
    requires '\n' !in t
    requires KindOf(t) == Terminates
    ensures ParseEmailList(head + "\n" + t + "\n" + tail) == ParseEmailList(head + "\n" + t)
  {
    SplitCharConcat(head + "\n" + t, '\n', tail);
    assert head + "\n" + t + "\n" + tail == (head + "\n" + t) + ['\n'] + tail;
    SplitCharConcat(head, '\n', t);
    assert head + "\n" + t == head + ['\n'] + t;
    SplitCharAbsent(t, '\n');
    var pre := SplitOn(head, "\n");
    assert SplitOn(head + "\n" + t, "\n") == pre + [t];
    LinesAfterTerminatorIgnored(pre, t, SplitOn(tail, "\n"));
  }

  /** A terminator on the first line of the text: everything after it is
      ignored too. */
  lemma FirstLineTerminatorIgnoresRest(t: string, tail: string)
    requires '\n' !in t
    requires KindOf(t) == Terminates
    ensures ParseEmailList(t + "\n" + tail) == ParseEmailList(t)
  {
    SplitCharConcat(t, '\n', tail);
    assert t + "\n" + tail == t + ['\n'] + tail;
    SplitCharAbsent(t, '\n');
    LinesAfterTerminatorIgnored([], t, SplitOn(tail, "\n"));
    assert [] + [t] == [t];
  }

  // ---------------------------------------------------------------------
  // Empty results

  /** A line that opens a record or sets one of its fields. */
  predicate MakesRecord(k: LineKind) {
    k.Opens? || k.SetsSender? || k.SetsDate? || k.SetsPreview?
  }

  /** Output in which no line opens a record or sets a field yields no
      records at all. */
  lemma NoRecordLinesNoRecords(lines: seq<string>)
    requires forall i :: 0 <= i < |lines| ==> !MakesRecord(KindOf(lines[i]))
    ensures ParseLines(lines) == []
  {
    ScanWithoutRecords(Initial, Kinds(lines));
  }

  lemma {:induction false} ScanWithoutRecords(st: ScanState, ks: seq<LineKind>)
    requires st.emails == [] && st.current == NoFields
    requires forall i :: 0 <= i < |ks| ==> !MakesRecord(ks[i])
    ensures Scan(st, ks).emails == [] && Scan(st, ks).current == NoFields
    decreases |ks|
  {
    if !st.stopped && ks != [] {
      assert !MakesRecord(ks[0]);
      ScanWithoutRecords(Step(st, ks[0]), ks[1..]);
    }
  }

  /** The empty reply parses to the empty list. */
  lemma EmptyOutputNoRecords()
    ensures ParseEmailList("") == []
  {
    assert SplitOn("", "\n") == [""];
    BlankLinesNoRecords([""]);
  }

  /** Only blank lines: no records. */
  lemma BlankLinesNoRecords(lines: seq<string>)
    requires forall i :: 0 <= i < |lines| ==> AllSpace(lines[i])
    ensures ParseLines(lines) == []
  {
    forall i | 0 <= i < |lines| ensures !MakesRecord(KindOf(lines[i])) {
      BlankLineSkipped(lines[i]);
    }
    NoRecordLinesNoRecords(lines);
  }

  lemma BlankLineSkipped(line: string)
    requires AllSpace(line)
    ensures KindOf(line) == Skipped
  {
    StripPadded(line, [], []);
    assert line + [] + [] == line;
  }

  // ---------------------------------------------------------------------
  // Field lines

  /** A line that writes one field of the open record. */
  predicate IsFieldLine(k: LineKind) {
    k.SetsSender? || k.SetsDate? || k.SetsPreview?
  }

  /** Both kinds write the same field. */
  predicate SameField(k1: LineKind, k2: LineKind) {
    || (k1.SetsSender? && k2.SetsSender?)
    || (k1.SetsDate? && k2.SetsDate?)
    || (k1.SetsPreview? && k2.SetsPreview?)
  }

  /** A field line changes only its own field of the open record: the list
      built so far and every other field stay as they were. */
  lemma FieldLineSetsOnlyItsField(st: ScanState, line: string)
    requires IsFieldLine(KindOf(line))
    ensures Step(st, KindOf(line)).emails == st.emails && Step(st, KindOf(line)).stopped == st.stopped
    ensures Step(st, KindOf(line)).current.subject == st.current.subject
    ensures Step(st, KindOf(line)).current.isRead == st.current.isRead
    ensures KindOf(line).SetsSender? ==>
              Step(st, KindOf(line)).current.sender == Some(Strip(Strip(line)[5..]))
              && Step(st, KindOf(line)).current.date == st.current.date
              && Step(st, KindOf(line)).current.preview == st.current.preview
    ensures KindOf(line).SetsDate? ==>
              Step(st, KindOf(line)).current.date == Some(Strip(Strip(line)[5..]))
              && Step(st, KindOf(line)).current.sender == st.current.sender
              && Step(st, KindOf(line)).current.preview == st.current.preview
    ensures KindOf(line).SetsPreview? ==>
              Step(st, KindOf(line)).current.preview == Some(Strip(Strip(line)[8..]))
              && Step(st, KindOf(line)).current.sender == st.current.sender
              && Step(st, KindOf(line)).current.date == st.current.date
  {
    ClassifyFieldLines(Strip(line));
  }

  /** No line of the block opens or closes a record: every line is skipped,
      ignored or a field line. */
  predicate InsideRecord(ks: seq<LineKind>) {
    forall i :: 0 <= i < |ks| ==> !ks[i].Opens? && !ks[i].Terminates?
  }

  /** Two states that agree everywhere except, possibly, in the field that
      kind `k` writes. */
  predicate AgreeBut(s: ScanState, t: ScanState, k: LineKind) {
    && s.emails == t.emails && s.stopped == t.stopped
    && s.current.subject == t.current.subject && s.current.isRead == t.current.isRead
    && (!k.SetsSender? ==> s.current.sender == t.current.sender)
    && (!k.SetsDate? ==> s.current.date == t.current.date)
    && (!k.SetsPreview? ==> s.current.preview == t.current.preview)
  }

  /** Scanning lines inside a record keeps two such states in step and does
      not stop the scan. */
  lemma {:induction false} ScanAgreeBut(s: ScanState, t: ScanState, k: LineKind, ks: seq<LineKind>)
    requires IsFieldLine(k) && AgreeBut(s, t, k) && InsideRecord(ks)
    ensures AgreeBut(Scan(s, ks), Scan(t, ks), k)
    ensures Scan(s, ks).stopped == s.stopped
    decreases |ks|
  {
    if !s.stopped && ks != [] {
      assert InsideRecord(ks[1..]) by {
        forall i | 0 <= i < |ks[1..]| ensures !ks[1..][i].Opens? && !ks[1..][i].Terminates? {
          assert ks[1..][i] == ks[i + 1];
        }
      }
      ScanAgreeBut(Step(s, ks[0]), Step(t, ks[0]), k, ks[1..]);
    }
  }

  /** On classified lines: a later write of the same field makes an earlier
      one irrelevant, whatever lines inside the record stand between them. */
  lemma FieldOverwrittenLater(st: ScanState, k1: LineKind, ks: seq<LineKind>, k2: LineKind)
    requires SameField(k1, k2) && InsideRecord(ks)
    ensures Scan(st, [k1] + ks + [k2]) == Scan(st, ks + [k2])
  {
    if !st.stopped {
      ScanConcat(st, [k1] + ks, [k2]);
      ScanConcat(st, [k1], ks);
      ScanConcat(st, ks, [k2]);
      ScanSingle(st, k1);
      ScanAgreeBut(Step(st, k1), st, k1, ks);
      ScanSingle(Scan(Step(st, k1), ks), k2);
      ScanSingle(Scan(st, ks), k2);
    }
  }

  /** A later line for the same field overwrites the earlier one, whatever
      skipped, ignored or other field lines stand between them: the earlier
      line might as well not be there. */
  lemma LaterFieldLineOverwrites(st: ScanState, first: string, mid: seq<string>, second: string)
    requires SameField(KindOf(first), KindOf(second))
    requires forall i :: 0 <= i < |mid| ==> !KindOf(mid[i]).Opens? && !KindOf(mid[i]).Terminates?
    ensures Scan(st, Kinds([first] + mid + [second])) == Scan(st, Kinds(mid + [second]))
  {
    KindsConcat([first] + mid, [second]);
    KindsConcat([first], mid);
    KindsConcat(mid, [second]);
    KindsSingle(first);
    KindsSingle(second);
    assert InsideRecord(Kinds(mid));
    FieldOverwrittenLater(st, KindOf(first), Kinds(mid), KindOf(second));
  }

  /** A field line before any record-start line writes into the empty
      dictionary and so makes a record of its own, without subject or read
      flag. */
  lemma FieldLineWithoutRecord(line: string)
    requires IsFieldLine(KindOf(line))
    ensures |ParseLines([line])| == 1
    ensures ParseLines([line])[0].subject.None? && ParseLines([line])[0].isRead.None?
    ensures KindOf(line).SetsSender? ==> ParseLines([line])[0].sender == Some(KindOf(line).value)
    ensures KindOf(line).SetsDate? ==> ParseLines([line])[0].date == Some(KindOf(line).value)
    ensures KindOf(line).SetsPreview? ==> ParseLines([line])[0].preview == Some(KindOf(line).value)
  {
    KindsSingle(line);
    ScanSingle(Initial, KindOf(line));
  }

  // ---------------------------------------------------------------------
  // The final append

  /** The record a record-start line opens. */
  function Opened(k: LineKind): Email
    requires k.Opens?
  {
    Email(Some(k.subject), Some(k.isRead), None, None, None)
  }

  /** As written, the final append compares the open record with every record
      already in the list: a message whose fields equal those of an earlier
      message is dropped when the output has no `TOTAL EMAILS` line, but kept
      when it has one. */
  lemma RepeatedRecordDroppedWithoutTotal(l: string, t: string)
    requires KindOf(l).Opens? && KindOf(t) == Terminates
    ensures ParseLines([l, l]) == [Opened(KindOf(l))]
    ensures ParseLines([l, l, t]) == [Opened(KindOf(l)), Opened(KindOf(l))]
  {
    assert Kinds([l, l]) == [KindOf(l), KindOf(l)];
    assert Kinds([l, l, t]) == [KindOf(l), KindOf(l), Terminates];
    RepeatedOpenScan(KindOf(l));
  }

  lemma RepeatedOpenScan(k: LineKind)
    requires k.Opens?
    ensures Scan(Initial, [k, k]) == ScanState([Opened(k)], Opened(k), false)
    ensures Scan(Initial, [k, k, Terminates]) == ScanState([Opened(k), Opened(k)], Opened(k), true)
  {
    var e := Opened(k);
    var s1 := Step(Initial, k);
    var s2 := Step(s1, k);
    assert s2 == ScanState([e], e, false);
    ScanConcat(Initial, [k], [k]);
    ScanSingle(Initial, k);
    ScanSingle(s1, k);
    ScanConcat(Initial, [k, k], [Terminates]);
    ScanSingle(s2, Terminates);
  }

  /** Two unread messages with subject `A` and nothing else. */
  lemma TwoEqualMessagesBecomeOne()
    ensures ParseLines([UnreadA, UnreadA]) == [Email(Some("A"), Some(false), None, None, None)]
  {
    UnreadAOpens();
    TotalPrefixTerminates();
    RepeatedRecordDroppedWithoutTotal(UnreadA, TotalPrefix);
  }

  const UnreadA: string := [UnreadMarker, ' ', 'A']

  lemma UnreadAOpens()
    ensures KindOf(UnreadA) == Opens(false, "A")
  {
    StripFixesStripped(UnreadA);
    assert DropPrefix(UnreadA, 2) == "A";
    StripFixesStripped("A");
  }

  lemma TotalPrefixTerminates()
    ensures KindOf(TotalPrefix) == Terminates
  {
    StripFixesStripped(TotalPrefix);
    assert TotalPrefix[..|TotalPrefix|] == TotalPrefix;
    ClassifyTotal(TotalPrefix);
  }

  /** The evident intent of the final append: add the open record unless the
      `TOTAL EMAILS` line has already added it. */
  function FinishIntended(st: ScanState): seq<Email> {
    if st.stopped then st.emails else Flush(st.emails, st.current)
  }

  function ParseLinesIntended(lines: seq<string>): seq<Email> {
    FinishIntended(Scan(Initial, Kinds(lines)))
  }

  function ParseEmailListIntended(output: string): seq<Email> {
    ParseLinesIntended(SplitOn(output, "\n"))
  }

  /** The number of record-start lines before the first `TOTAL EMAILS`. */
  function OpensCount(ks: seq<LineKind>): nat {
    if ks == [] || ks[0].Terminates? then 0
    else (if ks[0].Opens? then 1 else 0) + OpensCount(ks[1..])
  }

  /** No field line comes before the first record-start line (a field line
      with no open record would start a record of its own). */
  predicate FieldsFollowOpen(ks: seq<LineKind>) {
    ks == [] || ks[0].Opens? || ks[0].Terminates? || (!IsFieldLine(ks[0]) && FieldsFollowOpen(ks[1..]))
  }

  /** Intended: one record per record-start line, whether or not the output
      ends with a `TOTAL EMAILS` line and whatever the records contain. */
  lemma OneRecordPerOpeningLine(lines: seq<string>)
    requires FieldsFollowOpen(Kinds(lines))
    ensures |ParseLinesIntended(lines)| == OpensCount(Kinds(lines))
  {
    ScanCountsOpens(Initial, Kinds(lines));
  }

  lemma {:induction false} ScanCountsOpens(st: ScanState, ks: seq<LineKind>)
    requires !st.stopped
    requires st.current == NoFields ==> FieldsFollowOpen(ks)
    ensures |FinishIntended(Scan(st, ks))| ==
            |st.emails| + (if st.current != NoFields then 1 else 0) + OpensCount(ks)
    decreases |ks|
  {
    if ks != [] && !ks[0].Terminates? {
      ScanCountsOpens(Step(st, ks[0]), ks[1..]);
    }
  }

  /** Once the open record is empty or already listed, the final append adds
      nothing; a stopped scan is always in that state. */
  predicate Closed(st: ScanState) {
    st.stopped ==> st.current == NoFields || st.current in st.emails
  }

  lemma {:induction false} ScanClosed(st: ScanState, ks: seq<LineKind>)
    requires Closed(st)
    ensures Closed(Scan(st, ks))
    decreases |ks|
  {
    if !st.stopped && ks != [] {
      var s1 := Step(st, ks[0]);
      if ks[0].Terminates? && st.current != NoFields {
        assert s1.emails[|s1.emails| - 1] == st.current;
      }
      ScanClosed(s1, ks[1..]);
    }
  }

  /** The two finals agree whenever the output has a `TOTAL EMAILS` line. */
  lemma IntendedAgreesAfterTotal(lines: seq<string>)
    requires Scan(Initial, Kinds(lines)).stopped
    ensures ParseLinesIntended(lines) == ParseLines(lines)
  {
    ScanClosed(Initial, Kinds(lines));
  }
}
