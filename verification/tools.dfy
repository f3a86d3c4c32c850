/** String fragments the tools of src/apple_mail_mcp/apple_mail_mcp.py build
    before they hand a script to AppleScript: the nested mailbox reference of
    `move_email`, the filter condition of `search_emails`,
    `update_email_status` and `manage_trash`, the subject keyword cleaned by
    `get_email_thread`, and the `INBOX` test of
    `get_mailbox_applescript_snippet`. */
module ToolText {
  import opened Common
  import opened Text

  // ---------------------------------------------------------------------
  // move_email: `a/b/c` becomes `mailbox "c" of mailbox "b" of mailbox "a" of targetAccount`

  /** One `mailbox "<name>" of ` segment. */
  function MailboxClause(name: string): string {
    "mailbox \"" + name + "\" of "
  }

  /** The segments for `parts[hi - 1]`, `parts[hi - 2]`, ..., `parts[lo]`,
      in that order. */
  function ClausesDown(parts: seq<string>, hi: nat, lo: nat): string
    requires hi <= |parts|
    decreases hi - lo
  {
    if hi <= lo then [] else ClausesDown(parts, hi, lo + 1) + MailboxClause(parts[lo])
  }

  /** The destination reference as the tool builds it: split at `/`; for
      more than one part, the last part's segment and then the others from
      the second-to-last down to the first; otherwise one segment with the
      whole name. */
  function MailboxReference(toMailbox: string): string {
    var parts := SplitOn(toMailbox, "/");
    if |parts| > 1 then
      MailboxClause(parts[|parts| - 1]) + ClausesDown(parts, |parts| - 1, 0) + "targetAccount"
    else
      MailboxClause(toMailbox) + "targetAccount"
  }

  /** The loop of `move_email` that builds the reference. */
  method BuildMailboxReference(toMailbox: string) returns (script: string)
    ensures script == MailboxReference(toMailbox)
  {
    var parts := SplitOn(toMailbox, "/");
    if |parts| > 1 {
      script := MailboxClause(parts[|parts| - 1]);
      var i: int := |parts| - 2;
      while i >= 0
        invariant -1 <= i <= |parts| - 2
        invariant script == MailboxClause(parts[|parts| - 1]) + ClausesDown(parts, |parts| - 1, i + 1)
        decreases i
      {
        assert ClausesDown(parts, |parts| - 1, i) ==
               ClausesDown(parts, |parts| - 1, i + 1) + MailboxClause(parts[i]);
        script := script + MailboxClause(parts[i]);
        i := i - 1;
      }
      script := script + "targetAccount";
    } else {
      script := MailboxClause(toMailbox) + "targetAccount";
    }
  }

  /** The reversed sequence. */
  function Reverse<T>(s: seq<T>): (r: seq<T>)
    ensures |r| == |s|
    ensures forall i :: 0 <= i < |s| ==> r[i] == s[|s| - 1 - i]
  {
    if s == [] then [] else Reverse(s[1..]) + [s[0]]
  }

  /** One segment per name, in the order given. */
  function ClauseChain(names: seq<string>): string {
    if names == [] then [] else MailboxClause(names[0]) + ClauseChain(names[1..])
  }

  lemma {:induction false} ClauseChainSnoc(names: seq<string>, name: string)
    ensures ClauseChain(names + [name]) == ClauseChain(names) + MailboxClause(name)
    decreases |names|
  {
    if names == [] {
      assert [name][1..] == [];
    } else {
      assert (names + [name])[1..] == names[1..] + [name];
      ClauseChainSnoc(names[1..], name);
    }
  }

  /** The segments taken downwards are the segments of the reversed parts. */
  lemma {:induction false} ClausesDownReversed(parts: seq<string>, hi: nat, lo: nat)
    requires lo <= hi <= |parts|
    ensures ClausesDown(parts, hi, lo) == ClauseChain(Reverse(parts[lo..hi]))
    decreases hi - lo
  {
    if lo < hi {
      ClausesDownReversed(parts, hi, lo + 1);
      var r := Reverse(parts[lo + 1..hi]);
      assert Reverse(parts[lo..hi]) == r + [parts[lo]] by {
        assert parts[lo..hi][1..] == parts[lo + 1..hi];
      }
      ClauseChainSnoc(r, parts[lo]);
    }
  }

  /** For every destination, the reference has one segment per `/`-separated
      part, last part first, and ends in `targetAccount`; the one-part branch
      is the same rule. */
  lemma MailboxReferenceSegments(toMailbox: string)
    ensures MailboxReference(toMailbox) ==
            ClauseChain(Reverse(SplitOn(toMailbox, "/"))) + "targetAccount"
  {
    var parts := SplitOn(toMailbox, "/");
    var n := |parts|;
    if n > 1 {
      ClausesDownReversed(parts, n, 0);
      assert Reverse(parts) == [parts[n - 1]] + Reverse(parts[..n - 1]) by {
        assert parts[0..n - 1] == parts[..n - 1];
      }
      ClausesDownReversed(parts, n - 1, 0);
      assert parts[0..n - 1] == parts[..n - 1];
      assert ClauseChain(Reverse(parts)) ==
             MailboxClause(parts[n - 1]) + ClauseChain(Reverse(parts[..n - 1]));
    } else {
      SplitJoin(toMailbox, "/");
      assert parts[0] == toMailbox;
      assert Reverse(parts) == [toMailbox];
      assert ClauseChain([toMailbox]) == MailboxClause(toMailbox) + ClauseChain([]);
    }
  }

  /** A name without `/` is a top-level mailbox. */
  lemma TopLevelMailbox(name: string)
    requires '/' !in name
    ensures MailboxReference(name) == "mailbox \"" + name + "\" of targetAccount"
  {
    SplitCharAbsent(name, '/');
    assert "/" == ['/'];
  }

  // ---------------------------------------------------------------------
  // The filter condition: the conditions joined with ` and `, or `true` when
  // there are none

  /** Python's truth value of an optional string parameter. */
  predicate Given(v: Option<string>) {
    v.Some? && v.value != []
  }

  function SubjectCondition(keyword: string): string {
    "messageSubject contains \"" + keyword + "\""
  }

  function SenderCondition(sender: string): string {
    "messageSender contains \"" + sender + "\""
  }

  const WithAttachments: string := "(count of mail attachments of aMessage) > 0"
  const WithoutAttachments: string := "(count of mail attachments of aMessage) = 0"
  const IsRead: string := "messageRead is true"
  const IsUnread: string := "messageRead is false"

  /** The filters of `search_emails`. The two date filters are accepted and
      documented but never read: the condition is built from the other four
      alone (see `DateFiltersIgnored`). */
  datatype SearchFilter = SearchFilter(
    subjectKeyword: Option<string>,
    sender: Option<string>,
    hasAttachments: Option<bool>,
    readStatus: string,
    dateFrom: Option<string>,
    dateTo: Option<string>)

  /** The subject and sender conditions, as `update_email_status` and
      `manage_trash` build them. */
  function FieldConditions(subjectKeyword: Option<string>, sender: Option<string>): seq<string> {
    (if Given(subjectKeyword) then [SubjectCondition(subjectKeyword.value)] else [])
      + (if Given(sender) then [SenderCondition(sender.value)] else [])
  }

  /** The conditions of `search_emails`. */
  function SearchConditions(f: SearchFilter): seq<string> {
    FieldConditions(f.subjectKeyword, f.sender)
      + (match f.hasAttachments
         case None => []
         case Some(has) => [if has then WithAttachments else WithoutAttachments])
      + (if f.readStatus == "read" then [IsRead]
         else if f.readStatus == "unread" then [IsUnread]
         else [])
  }

  /** The conditions joined into one AppleScript condition. */
  function ConditionString(conditions: seq<string>): string {
    if conditions == [] then "true" else JoinWith(conditions, " and ")
  }

  /** No filter means every message: the search with neither attachment nor
      read filter uses exactly the condition of the other two tools. */
  lemma SearchWithoutExtrasIsFieldFilter(subjectKeyword: Option<string>, sender: Option<string>, readStatus: string)
    requires readStatus != "read" && readStatus != "unread"
    ensures SearchConditions(SearchFilter(subjectKeyword, sender, None, readStatus, None, None)) ==
            FieldConditions(subjectKeyword, sender)
  {
  }

  /** A joined condition starts with the first condition. */
  lemma JoinStartsWithFirst(conditions: seq<string>, sep: string)
    requires conditions != [] && conditions[0] != []
    ensures JoinWith(conditions, sep) != [] && JoinWith(conditions, sep)[0] == conditions[0][0]
  {
  }

  /** Each condition starts with `m` or `(`. */
  predicate ConditionShaped(c: string) {
    c != [] && (c[0] == 'm' || c[0] == '(')
  }

  lemma SearchConditionsShaped(f: SearchFilter)
    ensures forall i :: 0 <= i < |SearchConditions(f)| ==> ConditionShaped(SearchConditions(f)[i])
  {
    forall k: string ensures ConditionShaped(SubjectCondition(k)) && ConditionShaped(SenderCondition(k)) {
      assert SubjectCondition(k)[0] == 'm' && SenderCondition(k)[0] == 'm';
    }
  }

  /** The condition is the always-true `true` exactly when the caller gave
      none of the four filters the condition reads. */
  lemma SearchMatchesAllIffNoFilter(f: SearchFilter)
    ensures ConditionString(SearchConditions(f)) == "true" <==>
            !Given(f.subjectKeyword) && !Given(f.sender) && f.hasAttachments.None?
            && f.readStatus != "read" && f.readStatus != "unread"
  {
    var cs := SearchConditions(f);
    if cs != [] {
      SearchConditionsShaped(f);
      JoinStartsWithFirst(cs, " and ");
      assert "true"[0] == 't';
    }
  }

  /** The date filters change nothing: whatever dates are given, the
      conditions are those of the other four filters, so a search by date
      alone matches every message of the mailbox. */
  lemma DateFiltersIgnored(f: SearchFilter, dateFrom: Option<string>, dateTo: Option<string>)
    ensures SearchConditions(f.(dateFrom := dateFrom, dateTo := dateTo)) == SearchConditions(f)
    ensures ConditionString(SearchConditions(SearchFilter(None, None, None, "all", dateFrom, dateTo))) == "true"
  {
  }

  lemma FieldFilterMatchesAllIffNone(subjectKeyword: Option<string>, sender: Option<string>)
    ensures ConditionString(FieldConditions(subjectKeyword, sender)) == "true" <==>
            !Given(subjectKeyword) && !Given(sender)
  {
    SearchMatchesAllIffNoFilter(SearchFilter(subjectKeyword, sender, None, "all", None, None));
  }

  /** One more condition is conjoined with `and` to the ones before it. */
  lemma ConditionConjoins(conditions: seq<string>, c: string)
    requires conditions != []
    ensures ConditionString(conditions + [c]) == ConditionString(conditions) + " and " + c
  {
    JoinWithSnoc(conditions, c, " and ");
  }

  // ---------------------------------------------------------------------
  // get_email_thread: reply and forward prefixes removed from the keyword

  const ThreadPrefixes: seq<string> := ["Re:", "Fwd:", "FW:", "RE:", "Fw:"]

  /** One pass of the loop: every occurrence of prefix `i` removed, then the
      keyword stripped. */
  function CleanPass(keyword: string, i: nat): (r: string)
    requires i < |ThreadPrefixes|
    ensures Stripped(r) && |r| <= |keyword|
  {
    RemoveShortens(keyword, ThreadPrefixes[i]);
    Strip(Replace(keyword, ThreadPrefixes[i], ""))
  }

  /** The passes of the loop from prefix `i` on. */
  function CleanFrom(keyword: string, i: nat): string
    requires i <= |ThreadPrefixes|
    decreases |ThreadPrefixes| - i
  {
    if i == |ThreadPrefixes| then keyword
    else CleanFrom(CleanPass(keyword, i), i + 1)
  }

  /** The cleaned subject keyword; the last pass strips it, and no pass
      lengthens it. */
  function CleanThreadKeyword(keyword: string): (r: string)
    ensures Stripped(r)
    ensures |r| <= |keyword|
  {
    StrippedCleaned(keyword, 0);
    CleanFromShortens(keyword, 0);
    CleanFrom(keyword, 0)
  }

  /** Each pass removes text and strips, so the keyword never grows. */
  lemma {:induction false} CleanFromShortens(keyword: string, i: nat)
    requires i <= |ThreadPrefixes|
    ensures |CleanFrom(keyword, i)| <= |keyword|
    decreases |ThreadPrefixes| - i
  {
    if i < |ThreadPrefixes| {
      CleanFromShortens(CleanPass(keyword, i), i + 1);
    }
  }

  lemma {:induction false} StrippedCleaned(keyword: string, i: nat)
    requires i < |ThreadPrefixes|
    ensures Stripped(CleanFrom(keyword, i))
    decreases |ThreadPrefixes| - i
  {
    if i + 1 < |ThreadPrefixes| {
      StrippedCleaned(CleanPass(keyword, i), i + 1);
    }
  }

  /** None of the prefixes from `i` on occurs in the keyword. */
  predicate NoPrefixFrom(keyword: string, i: nat)
    requires i <= |ThreadPrefixes|
  {
    forall j :: i <= j < |ThreadPrefixes| ==> !Contains(keyword, ThreadPrefixes[j])
  }

  /** An occurrence inside a slice is an occurrence in the whole string. */
  lemma SliceContains(s: string, a: nat, b: nat, p: string)
    requires a <= b <= |s| && Contains(s[a..b], p)
    ensures Contains(s, p)
  {
    var i: nat :| i <= |s[a..b]| && OccursAt(s[a..b], p, i);
    assert i + |p| <= b - a;
    forall t | 0 <= t < |p| ensures s[a + i + t] == p[t] {
      assert s[a..b][i..i + |p|][t] == p[t];
    }
    assert s[a + i..a + i + |p|] == p;
    assert OccursAt(s, p, a + i);
  }

  /** Stripping cannot create an occurrence. */
  lemma StripContains(s: string, p: string)
    requires Contains(Strip(s), p)
    ensures Contains(s, p)
  {
    var lo := SkipSpace(s, 0);
    SliceContains(s, lo, TrimSpace(s, lo, |s|), p);
  }

  /** A stripped keyword with no prefix in it is left as it is. */
  lemma {:induction false} CleanFromUnchanged(keyword: string, i: nat)
    requires i <= |ThreadPrefixes| && Stripped(keyword) && NoPrefixFrom(keyword, i)
    ensures CleanFrom(keyword, i) == keyword
    decreases |ThreadPrefixes| - i
  {
    if i < |ThreadPrefixes| {
      ReplaceAbsent(keyword, ThreadPrefixes[i], "");
      StripFixesStripped(keyword);
      CleanFromUnchanged(keyword, i + 1);
    }
  }

  /** A keyword without any prefix is only stripped. */
  lemma CleanWithoutPrefix(keyword: string)
    requires NoPrefixFrom(keyword, 0)
    ensures CleanThreadKeyword(keyword) == Strip(keyword)
  {
    ReplaceAbsent(keyword, ThreadPrefixes[0], "");
    var s := Strip(keyword);
    forall j | 1 <= j < |ThreadPrefixes| ensures !Contains(s, ThreadPrefixes[j]) {
      if Contains(s, ThreadPrefixes[j]) { StripContains(keyword, ThreadPrefixes[j]); }
    }
    CleanFromUnchanged(s, 1);
  }

  /** An occurrence after a leading blank is an occurrence in the rest. */
  lemma BlankPrefixContains(k: string, p: string)
    requires p != [] && p[0] != ' ' && Contains(" " + k, p)
    ensures Contains(k, p)
  {
    var s := " " + k;
    var i: nat :| i <= |s| && OccursAt(s, p, i);
    assert s[i] == p[0];
    assert i > 0;
    assert s[i..i + |p|] == k[i - 1..i - 1 + |p|];
    assert OccursAt(k, p, i - 1);
  }

  /** A reply subject `Re: <subject>` is cleaned to the subject. */
  lemma ReplyPrefixRemoved(subject: string)
    requires Stripped(subject) && NoPrefixFrom(subject, 0)
    ensures CleanThreadKeyword("Re: " + subject) == subject
  {
    var re := ThreadPrefixes[0];
    var k := " " + subject;
    assert "Re: " + subject == re + k;
    assert (re + k)[..|re|] == re && (re + k)[|re|..] == k;
    if Contains(k, re) { BlankPrefixContains(subject, re); }
    SplitAbsent(k, re);
    assert SplitOn(re + k, re) == [[]] + [k];
    JoinConsEmpty([k], "");
    assert Replace(re + k, re, "") == k;
    StripLeadingSpace(subject);
    CleanFromUnchanged(subject, 1);
  }

  /** Each pass removes the occurrences present before it, not ones that
      the removal itself creates: `RRe:e:` loses its one `Re:` and leaves a
      new `Re:`, which the next cleaning would remove. So the result may
      still contain a prefix, and cleaning twice can differ from once. */
  lemma RemovalCanLeavePrefix()
    ensures CleanThreadKeyword("RRe:e:") == "Re:"
    ensures CleanThreadKeyword("Re:") == []
    ensures CleanThreadKeyword(CleanThreadKeyword("RRe:e:")) != CleanThreadKeyword("RRe:e:")
  {
    ReplyPassOnDoubled();
    NoPrefixInReply();
    CleanFromUnchanged("Re:", 1);
    assert CleanFrom("RRe:e:", 0) == "Re:";
    ReplyPassOnReply();
    CleanFromUnchanged([], 1);
    assert CleanFrom("Re:", 0) == [];
  }

  /** The `Re:` pass splits `RRe:e:` into `R` and `e:` and joins them. */
  lemma ReplyPassOnDoubled()
    ensures CleanPass("RRe:e:", 0) == "Re:"
  {
    var re := ThreadPrefixes[0];
    assert SplitOn("e:", re) == ["e:"];
    assert "Re:e:"[..3] == re && "Re:e:"[3..] == "e:";
    var rest := SplitOn("Re:e:", re);
    assert rest == [[], "e:"];
    assert "RRe:e:"[..3] != re && "RRe:e:"[1..] == "Re:e:";
    assert rest[1..] == ["e:"] && ['R'] + rest[0] == "R";
    assert SplitOn("RRe:e:", re) == ["R", "e:"];
    assert Replace("RRe:e:", re, "") == "Re:";
    assert Stripped("Re:");
    StripFixesStripped("Re:");
  }

  /** The `Re:` pass removes all of `Re:`. */
  lemma ReplyPassOnReply()
    ensures CleanPass("Re:", 0) == []
  {
    var re := ThreadPrefixes[0];
    assert "Re:"[..3] == re && "Re:"[3..] == [];
    assert SplitOn("Re:", re) == [[], []];
    assert Replace("Re:", re, "") == [];
    assert Strip([]) == [];
  }

  /** `Re:`, and the empty keyword, contain none of the later prefixes. */
  lemma NoPrefixInReply()
    ensures NoPrefixFrom("Re:", 1)
    ensures NoPrefixFrom([], 1)
  {
    forall j, i: nat | 1 <= j < |ThreadPrefixes| && i <= 0 ensures !OccursAt([], ThreadPrefixes[j], i) {
    }
    forall j, i: nat | 1 <= j < |ThreadPrefixes| && i <= 3 ensures !OccursAt("Re:", ThreadPrefixes[j], i) {
      if i == 0 && |ThreadPrefixes[j]| == 3 {
        assert "Re:"[0..3] == "Re:";
        assert ThreadPrefixes[j][0] != 'R' || ThreadPrefixes[j][1] != 'e';
      }
    }
  }

  // ---------------------------------------------------------------------
  // get_mailbox_applescript_snippet: is the upper-cased mailbox name `INBOX`?

  /** `c.upper()` for the characters whose upper case is an ASCII letter:
      `a`-`z`, the dotless `ı` and the long `ſ`; every other character is
      left as it is, which does not change whether the result is an ASCII
      word. */
  function UpperChar(c: char): char {
    if 'a' <= c <= 'z' then (c as int - 32) as char
    else if c == '\U{0131}' then 'I'
    else if c == '\U{017F}' then 'S'
    else c
  }

  function Upper(s: string): (r: string)
    ensures |r| == |s|
  {
    seq(|s|, i requires 0 <= i < |s| => UpperChar(s[i]))
  }

  /** The branch test of `get_mailbox_applescript_snippet`. */
  predicate IsInboxName(mailbox: string) {
    Upper(mailbox) == "INBOX"
  }

  /** The characters that pass the test at each position: the upper- and
      lower-case letter, and at the first position also the dotless `ı`. */
  predicate InboxLetter(c: char, i: nat)
    requires i < 5
  {
    c == "INBOX"[i] || c == "inbox"[i] || (i == 0 && c == '\U{0131}')
  }

  lemma UpperCharInbox(c: char, i: nat)
    requires i < 5
    ensures UpperChar(c) == "INBOX"[i] <==> InboxLetter(c, i)
  {
  }

  /** The test accepts exactly the five-letter spellings of `inbox` in any
      mix of cases, with a dotless `ı` allowed for the `i`. */
  lemma InboxNameSpellings(mailbox: string)
    ensures IsInboxName(mailbox) <==>
            |mailbox| == 5 && forall i :: 0 <= i < 5 ==> InboxLetter(mailbox[i], i)
  {
    if |mailbox| == 5 {
      forall i | 0 <= i < 5 ensures UpperChar(mailbox[i]) == "INBOX"[i] <==> InboxLetter(mailbox[i], i) {
        UpperCharInbox(mailbox[i], i);
      }
      if forall i :: 0 <= i < 5 ==> InboxLetter(mailbox[i], i) {
        assert Upper(mailbox) == "INBOX";
      }
    }
  }
}
