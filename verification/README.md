# apple-mail-mcp in Dafny

The project models the pure, sequential logic of the Apple Mail MCP server in
`src/apple_mail_mcp/apple_mail_mcp.py` and proves properties of it. That logic
has three parts.

- **The output parser, `parse_email_list`.** It turns a line-oriented
  listing, split at line feeds, into email records. No tool in the file
  calls it: the tools return the AppleScript's text unparsed (for example
  :327-328). It is a line-oriented state machine (`parser.dfy`, module
  `EmailParser`):
  - it strips each line;
  - it skips blank lines and decoration lines;
  - `✉` and `✓` lines open a record;
  - `From:`, `Date:` and `Preview:` lines set one field each;
  - `TOTAL EMAILS` closes the open record and stops.

  `listing.dfy` (module `EmailListing`) defines an idealised listing format
  that the parser accepts: unindented lines separated by `\n`, without
  headers or banners. It proves that writing records in this format and
  parsing the text gives the records back.
- **The retry and classification policy of `run_applescript`** (`retry.dfy`,
  module `Retry`):
  - there are at most three attempts;
  - only a timeout is retried, after sleeping 2 s and then 4 s;
  - a non-zero exit, a missing interpreter or any other `Exception` ends the
    call at once.

  The interpreter is not invoked. An environment function says what each
  attempt produces. The sleeps are returned as a list of durations.
- **Small string fragments of the tools:**
  - the `account:count|…` reply of `get_unread_count` and the `name|…` reply
    of `list_accounts` (`counts.dfy`, module `ReplyLists`);
  - the nested mailbox reference of `move_email`, the filter condition of
    `search_emails`, `update_email_status` and `manage_trash`, the
    thread-prefix cleaner of `get_email_thread` and the `INBOX` test of
    `get_mailbox_applescript_snippet` (`tools.dfy`, module `ToolText`);
  - the quote escaping and the recipient lists of `reply_to_email` and
    `compose_email` (`literals.dfy`, module `ScriptLiterals`).

Python's string built-ins are modelled once, in `text.dfy` (module `Text`):
- `strip`, with the full `str.isspace` set;
- `split`, `join` and `replace`;
- `startswith` and `in`;
- `str(n)`, and `int(s)` on digit strings.

`common.dfy` holds `Option` and `Result`.

A field line seen before any record-start line is written into the empty
dictionary (:205, :222-227). It then becomes a record without subject or read
flag (`EmailParser.FieldLineWithoutRecord`).

## Model

| member | source | states |
|---|---|---|
| `EmailParser.Classify` | src/apple_mail_mcp/apple_mail_mcp.py:207-221 | A stripped line is skipped exactly when it is empty or starts with `=`, `━`, `📧` or `⚠`. It opens a record exactly when it starts with `✉` or `✓`. The record is read exactly when the marker is `✓`, and its subject is the stripped text after the first two characters. |
| `EmailParser.ClassifyFieldLines` | src/apple_mail_mcp/apple_mail_mcp.py:222-228 | A line that is not skipped and opens no record sets the sender, date or preview exactly when it starts with `From:`, `Date:` or `Preview:`. The value is the stripped rest after 5, 5 or 8 characters. The line terminates exactly when it starts with `TOTAL EMAILS`. |
| `EmailParser.FieldLineSetsOnlyItsField` | src/apple_mail_mcp/apple_mail_mcp.py:222-227 | A field line sets its own field of the open record to the stripped remainder. It leaves the list, the stop flag and every other field unchanged. |
| `EmailParser.LaterFieldLineOverwrites` | src/apple_mail_mcp/apple_mail_mcp.py:222-227 | When two lines set the same field, the first has no effect. This holds whatever lines stand between them, as long as none opens a record or is a `TOTAL EMAILS` line. |
| `EmailParser.FieldOverwrittenLater` | src/apple_mail_mcp/apple_mail_mcp.py:206-227 | The same on classified lines: a field write followed by writes of other fields and skipped lines, then a write of the same field, scans as if the first write were absent. |
| `EmailParser.FieldLineWithoutRecord` | src/apple_mail_mcp/apple_mail_mcp.py:205-227 | A lone field line produces exactly one record. That record carries the field's value but has no subject and no read flag. |
| `EmailParser.ScanKeepsRecords` | src/apple_mail_mcp/apple_mail_mcp.py:211-221 | Scanning only appends to the list of records. No record is removed or reordered. |
| `EmailParser.OutputOrderFollowsInput` | src/apple_mail_mcp/apple_mail_mcp.py:206-221 | The records closed while scanning a prefix of the lines are a prefix of those closed while scanning the whole output. |
| `EmailParser.ScanConcat` | src/apple_mail_mcp/apple_mail_mcp.py:206-232 | The loop is a fold. Scanning two blocks of lines scans the first block, then the second block from where the first stopped. |
| `EmailParser.TerminatorEndsParse` | src/apple_mail_mcp/apple_mail_mcp.py:228-235 | `EmailParser.ParseLines`, the parse of the split lines: at the first `TOTAL EMAILS` line the open record, if non-empty, is appended exactly once. The result is the list at that point, whatever follows. |
| `EmailParser.LinesAfterTerminatorIgnored` | src/apple_mail_mcp/apple_mail_mcp.py:228-232 | Lines after a `TOTAL EMAILS` line never affect the result. |
| `EmailParser.TextAfterTerminatorIgnored` | src/apple_mail_mcp/apple_mail_mcp.py:203-232 | For `EmailParser.ParseEmailList`, the parse of the raw text, the same holds when the terminator line follows a line break: anything after the terminator line and its line break is ignored. |
| `EmailParser.FirstLineTerminatorIgnoresRest` | src/apple_mail_mcp/apple_mail_mcp.py:203-232 | When the terminator is the first line of the text, everything after it and its line break is ignored too. |
| `EmailParser.NoRecordLinesNoRecords` | src/apple_mail_mcp/apple_mail_mcp.py:202-237 | If no line opens a record or sets a field, `EmailParser.ParseLines` gives no records. |
| `EmailParser.EmptyOutputNoRecords` | src/apple_mail_mcp/apple_mail_mcp.py:202-237 | `parse_email_list("")`, modelled by `EmailParser.ParseEmailList`, is `[]`. |
| `EmailParser.BlankLinesNoRecords` | src/apple_mail_mcp/apple_mail_mcp.py:206-209 | Lines made only of whitespace give no records from `EmailParser.ParseLines`. |
| `EmailParser.RepeatedRecordDroppedWithoutTotal` | src/apple_mail_mcp/apple_mail_mcp.py:230-235 | The as-written final append. Two equal record-start lines with no terminator give one record. The same lines followed by `TOTAL EMAILS` give two. |
| `EmailParser.TwoEqualMessagesBecomeOne` | src/apple_mail_mcp/apple_mail_mcp.py:234-235 | A concrete instance: two lines `✉ A` parse to a single record. |
| `EmailParser.OneRecordPerOpeningLine` | src/apple_mail_mcp/apple_mail_mcp.py:211-235 | The intended final append gives exactly one record per record-start line before the terminator, whether or not a terminator is present. This holds when no field line precedes the first record-start line. |
| `EmailParser.IntendedAgreesAfterTotal` | src/apple_mail_mcp/apple_mail_mcp.py:228-235 | On output that reaches a `TOTAL EMAILS` line, the intended final append and the written one agree. |
| `EmailListing.MarkerLineOpens` | src/apple_mail_mcp/apple_mail_mcp.py:211-221 | The marker line written for a record opens a record with that record's read flag and subject. |
| `EmailListing.TotalLineTerminates` | src/apple_mail_mcp/apple_mail_mcp.py:228-232 | A `TOTAL EMAILS: n` line terminates the scan, for every count `n`. |
| `EmailListing.RecordLinesKinds` | src/apple_mail_mcp/apple_mail_mcp.py:207-227 | The lines written for a record are classified as its opening line followed by one line per set field, carrying the field's value. |
| `EmailListing.BodyKindsScan` | src/apple_mail_mcp/apple_mail_mcp.py:211-227 | Scanning the lines of a non-empty list of records appends every record but the last, in order, and leaves the last one open. |
| `EmailListing.ListingLines` | src/apple_mail_mcp/apple_mail_mcp.py:203 | Splitting a listing at line breaks gives back its lines. |
| `EmailListing.ListingRoundTrip` | src/apple_mail_mcp/apple_mail_mcp.py:200-237 | `EmailParser.ParseEmailList` inverts the listing: parsing a listing in the idealised format gives back exactly the records it was written from. The records need a subject and read flag, and texts free of line breaks and surrounding whitespace. This holds for both the written and the intended final append. |
| `Retry.AttemptLoop` | src/apple_mail_mcp/apple_mail_mcp.py:146-197 | The loop always leaves through a `return` or `raise` inside it, so the raise after the loop (:197) is unreachable. Every attempt but the last timed out. A loop ending before the third attempt ended on something other than a timeout. |
| `Retry.Execute` | src/apple_mail_mcp/apple_mail_mcp.py:129-197 | A call makes between one and three attempts. It sleeps the back-off after every attempt but the last. |
| `Retry.RunAppleScript` | src/apple_mail_mcp/apple_mail_mcp.py:143-197 | The statement-by-statement loop computes the same result, attempt count and sleeps as the policy. |
| `Retry.BackoffSchedule` | src/apple_mail_mcp/apple_mail_mcp.py:171 | The i-th sleep is `INITIAL_BACKOFF_SECONDS * 2**i`. |
| `Retry.SucceedsAfterTimeouts` | src/apple_mail_mcp/apple_mail_mcp.py:164-178 | After k < 3 timeouts and a zero exit, the call returns the stripped stdout after k + 1 attempts. The sleeps are the first k back-offs. |
| `Retry.ScriptErrorKeptVerbatim` | src/apple_mail_mcp/apple_mail_mcp.py:159-162 | Every `Retry.ScriptErrorMessage` contains `AppleScript error`, so the generic handler, `Retry.Reraised`, re-raises it unchanged. |
| `Retry.ScriptErrorNotRetried` | src/apple_mail_mcp/apple_mail_mcp.py:159-192 | A non-zero exit ends the call after that attempt with no further sleep. The message, `Retry.ScriptErrorMessage`, is built from the stripped stderr, or from the placeholder when stderr is empty. |
| `Retry.MissingInterpreterNotRetried` | src/apple_mail_mcp/apple_mail_mcp.py:185-187 | A missing `osascript` ends the call after that attempt with the "not found" message. |
| `Retry.CrashNotRetried` | src/apple_mail_mcp/apple_mail_mcp.py:189-194 | Any other exception derived from `Exception` ends the call after that attempt. `Retry.Reraised` keeps its text if it mentions an AppleScript error and wraps it otherwise. |
| `Retry.AllAttemptsTimeOut` | src/apple_mail_mcp/apple_mail_mcp.py:169-183 | Three timeouts give the failure `Retry.TimeoutMessage`, "timed out after 3 attempts … may be unresponsive", after sleeping exactly 2 s and 4 s. |
| `Retry.ShortSchedules` | src/apple_mail_mcp/apple_mail_mcp.py:30-31 | With `INITIAL_BACKOFF_SECONDS = 2` the schedules are `[]`, `[2]` and `[2, 4]`. |
| `Retry.SleepsArePrefixOfTwoFour` | src/apple_mail_mcp/apple_mail_mcp.py:139-178 | Whatever the outcomes, the sleeps are a prefix of `[2, 4]`. The 8 s back-off of the docstring never happens. |
| `Retry.OnlyConsumedOutcomesMatter` | src/apple_mail_mcp/apple_mail_mcp.py:146-194 | Two environments that agree on the attempts actually made give the same execution. |
| `ReplyLists.SplitAtFirst` | src/apple_mail_mcp/apple_mail_mcp.py:502-503 | There is no split exactly when the colon is absent. Otherwise the item is `before`, `:`, `after`, and `before` has no colon. |
| `ReplyLists.SplitAtFirstUnique` | src/apple_mail_mcp/apple_mail_mcp.py:503 | Splitting `before + ":" + after`, when `before` has no colon, gives exactly `before` and `after`. |
| `ReplyLists.CountValue` | src/apple_mail_mcp/apple_mail_mcp.py:504-507 | A count gives -1 exactly when it is `ERROR`. Any other count is accepted exactly when it is a non-empty ASCII digit string. Its value is then the non-negative number whose decimal text is the count without leading zeros. |
| `ReplyLists.CountValueReadsBack` | src/apple_mail_mcp/apple_mail_mcp.py:505 | Every printed non-negative count is read back as itself. |
| `ReplyLists.UnreadCountsEmpty` | src/apple_mail_mcp/apple_mail_mcp.py:500-509 | An empty reply gives an empty map. |
| `ReplyLists.CountItemsFails` | src/apple_mail_mcp/apple_mail_mcp.py:501-507 | The parse raises exactly when some item has a colon and a count that is neither `ERROR` nor a number. |
| `ReplyLists.CountItemsKeys` | src/apple_mail_mcp/apple_mail_mcp.py:501-507 | On success, the keys are exactly the accounts named by items with a colon. Items without one are skipped. |
| `ReplyLists.CountItemsLastWins` | src/apple_mail_mcp/apple_mail_mcp.py:501-507 | On success, an account's value comes from the last item naming it. |
| `ReplyLists.AccountNames` | src/apple_mail_mcp/apple_mail_mcp.py:538 | No account name contains `\|`. |
| `ReplyLists.AccountNamesJoin` | src/apple_mail_mcp/apple_mail_mcp.py:538 | Joining the names with `\|` gives back the reply. |
| `ReplyLists.AccountNamesRoundTrip` | src/apple_mail_mcp/apple_mail_mcp.py:538 | Names without `\|`, joined with `\|`, are read back unchanged. The one exception is a single empty name. |
| `ToolText.BuildMailboxReference` | src/apple_mail_mcp/apple_mail_mcp.py:746-757 | The descending loop builds exactly the reference described by `MailboxReference`. |
| `ToolText.MailboxReferenceSegments` | src/apple_mail_mcp/apple_mail_mcp.py:746-757 | For every destination, the reference is one `mailbox "…" of ` segment per `/`-separated part, last part first, followed by `targetAccount`. |
| `ToolText.TopLevelMailbox` | src/apple_mail_mcp/apple_mail_mcp.py:755-757 | A name without `/` gives `mailbox "<name>" of targetAccount`. |
| `ToolText.SearchMatchesAllIffNoFilter` | src/apple_mail_mcp/apple_mail_mcp.py:1430-1450 | The search condition, `ToolText.ConditionString` of `ToolText.SearchConditions`, is `true` exactly when none of the four filters the condition reads is given: no subject keyword, no sender, no attachment filter, and a read status other than `read` or `unread`. |
| `ToolText.DateFiltersIgnored` | src/apple_mail_mcp/apple_mail_mcp.py:1398-1450 | The documented `date_from` and `date_to` filters never change the search condition, so a search by date alone matches every message. |
| `ToolText.FieldFilterMatchesAllIffNone` | src/apple_mail_mcp/apple_mail_mcp.py:1578-1584 | The update and trash condition, `ToolText.ConditionString` of `ToolText.FieldConditions`, is `true` exactly when neither a subject keyword nor a sender is given. `manage_trash` builds the same condition at :1724-1732 and :1782-1790. |
| `ToolText.ConditionConjoins` | src/apple_mail_mcp/apple_mail_mcp.py:1450 | In `ToolText.ConditionString`, each further condition is added with ` and `. |
| `ToolText.CleanThreadKeyword` | src/apple_mail_mcp/apple_mail_mcp.py:1983-1986 | The cleaned keyword is stripped and never longer than the keyword it came from. |
| `ToolText.CleanWithoutPrefix` | src/apple_mail_mcp/apple_mail_mcp.py:1983-1986 | A keyword containing none of `Re:`, `Fwd:`, `FW:`, `RE:`, `Fw:` is only stripped. |
| `ToolText.ReplyPrefixRemoved` | src/apple_mail_mcp/apple_mail_mcp.py:1983-1986 | `Re: <subject>` is cleaned to the subject when the subject is stripped and contains no prefix. |
| `ToolText.RemovalCanLeavePrefix` | src/apple_mail_mcp/apple_mail_mcp.py:1983-1986 | Each pass removes only the occurrences present before it. `RRe:e:` is cleaned to `Re:`, which still holds a prefix, and cleaning `Re:` again gives the empty keyword, so cleaning is not idempotent. |
| `ToolText.InboxNameSpellings` | src/apple_mail_mcp/apple_mail_mcp.py:95 | The `INBOX` branch, `ToolText.IsInboxName`, is taken exactly for five-letter spellings of `inbox` in any mix of cases. A dotless `ı` may stand for the `i`. |
| `ScriptLiterals.EscapeQuotesCharwise` | src/apple_mail_mcp/apple_mail_mcp.py:844 | `replace('"', '\\"')` turns each quote into backslash-quote and keeps every other character. `forward_email` (:1876) and `manage_drafts` (:2169-2170) escape the same way. |
| `ScriptLiterals.EscapeQuotesWithoutBackslash` | src/apple_mail_mcp/apple_mail_mcp.py:954-955 | Text without backslashes is read back unchanged from the escaped literal. |
| `ScriptLiterals.TrailingBackslashBreaksLiteral` | src/apple_mail_mcp/apple_mail_mcp.py:844 | The escaped form of `a\` ends in a dangling backslash. The literal body is then malformed. |
| `ScriptLiterals.BackslashSequenceChanged` | src/apple_mail_mcp/apple_mail_mcp.py:954-955 | The two characters `\n` survive the escaping and are read as a line break. |
| `ScriptLiterals.EscapeForLiteralReadsBack` | src/apple_mail_mcp/apple_mail_mcp.py:954-955 | With backslashes escaped too, every text is read back unchanged from the literal. |
| `ScriptLiterals.EscapingAgreesWithoutBackslash` | src/apple_mail_mcp/apple_mail_mcp.py:844 | On text without backslashes, the corrected escaping equals the written one. |
| `ScriptLiterals.Recipients` | src/apple_mail_mcp/apple_mail_mcp.py:959-960 | Every recipient address is stripped and free of commas. The `bcc` field (:968-969) and the drafts tool (:2174-2175, :2183-2184) split the same way. |
| `ScriptLiterals.RecipientsRoundTrip` | src/apple_mail_mcp/apple_mail_mcp.py:959-960 | Stripped, comma-free addresses written as `a, b, c` are read back unchanged. The one exception is a single empty address. |
| `Text.Strip` | src/apple_mail_mcp/apple_mail_mcp.py:207 | The result has no whitespace at either end and is no longer than the input. |
| `Text.StripFixesStripped` | src/apple_mail_mcp/apple_mail_mcp.py:207 | Strip changes a string exactly when the string has whitespace at an end. Strip is idempotent. |
| `Text.SplitJoin` | src/apple_mail_mcp/apple_mail_mcp.py:203 | Joining the pieces of a split with the separator gives back the string. |
| `Text.JoinSplitChar` | src/apple_mail_mcp/apple_mail_mcp.py:538 | Splitting at a character undoes joining with it, when no element contains the character. |
| `Text.NatToStringRoundTrip` | src/apple_mail_mcp/apple_mail_mcp.py:505 | `int(str(n)) == n` for every natural number. |
| `Text.ParseNatValue` | src/apple_mail_mcp/apple_mail_mcp.py:505 | `int(s)` on a digit string is the number whose decimal text is `s` without its leading zeros. |
| `Text.CanonicalDigits` | src/apple_mail_mcp/apple_mail_mcp.py:505 | A digit string without leading zeros is the decimal text of its own value. |
| `Text.LeadingZeroValue` | src/apple_mail_mcp/apple_mail_mcp.py:505 | A leading zero does not change the value of a digit string. |

## Findings

| source | as written | input that shows it | evidently intended | confidence | as-written member | corrected member |
|---|---|---|---|---|---|---|
| src/apple_mail_mcp/apple_mail_mcp.py:234-235 | The final append skips the open record when an equal record is already in the list. The equality test is meant to avoid appending twice after `TOTAL EMAILS`. | `✉ A\n✉ A` gives one record; `✉ A\n✉ A\nTOTAL EMAILS` gives two. | Append the open record unless the terminator already appended it: one record per record-start line. | medium, not executed | `EmailParser.RepeatedRecordDroppedWithoutTotal` | `EmailParser.OneRecordPerOpeningLine` |
| src/apple_mail_mcp/apple_mail_mcp.py:954-955 | Only quotes are escaped before the text is placed inside an AppleScript string literal. A backslash in the text still starts an escape there. | `a\` yields a literal body ending in a dangling backslash, which escapes the closing quote; `\n` (two characters) reaches Mail as a line break. | Escape backslashes as well as quotes, so that every text reads back unchanged. | medium, not executed | `ScriptLiterals.TrailingBackslashBreaksLiteral` | `ScriptLiterals.EscapeForLiteralReadsBack` |

In the first row:
- `EmailParser.ParseLinesIntended` and `EmailParser.ParseEmailListIntended` are the corrected parser.
- `EmailParser.IntendedAgreesAfterTotal` shows it agrees with the written one on every output that has a terminator.
- `EmailListing.ListingRoundTrip` holds for both parsers.

In the second row:
- `ScriptLiterals.EscapeForLiteral` is the corrected escaping.
- `ScriptLiterals.BackslashSequenceChanged` is a second counterexample.
- `ScriptLiterals.EscapingAgreesWithoutBackslash` shows the two escapings differ only on backslashes.

## Left out

- The `asyncio.Lock` that serialises calls (:27, :143), `asyncio.to_thread` and `asyncio.sleep` (:150, :178). These are concurrency and scheduling. Sleeps appear only as returned durations.
- The `subprocess.run` call of `osascript` and its 120-second timeout (:150-156). These are external process I/O. The attempt outcomes are a parameter (`Retry.AttemptOutcome`).
- The text of `str(TimeoutExpired)` in the unreachable message at :197. A fixed text stands in for it, and `Retry.AttemptLoop` proves the message is never produced.
- Logging calls (:148, :165, :172). They have no effect on results.
- The AppleScript template bodies of every tool, and how Mail.app evaluates them.
  - The quote escaping is modelled only up to the literal body the script receives.
  - The mailbox reference, condition and recipients are modelled only as the strings interpolated into the scripts.
- The FastMCP server, tool registration, `inject_preferences` and its environment variable (:14-23, :119-126). This is transport and configuration plumbing.
- `os.path.expanduser` in `export_emails`. It depends on the host environment.
- `src/apple_mail_mcp/main.py`. It is only an entry point and is not part of this model.
- `ReplyLists.CountValue`: models Python's `int()` only on plain ASCII digit strings. Python also accepts a sign, surrounding whitespace, underscores and other Unicode digits, and its error text includes the rejected value. The model treats all such counts as errors with a fixed message.
- Exceptions that do not derive from `Exception`, such as `asyncio.CancelledError` when the coroutine is cancelled at the `await` (:150), `KeyboardInterrupt` and `SystemExit`. The handler at :189 does not catch them, so they propagate unwrapped and are not retried. `Retry.AttemptOutcome` has no such outcome, because cancellation and interpreter shutdown are outside the sequential model.
- `ToolText.UpperChar`: models `str.upper()` only for the characters whose upper case is an ASCII letter (`a`-`z`, dotless `ı`, long `ſ`), and leaves every other character unchanged.
  - Python maps many other characters, some to several characters.
  - No such mapping can produce the ASCII word `INBOX`, so the branch test is unaffected.
- A date condition for `search_emails`. The source accepts `date_from` and `date_to` (:1405-1406) and documents them as filters (:1420-1421), but never reads them: the condition built at :1430-1450 omits them, which `ToolText.DateFiltersIgnored` states. Which AppleScript date comparison was meant is not evident from the source, so no corrected condition is modelled.
- Dictionary insertion order of the parsed records and of the unread-count map. Records are a datatype with optional fields, and the counts are a Dafny `map`.
- What Mail.app does with a mailbox name, keyword or address that contains a quote. The model covers only the strings that the tools interpolate into their scripts.
- The exact text the tools' AppleScript produces. It ends lines with `return`, a carriage return, which is not the line feed the parser splits at (:203). The source itself treats `return` and `linefeed` as different (:422). It also indents field lines (:304-305) and adds header and banner lines (:263, :276-278). `EmailListing.Listing` is an idealised format instead. The parser is not called on real tool output anywhere in the file.
