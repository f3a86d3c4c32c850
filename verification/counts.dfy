/** The reply parsers of `get_unread_count` and `list_accounts`
    (src/apple_mail_mcp/apple_mail_mcp.py): the AppleScript returns its list
    joined with `|`, and the tool splits it back apart. */
module ReplyLists {
  import opened Common
  import opened Text

  // ---------------------------------------------------------------------
  // Splitting an item at its first colon

  /** Splitting `s` once at `c` when `c` occurs in `s`: the text before the first `c`
      and everything after it; `None` when `c` does not occur. */
  function SplitAtFirst(s: string, c: char): (r: Option<(string, string)>)
    ensures r.None? <==> c !in s
    ensures r.Some? ==> s == r.value.0 + [c] + r.value.1 && c !in r.value.0
  {
    if s == [] then None
    else if s[0] == c then Some(([], s[1..]))
    else match SplitAtFirst(s[1..], c)
      case None => None
      case Some((before, after)) =>
        assert s == [s[0]] + s[1..];
        Some(([s[0]] + before, after))
  }

  /** The split is the only one at a first occurrence: whenever `s` is
      `before`, `c`, `after` with no `c` in `before`, those are the parts. */
  lemma {:induction false} SplitAtFirstUnique(before: string, c: char, after: string)
    requires c !in before
    ensures SplitAtFirst(before + [c] + after, c) == Some((before, after))
    decreases |before|
  {
    var s := before + [c] + after;
    if before == [] {
      assert s[1..] == after;
    } else {
      assert s[0] == before[0];
      assert s[1..] == before[1..] + [c] + after;
      SplitAtFirstUnique(before[1..], c, after);
      assert [before[0]] + before[1..] == before;
    }
  }

  // ---------------------------------------------------------------------
  // get_unread_count: `account:count|account:count|...`

  /** The value of a count: `-1` for the literal `ERROR`, otherwise the
      number whose decimal text the count is (leading zeros aside); `None`
      where the conversion to an integer raises. */
  function CountValue(count: string): (r: Option<int>)
    ensures r == Some(-1) <==> count == "ERROR"
    ensures r.Some? <==> count == "ERROR" || (|count| > 0 && AllDigits(count))
    ensures r.Some? && count != "ERROR" ==>
              r.value >= 0 && NatToString(r.value as nat) == DropLeadingZeros(count)
  {
    if count == "ERROR" then Some(-1)
    else match ParseNat(count)
      case None => None
      case Some(n) =>
        ParseNatValue(count);
        Some(n as int)
  }

  /** Every non-negative count survives being printed and read back. */
  lemma CountValueReadsBack(n: nat)
    ensures CountValue(NatToString(n)) == Some(n)
  {
    var s := NatToString(n);
    assert s != "ERROR" by { assert IsDigit(s[0]); }
    NatToStringRoundTrip(n);
  }

  /** The account an item names, when the item has a colon. */
  predicate NamesAccount(item: string, account: string) {
    SplitAtFirst(item, ':').Some? && SplitAtFirst(item, ':').value.0 == account
  }

  /** An item with a colon whose count part `int` rejects. */
  predicate BadCount(item: string) {
    SplitAtFirst(item, ':').Some? && CountValue(SplitAtFirst(item, ':').value.1).None?
  }

  /** One iteration of the loop over the items. */
  function AddItem(counts: map<string, int>, item: string): Result<map<string, int>> {
    match SplitAtFirst(item, ':')
    case None => Ok(counts)
    case Some((account, count)) =>
      match CountValue(count)
      case None => Err("invalid literal for int() with base 10")
      case Some(v) => Ok(counts[account := v])
  }

  /** The loop over the items, first to last. */
  function CountItems(items: seq<string>): Result<map<string, int>>
    decreases |items|
  {
    if items == [] then Ok(map[])
    else match CountItems(items[..|items| - 1])
      case Err(m) => Err(m)
      case Ok(counts) => AddItem(counts, items[|items| - 1])
  }

  /** The tool's parse of the AppleScript reply. */
  function UnreadCounts(reply: string): Result<map<string, int>> {
    CountItems(SplitOn(reply, "|"))
  }

  /** An empty reply gives an empty map. */
  lemma UnreadCountsEmpty()
    ensures UnreadCounts("") == Ok(map[])
  {
    assert SplitOn("", "|") == [""];
    assert [""][..0] == [];
  }

  /** Some item satisfies `p` when some item before the last or the last
      one does. */
  lemma SomeItem(init: seq<string>, last: string, p: string -> bool)
    ensures (exists j :: 0 <= j < |init + [last]| && p((init + [last])[j])) <==>
            (exists j :: 0 <= j < |init| && p(init[j])) || p(last)
  {
    var items := init + [last];
    if exists j :: 0 <= j < |init| && p(init[j]) {
      var j :| 0 <= j < |init| && p(init[j]);
      assert items[j] == init[j];
    }
    assert items[|init|] == last;
  }

  /** The parse fails exactly when some item has a colon and a count that
      is neither `ERROR` nor a number. */
  lemma {:induction false} CountItemsFails(items: seq<string>)
    ensures CountItems(items).Err? <==> exists j :: 0 <= j < |items| && BadCount(items[j])
    decreases |items|
  {
    if items != [] {
      var init, last := items[..|items| - 1], items[|items| - 1];
      CountItemsFails(init);
      assert items == init + [last];
      SomeItem(init, last, BadCount);
    }
  }

  /** When the parse succeeds, the map has a key for exactly the accounts
      that items with a colon name (items without one are skipped). */
  lemma {:induction false} CountItemsKeys(items: seq<string>, account: string)
    requires CountItems(items).Ok?
    ensures account in CountItems(items).value <==>
            exists j :: 0 <= j < |items| && NamesAccount(items[j], account)
    decreases |items|
  {
    if items != [] {
      var init, last := items[..|items| - 1], items[|items| - 1];
      CountItemsKeys(init, account);
      assert items == init + [last];
      SomeItem(init, last, item => NamesAccount(item, account));
    }
  }

  /** When the parse succeeds, an account's count is the one given by the
      last item naming it: a later duplicate overwrites an earlier one. */
  lemma {:induction false} CountItemsLastWins(items: seq<string>, j: nat)
    requires CountItems(items).Ok?
    requires j < |items| && SplitAtFirst(items[j], ':').Some?
    requires forall i :: j < i < |items| ==> !NamesAccount(items[i], SplitAtFirst(items[j], ':').value.0)
    ensures SplitAtFirst(items[j], ':').value.0 in CountItems(items).value
    ensures CountValue(SplitAtFirst(items[j], ':').value.1) ==
            Some(CountItems(items).value[SplitAtFirst(items[j], ':').value.0])
    decreases |items|
  {
    var init, last := items[..|items| - 1], items[|items| - 1];
    var account := SplitAtFirst(items[j], ':').value.0;
    if j == |items| - 1 {
      assert CountItems(items) == AddItem(CountItems(init).value, last);
    } else {
      assert items[j] == init[j];
      assert !NamesAccount(last, account);
      CountItemsLastWins(init, j);
    }
  }

  // ---------------------------------------------------------------------
  // list_accounts: `name|name|...`

  /** The names in the reply, split at every `|`; an empty reply names no
      account. */
  function AccountNames(reply: string): (names: seq<string>)
    ensures forall k :: 0 <= k < |names| ==> '|' !in names[k]
  {
    SplitCharPieces(reply, '|');
    if reply == [] then [] else SplitOn(reply, "|")
  }

  /** Joining the names with `|` gives back the reply. */
  lemma AccountNamesJoin(reply: string)
    ensures JoinWith(AccountNames(reply), "|") == reply
  {
    SplitJoin(reply, "|");
  }

  /** Names without `|` that the AppleScript joins with `|` are read back
      unchanged; only the single empty name is lost, as an empty reply. */
  lemma AccountNamesRoundTrip(names: seq<string>)
    requires NoneContains(names, '|')
    requires names != [[]]
    ensures AccountNames(JoinWith(names, "|")) == names
  {
    if names != [] {
      JoinSplitChar(names, '|');
      if |names| > 1 {
        assert JoinWith(names, "|") == names[0] + "|" + JoinWith(names[1..], "|");
      } else {
        assert names[0] != [];
      }
    }
  }
}
