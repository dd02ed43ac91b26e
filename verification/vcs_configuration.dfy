/** The recent commit messages of `VcsConfiguration`: a most-recent-last list
    without duplicates, holding at most `MaxStoredMessages` entries. */
module VcsConfiguration {
  import opened Wrappers
  import opened Seqs

  const MaxStoredMessages := 10

  datatype Configuration = Configuration(lastCommitMessages: seq<string>)

  const Empty := Configuration([])

  /** `List.remove(Object)`: drops the first occurrence of `x`, if any. */
  function RemoveFirst(s: seq<string>, x: string): (r: seq<string>)
    ensures x !in s ==> r == s
    ensures x in s ==> |r| == |s| - 1
  {
    if |s| == 0 then []
    else if s[0] == x then s[1..]
    else
      assert x in s[1..] <==> x in s;
      [s[0]] + RemoveFirst(s[1..], x)
  }

  /** The position of the first occurrence of `x` in `s`. */
  function IndexOf(s: seq<string>, x: string): (i: nat)
    requires x in s
    ensures i < |s| && s[i] == x
    ensures forall j | 0 <= j < i :: s[j] != x
  {
    if s[0] == x then 0
    else
      assert x in s[1..];
      1 + IndexOf(s[1..], x)
  }

  /** `RemoveFirst` cuts out exactly the first occurrence: the elements
      before it and after it stay, in order. */
  lemma {:induction false} RemoveFirstAt(s: seq<string>, x: string)
    requires x in s
    ensures var i := IndexOf(s, x);
            RemoveFirst(s, x) == s[..i] + s[i + 1..]
  {
    if s[0] != x {
      assert x in s[1..];
      RemoveFirstAt(s[1..], x);
      var i := IndexOf(s[1..], x);
      assert s[..i + 1] == [s[0]] + s[1..][..i];
      assert s[i + 2..] == s[1..][i + 1..];
    }
  }

  /** The loop of `saveCommitMessage` that drops the oldest message while the
      list is full. */
  function EvictOldest(s: seq<string>): (r: seq<string>)
    ensures |r| < MaxStoredMessages
    ensures |s| < MaxStoredMessages ==> r == s
    ensures |s| >= MaxStoredMessages ==> |r| == MaxStoredMessages - 1
    ensures IsSuffix(r, s)
  {
    if |s| >= MaxStoredMessages then EvictOldest(s[1..]) else s
  }

  /** `saveCommitMessage`: an empty message is ignored; otherwise the message
      moves to the end, dropping the oldest messages to make room. */
  function SaveCommitMessage(c: Configuration, comment: string): (r: Configuration)
    ensures comment == "" ==> r == c
    ensures comment != "" ==>
              && |r.lastCommitMessages| > 0
              && r.lastCommitMessages[|r.lastCommitMessages| - 1] == comment
              && |r.lastCommitMessages| <= MaxStoredMessages
              && IsSuffix(r.lastCommitMessages[..|r.lastCommitMessages| - 1], RemoveFirst(c.lastCommitMessages, comment))
    ensures comment != "" ==>
              var rest := RemoveFirst(c.lastCommitMessages, comment);
              var survivors := if |rest| < MaxStoredMessages then |rest| else MaxStoredMessages - 1;
              r.lastCommitMessages == rest[|rest| - survivors..] + [comment]
  {
    if |comment| == 0 then c
    else
      var kept := EvictOldest(RemoveFirst(c.lastCommitMessages, comment));
      var r := kept + [comment];
      assert r[..|r| - 1] == kept;
      Configuration(r)
  }

  /** The invariant of a stored list: no duplicates, no empty message, not
      more than `MaxStoredMessages` entries. */
  predicate Valid(c: Configuration) {
    && Distinct(c.lastCommitMessages)
    && (forall i | 0 <= i < |c.lastCommitMessages| :: c.lastCommitMessages[i] != "")
    && |c.lastCommitMessages| <= MaxStoredMessages
  }

  /** Reference definition: `s` with every occurrence of `x` dropped. */
  function Without(s: seq<string>, x: string): (r: seq<string>)
    ensures x !in r
    ensures forall i | 0 <= i < |r| :: r[i] in s
  {
    if |s| == 0 then []
    else if s[0] == x then Without(s[1..], x)
    else [s[0]] + Without(s[1..], x)
  }

  /** Removing the first occurrence from a list without duplicates removes
      the element altogether and keeps the rest in order. */
  lemma {:induction false} RemoveFirstDistinct(s: seq<string>, x: string)
    requires Distinct(s)
    ensures RemoveFirst(s, x) == Without(s, x)
    ensures Distinct(RemoveFirst(s, x))
  {
    if |s| > 0 {
      DistinctTail(s);
      if s[0] == x {
        WithoutAbsent(s[1..], x);
      } else {
        RemoveFirstDistinct(s[1..], x);
        ConsFresh(s[0], Without(s[1..], x));
      }
    }
  }

  /** The tail of a list without duplicates has none, and lacks the head. */
  lemma DistinctTail(s: seq<string>)
    requires Distinct(s) && |s| > 0
    ensures Distinct(s[1..]) && s[0] !in s[1..]
  {
    var tail := s[1..];
    forall i, j | 0 <= i < j < |tail| ensures tail[i] != tail[j] {
      assert tail[i] == s[i + 1] && tail[j] == s[j + 1];
    }
    forall j | 0 <= j < |tail| ensures tail[j] != s[0] {
      assert tail[j] == s[j + 1];
    }
  }

  /** Prepending an absent element keeps a list free of duplicates. */
  lemma ConsFresh(x: string, r: seq<string>)
    requires Distinct(r) && x !in r
    ensures Distinct([x] + r)
  {
    var w := [x] + r;
    forall i, j | 0 <= i < j < |w| ensures w[i] != w[j] {
      assert w[j] == r[j - 1];
      if i > 0 { assert w[i] == r[i - 1]; }
    }
  }

  /** Dropping an absent element changes nothing. */
  lemma {:induction false} WithoutAbsent(s: seq<string>, x: string)
    requires x !in s
    ensures Without(s, x) == s
  {
    if |s| > 0 {
      assert x !in s[1..];
      WithoutAbsent(s[1..], x);
      assert s == [s[0]] + s[1..];
    }
  }

  /** `a` is a final segment of `b`. */
  predicate IsSuffix(a: seq<string>, b: seq<string>) {
    |a| <= |b| && a == b[|b| - |a|..]
  }

  /** A final segment of a list without duplicates has none. */
  lemma SuffixDistinct(a: seq<string>, b: seq<string>)
    requires Distinct(b) && IsSuffix(a, b)
    ensures Distinct(a)
    ensures forall i | 0 <= i < |a| :: a[i] in b
  {
    var k := |b| - |a|;
    forall i, j | 0 <= i < j < |a| ensures a[i] != a[j] {
      assert a[i] == b[k + i] && a[j] == b[k + j];
    }
    forall i | 0 <= i < |a| ensures a[i] in b {
      assert a[i] == b[k + i];
    }
  }

  /** Appending an absent element keeps a list free of duplicates. */
  lemma AppendFresh(a: seq<string>, x: string)
    requires Distinct(a) && x !in a
    ensures Distinct(a + [x])
  {
    var w := a + [x];
    forall i, j | 0 <= i < j < |w| ensures w[i] != w[j] {
      assert w[i] == a[i];
      if j < |a| { assert w[j] == a[j]; }
    }
  }

  /** Saving keeps the list valid, and the saved message occurs exactly once. */
  lemma SavePreservesValid(c: Configuration, comment: string)
    requires Valid(c)
    ensures Valid(SaveCommitMessage(c, comment))
    ensures comment != "" ==> Occurrences(SaveCommitMessage(c, comment).lastCommitMessages, comment) == 1
  {
    if comment != "" {
      var s := c.lastCommitMessages;
      var rest := RemoveFirst(s, comment);
      RemoveFirstDistinct(s, comment);
      assert comment !in rest;
      var kept := EvictOldest(rest);
      SuffixDistinct(kept, rest);
      assert comment !in kept;
      forall i | 0 <= i < |kept| ensures kept[i] != "" {
        assert kept[i] in rest;
      }
      AppendValid(kept, comment);
    }
  }

  /** A valid list with room, extended by a fresh non-empty message. */
  lemma AppendValid(kept: seq<string>, comment: string)
    requires Distinct(kept) && comment !in kept && comment != "" && |kept| < MaxStoredMessages
    requires forall i | 0 <= i < |kept| :: kept[i] != ""
    ensures Valid(Configuration(kept + [comment]))
    ensures Occurrences(kept + [comment], comment) == 1
  {
    AppendFresh(kept, comment);
    var r := kept + [comment];
    forall i | 0 <= i < |r| ensures r[i] != "" {
      if i < |kept| { assert r[i] == kept[i]; }
    }
    OccurrencesAppend(kept, [comment], comment);
    OccurrencesAbsent(kept, comment);
    assert [comment][1..] == [];
  }

  /** How often `x` occurs in `s`. */
  function Occurrences(s: seq<string>, x: string): nat {
    if |s| == 0 then 0 else (if s[0] == x then 1 else 0) + Occurrences(s[1..], x)
  }

  lemma {:induction false} OccurrencesAppend(a: seq<string>, b: seq<string>, x: string)
    ensures Occurrences(a + b, x) == Occurrences(a, x) + Occurrences(b, x)
  {
    if |a| == 0 {
      assert a + b == b;
    } else {
      assert (a + b)[1..] == a[1..] + b;
      OccurrencesAppend(a[1..], b, x);
    }
  }

  lemma {:induction false} OccurrencesAbsent(s: seq<string>, x: string)
    requires x !in s
    ensures Occurrences(s, x) == 0
  {
    if |s| > 0 {
      assert x !in s[1..];
      OccurrencesAbsent(s[1..], x);
    }
  }

  /** `getLastCommitMessage`: null exactly when no message is stored. */
  function GetLastCommitMessage(c: Configuration): (r: Option<string>)
    ensures r.None? <==> |c.lastCommitMessages| == 0
    ensures r.Some? ==> r.value == c.lastCommitMessages[|c.lastCommitMessages| - 1]
  {
    if |c.lastCommitMessages| == 0 then None
    else Some(c.lastCommitMessages[|c.lastCommitMessages| - 1])
  }

  /** After saving a message, it is the last one. */
  lemma SavedIsLast(c: Configuration, comment: string)
    requires comment != ""
    ensures GetLastCommitMessage(SaveCommitMessage(c, comment)) == Some(comment)
  {
  }

  /** `getRecentMessages`: a copy of the stored list. */
  function GetRecentMessages(c: Configuration): (r: seq<string>)
  {
    c.lastCommitMessages
  }

  /** `removeMessage`: drops the first occurrence of the message. */
  function RemoveMessage(c: Configuration, content: string): (r: Configuration)
    ensures content !in c.lastCommitMessages ==> r == c
    ensures content in c.lastCommitMessages ==> |r.lastCommitMessages| == |c.lastCommitMessages| - 1
    ensures content in c.lastCommitMessages ==>
              var i := IndexOf(c.lastCommitMessages, content);
              r.lastCommitMessages == c.lastCommitMessages[..i] + c.lastCommitMessages[i + 1..]
    ensures Valid(c) ==> Valid(r) && content !in r.lastCommitMessages
  {
    RemoveKeepsValid(c, content);
    var r := Configuration(RemoveFirst(c.lastCommitMessages, content));
    if content in c.lastCommitMessages then RemoveFirstAt(c.lastCommitMessages, content); r else r
  }

  lemma RemoveKeepsValid(c: Configuration, content: string)
    ensures Valid(c) ==> Valid(Configuration(RemoveFirst(c.lastCommitMessages, content)))
                         && content !in RemoveFirst(c.lastCommitMessages, content)
  {
    var r := RemoveFirst(c.lastCommitMessages, content);
    if Valid(c) {
      RemoveFirstDistinct(c.lastCommitMessages, content);
      forall i | 0 <= i < |r| ensures r[i] != "" {
        assert r[i] in c.lastCommitMessages;
      }
    }
  }

  /** The fold `readExternal` performs: each stored message, in order,
      saved as if committed. */
  function Replay(c: Configuration, messages: seq<string>): Configuration
    decreases |messages|
  {
    if |messages| == 0 then c
    else SaveCommitMessage(Replay(c, messages[..|messages| - 1]), messages[|messages| - 1])
  }

  /** The tag of the child elements that carry the stored messages. */
  const MessageElementName := "MESSAGE"

  /** A child of the configuration's element, reduced to its tag and text. */
  datatype Child = Child(name: string, text: string)

  /** The texts of the MESSAGE children, in document order. */
  function MessageTexts(children: seq<Child>): (r: seq<string>)
    ensures |r| <= |children|
    decreases |children|
  {
    if |children| == 0 then []
    else
      var init := MessageTexts(children[..|children| - 1]);
      var last := children[|children| - 1];
      if last.name == MessageElementName then init + [last.text] else init
  }

  /** `readExternal`: every MESSAGE child of the element, in order, saved as
      if committed; the other children are not looked at here. */
  method ReadExternal(c: Configuration, children: seq<Child>) returns (r: Configuration)
    ensures r == Replay(c, MessageTexts(children))
    ensures Valid(c) ==> Valid(r)
  {
    r := c;
    ghost var messages: seq<string> := [];
    var i := 0;
    while i < |children|
      invariant 0 <= i <= |children|
      invariant messages == MessageTexts(children[..i])
      invariant r == Replay(c, messages)
    {
      MessageTextsStep(children, i);
      if children[i].name == MessageElementName {
        ReplayStep(c, messages, children[i].text);
        r := SaveCommitMessage(r, children[i].text);
        messages := messages + [children[i].text];
      }
      i := i + 1;
    }
    assert children[..i] == children;
    ReplayValid(c, messages);
  }

  /** One more child adds its text to the MESSAGE texts iff it is a MESSAGE. */
  lemma MessageTextsStep(children: seq<Child>, i: int)
    requires 0 <= i < |children|
    ensures MessageTexts(children[..i + 1])
            == if children[i].name == MessageElementName then MessageTexts(children[..i]) + [children[i].text]
               else MessageTexts(children[..i])
  {
    assert children[..i + 1][..i] == children[..i];
  }

  /** Replaying one more message saves it after the others. */
  lemma ReplayStep(c: Configuration, messages: seq<string>, m: string)
    ensures Replay(c, messages + [m]) == SaveCommitMessage(Replay(c, messages), m)
  {
    assert (messages + [m])[..|messages|] == messages;
  }

  /** Replaying messages into a valid history keeps it valid. */
  lemma {:induction false} ReplayValid(c: Configuration, messages: seq<string>)
    ensures Valid(c) ==> Valid(Replay(c, messages))
    decreases |messages|
  {
    if Valid(c) && |messages| > 0 {
      var n := |messages| - 1;
      var prev := Replay(c, messages[..n]);
      ReplayValid(c, messages[..n]);
      SavePreservesValid(prev, messages[n]);
    }
  }

  /** `writeExternal`: one MESSAGE child per stored message, oldest first,
      appended after the children already written. */
  function WriteExternal(c: Configuration, written: seq<Child>): (r: seq<Child>)
    ensures |r| == |written| + |c.lastCommitMessages|
    ensures r[..|written|] == written
    ensures forall i | 0 <= i < |c.lastCommitMessages| ::
              r[|written| + i] == Child(MessageElementName, c.lastCommitMessages[i])
  {
    written + seq(|c.lastCommitMessages|, i requires 0 <= i < |c.lastCommitMessages| =>
                    Child(MessageElementName, c.lastCommitMessages[i]))
  }

  /** The MESSAGE texts of children without MESSAGE tags followed by
      written messages are exactly those messages. */
  lemma {:induction false} MessageTextsOfWritten(written: seq<Child>, messages: seq<string>)
    requires forall i | 0 <= i < |written| :: written[i].name != MessageElementName
    ensures MessageTexts(written + seq(|messages|, i requires 0 <= i < |messages| => Child(MessageElementName, messages[i])))
            == messages
    decreases |messages|
  {
    var tail := seq(|messages|, i requires 0 <= i < |messages| => Child(MessageElementName, messages[i]));
    if |messages| == 0 {
      assert written + tail == written;
      NoMessageTexts(written);
    } else {
      var n := |messages| - 1;
      var init := seq(n, i requires 0 <= i < n => Child(MessageElementName, messages[..n][i]));
      assert (written + tail)[..|written| + n] == written + init;
      MessageTextsOfWritten(written, messages[..n]);
      assert messages == messages[..n] + [messages[n]];
    }
  }

  lemma {:induction false} NoMessageTexts(children: seq<Child>)
    requires forall i | 0 <= i < |children| :: children[i].name != MessageElementName
    ensures MessageTexts(children) == []
    decreases |children|
  {
    if |children| > 0 {
      NoMessageTexts(children[..|children| - 1]);
    }
  }

  /** Writing a valid history after any other children (the externalized
      fields, none tagged MESSAGE) and reading the element back into an
      empty configuration restores the history. */
  lemma {:induction false} WriteReadRoundTrip(c: Configuration, fields: seq<Child>)
    requires Valid(c)
    requires forall i | 0 <= i < |fields| :: fields[i].name != MessageElementName
    ensures Replay(Empty, MessageTexts(WriteExternal(c, fields))) == c
  {
    WrittenTexts(c, fields);
    ReplayHistory(c);
  }

  /** The MESSAGE texts of the written element are the stored history. */
  lemma WrittenTexts(c: Configuration, fields: seq<Child>)
    requires forall i | 0 <= i < |fields| :: fields[i].name != MessageElementName
    ensures MessageTexts(WriteExternal(c, fields)) == c.lastCommitMessages
  {
    var s := c.lastCommitMessages;
    var messages := seq(|s|, i requires 0 <= i < |s| => Child(MessageElementName, s[i]));
    assert WriteExternal(c, fields) == fields + messages;
    MessageTextsOfWritten(fields, s);
  }

  /** Saving a valid history's messages in order into an empty
      configuration rebuilds it. */
  lemma ReplayHistory(c: Configuration)
    requires Valid(c)
    ensures Replay(Empty, c.lastCommitMessages) == c
  {
    var s := c.lastCommitMessages;
    ReplayPrefix(s, |s|);
    assert s[..|s|] == s;
  }

  lemma {:induction false} ReplayPrefix(s: seq<string>, k: int)
    requires Valid(Configuration(s)) && 0 <= k <= |s|
    ensures Replay(Empty, s[..k]) == Configuration(s[..k])
  {
    if k > 0 {
      ReplayPrefix(s, k - 1);
      PrefixStep(s, k);
      SaveFresh(s[..k - 1], s[k - 1]);
    }
  }

  /** The prefix of a valid history, one entry longer: the new entry is
      non-empty and not among the earlier ones, and there is room for it. */
  lemma PrefixStep(s: seq<string>, k: int)
    requires Valid(Configuration(s)) && 0 < k <= |s|
    ensures s[..k] == s[..k - 1] + [s[k - 1]]
    ensures s[..k][..k - 1] == s[..k - 1] && |s[..k]| == k
    ensures s[k - 1] != "" && s[k - 1] !in s[..k - 1] && |s[..k - 1]| < MaxStoredMessages
  {
    var init := s[..k - 1];
    forall j | 0 <= j < k - 1 ensures init[j] != s[k - 1] {
      assert init[j] == s[j];
    }
  }

  /** What `writeExternal` stores is what `getRecentMessages` returns, and
      its last entry is what `getLastCommitMessage` returns. */
  lemma {:induction false} RecentMessagesWritten(c: Configuration, fields: seq<Child>)
    requires forall i | 0 <= i < |fields| :: fields[i].name != MessageElementName
    ensures MessageTexts(WriteExternal(c, fields)) == GetRecentMessages(c)
    ensures var recent := GetRecentMessages(c);
            GetLastCommitMessage(c) == if |recent| == 0 then None else Some(recent[|recent| - 1])
  {
    var s := c.lastCommitMessages;
    assert WriteExternal(c, fields) == fields + seq(|s|, i requires 0 <= i < |s| => Child(MessageElementName, s[i]));
    MessageTextsOfWritten(fields, s);
    assert GetRecentMessages(c) == s;
  }

  /** Saving a new message into a list with room for it just appends it. */
  lemma SaveFresh(s: seq<string>, comment: string)
    requires comment != "" && comment !in s && |s| < MaxStoredMessages
    ensures SaveCommitMessage(Configuration(s), comment) == Configuration(s + [comment])
  {
    assert RemoveFirst(s, comment) == s;
    assert EvictOldest(s) == s;
  }
}
