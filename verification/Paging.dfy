/** Cursor paging, newest first: of a conversation's messages, and of its shared attachments and links by message. */
module Paging {
  import opened Identifiers

  type Sequence = nat

  datatype Kind = Media | Files | Voice | Gifs

  /** An attachment with the one tab it falls in. */
  datatype Attachment = Attachment(id: nat, kind: Kind)

  /** A message with its attachments in order of creation. */
  datatype Message = Message(sequence: Sequence, hasLink: bool, attachments: seq<Attachment>)

  /** What is being listed: all messages, those with links, or those with attachments of a kind. */
  datatype Listing = AllMessages | Links | Attachments(kind: Kind)

  /** A conversation's messages, oldest first. */
  type Table = seq<Message>

  ghost predicate Ascending(table: Table) {
    forall i, j | 0 <= i < j < |table| :: table[i].sequence < table[j].sequence
  }

  ghost predicate Descending(messages: seq<Message>) {
    forall i, j | 0 <= i < j < |messages| :: messages[i].sequence > messages[j].sequence
  }

  function MatchingAttachments(attachments: seq<Attachment>, kind: Kind): seq<Attachment>
    decreases |attachments|
  {
    if attachments == [] then []
    else
      var earlier, last := MatchingAttachments(attachments[..|attachments| - 1], kind), attachments[|attachments| - 1];
      if last.kind == kind then earlier + [last] else earlier
  }

  predicate Listed(m: Message, listing: Listing) {
    match listing
    case AllMessages => true
    case Links => m.hasLink
    case Attachments(kind) => MatchingAttachments(m.attachments, kind) != []
  }

  predicate Selected(m: Message, before: Option<Sequence>, listing: Listing) {
    (before.Some? ==> m.sequence < before.value) && Listed(m, listing)
  }

  /** The rows of the query without its limit: the selected messages, newest first. */
  function Older(table: Table, before: Option<Sequence>, listing: Listing): seq<Message>
    decreases |table|
  {
    if table == [] then []
    else
      var last, rest := table[|table| - 1], Older(table[..|table| - 1], before, listing);
      if Selected(last, before, listing) then [last] + rest else rest
  }

  datatype Page = Page(messages: seq<Message>, nextBefore: Option<Sequence>)

  /** Cutting the row too many, which is there exactly when another page follows. */
  function Cut(rows: seq<Message>, limit: nat): Page
    requires limit > 0
  {
    if |rows| > limit then Page(rows[..limit], Some(rows[limit - 1].sequence)) else Page(rows, None)
  }

  function Limited(rows: seq<Message>, limit: nat): seq<Message> {
    if |rows| > limit then rows[..limit] else rows
  }

  /** One request: at most limit + 1 rows are loaded, and the extra one is dropped again. */
  function PageOf(table: Table, before: Option<Sequence>, listing: Listing, limit: nat): Page
    requires limit > 0
  {
    Cut(Limited(Older(table, before, listing), limit + 1), limit)
  }

  function SequencesOf(rows: seq<Message>): (sequences: seq<Sequence>)
    ensures |sequences| == |rows| && forall i | 0 <= i < |rows| :: sequences[i] == rows[i].sequence
    decreases |rows|
  {
    if rows == [] then [] else SequencesOf(rows[..|rows| - 1]) + [rows[|rows| - 1].sequence]
  }

  /** `page_cursor`: truncates the sequences of the loaded rows to those of the page, and returns its cursor. */
  method PageCursor(sequences: seq<Sequence>, limit: nat, ghost rows: seq<Message>)
    returns (kept: seq<Sequence>, next: Option<Sequence>)
    requires limit > 0 && sequences == SequencesOf(rows)
    ensures kept == SequencesOf(Cut(rows, limit).messages) && next == Cut(rows, limit).nextBefore
  {
    kept, next := sequences, None;
    if |kept| > limit {
      kept := kept[..limit];
      next := if kept == [] then None else Some(kept[|kept| - 1]);
    }
    assert kept == SequencesOf(Cut(rows, limit).messages);
  }

  // ----- the rows -----

  lemma {:induction false} OlderExactly(table: Table, before: Option<Sequence>, listing: Listing, m: Message)
    ensures m in Older(table, before, listing) <==> m in table && Selected(m, before, listing)
    decreases |table|
  {
    if table != [] {
      var n := |table| - 1;
      OlderExactly(table[..n], before, listing, m);
      assert table == table[..n] + [table[n]];
    }
  }

  lemma {:induction false} OlderDescends(table: Table, before: Option<Sequence>, listing: Listing)
    requires Ascending(table)
    ensures Descending(Older(table, before, listing))
    decreases |table|
  {
    if table != [] {
      var n := |table| - 1;
      var rest := Older(table[..n], before, listing);
      OlderDescends(table[..n], before, listing);
      forall k | 0 <= k < |rest| ensures rest[k].sequence < table[n].sequence {
        OlderExactly(table[..n], before, listing, rest[k]);
        var j :| 0 <= j < n && table[..n][j] == rest[k];
        assert table[j].sequence < table[n].sequence;
      }
    }
  }

  /** A page is the newest of the selected rows; the rest is what lies before its cursor. */
  lemma PageAndRest(table: Table, before: Option<Sequence>, listing: Listing, limit: nat)
    requires limit > 0
    ensures var rows, page := Older(table, before, listing), PageOf(table, before, listing, limit);
      page == Cut(rows, limit)
  {}

  /** A page holds at most `limit` messages, and as many as that when another follows, which is exactly when more are
      selected; its cursor is its last message's. */
  lemma PagesAreFull(table: Table, before: Option<Sequence>, listing: Listing, limit: nat)
    requires limit > 0
    ensures var rows, page := Older(table, before, listing), PageOf(table, before, listing, limit);
      && |page.messages| == (if |rows| > limit then limit else |rows|) && page.messages <= rows
      && (page.nextBefore.Some? <==> |rows| > limit)
      && (page.nextBefore.Some? ==> page.nextBefore == Some(page.messages[limit - 1].sequence))
  {
    PageAndRest(table, before, listing, limit);
  }

  /** Asking before the cursor gives the rows after it. */
  lemma {:induction false} BeforeCursor(table: Table, before: Option<Sequence>, listing: Listing, i: nat)
    requires Ascending(table) && i < |Older(table, before, listing)|
    ensures Older(table, Some(Older(table, before, listing)[i].sequence), listing) ==
      Older(table, before, listing)[i + 1..]
    decreases |table|
  {
    var n := |table| - 1;
    var rows, rest := Older(table, before, listing), Older(table[..n], before, listing);
    OlderDescends(table, before, listing);
    if Selected(table[n], before, listing) {
      if i == 0 {
        AllBefore(table[..n], before, listing, table[n].sequence);
        assert rows[1..] == rest;
      } else {
        BeforeCursor(table[..n], before, listing, i - 1);
        assert rows[i] == rest[i - 1] && rows[0].sequence > rows[i].sequence;
        assert rows[i + 1..] == rest[i..];
      }
    } else {
      BeforeCursor(table[..n], before, listing, i);
      OlderExactly(table[..n], before, listing, rest[i]);
      var j :| 0 <= j < n && table[..n][j] == rest[i];
      assert table[j].sequence < table[n].sequence;
    }
  }

  /** A bound above the whole table selects as no bound, or as the one there is. */
  lemma {:induction false} AllBefore(table: Table, before: Option<Sequence>, listing: Listing, bound: Sequence)
    requires forall i | 0 <= i < |table| :: table[i].sequence < bound
    requires before.Some? ==> bound < before.value
    ensures Older(table, Some(bound), listing) == Older(table, before, listing)
    decreases |table|
  {
    if table != [] {
      AllBefore(table[..|table| - 1], before, listing, bound);
    }
  }

  // ----- following the cursor -----

  /** What the requests return together; request k sees the table of its time, and none follows the last page. */
  function Collected(tables: seq<Table>, before: Option<Sequence>, listing: Listing, limit: nat): seq<Message>
    requires limit > 0
  {
    if tables == [] then []
    else
      var page := PageOf(tables[0], before, listing, limit);
      if page.nextBefore.None? then page.messages
      else page.messages + Collected(tables[1..], page.nextBefore, listing, limit)
  }

  /** The last page comes within the requests. */
  predicate Ends(tables: seq<Table>, before: Option<Sequence>, listing: Listing, limit: nat)
    requires limit > 0
  {
    tables != [] &&
    var page := PageOf(tables[0], before, listing, limit);
    page.nextBefore.None? || Ends(tables[1..], page.nextBefore, listing, limit)
  }

  ghost predicate AllAscending(tables: seq<Table>) {
    forall k | 0 <= k < |tables| :: Ascending(tables[k])
  }

  ghost predicate Below(messages: seq<Message>, before: Option<Sequence>) {
    before.Some? ==> forall i | 0 <= i < |messages| :: messages[i].sequence < before.value
  }

  lemma OlderBelow(table: Table, before: Option<Sequence>, listing: Listing)
    ensures Below(Older(table, before, listing), before)
  {
    var rows := Older(table, before, listing);
    forall i | 0 <= i < |rows| ensures before.Some? ==> rows[i].sequence < before.value {
      OlderExactly(table, before, listing, rows[i]);
    }
  }

  lemma PagesJoin(page: seq<Message>, later: seq<Message>, before: Option<Sequence>)
    requires page != [] && Descending(page) && Below(page, before)
    requires Descending(later) && Below(later, Some(page[|page| - 1].sequence))
    ensures Descending(page + later) && Below(page + later, before)
  {}

  lemma PageDescends(table: Table, before: Option<Sequence>, listing: Listing, limit: nat)
    requires limit > 0 && Ascending(table)
    ensures var page := PageOf(table, before, listing, limit);
      Descending(page.messages) && Below(page.messages, before)
      && (page.nextBefore.Some? ==>
        page.messages != [] && page.nextBefore == Some(page.messages[|page.messages| - 1].sequence))
  {
    PageAndRest(table, before, listing, limit);
    OlderDescends(table, before, listing);
    OlderBelow(table, before, listing);
  }

  /** Whatever happens to the table between requests, nothing comes twice and everything comes newest first. */
  lemma {:induction false} NothingComesTwice(tables: seq<Table>, before: Option<Sequence>, listing: Listing, limit: nat)
    requires limit > 0 && AllAscending(tables)
    ensures Descending(Collected(tables, before, listing, limit))
      && Below(Collected(tables, before, listing, limit), before)
    decreases |tables|
  {
    if tables != [] {
      var page := PageOf(tables[0], before, listing, limit);
      PageDescends(tables[0], before, listing, limit);
      if page.nextBefore.Some? {
        NothingComesTwice(tables[1..], page.nextBefore, listing, limit);
        PagesJoin(page.messages, Collected(tables[1..], page.nextBefore, listing, limit), before);
      }
    }
  }

  /** Whatever else happens between requests, a selected message that is there at every request comes. */
  lemma {:induction false} WhatStaysComes(tables: seq<Table>, before: Option<Sequence>, listing: Listing, limit: nat,
                                          m: Message)
    requires limit > 0 && AllAscending(tables) && Ends(tables, before, listing, limit)
    requires Selected(m, before, listing) && forall k | 0 <= k < |tables| :: m in tables[k]
    ensures m in Collected(tables, before, listing, limit)
    decreases |tables|
  {
    var rows, page := Older(tables[0], before, listing), PageOf(tables[0], before, listing, limit);
    PageAndRest(tables[0], before, listing, limit);
    OlderExactly(tables[0], before, listing, m);
    OlderDescends(tables[0], before, listing);
    if page.nextBefore.Some? && m !in page.messages {
      var i :| 0 <= i < |rows| && rows[i] == m;
      assert forall k | 0 <= k < limit :: page.messages[k] == rows[k];
      WhatStaysComes(tables[1..], page.nextBefore, listing, limit, m);
    }
  }

  /** Between requests newer messages may be appended. */
  ghost predicate OnlyAppended(tables: seq<Table>) {
    AllAscending(tables) && forall k | 0 < k < |tables| :: tables[k - 1] <= tables[k]
  }

  lemma LaterTables(tables: seq<Table>)
    requires OnlyAppended(tables) && tables != []
    ensures OnlyAppended(tables[1..])
  {
    assert forall k | 0 < k < |tables| - 1 :: tables[1..][k - 1] == tables[k] && tables[1..][k] == tables[k + 1];
  }

  /** Appended messages are newer than any cursor, so they are not selected. */
  lemma {:induction false} AppendedAreNotSelected(table: Table, more: Table, cursor: Sequence, listing: Listing)
    requires table <= more && forall i | |table| <= i < |more| :: more[i].sequence >= cursor
    ensures Older(more, Some(cursor), listing) == Older(table, Some(cursor), listing)
    decreases |more|
  {
    if |more| > |table| {
      assert table <= more[..|more| - 1];
      AppendedAreNotSelected(table, more[..|more| - 1], cursor, listing);
    } else {
      assert more == table;
    }
  }

  lemma NextRequestSeesTheRest(table: Table, more: Table, before: Option<Sequence>, listing: Listing, i: nat)
    requires Ascending(table) && Ascending(more) && table <= more && i < |Older(table, before, listing)|
    ensures Older(more, Some(Older(table, before, listing)[i].sequence), listing) ==
      Older(table, before, listing)[i + 1..]
  {
    var m := Older(table, before, listing)[i];
    OlderExactly(table, before, listing, m);
    var j :| 0 <= j < |table| && table[j] == m;
    forall k | |table| <= k < |more| ensures more[k].sequence >= m.sequence {
      assert more[j] == table[j] && more[j].sequence < more[k].sequence;
    }
    AppendedAreNotSelected(table, more, m.sequence, listing);
    BeforeCursor(table, before, listing, i);
  }

  /** A page that is not the last, and what the next request sees, make up the rows. */
  lemma PageAndNextRequest(table: Table, more: Table, before: Option<Sequence>, listing: Listing, limit: nat)
    requires limit > 0 && Ascending(table) && Ascending(more) && table <= more
    requires PageOf(table, before, listing, limit).nextBefore.Some?
    ensures var page := PageOf(table, before, listing, limit);
      page.messages + Older(more, page.nextBefore, listing) == Older(table, before, listing)
    ensures |Older(more, PageOf(table, before, listing, limit).nextBefore, listing)| ==
      |Older(table, before, listing)| - limit
  {
    var rows := Older(table, before, listing);
    PageAndRest(table, before, listing, limit);
    NextRequestSeesTheRest(table, more, before, listing, limit - 1);
    assert rows == rows[..limit] + rows[limit..];
  }

  /** Following the cursor to the end returns exactly what the first request could see, each message once, newest
      first, even though newer messages arrive meanwhile. */
  lemma {:induction false} EverythingExactlyOnce(tables: seq<Table>, before: Option<Sequence>, listing: Listing,
                                                 limit: nat)
    requires limit > 0 && OnlyAppended(tables) && Ends(tables, before, listing, limit)
    ensures Collected(tables, before, listing, limit) == Older(tables[0], before, listing)
    decreases |tables|
  {
    var page := PageOf(tables[0], before, listing, limit);
    if page.nextBefore.Some? {
      PageAndNextRequest(tables[0], tables[1], before, listing, limit);
      LaterTables(tables);
      EverythingExactlyOnce(tables[1..], page.nextBefore, listing, limit);
    } else {
      PageAndRest(tables[0], before, listing, limit);
    }
  }

  lemma OneRequestLess(requests: nat, limit: nat, rows: nat)
    requires requests > 0 && limit < rows <= requests * limit
    ensures requests > 1 && rows - limit <= (requests - 1) * limit
  {
    assert (requests - 1) * limit == requests * limit - limit;
  }

  /** As many requests as there are pages in the first table's rows, and at least one, are enough. */
  lemma {:induction false} FinitelyManyRequests(tables: seq<Table>, before: Option<Sequence>, listing: Listing,
                                                limit: nat)
    requires limit > 0 && OnlyAppended(tables) && tables != []
    requires |Older(tables[0], before, listing)| <= |tables| * limit
    ensures Ends(tables, before, listing, limit)
    decreases |tables|
  {
    var rows, page := Older(tables[0], before, listing), PageOf(tables[0], before, listing, limit);
    PageAndRest(tables[0], before, listing, limit);
    if page.nextBefore.Some? {
      OneRequestLess(|tables|, limit, |rows|);
      PageAndNextRequest(tables[0], tables[1], before, listing, limit);
      LaterTables(tables);
      FinitelyManyRequests(tables[1..], page.nextBefore, listing, limit);
    }
  }

  /** Following the cursor from the start lists a message exactly when it is there at the first request and is of what
      was asked for: any message, one with a link, or one with an attachment of the kind. */
  lemma ListedExactly(tables: seq<Table>, listing: Listing, limit: nat, m: Message)
    requires limit > 0 && OnlyAppended(tables) && Ends(tables, None, listing, limit)
    ensures m in Collected(tables, None, listing, limit) <==>
      m in tables[0] && match listing
                        case AllMessages => true
                        case Links => m.hasLink
                        case Attachments(kind) => exists a <- m.attachments :: a.kind == kind
  {
    EverythingExactlyOnce(tables, None, listing, limit);
    OlderExactly(tables[0], None, listing, m);
    if listing.Attachments? { SomeMatch(m.attachments, listing.kind); }
  }

  // ----- attachments, never split -----

  /** They keep the order of the message. */
  lemma {:induction false} MatchingOfConcat(a: seq<Attachment>, b: seq<Attachment>, kind: Kind)
    ensures MatchingAttachments(a + b, kind) == MatchingAttachments(a, kind) + MatchingAttachments(b, kind)
    decreases |b|
  {
    if b == [] {
      assert a + b == a;
    } else {
      assert (a + b)[..|a + b| - 1] == a + b[..|b| - 1];
      MatchingOfConcat(a, b[..|b| - 1], kind);
    }
  }

  /** The attachments of the kind, each as often as it is there. */
  lemma {:induction false} MatchingExactly(attachments: seq<Attachment>, kind: Kind, a: Attachment)
    ensures multiset(MatchingAttachments(attachments, kind))[a] ==
      if a.kind == kind then multiset(attachments)[a] else 0
    decreases |attachments|
  {
    if attachments != [] {
      var n := |attachments| - 1;
      MatchingExactly(attachments[..n], kind, a);
      assert attachments == attachments[..n] + [attachments[n]];
    }
  }

  lemma SomeMatch(attachments: seq<Attachment>, kind: Kind)
    ensures MatchingAttachments(attachments, kind) != [] <==> exists a <- attachments :: a.kind == kind
  {
    forall a ensures a in MatchingAttachments(attachments, kind) <==> a in attachments && a.kind == kind {
      MatchingExactly(attachments, kind, a);
      assert a in attachments <==> multiset(attachments)[a] > 0;
      assert a in MatchingAttachments(attachments, kind) <==> multiset(MatchingAttachments(attachments, kind))[a] > 0;
    }
    if MatchingAttachments(attachments, kind) != [] {
      assert MatchingAttachments(attachments, kind)[0] in MatchingAttachments(attachments, kind);
    }
  }

  /** The items of a page of attachments: all the matching ones of each of its messages. */
  function Items(messages: seq<Message>, kind: Kind): seq<(Sequence, Attachment)>
    decreases |messages|
  {
    if messages == [] then []
    else
      var last := messages[|messages| - 1];
      Items(messages[..|messages| - 1], kind) + Labelled(last.sequence, MatchingAttachments(last.attachments, kind))
  }

  function Labelled(sequence: Sequence, attachments: seq<Attachment>): (items: seq<(Sequence, Attachment)>)
    ensures |items| == |attachments| && forall i | 0 <= i < |items| :: items[i] == (sequence, attachments[i])
    decreases |attachments|
  {
    if attachments == [] then []
    else Labelled(sequence, attachments[..|attachments| - 1]) + [(sequence, attachments[|attachments| - 1])]
  }

  /** The items of all pages of a session, page after page. */
  function CollectedItems(tables: seq<Table>, before: Option<Sequence>, kind: Kind, limit: nat)
    : seq<(Sequence, Attachment)>
    requires limit > 0
  {
    if tables == [] then []
    else
      var page := PageOf(tables[0], before, Attachments(kind), limit);
      if page.nextBefore.None? then Items(page.messages, kind)
      else Items(page.messages, kind) + CollectedItems(tables[1..], page.nextBefore, kind, limit)
  }

  lemma {:induction false} ItemsOfConcat(a: seq<Message>, b: seq<Message>, kind: Kind)
    ensures Items(a + b, kind) == Items(a, kind) + Items(b, kind)
    decreases |b|
  {
    if b == [] {
      assert a + b == a;
    } else {
      assert (a + b)[..|a + b| - 1] == a + b[..|b| - 1];
      ItemsOfConcat(a, b[..|b| - 1], kind);
    }
  }

  lemma ItemsOfFirst(m: Message, rest: seq<Message>, kind: Kind)
    ensures Items([m] + rest, kind) ==
      Labelled(m.sequence, MatchingAttachments(m.attachments, kind)) + Items(rest, kind)
  {
    assert [m][..0] == [] && Items([], kind) == [];
    ItemsOfConcat([m], rest, kind);
  }

  lemma {:induction false} PagesOfItems(tables: seq<Table>, before: Option<Sequence>, kind: Kind, limit: nat)
    requires limit > 0
    ensures CollectedItems(tables, before, kind, limit) ==
      Items(Collected(tables, before, Attachments(kind), limit), kind)
    decreases |tables|
  {
    if tables != [] {
      var page := PageOf(tables[0], before, Attachments(kind), limit);
      if page.nextBefore.Some? {
        PagesOfItems(tables[1..], page.nextBefore, kind, limit);
        ItemsOfConcat(page.messages, Collected(tables[1..], page.nextBefore, Attachments(kind), limit), kind);
      }
    }
  }

  /** All attachments of the kind in a table, by message newest first, whether or not a message has any. */
  function AllItems(table: Table, kind: Kind): seq<(Sequence, Attachment)>
    decreases |table|
  {
    if table == [] then []
    else
      var last := table[|table| - 1];
      Labelled(last.sequence, MatchingAttachments(last.attachments, kind)) + AllItems(table[..|table| - 1], kind)
  }

  lemma {:induction false} ListedMessagesHaveAllItems(table: Table, kind: Kind)
    ensures Items(Older(table, None, Attachments(kind)), kind) == AllItems(table, kind)
    decreases |table|
  {
    if table != [] {
      var n := |table| - 1;
      ListedMessagesHaveAllItems(table[..n], kind);
      if Listed(table[n], Attachments(kind)) {
        ItemsOfFirst(table[n], Older(table[..n], None, Attachments(kind)), kind);
      } else {
        assert Labelled(table[n].sequence, MatchingAttachments(table[n].attachments, kind)) == [];
      }
    }
  }

  /** Every attachment of the kind comes exactly once, in order, and the pages never part a message's attachments:
      what they return is the full list of the first table, message by message. */
  lemma AttachmentsExactlyOnce(tables: seq<Table>, kind: Kind, limit: nat)
    requires limit > 0 && OnlyAppended(tables) && Ends(tables, None, Attachments(kind), limit)
    ensures CollectedItems(tables, None, kind, limit) == AllItems(tables[0], kind)
  {
    PagesOfItems(tables, None, kind, limit);
    EverythingExactlyOnce(tables, None, Attachments(kind), limit);
    ListedMessagesHaveAllItems(tables[0], kind);
  }
}
