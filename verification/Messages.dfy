/** The direct-message table, its queries, and paging backwards through a chat. */
module Messages {
  import opened Domain
  import opened Wrappers

  datatype MessageType = TEXT | STICKER

  datatype MessageStatus = SENT | SEEN

  datatype Message = Message(id: MessageId, content: string, authorId: UserId, recipientId: UserId,
                             directChatId: ChatId, status: MessageStatus, kind: MessageType,
                             stickerUrl: Option<string>, createdAt: Time)

  datatype SortType = TIME_ASC | TIME_DESC

  datatype Page = Page(hasMoreMessages: bool, directMessages: seq<Message>)

  /** Rows in the order they were inserted, which is that of their ids. */
  ghost predicate Ascending(rows: seq<Message>) {
    forall i, j :: 0 <= i < j < |rows| ==> rows[i].id < rows[j].id
  }

  // ----- queries

  /** The rows of a chat below an offset, or up to it, by ascending id. */
  function Below(rows: seq<Message>, chat: ChatId, offset: MessageId, inclusive: bool): seq<Message> {
    if rows == [] then []
    else
      var last := rows[|rows| - 1];
      var front := Below(rows[..|rows| - 1], chat, offset, inclusive);
      if last.directChatId == chat && (last.id < offset || (inclusive && last.id == offset))
      then front + [last] else front
  }

  /** `getNewerDirectMessages`: the rows of a chat above an offset, by ascending id. */
  function Newer(rows: seq<Message>, chat: ChatId, offset: MessageId): seq<Message> {
    if rows == [] then []
    else
      var last := rows[|rows| - 1];
      var front := Newer(rows[..|rows| - 1], chat, offset);
      if last.directChatId == chat && last.id > offset then front + [last] else front
  }

  function InChat(rows: seq<Message>, chat: ChatId): seq<Message> {
    if rows == [] then []
    else
      var last := rows[|rows| - 1];
      var front := InChat(rows[..|rows| - 1], chat);
      if last.directChatId == chat then front + [last] else front
  }

  function Reverse(s: seq<Message>): (r: seq<Message>)
    ensures |r| == |s| && forall i :: 0 <= i < |s| ==> r[i] == s[|s| - 1 - i]
  {
    if s == [] then [] else [s[|s| - 1]] + Reverse(s[..|s| - 1])
  }

  /** `getOlderDirectMessages`: the newest `limit` of them, by descending id. */
  function Older(rows: seq<Message>, chat: ChatId, offset: MessageId, limit: nat, inclusive: bool)
    : seq<Message>
  {
    var all := Reverse(Below(rows, chat, offset, inclusive));
    if |all| <= limit then all else all[..limit]
  }

  // ----- sorting a page by time

  ghost predicate SortedByTime(s: seq<Message>) {
    forall i, j :: 0 <= i < j < |s| ==> s[i].createdAt <= s[j].createdAt
  }

  /** Puts a message behind all those that are not later. */
  function InsertByTime(s: seq<Message>, m: Message): seq<Message> {
    if s == [] || s[|s| - 1].createdAt <= m.createdAt then s + [m]
    else InsertByTime(s[..|s| - 1], m) + [s[|s| - 1]]
  }

  /** `Array.prototype.sort` with the difference of times, a stable sort. */
  function SortByTime(s: seq<Message>): seq<Message> {
    if s == [] then [] else InsertByTime(SortByTime(s[..|s| - 1]), s[|s| - 1])
  }

  function SortFetched(s: seq<Message>, sortType: SortType): seq<Message> {
    match sortType
    case TIME_ASC => SortByTime(s)
    case TIME_DESC => s
  }

  /** The messages of one instant, in order. */
  function AtTime(s: seq<Message>, t: Time): seq<Message> {
    if s == [] then []
    else
      var front := AtTime(s[..|s| - 1], t);
      if s[|s| - 1].createdAt == t then front + [s[|s| - 1]] else front
  }

  ghost predicate SameByTime(a: seq<Message>, b: seq<Message>) {
    forall t :: AtTime(a, t) == AtTime(b, t)
  }

  lemma AtTimeSnoc(s: seq<Message>, m: Message, t: Time)
    ensures AtTime(s + [m], t) == AtTime(s, t) + if m.createdAt == t then [m] else []
  {
    assert (s + [m])[..|s|] == s;
  }

  lemma {:induction false} InsertMembers(s: seq<Message>, m: Message)
    ensures multiset(InsertByTime(s, m)) == multiset(s) + multiset{m}
  {
    if s != [] && s[|s| - 1].createdAt > m.createdAt {
      InsertMembers(s[..|s| - 1], m);
      MembersButLast(s);
    }
  }

  lemma {:induction false} InsertSorted(s: seq<Message>, m: Message)
    requires SortedByTime(s)
    ensures SortedByTime(InsertByTime(s, m))
  {
    if s != [] && s[|s| - 1].createdAt > m.createdAt {
      var front, last := s[..|s| - 1], s[|s| - 1];
      InsertSorted(front, m);
      InsertMembers(front, m);
      var r := InsertByTime(front, m);
      forall i | 0 <= i < |r| ensures r[i].createdAt <= last.createdAt {
        assert r[i] in multiset(r);
        assert r[i] in front || r[i] == m;
      }
    }
  }

  lemma {:induction false} InsertAtTime(s: seq<Message>, m: Message, t: Time)
    ensures AtTime(InsertByTime(s, m), t) == AtTime(s + [m], t)
  {
    AtTimeSnoc(s, m, t);
    if s != [] && s[|s| - 1].createdAt > m.createdAt {
      var front, last := s[..|s| - 1], s[|s| - 1];
      InsertAtTime(front, m, t);
      AtTimeSnoc(front, m, t);
      AtTimeSnoc(InsertByTime(front, m), last, t);
    }
  }

  lemma MembersButLast(s: seq<Message>)
    requires s != []
    ensures multiset(s) == multiset(s[..|s| - 1]) + multiset{s[|s| - 1]}
  {
    assert s == s[..|s| - 1] + [s[|s| - 1]];
  }

  lemma {:induction false} SortMembers(s: seq<Message>)
    ensures multiset(SortByTime(s)) == multiset(s)
  {
    if s != [] {
      SortMembers(s[..|s| - 1]);
      InsertMembers(SortByTime(s[..|s| - 1]), s[|s| - 1]);
      MembersButLast(s);
    }
  }

  lemma {:induction false} SortSorted(s: seq<Message>)
    ensures SortedByTime(SortByTime(s))
  {
    if s != [] {
      SortSorted(s[..|s| - 1]);
      InsertSorted(SortByTime(s[..|s| - 1]), s[|s| - 1]);
    }
  }

  lemma {:induction false} SortAtTime(s: seq<Message>, t: Time)
    ensures AtTime(SortByTime(s), t) == AtTime(s, t)
  {
    if s != [] {
      var front, last := s[..|s| - 1], s[|s| - 1];
      SortAtTime(front, t);
      InsertAtTime(SortByTime(front), last, t);
      AtTimeSnoc(SortByTime(front), last, t);
    }
  }

  /** The sort gives a permutation, in order of time, that keeps the order within an instant; any
      other such order is the same one. */
  lemma SortByTimeExactly(s: seq<Message>, r: seq<Message>)
    ensures SortedByTime(SortByTime(s)) && multiset(SortByTime(s)) == multiset(s)
    ensures r == SortByTime(s) <==> SortedByTime(r) && SameByTime(r, s)
  {
    SortSorted(s);
    SortMembers(s);
    forall t ensures AtTime(SortByTime(s), t) == AtTime(s, t) {
      SortAtTime(s, t);
    }
    if SortedByTime(r) && SameByTime(r, s) {
      StableSortUnique(r, SortByTime(s));
    }
  }

  lemma {:induction false} AtTimeMember(s: seq<Message>, t: Time)
    ensures AtTime(s, t) != [] <==> exists i :: 0 <= i < |s| && s[i].createdAt == t
  {
    if s != [] {
      AtTimeMember(s[..|s| - 1], t);
      if exists i :: 0 <= i < |s| && s[i].createdAt == t {
        var i :| 0 <= i < |s| && s[i].createdAt == t;
        if i < |s| - 1 { assert s[..|s| - 1][i].createdAt == t; }
      }
      if AtTime(s[..|s| - 1], t) != [] {
        var i :| 0 <= i < |s| - 1 && s[..|s| - 1][i].createdAt == t;
        assert s[i].createdAt == t;
      }
    }
  }

  /** There is only one such order, so any stable sort gives it. */
  lemma {:induction false} StableSortUnique(a: seq<Message>, b: seq<Message>)
    requires SortedByTime(a) && SortedByTime(b) && SameByTime(a, b)
    ensures a == b
    decreases |a|
  {
    SomeOfTime(a, b);
    SomeOfTime(b, a);
    if a != [] {
      var a', x, b', y := a[..|a| - 1], a[|a| - 1], b[..|b| - 1], b[|b| - 1];
      assert a == a' + [x] && b == b' + [y];
      LastAgrees(a', x, b', y);
      SortedPrefix(a', x);
      SortedPrefix(b', y);
      StableSortUnique(a', b');
    }
  }

  lemma SomeOfTime(a: seq<Message>, b: seq<Message>)
    requires SameByTime(a, b)
    ensures a != [] ==> exists i :: 0 <= i < |b| && b[i].createdAt == a[|a| - 1].createdAt
  {
    if a != [] {
      var t := a[|a| - 1].createdAt;
      AtTimeMember(a, t);
      AtTimeMember(b, t);
      assert AtTime(a, t) == AtTime(b, t);
    }
  }

  lemma LastAgrees(a: seq<Message>, x: Message, b: seq<Message>, y: Message)
    requires SortedByTime(a + [x]) && SortedByTime(b + [y]) && SameByTime(a + [x], b + [y])
    ensures x == y && SameByTime(a, b)
  {
    LastTimesAgree(a, x, b, y);
    LastOfTime(a, x);
    LastOfTime(b, y);
    assert AtTime(a + [x], x.createdAt) == AtTime(b + [y], x.createdAt);
    forall t ensures AtTime(a, t) == AtTime(b, t) {
      AtTimeSnoc(a, x, t);
      AtTimeSnoc(b, y, t);
      assert AtTime(a + [x], t) == AtTime(b + [y], t);
      ButLast(AtTime(a, t), AtTime(b, t), x);
    }
  }

  lemma LastTimesAgree(a: seq<Message>, x: Message, b: seq<Message>, y: Message)
    requires SortedByTime(a + [x]) && SortedByTime(b + [y]) && SameByTime(a + [x], b + [y])
    ensures x.createdAt == y.createdAt
  {
    SomeOfTime(a + [x], b + [y]);
    SomeOfTime(b + [y], a + [x]);
    LastIsLatest(a, x);
    LastIsLatest(b, y);
    assert (a + [x])[|a|] == x && (b + [y])[|b|] == y;
  }

  lemma SortedPrefix(s: seq<Message>, m: Message)
    requires SortedByTime(s + [m])
    ensures SortedByTime(s)
  {
    forall i, j | 0 <= i < j < |s| ensures s[i].createdAt <= s[j].createdAt {
      assert s[i] == (s + [m])[i] && s[j] == (s + [m])[j];
    }
  }

  lemma LastIsLatest(s: seq<Message>, m: Message)
    requires SortedByTime(s + [m])
    ensures forall i :: 0 <= i < |s + [m]| ==> (s + [m])[i].createdAt <= m.createdAt
  {
    assert (s + [m])[|s|] == m;
  }

  lemma LastOfTime(s: seq<Message>, m: Message)
    ensures var all := AtTime(s + [m], m.createdAt);
            all != [] && all[|all| - 1] == m
  {
    AtTimeSnoc(s, m, m.createdAt);
  }

  lemma ButLast(a: seq<Message>, b: seq<Message>, x: Message)
    ensures a + [x] == b + [x] ==> a == b
    ensures a + [] == b + [] ==> a == b
  {
    assert a == (a + [x])[..|a + [x]| - 1] && b == (b + [x])[..|b + [x]| - 1];
    assert a + [] == a && b + [] == b;
  }

  /** Falling ids, the order in which the older query fetches. */
  ghost predicate Falling(s: seq<Message>) {
    forall i, j :: 0 <= i < j < |s| ==> s[i].id > s[j].id
  }

  /** In order of time, and by falling id within an instant. */
  ghost predicate ByTimeThenFalling(s: seq<Message>) {
    forall i, j :: 0 <= i < j < |s| ==>
      s[i].createdAt < s[j].createdAt || (s[i].createdAt == s[j].createdAt && s[i].id > s[j].id)
  }

  lemma {:induction false} InsertInOrder(s: seq<Message>, m: Message)
    requires ByTimeThenFalling(s) && forall x :: x in s ==> x.id > m.id
    ensures ByTimeThenFalling(InsertByTime(s, m))
  {
    if s != [] && s[|s| - 1].createdAt > m.createdAt {
      var front, last := s[..|s| - 1], s[|s| - 1];
      InsertInOrder(front, m);
      InsertMembers(front, m);
      var r := InsertByTime(front, m);
      forall i | 0 <= i < |r|
        ensures r[i].createdAt < last.createdAt || (r[i].createdAt == last.createdAt && r[i].id > last.id)
      {
        assert r[i] in multiset(r);
        assert r[i] in front || r[i] == m;
      }
    }
  }

  lemma {:induction false} SortInOrder(s: seq<Message>)
    requires Falling(s)
    ensures ByTimeThenFalling(SortByTime(s))
  {
    if s != [] {
      var front, last := s[..|s| - 1], s[|s| - 1];
      SortInOrder(front);
      SortMembers(front);
      forall x | x in SortByTime(front) ensures x.id > last.id {
        assert x in multiset(SortByTime(front));
        assert x in front;
      }
      InsertInOrder(SortByTime(front), last);
    }
  }

  // ----- one page

  /** `getOlderDirectMessagesHandler`: one row more than asked for is fetched, and the last fetched
      row is dropped whether or not there is one too many. */
  function Handler(rows: seq<Message>, offset: MessageId, chat: ChatId, limit: nat,
                   isFirstTime: bool, sortType: SortType): Page
  {
    PageFrom(Older(rows, chat, offset, limit + 1, isFirstTime), limit, sortType)
  }

  function PageFrom(fetched: seq<Message>, limit: nat, sortType: SortType): Page {
    Page(|fetched| > limit,
         if fetched == [] then [] else SortFetched(fetched[..|fetched| - 1], sortType))
  }

  /** The page over the rows that remain: the newest `limit` of more than `limit`, and all but the
      lowest of no more than `limit`. */
  function PageOf(older: seq<Message>, limit: nat, sortType: SortType): Page {
    Page(|older| > limit, SortFetched(Kept(older, limit), sortType))
  }

  function Kept(older: seq<Message>, limit: nat): seq<Message> {
    var n := |older|;
    if n > limit then Reverse(older[n - limit..]) else if n == 0 then [] else Reverse(older[1..])
  }

  lemma HandlerPage(rows: seq<Message>, offset: MessageId, chat: ChatId, limit: nat,
                    isFirstTime: bool, sortType: SortType)
    ensures Handler(rows, offset, chat, limit, isFirstTime, sortType)
            == PageOf(Below(rows, chat, offset, isFirstTime), limit, sortType)
  {
    FetchedButLast(rows, chat, offset, limit, isFirstTime);
    PageCut(Below(rows, chat, offset, isFirstTime),
            Older(rows, chat, offset, limit + 1, isFirstTime), limit, sortType);
  }

  /** The order of a page: by time under TIME_ASC, with the rows of one instant as they were fetched,
      and as fetched, by falling id, under TIME_DESC. */
  lemma HandlerOrder(rows: seq<Message>, offset: MessageId, chat: ChatId, limit: nat,
                     isFirstTime: bool, sortType: SortType)
    requires Ascending(rows)
    ensures var messages := Handler(rows, offset, chat, limit, isFirstTime, sortType).directMessages;
            && (sortType == TIME_ASC ==> ByTimeThenFalling(messages))
            && (sortType == TIME_DESC ==> Falling(messages))
  {
    var fetched := Older(rows, chat, offset, limit + 1, isFirstTime);
    BelowAscending(rows, chat, offset, isFirstTime);
    OlderFalling(rows, chat, offset, limit + 1, isFirstTime);
    if fetched != [] {
      var kept := fetched[..|fetched| - 1];
      assert Falling(kept);
      SortInOrder(kept);
    }
  }

  lemma OlderFalling(rows: seq<Message>, chat: ChatId, offset: MessageId, limit: nat, inclusive: bool)
    requires Ascending(Below(rows, chat, offset, inclusive))
    ensures Falling(Older(rows, chat, offset, limit, inclusive))
  {
    ReverseFalling(Below(rows, chat, offset, inclusive));
  }

  lemma ReverseFalling(s: seq<Message>)
    requires Ascending(s)
    ensures Falling(Reverse(s))
  {
    var r := Reverse(s);
    forall i, j | 0 <= i < j < |r| ensures r[i].id > r[j].id {
      assert s[|s| - 1 - j].id < s[|s| - 1 - i].id;
    }
  }

  lemma PageCut(older: seq<Message>, fetched: seq<Message>, limit: nat, sortType: SortType)
    requires |fetched| == if |older| > limit then limit + 1 else |older|
    requires |older| > 0 ==> fetched[..|fetched| - 1] == Kept(older, limit)
    ensures PageFrom(fetched, limit, sortType) == PageOf(older, limit, sortType)
  {
  }

  lemma KeptIsFront(older: seq<Message>, limit: nat)
    requires |older| > 0
    ensures Kept(older, limit) == Reverse(older)[..if |older| > limit then limit else |older| - 1]
  {
    ReverseFront(older, if |older| > limit then limit else |older| - 1);
  }

  lemma FetchedButLast(rows: seq<Message>, chat: ChatId, offset: MessageId, limit: nat, inclusive: bool)
    ensures var older, fetched := Below(rows, chat, offset, inclusive),
                                  Older(rows, chat, offset, limit + 1, inclusive);
            && |fetched| == (if |older| > limit then limit + 1 else |older|)
            && (|older| > 0 ==> fetched[..|fetched| - 1] == Kept(older, limit))
  {
    var older := Below(rows, chat, offset, inclusive);
    if |older| > 0 {
      KeptIsFront(older, limit);
    }
  }

  ghost predicate IsReverse(s: seq<Message>, r: seq<Message>) {
    |r| == |s| && forall i :: 0 <= i < |s| ==> r[i] == s[|s| - 1 - i]
  }

  lemma ReversedFront(s: seq<Message>, r: seq<Message>, k: nat, q: seq<Message>)
    requires k <= |s| && IsReverse(s, r) && IsReverse(s[|s| - k..], q)
    ensures r[..k] == q
  {
    forall i | 0 <= i < k ensures r[i] == q[i] {
      assert q[i] == s[|s| - k..][k - 1 - i];
    }
  }

  lemma ReverseFront(s: seq<Message>, k: nat)
    requires k <= |s|
    ensures Reverse(s)[..k] == Reverse(s[|s| - k..])
  {
    ReversedFront(s, Reverse(s), k, Reverse(s[|s| - k..]));
  }

  /** With a limit of 0 every page is empty, and says that there is more as long as there is a row: a
      walk makes no progress. */
  lemma LimitZeroStalls(rows: seq<Message>, offset: MessageId, chat: ChatId, isFirstTime: bool,
                        sortType: SortType)
    ensures Handler(rows, offset, chat, 0, isFirstTime, sortType)
            == Page(Below(rows, chat, offset, isFirstTime) != [], [])
  {
    var older := Below(rows, chat, offset, isFirstTime);
    FetchedButLast(rows, chat, offset, 0, isFirstTime);
    var fetched := Older(rows, chat, offset, 1, isFirstTime);
    assert |fetched| == if older == [] then 0 else 1;
  }

  // ----- a whole walk

  ghost predicate IsLowestId(id: MessageId, messages: seq<Message>) {
    (exists i :: 0 <= i < |messages| && messages[i].id == id)
    && forall i :: 0 <= i < |messages| ==> id <= messages[i].id
  }

  /** The next offset of the client. */
  function LowestId(messages: seq<Message>): (id: MessageId)
    requires messages != []
    ensures IsLowestId(id, messages)
  {
    var last := messages[|messages| - 1];
    if |messages| == 1 then last.id
    else
      var front := messages[..|messages| - 1];
      var low := LowestId(front);
      assert forall i :: 0 <= i < |front| ==> front[i] == messages[i];
      if last.id < low then last.id else low
  }

  /** One call after the other, each against the table as it then is, while there is more. */
  function Walk(tables: seq<seq<Message>>, chat: ChatId, offset: MessageId, limit: nat,
                isFirstTime: bool, sortType: SortType): seq<Page>
    decreases |tables|
  {
    if tables == [] then []
    else
      var page := Handler(tables[0], offset, chat, limit, isFirstTime, sortType);
      if page.hasMoreMessages && page.directMessages != [] then
        [page] + Walk(tables[1..], chat, LowestId(page.directMessages), limit, false, sortType)
      else [page]
  }

  /** The pages over rows that stay as they are, cut from the newest end. */
  function Blocks(older: seq<Message>, limit: nat, sortType: SortType): seq<Page>
    requires limit >= 1
    decreases |older|
  {
    var page := PageOf(older, limit, sortType);
    if |older| > limit then [page] + Blocks(older[..|older| - limit], limit, sortType) else [page]
  }

  lemma {:induction false} BelowAscending(rows: seq<Message>, chat: ChatId, offset: MessageId, inclusive: bool)
    requires Ascending(rows)
    ensures Ascending(Below(rows, chat, offset, inclusive))
    ensures forall m :: m in Below(rows, chat, offset, inclusive) <==>
              m in rows && m.directChatId == chat
              && (m.id < offset || (inclusive && m.id == offset))
  {
    if rows != [] {
      var front, last := rows[..|rows| - 1], rows[|rows| - 1];
      BelowAscending(front, chat, offset, inclusive);
      assert rows == front + [last];
      assert forall m :: m in front ==> m.id < last.id;
    }
  }

  /** Below the id of one of them, the rows are those before it. */
  lemma {:induction false} BelowOneOfThem(rows: seq<Message>, chat: ChatId, offset: MessageId, inclusive: bool, k: nat)
    requires Ascending(rows) && k < |Below(rows, chat, offset, inclusive)|
    ensures var older := Below(rows, chat, offset, inclusive);
            Below(rows, chat, older[k].id, false) == older[..k]
  {
    var front, last := rows[..|rows| - 1], rows[|rows| - 1];
    var older, earlier := Below(rows, chat, offset, inclusive), Below(front, chat, offset, inclusive);
    BelowAscending(rows, chat, offset, inclusive);
    assert older[k] in older;
    if k < |earlier| {
      BelowOneOfThem(front, chat, offset, inclusive, k);
      assert older[k] == earlier[k] && earlier[k] in earlier;
      BelowAscending(front, chat, offset, inclusive);
      assert older[k].id < last.id;
      assert older[..k] == earlier[..k];
    } else {
      assert older[k] == last && older[..k] == earlier;
      BelowAll(front, chat, offset, inclusive, last.id);
    }
  }

  lemma {:induction false} BelowAll(rows: seq<Message>, chat: ChatId, offset: MessageId,
                                    inclusive: bool, bound: MessageId)
    requires forall m :: m in rows ==> m.id < bound
    requires bound <= offset
    ensures Below(rows, chat, bound, false) == Below(rows, chat, offset, inclusive)
  {
    if rows != [] {
      assert rows[|rows| - 1] in rows;
      BelowAll(rows[..|rows| - 1], chat, offset, inclusive, bound);
    }
  }

  /** The rows a walk starts from are the same in every table it is run against. */
  ghost predicate SameBelow(tables: seq<seq<Message>>, chat: ChatId, offset: MessageId, inclusive: bool,
                            older: seq<Message>)
  {
    forall i :: 0 <= i < |tables| ==>
      Ascending(tables[i]) && Below(tables[i], chat, offset, inclusive) == older
  }

  lemma LowestOfBlock(older: seq<Message>, limit: nat, sortType: SortType)
    requires Ascending(older) && 1 <= limit < |older|
    ensures var page := PageOf(older, limit, sortType);
            page.directMessages != [] && LowestId(page.directMessages) == older[|older| - limit].id
  {
    var block := older[|older| - limit..];
    var messages := PageOf(older, limit, sortType).directMessages;
    SortFetchedMembers(Reverse(block), sortType);
    ReverseMembers(block);
    assert block[0] in multiset(messages);
    var low := LowestId(messages);
    var i :| 0 <= i < |messages| && messages[i].id == low;
    assert messages[i] in multiset(messages);
    assert messages[i] in block;
    var j :| 0 <= j < |messages| && messages[j] == block[0];
    assert low <= block[0].id;
  }

  lemma SortFetchedMembers(s: seq<Message>, sortType: SortType)
    ensures multiset(SortFetched(s, sortType)) == multiset(s)
  {
    SortMembers(s);
  }

  lemma {:induction false} ReverseMembers(s: seq<Message>)
    ensures multiset(Reverse(s)) == multiset(s)
  {
    if s != [] {
      ReverseMembers(s[..|s| - 1]);
      MembersButLast(s);
    }
  }

  lemma {:induction false} WalkOverSameRows(tables: seq<seq<Message>>, chat: ChatId, offset: MessageId,
                                            limit: nat, isFirstTime: bool, sortType: SortType,
                                            older: seq<Message>)
    requires limit >= 1 && SameBelow(tables, chat, offset, isFirstTime, older)
    requires |tables| >= |Blocks(older, limit, sortType)|
    ensures Walk(tables, chat, offset, limit, isFirstTime, sortType) == Blocks(older, limit, sortType)
    decreases |tables|
  {
    assert Below(tables[0], chat, offset, isFirstTime) == older;
    HandlerPage(tables[0], offset, chat, limit, isFirstTime, sortType);
    BelowAscending(tables[0], chat, offset, isFirstTime);
    if |older| > limit {
      LowestOfBlock(older, limit, sortType);
      var k := |older| - limit;
      forall i | 0 <= i < |tables[1..]|
        ensures Ascending(tables[1..][i])
        ensures Below(tables[1..][i], chat, older[k].id, false) == older[..k]
      {
        assert Below(tables[i + 1], chat, offset, isFirstTime) == older;
        BelowOneOfThem(tables[i + 1], chat, offset, isFirstTime, k);
      }
      WalkOverSameRows(tables[1..], chat, older[k].id, limit, false, sortType, older[..k]);
    }
  }

  /** Everything the pages hold. */
  function Delivered(pages: seq<Page>): multiset<Message> {
    if pages == [] then multiset{}
    else multiset(pages[0].directMessages) + Delivered(pages[1..])
  }

  /** All but the lowest row. */
  function ButLowest(older: seq<Message>): seq<Message> {
    if older == [] then [] else older[1..]
  }

  /** Pages that cut the rows from the newest end: each that says there is more is exactly the
      `limit` newest of more than `limit` rows that remain; the last one, and only the last, says
      there is no more, and holds all that remain but the lowest. */
  ghost predicate Tiles(pages: seq<Page>, older: seq<Message>, limit: nat)
    decreases |pages|
  {
    && pages != []
    && var k := |older| - limit;
       if pages[0].hasMoreMessages then
         && k > 0
         && |pages[0].directMessages| == limit
         && multiset(pages[0].directMessages) == multiset(older[k..])
         && Tiles(pages[1..], older[..k], limit)
       else
         && k <= 0
         && multiset(pages[0].directMessages) == multiset(ButLowest(older))
         && |pages| == 1
  }

  lemma SameSize(a: seq<Message>, b: seq<Message>)
    requires multiset(a) == multiset(b)
    ensures |a| == |b|
  {
    assert |multiset(a)| == |a| && |multiset(b)| == |b|;
  }

  ghost predicate Fits(page: Page, older: seq<Message>, limit: nat) {
    var k := |older| - limit;
    && (page.hasMoreMessages <==> k > 0)
    && (k > 0 ==> |page.directMessages| == limit
                  && multiset(page.directMessages) == multiset(older[k..]))
    && (k <= 0 ==> multiset(page.directMessages) == multiset(ButLowest(older)))
  }

  lemma PageFits(older: seq<Message>, limit: nat, sortType: SortType)
    ensures Fits(PageOf(older, limit, sortType), older, limit)
  {
    var k := |older| - limit;
    var part := if k > 0 then older[k..] else ButLowest(older);
    SortFetchedMembers(Reverse(part), sortType);
    ReverseMembers(part);
    SameSize(SortFetched(Reverse(part), sortType), part);
  }

  lemma NextBlock(older: seq<Message>, limit: nat, sortType: SortType) returns (page: Page)
    requires limit >= 1
    ensures Fits(page, older, limit)
    ensures Blocks(older, limit, sortType)
            == [page] + if |older| > limit then Blocks(older[..|older| - limit], limit, sortType) else []
  {
    page := PageOf(older, limit, sortType);
    PageFits(older, limit, sortType);
  }

  lemma {:induction false} BlocksTile(older: seq<Message>, limit: nat, sortType: SortType)
    requires limit >= 1
    ensures Tiles(Blocks(older, limit, sortType), older, limit)
    decreases |older|
  {
    var page := NextBlock(older, limit, sortType);
    if |older| > limit {
      var left := older[..|older| - limit];
      BlocksTile(left, limit, sortType);
      TilesPrepend(page, Blocks(left, limit, sortType), older, limit);
    } else {
      TilesLast(page, older, limit);
    }
  }

  lemma TilesLast(page: Page, older: seq<Message>, limit: nat)
    requires |older| <= limit && Fits(page, older, limit)
    ensures Tiles([page] + [], older, limit)
  {
  }

  lemma TilesPrepend(page: Page, rest: seq<Page>, older: seq<Message>, limit: nat)
    requires |older| > limit && Fits(page, older, limit)
    requires Tiles(rest, older[..|older| - limit], limit)
    ensures Tiles([page] + rest, older, limit)
  {
    assert ([page] + rest)[1..] == rest;
  }

  lemma {:induction false} BlockCount(older: seq<Message>, limit: nat, sortType: SortType)
    requires limit >= 1
    ensures 1 <= |Blocks(older, limit, sortType)| <= |older| + 1
    decreases |older|
  {
    if |older| > limit {
      BlockCount(older[..|older| - limit], limit, sortType);
    }
  }

  lemma LowestStays(older: seq<Message>, k: nat)
    requires 1 <= k <= |older|
    ensures multiset(ButLowest(older)) == multiset(ButLowest(older[..k])) + multiset(older[k..])
  {
    assert older[1..] == older[..k][1..] + older[k..];
  }

  /** Together such pages hold every row once, except the lowest. */
  lemma {:induction false} TilesDeliver(pages: seq<Page>, older: seq<Message>, limit: nat)
    requires Tiles(pages, older, limit)
    ensures Delivered(pages) == multiset(ButLowest(older))
    decreases |pages|
  {
    var k := |older| - limit;
    if pages[0].hasMoreMessages {
      var left, block := older[..k], older[k..];
      TilesDeliver(pages[1..], left, limit);
      assert Delivered(pages) == multiset(block) + multiset(ButLowest(left));
      LowestStays(older, k);
    } else {
      assert pages[1..] == [];
      assert Delivered(pages) == multiset(ButLowest(older)) + multiset{};
    }
  }

  lemma {:induction false} TilesWithin(pages: seq<Page>, older: seq<Message>, limit: nat, j: nat, m: Message)
    requires Tiles(pages, older, limit) && j < |pages| && m in pages[j].directMessages
    ensures m in older
    decreases |pages|
  {
    assert m in multiset(pages[j].directMessages);
    if j > 0 {
      TilesWithin(pages[1..], older[..|older| - limit], limit, j - 1, m);
    } else if pages[0].hasMoreMessages {
      assert m in older[|older| - limit..];
    } else {
      assert m in ButLowest(older);
    }
  }

  lemma SameMember(a: seq<Message>, b: seq<Message>, m: Message)
    requires multiset(a) == multiset(b) && m in a
    ensures m in b
  {
    assert m in multiset(a);
  }

  lemma LaterHalf(older: seq<Message>, k: nat, m: Message, n: Message)
    requires Ascending(older) && k <= |older| && m in older[k..] && n in older[..k]
    ensures m.id > n.id
  {
  }

  /** Ids fall from page to page. */
  lemma {:induction false} TilesFall(pages: seq<Page>, older: seq<Message>, limit: nat, i: nat, j: nat,
                                     m: Message, n: Message)
    requires Ascending(older) && Tiles(pages, older, limit) && i < j < |pages|
    requires m in pages[i].directMessages && n in pages[j].directMessages
    ensures m.id > n.id
    decreases |pages|
  {
    var k := |older| - limit;
    if i > 0 {
      TilesFall(pages[1..], older[..k], limit, i - 1, j - 1, m, n);
    } else {
      TilesWithin(pages[1..], older[..k], limit, j - 1, n);
      SameMember(pages[0].directMessages, older[k..], m);
      LaterHalf(older, k, m, n);
    }
  }

  // ----- inserts

  /** New rows of the chat that come in above the offset leave the rows below it as they were. */
  lemma {:induction false} InsertsAboveKeepBelow(rows: seq<Message>, added: seq<Message>, chat: ChatId,
                                                 offset: MessageId, inclusive: bool)
    requires forall m :: m in added && m.directChatId == chat ==> m.id > offset
    ensures Below(rows + added, chat, offset, inclusive) == Below(rows, chat, offset, inclusive)
    decreases |added|
  {
    if added == [] {
      assert rows + added == rows;
    } else {
      var front, last := added[..|added| - 1], added[|added| - 1];
      assert (rows + added)[..|rows + added| - 1] == rows + front;
      assert last in added;
      InsertsAboveKeepBelow(rows, front, chat, offset, inclusive);
    }
  }

  /** The tables of a walk: each is the first one with rows added at the end. */
  ghost predicate Growing(tables: seq<seq<Message>>) {
    forall i :: 0 <= i < |tables| ==> Ascending(tables[i]) && tables[0] <= tables[i]
  }

  lemma AddedAbove(rows: seq<Message>, more: seq<Message>, chat: ChatId, offset: MessageId)
    requires Ascending(more) && rows <= more
    requires exists m :: m in rows && m.id >= offset
    ensures Below(more, chat, offset, false) == Below(rows, chat, offset, false)
  {
    var m :| m in rows && m.id >= offset;
    var added := more[|rows|..];
    assert more == rows + added;
    forall n | n in added ensures n.id > offset {
      var i :| 0 <= i < |rows| && rows[i] == m;
      var j :| 0 <= j < |added| && added[j] == n;
      assert more[i] == m && more[|rows| + j] == n;
    }
    InsertsAboveKeepBelow(rows, added, chat, offset, false);
  }

  /** Once the offset is the id of a row, what comes in later is above it. */
  lemma RestOfWalk(tables: seq<seq<Message>>, chat: ChatId, offset: MessageId, inclusive: bool, k: nat)
    requires tables != [] && Growing(tables)
    requires k < |Below(tables[0], chat, offset, inclusive)|
    ensures var older := Below(tables[0], chat, offset, inclusive);
            SameBelow(tables[1..], chat, older[k].id, false, older[..k])
  {
    var older := Below(tables[0], chat, offset, inclusive);
    assert Ascending(tables[0]);
    BelowAscending(tables[0], chat, offset, inclusive);
    BelowOneOfThem(tables[0], chat, offset, inclusive, k);
    assert older[k] in older;
    forall i | 0 <= i < |tables[1..]|
      ensures Ascending(tables[1..][i])
      ensures Below(tables[1..][i], chat, older[k].id, false) == older[..k]
    {
      assert tables[1..][i] == tables[i + 1];
      AddedAbove(tables[0], tables[i + 1], chat, older[k].id);
    }
  }

  /** The first page of a walk is the first block, and names the offset that the rest is below. */
  ghost predicate Starts(page: Page, older: seq<Message>, limit: nat, sortType: SortType)
    requires limit >= 1
  {
    && (page.hasMoreMessages <==> |older| > limit)
    && (|older| > limit ==>
          page.directMessages != [] && LowestId(page.directMessages) == older[|older| - limit].id)
    && Blocks(older, limit, sortType)
       == [page] + if |older| > limit then Blocks(older[..|older| - limit], limit, sortType) else []
  }

  lemma BlocksStart(older: seq<Message>, limit: nat, sortType: SortType)
    requires limit >= 1
    ensures Blocks(older, limit, sortType)
            == [PageOf(older, limit, sortType)]
               + if |older| > limit then Blocks(older[..|older| - limit], limit, sortType) else []
  {
  }

  lemma PageStarts(older: seq<Message>, limit: nat, sortType: SortType, page: Page)
    requires limit >= 1 && Ascending(older) && page == PageOf(older, limit, sortType)
    ensures Starts(page, older, limit, sortType)
  {
    BlocksStart(older, limit, sortType);
    if |older| > limit {
      LowestOfBlock(older, limit, sortType);
    }
  }

  lemma FirstPage(rows: seq<Message>, chat: ChatId, offset: MessageId, limit: nat,
                  isFirstTime: bool, sortType: SortType)
    requires limit >= 1 && Ascending(rows)
    ensures Starts(Handler(rows, offset, chat, limit, isFirstTime, sortType),
                   Below(rows, chat, offset, isFirstTime), limit, sortType)
  {
    HandlerPage(rows, offset, chat, limit, isFirstTime, sortType);
    BelowAscending(rows, chat, offset, isFirstTime);
    PageStarts(Below(rows, chat, offset, isFirstTime), limit, sortType,
               Handler(rows, offset, chat, limit, isFirstTime, sortType));
  }

  /** A walk whose first page starts the blocks, and whose rest gives the blocks that are left. */
  lemma WalkFrom(tables: seq<seq<Message>>, chat: ChatId, offset: MessageId, limit: nat,
                 isFirstTime: bool, sortType: SortType, older: seq<Message>)
    requires limit >= 1 && tables != []
    requires Starts(Handler(tables[0], offset, chat, limit, isFirstTime, sortType), older, limit, sortType)
    requires |older| > limit ==>
               Walk(tables[1..], chat, older[|older| - limit].id, limit, false, sortType)
               == Blocks(older[..|older| - limit], limit, sortType)
    ensures Walk(tables, chat, offset, limit, isFirstTime, sortType) == Blocks(older, limit, sortType)
  {
  }

  /** A walk, run against enough tables, gives the blocks of the rows that the first one holds,
      whatever is inserted between the calls and wherever the walk starts. */
  lemma WalkGivesBlocks(tables: seq<seq<Message>>, chat: ChatId, offset: MessageId, limit: nat,
                        isFirstTime: bool, sortType: SortType)
    requires limit >= 1 && tables != [] && Growing(tables)
    requires |tables| >= |Blocks(Below(tables[0], chat, offset, isFirstTime), limit, sortType)|
    ensures Walk(tables, chat, offset, limit, isFirstTime, sortType)
            == Blocks(Below(tables[0], chat, offset, isFirstTime), limit, sortType)
  {
    var older := Below(tables[0], chat, offset, isFirstTime);
    assert Ascending(tables[0]);
    FirstPage(tables[0], chat, offset, limit, isFirstTime, sortType);
    if |older| > limit {
      LaterTables(tables, chat, offset, limit, isFirstTime, sortType, older);
    }
    WalkFrom(tables, chat, offset, limit, isFirstTime, sortType, older);
  }

  lemma BlocksLength(older: seq<Message>, limit: nat, sortType: SortType)
    requires 1 <= limit < |older|
    ensures |Blocks(older, limit, sortType)| == 1 + |Blocks(older[..|older| - limit], limit, sortType)|
  {
    BlocksStart(older, limit, sortType);
  }

  lemma RestGivesBlocks(rest: seq<seq<Message>>, chat: ChatId, limit: nat, sortType: SortType,
                        older: seq<Message>)
    requires 1 <= limit < |older|
    requires SameBelow(rest, chat, older[|older| - limit].id, false, older[..|older| - limit])
    requires |rest| + 1 >= |Blocks(older, limit, sortType)|
    ensures Walk(rest, chat, older[|older| - limit].id, limit, false, sortType)
            == Blocks(older[..|older| - limit], limit, sortType)
  {
    BlocksLength(older, limit, sortType);
    WalkOverSameRows(rest, chat, older[|older| - limit].id, limit, false, sortType,
                     older[..|older| - limit]);
  }

  lemma LaterTables(tables: seq<seq<Message>>, chat: ChatId, offset: MessageId, limit: nat,
                    isFirstTime: bool, sortType: SortType, older: seq<Message>)
    requires tables != [] && Growing(tables)
    requires older == Below(tables[0], chat, offset, isFirstTime) && 1 <= limit < |older|
    requires |tables| >= |Blocks(older, limit, sortType)|
    ensures Walk(tables[1..], chat, older[|older| - limit].id, limit, false, sortType)
            == Blocks(older[..|older| - limit], limit, sortType)
  {
    RestOfWalk(tables, chat, offset, isFirstTime, |older| - limit);
    RestGivesBlocks(tables[1..], chat, limit, sortType, older);
  }

  /** A walk backwards from any offset, with messages coming in between the calls, ends; its pages
      cut the rows of the chat below the start into blocks of falling ids without a gap, and it
      delivers exactly the rows there were at the first call, each once, except the single lowest
      one. */
  lemma WalkDelivers(tables: seq<seq<Message>>, chat: ChatId, offset: MessageId, limit: nat,
                     isFirstTime: bool, sortType: SortType)
    requires limit >= 1 && tables != [] && Growing(tables)
    requires |tables| > |Below(tables[0], chat, offset, isFirstTime)|
    ensures var older := Below(tables[0], chat, offset, isFirstTime);
            var pages := Walk(tables, chat, offset, limit, isFirstTime, sortType);
            && Tiles(pages, older, limit)
            && Delivered(pages) == multiset(ButLowest(older))
            && (Delivered(pages) == multiset(older) <==> older == [])
            && (forall i, j, m, n ::
                  0 <= i < j < |pages| && m in pages[i].directMessages && n in pages[j].directMessages
                  ==> m.id > n.id)
  {
    var older := Below(tables[0], chat, offset, isFirstTime);
    assert Ascending(tables[0]);
    BelowAscending(tables[0], chat, offset, isFirstTime);
    BlocksTile(older, limit, sortType);
    BlockCount(older, limit, sortType);
    WalkGivesBlocks(tables, chat, offset, limit, isFirstTime, sortType);
    var pages := Blocks(older, limit, sortType);
    TilesDeliver(pages, older, limit);
    LowestMissed(older);
    forall i, j, m, n | 0 <= i < j < |pages| && m in pages[i].directMessages
                        && n in pages[j].directMessages
      ensures m.id > n.id
    {
      TilesFall(pages, older, limit, i, j, m, n);
    }
  }

  lemma LowestMissed(older: seq<Message>)
    ensures multiset(ButLowest(older)) == multiset(older) <==> older == []
  {
    assert |multiset(older)| == |older| && |multiset(ButLowest(older))| == |ButLowest(older)|;
  }

  /** Up to an offset and above it: the two queries split the rows of a chat exactly in two. */
  lemma {:induction false} OffsetSplitsChat(rows: seq<Message>, chat: ChatId, offset: MessageId)
    requires Ascending(rows)
    ensures Below(rows, chat, offset, true) + Newer(rows, chat, offset) == InChat(rows, chat)
  {
    if rows != [] {
      var front, last := rows[..|rows| - 1], rows[|rows| - 1];
      OffsetSplitsChat(front, chat, offset);
      if last.directChatId == chat && last.id <= offset {
        NoneNewer(front, chat, offset);
      }
    }
  }

  lemma {:induction false} NoneNewer(rows: seq<Message>, chat: ChatId, offset: MessageId)
    requires forall i :: 0 <= i < |rows| ==> rows[i].id <= offset
    ensures Newer(rows, chat, offset) == []
  {
    if rows != [] {
      NoneNewer(rows[..|rows| - 1], chat, offset);
    }
  }

  lemma {:induction false} NewerMembers(rows: seq<Message>, chat: ChatId, offset: MessageId)
    requires Ascending(rows)
    ensures Ascending(Newer(rows, chat, offset))
    ensures forall m :: m in Newer(rows, chat, offset) <==>
              m in rows && m.directChatId == chat && m.id > offset
  {
    if rows != [] {
      var front, last := rows[..|rows| - 1], rows[|rows| - 1];
      NewerMembers(front, chat, offset);
      assert rows == front + [last];
      assert forall m :: m in front ==> m.id < last.id;
    }
  }

  /** With the inclusive flag and a limit that does not bind, the older query and the newer one
      return each row of the chat once. */
  lemma OlderAndNewerPartition(rows: seq<Message>, chat: ChatId, offset: MessageId, limit: nat)
    requires Ascending(rows) && limit >= |rows|
    ensures Reverse(Older(rows, chat, offset, limit, true)) + Newer(rows, chat, offset)
            == InChat(rows, chat)
  {
    BelowSize(rows, chat, offset, true);
    OffsetSplitsChat(rows, chat, offset);
    var older := Below(rows, chat, offset, true);
    assert Reverse(Reverse(older)) == older;
  }

  /** Later inserts leave the older part as it was exactly when each of them that is of the chat has
      an id above the offset. */
  lemma OlderPartStaysExactly(rows: seq<Message>, added: seq<Message>, chat: ChatId, offset: MessageId,
                              limit: nat)
    requires Ascending(rows + added) && limit >= |rows + added|
    ensures Older(rows + added, chat, offset, limit, true) == Older(rows, chat, offset, limit, true) <==>
            forall m :: m in added && m.directChatId == chat ==> m.id > offset
  {
    if forall m :: m in added && m.directChatId == chat ==> m.id > offset {
      InsertsAboveKeepBelow(rows, added, chat, offset, true);
    } else {
      var m :| m in added && m.directChatId == chat && m.id <= offset;
      LaterRowOfChat(rows, added, chat, offset, m);
      BelowSize(rows, chat, offset, true);
      BelowSize(rows + added, chat, offset, true);
      ReverseMembers(Below(rows, chat, offset, true));
      ReverseMembers(Below(rows + added, chat, offset, true));
      OlderMember(rows, chat, offset, limit, m);
      OlderMember(rows + added, chat, offset, limit, m);
    }
  }

  lemma OlderMember(rows: seq<Message>, chat: ChatId, offset: MessageId, limit: nat, m: Message)
    requires limit >= |Below(rows, chat, offset, true)|
    ensures m in Older(rows, chat, offset, limit, true) <==> m in Below(rows, chat, offset, true)
  {
    var older := Below(rows, chat, offset, true);
    ReverseMembers(older);
    assert m in Reverse(older) <==> m in multiset(older);
  }

  lemma LaterRowOfChat(rows: seq<Message>, added: seq<Message>, chat: ChatId, offset: MessageId, m: Message)
    requires Ascending(rows + added)
    requires m in added && m.directChatId == chat && m.id <= offset
    ensures m in Below(rows + added, chat, offset, true) && m !in Below(rows, chat, offset, true)
  {
    var all := rows + added;
    forall i, j | 0 <= i < j < |rows| ensures rows[i].id < rows[j].id {
      assert all[i].id < all[j].id;
    }
    BelowAscending(all, chat, offset, true);
    BelowAscending(rows, chat, offset, true);
    var j :| 0 <= j < |added| && added[j] == m;
    forall i | 0 <= i < |rows| ensures rows[i] != m {
      assert all[i].id < all[|rows| + j].id;
    }
  }

  /** An offset that is not below the next id is such a case: the row that gets that id joins the
      older part. */
  lemma LateInsertJoinsOlder(m: Message)
    ensures Older([], m.directChatId, m.id, 1, true) == [] && Older([m], m.directChatId, m.id, 1, true) == [m]
  {
    assert Below([m][..0], m.directChatId, m.id, true) == [];
    assert Below([m], m.directChatId, m.id, true) == [m];
  }

  lemma BelowSize(rows: seq<Message>, chat: ChatId, offset: MessageId, inclusive: bool)
    ensures |Below(rows, chat, offset, inclusive)| <= |rows|
  {
  }

  // ----- the service

  datatype InsertError = UnknownReference | DuplicateTime

  /** The rows that the foreign keys of a message may point to. */
  datatype References = References(users: set<UserId>, chats: set<ChatId>, stickers: set<string>)

  predicate RefersToKnown(known: References, m: Message) {
    && m.authorId in known.users && m.recipientId in known.users && m.directChatId in known.chats
    && (m.stickerUrl.Some? ==> m.stickerUrl.value in known.stickers)
  }

  /** The unique key on (chat, time). */
  predicate TimeTaken(rows: seq<Message>, chat: ChatId, createdAt: Time) {
    exists i :: 0 <= i < |rows| && rows[i].directChatId == chat && rows[i].createdAt == createdAt
  }

  /** Both refusals use up the id that the row would have had. */
  function Insert(rows: seq<Message>, known: References, m: Message): Result<seq<Message>, InsertError> {
    if TimeTaken(rows, m.directChatId, m.createdAt) then Err(DuplicateTime)
    else if !RefersToKnown(known, m) then Err(UnknownReference)
    else Ok(rows + [m])
  }

  /** An insert is refused for its time exactly when some row has the same chat and the same time,
      and otherwise exactly when the author, the recipient, the chat or the sticker is unknown. */
  lemma InsertExactly(rows: seq<Message>, known: References, m: Message)
    ensures Insert(rows, known, m) == Err(DuplicateTime) <==>
            exists n :: n in rows && n.directChatId == m.directChatId && n.createdAt == m.createdAt
    ensures Insert(rows, known, m).Ok? <==>
            && (forall n :: n in rows ==> n.directChatId != m.directChatId || n.createdAt != m.createdAt)
            && m.authorId in known.users && m.recipientId in known.users && m.directChatId in known.chats
            && (m.stickerUrl.Some? ==> m.stickerUrl.value in known.stickers)
    ensures Insert(rows, known, m).Ok? ==> Insert(rows, known, m).value == rows + [m]
  {
    if TimeTaken(rows, m.directChatId, m.createdAt) {
      var i :| 0 <= i < |rows| && rows[i].directChatId == m.directChatId && rows[i].createdAt == m.createdAt;
      assert rows[i] in rows;
    }
  }

  class DirectMessageService {
    var rows: seq<Message>
    var nextId: MessageId

    ghost predicate Valid()
      reads this
    {
      Ascending(rows) && forall i :: 0 <= i < |rows| ==> rows[i].id < nextId
    }

    constructor ()
      ensures Valid() && rows == [] && nextId == 1
    {
      rows, nextId := [], 1;
    }

    method CreateNewMessage(encryptedContent: string, authorId: UserId, timestamp: Time,
                            directChatId: ChatId, recipientId: UserId, kind: MessageType,
                            stickerUrl: Option<string>, known: References)
      returns (r: Result<Message, InsertError>)
      requires Valid()
      modifies this
      ensures Valid() && nextId == old(nextId) + 1
      ensures var m := Message(old(nextId), encryptedContent, authorId, recipientId, directChatId,
                               SENT, kind, stickerUrl, timestamp);
              match Insert(old(rows), known, m)
              case Err(error) => r == Err(error) && rows == old(rows)
              case Ok(more) => r == Ok(m) && rows == more
      ensures r == Err(DuplicateTime) <==>
              exists n :: n in old(rows) && n.directChatId == directChatId && n.createdAt == timestamp
    {
      var message := Message(nextId, encryptedContent, authorId, recipientId, directChatId, SENT,
                             kind, stickerUrl, timestamp);
      InsertExactly(rows, known, message);
      nextId := nextId + 1;
      if TimeTaken(rows, directChatId, timestamp) {
        return Err(DuplicateTime);
      }
      if !RefersToKnown(known, message) {
        return Err(UnknownReference);
      }
      rows := rows + [message];
      r := Ok(message);
    }

    method GetNewerDirectMessages(messageOffset: MessageId, directChatId: ChatId)
      returns (messages: seq<Message>)
      requires Valid()
      ensures messages == Newer(rows, directChatId, messageOffset) && Ascending(messages)
      ensures forall m :: m in messages <==> m in rows && m.directChatId == directChatId && m.id > messageOffset
    {
      NewerMembers(rows, directChatId, messageOffset);
      messages := Newer(rows, directChatId, messageOffset);
    }

    method GetOlderDirectMessagesHandler(messageOffset: MessageId, directChatId: ChatId, limit: nat,
                                         isFirstTime: bool, sortType: SortType)
      returns (page: Page)
      ensures page == PageOf(Below(rows, directChatId, messageOffset, isFirstTime), limit, sortType)
      ensures Ascending(rows) && sortType == TIME_ASC ==> ByTimeThenFalling(page.directMessages)
      ensures Ascending(rows) && sortType == TIME_DESC ==> Falling(page.directMessages)
    {
      if Ascending(rows) {
        HandlerOrder(rows, messageOffset, directChatId, limit, isFirstTime, sortType);
      }
      var messages := Older(rows, directChatId, messageOffset, limit + 1, isFirstTime);
      var sortedMessages: seq<Message> := [];
      if |messages| > 0 {
        sortedMessages := messages[..|messages| - 1];
        sortedMessages := SortFetched(sortedMessages, sortType);
      }
      page := Page(|messages| > limit, sortedMessages);
      HandlerPage(rows, messageOffset, directChatId, limit, isFirstTime, sortType);
    }
  }
}
