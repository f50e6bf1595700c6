/**
 Cursor paging over the inbox: each page is cut by a row limit and by the byte budget of one
 response, and the pages of an unchanged store together are exactly the rows of the chosen state.

 A response's length is modelled additively: `info` bytes of everything that does not change,
 plus the encoded values of `messages`, `remaining`, `has_more` and `next_after`.
 */
module Paging {
  import opened Base
  import opened Inbox
  import opened InboxSafety
  import opened Store

  const MAX_READ_RESPONSE := 8 * 1048576
  const SLACK := 129
  const UUID_LENGTH := 36

  datatype Page = Page(messages: seq<Row>, remaining: nat, hasMore: bool, nextAfter: Option<string>)

  datatype PageResult = PageOf(page: Page) | CursorGone | TooLarge

  // ---------------------------------------------------------------- encoded lengths

  function DigitCount(n: nat): nat { if n < 10 then 1 else 1 + DigitCount(n / 10) }

  lemma {:induction false} DigitCountMono(n: nat, m: nat)
    requires n <= m
    ensures DigitCount(n) <= DigitCount(m)
  {
    if n >= 10 {
      DigitCountMono(n / 10, m / 10);
    }
  }

  function Sizes(rows: seq<Row>): nat {
    if rows == [] then 0 else rows[0].msg.size + Sizes(rows[1..])
  }

  /** Elements and the commas between them. */
  function MessagesLength(rows: seq<Row>): nat {
    if rows == [] then 0 else Sizes(rows) + |rows| - 1
  }

  function Encoded(info: nat, p: Page): nat {
    info + MessagesLength(p.messages) + DigitCount(p.remaining)
    + (if p.hasMore then 4 else 5)
    + (match p.nextAfter case None => 4 case Some(id) => |id| + 2)
  }

  // ---------------------------------------------------------------- the page

  predicate HasId(rows: seq<Row>, id: string) { exists i :: 0 <= i < |rows| && rows[i].id == id }

  function IndexOf(rows: seq<Row>, id: string): (i: nat)
    requires HasId(rows, id)
    ensures i < |rows| && rows[i].id == id
  {
    var n := |rows| - 1;
    if rows[n].id == id then n
    else
      assert HasId(rows[..n], id) by {
        var i :| 0 <= i < |rows| && rows[i].id == id;
        assert rows[..n][i].id == id;
      }
      IndexOf(rows[..n], id)
  }

  /** Where reading resumes; `None` when the cursor's row is no longer there. */
  function Start(rows: seq<Row>, after: Option<string>): (c: Option<nat>)
    ensures c.Some? ==> c.value <= |rows|
  {
    match after
    case None => Some(0)
    case Some(id) => if HasId(rows, id) then Some(IndexOf(rows, id) + 1) else None
  }

  /** The rows of a state still to be read from position `c` on. */
  function Rest(rows: seq<Row>, st: Status, c: nat): seq<Row>
    requires c <= |rows|
  {
    Select(rows[c..], st)
  }

  /** What the loop has spent before the first message: the response without messages, and the slack. */
  function Spent(info: nat, available: nat): nat {
    Encoded(info, Page([], available, available > 0, None)) + SLACK
  }

  /** How many leading rows fit when `size` bytes are spent already. */
  function Fitting(rows: seq<Row>, size: nat): (k: nat)
    ensures k <= |rows|
  {
    if rows == [] || size + rows[0].msg.size + 1 > MAX_READ_RESPONSE then 0
    else 1 + Fitting(rows[1..], size + rows[0].msg.size + 1)
  }

  /** The rows taken fit the budget together; with one more they would not. */
  lemma {:induction false} FittingExact(rows: seq<Row>, size: nat)
    ensures var k := Fitting(rows, size);
      && (k > 0 ==> size + Sizes(rows[..k]) + k <= MAX_READ_RESPONSE)
      && (k < |rows| ==> size + Sizes(rows[..k + 1]) + k + 1 > MAX_READ_RESPONSE)
  {
    var k := Fitting(rows, size);
    if k > 0 {
      FittingExact(rows[1..], size + rows[0].msg.size + 1);
      assert rows[..k][1..] == rows[1..][..k - 1];
    }
    if k < |rows| {
      assert rows[..k + 1][1..] == rows[1..][..k];
    }
  }

  /** The page holding the first `k` of the rows at hand, out of `rest` rows still to read. */
  function PageFrom(rest: seq<Row>, cut: seq<Row>, k: nat): PageResult
    requires k <= |cut| <= |rest|
  {
    if k == 0 then if rest == [] then PageOf(Page([], 0, false, None)) else TooLarge
    else PageOf(Page(cut[..k], |rest| - k, |rest| > k, if |rest| > k then Some(cut[k - 1].id) else None))
  }

  function PageSpec(rows: seq<Row>, st: Status, after: Option<string>, limit: nat, info: nat): PageResult
    requires limit >= 1
  {
    match Start(rows, after)
    case None => CursorGone
    case Some(c) =>
      var rest := Rest(rows, st, c);
      PageFrom(rest, Limit(rest, limit), Fitting(Limit(rest, limit), Spent(info, |rest|)))
  }

  /** Take rows one by one until the next one would exceed the budget. */
  method Fill(rows: seq<Row>, spent: nat) returns (messages: seq<Row>)
    ensures messages == rows[..Fitting(rows, spent)]
  {
    messages := [];
    var size: nat, k := spent, 0;
    while k < |rows|
      invariant 0 <= k <= |rows| && messages == rows[..k]
      invariant k + Fitting(rows[k..], size) == Fitting(rows, spent)
    {
      var n := rows[k].msg.size + 1;
      if size + n > MAX_READ_RESPONSE {
        break;
      }
      assert rows[k..][1..] == rows[k + 1..];
      size := size + n;
      messages := messages + [rows[k]];
      k := k + 1;
    }
  }

  /** Fill one page from the rows still to read, and point at the next page. */
  method Cut(rest: seq<Row>, limit: nat, info: nat) returns (r: PageResult)
    requires limit >= 1
    ensures r == PageFrom(rest, Limit(rest, limit), Fitting(Limit(rest, limit), Spent(info, |rest|)))
  {
    var messages := Fill(Limit(rest, limit), Spent(info, |rest|));
    if |messages| == 0 && rest != [] {
      return TooLarge;
    }
    r := PageOf(Page(messages, |rest| - |messages|, |rest| > |messages|,
                     if |rest| > |messages| then Some(messages[|messages| - 1].id) else None));
  }

  /** `Store.Page`: resolve the cursor, count what is left, and fill one page. */
  method ReadPage(store: Store, st: Status, after: Option<string>, limit: nat, info: nat) returns (r: PageResult)
    requires limit >= 1
    ensures r == PageSpec(store.rows, st, after, limit, info)
  {
    var c := Start(store.rows, after);
    if c.None? {
      return CursorGone;
    }
    r := Cut(Select(store.rows[c.value..], st), limit, info);
  }

  // ---------------------------------------------------------------- every page fits

  lemma SelectFrom(rows: seq<Row>, c: nat, st: Status, i: nat)
    requires c <= |rows| && i < |Select(rows[c..], st)|
    ensures Select(rows[c..], st)[i] in rows
  {
    SelectExact(rows[c..], st);
    assert Select(rows[c..], st)[i] in Select(rows[c..], st);
  }

  lemma FilledPageFits(rows: seq<Row>, st: Status, after: Option<string>, limit: nat, info: nat, p: Page)
    requires limit >= 1 && PageSpec(rows, st, after, limit, info) == PageOf(p)
    requires forall r :: r in rows ==> |r.id| == UUID_LENGTH
    requires p.messages != []
    ensures Encoded(info, p) + 1 <= MAX_READ_RESPONSE
  {
    var tail := rows[Start(rows, after).value..];
    var rest := Select(tail, st);
    var cut := Limit(rest, limit);
    var k := |p.messages|;
    FittingExact(cut, Spent(info, |rest|));
    DigitCountMono(|rest| - k, |rest|);
    assert |cut[k - 1].id| == UUID_LENGTH by {
      SelectFrom(rows, Start(rows, after).value, st, k - 1);
    }
  }

  /**
   A page, written with its trailing newline, stays within the response limit: the slack covers the
   longer `has_more`, the cursor in place of `null`, and a UUID is 36 bytes.  The budget is applied
   message by message, so a page without messages fits only if the rest of the response does.
   */
  lemma PageFits(rows: seq<Row>, st: Status, after: Option<string>, limit: nat, info: nat, p: Page)
    requires limit >= 1 && PageSpec(rows, st, after, limit, info) == PageOf(p)
    requires forall r :: r in rows ==> |r.id| == UUID_LENGTH
    ensures Encoded(info, p) + 1 <= MAX_READ_RESPONSE <==> p.messages != [] || info + 11 <= MAX_READ_RESPONSE
  {
    if p.messages != [] {
      FilledPageFits(rows, st, after, limit, info, p);
    }
  }

  /**
   Nothing bounds the rest of the response: it carries the last delivery error, whose text comes
   from the app-server.  At this size a read of an empty inbox succeeds with a response too large
   to send.
   */
  lemma OversizedEmptyPage() returns (p: Page)
    ensures PageSpec([], Unread, None, 1, MAX_READ_RESPONSE) == PageOf(p)
    ensures p.messages == [] && Encoded(MAX_READ_RESPONSE, p) + 1 > MAX_READ_RESPONSE
  {
    assert Rest([], Unread, 0) == [];
    p := Page([], 0, false, None);
  }

  /** A read with rows left is refused as too large if and only if the first of them does not fit. */
  lemma TooLargeExactly(rows: seq<Row>, st: Status, after: Option<string>, limit: nat, info: nat)
    requires limit >= 1 && Start(rows, after).Some?
    ensures var rest := Rest(rows, st, Start(rows, after).value);
      PageSpec(rows, st, after, limit, info) == TooLarge <==>
        rest != [] && Spent(info, |rest|) + rest[0].msg.size + 1 > MAX_READ_RESPONSE
  {
    var rest := Rest(rows, st, Start(rows, after).value);
    assert rest != [] ==> Limit(rest, limit)[0] == rest[0];
  }

  /** In particular, once the rest of the response reaches the limit every read with rows left is refused. */
  lemma OversizedInfoBlocksReads(rows: seq<Row>, st: Status, after: Option<string>, limit: nat, info: nat)
    requires limit >= 1 && Start(rows, after).Some? && info >= MAX_READ_RESPONSE
    ensures PageSpec(rows, st, after, limit, info) == TooLarge <==> Rest(rows, st, Start(rows, after).value) != []
  {
    TooLargeExactly(rows, st, after, limit, info);
  }

  /** A read is refused for its cursor if and only if no row has the cursor's ID any more. */
  lemma CursorGoneExactly(rows: seq<Row>, st: Status, after: Option<string>, limit: nat, info: nat)
    requires limit >= 1
    ensures PageSpec(rows, st, after, limit, info) == CursorGone <==>
      after.Some? && forall i :: 0 <= i < |rows| ==> rows[i].id != after.value
  {
  }

  /**
   A page never exceeds the limit asked for, and when it falls short of it, that is because nothing is
   left to read or because the next message would exceed eight mebibytes.
   */
  lemma PageSize(rows: seq<Row>, st: Status, after: Option<string>, limit: nat, info: nat, p: Page)
    requires limit >= 1 && PageSpec(rows, st, after, limit, info) == PageOf(p)
    ensures Start(rows, after).Some? && |p.messages| <= limit
    ensures var rest, k := Rest(rows, st, Start(rows, after).value), |p.messages|;
      k == limit || k == |rest|
      || (k < |rest| && Encoded(info, Page([], |rest|, true, None)) + 129 + Sizes(rest[..k + 1]) + k + 1 > 8388608)
  {
    var rest, k := Rest(rows, st, Start(rows, after).value), |p.messages|;
    var cut := Limit(rest, limit);
    FittingExact(cut, Spent(info, |rest|));
    if k < limit && k < |rest| {
      assert cut[..k + 1] == rest[..k + 1];
    }
  }

  // ---------------------------------------------------------------- reading everything

  lemma {:induction false} SelectConcat(a: seq<Row>, b: seq<Row>, st: Status)
    ensures Select(a + b, st) == Select(a, st) + Select(b, st)
  {
    if b == [] {
      assert a + b == a;
    } else {
      var n := |b| - 1;
      SelectConcat(a, b[..n], st);
      assert (a + b)[..|a| + n] == a + b[..n];
    }
  }

  lemma SelectParts(rows: seq<Row>, j: nat, st: Status)
    requires j <= |rows|
    ensures Select(rows, st) == Select(rows[..j], st) + Select(rows[j..], st)
  {
    SelectConcat(rows[..j], rows[j..], st);
    assert rows[..j] + rows[j..] == rows;
  }

  /** Continuing after the `k`th selected row leaves exactly the selected rows from `k` on. */
  lemma ContinueAt(rows: seq<Row>, j: nat, st: Status, k: nat)
    requires UniqueIds(rows) && j < |rows| && rows[j].state == st
    requires 0 < k <= |Select(rows, st)| && Select(rows, st)[k - 1] == rows[j]
    ensures Select(rows[j + 1..], st) == Select(rows, st)[k..]
  {
    var head := Select(rows[..j + 1], st);
    SelectParts(rows, j + 1, st);
    SelectLast(rows, j, st);
    SelectUnique(rows, st);
    SamePlace(Select(rows, st), |head| - 1, k - 1);
  }

  lemma SelectLast(rows: seq<Row>, j: nat, st: Status)
    requires j < |rows| && rows[j].state == st
    ensures var head := Select(rows[..j + 1], st); |head| > 0 && head[|head| - 1] == rows[j]
  {
    assert rows[..j + 1][..j] == rows[..j];
  }

  lemma SamePlace(rows: seq<Row>, i: nat, j: nat)
    requires UniqueIds(rows) && i < |rows| && j < |rows| && rows[i] == rows[j]
    ensures i == j
  {
  }

  /** A page is a prefix of what is left to read, with an exact count of the remainder. */
  lemma PageShape(rows: seq<Row>, st: Status, after: Option<string>, limit: nat, info: nat, p: Page)
    requires limit >= 1 && PageSpec(rows, st, after, limit, info) == PageOf(p)
    ensures Start(rows, after).Some?
    ensures var rest, k := Rest(rows, st, Start(rows, after).value), |p.messages|;
      && k <= |rest| && p.messages == rest[..k] && p.remaining == |rest| - k && p.hasMore == (k < |rest|)
      && (p.hasMore ==> k > 0 && p.nextAfter == Some(rest[k - 1].id))
  {
  }

  lemma SamePlaceId(rows: seq<Row>, i: nat, j: nat)
    requires UniqueIds(rows) && i < |rows| && j < |rows| && rows[i].id == rows[j].id
    ensures i == j
  {
  }

  /** Resolving the ID of a row finds the place after that row. */
  lemma ResolveCursor(rows: seq<Row>, i: nat)
    requires UniqueIds(rows) && i < |rows|
    ensures Start(rows, Some(rows[i].id)) == Some(i + 1)
  {
    assert HasId(rows, rows[i].id);
    SamePlaceId(rows, IndexOf(rows, rows[i].id), i);
  }

  lemma TailUnique(rows: seq<Row>, c: nat)
    requires UniqueIds(rows) && c <= |rows|
    ensures UniqueIds(rows[c..])
  {
  }

  /** The ID of the `k`th row read is a cursor from which exactly the rest can be read. */
  lemma NextCursor(rows: seq<Row>, st: Status, c: nat, k: nat)
    requires UniqueIds(rows) && c <= |rows| && 0 < k <= |Rest(rows, st, c)|
    ensures var next := Start(rows, Some(Rest(rows, st, c)[k - 1].id));
      next.Some? && Rest(rows, st, next.value) == Rest(rows, st, c)[k..]
  {
    var tail := rows[c..];
    SelectExact(tail, st);
    assert Select(tail, st)[k - 1] in Select(tail, st);
    var j :| 0 <= j < |tail| && tail[j] == Select(tail, st)[k - 1];
    assert rows[c + j] == tail[j];
    ResolveCursor(rows, c + j);
    assert rows[c + j + 1..] == tail[j + 1..];
    TailUnique(rows, c);
    ContinueAt(tail, j, st, k);
  }

  lemma PageStep(rows: seq<Row>, st: Status, after: Option<string>, limit: nat, info: nat, p: Page)
    requires UniqueIds(rows) && limit >= 1 && PageSpec(rows, st, after, limit, info) == PageOf(p)
    ensures Start(rows, after).Some?
    ensures var rest, k := Rest(rows, st, Start(rows, after).value), |p.messages|;
      && k <= |rest| && p.messages == rest[..k] && p.remaining == |rest| - k && p.hasMore == (k < |rest|)
      && (p.hasMore ==> k > 0 && Start(rows, p.nextAfter).Some?
                        && Rest(rows, st, Start(rows, p.nextAfter).value) == rest[k..])
  {
    PageShape(rows, st, after, limit, info, p);
    if p.hasMore {
      NextCursor(rows, st, Start(rows, after).value, |p.messages|);
    }
  }

  lemma Rejoin(rows: seq<Row>, k: nat)
    requires k <= |rows|
    ensures rows[..k] + rows[k..] == rows
  {
  }

  function Flatten(pages: seq<Page>): seq<Row> {
    if pages == [] then [] else pages[0].messages + Flatten(pages[1..])
  }

  /** Each page's `remaining` is the number of messages on the pages after it. */
  predicate ExactCounts(pages: seq<Page>) {
    pages == [] || (pages[0].remaining == |Flatten(pages[1..])| && ExactCounts(pages[1..]))
  }

  /** The pages got by following `next_after` from `after` to the end of an unchanged store. */
  ghost predicate Chain(rows: seq<Row>, st: Status, after: Option<string>, limit: nat,
                        info: Option<string> -> nat, pages: seq<Page>)
    requires limit >= 1
    decreases |pages|
  {
    && pages != []
    && PageSpec(rows, st, after, limit, info(after)) == PageOf(pages[0])
    && if pages[0].hasMore then Chain(rows, st, pages[0].nextAfter, limit, info, pages[1..]) else |pages| == 1
  }

  /** Following the cursors reads every row of the state once, in rowid order, with exact counts. */
  lemma {:induction false} ChainReadsAll(rows: seq<Row>, st: Status, after: Option<string>, limit: nat,
                                         info: Option<string> -> nat, pages: seq<Page>)
    requires UniqueIds(rows) && limit >= 1 && Chain(rows, st, after, limit, info, pages)
    ensures Start(rows, after).Some? && Flatten(pages) == Rest(rows, st, Start(rows, after).value)
    ensures ExactCounts(pages)
    ensures |pages| <= |Flatten(pages)| + 1
    decreases |pages|
  {
    var rest := Rest(rows, st, Start(rows, after).value);
    var k := |pages[0].messages|;
    PageStep(rows, st, after, limit, info(after), pages[0]);
    if pages[0].hasMore {
      ChainReadsAll(rows, st, pages[0].nextAfter, limit, info, pages[1..]);
      Rejoin(rest, k);
    } else {
      assert pages[1..] == [];
      assert rest[..k] == rest;
    }
  }

  lemma SpentMono(info: nat, n: nat, m: nat)
    requires 0 < n <= m
    ensures Spent(info, n) <= Spent(info, m)
  {
    DigitCountMono(n, m);
  }

  lemma FirstFits(rows: seq<Row>, st: Status, after: Option<string>, limit: nat, info: nat) returns (p: Page)
    requires limit >= 1 && Start(rows, after).Some?
    requires var rest := Rest(rows, st, Start(rows, after).value);
      rest != [] ==> Spent(info, |rest|) + rest[0].msg.size + 1 <= MAX_READ_RESPONSE
    ensures PageSpec(rows, st, after, limit, info) == PageOf(p)
  {
    p := PageSpec(rows, st, after, limit, info).page;
  }

  /** If every message fits a response of its own, the reading runs to the end. */
  lemma {:induction false} ChainExists(rows: seq<Row>, st: Status, after: Option<string>, limit: nat,
                                       info: Option<string> -> nat) returns (pages: seq<Page>)
    requires UniqueIds(rows) && limit >= 1 && Start(rows, after).Some?
    requires var rest := Rest(rows, st, Start(rows, after).value);
      forall r, c :: r in rest ==> Spent(info(c), |rest|) + r.msg.size + 1 <= MAX_READ_RESPONSE
    ensures Chain(rows, st, after, limit, info, pages)
    decreases |Rest(rows, st, Start(rows, after).value)|
  {
    var rest := Rest(rows, st, Start(rows, after).value);
    var p := FirstFits(rows, st, after, limit, info(after));
    pages := [p];
    PageStep(rows, st, after, limit, info(after), p);
    if p.hasMore {
      var k := |p.messages|;
      forall r, c | r in rest[k..] ensures Spent(info(c), |rest| - k) + r.msg.size + 1 <= MAX_READ_RESPONSE {
        SpentMono(info(c), |rest| - k, |rest|);
        assert r in rest;
      }
      var more := ChainExists(rows, st, p.nextAfter, limit, info);
      pages := [p] + more;
      assert pages[1..] == more;
    }
  }

  /** From the start of the inbox: all rows of the state, exactly once. */
  lemma ReadingIsComplete(s: Inbox, st: Status, limit: nat, info: Option<string> -> nat, pages: seq<Page>)
    requires Valid(s) && limit >= 1 && Chain(s.rows, st, None, limit, info, pages)
    ensures Flatten(pages) == Select(s.rows, st) && ExactCounts(pages)
    ensures UniqueIds(Flatten(pages)) && |Flatten(pages)| == Count(s.rows, InState(st))
  {
    ValidIds(s);
    ChainReadsAll(s.rows, st, None, limit, info, pages);
    assert s.rows[0..] == s.rows;
    SelectUnique(s.rows, st);
    SelectExact(s.rows, st);
  }
}
