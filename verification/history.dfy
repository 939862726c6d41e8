/**
 The paginated history fetch of `slack_backup.py` (`get_history`). The
 provider is a finite list of pages, answered one per call in order; the
 loop is written as a fold over that list.
 */
module History {
  import opened Messages

  /** One provider response: `response['messages']` and `response['has_more']`. */
  datatype Page = Page(messages: seq<Msg>, hasMore: bool)

  /** The arguments of one `history(channel=…, oldest=…, count=…)` call. */
  datatype Request = Request(channel: string, oldest: int, count: int)

  /** What a fetch produces: the sorted new messages and the calls made to get them. */
  datatype Fetch = Fetch(messages: seq<Msg>, requests: seq<Request>)

  /** The state the loop passes through: messages kept so far and the cursor in force for each page. */
  datatype Trace = Trace(kept: seq<Msg>, cursors: seq<Ts>)

  /** The default `page_size` of `get_history`. */
  const DefaultPageSize: int := 1000

  /** The provider eventually answers with a page that reports no more history. */
  predicate Exhausts(pages: seq<Page>)
  {
    exists i :: 0 <= i < |pages| && !pages[i].hasMore
  }

  /** Exactly the first `n` pages are requested: page `n-1` is the first without `has_more`. */
  predicate StopsAfter(pages: seq<Page>, n: int)
  {
    && 1 <= n <= |pages|
    && !pages[n - 1].hasMore
    && forall j :: 0 <= j < n - 1 ==> pages[j].hasMore
  }

  /** How many pages the loop requests: up to and including the first one without `has_more`. */
  function PagesRequested(pages: seq<Page>): (n: nat)
    requires Exhausts(pages)
    ensures StopsAfter(pages, n)
    decreases |pages|
  {
    if !pages[0].hasMore then 1
    else
      ExhaustsTail(pages);
      var rest := PagesRequested(pages[1..]);
      assert forall j :: 1 <= j < rest + 1 ==> pages[j] == pages[1..][j - 1];
      1 + rest
  }

  /** The stopping point is unique: no two page counts both satisfy the stopping rule. */
  lemma StopsAfterUnique(pages: seq<Page>, n: int, n': int)
    requires StopsAfter(pages, n) && StopsAfter(pages, n')
    ensures n == n'
  {
  }

  /**
   The cursor in force when page `j` is requested: the starting watermark for
   the first page, and the largest `ts` of the whole previous raw page after that.
   */
  function CursorFor(pages: seq<Page>, start: Ts, j: nat): Ts
    requires j < |pages|
  {
    if j == 0 then start else MaxTimestamp(pages[j - 1].messages)
  }

  /** The messages kept from the first `n` pages, each page filtered against its own cursor. */
  function Kept(pages: seq<Page>, start: Ts, n: nat): seq<Msg>
    requires n <= |pages|
  {
    if n == 0 then []
    else Kept(pages, start, n - 1) + Newer(pages[n - 1].messages, CursorFor(pages, start, n - 1))
  }

  /** A message is kept exactly when some requested page holds it above that page's cursor. */
  lemma {:induction false} KeptMembership(pages: seq<Page>, start: Ts, n: nat, m: Msg)
    requires n <= |pages|
    ensures m in Kept(pages, start, n) <==>
      exists j :: 0 <= j < n && m in pages[j].messages && m.ts > CursorFor(pages, start, j)
  {
    if n > 0 {
      KeptMembership(pages, start, n - 1, m);
      var c := CursorFor(pages, start, n - 1);
      NewerMembership(pages[n - 1].messages, c, m);
      if m in Kept(pages, start, n) {
        if m !in Kept(pages, start, n - 1) {
          assert m in pages[n - 1].messages && m.ts > c;
        }
      }
      if exists j :: 0 <= j < n && m in pages[j].messages && m.ts > CursorFor(pages, start, j) {
        var j :| 0 <= j < n && m in pages[j].messages && m.ts > CursorFor(pages, start, j);
        if j == n - 1 {
          assert m in Newer(pages[n - 1].messages, c);
        } else {
          assert m in Kept(pages, start, n - 1);
        }
      }
    }
  }

  /** After a page that reports more history, the rest of the provider still runs out. */
  lemma ExhaustsTail(pages: seq<Page>)
    requires Exhausts(pages) && pages[0].hasMore
    ensures Exhausts(pages[1..])
  {
    var i :| 0 <= i < |pages| && !pages[i].hasMore;
    assert !pages[1..][i - 1].hasMore;
  }

  /** A page reporting more history in front of the stopping point moves the stopping point by one. */
  lemma StopsAfterShift(pages: seq<Page>, n: int)
    requires |pages| > 0 && pages[0].hasMore
    requires StopsAfter(pages[1..], n)
    ensures StopsAfter(pages, n + 1)
  {
    forall j | 0 <= j < n
      ensures pages[j].hasMore
    {
      if j > 0 {
        assert pages[j] == pages[1..][j - 1];
      }
    }
  }

  /** Keeping from `k+1` pages is keeping from the first page, then from `k` pages of the rest. */
  lemma {:induction false} KeptShift(pages: seq<Page>, start: Ts, k: nat)
    requires k + 1 <= |pages|
    ensures Kept(pages, start, k + 1)
         == Newer(pages[0].messages, start) + Kept(pages[1..], MaxTimestamp(pages[0].messages), k)
  {
    if k > 0 {
      KeptShift(pages, start, k - 1);
      var next := MaxTimestamp(pages[0].messages);
      var first := Newer(pages[0].messages, start);
      var middle := Kept(pages[1..], next, k - 1);
      var last := Newer(pages[k].messages, CursorFor(pages, start, k));
      assert pages[1..][k - 1] == pages[k];
      assert CursorFor(pages[1..], next, k - 1) == CursorFor(pages, start, k);
      assert Kept(pages[1..], next, k) == middle + last;
      assert Kept(pages, start, k + 1) == Kept(pages, start, k) + last;
      assert Kept(pages, start, k) == first + middle;
      assert (first + middle) + last == first + (middle + last);
    }
  }

  /** The `while True` loop: request, keep what is newer than the cursor, stop or advance. */
  function Paginate(pages: seq<Page>, cursor: Ts): (t: Trace)
    requires Exhausts(pages)
    ensures StopsAfter(pages, |t.cursors|)
    ensures forall j :: 0 <= j < |t.cursors| ==> t.cursors[j] == CursorFor(pages, cursor, j)
    ensures t.kept == Kept(pages, cursor, |t.cursors|)
    decreases |pages|
  {
    var page := pages[0];
    var newer := Newer(page.messages, cursor);
    if !page.hasMore then Trace(newer, [cursor])
    else
      ExhaustsTail(pages);
      var next := MaxTimestamp(page.messages);
      var rest := Paginate(pages[1..], next);
      KeptShift(pages, cursor, |rest.cursors|);
      StopsAfterShift(pages, |rest.cursors|);
      var cursors := [cursor] + rest.cursors;
      assert forall j :: 1 <= j < |cursors| ==> cursors[j] == rest.cursors[j - 1];
      Trace(newer + rest.kept, cursors)
  }

  /**
   `get_history(provider, channel, start_at_timestamp, page_size)`: the new
   messages in timestamp order, and the provider calls issued, `oldest`
   being the cursor truncated to an integer.
   */
  function GetHistory(pages: seq<Page>, channel: string, start: Ts, pageSize: int): (h: Fetch)
    requires Exhausts(pages)
    ensures Sorted(h.messages)
    ensures |h.requests| == PagesRequested(pages)
    ensures forall j :: 0 <= j < |h.requests| ==>
      h.requests[j] == Request(channel, CursorFor(pages, start, j).Floor, pageSize)
    ensures multiset(h.messages) == multiset(Kept(pages, start, |h.requests|))
  {
    var t := Paginate(pages, start);
    var n := |t.cursors|;
    StopsAfterUnique(pages, n, PagesRequested(pages));
    var sorted := SortByTs(t.kept);
    var requests := seq(n, j requires 0 <= j < n => Request(channel, t.cursors[j].Floor, pageSize));
    Fetch(sorted, requests)
  }

  /**
   Nothing is invented and nothing newer is lost: a message is fetched exactly
   when some requested page holds it above the cursor that page was requested with.
   */
  lemma FetchedIffNewerOnSomePage(pages: seq<Page>, channel: string, start: Ts, pageSize: int, m: Msg)
    requires Exhausts(pages)
    ensures m in GetHistory(pages, channel, start, pageSize).messages <==>
      exists j :: 0 <= j < PagesRequested(pages) && m in pages[j].messages && m.ts > CursorFor(pages, start, j)
  {
    var h := GetHistory(pages, channel, start, pageSize);
    var n := PagesRequested(pages);
    var kept := Kept(pages, start, n);
    assert m in h.messages <==> m in multiset(h.messages);
    assert m in kept <==> m in multiset(kept);
    KeptMembership(pages, start, n, m);
  }

  /** The raw messages of the first `n` pages, page after page. */
  function AllMessages(pages: seq<Page>, n: nat): seq<Msg>
    requires n <= |pages|
  {
    if n == 0 then [] else AllMessages(pages, n - 1) + pages[n - 1].messages
  }

  /** When every requested page lies wholly above its cursor, the filter drops nothing. */
  lemma {:induction false} KeptAllWhenAllAbove(pages: seq<Page>, start: Ts, n: nat)
    requires n <= |pages|
    requires forall j, i :: 0 <= j < n && 0 <= i < |pages[j].messages| ==>
      pages[j].messages[i].ts > CursorFor(pages, start, j)
    ensures Kept(pages, start, n) == AllMessages(pages, n)
  {
    if n > 0 {
      KeptAllWhenAllAbove(pages, start, n - 1);
      NewerKeepsAllAbove(pages[n - 1].messages, CursorFor(pages, start, n - 1));
    }
  }

  /**
   A fetch whose requested pages all lie above their cursors returns every
   message of every requested page.
   */
  lemma NothingDroppedWhenAllAbove(pages: seq<Page>, channel: string, start: Ts, pageSize: int)
    requires Exhausts(pages)
    requires forall j, i :: 0 <= j < PagesRequested(pages) && 0 <= i < |pages[j].messages| ==>
      pages[j].messages[i].ts > CursorFor(pages, start, j)
    ensures multiset(GetHistory(pages, channel, start, pageSize).messages)
         == multiset(AllMessages(pages, PagesRequested(pages)))
    ensures |GetHistory(pages, channel, start, pageSize).messages| == |AllMessages(pages, PagesRequested(pages))|
  {
    var h := GetHistory(pages, channel, start, pageSize);
    KeptAllWhenAllAbove(pages, start, PagesRequested(pages));
    assert |multiset(h.messages)| == |h.messages|;
  }

  /** No requested page holds a message above the cursor it was requested with. */
  predicate NothingNew(pages: seq<Page>, start: Ts, n: nat)
    requires n <= |pages|
  {
    forall j, m :: 0 <= j < n && m in pages[j].messages ==> m.ts <= CursorFor(pages, start, j)
  }

  /** Nothing is kept from the first `n` pages exactly when none of them has anything above its cursor. */
  lemma {:induction false} KeptEmptyIffNothingNew(pages: seq<Page>, start: Ts, n: nat)
    requires n <= |pages|
    ensures |Kept(pages, start, n)| == 0 <==> NothingNew(pages, start, n)
  {
    if n > 0 {
      KeptEmptyIffNothingNew(pages, start, n - 1);
      var c := CursorFor(pages, start, n - 1);
      NewerEmptyIff(pages[n - 1].messages, c);
      assert |Kept(pages, start, n)| == |Kept(pages, start, n - 1)| + |Newer(pages[n - 1].messages, c)|;
      if NothingNew(pages, start, n) {
        assert NothingNew(pages, start, n - 1);
      }
    }
  }

  /** The fetch comes back empty exactly when no requested page had anything above its cursor. */
  lemma EmptyHistoryIffNothingNew(pages: seq<Page>, channel: string, start: Ts, pageSize: int)
    requires Exhausts(pages)
    ensures |GetHistory(pages, channel, start, pageSize).messages| == 0
        <==> NothingNew(pages, start, PagesRequested(pages))
  {
    var h := GetHistory(pages, channel, start, pageSize);
    assert |h.messages| == |Kept(pages, start, |h.requests|)| by {
      assert |multiset(h.messages)| == |multiset(Kept(pages, start, |h.requests|))|;
    }
    KeptEmptyIffNothingNew(pages, start, |h.requests|);
  }

  /**
   Boundary exclusivity holds when no requested page that reports more
   history has a largest `ts` below the starting watermark: then every new
   message is strictly above it.
   */
  lemma NewMessagesAboveWatermark(pages: seq<Page>, channel: string, start: Ts, pageSize: int)
    requires Exhausts(pages)
    requires forall j :: 0 <= j < PagesRequested(pages) - 1 ==> MaxTimestamp(pages[j].messages) >= start
    ensures forall m :: m in GetHistory(pages, channel, start, pageSize).messages ==> m.ts > start
  {
    var h := GetHistory(pages, channel, start, pageSize);
    forall m | m in h.messages
      ensures m.ts > start
    {
      FetchedIffNewerOnSomePage(pages, channel, start, pageSize, m);
      var j :| 0 <= j < |h.requests| && m in pages[j].messages && m.ts > CursorFor(pages, start, j);
    }
  }

  /**
   The filter is against the current cursor, not the starting watermark: an
   empty page that still reports more history resets the cursor to 0, so a
   message sitting exactly at the watermark on the next page is fetched again.
   */
  lemma EmptyPageResetsCursor(pages: seq<Page>, m: Msg, channel: string, pageSize: int)
    requires m.ts > 0.0
    requires pages == [Page([], true), Page([m], false)]
    ensures Exhausts(pages)
    ensures GetHistory(pages, channel, m.ts, pageSize).requests
         == [Request(channel, m.ts.Floor, pageSize), Request(channel, 0, pageSize)]
    ensures GetHistory(pages, channel, m.ts, pageSize).messages == [m]
  {
    ResetPagesRequested(pages, m);
    ResetPagesRequests(pages, m, channel, pageSize);
    ResetPagesMessages(pages, m, channel, pageSize);
  }

  /** The two calls of the cursor-reset example: from the watermark, then from 0. */
  lemma ResetPagesRequests(pages: seq<Page>, m: Msg, channel: string, pageSize: int)
    requires pages == [Page([], true), Page([m], false)]
    requires Exhausts(pages) && PagesRequested(pages) == 2
    ensures GetHistory(pages, channel, m.ts, pageSize).requests
         == [Request(channel, m.ts.Floor, pageSize), Request(channel, 0, pageSize)]
  {
    assert CursorFor(pages, m.ts, 1) == 0.0;
  }

  /** The cursor-reset example fetches the message at the watermark once more. */
  lemma ResetPagesMessages(pages: seq<Page>, m: Msg, channel: string, pageSize: int)
    requires m.ts > 0.0
    requires pages == [Page([], true), Page([m], false)]
    requires Exhausts(pages) && PagesRequested(pages) == 2
    ensures GetHistory(pages, channel, m.ts, pageSize).messages == [m]
  {
    ResetPagesKept(pages, m);
    SingletonMultiset(GetHistory(pages, channel, m.ts, pageSize).messages, m);
  }

  /** The cursor-reset example's provider runs out after its second page. */
  lemma ResetPagesRequested(pages: seq<Page>, m: Msg)
    requires pages == [Page([], true), Page([m], false)]
    ensures Exhausts(pages) && PagesRequested(pages) == 2
  {
    assert !pages[1].hasMore;
    assert StopsAfter(pages, 2);
    StopsAfterUnique(pages, 2, PagesRequested(pages));
  }

  /** The second page of the cursor-reset example is filtered against 0 and keeps its message. */
  lemma ResetPagesKept(pages: seq<Page>, m: Msg)
    requires m.ts > 0.0
    requires pages == [Page([], true), Page([m], false)]
    ensures Kept(pages, m.ts, 2) == [m]
  {
    assert Kept(pages, m.ts, 1) == [] by {
      assert Newer([], m.ts) == [];
    }
    assert CursorFor(pages, m.ts, 1) == 0.0;
    assert Newer([m], 0.0) == [m] by {
      assert [m][1..] == [];
      assert Newer([m], 0.0) == [m] + Newer([], 0.0);
    }
    assert Kept(pages, m.ts, 2) == [] + Newer([m], 0.0);
  }
}
