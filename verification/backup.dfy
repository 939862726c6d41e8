/**
 The per-conversation merge of `slack_backup.py` (`_append_new_messages`):
 read the stored messages, fetch everything newer than their watermark,
 and write the merged, re-sorted list back only when something new arrived.
 Reading and writing the JSON file are reduced to the stored snapshot going
 in and the snapshot to write (if any) coming out.
 */
module Backup {
  import opened Wrappers
  import opened Messages
  import opened History

  /** The document stored per conversation: `channel_info` and `messages`. */
  datatype Snapshot = Snapshot(channelInfo: string, messages: seq<Msg>)

  /** One merge: the provider calls it made and the snapshot it hands to the writer, if any. */
  datatype Sync = Sync(requests: seq<Request>, written: Option<Snapshot>)

  /** `_get_stored_messages`: the stored snapshot's messages, or none when there is no file yet. */
  function StoredMessages(file: Option<Snapshot>): seq<Msg>
  {
    match file
    case None => []
    case Some(s) => s.messages
  }

  /**
   `_append_new_messages(provider, channel, path, info)`, with the stored
   messages as input and the snapshot passed to `_write_json` as output.
   */
  function AppendNewMessages(stored: seq<Msg>, pages: seq<Page>, channel: string, channelInfo: string): (s: Sync)
    requires Exhausts(pages)
    ensures |s.requests| == PagesRequested(pages)
    ensures s.requests[0] == Request(channel, MaxTimestamp(stored).Floor, DefaultPageSize)
    ensures forall j :: 1 <= j < |s.requests| ==>
      s.requests[j] == Request(channel, MaxTimestamp(pages[j - 1].messages).Floor, DefaultPageSize)
    ensures s.written.None? <==> NothingNew(pages, MaxTimestamp(stored), |s.requests|)
    ensures s.written.Some? ==>
      && s.written.value.channelInfo == channelInfo
      && Sorted(s.written.value.messages)
      && multiset(s.written.value.messages)
         == multiset(stored) + multiset(Kept(pages, MaxTimestamp(stored), |s.requests|))
      && |s.written.value.messages| == |stored| + |Kept(pages, MaxTimestamp(stored), |s.requests|)|
  {
    var start := MaxTimestamp(stored);
    var h := GetHistory(pages, channel, start, DefaultPageSize);
    EmptyHistoryIffNothingNew(pages, channel, start, DefaultPageSize);
    if |h.messages| == 0 then Sync(h.requests, None)
    else
      var merged := SortByTs(stored + h.messages);
      assert multiset(stored + h.messages) == multiset(stored) + multiset(h.messages);
      Sync(h.requests, Some(Snapshot(channelInfo, merged)))
  }

  /** One backup step for one conversation: the stored snapshot after the merge. */
  function BackupConversation(file: Option<Snapshot>, pages: seq<Page>, channel: string, channelInfo: string)
    : (file': Option<Snapshot>)
    requires Exhausts(pages)
    ensures NothingNew(pages, MaxTimestamp(StoredMessages(file)), PagesRequested(pages)) ==> file' == file
    ensures !NothingNew(pages, MaxTimestamp(StoredMessages(file)), PagesRequested(pages)) ==>
      && file'.Some?
      && file'.value.channelInfo == channelInfo
      && Sorted(file'.value.messages)
      && multiset(file'.value.messages)
         == multiset(StoredMessages(file))
          + multiset(Kept(pages, MaxTimestamp(StoredMessages(file)), PagesRequested(pages)))
    ensures multiset(StoredMessages(file)) <= multiset(StoredMessages(file'))
    ensures MaxTimestamp(StoredMessages(file)) <= MaxTimestamp(StoredMessages(file'))
  {
    var stored := StoredMessages(file);
    var s := AppendNewMessages(stored, pages, channel, channelInfo);
    match s.written
    case None => file
    case Some(snapshot) =>
      MaxTimestampMonotone(stored, snapshot.messages);
      Some(snapshot)
  }

  /**
   A provider with no new activity leaves the store alone: when every
   requested page that reports more history reaches the watermark and no
   requested page goes beyond it, nothing is written.
   */
  lemma QuietProviderLeavesStoreUntouched(file: Option<Snapshot>, pages: seq<Page>, channel: string, channelInfo: string)
    requires Exhausts(pages)
    requires forall j :: 0 <= j < PagesRequested(pages) - 1 ==>
      MaxTimestamp(pages[j].messages) >= MaxTimestamp(StoredMessages(file))
    requires forall j, m :: 0 <= j < PagesRequested(pages) && m in pages[j].messages ==>
      m.ts <= MaxTimestamp(StoredMessages(file))
    ensures BackupConversation(file, pages, channel, channelInfo) == file
  {
    var start := MaxTimestamp(StoredMessages(file));
    var n := PagesRequested(pages);
    forall j, m | 0 <= j < n && m in pages[j].messages
      ensures m.ts <= CursorFor(pages, start, j)
    {
    }
  }

  /**
   Merging at the boundary: with stored `[a, b]` and a fetch from `b`'s
   timestamp that answers `[b', c]` (`b'` at the same instant as `b`), only
   `c` is new and the stored list becomes `[a, b, c]`.
   */
  lemma BoundaryDuplicateIsNotMerged(a: Msg, b: Msg, b': Msg, c: Msg, channel: string, channelInfo: string)
    requires a.ts <= b.ts == b'.ts < c.ts
    ensures Exhausts([Page([b', c], false)])
    ensures AppendNewMessages([a, b], [Page([b', c], false)], channel, channelInfo).written
         == Some(Snapshot(channelInfo, [a, b, c]))
  {
    var pages := [Page([b', c], false)];
    assert !pages[0].hasMore;
    assert MaxTimestamp([a, b]) == b.ts;
    assert Kept(pages, b.ts, 1) == [c] by {
      assert [b', c][1..] == [c];
      assert [c][1..] == [];
      assert Newer([b', c], b.ts) == [] + Newer([c], b.ts);
      assert Newer([c], b.ts) == [c] + Newer([], b.ts);
    }
    var h := GetHistory(pages, channel, b.ts, DefaultPageSize);
    assert |h.requests| == 1 by {
      assert StopsAfter(pages, |h.requests|);
    }
    assert h.messages == [c] by {
      assert multiset(h.messages) == multiset{c};
      assert |h.messages| == 1;
      assert h.messages[0] in multiset(h.messages);
    }
    assert [a, b] + [c] == [a, b, c];
    SortSortedIsIdentity([a, b, c]);
  }

  /**
   Because the page filter uses the current cursor, an empty page that still
   reports more history lets a message already stored at the watermark be
   merged a second time.
   */
  lemma EmptyPageRemergesStoredMessage(pages: seq<Page>, m: Msg, channel: string, channelInfo: string)
    requires m.ts > 0.0
    requires pages == [Page([], true), Page([m], false)]
    ensures Exhausts(pages)
    ensures AppendNewMessages([m], pages, channel, channelInfo).written == Some(Snapshot(channelInfo, [m, m]))
  {
    ResetPagesRequested(pages, m);
    assert MaxTimestamp([m]) == m.ts;
    ResetPagesMessages(pages, m, channel, DefaultPageSize);
    assert [m] + [m] == [m, m];
    SortSortedIsIdentity([m, m]);
  }
}
