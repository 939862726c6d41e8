# slack_backup: incremental fetch-and-merge, modelled in Dafny

This project models the core of `slack_backup.py`, a tool that backs up a Slack
team's message history into one JSON file per conversation. Each run reads the
stored messages for a conversation. It then asks the Slack history API for
everything newer than the stored messages' largest timestamp (the
*watermark*), one page at a time. It writes the merged, re-sorted list back
only when something new arrived.

The model is functional:

- `wrappers.dfy`: `Option`. `None` means "nothing is written".
- `messages.dfy` (module `Messages`): messages with an already parsed,
  non-negative timestamp `ts: Ts` and an opaque payload. It holds the
  watermark `MaxTimestamp`, the strictly-newer filter `Newer` and the sort by
  timestamp (`SortByTs`, a stable insertion sort).
- `history.dfy` (module `History`): the history provider is a finite list of
  pages `Page(messages, hasMore)`, answered one page per call in order. The
  `while True` loop of `get_history` is the fold `Paginate`, and `GetHistory`
  adds the final sort and the list of provider calls (`Request(channel,
  oldest, count)`). `Kept` and `CursorFor` give an index-based reference
  definition of what the loop keeps: page `j` is filtered against the watermark
  when `j = 0`, and against the largest `ts` of raw page `j-1` otherwise.
- `backup.dfy` (module `Backup`): `AppendNewMessages` takes the stored
  messages and returns the provider calls plus the snapshot handed to the
  writer, if any. `BackupConversation` turns that into the stored file's state
  after the run.

`int(start_at_timestamp)` (line 64) is `.Floor`. The two agree because
timestamps are never negative.

Only the first page is filtered against the stored watermark. Line 72
compares each message with `start_at_timestamp`, and line 77 reassigns that
variable to the largest `ts` of the raw page on every page that reports
`has_more`. Later pages are therefore filtered against the previous page's
maximum, not against the watermark. `EmptyPageResetsCursor` proves one
consequence. An empty page that still reports `has_more` resets the cursor to
0, because `max([])` raises `ValueError` and line 49 returns `0.`.
`EmptyPageRemergesStoredMessage` then shows a message already stored at the
watermark being merged a second time. `NewMessagesAboveWatermark` gives the
condition under which every new message is strictly above the watermark.

## Model

| member | source | states |
|---|---|---|
| Messages.MaxTimestamp | slack_backup.py:43-49 | the watermark is 0 for an empty list, and otherwise at least the `ts` of every message |
| Messages.MaxTimestampAttained | slack_backup.py:45-47 | for a non-empty list, the watermark is the `ts` of one of its messages (a witness index is returned) |
| Messages.MaxTimestampMonotone | slack_backup.py:43-49 | a list containing all messages of another (as a multiset) has a watermark at least as high |
| Messages.NewerCount | slack_backup.py:68-73 | the page filter keeps every copy of a message whose `ts` is above the cursor, and no copy of one at or below it |
| Messages.NewerMembership | slack_backup.py:68-73 | a message survives the filter iff it is on the page and its `ts` is strictly above the cursor |
| Messages.NewerEmptyIff | slack_backup.py:68-73 | the filter keeps nothing iff no message on the page is above the cursor |
| Messages.NewerKeepsAllAbove | slack_backup.py:68-73 | a page that lies wholly above the cursor passes the filter unchanged |
| Messages.Insert | slack_backup.py:80 | inserting into a sorted list gives a sorted list with exactly one more copy of the inserted message |
| Messages.SortByTs | slack_backup.py:80 | the sort keyed by `SORT_MESSAGES_BY_TIMESTAMP` (line 32, the message's `ts`) returns a list sorted ascending by `ts` that is a permutation of its input |
| Messages.SortSortedIsIdentity | slack_backup.py:104 | re-sorting a list that is already in timestamp order leaves it exactly as it was |
| History.PagesRequested | slack_backup.py:61-76 | the number of pages requested is the position of the first page without `has_more`, counting that page |
| History.KeptMembership | slack_backup.py:68-77 | a message is kept from the first `n` pages iff some page `j < n` holds it with `ts` above that page's cursor |
| History.KeptShift | slack_backup.py:61-77 | after the first page, the loop continues as a fresh loop on the remaining pages, starting from the first page's raw maximum |
| History.Paginate | slack_backup.py:59-77 | the loop stops exactly after the first page without `has_more`. Page 0's cursor is the start value, and each later cursor is the maximum `ts` of the whole previous raw page. The kept messages are the page-by-page filter of the reference definition |
| History.GetHistory | slack_backup.py:52-81 | the result is sorted ascending and holds exactly the kept messages (as a multiset). One request is made per consumed page, with `oldest` the floor of that page's cursor and `count` the page size |
| History.FetchedIffNewerOnSomePage | slack_backup.py:68-80 | nothing is invented and nothing newer is lost: a message is returned iff some requested page holds it above that page's cursor |
| History.KeptAllWhenAllAbove | slack_backup.py:68-73 | when every requested page lies wholly above its cursor, the kept messages are all raw messages of those pages, in page order |
| History.NothingDroppedWhenAllAbove | slack_backup.py:61-80 | in that case the fetch returns every message of every requested page, with the same multiset and the same total length |
| History.KeptEmptyIffNothingNew | slack_backup.py:68-77 | nothing is kept iff no requested page has a message above its cursor |
| History.EmptyHistoryIffNothingNew | slack_backup.py:68-81 | the fetch returns an empty list iff no requested page has a message above its cursor |
| History.NewMessagesAboveWatermark | slack_backup.py:72-77 | if every requested page reporting `has_more` has a largest `ts` at or above the starting watermark, every fetched message is strictly above that watermark |
| History.EmptyPageResetsCursor | slack_backup.py:72-77 | an empty page with `has_more` makes the next request use `oldest = 0`, so a message at the watermark is fetched again |
| Backup.AppendNewMessages | slack_backup.py:95-107 | the fetch starts with `oldest` = floor of the stored watermark, with page size 1000. Nothing is written iff no requested page had anything new. Otherwise the written snapshot carries the given channel info and a sorted list whose multiset is stored + new, whose length is the stored count plus the new count |
| Backup.BackupConversation | slack_backup.py:96-107 | with no new messages, the stored file is left exactly as it was. Otherwise it becomes a snapshot with the channel info and sorted messages, whose multiset is the stored messages plus the kept new ones. No stored message is lost, and the watermark never decreases |
| Backup.QuietProviderLeavesStoreUntouched | slack_backup.py:96-101 | no write happens, and the store stays unchanged, when two things hold: no requested page has a message past the stored watermark, and every requested page reporting `has_more` reaches that watermark. Without the second condition a write can still happen (see `EmptyPageRemergesStoredMessage`) |
| Backup.EmptyPageRemergesStoredMessage | slack_backup.py:95-107 | stored `[m]` and pages `[empty with has_more, [m]]` make the merge write `[m, m]`: the message at the watermark is stored twice |
| Backup.BoundaryDuplicateIsNotMerged | slack_backup.py:96-107 | stored `[a, b]` with a fetch answering `[b', c]` at `b`'s timestamp merges only `c`, giving `[a, b, c]` |

## Left out

- Reading and writing files: the existence check and `json.load` of `_get_stored_messages`, and the `makedirs`, temporary file, `json.dump` and `os.rename` of `_write_json`. These are filesystem I/O. The stored file is an `Option<Snapshot>` going in, and the snapshot to write is an `Option` coming out. A corrupt file, the atomicity of the rename and the key-sorted JSON layout are not modelled.
- The Slacker client and its `.body` responses are a foreign library. They are replaced by a fixed list of pages. The model records the `oldest` and `count` each call sends, but does not model how the real API would answer them.
- `get_channels`, `get_private_channels`, `get_direct_messages`, `get_team_info` and `main` are listing, argument parsing and printing around the core. The per-conversation `channel_info` they build is an opaque string here.
- Parsing `ts` strings into floats is left out, along with the `ValueError` that `_get_max_timestamp` swallows for an unparsable `ts`. Timestamps are exact non-negative reals, not 64-bit floats.
- The `print` of the new-message count (line 79) is console output.
- A provider that never reports `has_more` false makes the source loop forever. `GetHistory` and the functions above it require that some page has `hasMore` false.
- Messages.SortByTs: Python's sort is stable and so is the insertion sort here, but only sortedness, permutation, and identity on sorted input are stated. Stability for equal timestamps is not stated.
