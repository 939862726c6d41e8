/**
 Messages and the timestamp utilities of `slack_backup.py`: the sort key
 `SORT_MESSAGES_BY_TIMESTAMP`, the watermark `_get_max_timestamp`, and the
 "strictly newer than" filter applied to each fetched page.
 */
module Messages {

  /** A message timestamp, already parsed from its decimal string; never negative. */
  type Ts = r: real | 0.0 <= r

  /** One stored or fetched message: its `ts` field and the rest of the record, opaque. */
  datatype Msg = Msg(ts: Ts, payload: string)

  /** The watermark of a message list: the largest `ts`, or 0 when the list is empty. */
  function MaxTimestamp(ms: seq<Msg>): (r: Ts)
    ensures |ms| == 0 ==> r == 0.0
    ensures forall i :: 0 <= i < |ms| ==> ms[i].ts <= r
  {
    if |ms| == 0 then 0.0
    else if |ms| == 1 then ms[0].ts
    else
      var rest := MaxTimestamp(ms[1..]);
      if rest < ms[0].ts then ms[0].ts else rest
  }

  /** A non-empty list's watermark is the timestamp of one of its messages; `i` is such a message. */
  lemma {:induction false} MaxTimestampAttained(ms: seq<Msg>) returns (i: nat)
    requires |ms| > 0
    ensures i < |ms| && ms[i].ts == MaxTimestamp(ms)
  {
    if |ms| == 1 || MaxTimestamp(ms[1..]) < ms[0].ts {
      i := 0;
    } else {
      var k := MaxTimestampAttained(ms[1..]);
      i := k + 1;
    }
  }

  /** The watermark only depends on which messages are present: more messages, no lower watermark. */
  lemma MaxTimestampMonotone(a: seq<Msg>, b: seq<Msg>)
    requires multiset(a) <= multiset(b)
    ensures MaxTimestamp(a) <= MaxTimestamp(b)
  {
    if |a| > 0 {
      var i := MaxTimestampAttained(a);
      assert a[i] in multiset(a);
      assert a[i] in multiset(b);
      assert a[i] in b;
      var k :| 0 <= k < |b| && b[k] == a[i];
    }
  }

  /** The messages of `ms` whose `ts` is strictly above `cursor`, in their original order. */
  function Newer(ms: seq<Msg>, cursor: real): seq<Msg>
  {
    if |ms| == 0 then []
    else (if ms[0].ts > cursor then [ms[0]] else []) + Newer(ms[1..], cursor)
  }

  /** The filter keeps every copy of a message above the cursor and no copy of one at or below it. */
  lemma {:induction false} NewerCount(ms: seq<Msg>, cursor: real, m: Msg)
    ensures multiset(Newer(ms, cursor))[m] == if m.ts > cursor then multiset(ms)[m] else 0
  {
    if |ms| > 0 {
      NewerCount(ms[1..], cursor, m);
      assert ms == [ms[0]] + ms[1..];
      var head := if ms[0].ts > cursor then [ms[0]] else [];
      assert Newer(ms, cursor) == head + Newer(ms[1..], cursor);
      assert multiset(Newer(ms, cursor)) == multiset(head) + multiset(Newer(ms[1..], cursor));
      assert multiset(ms) == multiset{ms[0]} + multiset(ms[1..]);
    }
  }

  /** A message survives the filter exactly when it is in the list and above the cursor. */
  lemma NewerMembership(ms: seq<Msg>, cursor: real, m: Msg)
    ensures m in Newer(ms, cursor) <==> m in ms && m.ts > cursor
  {
    NewerCount(ms, cursor, m);
    assert m in Newer(ms, cursor) <==> m in multiset(Newer(ms, cursor));
    assert m in ms <==> m in multiset(ms);
  }

  /** The filter drops everything exactly when nothing in the list is above the cursor. */
  lemma {:induction false} NewerEmptyIff(ms: seq<Msg>, cursor: real)
    ensures |Newer(ms, cursor)| == 0 <==> forall i :: 0 <= i < |ms| ==> ms[i].ts <= cursor
  {
    if |ms| > 0 {
      NewerEmptyIff(ms[1..], cursor);
      assert forall i :: 1 <= i < |ms| ==> ms[i] == ms[1..][i - 1];
    }
  }

  /** When everything is above the cursor, the filter keeps the list as it is. */
  lemma {:induction false} NewerKeepsAllAbove(ms: seq<Msg>, cursor: real)
    requires forall i :: 0 <= i < |ms| ==> ms[i].ts > cursor
    ensures Newer(ms, cursor) == ms
  {
    if |ms| > 0 {
      assert forall i :: 1 <= i < |ms| ==> ms[i] == ms[1..][i - 1];
      NewerKeepsAllAbove(ms[1..], cursor);
      assert ms == [ms[0]] + ms[1..];
    }
  }

  /** A list holding exactly one copy of `m` and nothing else is `[m]`. */
  lemma SingletonMultiset(ms: seq<Msg>, m: Msg)
    requires multiset(ms) == multiset{m}
    ensures ms == [m]
  {
    assert |ms| == 1;
    assert ms[0] in multiset(ms);
  }

  /** Ascending by the sort key `float(message['ts'])`. */
  predicate Sorted(ms: seq<Msg>)
  {
    forall i, j :: 0 <= i < j < |ms| ==> ms[i].ts <= ms[j].ts
  }

  /** Prepending a message no later than the head keeps a list sorted. */
  lemma SortedCons(x: Msg, ms: seq<Msg>)
    requires Sorted(ms)
    requires |ms| > 0 ==> x.ts <= ms[0].ts
    ensures Sorted([x] + ms)
  {
    var r := [x] + ms;
    forall i, j | 0 <= i < j < |r|
      ensures r[i].ts <= r[j].ts
    {
      if i == 0 {
        assert r[j] == ms[j - 1];
      } else {
        assert r[i] == ms[i - 1] && r[j] == ms[j - 1];
      }
    }
  }

  /** Puts `m` in front of the first message it does not come after, keeping the list sorted. */
  function Insert(m: Msg, ms: seq<Msg>): (r: seq<Msg>)
    requires Sorted(ms)
    ensures Sorted(r)
    ensures multiset(r) == multiset(ms) + multiset{m}
    ensures |r| == |ms| + 1
    ensures r[0] == m || (|ms| > 0 && r[0] == ms[0])
  {
    if |ms| == 0 || m.ts <= ms[0].ts then
      SortedCons(m, ms);
      [m] + ms
    else
      var rest := Insert(m, ms[1..]);
      assert ms == [ms[0]] + ms[1..];
      SortedCons(ms[0], rest);
      [ms[0]] + rest
  }

  /** `list.sort(key=SORT_MESSAGES_BY_TIMESTAMP)`: a sorted rearrangement of the same messages. */
  function SortByTs(ms: seq<Msg>): (r: seq<Msg>)
    ensures Sorted(r)
    ensures multiset(r) == multiset(ms)
    ensures |r| == |ms|
  {
    if |ms| == 0 then []
    else
      assert ms == [ms[0]] + ms[1..];
      Insert(ms[0], SortByTs(ms[1..]))
  }

  /** Sorting a list that is already in timestamp order leaves it exactly as it was. */
  lemma {:induction false} SortSortedIsIdentity(ms: seq<Msg>)
    requires Sorted(ms)
    ensures SortByTs(ms) == ms
  {
    if |ms| > 0 {
      SortSortedIsIdentity(ms[1..]);
    }
  }
}
