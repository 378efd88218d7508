/** Backward paging and thinning of the history shown by the dashboard (`app.js`, `ladder-rules.js`), over the newest-first
  * query of the server (`history-store.ts`). */
module HistoryPaging {
  import opened Prelude

  const MAX_HISTORY_PAGE_SIZE: nat := 10_000
  const MAX_HISTORY_PAGE_COUNT: nat := 8
  const MAX_HISTORY_RENDER_SAMPLES: nat := 1_200

  // ---------- The server ----------

  /** A stored sample; no two have the same time. */
  datatype Row = Row(capturedAtMs: int, snapshot: string)

  ghost predicate InTimeOrder(rows: seq<Row>) {
    forall i, j :: 0 <= i < j < |rows| ==> rows[i].capturedAtMs < rows[j].capturedAtMs
  }

  /** The rows from `sinceMs` to `untilMs`. */
  function Window(rows: seq<Row>, sinceMs: int, untilMs: int): (r: seq<Row>)
    ensures |r| <= |rows|
  {
    if rows == [] then []
    else
      Window(rows[..|rows| - 1], sinceMs, untilMs)
      + var last := rows[|rows| - 1]; if sinceMs <= last.capturedAtMs <= untilMs then [last] else []
  }

  function Newest<T>(s: seq<T>, n: nat): (r: seq<T>)
    ensures |r| == Min(n, |s|)
  {
    s[|s| - Min(n, |s|)..]
  }

  /** `ORDER BY captured_at_ms DESC LIMIT limit`, reversed. */
  function ReadHistory(rows: seq<Row>, sinceMs: int, untilMs: int, limit: int): seq<Row> {
    Newest(Window(rows, sinceMs, untilMs), Max(1, Min(10_000, limit)))
  }

  // ---------- What the dashboard receives ----------

  /** A received sample; each field may be missing or unusable. */
  datatype Received = Received(snapshot: Option<string>, capturedAtMs: Option<int>, timestampMs: Option<int>,
                               source: Option<string>)

  datatype Sample = Sample(capturedAt: int, snapshot: string, source: string)

  function Sent(row: Row): Received { Received(Some(row.snapshot), Some(row.capturedAtMs), None, None) }

  function SentAll(rows: seq<Row>): (r: seq<Received>)
    ensures |r| == |rows| && forall i :: 0 <= i < |r| ==> r[i] == Sent(rows[i])
  {
    seq(|rows|, i requires 0 <= i < |rows| => Sent(rows[i]))
  }

  function Shown(row: Row, source: string): Sample { Sample(row.capturedAtMs, row.snapshot, source) }

  function ShownAll(rows: seq<Row>, source: string): (r: seq<Sample>)
    ensures |r| == |rows| && forall i :: 0 <= i < |r| ==> r[i] == Shown(rows[i], source)
  {
    seq(|rows|, i requires 0 <= i < |rows| => Shown(rows[i], source))
  }

  /** The sample a usable one becomes; a missing time falls back to the snapshot's own, then to the present. */
  function Usable(r: Received, source: string, nowMs: int): Sample
    requires r.snapshot.Some?
  {
    Sample(r.capturedAtMs.UnwrapOr(r.timestampMs.UnwrapOr(nowMs)), r.snapshot.value, r.source.UnwrapOr(source))
  }

  /** By time, the last of each time winning. */
  function ByTimestamp(samples: seq<Received>, source: string, nowMs: int): map<int, Sample> {
    if samples == [] then map[]
    else
      var before, last := ByTimestamp(samples[..|samples| - 1], source, nowMs), samples[|samples| - 1];
      if last.snapshot.None? then before
      else before[Usable(last, source, nowMs).capturedAt := Usable(last, source, nowMs)]
  }

  function Ascending<T>(m: map<int, T>): seq<T>
    decreases |m|
  {
    if m.Keys == {} then []
    else
      var k := Least(m.Keys);
      var rest := m - {k};
      assert m.Keys == rest.Keys + {k};
      [m[k]] + Ascending(rest)
  }

  function Normalize(samples: seq<Received>, source: string, nowMs: int): seq<Sample> {
    Ascending(ByTimestamp(samples, source, nowMs))
  }

  method NormalizeHistorySamples(samples: seq<Received>, source: string, nowMs: int) returns (normalized: seq<Sample>)
    ensures normalized == Normalize(samples, source, nowMs)
  {
    var byTimestamp: map<int, Sample> := map[];
    for i := 0 to |samples|
      invariant byTimestamp == ByTimestamp(samples[..i], source, nowMs)
    {
      assert samples[..i + 1][..i] == samples[..i];
      var sample := samples[i];
      if sample.snapshot.None? {
        continue;
      }
      var usable := Usable(sample, source, nowMs);
      byTimestamp := byTimestamp[usable.capturedAt := usable];
    }
    assert samples[..|samples|] == samples;
    return Ascending(byTimestamp);
  }

  // ---------- Normalizing rows ----------

  ghost predicate IsTimeline(samples: seq<Sample>) {
    forall i, j :: 0 <= i < j < |samples| ==> samples[i].capturedAt < samples[j].capturedAt
  }

  ghost predicate KeyedByTime(m: map<int, Sample>) { forall k :: k in m ==> m[k].capturedAt == k }

  lemma HeadIsMember(samples: seq<Sample>)
    ensures samples != [] ==> samples[0] in samples
  {
  }

  /** The values of a table keyed by time, in time order: the only timeline of exactly those samples. */
  lemma {:induction false} AscendingIs(m: map<int, Sample>, timeline: seq<Sample>)
    requires KeyedByTime(m) && IsTimeline(timeline)
    requires forall x :: x in timeline <==> x.capturedAt in m && m[x.capturedAt] == x
    ensures Ascending(m) == timeline
    decreases |m|
  {
    if m.Keys == {} {
      HeadIsMember(timeline);
    } else {
      hide Ascending;
      var k := Least(m.Keys);
      AscendingStep(m, k);
      TimelineHead(m, timeline, k);
      AscendingIs(m - {k}, timeline[1..]);
    }
  }

  lemma AscendingStep(m: map<int, Sample>, k: int)
    requires m.Keys != {} && k == Least(m.Keys)
    ensures Ascending(m) == [m[k]] + Ascending(m - {k}) && |m - {k}| < |m|
  {
    assert m.Keys == (m - {k}).Keys + {k};
  }

  /** A timeline of the values of a table starts with the value of the least key. */
  lemma TimelineHead(m: map<int, Sample>, timeline: seq<Sample>, k: int)
    requires KeyedByTime(m) && IsTimeline(timeline) && k in m && forall j :: j in m ==> k <= j
    requires forall x :: x in timeline <==> x.capturedAt in m && m[x.capturedAt] == x
    ensures timeline != [] && timeline == [m[k]] + timeline[1..] && IsTimeline(timeline[1..]) && KeyedByTime(m - {k})
    ensures forall x :: x in timeline[1..] <==> x.capturedAt in m - {k} && (m - {k})[x.capturedAt] == x
  {
    assert m[k] in timeline && timeline[0] in timeline;
    assert timeline[0] == m[k];
    assert timeline == [timeline[0]] + timeline[1..];
    forall x
      ensures x in timeline[1..] <==> x.capturedAt in m - {k} && (m - {k})[x.capturedAt] == x
    {
      if x in timeline[1..] {
        assert x in timeline && x.capturedAt > k;
      }
    }
  }

  /** A usable sample of time `t` was received. */
  ghost predicate TimeReceived(samples: seq<Received>, source: string, nowMs: int, t: int) {
    exists r :: r in samples && r.snapshot.Some? && Usable(r, source, nowMs).capturedAt == t
  }

  ghost predicate ShownAt(samples: seq<Sample>, t: int) { exists x :: x in samples && x.capturedAt == t }

  lemma {:induction false} ByTimestampIs(samples: seq<Received>, source: string, nowMs: int)
    ensures KeyedByTime(ByTimestamp(samples, source, nowMs))
    ensures forall t :: t in ByTimestamp(samples, source, nowMs) <==> TimeReceived(samples, source, nowMs, t)
  {
    if samples != [] {
      var init, last := samples[..|samples| - 1], samples[|samples| - 1];
      assert samples == init + [last];
      ByTimestampIs(init, source, nowMs);
      hide Usable;
      forall t
        ensures TimeReceived(samples, source, nowMs, t)
           <==> TimeReceived(init, source, nowMs, t) || (last.snapshot.Some? && Usable(last, source, nowMs).capturedAt == t)
      {
        assert last in samples;
      }
    }
  }

  /** Whatever was received, normalizing gives one sample a time, in strictly rising time, for exactly the times of the
    * samples with a snapshot. */
  lemma NormalizedIsTimeline(samples: seq<Received>, source: string, nowMs: int)
    ensures IsTimeline(Normalize(samples, source, nowMs))
    ensures forall t :: ShownAt(Normalize(samples, source, nowMs), t) <==> TimeReceived(samples, source, nowMs, t)
  {
    var m := ByTimestamp(samples, source, nowMs);
    ByTimestampIs(samples, source, nowMs);
    AscendingValues(m);
    hide TimeReceived, ByTimestamp, Ascending;
    forall t
      ensures ShownAt(Normalize(samples, source, nowMs), t) <==> t in m
    {
      if t in m {
        assert m[t] in Ascending(m);
      }
    }
  }

  lemma {:induction false} AscendingValues(m: map<int, Sample>)
    requires KeyedByTime(m)
    ensures IsTimeline(Ascending(m))
    ensures forall x :: x in Ascending(m) <==> x.capturedAt in m && m[x.capturedAt] == x
    decreases |m|
  {
    if m.Keys != {} {
      hide Ascending;
      var k := Least(m.Keys);
      AscendingStep(m, k);
      AscendingValues(m - {k});
      HeadThenTail(m, k, Ascending(m - {k}));
    }
  }

  lemma HeadThenTail(m: map<int, Sample>, k: int, tail: seq<Sample>)
    requires KeyedByTime(m) && k in m && (forall j :: j in m ==> k <= j) && IsTimeline(tail)
    requires forall x :: x in tail <==> x.capturedAt in m - {k} && (m - {k})[x.capturedAt] == x
    ensures IsTimeline([m[k]] + tail)
    ensures forall x :: x in [m[k]] + tail <==> x.capturedAt in m && m[x.capturedAt] == x
  {
    assert forall i :: 0 <= i < |tail| ==> tail[i] in tail;
  }

  /** The time a received sample is shown at: its own, else its snapshot's, else the present. */
  function TimeOf(r: Received, nowMs: int): int {
    if r.capturedAtMs.Some? then r.capturedAtMs.value else if r.timestampMs.Some? then r.timestampMs.value else nowMs
  }

  /** The last usable sample of its time is shown, at that time, with its own snapshot, under its own source or else that
    * of the fetch. */
  lemma LastOfTimeIsShown(samples: seq<Received>, source: string, nowMs: int, i: nat)
    requires i < |samples| && samples[i].snapshot.Some?
    requires forall j :: i < j < |samples| && samples[j].snapshot.Some? ==> TimeOf(samples[j], nowMs) != TimeOf(samples[i], nowMs)
    ensures Sample(TimeOf(samples[i], nowMs), samples[i].snapshot.value,
                   if samples[i].source.Some? then samples[i].source.value else source) in Normalize(samples, source, nowMs)
  {
    ByTimestampIs(samples, source, nowMs);
    AscendingValues(ByTimestamp(samples, source, nowMs));
    LastWins(samples, source, nowMs, i);
    hide ByTimestamp, Ascending;
  }

  lemma {:induction false} LastWins(samples: seq<Received>, source: string, nowMs: int, i: nat)
    requires i < |samples| && samples[i].snapshot.Some?
    requires forall j :: i < j < |samples| && samples[j].snapshot.Some? ==> TimeOf(samples[j], nowMs) != TimeOf(samples[i], nowMs)
    ensures var t, m := TimeOf(samples[i], nowMs), ByTimestamp(samples, source, nowMs);
            t in m && m[t] == Sample(t, samples[i].snapshot.value,
                                     if samples[i].source.Some? then samples[i].source.value else source)
    decreases |samples|
  {
    var init := samples[..|samples| - 1];
    if i < |init| {
      assert forall j :: 0 <= j < |init| ==> init[j] == samples[j];
      LastWins(init, source, nowMs, i);
      var last := samples[|samples| - 1];
      assert last.snapshot.Some? ==> Usable(last, source, nowMs).capturedAt == TimeOf(last, nowMs);
    }
  }

  // ---------- Paging ----------

  /** The server gives between one and ten thousand of the newest rows of a window. */
  lemma ServerLimit(rows: seq<Row>, sinceMs: int, untilMs: int, limit: int)
    ensures var w, r := Window(rows, sinceMs, untilMs), ReadHistory(rows, sinceMs, untilMs, limit);
            && |r| == Min(|w|, if limit < 1 then 1 else if limit > 10_000 then 10_000 else limit)
            && forall i :: 0 <= i < |r| ==> r[i] == w[|w| - |r| + i]
  {
    hide Window;
  }

  lemma {:induction false} WindowMembers(rows: seq<Row>, sinceMs: int, untilMs: int)
    ensures forall r :: r in Window(rows, sinceMs, untilMs) <==> r in rows && sinceMs <= r.capturedAtMs <= untilMs
  {
    if rows != [] {
      var init, last := rows[..|rows| - 1], rows[|rows| - 1];
      assert rows == init + [last];
      WindowMembers(init, sinceMs, untilMs);
    }
  }

  lemma LaterThanAll(rows: seq<Row>, last: Row, some: seq<Row>)
    requires InTimeOrder(rows + [last]) && InTimeOrder(some) && forall r :: r in some ==> r in rows
    ensures InTimeOrder(some + [last])
  {
    forall i | 0 <= i < |some|
      ensures some[i].capturedAtMs < last.capturedAtMs
    {
      assert some[i] in some;
      var j :| 0 <= j < |rows| && rows[j] == some[i];
      assert (rows + [last])[j] == some[i] && (rows + [last])[|rows|] == last;
    }
  }

  lemma {:induction false} WindowInOrder(rows: seq<Row>, sinceMs: int, untilMs: int)
    requires InTimeOrder(rows)
    ensures InTimeOrder(Window(rows, sinceMs, untilMs))
    ensures forall r :: r in Window(rows, sinceMs, untilMs) <==> r in rows && sinceMs <= r.capturedAtMs <= untilMs
  {
    WindowMembers(rows, sinceMs, untilMs);
    if rows != [] {
      var init, last := rows[..|rows| - 1], rows[|rows| - 1];
      assert rows == init + [last];
      WindowInOrder(init, sinceMs, untilMs);
      LaterThanAll(init, last, Window(init, sinceMs, untilMs));
      hide InTimeOrder;
    }
  }

  /** Two lists in time order with the same rows are the same. */
  lemma {:induction false} OrderedOnce(a: seq<Row>, b: seq<Row>)
    requires InTimeOrder(a) && InTimeOrder(b) && forall r :: r in a <==> r in b
    ensures a == b
    decreases |a|
  {
    HeadRow(a);
    HeadRow(b);
    if a != [] && b != [] {
      assert a[0] == b[0];
      assert a == [a[0]] + a[1..] && b == [b[0]] + b[1..];
      forall r
        ensures r in a[1..] <==> r in b[1..]
      {
        assert a[0] !in a[1..] && b[0] !in b[1..];
        assert r in a <==> r == a[0] || r in a[1..];
        assert r in b <==> r == b[0] || r in b[1..];
      }
      OrderedOnce(a[1..], b[1..]);
    }
  }

  lemma HeadRow(rows: seq<Row>)
    ensures rows != [] ==> rows[0] in rows
  {
  }

  /** The rows older than the oldest of a page are the window without that page. */
  lemma OlderThanPage(rows: seq<Row>, sinceMs: int, untilMs: int, cut: nat)
    requires InTimeOrder(rows) && cut < |Window(rows, sinceMs, untilMs)|
    ensures var w := Window(rows, sinceMs, untilMs);
            Window(rows, sinceMs, w[cut].capturedAtMs - 1) == w[..cut]
  {
    hide Window, InTimeOrder;
    var w := Window(rows, sinceMs, untilMs);
    var older := Window(rows, sinceMs, w[cut].capturedAtMs - 1);
    WindowInOrder(rows, sinceMs, untilMs);
    WindowInOrder(rows, sinceMs, w[cut].capturedAtMs - 1);
    PrefixInOrder(w, cut);
    forall r
      ensures r in older <==> r in w[..cut]
    {
      RowBefore(w, cut, r);
    }
    OrderedOnce(older, w[..cut]);
  }

  lemma PrefixInOrder(w: seq<Row>, cut: nat)
    requires InTimeOrder(w) && cut < |w|
    ensures InTimeOrder(w[..cut]) && w[cut] in w
  {
  }

  /** In time order, the rows before a place are those of an earlier time. */
  lemma RowBefore(w: seq<Row>, cut: nat, r: Row)
    requires InTimeOrder(w) && cut < |w|
    ensures r in w[..cut] <==> r in w && r.capturedAtMs < w[cut].capturedAtMs
  {
    if r in w && r.capturedAtMs < w[cut].capturedAtMs {
      var i :| 0 <= i < |w| && w[i] == r;
      assert i < cut;
      assert w[..cut][i] == r;
    }
    if r in w[..cut] {
      var i :| 0 <= i < cut && w[..cut][i] == r;
      assert w[i] == r;
    }
  }

  // ---------- The paging loop ----------

  /** What the fetched pages hold, newest page first: `rows[cut..]` in some order. */
  ghost predicate Collected(samples: seq<Received>, w: seq<Row>, cut: nat) {
    && cut <= |w|
    && (forall r :: r in samples ==> exists i :: cut <= i < |w| && r == Sent(w[i]))
    && (forall i :: cut <= i < |w| ==> Sent(w[i]) in samples)
  }

  lemma CollectPage(samples: seq<Received>, w: seq<Row>, cut: nat, next: nat)
    requires Collected(samples, w, cut) && next <= cut
    ensures Collected(samples + SentAll(w[next..cut]), w, next)
  {
    var page := w[next..cut];
    var all := samples + SentAll(page);
    hide Sent;
    forall r | r in all
      ensures exists i :: next <= i < |w| && r == Sent(w[i])
    {
      if r in samples {
        var i :| cut <= i < |w| && r == Sent(w[i]);
      } else {
        assert r in SentAll(page);
        var j :| 0 <= j < |page| && SentAll(page)[j] == r;
        assert page[j] == w[next + j];
      }
    }
    forall i | next <= i < |w|
      ensures Sent(w[i]) in all
    {
      if i < cut {
        assert SentAll(page)[i - next] == Sent(w[i]);
      }
    }
  }

  /** What was collected, normalized, is those rows in time order. */
  lemma NormalizedRows(samples: seq<Received>, w: seq<Row>, cut: nat, source: string, nowMs: int)
    requires InTimeOrder(w) && Collected(samples, w, cut)
    ensures Normalize(samples, source, nowMs) == ShownAll(w[cut..], source)
  {
    ByTimestampIs(samples, source, nowMs);
    ValuesOfRows(samples, w, cut, source, nowMs);
    hide ByTimestamp, Collected, TimeReceived;
    RowsOfMap(ByTimestamp(samples, source, nowMs), w, cut, source);
  }

  /** The map of time to sample that holds exactly the rows from `cut` on. */
  ghost predicate MapsRows(m: map<int, Sample>, w: seq<Row>, cut: nat, source: string) {
    && cut <= |w|
    && (forall t :: t in m ==> exists i :: cut <= i < |w| && m[t] == Shown(w[i], source))
    && (forall i :: cut <= i < |w| ==> w[i].capturedAtMs in m && m[w[i].capturedAtMs] == Shown(w[i], source))
  }

  lemma RowsOfMap(m: map<int, Sample>, w: seq<Row>, cut: nat, source: string)
    requires InTimeOrder(w) && KeyedByTime(m) && MapsRows(m, w, cut, source)
    ensures Ascending(m) == ShownAll(w[cut..], source)
  {
    var timeline := ShownAll(w[cut..], source);
    RowsAreTimeline(w, cut, source);
    hide Ascending, MapsRows, IsTimeline, ShownAll, InTimeOrder;
    forall x
      ensures x in timeline <==> x.capturedAt in m && m[x.capturedAt] == x
    {
      MemberOfRows(m, w, cut, source, x);
    }
    AscendingIs(m, timeline);
  }

  lemma RowsAreTimeline(w: seq<Row>, cut: nat, source: string)
    requires InTimeOrder(w) && cut <= |w|
    ensures IsTimeline(ShownAll(w[cut..], source))
  {
    forall i | cut <= i < |w|
      ensures w[cut..][i - cut] == w[i]
    {
    }
  }

  lemma MemberOfRows(m: map<int, Sample>, w: seq<Row>, cut: nat, source: string, x: Sample)
    requires KeyedByTime(m) && MapsRows(m, w, cut, source)
    ensures x in ShownAll(w[cut..], source) <==> x.capturedAt in m && m[x.capturedAt] == x
  {
    var timeline := ShownAll(w[cut..], source);
    if x in timeline {
      var i :| 0 <= i < |timeline| && timeline[i] == x;
      assert x == Shown(w[cut + i], source);
    }
    if x.capturedAt in m && m[x.capturedAt] == x {
      var i :| cut <= i < |w| && x == Shown(w[i], source);
      assert timeline[i - cut] == x;
    }
  }

  lemma {:induction false} ValuesOfRows(samples: seq<Received>, w: seq<Row>, cut: nat, source: string, nowMs: int)
    requires InTimeOrder(w) && Collected(samples, w, cut)
    ensures var m := ByTimestamp(samples, source, nowMs);
            && (forall t :: t in m ==> exists i :: cut <= i < |w| && m[t] == Shown(w[i], source))
            && (forall i :: cut <= i < |w| ==> w[i].capturedAtMs in m && m[w[i].capturedAtMs] == Shown(w[i], source))
  {
    var m := ByTimestamp(samples, source, nowMs);
    ByTimestampIs(samples, source, nowMs);
    MembersOfMap(samples, source, nowMs);
    hide ByTimestamp;
    forall t | t in m
      ensures exists i :: cut <= i < |w| && m[t] == Shown(w[i], source)
    {
      assert ComesFrom(m[t], samples, source, nowMs);
      var r :| r in samples && r.snapshot.Some? && m[t] == Usable(r, source, nowMs);
      var i :| cut <= i < |w| && r == Sent(w[i]);
      assert m[t] == Shown(w[i], source);
    }
    forall i | cut <= i < |w|
      ensures w[i].capturedAtMs in m && m[w[i].capturedAtMs] == Shown(w[i], source)
    {
      assert Sent(w[i]) in samples && Usable(Sent(w[i]), source, nowMs).capturedAt == w[i].capturedAtMs;
      assert TimeReceived(samples, source, nowMs, w[i].capturedAtMs);
      var j :| cut <= j < |w| && m[w[i].capturedAtMs] == Shown(w[j], source);
      assert w[j].capturedAtMs == w[i].capturedAtMs;
      assert i == j;
    }
  }

  /** `x` is what some received sample becomes. */
  ghost predicate ComesFrom(x: Sample, samples: seq<Received>, source: string, nowMs: int) {
    exists r :: r in samples && r.snapshot.Some? && x == Usable(r, source, nowMs)
  }

  ghost predicate AllComeFrom(m: map<int, Sample>, samples: seq<Received>, source: string, nowMs: int) {
    forall t :: t in m ==> ComesFrom(m[t], samples, source, nowMs)
  }

  lemma {:induction false} MembersOfMap(samples: seq<Received>, source: string, nowMs: int)
    ensures AllComeFrom(ByTimestamp(samples, source, nowMs), samples, source, nowMs)
  {
    if samples != [] {
      var init, last := samples[..|samples| - 1], samples[|samples| - 1];
      assert samples == init + [last];
      MembersOfMap(init, source, nowMs);
      hide Usable;
      forall x
        ensures ComesFrom(x, init, source, nowMs) ==> ComesFrom(x, samples, source, nowMs)
      {
        assert forall r :: r in init ==> r in samples;
      }
      assert last.snapshot.Some? ==> ComesFrom(Usable(last, source, nowMs), samples, source, nowMs) by {
        assert last in samples;
      }
      var before := ByTimestamp(init, source, nowMs);
      assert ByTimestamp(samples, source, nowMs)
          == if last.snapshot.None? then before
             else before[Usable(last, source, nowMs).capturedAt := Usable(last, source, nowMs)];
      hide ByTimestamp, ComesFrom;
    }
  }

  lemma CollectedPage(w: seq<Row>, cut: nat)
    requires cut <= |w|
    ensures Collected(SentAll(w[cut..]), w, cut)
  {
    CollectPage([], w, |w|, cut);
    assert w[cut..|w|] == w[cut..];
    assert [] + SentAll(w[cut..]) == SentAll(w[cut..]);
  }

  /** The first of a page in time order is its oldest row. */
  lemma OldestOfPage(w: seq<Row>, source: string, nowMs: int)
    requires InTimeOrder(w) && w != []
    ensures var page := Normalize(SentAll(w), source, nowMs);
            page != [] && page[0].capturedAt == w[0].capturedAtMs
  {
    CollectedPage(w, 0);
    assert w[0..] == w;
    NormalizedRows(SentAll(w), w, 0, source, nowMs);
    hide Normalize;
  }

  lemma PageOfWindow(rows: seq<Row>, sinceMs: int, pageUntilMs: int, limit: int, w: seq<Row>, cut: nat)
    requires 1 <= limit <= MAX_HISTORY_PAGE_SIZE && cut <= |w| && Window(rows, sinceMs, pageUntilMs) == w[..cut]
    ensures ReadHistory(rows, sinceMs, pageUntilMs, limit) == w[cut - Min(limit, cut)..cut]
  {
    hide Window;
  }

  lemma SliceInOrder(w: seq<Row>, lo: nat, hi: nat)
    requires InTimeOrder(w) && lo <= hi <= |w|
    ensures InTimeOrder(w[lo..hi])
  {
  }

  /** A row of the window at its start is the first. */
  lemma OldestInWindow(rows: seq<Row>, sinceMs: int, untilMs: int, i: nat)
    requires InTimeOrder(rows) && i < |Window(rows, sinceMs, untilMs)|
    ensures Window(rows, sinceMs, untilMs)[i].capturedAtMs <= sinceMs ==> i == 0
  {
    var w := Window(rows, sinceMs, untilMs);
    WindowInOrder(rows, sinceMs, untilMs);
    assert w[0] in w;
  }

  /** Asking until `atMs` gives the first `cut` rows of the whole window. */
  ghost predicate LeavesFirst(rows: seq<Row>, sinceMs: int, untilMs: int, atMs: int, cut: nat) {
    var w := Window(rows, sinceMs, untilMs);
    cut <= |w| && Window(rows, sinceMs, atMs) == w[..cut]
  }

  /** The rows of the window from `next` to `cut`. */
  ghost function Slice(rows: seq<Row>, sinceMs: int, untilMs: int, next: nat, cut: nat): seq<Row> {
    var w := Window(rows, sinceMs, untilMs);
    if next <= cut <= |w| then w[next..cut] else []
  }

  lemma PageFacts(rows: seq<Row>, sinceMs: int, untilMs: int, atMs: int, limit: int, cut: nat)
    requires InTimeOrder(rows) && 1 <= limit <= MAX_HISTORY_PAGE_SIZE && LeavesFirst(rows, sinceMs, untilMs, atMs, cut)
    ensures var page, next := ReadHistory(rows, sinceMs, atMs, limit), cut - Min(limit, cut);
            && page == Slice(rows, sinceMs, untilMs, next, cut) && InTimeOrder(page)
            && (page == [] ==> next == 0) && (|page| < limit ==> next == 0)
            && (page != [] ==> LeavesFirst(rows, sinceMs, untilMs, page[0].capturedAtMs - 1, next))
            && (page != [] && page[0].capturedAtMs <= sinceMs ==> next == 0)
  {
    var w, next := Window(rows, sinceMs, untilMs), cut - Min(limit, cut);
    WindowInOrder(rows, sinceMs, untilMs);
    PageOfWindow(rows, sinceMs, atMs, limit, w, cut);
    SliceInOrder(w, next, cut);
    hide Window, InTimeOrder, ReadHistory;
    assert next < cut ==> w[next..cut][0] == w[next];
    if next < cut {
      OlderThanPage(rows, sinceMs, untilMs, next);
      OldestInWindow(rows, sinceMs, untilMs, next);
    }
  }

  /** One page: its samples and, unless it was the last, the time to ask for next; `cut` counts the rows of the whole
    * window not yet fetched. */
  method FetchPage(rows: seq<Row>, sinceMs: int, pageUntilMs: int, limit: int, source: string, nowMs: int,
                   ghost untilMs: int, ghost cut: nat) returns (pageSamples: seq<Received>, nextUntilMs: Option<int>)
    requires InTimeOrder(rows) && 1 <= limit <= MAX_HISTORY_PAGE_SIZE
    requires LeavesFirst(rows, sinceMs, untilMs, pageUntilMs, cut)
    ensures pageSamples == SentAll(Slice(rows, sinceMs, untilMs, cut - Min(limit, cut), cut))
    ensures nextUntilMs.None? ==> cut - Min(limit, cut) == 0
    ensures nextUntilMs.Some? ==> LeavesFirst(rows, sinceMs, untilMs, nextUntilMs.value, cut - Min(limit, cut))
  {
    hide *;
    var pageRows := ReadHistory(rows, sinceMs, pageUntilMs, limit);
    PageFacts(rows, sinceMs, untilMs, pageUntilMs, limit, cut);
    pageSamples := SentAll(pageRows);
    if pageSamples == [] {
      return pageSamples, None;
    }
    var normalizedPage := NormalizeHistorySamples(pageSamples, source, nowMs);
    OldestOfPage(pageRows, source, nowMs);
    if |pageSamples| < limit || normalizedPage == [] || normalizedPage[0].capturedAt <= sinceMs {
      return pageSamples, None;
    }
    return pageSamples, Some(normalizedPage[0].capturedAt - 1);
  }

  /** The most samples that so many pages hold. */
  ghost function Capacity(pages: nat, limit: nat): nat { if pages == 0 then 0 else Capacity(pages - 1, limit) + limit }

  lemma {:induction false} NextCapacity(page: nat, most: nat, limit: nat)
    requires page < most
    ensures Capacity(page + 1, limit) == Capacity(page, limit) + limit <= Capacity(most, limit)
  {
    if page + 1 < most {
      NextCapacity(page, most - 1, limit);
    }
  }

  lemma {:induction false} CapacityIs(pages: nat, limit: nat)
    ensures Capacity(pages, limit) == pages * limit && Capacity(0, limit) == 0
  {
    if pages > 0 {
      CapacityIs(pages - 1, limit);
    }
  }

  /** The loop over pages, backwards in time. The first `answered` requests are answered, the rest fail; a failed request
    * reads as an empty page. Normalized, the pages are exactly the newest samples of the window. */
  method FetchPages(rows: seq<Row>, sinceMs: int, untilMs: int, pageSize: int, answered: nat, source: string, nowMs: int)
    returns (samples: seq<Received>)
    requires InTimeOrder(rows) && pageSize >= 1
    ensures 0 <= (if answered < 8 then answered else 8) * (if pageSize < 10_000 then pageSize else 10_000)
    ensures var w := Window(rows, sinceMs, untilMs);
            var most := (if answered < 8 then answered else 8) * (if pageSize < 10_000 then pageSize else 10_000);
            Normalize(samples, source, nowMs) == ShownAll(Newest(w, most), source)
  {
    hide *;
    var limit := Min(MAX_HISTORY_PAGE_SIZE, pageSize);
    var pageUntilMs := untilMs;
    samples := [];
    ghost var w := Window(rows, sinceMs, untilMs);
    ghost var got := 0;
    ghost var pages := Min(MAX_HISTORY_PAGE_COUNT, answered);
    LimitFits(pageSize);
    MinIs(MAX_HISTORY_PAGE_COUNT, answered);
    MostIs(answered, pageSize);
    ghost var most := Capacity(pages, limit);
    WindowInOrder(rows, sinceMs, untilMs);
    CapacityIs(0, limit);
    CapacityIs(pages, limit);
    NothingFetched(rows, sinceMs, untilMs);
    var page := 0;
    while page < MAX_HISTORY_PAGE_COUNT
      invariant 0 <= page <= MAX_HISTORY_PAGE_COUNT && page <= answered
      invariant got == Capacity(page, limit) <= most
      invariant Fetched(samples, w, got)
      invariant LeavesFirst(rows, sinceMs, untilMs, pageUntilMs, Unfetched(w, got))
    {
      if page >= answered {
        break;
      }
      NextCapacity(page, pages, limit);
      var pageSamples, next := FetchPage(rows, sinceMs, pageUntilMs, limit, source, nowMs, untilMs, Unfetched(w, got));
      PageFetched(samples, rows, sinceMs, untilMs, got, limit);
      samples := samples + pageSamples;
      got := got + limit;
      if next.None? {
        AllFetched(samples, w, got, most);
        got := most;
        break;
      }
      pageUntilMs := next.value;
      page := page + 1;
    }
    assert got == most;
    FetchedAreNewest(samples, w, most, source, nowMs);
  }

  lemma LimitFits(pageSize: int)
    requires pageSize >= 1
    ensures 1 <= Min(MAX_HISTORY_PAGE_SIZE, pageSize) <= MAX_HISTORY_PAGE_SIZE
  {
  }

  lemma MostIs(answered: nat, pageSize: int)
    requires pageSize >= 1
    ensures Min(MAX_HISTORY_PAGE_COUNT, answered) * Min(MAX_HISTORY_PAGE_SIZE, pageSize)
         == (if answered < 8 then answered else 8) * (if pageSize < 10_000 then pageSize else 10_000)
  {
  }

  lemma MinIs(a: int, b: int)
    ensures Min(a, b) <= a && Min(a, b) <= b && (Min(a, b) == a || Min(a, b) == b)
  {
  }

  /** How many rows of the window are left after the newest `got`. */
  ghost function Unfetched(w: seq<Row>, got: nat): (cut: nat)
    ensures cut <= |w|
  {
    |w| - Min(got, |w|)
  }

  /** The samples are the newest `got` rows of the window. */
  ghost predicate Fetched(samples: seq<Received>, w: seq<Row>, got: nat) { Collected(samples, w, Unfetched(w, got)) }

  lemma NothingFetched(rows: seq<Row>, sinceMs: int, untilMs: int)
    ensures var w := Window(rows, sinceMs, untilMs);
            Fetched([], w, 0) && LeavesFirst(rows, sinceMs, untilMs, untilMs, Unfetched(w, 0))
  {
    hide Window;
    var w := Window(rows, sinceMs, untilMs);
    assert w[..|w|] == w;
  }

  lemma PageFetched(samples: seq<Received>, rows: seq<Row>, sinceMs: int, untilMs: int, got: nat, limit: nat)
    requires Fetched(samples, Window(rows, sinceMs, untilMs), got)
    ensures var w := Window(rows, sinceMs, untilMs);
            var cut := Unfetched(w, got);
            && Unfetched(w, got + limit) == cut - Min(limit, cut)
            && Fetched(samples + SentAll(Slice(rows, sinceMs, untilMs, cut - Min(limit, cut), cut)), w, got + limit)
  {
    hide Collected, Window, SentAll;
    var w := Window(rows, sinceMs, untilMs);
    var cut := Unfetched(w, got);
    CollectPage(samples, w, cut, cut - Min(limit, cut));
  }

  lemma AllFetched(samples: seq<Received>, w: seq<Row>, got: nat, more: nat)
    requires Fetched(samples, w, got) && Unfetched(w, got) == 0 && got <= more
    ensures Fetched(samples, w, more)
  {
    hide Collected;
  }

  lemma FetchedAreNewest(samples: seq<Received>, w: seq<Row>, got: nat, source: string, nowMs: int)
    requires InTimeOrder(w) && Fetched(samples, w, got)
    ensures Normalize(samples, source, nowMs) == ShownAll(Newest(w, got), source)
  {
    NormalizedRows(samples, w, Unfetched(w, got), source, nowMs);
    hide Normalize, ShownAll;
  }

  // ---------- Thinning ----------

  /** `Math.round`. */
  function Round(x: real): int { (x + 0.5).Floor }

  /** `samples.slice(-1)`. */
  function LastOnly<T>(samples: seq<T>): seq<T> { if samples == [] then [] else [samples[|samples| - 1]] }

  /** The distance between two samples kept. */
  function StepOf(length: nat, maxSamples: int): real
    requires maxSamples > 1
  {
    (length - 1) as real / (maxSamples - 1) as real
  }

  /** The place of the `index`-th sample kept. */
  function Place(length: nat, maxSamples: int, index: nat): int
    requires maxSamples > 1
  {
    Round(index as real * StepOf(length, maxSamples))
  }

  lemma NextPlace(length: nat, maxSamples: int, index: nat)
    requires 1 < maxSamples < length
    ensures Place(length, maxSamples, index) < Place(length, maxSamples, index + 1)
  {
    var step := StepOf(length, maxSamples);
    assert step > 1.0 by {
      assert (length - 1) as real > (maxSamples - 1) as real > 0.0;
    }
    assert (index + 1) as real * step == index as real * step + step;
  }

  lemma {:induction false} PlacesRise(length: nat, maxSamples: int, i: nat, j: nat)
    requires 1 < maxSamples < length && i < j
    ensures Place(length, maxSamples, i) < Place(length, maxSamples, j)
  {
    hide Place;
    NextPlace(length, maxSamples, j - 1);
    if i < j - 1 {
      PlacesRise(length, maxSamples, i, j - 1);
    }
  }

  lemma EndPlaces(length: nat, maxSamples: int)
    requires 1 < maxSamples < length
    ensures Place(length, maxSamples, 0) == 0 && Place(length, maxSamples, maxSamples - 1) == length - 1
  {
    var step := StepOf(length, maxSamples);
    assert 0 as real * step == 0.0;
    assert (maxSamples - 1) as real * step == (length - 1) as real;
  }

  lemma PlaceFits(length: nat, maxSamples: int, index: nat)
    requires 1 < maxSamples < length && index < maxSamples
    ensures 0 <= Place(length, maxSamples, index) < length
  {
    hide Place;
    EndPlaces(length, maxSamples);
    if 0 < index {
      PlacesRise(length, maxSamples, 0, index);
    }
    if index < maxSamples - 1 {
      PlacesRise(length, maxSamples, index, maxSamples - 1);
    }
  }

  /** The samples kept: all, the last, or those at evenly spaced places. */
  function Thinned(samples: seq<Sample>, maxSamples: int): seq<Sample> {
    if |samples| <= maxSamples then samples
    else if maxSamples <= 1 then LastOnly(samples)
    else
      seq(maxSamples, i requires 0 <= i < maxSamples =>
        PlaceFits(|samples|, maxSamples, i);
        samples[Place(|samples|, maxSamples, i)])
  }

  method DownsampleHistorySamples(samples: seq<Sample>, maxSamples: int) returns (selected: seq<Sample>)
    ensures IsTimeline(samples) ==> selected == Thinned(samples, maxSamples)
  {
    ShortThinned(samples, maxSamples);
    hide Place, Thinned, IsTimeline;
    if |samples| <= maxSamples {
      return samples;
    }
    if maxSamples <= 1 {
      return LastOnly(samples);
    }
    selected := [];
    var seen: set<int> := {};
    NoneKept(samples, maxSamples);
    for index := 0 to maxSamples
      invariant IsTimeline(samples) ==> Kept(samples, maxSamples, index, selected, seen)
    {
      PlaceFits(|samples|, maxSamples, index);
      var sample := samples[Place(|samples|, maxSamples, index)];
      if IsTimeline(samples) {
        KeepsNext(samples, maxSamples, index, selected, seen);
      }
      if sample.capturedAt in seen {
        continue;
      }
      selected := selected + [sample];
      seen := seen + {sample.capturedAt};
    }
    if IsTimeline(samples) {
      AllKept(samples, maxSamples, selected, seen);
    }
  }

  /** A short series stays whole, and one sample is the last. */
  lemma ShortThinned(samples: seq<Sample>, maxSamples: int)
    ensures |samples| <= maxSamples ==> Thinned(samples, maxSamples) == samples
    ensures |samples| > maxSamples && maxSamples <= 1 ==> Thinned(samples, maxSamples) == samples[|samples| - Min(|samples|, 1)..]
    ensures |samples| > maxSamples && maxSamples <= 1 ==> Thinned(samples, maxSamples) == LastOnly(samples)
  {
  }

  /** The first `index` places have given `selected`, at the times `seen`. */
  ghost predicate Kept(samples: seq<Sample>, maxSamples: int, index: nat, selected: seq<Sample>, seen: set<int>) {
    && index <= |Thinned(samples, maxSamples)| && selected == Thinned(samples, maxSamples)[..index]
    && forall t :: t in seen ==> exists i :: 0 <= i < index && t == Thinned(samples, maxSamples)[i].capturedAt
  }

  lemma NoneKept(samples: seq<Sample>, maxSamples: int)
    ensures Kept(samples, maxSamples, 0, [], {})
  {
    hide Thinned;
  }

  lemma AllKept(samples: seq<Sample>, maxSamples: int, selected: seq<Sample>, seen: set<int>)
    requires 1 < maxSamples < |samples| && Kept(samples, maxSamples, maxSamples, selected, seen)
    ensures selected == Thinned(samples, maxSamples)
  {
    hide Place;
    assert |Thinned(samples, maxSamples)| == maxSamples;
  }

  lemma KeepsNext(samples: seq<Sample>, maxSamples: int, index: nat, selected: seq<Sample>, seen: set<int>)
    requires IsTimeline(samples) && 1 < maxSamples < |samples| && index < maxSamples
    requires Kept(samples, maxSamples, index, selected, seen)
    ensures 0 <= Place(|samples|, maxSamples, index) < |samples|
    ensures var sample := samples[Place(|samples|, maxSamples, index)];
            sample.capturedAt !in seen
            && Kept(samples, maxSamples, index + 1, selected + [sample], seen + {sample.capturedAt})
  {
    PlaceFits(|samples|, maxSamples, index);
    NotSeenBefore(samples, maxSamples, index);
    ThinnedAt(samples, maxSamples, index);
    hide Thinned, Place, IsTimeline;
    var r := Thinned(samples, maxSamples);
    assert r[..index + 1] == r[..index] + [r[index]];
    var times := seen + {r[index].capturedAt};
    forall t | t in times
      ensures exists i :: 0 <= i < index + 1 && t == r[i].capturedAt
    {
      if t in seen {
        var i :| 0 <= i < index && t == r[i].capturedAt;
      }
    }
  }

  lemma ThinnedAt(samples: seq<Sample>, maxSamples: int, index: nat)
    requires 1 < maxSamples < |samples| && index < maxSamples
    ensures |Thinned(samples, maxSamples)| == maxSamples && 0 <= Place(|samples|, maxSamples, index) < |samples|
    ensures Thinned(samples, maxSamples)[index] == samples[Place(|samples|, maxSamples, index)]
  {
    hide Place;
    PlaceFits(|samples|, maxSamples, index);
  }

  lemma NotSeenBefore(samples: seq<Sample>, maxSamples: int, index: nat)
    requires IsTimeline(samples) && 1 < maxSamples < |samples| && index < maxSamples
    ensures |Thinned(samples, maxSamples)| == maxSamples
    ensures forall i :: 0 <= i < index ==>
              Thinned(samples, maxSamples)[i].capturedAt < Thinned(samples, maxSamples)[index].capturedAt
  {
    hide Place;
    PlaceFits(|samples|, maxSamples, index);
    forall i | 0 <= i < index
      ensures Thinned(samples, maxSamples)[i].capturedAt < Thinned(samples, maxSamples)[index].capturedAt
    {
      PlaceFits(|samples|, maxSamples, i);
      PlacesRise(|samples|, maxSamples, i, index);
    }
  }

  /** A longer series is thinned to exactly `maxSamples` of its samples, in strictly rising time, the first and the last among
    * them, each within half a step of its even place. */
  lemma ThinnedKeeps(samples: seq<Sample>, maxSamples: int)
    requires IsTimeline(samples) && 1 < maxSamples < |samples|
    ensures var r := Thinned(samples, maxSamples);
            && |r| == maxSamples && IsTimeline(r)
            && r[0] == samples[0] && r[maxSamples - 1] == samples[|samples| - 1]
            && forall i :: 0 <= i < maxSamples ==> r[i] in samples
    ensures forall i: nat :: i < maxSamples ==>
              KeptNear(samples, maxSamples, i, Thinned(samples, maxSamples)[i])
  {
    hide Place, Nearest;
    var r := Thinned(samples, maxSamples);
    EndPlaces(|samples|, maxSamples);
    forall i: nat | i < maxSamples
      ensures KeptNear(samples, maxSamples, i, r[i])
    {
      NearStep(|samples|, maxSamples, i);
      PlaceFits(|samples|, maxSamples, i);
      var p := Place(|samples|, maxSamples, i);
      assert 0 <= p < |samples| && Nearest(|samples|, maxSamples, i, p) && r[i] == samples[p];
    }
    forall i | 0 <= i < maxSamples
      ensures r[i] in samples
    {
      PlaceFits(|samples|, maxSamples, i);
    }
    forall i, j | 0 <= i < j < |r|
      ensures r[i].capturedAt < r[j].capturedAt
    {
      NotSeenBefore(samples, maxSamples, j);
    }
  }

  /** `x` is the sample nearest to the `i`-th even place. */
  ghost predicate KeptNear(samples: seq<Sample>, most: int, i: nat, x: Sample) {
    exists p :: 0 <= p < |samples| && Nearest(|samples|, most, i, p) && x == samples[p]
  }

  /** `p` is the place nearest to the `i`-th of `most` places spread evenly over `length` samples; of two as near, the
    * later. */
  predicate Nearest(length: nat, most: int, i: nat, p: int) {
    0 <= p < length && (2 * p - 1) * (most - 1) <= 2 * i * (length - 1) < (2 * p + 1) * (most - 1)
  }

  lemma NearStep(length: nat, maxSamples: int, i: nat)
    requires 1 < maxSamples < length && i < maxSamples
    ensures Nearest(length, maxSamples, i, Place(length, maxSamples, i))
  {
    hide Place, Spot;
    PlaceFits(length, maxSamples, i);
    PlaceIsRound(length, maxSamples, i);
    SpotTimes(length, maxSamples, i);
    NearWhole(Place(length, maxSamples, i), 2.0 * Spot(length, maxSamples, i), maxSamples - 1, 2 * i * (length - 1));
  }

  /** The even place of the `i`-th sample kept. */
  ghost function Spot(length: nat, maxSamples: int, i: nat): real
    requires maxSamples > 1
  {
    i as real * StepOf(length, maxSamples)
  }

  lemma PlaceIsRound(length: nat, maxSamples: int, i: nat)
    requires maxSamples > 1
    ensures var p, x := Place(length, maxSamples, i), Spot(length, maxSamples, i); p as real <= x + 0.5 < p as real + 1.0
  {
    hide StepOf;
  }

  lemma SpotTimes(length: nat, maxSamples: int, i: nat)
    requires maxSamples > 1
    ensures 2.0 * Spot(length, maxSamples, i) * (maxSamples - 1) as real == (2 * i * (length - 1)) as real
  {
    StepTimes(length, maxSamples, i);
  }

  lemma NearWhole(p: int, y: real, d: int, whole: int)
    requires p as real <= y / 2.0 + 0.5 < p as real + 1.0 && d > 0 && y * d as real == whole as real
    ensures (2 * p - 1) * d <= whole < (2 * p + 1) * d
  {
    InWhole(2 * p - 1, 2 * p + 1, d, whole, y);
  }

  lemma Scaled(lo: real, y: real, hi: real, d: real)
    requires lo <= y < hi && d > 0.0
    ensures lo * d <= y * d < hi * d
  {
    assert (y - lo) * d >= 0.0 && (hi - y) * d > 0.0;
  }

  lemma InWhole(a: int, b: int, d: int, x: int, y: real)
    requires a as real <= y < b as real && d > 0 && y * d as real == x as real
    ensures a * d <= x < b * d
  {
    Scaled(a as real, y, b as real, d as real);
    RealProduct(a, d);
    RealProduct(b, d);
  }

  lemma RealProduct(a: int, d: int)
    ensures (a * d) as real == a as real * d as real
  {
  }

  lemma StepTimes(length: nat, maxSamples: int, i: nat)
    requires maxSamples > 1
    ensures 2.0 * (i as real * StepOf(length, maxSamples)) * (maxSamples - 1) as real == (2 * i * (length - 1)) as real
  {
    var step := StepOf(length, maxSamples);
    assert step * (maxSamples - 1) as real == (length - 1) as real;
    hide StepOf;
    assert 2.0 * (i as real * step) * (maxSamples - 1) as real == 2.0 * i as real * (step * (maxSamples - 1) as real);
  }

  // ---------- The whole fetch ----------

  /** What the dashboard shows of a raw window: the newest samples that the answered pages reach, thinned for drawing. */
  method FetchHistoryWindow(rows: seq<Row>, sinceMs: int, untilMs: int, pageSize: int, answered: nat, source: string,
                            nowMs: int) returns (shown: seq<Sample>)
    requires InTimeOrder(rows) && pageSize >= 1
    ensures 0 <= (if answered < 8 then answered else 8) * (if pageSize < 10_000 then pageSize else 10_000)
    ensures var most := (if answered < 8 then answered else 8) * (if pageSize < 10_000 then pageSize else 10_000);
            shown == Thinned(ShownAll(Newest(Window(rows, sinceMs, untilMs), most), source), 1_200)
  {
    hide Thinned, Normalize, Window;
    ghost var most := (if answered < 8 then answered else 8) * (if pageSize < 10_000 then pageSize else 10_000);
    var samples := FetchPages(rows, sinceMs, untilMs, pageSize, answered, source, nowMs);
    var normalized := NormalizeHistorySamples(samples, source, nowMs);
    NormalizedIsTimeline(samples, source, nowMs);
    assert normalized == ShownAll(Newest(Window(rows, sinceMs, untilMs), most), source);
    shown := DownsampleHistorySamples(normalized, MAX_HISTORY_RENDER_SAMPLES);
  }
}
