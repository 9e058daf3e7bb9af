/** The timeline aggregator of api/src/services/timeline.ts: events grouped
    into one-minute windows, each window with its number of events and its
    most frequent source, the windows in ascending key order. */
module Timeline {

  import opened Wrappers
  import opened JsText
  import opened Parser
  import opened Ranking

  datatype TimelineBucket = TimelineBucket(window: string, count: nat, topSrcIp: string)

  /** The window key of a timestamp: `None` when `new Date(ts)` is an
      invalid date, otherwise the ISO form of that time with seconds and
      milliseconds zeroed, cut to `YYYY-MM-DDTHH:MM`. Date parsing and the
      time zone are not modelled; the key is a parameter. */
  type MinuteKey = string -> Option<string>

  // ---------------------------------------------------------------------
  // Bucketing
  // ---------------------------------------------------------------------

  /** The events whose timestamp parses. */
  function Stamped(events: seq<LogEvent>, key: MinuteKey): seq<LogEvent> {
    if events == [] then []
    else
      var e := events[|events| - 1];
      Stamped(events[..|events| - 1], key) + if key(e.ts).Some? then [e] else []
  }

  /** The window key of each event whose timestamp parses, in order. */
  function Windows(events: seq<LogEvent>, key: MinuteKey): seq<string> {
    if events == [] then []
    else
      var e := events[|events| - 1];
      Windows(events[..|events| - 1], key) + if key(e.ts).Some? then [key(e.ts).value] else []
  }

  /** The events of window `w`, in input order: the list `buckets.get(w)`. */
  function InWindow(events: seq<LogEvent>, key: MinuteKey, w: string): seq<LogEvent> {
    if events == [] then []
    else
      var e := events[|events| - 1];
      InWindow(events[..|events| - 1], key, w) + if key(e.ts) == Some(w) then [e] else []
  }

  /** The most frequent source of `list`, the first encountered among equals;
      "-" when there is none. */
  function TopSource(list: seq<LogEvent>): string {
    var ranked := SortByCount(Tally(SrcIps(list)));
    if ranked == [] then "-" else ranked[0].key
  }

  /** The bucket of window `w`. */
  function Bucket(w: string, events: seq<LogEvent>, key: MinuteKey): TimelineBucket {
    var list := InWindow(events, key, w);
    TimelineBucket(w, |list|, TopSource(list))
  }

  /** One bucket for each window of `ws`, in that order. */
  function BucketsOf(ws: seq<string>, events: seq<LogEvent>, key: MinuteKey): (r: seq<TimelineBucket>)
    ensures |r| == |ws|
  {
    seq(|ws|, k requires 0 <= k < |ws| => Bucket(ws[k], events, key))
  }

  lemma MemberOfBucketsOf(ws: seq<string>, events: seq<LogEvent>, key: MinuteKey, b: TimelineBucket)
    requires b in BucketsOf(ws, events, key)
    ensures b.window in ws && b == Bucket(b.window, events, key)
  {
    var k :| 0 <= k < |ws| && BucketsOf(ws, events, key)[k] == b;
  }

  lemma BucketsOfAppend(ws: seq<string>, w: string, events: seq<LogEvent>, key: MinuteKey)
    ensures BucketsOf(ws + [w], events, key) == BucketsOf(ws, events, key) + [Bucket(w, events, key)]
  {
  }

  lemma BucketsOfStep(ws: seq<string>, k: nat, events: seq<LogEvent>, key: MinuteKey)
    requires k < |ws|
    ensures BucketsOf(ws[..k + 1], events, key) == BucketsOf(ws[..k], events, key) + [Bucket(ws[k], events, key)]
  {
    assert ws[..k + 1] == ws[..k] + [ws[k]];
    BucketsOfAppend(ws[..k], ws[k], events, key);
  }

  // ---------------------------------------------------------------------
  // sort((a, b) => a.window.localeCompare(b.window)), a stable sort
  // ---------------------------------------------------------------------

  predicate Before(a: string, b: string) {
    LexLeq(a, b) && a != b
  }

  /** Places `x` after the leading buckets whose window does not sort after
      its own. */
  function InsertByWindow(x: TimelineBucket, s: seq<TimelineBucket>): (r: seq<TimelineBucket>)
    ensures |r| == |s| + 1
    ensures multiset(r) == multiset(s) + multiset{x}
  {
    if s == [] || Before(x.window, s[0].window) then [x] + s
    else
      assert s == [s[0]] + s[1..];
      [s[0]] + InsertByWindow(x, s[1..])
  }

  function SortByWindow(s: seq<TimelineBucket>): (r: seq<TimelineBucket>)
    ensures |r| == |s|
    ensures multiset(r) == multiset(s)
  {
    if s == [] then []
    else
      var init := s[..|s| - 1];
      assert s == init + [s[|s| - 1]];
      InsertByWindow(s[|s| - 1], SortByWindow(init))
  }

  /** What `buildTimeline` returns. */
  function Buckets(events: seq<LogEvent>, key: MinuteKey): seq<TimelineBucket> {
    SortByWindow(BucketsOf(Distinct(Windows(events, key)), events, key))
  }

  // ---------------------------------------------------------------------
  // buildTimeline
  // ---------------------------------------------------------------------

  lemma WindowsStep(events: seq<LogEvent>, i: nat, key: MinuteKey)
    requires i < |events|
    ensures Windows(events[..i + 1], key) ==
      Windows(events[..i], key) + if key(events[i].ts).Some? then [key(events[i].ts).value] else []
  {
    assert events[..i + 1][..i] == events[..i];
  }

  lemma InWindowStep(events: seq<LogEvent>, i: nat, key: MinuteKey, w: string)
    requires i < |events|
    ensures InWindow(events[..i + 1], key, w) ==
      InWindow(events[..i], key, w) + if key(events[i].ts) == Some(w) then [events[i]] else []
  {
    assert events[..i + 1][..i] == events[..i];
  }

  /** One more event adds its window at the end of the key order when its
      timestamp parses and the window is new. */
  lemma WindowOrderStep(events: seq<LogEvent>, i: nat, key: MinuteKey)
    requires i < |events|
    ensures var d := Distinct(Windows(events[..i], key));
      var k := key(events[i].ts);
      Distinct(Windows(events[..i + 1], key)) == if k.None? || k.value in d then d else d + [k.value]
  {
    WindowsStep(events, i, key);
    var k := key(events[i].ts);
    if k.Some? {
      DistinctAppend(Windows(events[..i], key), k.value);
    } else {
      assert Windows(events[..i + 1], key) == Windows(events[..i], key);
    }
  }

  /** The keys of `buckets` are the windows of `seen`, in first-occurrence
      order. */
  ghost predicate OrderOf(buckets: map<string, seq<LogEvent>>, order: seq<string>,
                          seen: seq<LogEvent>, key: MinuteKey) {
    order == Distinct(Windows(seen, key)) &&
    (forall w :: w in buckets <==> w in order)
  }

  /** Every bucket holds the events of `seen` in its window, and windows
      without a bucket hold none. */
  ghost predicate ContentsOf(buckets: map<string, seq<LogEvent>>, seen: seq<LogEvent>, key: MinuteKey) {
    (forall w :: w in buckets ==> buckets[w] == InWindow(seen, key, w)) &&
    (forall w :: w !in buckets ==> InWindow(seen, key, w) == [])
  }

  /** An event whose timestamp does not parse changes no bucket. */
  lemma UnstampedStep(buckets: map<string, seq<LogEvent>>, order: seq<string>,
                      events: seq<LogEvent>, i: nat, key: MinuteKey)
    requires i < |events| && key(events[i].ts).None?
    requires OrderOf(buckets, order, events[..i], key) && ContentsOf(buckets, events[..i], key)
    ensures OrderOf(buckets, order, events[..i + 1], key) && ContentsOf(buckets, events[..i + 1], key)
  {
    WindowOrderStep(events, i, key);
    forall w ensures InWindow(events[..i + 1], key, w) == InWindow(events[..i], key, w) {
      InWindowStep(events, i, key, w);
    }
  }

  /** Pushing an event onto the bucket of its window keeps every bucket
      equal to the events of its window. */
  lemma PushContents(buckets: map<string, seq<LogEvent>>, events: seq<LogEvent>, i: nat,
                     key: MinuteKey, w: string)
    requires i < |events| && key(events[i].ts) == Some(w)
    requires ContentsOf(buckets, events[..i], key)
    ensures ContentsOf(Push(buckets, w, events[i]), events[..i + 1], key)
  {
    var buckets' := Push(buckets, w, events[i]);
    forall v | v in buckets' ensures buckets'[v] == InWindow(events[..i + 1], key, v) {
      InWindowStep(events, i, key, v);
    }
    forall v | v !in buckets' ensures InWindow(events[..i + 1], key, v) == [] {
      InWindowStep(events, i, key, v);
    }
  }

  /** Pushing onto the bucket of a new window puts the window at the end of
      the key order. */
  lemma PushOrder(buckets: map<string, seq<LogEvent>>, order: seq<string>, events: seq<LogEvent>,
                  i: nat, key: MinuteKey, w: string)
    requires i < |events| && key(events[i].ts) == Some(w)
    requires OrderOf(buckets, order, events[..i], key)
    ensures OrderOf(Push(buckets, w, events[i]), if w in buckets then order else order + [w],
                    events[..i + 1], key)
  {
    var order' := if w in buckets then order else order + [w];
    var buckets' := Push(buckets, w, events[i]);
    WindowOrderStep(events, i, key);
    assert w in buckets <==> w in order;
    assert order' == Distinct(Windows(events[..i + 1], key));
    forall v ensures v in buckets' <==> v in order' {
      assert v in buckets' <==> v in buckets || v == w;
      assert v in order' <==> v in order || v == w;
    }
  }

  /** The first loop of `buildTimeline`: the `buckets` map and the insertion
      order of its keys. */
  method GroupByWindow(events: seq<LogEvent>, minuteKey: MinuteKey)
    returns (buckets: map<string, seq<LogEvent>>, order: seq<string>)
    ensures order == Distinct(Windows(events, minuteKey))
    ensures forall w :: w in buckets <==> w in order
    ensures forall w :: w in buckets ==> buckets[w] == InWindow(events, minuteKey, w)
  {
    buckets := map[];
    order := [];
    for i := 0 to |events|
      invariant OrderOf(buckets, order, events[..i], minuteKey)
      invariant ContentsOf(buckets, events[..i], minuteKey)
    {
      var evt := events[i];
      var date := minuteKey(evt.ts);
      if date.None? {
        UnstampedStep(buckets, order, events, i, minuteKey);
        continue;
      }
      var windowKey := date.value;
      PushOrder(buckets, order, events, i, minuteKey, windowKey);
      PushContents(buckets, events, i, minuteKey, windowKey);
      if windowKey !in buckets {
        PushNew(buckets, windowKey, evt);
        buckets := buckets[windowKey := []];
        order := order + [windowKey];
      }
      buckets := buckets[windowKey := buckets[windowKey] + [evt]];
    }
    assert events[..|events|] == events;
  }

  /** The per-window count of sources and the pick of the top one. */
  method TopSrcIp(list: seq<LogEvent>) returns (top: string)
    ensures top == TopSource(list)
  {
    var ipCounts: map<string, nat> := map[];
    var ipOrder: seq<string> := [];
    for j := 0 to |list|
      invariant CountsOf(ipOrder, ipCounts, SrcIps(list[..j]))
    {
      ProjectionsStep(list, j);
      ipOrder, ipCounts := Increment(ipOrder, ipCounts, SrcIps(list[..j]), list[j].srcIp);
    }
    assert list[..|list|] == list;
    CountsEntries(ipOrder, ipCounts, SrcIps(list));
    var ranked := SortByCount(Entries(ipOrder, ipCounts));
    top := if |ranked| > 0 then ranked[0].key else "-";
  }

  /** `buildTimeline(events, windowMinutes)`; `windowMinutes` has no effect. */
  method BuildTimeline(events: seq<LogEvent>, minuteKey: MinuteKey, windowMinutes: int)
    returns (result: seq<TimelineBucket>)
    ensures result == Buckets(events, minuteKey)
  {
    var buckets, order := GroupByWindow(events, minuteKey);
    var unsorted: seq<TimelineBucket> := [];
    for k := 0 to |order|
      invariant unsorted == BucketsOf(order[..k], events, minuteKey)
    {
      var window := order[k];
      var list := buckets[window];
      var topSrcIp := TopSrcIp(list);
      BucketsOfStep(order, k, events, minuteKey);
      unsorted := unsorted + [TimelineBucket(window, |list|, topSrcIp)];
    }
    assert order[..|order|] == order;
    result := SortByWindow(unsorted);
  }

  // ---------------------------------------------------------------------
  // Properties of the bucketing
  // ---------------------------------------------------------------------

  /** A window holds exactly the events whose timestamp maps to it, as many
      as there are such keys. */
  lemma {:induction false} InWindowMembers(events: seq<LogEvent>, key: MinuteKey, w: string)
    ensures forall e :: e in InWindow(events, key, w) <==> e in events && key(e.ts) == Some(w)
    ensures |InWindow(events, key, w)| == Count(Windows(events, key), w)
  {
    if events != [] {
      var init := events[..|events| - 1];
      var e := events[|events| - 1];
      assert events == init + [e];
      InWindowMembers(init, key, w);
      var here := if key(e.ts) == Some(w) then [e] else [];
      assert InWindow(events, key, w) == InWindow(init, key, w) + here;
      if key(e.ts).Some? {
        assert Windows(events, key) == Windows(init, key) + [key(e.ts).value];
        CountAppend(Windows(init, key), key(e.ts).value, w);
      } else {
        assert Windows(events, key) == Windows(init, key);
      }
    }
  }

  /** A key occurs among the windows exactly when some event maps to it; one
      key per event whose timestamp parses. */
  lemma {:induction false} WindowsMembers(events: seq<LogEvent>, key: MinuteKey)
    ensures forall w :: w in Windows(events, key) <==> exists e :: e in events && key(e.ts) == Some(w)
    ensures |Windows(events, key)| == |Stamped(events, key)|
  {
    if events != [] {
      var init := events[..|events| - 1];
      var e := events[|events| - 1];
      assert events == init + [e];
      WindowsMembers(init, key);
      forall w | exists x :: x in events && key(x.ts) == Some(w) ensures w in Windows(events, key) {
        var x :| x in events && key(x.ts) == Some(w);
        if x != e {
          assert x in init;
        }
      }
    }
  }

  lemma {:induction false} StampedWindows(events: seq<LogEvent>, key: MinuteKey)
    ensures Windows(Stamped(events, key), key) == Windows(events, key)
    ensures forall w :: InWindow(Stamped(events, key), key, w) == InWindow(events, key, w)
  {
    if events != [] {
      var init := events[..|events| - 1];
      var e := events[|events| - 1];
      var s0 := Stamped(init, key);
      StampedWindows(init, key);
      if key(e.ts).Some? {
        var s := s0 + [e];
        assert s[..|s0|] == s0 && s[|s| - 1] == e;
        assert Windows(s, key) == Windows(s0, key) + [key(e.ts).value];
        forall w ensures InWindow(s, key, w) == InWindow(s0, key, w) + if key(e.ts) == Some(w) then [e] else [] {
        }
      } else {
        assert Stamped(events, key) == s0;
      }
    }
  }

  /** Events whose timestamp does not parse are in no bucket: the timeline
      of the log is the timeline of its parseable events. */
  lemma UnstampedIgnored(events: seq<LogEvent>, key: MinuteKey)
    ensures Buckets(Stamped(events, key), key) == Buckets(events, key)
  {
    StampedWindows(events, key);
    var s := Stamped(events, key);
    var d := Distinct(Windows(events, key));
    forall k | 0 <= k < |d| ensures Bucket(d[k], s, key) == Bucket(d[k], events, key) {
    }
    assert BucketsOf(d, s, key) == BucketsOf(d, events, key);
  }

  lemma {:induction false} SameKeysSameWindows(events: seq<LogEvent>, k1: MinuteKey, k2: MinuteKey)
    requires forall e :: e in events ==> k1(e.ts) == k2(e.ts)
    ensures Windows(events, k1) == Windows(events, k2)
    ensures forall w :: InWindow(events, k1, w) == InWindow(events, k2, w)
  {
    if events != [] {
      var init := events[..|events| - 1];
      var e := events[|events| - 1];
      assert e in events;
      assert forall x :: x in init ==> x in events;
      SameKeysSameWindows(init, k1, k2);
    }
  }

  /** The buckets depend on the timestamps only through their window keys. */
  lemma OnlyKeysMatter(events: seq<LogEvent>, k1: MinuteKey, k2: MinuteKey)
    requires forall e :: e in events ==> k1(e.ts) == k2(e.ts)
    ensures Buckets(events, k1) == Buckets(events, k2)
  {
    SameKeysSameWindows(events, k1, k2);
    var d := Distinct(Windows(events, k1));
    forall k | 0 <= k < |d| ensures Bucket(d[k], events, k1) == Bucket(d[k], events, k2) {
    }
    assert BucketsOf(d, events, k1) == BucketsOf(d, events, k2);
  }

  // ---------------------------------------------------------------------
  // Properties of the sort
  // ---------------------------------------------------------------------

  predicate SortedByWindow(s: seq<TimelineBucket>) {
    forall i, j :: 0 <= i < j < |s| ==> LexLeq(s[i].window, s[j].window)
  }

  predicate DistinctWindows(s: seq<TimelineBucket>) {
    forall i, j :: 0 <= i < j < |s| ==> s[i].window != s[j].window
  }

  lemma MemberOfInsertByWindow(x: TimelineBucket, s: seq<TimelineBucket>, b: TimelineBucket)
    requires b in InsertByWindow(x, s)
    ensures b == x || b in s
  {
    assert b in multiset(InsertByWindow(x, s));
  }

  lemma MemberOfSortByWindow(s: seq<TimelineBucket>, b: TimelineBucket)
    requires b in SortByWindow(s)
    ensures b in s
  {
    assert b in multiset(SortByWindow(s));
  }

  lemma {:induction false} InsertKeepsSortedByWindow(x: TimelineBucket, s: seq<TimelineBucket>)
    requires SortedByWindow(s)
    ensures SortedByWindow(InsertByWindow(x, s))
  {
    if s == [] || Before(x.window, s[0].window) {
      forall k | 0 <= k < |s| ensures LexLeq(x.window, s[k].window) {
        if k > 0 {
          LexTransitive(x.window, s[0].window, s[k].window);
        }
      }
    } else {
      var rest := InsertByWindow(x, s[1..]);
      InsertKeepsSortedByWindow(x, s[1..]);
      LexTotal(x.window, s[0].window);
      forall k | 0 <= k < |rest| ensures LexLeq(s[0].window, rest[k].window) {
        MemberOfInsertByWindow(x, s[1..], rest[k]);
      }
    }
  }

  lemma {:induction false} InsertKeepsWindowsDistinct(x: TimelineBucket, s: seq<TimelineBucket>)
    requires DistinctWindows(s)
    requires forall k :: 0 <= k < |s| ==> s[k].window != x.window
    ensures DistinctWindows(InsertByWindow(x, s))
  {
    if s != [] && !Before(x.window, s[0].window) {
      var rest := InsertByWindow(x, s[1..]);
      InsertKeepsWindowsDistinct(x, s[1..]);
      forall k | 0 <= k < |rest| ensures s[0].window != rest[k].window {
        MemberOfInsertByWindow(x, s[1..], rest[k]);
      }
    }
  }

  lemma {:induction false} SortByWindowSorted(s: seq<TimelineBucket>)
    ensures SortedByWindow(SortByWindow(s))
  {
    if s != [] {
      var init := s[..|s| - 1];
      SortByWindowSorted(init);
      InsertKeepsSortedByWindow(s[|s| - 1], SortByWindow(init));
    }
  }

  lemma {:induction false} SortByWindowDistinct(s: seq<TimelineBucket>)
    requires DistinctWindows(s)
    ensures DistinctWindows(SortByWindow(s))
  {
    if s != [] {
      var init := s[..|s| - 1];
      var x := s[|s| - 1];
      var rs := SortByWindow(init);
      SortByWindowDistinct(init);
      forall k | 0 <= k < |rs| ensures rs[k].window != x.window {
        MemberOfSortByWindow(init, rs[k]);
      }
      InsertKeepsWindowsDistinct(x, rs);
    }
  }

  function SumBucketCounts(s: seq<TimelineBucket>): nat {
    if s == [] then 0 else s[0].count + SumBucketCounts(s[1..])
  }

  lemma {:induction false} InsertKeepsSum(x: TimelineBucket, s: seq<TimelineBucket>)
    ensures SumBucketCounts(InsertByWindow(x, s)) == x.count + SumBucketCounts(s)
  {
    if s != [] && !Before(x.window, s[0].window) {
      InsertKeepsSum(x, s[1..]);
    }
  }

  lemma {:induction false} SumBucketCountsAppend(s: seq<TimelineBucket>, x: TimelineBucket)
    ensures SumBucketCounts(s + [x]) == SumBucketCounts(s) + x.count
  {
    if s != [] {
      assert (s + [x])[1..] == s[1..] + [x];
      SumBucketCountsAppend(s[1..], x);
    }
  }

  lemma {:induction false} SortKeepsSum(s: seq<TimelineBucket>)
    ensures SumBucketCounts(SortByWindow(s)) == SumBucketCounts(s)
  {
    if s != [] {
      var init := s[..|s| - 1];
      assert s == init + [s[|s| - 1]];
      SortKeepsSum(init);
      InsertKeepsSum(s[|s| - 1], SortByWindow(init));
      SumBucketCountsAppend(init, s[|s| - 1]);
    }
  }

  lemma {:induction false} SumOfBucketsOf(ws: seq<string>, events: seq<LogEvent>, key: MinuteKey)
    ensures SumBucketCounts(BucketsOf(ws, events, key)) == SumCounts(TallyOf(ws, Windows(events, key)))
  {
    if ws != [] {
      assert BucketsOf(ws, events, key)[1..] == BucketsOf(ws[1..], events, key);
      assert TallyOf(ws, Windows(events, key))[1..] == TallyOf(ws[1..], Windows(events, key));
      SumOfBucketsOf(ws[1..], events, key);
      InWindowMembers(events, key, ws[0]);
    }
  }

  // ---------------------------------------------------------------------
  // Properties of buildTimeline
  // ---------------------------------------------------------------------

  /** The windows are unique and in strictly ascending order. */
  lemma WindowsAscending(events: seq<LogEvent>, key: MinuteKey)
    ensures forall i, j :: 0 <= i < j < |Buckets(events, key)| ==>
      LexLeq(Buckets(events, key)[i].window, Buckets(events, key)[j].window) &&
      Buckets(events, key)[i].window != Buckets(events, key)[j].window
  {
    var d := Distinct(Windows(events, key));
    var u := BucketsOf(d, events, key);
    DistinctNoDups(Windows(events, key));
    SortByWindowSorted(u);
    assert DistinctWindows(u) by {
      forall i, j | 0 <= i < j < |u| ensures u[i].window != u[j].window {
        assert u[i].window == d[i] && u[j].window == d[j];
      }
    }
    SortByWindowDistinct(u);
  }

  /** Every bucket counts the events of its window, at least one. */
  lemma BucketCounts(events: seq<LogEvent>, key: MinuteKey)
    ensures forall b :: b in Buckets(events, key) ==>
      b.count == |InWindow(events, key, b.window)| == Count(Windows(events, key), b.window) && b.count >= 1
  {
    var d := Distinct(Windows(events, key));
    var u := BucketsOf(d, events, key);
    forall b | b in Buckets(events, key)
      ensures b.count == |InWindow(events, key, b.window)| == Count(Windows(events, key), b.window) && b.count >= 1
    {
      MemberOfSortByWindow(u, b);
      MemberOfBucketsOf(d, events, key, b);
      InWindowMembers(events, key, b.window);
      CountPositive(Windows(events, key), b.window);
    }
  }

  predicate HasWindow(s: seq<TimelineBucket>, w: string) {
    exists i :: 0 <= i < |s| && s[i].window == w
  }

  /** Every window that occurs gets a bucket. */
  lemma WindowGetsBucket(events: seq<LogEvent>, key: MinuteKey, w: string)
    requires w in Windows(events, key)
    ensures HasWindow(Buckets(events, key), w)
  {
    var d := Distinct(Windows(events, key));
    var u := BucketsOf(d, events, key);
    var r := Buckets(events, key);
    var k :| 0 <= k < |d| && d[k] == w;
    var b := u[k];
    assert b.window == w;
    assert b in multiset(u);
    assert multiset(r) == multiset(u);
    assert b in r;
    var i :| 0 <= i < |r| && r[i] == b;
  }

  /** Every bucket is for a window that occurs. */
  lemma BucketHasWindow(events: seq<LogEvent>, key: MinuteKey, w: string)
    requires HasWindow(Buckets(events, key), w)
    ensures w in Windows(events, key)
  {
    var d := Distinct(Windows(events, key));
    var u := BucketsOf(d, events, key);
    var r := Buckets(events, key);
    var i :| 0 <= i < |r| && r[i].window == w;
    MemberOfSortByWindow(u, r[i]);
    MemberOfBucketsOf(d, events, key, r[i]);
  }

  /** There is a bucket for a key exactly when some event's timestamp maps
      to it. */
  lemma BucketWindows(events: seq<LogEvent>, key: MinuteKey, w: string)
    ensures HasWindow(Buckets(events, key), w) <==> exists e :: e in events && key(e.ts) == Some(w)
  {
    WindowsMembers(events, key);
    if w in Windows(events, key) {
      WindowGetsBucket(events, key, w);
    }
    if HasWindow(Buckets(events, key), w) {
      BucketHasWindow(events, key, w);
    }
  }

  /** The counts add up to the number of events whose timestamp parses. */
  lemma CountsAddUp(events: seq<LogEvent>, key: MinuteKey)
    ensures SumBucketCounts(Buckets(events, key)) == |Stamped(events, key)|
  {
    var ws := Windows(events, key);
    SortKeepsSum(BucketsOf(Distinct(ws), events, key));
    SumOfBucketsOf(Distinct(ws), events, key);
    SumTally(ws);
    WindowsMembers(events, key);
  }

  /** The top source of a bucket occurs in its window with the highest
      count there, and is the first to occur among the sources with that
      count; the "-" fallback is never taken. */
  lemma TopSourceOfBucket(events: seq<LogEvent>, key: MinuteKey, b: TimelineBucket)
    requires b in Buckets(events, key)
    ensures var ips := SrcIps(InWindow(events, key, b.window));
      b.topSrcIp in ips &&
      forall ip :: ip in ips ==>
        (Count(ips, ip) <= Count(ips, b.topSrcIp) &&
         (Count(ips, ip) == Count(ips, b.topSrcIp) ==> FirstIndex(ips, b.topSrcIp) <= FirstIndex(ips, ip)))
  {
    var d := Distinct(Windows(events, key));
    var u := BucketsOf(d, events, key);
    MemberOfSortByWindow(u, b);
    MemberOfBucketsOf(d, events, key, b);
    var list := InWindow(events, key, b.window);
    InWindowMembers(events, key, b.window);
    CountPositive(Windows(events, key), b.window);
    TopOfRanked(SrcIps(list));
  }
}
