/** The summary aggregator of api/src/services/summary.ts: the number of
    events, the three most frequent sources and paths, and the share of
    error responses. */
module Summary {

  import opened Parser
  import opened Ranking

  /** `topSrcIps` holds `{ ip, count }` records and `topPaths` holds
      `{ path, count }` records; both are `KeyCount`s here. */
  datatype SummaryStats = SummaryStats(
    totalEvents: nat,
    topSrcIps: seq<KeyCount>,
    topPaths: seq<KeyCount>,
    errorRate: real)

  /** How many entries `slice(0, 3)` keeps. */
  const TopN: nat := 3

  /** `Object.entries(counts).map(...).sort((a, b) => b.count - a.count).slice(0, 3)`
      for the record that counts `xs`. */
  function TopThree(xs: seq<string>): seq<KeyCount> {
    Take(SortByCount(Tally(xs)), TopN)
  }

  /** `errorCount / totalEvents`, or 0 when there are no events. */
  function ErrorRate(events: seq<LogEvent>): real {
    if |events| > 0 then (|ErrorEvents(events)| as real) / (|events| as real) else 0.0
  }

  /** What `buildSummary` returns. */
  function Summarize(events: seq<LogEvent>): SummaryStats {
    SummaryStats(|events|, TopThree(SrcIps(events)), TopThree(Paths(events)), ErrorRate(events))
  }

  method BuildSummary(events: seq<LogEvent>) returns (stats: SummaryStats)
    ensures stats == Summarize(events)
  {
    var totalEvents := |events|;
    var srcCounts: map<string, nat> := map[];
    var srcOrder: seq<string> := [];
    var pathCounts: map<string, nat> := map[];
    var pathOrder: seq<string> := [];
    var errorCount: nat := 0;

    for i := 0 to |events|
      invariant CountsOf(srcOrder, srcCounts, SrcIps(events[..i]))
      invariant CountsOf(pathOrder, pathCounts, Paths(events[..i]))
      invariant errorCount == |ErrorEvents(events[..i])|
    {
      var evt := events[i];
      ProjectionsStep(events, i);
      ErrorEventsStep(events, i);
      srcOrder, srcCounts := Increment(srcOrder, srcCounts, SrcIps(events[..i]), evt.srcIp);
      pathOrder, pathCounts := Increment(pathOrder, pathCounts, Paths(events[..i]), evt.path);
      if evt.status >= 400 {
        errorCount := errorCount + 1;
      }
    }
    assert events[..|events|] == events;

    CountsEntries(srcOrder, srcCounts, SrcIps(events));
    CountsEntries(pathOrder, pathCounts, Paths(events));
    var topSrcIps := Take(SortByCount(Entries(srcOrder, srcCounts)), TopN);
    var topPaths := Take(SortByCount(Entries(pathOrder, pathCounts)), TopN);
    var errorRate := if totalEvents > 0 then (errorCount as real) / (totalEvents as real) else 0.0;
    stats := SummaryStats(totalEvents, topSrcIps, topPaths, errorRate);
  }

  // ---------------------------------------------------------------------
  // Properties of the top three
  // ---------------------------------------------------------------------

  /** The top three hold min(3, number of distinct keys) entries with
      distinct keys, in non-increasing order of count, ties in the order
      the keys first occur; each count is the key's true frequency. */
  lemma TopThreeRanked(xs: seq<string>)
    ensures |TopThree(xs)| == if |Distinct(xs)| < TopN then |Distinct(xs)| else TopN
    ensures SortedByCount(TopThree(xs))
    ensures DistinctKeys(TopThree(xs))
    ensures TiesInOrderOf(TopThree(xs), xs)
    ensures forall e :: e in TopThree(xs) ==> e.key in xs && e.count == Count(xs, e.key)
  {
    var r := SortByCount(Tally(xs));
    RankedTally(xs);
    var t := TopThree(xs);
    PrefixRanked(r, |t|, xs);
  }

  /** Every key is either reported or occurs no more often than the last
      reported one, in which case three are reported. */
  lemma OmittedKeysRankLower(xs: seq<string>, x: string)
    requires x in xs
    ensures (exists i :: 0 <= i < |TopThree(xs)| && TopThree(xs)[i].key == x) ||
      (|TopThree(xs)| == TopN && Count(xs, x) <= TopThree(xs)[TopN - 1].count)
  {
    var r := SortByCount(Tally(xs));
    var t := TopThree(xs);
    RankedTally(xs);
    var q :| 0 <= q < |r| && r[q] == KeyCount(x, Count(xs, x));
    if q < |t| {
      assert t[q] == r[q];
    } else {
      assert |t| == TopN;
      assert t[TopN - 1] == r[TopN - 1];
    }
  }

  // ---------------------------------------------------------------------
  // Properties of buildSummary
  // ---------------------------------------------------------------------

  lemma Ratio(a: nat, b: nat)
    requires a <= b && b > 0
    ensures 0.0 <= (a as real) / (b as real) <= 1.0
    ensures ((a as real) / (b as real)) * (b as real) == a as real
  {
  }

  /** The error rate is the share of error responses: between 0 and 1, and
      0 for an empty log. */
  lemma ErrorRateShare(events: seq<LogEvent>)
    ensures 0.0 <= ErrorRate(events) <= 1.0
    ensures events == [] ==> ErrorRate(events) == 0.0
    ensures |events| > 0 ==> ErrorRate(events) * (|events| as real) == |ErrorEvents(events)| as real
  {
    if |events| > 0 {
      Ratio(|ErrorEvents(events)|, |events|);
    }
  }

  /** The reported sources and paths, with their true number of events. */
  lemma ReportedCounts(events: seq<LogEvent>)
    ensures forall e :: e in Summarize(events).topSrcIps ==>
      e.key in SrcIps(events) && e.count == Count(SrcIps(events), e.key)
    ensures forall e :: e in Summarize(events).topPaths ==>
      e.key in Paths(events) && e.count == Count(Paths(events), e.key)
  {
    TopThreeRanked(SrcIps(events));
    TopThreeRanked(Paths(events));
  }
}
