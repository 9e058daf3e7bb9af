/** The anomaly detector of api/src/services/anomaly.ts: a burst rule over
    the events grouped by source address, then an error rule over the
    events one by one. */
module Anomalies {

  import opened Wrappers
  import opened JsText
  import opened Parser
  import opened Ranking

  /** One finding. `event` is optional in the record type; both rules set it. */
  datatype Anomaly = Anomaly(
    rule: string,
    explanation: string,
    confidence: real,
    event: Option<LogEvent>)

  const BurstRule: string := "burst_requests"
  const ErrorRule: string := "error_response"

  /** A source with at least this many events is reported as a burst. */
  const BurstThreshold: nat := 4

  // ---------------------------------------------------------------------
  // Grouping by source
  // ---------------------------------------------------------------------

  /** The events from `ip` in input order: the list `byIp[ip]`. */
  function FromSource(events: seq<LogEvent>, ip: string): seq<LogEvent> {
    if events == [] then []
    else
      var e := events[|events| - 1];
      FromSource(events[..|events| - 1], ip) + if e.srcIp == ip then [e] else []
  }

  lemma FromSourceAppend(events: seq<LogEvent>, e: LogEvent, ip: string)
    ensures FromSource(events + [e], ip) == FromSource(events, ip) + if e.srcIp == ip then [e] else []
  {
    assert (events + [e])[..|events|] == events;
  }

  /** Every event of the group comes from that source, and the group has as
      many events as there are requests from the source. */
  lemma {:induction false} FromSourceCount(events: seq<LogEvent>, ip: string)
    ensures forall e :: e in FromSource(events, ip) ==> e.srcIp == ip
    ensures |FromSource(events, ip)| == Count(SrcIps(events), ip)
  {
    if events != [] {
      var init := events[..|events| - 1];
      var e := events[|events| - 1];
      assert events == init + [e];
      ProjectionsAppend(init, e);
      FromSourceCount(init, ip);
      CountAppend(SrcIps(init), e.srcIp, ip);
    }
  }

  /** The last event of a non-empty group is the last event of the log that
      comes from that source. */
  lemma {:induction false} LastFromSource(events: seq<LogEvent>, ip: string)
    requires FromSource(events, ip) != []
    ensures var list := FromSource(events, ip);
      exists j :: 0 <= j < |events| && events[j] == list[|list| - 1] && events[j].srcIp == ip &&
        forall j' :: j < j' < |events| ==> events[j'].srcIp != ip
  {
    var init := events[..|events| - 1];
    var e := events[|events| - 1];
    assert events == init + [e];
    if e.srcIp != ip {
      LastFromSource(init, ip);
      var list := FromSource(init, ip);
      var j :| 0 <= j < |init| && init[j] == list[|list| - 1] && init[j].srcIp == ip &&
        forall j' :: j < j' < |init| ==> init[j'].srcIp != ip;
      assert events[j] == init[j];
      forall j' | j < j' < |events| ensures events[j'].srcIp != ip {
        if j' < |init| {
          assert events[j'] == init[j'];
        }
      }
    }
  }

  // ---------------------------------------------------------------------
  // The two rules
  // ---------------------------------------------------------------------

  function BurstExplanation(ip: string): string {
    "Unusual number of requests from " + ip + " in a short time frame"
  }

  /** The burst finding for source `ip` whose events are `list`. */
  function Burst(ip: string, list: seq<LogEvent>): Anomaly
    requires list != []
  {
    Anomaly(BurstRule, BurstExplanation(ip), 0.7, Some(list[|list| - 1]))
  }

  /** The burst findings for the sources `ips`, taken in that order. */
  function Bursts(ips: seq<string>, events: seq<LogEvent>): seq<Anomaly> {
    if ips == [] then []
    else
      var ip := ips[|ips| - 1];
      var list := FromSource(events, ip);
      Bursts(ips[..|ips| - 1], events) + if |list| >= BurstThreshold then [Burst(ip, list)] else []
  }

  function ErrorExplanation(e: LogEvent): string {
    "Error response " + NumberToString(e.status) + " for " + e.path
  }

  function ErrorFinding(e: LogEvent): Anomaly {
    Anomaly(ErrorRule, ErrorExplanation(e), 0.5, Some(e))
  }

  /** The error findings for `events`, one per error response in order. */
  function ErrorFindings(events: seq<LogEvent>): seq<Anomaly> {
    if events == [] then []
    else
      var e := events[|events| - 1];
      ErrorFindings(events[..|events| - 1]) + if IsError(e) then [ErrorFinding(e)] else []
  }

  /** The sources in first-occurrence order: the key order of `byIp`. */
  function Sources(events: seq<LogEvent>): seq<string> {
    Distinct(SrcIps(events))
  }

  /** What `detectAnomalies` returns. */
  function Findings(events: seq<LogEvent>): seq<Anomaly> {
    Bursts(Sources(events), events) + ErrorFindings(events)
  }

  // ---------------------------------------------------------------------
  // One loop iteration at a time
  // ---------------------------------------------------------------------

  /** One more event joins the group of its own source only. */
  lemma FromSourceStep(events: seq<LogEvent>, i: nat, ip: string)
    requires i < |events|
    ensures FromSource(events[..i + 1], ip) ==
      FromSource(events[..i], ip) + if events[i].srcIp == ip then [events[i]] else []
  {
    assert events[..i + 1][..i] == events[..i];
  }

  /** One more event adds its source at the end of the key order when the
      source is new. */
  lemma SourcesStep(events: seq<LogEvent>, i: nat)
    requires i < |events|
    ensures Sources(events[..i + 1]) ==
      if events[i].srcIp in Sources(events[..i]) then Sources(events[..i])
      else Sources(events[..i]) + [events[i].srcIp]
  {
    ProjectionsStep(events, i);
    DistinctAppend(SrcIps(events[..i]), events[i].srcIp);
  }

  /** One more source adds its burst when it has enough events. */
  lemma BurstsStep(ips: seq<string>, k: nat, events: seq<LogEvent>)
    requires k < |ips|
    ensures var list := FromSource(events, ips[k]);
      Bursts(ips[..k + 1], events) ==
        Bursts(ips[..k], events) + if |list| >= BurstThreshold then [Burst(ips[k], list)] else []
  {
    assert ips[..k + 1][..k] == ips[..k];
  }

  /** One more event adds its error finding when it is an error response. */
  lemma ErrorFindingsStep(events: seq<LogEvent>, i: nat)
    requires i < |events|
    ensures ErrorFindings(events[..i + 1]) ==
      ErrorFindings(events[..i]) + if IsError(events[i]) then [ErrorFinding(events[i])] else []
  {
    assert events[..i + 1][..i] == events[..i];
  }

  /** `ipOrder` is the key order of `byIp` after the events `seen`. */
  ghost predicate SourceOrderOf(byIp: map<string, seq<LogEvent>>, ipOrder: seq<string>, seen: seq<LogEvent>) {
    ipOrder == Sources(seen) &&
    (forall ip :: ip in byIp <==> ip in ipOrder)
  }

  /** Every list of `byIp` holds the events of `seen` from its source, and
      sources without a list sent none. */
  ghost predicate GroupsOf(byIp: map<string, seq<LogEvent>>, seen: seq<LogEvent>) {
    (forall ip :: ip in byIp ==> byIp[ip] == FromSource(seen, ip)) &&
    (forall ip :: ip !in byIp ==> FromSource(seen, ip) == [])
  }

  /** Pushing an event onto the list of a new source puts the source at the
      end of the key order. */
  lemma PushSourceOrder(byIp: map<string, seq<LogEvent>>, ipOrder: seq<string>, events: seq<LogEvent>, i: nat)
    requires i < |events|
    requires SourceOrderOf(byIp, ipOrder, events[..i])
    ensures var ip := events[i].srcIp;
      SourceOrderOf(Push(byIp, ip, events[i]), if ip in byIp then ipOrder else ipOrder + [ip], events[..i + 1])
  {
    var ip := events[i].srcIp;
    var ipOrder' := if ip in byIp then ipOrder else ipOrder + [ip];
    var byIp' := Push(byIp, ip, events[i]);
    SourcesStep(events, i);
    assert ip in byIp <==> ip in ipOrder;
    assert ipOrder' == Sources(events[..i + 1]);
    forall v ensures v in byIp' <==> v in ipOrder' {
      assert v in byIp' <==> v in byIp || v == ip;
      assert v in ipOrder' <==> v in ipOrder || v == ip;
    }
  }

  /** Pushing an event onto the list of its source keeps every list equal
      to the events from its source. */
  lemma PushGroups(byIp: map<string, seq<LogEvent>>, events: seq<LogEvent>, i: nat)
    requires i < |events|
    requires GroupsOf(byIp, events[..i])
    ensures GroupsOf(Push(byIp, events[i].srcIp, events[i]), events[..i + 1])
  {
    var byIp' := Push(byIp, events[i].srcIp, events[i]);
    forall v | v in byIp' ensures byIp'[v] == FromSource(events[..i + 1], v) {
      FromSourceStep(events, i, v);
    }
    forall v | v !in byIp' ensures FromSource(events[..i + 1], v) == [] {
      FromSourceStep(events, i, v);
    }
  }

  // ---------------------------------------------------------------------
  // detectAnomalies
  // ---------------------------------------------------------------------

  /** The first loop of `detectAnomalies`: `byIp` and the insertion order
      of its keys. */
  method GroupBySource(events: seq<LogEvent>) returns (byIp: map<string, seq<LogEvent>>, ipOrder: seq<string>)
    ensures ipOrder == Sources(events)
    ensures forall ip :: ip in byIp <==> ip in ipOrder
    ensures forall ip :: ip in byIp ==> byIp[ip] == FromSource(events, ip)
  {
    byIp := map[];
    ipOrder := [];
    for i := 0 to |events|
      invariant SourceOrderOf(byIp, ipOrder, events[..i])
      invariant GroupsOf(byIp, events[..i])
    {
      var evt := events[i];
      PushSourceOrder(byIp, ipOrder, events, i);
      PushGroups(byIp, events, i);
      if evt.srcIp !in byIp {
        PushNew(byIp, evt.srcIp, evt);
        byIp := byIp[evt.srcIp := []];
        ipOrder := ipOrder + [evt.srcIp];
      }
      byIp := byIp[evt.srcIp := byIp[evt.srcIp] + [evt]];
    }
    assert events[..|events|] == events;
  }

  method DetectAnomalies(events: seq<LogEvent>) returns (anomalies: seq<Anomaly>)
    ensures anomalies == Findings(events)
  {
    anomalies := [];
    var byIp, ipOrder := GroupBySource(events);

    for k := 0 to |ipOrder|
      invariant anomalies == Bursts(ipOrder[..k], events)
    {
      var ip := ipOrder[k];
      var list := byIp[ip];
      BurstsStep(ipOrder, k, events);
      if |list| >= BurstThreshold {
        anomalies := anomalies + [Burst(ip, list)];
      }
    }
    assert ipOrder[..|ipOrder|] == ipOrder;

    ghost var bursts := anomalies;
    for i := 0 to |events|
      invariant anomalies == bursts + ErrorFindings(events[..i])
    {
      var evt := events[i];
      ErrorFindingsStep(events, i);
      if evt.status >= 400 {
        anomalies := anomalies + [ErrorFinding(evt)];
      }
    }
    assert events[..|events|] == events;
  }

  // ---------------------------------------------------------------------
  // Properties of the findings
  // ---------------------------------------------------------------------

  /** The source a finding is about. */
  function SourceOf(a: Anomaly): string {
    if a.event.Some? then a.event.value.srcIp else ""
  }

  /** The number of burst findings about source `ip`. */
  function BurstCount(s: seq<Anomaly>, ip: string): nat {
    if s == [] then 0
    else
      var a := s[|s| - 1];
      BurstCount(s[..|s| - 1], ip) + if a.rule == BurstRule && SourceOf(a) == ip then 1 else 0
  }

  lemma {:induction false} BurstCountAppend(a: seq<Anomaly>, b: seq<Anomaly>, ip: string)
    ensures BurstCount(a + b, ip) == BurstCount(a, ip) + BurstCount(b, ip)
  {
    if b == [] {
      assert a + b == a;
    } else {
      var init := b[..|b| - 1];
      assert (a + b)[..|a + b| - 1] == a + init;
      assert (a + b)[|a + b| - 1] == b[|b| - 1];
      BurstCountAppend(a, init, ip);
    }
  }

  lemma {:induction false} ErrorFindingsAreErrors(events: seq<LogEvent>, ip: string)
    ensures BurstCount(ErrorFindings(events), ip) == 0
  {
    if events != [] {
      var init := events[..|events| - 1];
      var e := events[|events| - 1];
      ErrorFindingsAreErrors(init, ip);
      var tail := if IsError(e) then [ErrorFinding(e)] else [];
      BurstCountAppend(ErrorFindings(init), tail, ip);
      if IsError(e) {
        assert tail[..0] == [];
      }
    }
  }

  /** The burst finding of one source, if any, is about that source. */
  lemma BurstCountOfSource(src: string, events: seq<LogEvent>, ip: string)
    ensures var list := FromSource(events, src);
      BurstCount(if |list| >= BurstThreshold then [Burst(src, list)] else [], ip) ==
        if src == ip && |list| >= BurstThreshold then 1 else 0
  {
    var list := FromSource(events, src);
    if |list| >= BurstThreshold {
      FromSourceCount(events, src);
      assert list[|list| - 1] in list;
      assert [Burst(src, list)][..0] == [];
    }
  }

  lemma {:induction false} BurstCountOfBursts(ips: seq<string>, events: seq<LogEvent>, ip: string)
    requires NoDups(ips)
    ensures BurstCount(Bursts(ips, events), ip) ==
      if ip in ips && |FromSource(events, ip)| >= BurstThreshold then 1 else 0
  {
    if ips != [] {
      var init := ips[..|ips| - 1];
      var last := ips[|ips| - 1];
      assert NoDups(init) && last !in init by {
        forall i, j | 0 <= i < j < |init| ensures init[i] != init[j] {
          assert init[i] == ips[i] && init[j] == ips[j];
        }
        forall i | 0 <= i < |init| ensures init[i] != last {
          assert init[i] == ips[i];
        }
      }
      assert ip in ips <==> ip in init || ip == last by {
        assert ips == init + [last];
      }
      BurstCountOfBursts(init, events, ip);
      var list := FromSource(events, last);
      var tail := if |list| >= BurstThreshold then [Burst(last, list)] else [];
      BurstCountAppend(Bursts(init, events), tail, ip);
      BurstCountOfSource(last, events, ip);
    }
  }

  /** Exactly one burst finding per source with at least four events, and
      none for any other source. */
  lemma OneBurstPerBusySource(events: seq<LogEvent>, ip: string)
    ensures BurstCount(Findings(events), ip) == if Count(SrcIps(events), ip) >= BurstThreshold then 1 else 0
  {
    BurstCountAppend(Bursts(Sources(events), events), ErrorFindings(events), ip);
    ErrorFindingsAreErrors(events, ip);
    DistinctNoDups(SrcIps(events));
    BurstCountOfBursts(Sources(events), events, ip);
    FromSourceCount(events, ip);
    CountPositive(SrcIps(events), ip);
  }

  /** The sources of `ips` with at least four events, in that order. */
  function BusyOf(ips: seq<string>, events: seq<LogEvent>): (r: seq<string>)
    ensures |r| <= |ips|
  {
    if ips == [] then []
    else
      var ip := ips[|ips| - 1];
      BusyOf(ips[..|ips| - 1], events) + if |FromSource(events, ip)| >= BurstThreshold then [ip] else []
  }

  /** `Bursts` holds one burst finding per busy source, in order, each
      carrying the last event of the source's group. */
  lemma {:induction false} BurstsOfBusy(ips: seq<string>, events: seq<LogEvent>)
    ensures var b, q := Bursts(ips, events), BusyOf(ips, events);
      |b| == |q| &&
      forall k :: 0 <= k < |b| ==> |FromSource(events, q[k])| >= BurstThreshold && b[k] == Burst(q[k], FromSource(events, q[k]))
  {
    if ips != [] {
      BurstsOfBusy(ips[..|ips| - 1], events);
    }
  }

  /** The sources with at least four events, in first-occurrence order. */
  function Busy(events: seq<LogEvent>): seq<string> {
    BusyOf(Sources(events), events)
  }

  lemma BurstSource(ip: string, events: seq<LogEvent>)
    requires FromSource(events, ip) != []
    ensures Burst(ip, FromSource(events, ip)).event.value.srcIp == ip
  {
    var list := FromSource(events, ip);
    FromSourceCount(events, ip);
    assert list[|list| - 1] in list;
  }

  /** The shape of the result: first the bursts, one per busy source in
      first-occurrence order, then the error findings, one per error
      response in input order, each carrying its event. */
  lemma FindingsShape(events: seq<LogEvent>)
    ensures |Findings(events)| == |Busy(events)| + |ErrorEvents(events)|
    ensures forall k :: 0 <= k < |Busy(events)| ==>
      Findings(events)[k].rule == BurstRule && Findings(events)[k].event.Some? &&
      Findings(events)[k].event.value.srcIp == Busy(events)[k] &&
      Findings(events)[k].explanation == BurstExplanation(Busy(events)[k])
    ensures forall k :: 0 <= k < |ErrorEvents(events)| ==>
      Findings(events)[|Busy(events)| + k] == ErrorFinding(ErrorEvents(events)[k])
  {
    var q := Busy(events);
    var b := Bursts(Sources(events), events);
    BurstsOfBusy(Sources(events), events);
    ErrorFindingsOfErrors(events);
    forall k | 0 <= k < |q|
      ensures b[k].rule == BurstRule && b[k].event.Some? && b[k].event.value.srcIp == q[k] &&
        b[k].explanation == BurstExplanation(q[k])
    {
      BurstSource(q[k], events);
    }
  }

  lemma {:induction false} ErrorFindingsOfErrors(events: seq<LogEvent>)
    ensures var f, errs := ErrorFindings(events), ErrorEvents(events);
      |f| == |errs| && forall k :: 0 <= k < |f| ==> f[k] == ErrorFinding(errs[k])
  {
    if events != [] {
      ErrorFindingsOfErrors(events[..|events| - 1]);
    }
  }

  /** An empty log gives no findings. */
  lemma NoEventsNoFindings()
    ensures Findings([]) == []
  {
    assert Sources([]) == [];
  }

  /** The busy sources are exactly the sources with at least four events,
      each listed once. */
  lemma {:induction false} BusyOfMembers(ips: seq<string>, events: seq<LogEvent>)
    requires NoDups(ips)
    ensures NoDups(BusyOf(ips, events))
    ensures forall ip :: ip in BusyOf(ips, events) <==> ip in ips && |FromSource(events, ip)| >= BurstThreshold
  {
    if ips != [] {
      var init := ips[..|ips| - 1];
      assert ips == init + [ips[|ips| - 1]];
      assert NoDups(init);
      BusyOfMembers(init, events);
    }
  }

  lemma BusySources(events: seq<LogEvent>)
    ensures NoDups(Busy(events))
    ensures forall ip :: ip in Busy(events) <==> Count(SrcIps(events), ip) >= BurstThreshold
  {
    DistinctNoDups(SrcIps(events));
    BusyOfMembers(Sources(events), events);
    forall ip ensures |FromSource(events, ip)| == Count(SrcIps(events), ip) && (Count(SrcIps(events), ip) > 0 <==> ip in SrcIps(events)) {
      FromSourceCount(events, ip);
      CountPositive(SrcIps(events), ip);
    }
  }

  /** Each burst finding carries the last event, in input order, from its
      source. */
  lemma BurstEventIsLast(events: seq<LogEvent>, k: nat)
    requires k < |Busy(events)|
    ensures k < |Findings(events)|
    ensures var a := Findings(events)[k];
      a.rule == BurstRule && a.event.Some? &&
      exists j :: 0 <= j < |events| && a.event.value == events[j] &&
        forall j' :: j < j' < |events| ==> events[j'].srcIp != events[j].srcIp
  {
    var q := Busy(events);
    FindingsShape(events);
    BurstsOfBusy(Sources(events), events);
    LastFromSource(events, q[k]);
  }

  lemma {:induction false} BurstConfidences(ips: seq<string>, events: seq<LogEvent>)
    ensures forall a :: a in Bursts(ips, events) ==> a.rule == BurstRule && a.confidence == 0.7
  {
    if ips != [] {
      BurstConfidences(ips[..|ips| - 1], events);
    }
  }

  lemma {:induction false} ErrorConfidences(events: seq<LogEvent>)
    ensures forall a :: a in ErrorFindings(events) ==> a.rule == ErrorRule && a.confidence == 0.5
  {
    if events != [] {
      ErrorConfidences(events[..|events| - 1]);
    }
  }

  /** Bursts carry confidence 0.7 and errors 0.5; every finding has one of
      the two rules, with a confidence between 0 and 1. */
  lemma Confidences(events: seq<LogEvent>)
    ensures forall a :: a in Findings(events) ==>
      (a.rule == BurstRule && a.confidence == 0.7) || (a.rule == ErrorRule && a.confidence == 0.5)
    ensures forall a :: a in Findings(events) ==> 0.0 <= a.confidence <= 1.0
  {
    BurstConfidences(Sources(events), events);
    ErrorConfidences(events);
  }
}
