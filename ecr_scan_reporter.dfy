/** Deciding whether an ECR image-scan event is worth reporting
    (ecr_scan_reporter/ecr_scan_reporter.py). The event's "detail" object
    and the thresholds dict are values; a dict from severity level to
    count is an insertion-ordered association list. */
module EcrScanReporter {
  import opened Wrappers
  import opened Dicts

  /** Severity level to number of findings (or to a threshold). */
  type Counts = seq<(string, int)>

  /** `DEFAULT_THRESHOLDS`: the four levels, each with threshold 0. */
  const DefaultThresholds: Counts := [("CRITICAL", 0), ("HIGH", 0), ("MEDIUM", 0), ("LOW", 0)]

  /** The part of the event's "detail" the decision reads: "scan-status"
      and "finding-severity-counts", each None when the key is absent. */
  datatype ScanDetail = ScanDetail(scanStatus: Option<string>, findingSeverityCounts: Option<Counts>)

  /** Level `t.0` is among the findings with a count of at least `t.1`. */
  predicate Breaches(findings: Counts, t: (string, int)) {
    t.0 in Keys(findings) && Get(findings, t.0) >= t.1
  }

  /** The early-return search over the thresholds in their order: the index
      of the first threshold the findings reach, if any. */
  function FirstBreach(findings: Counts, thresholds: Counts): (r: Option<nat>)
    ensures r.Some? ==> r.value < |thresholds| && Breaches(findings, thresholds[r.value])
    ensures r.Some? ==> forall j :: 0 <= j < r.value ==> !Breaches(findings, thresholds[j])
    ensures r.None? <==> forall j :: 0 <= j < |thresholds| ==> !Breaches(findings, thresholds[j])
    decreases |thresholds|
  {
    if |thresholds| == 0 then None
    else if Breaches(findings, thresholds[0]) then Some(0)
    else
      match FirstBreach(findings, thresholds[1..])
      case None => None
      case Some(i) => Some(i + 1)
  }

  /** `parse_scan_report`: nothing for a finished ("COMPLETE") or
      status-less scan or for a report without counts; otherwise the counts,
      unchanged, exactly when some threshold is reached. */
  function ParseScanReport(detail: ScanDetail, thresholds: Counts): (r: Option<Counts>)
    ensures detail.scanStatus.None? || detail.scanStatus.value == "COMPLETE" ==> r.None?
    ensures detail.findingSeverityCounts.None? || detail.findingSeverityCounts.value == [] ==> r.None?
    ensures r.Some? ==> Some(r.value) == detail.findingSeverityCounts
    ensures r.Some? <==>
              detail.scanStatus.Some? && detail.scanStatus.value != "COMPLETE" &&
              detail.findingSeverityCounts.Some? && detail.findingSeverityCounts.value != [] &&
              exists j :: 0 <= j < |thresholds| && Breaches(detail.findingSeverityCounts.value, thresholds[j])
  {
    if detail.scanStatus.None? || detail.scanStatus.value == "COMPLETE" then None
    else if detail.findingSeverityCounts.None? || detail.findingSeverityCounts.value == [] then None
    else
      var findings := detail.findingSeverityCounts.value;
      if FirstBreach(findings, thresholds).Some? then Some(findings) else None
  }

  /** With the default thresholds, a report of a scan that is not COMPLETE
      is returned as soon as its counts mention CRITICAL, HIGH, MEDIUM or
      LOW with a non-negative count. */
  lemma DefaultThresholdsTrigger(status: string, findings: Counts, level: string)
    requires status != "COMPLETE"
    requires level in {"CRITICAL", "HIGH", "MEDIUM", "LOW"}
    requires level in Keys(findings) && Get(findings, level) >= 0
    ensures ParseScanReport(ScanDetail(Some(status), Some(findings)), DefaultThresholds) == Some(findings)
  {
    var j := if level == "CRITICAL" then 0 else if level == "HIGH" then 1 else if level == "MEDIUM" then 2 else 3;
    assert DefaultThresholds[j].0 == level;
    assert Breaches(findings, DefaultThresholds[j]);
  }

  /** Counts only at levels that have no threshold (INFORMATIONAL,
      UNDEFINED, ...) never make a report. */
  lemma OtherLevelsNeverTrigger(detail: ScanDetail, thresholds: Counts)
    requires detail.findingSeverityCounts.Some?
    requires forall k :: k in Keys(detail.findingSeverityCounts.value) ==> k !in Keys(thresholds)
    ensures ParseScanReport(detail, thresholds).None?
  {
    var findings := detail.findingSeverityCounts.value;
    forall j | 0 <= j < |thresholds|
      ensures !Breaches(findings, thresholds[j])
    {
      assert Keys(thresholds)[j] == thresholds[j].0;
    }
  }

  /** Only which thresholds there are matters, not their order. */
  lemma ThresholdOrderIrrelevant(detail: ScanDetail, thresholds: Counts, reordered: Counts)
    requires forall t :: t in thresholds <==> t in reordered
    ensures ParseScanReport(detail, thresholds) == ParseScanReport(detail, reordered)
  {
    if detail.findingSeverityCounts.Some? {
      var findings := detail.findingSeverityCounts.value;
      if exists j :: 0 <= j < |thresholds| && Breaches(findings, thresholds[j]) {
        var j :| 0 <= j < |thresholds| && Breaches(findings, thresholds[j]);
        assert thresholds[j] in reordered;
        var k :| 0 <= k < |reordered| && reordered[k] == thresholds[j];
        assert Breaches(findings, reordered[k]);
      }
      if exists k :: 0 <= k < |reordered| && Breaches(findings, reordered[k]) {
        var k :| 0 <= k < |reordered| && Breaches(findings, reordered[k]);
        assert reordered[k] in thresholds;
        var j :| 0 <= j < |thresholds| && thresholds[j] == reordered[k];
        assert Breaches(findings, thresholds[j]);
      }
    }
  }

  /** Raising a count never withdraws a report: the decision is monotone
      in the counts. */
  lemma MoreFindingsStillTrigger(status: string, findings: Counts, level: string, more: int, thresholds: Counts)
    requires ParseScanReport(ScanDetail(Some(status), Some(findings)), thresholds).Some?
    requires level in Keys(findings) && more >= Get(findings, level)
    ensures ParseScanReport(ScanDetail(Some(status), Some(Put(findings, level, more))), thresholds).Some?
  {
    var j :| 0 <= j < |thresholds| && Breaches(findings, thresholds[j]);
    var l := thresholds[j].0;
    PutGet(findings, level, more, l);
    PutKeys(findings, level, more);
    assert Breaches(Put(findings, level, more), thresholds[j]);
  }

  /** The event of a finished scan with 10 CRITICAL and 9 MEDIUM findings
      is not reported. */
  lemma CompleteScanNotReported()
    ensures ParseScanReport(ScanDetail(Some("COMPLETE"), Some([("CRITICAL", 10), ("MEDIUM", 9)])), DefaultThresholds)
            == None
  {
  }
}
