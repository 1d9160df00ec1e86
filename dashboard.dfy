/**
 * The dashboard's computations in source order, from the uploaded records
 * and the detector's verdicts to the figures it displays. The detector
 * itself (`StandardScaler` and `IsolationForest`) is outside the model: its
 * verdicts, one per feature row, are an input.
 */
module Dashboard {
  import opened Wrappers
  import opened AccessLog
  import opened Aggregation
  import opened Metrics

  /** Lines 144-173, 224, 327, 336 and 486-489. */
  method Analyze(records: seq<RawRecord>, verdicts: seq<int>)
    returns (summary: Summary, peak: Option<nat>, top: seq<(string, nat)>, labels: seq<string>, suspicious: nat)
    requires |verdicts| == |Ips(NormalizeAll(records))|
    ensures var rows := NormalizeAll(records);
      && summary == Metricas(rows, AnomalyColumn(verdicts))
      && peak == PeakHour(rows)
      && top == TopPages(rows)
      && labels == ShortenedLabels(top)
      && suspicious == SuspiciousCount(AnomalyColumn(verdicts))
    ensures suspicious == multiset(verdicts)[-1]
    ensures peak.Some? ==> peak.value < 24
  {
    var frame := LoadAndPreprocess(records);
    var rows := frame.Rows();
    var table := new FeatureTable(rows);
    IndexSize(rows);
    table.MarkAnomalies(verdicts);
    summary := Metricas(rows, table.esAnomalia);
    peak := PeakHour(rows);
    if peak.Some? {
      PeakHourSpec(rows);
    }
    top := TopPages(rows);
    labels := ShortenedLabels(top);
    suspicious := |table.Suspicious()|;
    AnomalyColumnCount(verdicts);
  }
}
