/**
 * The summary metrics of the dashboard (`metricas`), the hourly traffic and
 * its peak hour, the ten most visited non-static pages and their shortened
 * labels, and the count of suspicious IPs. Counts of equal cells are
 * multiset multiplicities, as `value_counts` and `groupby(...).size()` count.
 */
module Metrics {
  import opened Wrappers
  import opened Text
  import opened AccessLog
  import opened Aggregation

  // Means of numeric columns, scaled to percentages.

  function Sum(xs: seq<int>): int
    decreases |xs|
  {
    if xs == [] then 0 else Sum(xs[..|xs| - 1]) + xs[|xs| - 1]
  }

  /** `column.mean() * 100`; the mean of an empty column is NaN, here `None`. */
  function MeanPercent(xs: seq<int>): (pct: Option<real>)
    ensures pct.None? <==> xs == []
    ensures pct.Some? ==> pct.value * |xs| as real == 100.0 * Sum(xs) as real
  {
    if xs == [] then None else Some(Sum(xs) as real / |xs| as real * 100.0)
  }

  predicate ZeroOne(xs: seq<int>) {
    forall i :: 0 <= i < |xs| ==> xs[i] == 0 || xs[i] == 1
  }

  /** A 0/1 column sums to the number of its ones. */
  lemma {:induction false} SumOfFlags(xs: seq<int>)
    requires ZeroOne(xs)
    ensures Sum(xs) == multiset(xs)[1] <= |xs|
    decreases |xs|
  {
    if xs != [] {
      var p := xs[..|xs| - 1];
      assert ZeroOne(p) by {
        assert forall i :: 0 <= i < |p| ==> p[i] == xs[i];
      }
      SumOfFlags(p);
      assert xs == p + [xs[|xs| - 1]];
    }
  }

  /** A part of a positive whole, as a percentage, lies in [0, 100]. */
  lemma PercentBounds(part: real, whole: real)
    requires 0.0 <= part <= whole && whole > 0.0
    ensures 0.0 <= part / whole * 100.0 <= 100.0
  {
    var ratio := part / whole;
    assert ratio * whole == part;
  }

  /** The mean of a 0/1 column, as a percentage, is 100 times its ones over its length, in [0, 100]. */
  lemma FlagShare(xs: seq<int>)
    requires ZeroOne(xs) && xs != []
    ensures MeanPercent(xs).value * |xs| as real == 100.0 * multiset(xs)[1] as real
    ensures 0.0 <= MeanPercent(xs).value <= 100.0
  {
    SumOfFlags(xs);
    PercentBounds(Sum(xs) as real, |xs| as real);
  }

  /** The 0/1 column `column == v`. */
  function Indicator(column: seq<string>, v: string): (flags: seq<int>)
    ensures |flags| == |column| && ZeroOne(flags)
  {
    seq(|column|, i requires 0 <= i < |column| => if column[i] == v then 1 else 0)
  }

  /** The ones of `column == v` are the cells equal to `v`. */
  lemma {:induction false} IndicatorCount(column: seq<string>, v: string)
    ensures multiset(Indicator(column, v))[1] == multiset(column)[v]
    decreases |column|
  {
    if column != [] {
      var p, c := column[..|column| - 1], column[|column| - 1];
      IndicatorCount(p, v);
      var flags := Indicator(column, v);
      assert flags == Indicator(p, v) + [flags[|column| - 1]];
      assert column == p + [c];
    }
  }

  // Columns of the preprocessed table.

  function Browsers(rows: seq<Row>): seq<string> {
    seq(|rows|, i requires 0 <= i < |rows| => rows[i].navegador)
  }

  function Countries(rows: seq<Row>): seq<string> {
    seq(|rows|, i requires 0 <= i < |rows| => rows[i].pais)
  }

  function Devices(rows: seq<Row>): seq<string> {
    seq(|rows|, i requires 0 <= i < |rows| => rows[i].dispositivo)
  }

  /** Line 169: `(df_processed['dispositivo'] == 'Mobile').mean() * 100`. */
  function MobileShare(rows: seq<Row>): (share: Option<real>)
    ensures share.None? <==> rows == []
  {
    MeanPercent(Indicator(Devices(rows), "Mobile"))
  }

  /** The mobile share is 100 times the mobile rows over all rows, in [0, 100]; NaN for an empty table. */
  lemma MobileShareSpec(rows: seq<Row>)
    ensures MobileShare(rows).None? <==> rows == []
    ensures rows != [] ==> MobileShare(rows).value * |rows| as real == 100.0 * multiset(Devices(rows))["Mobile"] as real
    ensures rows != [] ==> 0.0 <= MobileShare(rows).value <= 100.0
  {
    if rows != [] {
      IndicatorCount(Devices(rows), "Mobile");
      FlagShare(Indicator(Devices(rows), "Mobile"));
    }
  }

  // `Series.mode()[0]`: the modes come back sorted, so a tie goes to the smallest value.

  /**
   * `m` is a most frequent value of `values`, and the smallest (by `str`
   * order) of those that are equally frequent.
   */
  predicate IsMode(values: seq<string>, m: string) {
    m in values && forall v :: v in values ==> Outranks(values, m, v)
  }

  /** `a` occurs more often than `b` in `values`, or as often and `aFirst` breaks the tie in its favour. */
  predicate AheadOf<T(==)>(values: seq<T>, a: T, b: T, aFirst: bool) {
    multiset(values)[b] < multiset(values)[a] || (multiset(values)[b] == multiset(values)[a] && aFirst)
  }

  /** `a` occurs more often than `b`, or as often and `a <= b`. */
  predicate Outranks(values: seq<string>, a: string, b: string) {
    AheadOf(values, a, b, StrLe(a, b))
  }

  lemma OutranksOrder(values: seq<string>, a: string, b: string, c: string)
    ensures Outranks(values, a, b) || Outranks(values, b, a)
    ensures Outranks(values, a, b) && Outranks(values, b, a) ==> a == b
    ensures Outranks(values, a, b) && Outranks(values, b, c) ==> Outranks(values, a, c)
  {
    StrLeTotalOrder(a, b, c);
  }

  /** The candidate that outranks all others. */
  function Leader(values: seq<string>, candidates: seq<string>): (m: string)
    requires candidates != []
    ensures m in candidates
    ensures forall v :: v in candidates ==> Outranks(values, m, v)
    decreases |candidates|
  {
    var first := candidates[0];
    if |candidates| == 1 then
      StrLeTotalOrder(first, first, first);
      first
    else
      var rest := Leader(values, candidates[1..]);
      assert candidates == [first] + candidates[1..];
      OutranksOrder(values, first, rest, rest);
      if Outranks(values, first, rest) then
        assert forall v :: v in candidates[1..] ==> Outranks(values, first, v) by {
          forall v | v in candidates[1..]
            ensures Outranks(values, first, v)
          {
            OutranksOrder(values, first, rest, v);
          }
        }
        first
      else
        rest
  }

  /** Lines 170-171: the mode, or `'N/A'` when the column has no value. */
  function Mode(values: seq<string>): (mode: string)
    ensures values == [] ==> mode == "N/A"
    ensures values != [] ==> IsMode(values, mode)
  {
    if values == [] then "N/A" else Leader(values, values)
  }

  /** The mode is the only value that is most frequent and smallest among the most frequent. */
  lemma ModeUnique(values: seq<string>, m: string)
    requires IsMode(values, m)
    ensures m == Mode(values)
  {
    var mode := Mode(values);
    OutranksOrder(values, m, mode, mode);
  }

  // Line 224: `trafico_por_hora = df_processed.groupby('hora').size()`; line 486: its `idxmax()`.

  /** The `hora` column, null cells included. */
  function Horas(rows: seq<Row>): seq<Option<nat>> {
    seq(|rows|, i requires 0 <= i < |rows| => rows[i].hora)
  }

  /** The present values of a column of optional values, in order. */
  function FilterSome(xs: seq<Option<nat>>): (values: seq<nat>)
    ensures forall h :: h in values <==> Some(h) in xs
    decreases |xs|
  {
    if xs == [] then []
    else
      var p, x := xs[..|xs| - 1], xs[|xs| - 1];
      assert xs == p + [x];
      FilterSome(p) + (if x.Some? then [x.value] else [])
  }

  /** The non-null hours, in row order: the rows `groupby('hora')` keeps. */
  function HourColumn(rows: seq<Row>): seq<nat> {
    FilterSome(Horas(rows))
  }

  /** Filtering out the nulls keeps every hour's multiplicity. */
  lemma {:induction false} FilterSomeCount(xs: seq<Option<nat>>, h: nat)
    ensures multiset(FilterSome(xs))[h] == multiset(xs)[Some(h)]
    decreases |xs|
  {
    if xs != [] {
      FilterSomeCount(xs[..|xs| - 1], h);
      assert xs == xs[..|xs| - 1] + [xs[|xs| - 1]];
    }
  }

  /** Requests per hour of the day, over the rows whose `fecha` parsed. */
  function TraficoPorHora(rows: seq<Row>): (traffic: map<nat, nat>)
    ensures forall h :: h in traffic <==> Some(h) in Horas(rows)
  {
    var hours := HourColumn(rows);
    map h | h in hours :: multiset(hours)[h]
  }

  /** The keys are the hours that occur, and each counts the rows at that hour. */
  lemma TraficoPorHoraSpec(rows: seq<Row>)
    ensures forall h :: h in TraficoPorHora(rows) <==> Some(h) in Horas(rows)
    ensures forall h :: h in TraficoPorHora(rows) ==> TraficoPorHora(rows)[h] == multiset(Horas(rows))[Some(h)] > 0
  {
    forall h | h in TraficoPorHora(rows)
      ensures TraficoPorHora(rows)[h] == multiset(Horas(rows))[Some(h)]
    {
      FilterSomeCount(Horas(rows), h);
    }
  }

  /** `h` has the most requests, and is the earliest of the hours that have as many. */
  predicate IsPeak(hours: seq<nat>, h: nat) {
    h in hours && forall v :: v in hours ==> AheadOf(hours, h, v, h <= v)
  }

  function Busiest(hours: seq<nat>, candidates: seq<nat>): (h: nat)
    requires candidates != []
    ensures h in candidates
    ensures forall v :: v in candidates ==> AheadOf(hours, h, v, h <= v)
    decreases |candidates|
  {
    var first := candidates[0];
    if |candidates| == 1 then first
    else
      var rest := Busiest(hours, candidates[1..]);
      assert candidates == [first] + candidates[1..];
      if AheadOf(hours, first, rest, first <= rest) then first
      else rest
  }

  /** `trafico_por_hora.idxmax()`; with no parsed timestamp the series is empty and `idxmax` fails: `None`. */
  function PeakHour(rows: seq<Row>): (peak: Option<nat>)
    ensures peak.None? <==> forall i :: 0 <= i < |rows| ==> rows[i].hora.None?
    ensures peak.Some? ==> IsPeak(HourColumn(rows), peak.value)
  {
    var hours := HourColumn(rows);
    if hours == [] then
      assert forall i :: 0 <= i < |rows| ==> rows[i].hora.None? by {
        forall i | 0 <= i < |rows|
          ensures rows[i].hora.None?
        {
          assert Horas(rows)[i] == rows[i].hora;
        }
      }
      None
    else
      assert exists i :: 0 <= i < |rows| && rows[i].hora.Some? by {
        assert Some(hours[0]) in Horas(rows);
      }
      Some(Busiest(hours, hours))
  }

  /** The peak is an hour of the day with maximal traffic, the earliest one on a tie. */
  lemma PeakHourSpec(rows: seq<Row>)
    requires forall i :: 0 <= i < |rows| ==> WellFormed(rows[i])
    requires PeakHour(rows).Some?
    ensures var peak := PeakHour(rows).value; var traffic := TraficoPorHora(rows);
      && peak < 24 && peak in traffic
      && forall h :: h in traffic ==> traffic[h] < traffic[peak] || (traffic[h] == traffic[peak] && peak <= h)
  {
    var peak := PeakHour(rows).value;
    assert Some(peak) in Horas(rows);
    var i :| 0 <= i < |rows| && Horas(rows)[i] == Some(peak);
    assert WellFormed(rows[i]);
  }

  // Line 327: `df_processed[~df_processed['es_estatico']]['url'].value_counts().head(10)`.

  /** The URLs of the non-static rows, null cells dropped as `value_counts` drops them. */
  function PageColumn(rows: seq<Row>): (pages: seq<string>)
    ensures forall u :: u in pages <==> exists i :: 0 <= i < |rows| && !rows[i].esEstatico && rows[i].url == Some(u)
    decreases |rows|
  {
    if rows == [] then []
    else
      var p, r := rows[..|rows| - 1], rows[|rows| - 1];
      assert forall i :: 0 <= i < |p| ==> p[i] == rows[i];
      PageColumn(p) + (if !r.esEstatico && r.url.Some? then [r.url.value] else [])
  }

  /** The positions of the non-static rows that request `u`. */
  function RequestsFor(rows: seq<Row>, u: string): set<int> {
    set i | 0 <= i < |rows| && !rows[i].esEstatico && rows[i].url == Some(u)
  }

  /** Appending a row adds its own position to the requests for its URL, and nothing else. */
  lemma RequestsSnoc(rows: seq<Row>, u: string)
    requires rows != []
    ensures var r := rows[|rows| - 1];
      |RequestsFor(rows, u)| == |RequestsFor(rows[..|rows| - 1], u)| + (if !r.esEstatico && r.url == Some(u) then 1 else 0)
  {
    var p, n := rows[..|rows| - 1], |rows| - 1;
    var before := RequestsFor(p, u);
    assert forall i :: 0 <= i < n ==> p[i] == rows[i];
    if !rows[n].esEstatico && rows[n].url == Some(u) {
      assert RequestsFor(rows, u) == before + {n};
      assert |before + {n}| == |before| + 1;
    } else {
      assert RequestsFor(rows, u) == before;
    }
  }

  /** `value_counts` counts: `u` occurs in the page column once per non-static row requesting it. */
  lemma {:induction false} PageColumnCount(rows: seq<Row>, u: string)
    ensures Visits(PageColumn(rows), u) == |RequestsFor(rows, u)|
    decreases |rows|
  {
    if rows != [] {
      var p, r := rows[..|rows| - 1], rows[|rows| - 1];
      var last := if !r.esEstatico && r.url.Some? then [r.url.value] else [];
      assert PageColumn(rows) == PageColumn(p) + last;
      assert multiset(PageColumn(rows)) == multiset(PageColumn(p)) + multiset(last);
      PageColumnCount(p, u);
      RequestsSnoc(rows, u);
    }
  }

  predicate Distinct(s: seq<string>) {
    forall i, j :: 0 <= i < j < |s| ==> s[i] != s[j]
  }

  /** The distinct values of `xs`, in order of first occurrence. */
  function Dedup(xs: seq<string>): (unique: seq<string>)
    ensures Distinct(unique)
    ensures forall y :: y in unique <==> y in xs
    decreases |xs|
  {
    if xs == [] then []
    else
      var p, x := xs[..|xs| - 1], xs[|xs| - 1];
      assert xs == p + [x];
      var unique := Dedup(p);
      if x in unique then unique else unique + [x]
  }

  /** How often `u` occurs among the page requests. */
  function Visits(pages: seq<string>, u: string): nat {
    multiset(pages)[u]
  }

  /** Listed by visits, most visited first. */
  predicate ByVisits(pages: seq<string>, s: seq<string>) {
    forall i, j :: 0 <= i < j < |s| ==> Visits(pages, s[j]) <= Visits(pages, s[i])
  }

  /** A list by visits stays one when an entry visited at least as often as all of it goes in front. */
  lemma ByVisitsCons(pages: seq<string>, first: string, rest: seq<string>)
    requires ByVisits(pages, rest)
    requires forall y :: y in rest ==> Visits(pages, y) <= Visits(pages, first)
    ensures ByVisits(pages, [first] + rest)
  {
    var t := [first] + rest;
    forall i, j | 0 <= i < j < |t|
      ensures Visits(pages, t[j]) <= Visits(pages, t[i])
    {
      assert t[j] == rest[j - 1] && rest[j - 1] in rest;
      if i > 0 {
        assert t[i] == rest[i - 1];
      }
    }
  }

  /** Inserts `u` after every entry visited at least as often, keeping the earlier entries of a tie first. */
  function InsertByVisits(pages: seq<string>, s: seq<string>, u: string): (t: seq<string>)
    requires ByVisits(pages, s)
    ensures ByVisits(pages, t)
    ensures multiset(t) == multiset(s) + multiset{u}
    decreases |s|
  {
    if s == [] then [u]
    else if Visits(pages, s[0]) < Visits(pages, u) then
      ByVisitsCons(pages, u, s);
      [u] + s
    else
      var rest := InsertByVisits(pages, s[1..], u);
      InsertBehind(pages, s, u, rest);
      [s[0]] + rest
  }

  /** The step of the insertion that keeps the first entry in front. */
  lemma InsertBehind(pages: seq<string>, s: seq<string>, u: string, rest: seq<string>)
    requires ByVisits(pages, s) && s != [] && Visits(pages, u) <= Visits(pages, s[0])
    requires ByVisits(pages, rest) && multiset(rest) == multiset(s[1..]) + multiset{u}
    ensures ByVisits(pages, [s[0]] + rest)
    ensures multiset([s[0]] + rest) == multiset(s) + multiset{u}
  {
    var first := s[0];
    assert s == [first] + s[1..];
    forall y | y in rest
      ensures Visits(pages, y) <= Visits(pages, first)
    {
      assert y in multiset(rest);
      if y != u {
        var j :| 0 <= j < |s[1..]| && s[1..][j] == y;
        assert s[j + 1] == y;
      }
    }
    ByVisitsCons(pages, first, rest);
  }

  /** Entries that occur once each still do after inserting a new one. */
  lemma {:induction false} InsertKeepsDistinct(pages: seq<string>, s: seq<string>, u: string)
    requires ByVisits(pages, s) && Distinct(s) && u !in s
    ensures Distinct(InsertByVisits(pages, s, u))
    decreases |s|
  {
    if s != [] && Visits(pages, u) <= Visits(pages, s[0]) {
      var first, rest := s[0], InsertByVisits(pages, s[1..], u);
      assert s == [first] + s[1..];
      InsertKeepsDistinct(pages, s[1..], u);
      assert first !in rest by {
        assert first !in s[1..];
        assert first !in multiset(rest);
      }
    }
  }

  /** `value_counts` order: an insertion sort by visits, most visited first. */
  function SortByVisits(pages: seq<string>, xs: seq<string>): (t: seq<string>)
    ensures ByVisits(pages, t)
    ensures multiset(t) == multiset(xs)
    ensures Distinct(xs) ==> Distinct(t)
    decreases |xs|
  {
    if xs == [] then []
    else
      var p, x := xs[..|xs| - 1], xs[|xs| - 1];
      assert xs == p + [x];
      var sorted := SortByVisits(pages, p);
      assert Distinct(xs) ==> Distinct(InsertByVisits(pages, sorted, x)) by {
        if Distinct(xs) {
          assert Distinct(p) && x !in p;
          assert x !in multiset(sorted);
          InsertKeepsDistinct(pages, sorted, x);
        }
      }
      InsertByVisits(pages, sorted, x)
  }

  /** The distinct non-static URLs, most visited first. */
  function Ranking(rows: seq<Row>): (ranked: seq<string>)
    ensures ByVisits(PageColumn(rows), ranked) && Distinct(ranked)
    ensures forall u :: u in ranked <==> u in PageColumn(rows)
  {
    var pages := PageColumn(rows);
    var ranked := SortByVisits(pages, Dedup(pages));
    assert forall u :: u in ranked <==> u in multiset(Dedup(pages));
    ranked
  }

  /** The top pages: each URL with its number of visits, at most ten. */
  function TopPages(rows: seq<Row>): (top: seq<(string, nat)>)
    ensures |top| == if |Ranking(rows)| < 10 then |Ranking(rows)| else 10
    ensures forall i :: 0 <= i < |top| ==> top[i] == (Ranking(rows)[i], Visits(PageColumn(rows), Ranking(rows)[i]))
  {
    var ranked := Ranking(rows);
    var k := if |ranked| < 10 then |ranked| else 10;
    seq(k, i requires 0 <= i < k => (ranked[i], Visits(PageColumn(rows), ranked[i])))
  }

  /** Distinct non-static URLs, each with its number of visits, most visited first. */
  lemma TopPagesOrdered(rows: seq<Row>)
    ensures var top, pages := TopPages(rows), PageColumn(rows);
      && (forall i :: 0 <= i < |top| ==> top[i].0 in pages && top[i].1 == Visits(pages, top[i].0) > 0)
      && (forall i :: 0 <= i < |top| ==> top[i].1 == |RequestsFor(rows, top[i].0)|)
      && (forall i, j :: 0 <= i < j < |top| ==> top[j].1 <= top[i].1 && top[i].0 != top[j].0)
  {
    var top, pages, ranked := TopPages(rows), PageColumn(rows), Ranking(rows);
    forall i | 0 <= i < |top|
      ensures top[i].0 in pages && top[i].1 == Visits(pages, top[i].0) > 0
      ensures top[i].1 == |RequestsFor(rows, top[i].0)|
    {
      assert top[i].0 == ranked[i] && ranked[i] in ranked;
      assert ranked[i] in multiset(pages);
      PageColumnCount(rows, top[i].0);
    }
    forall i, j | 0 <= i < j < |top|
      ensures top[j].1 <= top[i].1 && top[i].0 != top[j].0
    {
      assert top[i].0 == ranked[i] && top[j].0 == ranked[j];
    }
  }

  /**
   * No URL left out is visited more often than any URL listed, and fewer
   * than ten are listed only when every non-static URL is.
   */
  lemma TopPagesComplete(rows: seq<Row>, u: string)
    requires u in PageColumn(rows)
    requires forall j :: 0 <= j < |TopPages(rows)| ==> TopPages(rows)[j].0 != u
    ensures |TopPages(rows)| == 10
    ensures forall i :: 0 <= i < 10 ==> Visits(PageColumn(rows), u) <= TopPages(rows)[i].1
  {
    var top, ranked := TopPages(rows), Ranking(rows);
    var m :| 0 <= m < |ranked| && ranked[m] == u;
    assert |top| <= m;
  }

  // Line 336: labels longer than 50 characters are cut for the chart.

  const LABEL_WIDTH := 50

  /** `label[:50] + '...' if len(label) > 50 else label`. */
  function Shorten(text: string): (short: string)
    ensures |text| <= LABEL_WIDTH ==> short == text
    ensures |text| > LABEL_WIDTH ==> |short| == LABEL_WIDTH + 3 && StartsWith(text, short[..LABEL_WIDTH]) && short[LABEL_WIDTH..] == "..."
  {
    if |text| > LABEL_WIDTH then text[..LABEL_WIDTH] + "..." else text
  }

  /** Shortening a shortened label changes nothing more. */
  lemma ShortenIdempotent(text: string)
    ensures Shorten(Shorten(text)) == Shorten(text)
  {
    if |text| > LABEL_WIDTH {
      var short := Shorten(text);
      assert short[..LABEL_WIDTH] == text[..LABEL_WIDTH];
    }
  }

  /** The y-axis labels of the top-pages chart, one per listed URL. */
  function ShortenedLabels(top: seq<(string, nat)>): (labels: seq<string>)
    ensures |labels| == |top|
    ensures forall i :: 0 <= i < |top| ==> |labels[i]| <= LABEL_WIDTH + 3 && labels[i] == Shorten(top[i].0)
  {
    seq(|top|, i requires 0 <= i < |top| => Shorten(top[i].0))
  }

  // Lines 166-173 and 489.

  /** Line 489: `len(features[features['es_anomalia'] == 1])`. */
  function SuspiciousCount(esAnomalia: seq<int>): (count: nat)
    ensures count <= |esAnomalia| || !ZeroOne(esAnomalia)
    ensures ZeroOne(esAnomalia) && esAnomalia != [] ==> MeanPercent(esAnomalia).value * |esAnomalia| as real == 100.0 * count as real
  {
    assert ZeroOne(esAnomalia) ==> multiset(esAnomalia)[1] <= |esAnomalia| by {
      if ZeroOne(esAnomalia) {
        SumOfFlags(esAnomalia);
      }
    }
    assert ZeroOne(esAnomalia) && esAnomalia != [] ==>
      MeanPercent(esAnomalia).value * |esAnomalia| as real == 100.0 * multiset(esAnomalia)[1] as real by {
      if ZeroOne(esAnomalia) && esAnomalia != [] {
        FlagShare(esAnomalia);
      }
    }
    multiset(esAnomalia)[1]
  }

  /** The `metricas` dictionary. */
  datatype Summary = Summary(
    uniqueUsers: nat,
    totalRequests: nat,
    mobilePct: Option<real>,
    mainBrowser: string,
    mainCountry: string,
    anomalyPct: Option<real>)

  /**
   * Lines 166-173: as many unique users as feature rows, one request per
   * row, and the shares and modes defined above.
   */
  function Metricas(rows: seq<Row>, esAnomalia: seq<int>): (m: Summary)
    ensures m.uniqueUsers == |Aggregate(rows)| == |IpIndex(rows)|
    ensures m.totalRequests == |rows|
    ensures m.mobilePct == MobileShare(rows) && m.anomalyPct == MeanPercent(esAnomalia)
    ensures m.mainBrowser == Mode(Browsers(rows)) && m.mainCountry == Mode(Countries(rows))
  {
    IndexSize(rows);
    Summary(|Ips(rows)|, |rows|, MobileShare(rows), Mode(Browsers(rows)), Mode(Countries(rows)), MeanPercent(esAnomalia))
  }
}
