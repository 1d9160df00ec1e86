/**
 * The per-IP feature table: `df_processed.groupby('IP').agg(...)` with
 * `total_requests` = `'count'` of `fecha` (the non-null timestamps only),
 * `unique_pages` = `'nunique'` of `url` and `unique_hours` = `'nunique'` of
 * `hora` (both ignoring null cells). The groupby index is the sorted list of
 * distinct IPs; the anomaly column is assigned positionally along it.
 */
module Aggregation {
  import opened Wrappers
  import opened Text
  import opened AccessLog

  /** One row of `features`: the three columns handed to the anomaly detector. */
  datatype Features = Features(totalRequests: nat, uniquePages: nat, uniqueHours: nat)

  /** What the groupby has gathered for one IP: rows seen, parsed timestamps, distinct pages and hours. */
  datatype Group = Group(size: nat, requests: nat, pages: set<string>, hours: set<nat>)

  const EMPTY_GROUP := Group(0, 0, {}, {})

  /** One more row of the group; null cells are skipped by `count` and `nunique`. */
  function Add(g: Group, r: Row): Group {
    Group(g.size + 1,
          if r.fecha.Some? then g.requests + 1 else g.requests,
          if r.url.Some? then g.pages + {r.url.value} else g.pages,
          if r.hora.Some? then g.hours + {r.hora.value} else g.hours)
  }

  /** The groupby, as a walk over the rows in order. */
  function Groups(rows: seq<Row>): map<string, Group>
    decreases |rows|
  {
    if rows == [] then map[]
    else
      var acc := Groups(rows[..|rows| - 1]);
      var r := rows[|rows| - 1];
      acc[r.ip := Add(if r.ip in acc then acc[r.ip] else EMPTY_GROUP, r)]
  }

  /** Lines 154-158: the feature table, keyed by IP. */
  function Aggregate(rows: seq<Row>): (features: map<string, Features>)
    ensures features.Keys == Ips(rows)
  {
    GroupsSpec(rows);
    var groups := Groups(rows);
    map ip | ip in groups :: Features(groups[ip].requests, |groups[ip].pages|, |groups[ip].hours|)
  }

  // Reference definitions, read straight off the rows.

  /** The distinct IPs of the table. */
  function Ips(rows: seq<Row>): set<string> {
    set i | 0 <= i < |rows| :: rows[i].ip
  }

  /** The positions of the rows of `ip`. */
  function RecordsOf(rows: seq<Row>, ip: string): set<int> {
    set i | 0 <= i < |rows| && rows[i].ip == ip
  }

  /** The positions of the rows of `ip` whose `fecha` parsed. */
  function ParsedOf(rows: seq<Row>, ip: string): set<int> {
    set i | 0 <= i < |rows| && rows[i].ip == ip && rows[i].fecha.Some?
  }

  /** The non-null URLs requested by `ip`. */
  function PagesOf(rows: seq<Row>, ip: string): set<string> {
    set i | 0 <= i < |rows| && rows[i].ip == ip && rows[i].url.Some? :: rows[i].url.value
  }

  /** The non-null hours at which `ip` made requests. */
  function HoursOf(rows: seq<Row>, ip: string): set<nat> {
    set i | 0 <= i < |rows| && rows[i].ip == ip && rows[i].hora.Some? :: rows[i].hora.value
  }

  /** The group the reference definitions give for `ip`. */
  function ReferenceGroup(rows: seq<Row>, ip: string): Group {
    Group(|RecordsOf(rows, ip)|, |ParsedOf(rows, ip)|, PagesOf(rows, ip), HoursOf(rows, ip))
  }

  // How each reference definition grows when one row is appended.

  lemma IpsSnoc(rows: seq<Row>)
    requires rows != []
    ensures Ips(rows) == Ips(rows[..|rows| - 1]) + {rows[|rows| - 1].ip}
  {
    var p := rows[..|rows| - 1];
    assert forall i :: 0 <= i < |p| ==> p[i] == rows[i];
    assert rows[|rows| - 1].ip in Ips(rows);
  }

  lemma RecordsSnoc(rows: seq<Row>, ip: string)
    requires rows != []
    ensures |RecordsOf(rows, ip)| == |RecordsOf(rows[..|rows| - 1], ip)| + (if rows[|rows| - 1].ip == ip then 1 else 0)
  {
    var p, n := rows[..|rows| - 1], |rows| - 1;
    var before := RecordsOf(p, ip);
    assert forall i :: 0 <= i < n ==> p[i] == rows[i];
    if rows[n].ip == ip {
      assert RecordsOf(rows, ip) == before + {n};
      assert |before + {n}| == |before| + 1;
    } else {
      assert RecordsOf(rows, ip) == before;
    }
  }

  lemma ParsedSnoc(rows: seq<Row>, ip: string)
    requires rows != []
    ensures |ParsedOf(rows, ip)| ==
      |ParsedOf(rows[..|rows| - 1], ip)| + (if rows[|rows| - 1].ip == ip && rows[|rows| - 1].fecha.Some? then 1 else 0)
  {
    var p, n := rows[..|rows| - 1], |rows| - 1;
    var before := ParsedOf(p, ip);
    assert forall i :: 0 <= i < n ==> p[i] == rows[i];
    if rows[n].ip == ip && rows[n].fecha.Some? {
      assert ParsedOf(rows, ip) == before + {n};
      assert |before + {n}| == |before| + 1;
    } else {
      assert ParsedOf(rows, ip) == before;
    }
  }

  lemma PagesSnoc(rows: seq<Row>, ip: string)
    requires rows != []
    ensures var r := rows[|rows| - 1];
      PagesOf(rows, ip) == PagesOf(rows[..|rows| - 1], ip) + (if r.ip == ip && r.url.Some? then {r.url.value} else {})
  {
    var p, n := rows[..|rows| - 1], |rows| - 1;
    assert forall i :: 0 <= i < n ==> p[i] == rows[i];
  }

  lemma HoursSnoc(rows: seq<Row>, ip: string)
    requires rows != []
    ensures var r := rows[|rows| - 1];
      HoursOf(rows, ip) == HoursOf(rows[..|rows| - 1], ip) + (if r.ip == ip && r.hora.Some? then {r.hora.value} else {})
  {
    var p, n := rows[..|rows| - 1], |rows| - 1;
    assert forall i :: 0 <= i < n ==> p[i] == rows[i];
  }

  /** Appending one row changes the reference group of its own IP only, as `Add` does. */
  lemma ReferenceSnoc(rows: seq<Row>, ip: string)
    requires rows != []
    ensures var p, r := rows[..|rows| - 1], rows[|rows| - 1];
      ReferenceGroup(rows, ip) == if r.ip == ip then Add(ReferenceGroup(p, ip), r) else ReferenceGroup(p, ip)
  {
    RecordsSnoc(rows, ip);
    ParsedSnoc(rows, ip);
    PagesSnoc(rows, ip);
    HoursSnoc(rows, ip);
  }

  /** An IP with no row has empty reference sets. */
  lemma Absent(rows: seq<Row>, ip: string)
    requires ip !in Ips(rows)
    ensures RecordsOf(rows, ip) == {} && ParsedOf(rows, ip) == {}
    ensures PagesOf(rows, ip) == {} && HoursOf(rows, ip) == {}
  {
    forall i | 0 <= i < |rows|
      ensures rows[i].ip != ip
    {
      assert rows[i].ip in Ips(rows);
    }
  }

  /** The walk has built exactly the reference groups, one per distinct IP. */
  predicate GroupsMatch(rows: seq<Row>) {
    Groups(rows).Keys == Ips(rows) && forall ip :: ip in Groups(rows) ==> Groups(rows)[ip] == ReferenceGroup(rows, ip)
  }

  /** The walk builds, for every IP, exactly the reference group. */
  lemma {:induction false} GroupsSpec(rows: seq<Row>)
    ensures GroupsMatch(rows)
    decreases |rows|
  {
    if rows != [] {
      var p, r := rows[..|rows| - 1], rows[|rows| - 1];
      GroupsSpec(p);
      IpsSnoc(rows);
      if r.ip !in Groups(p) {
        Absent(p, r.ip);
      }
      forall ip | ip in Groups(rows)
        ensures Groups(rows)[ip] == ReferenceGroup(rows, ip)
      {
        ReferenceSnoc(rows, ip);
      }
    }
  }

  /**
   * There is exactly one feature row per distinct IP; `total_requests` counts
   * that IP's parsed timestamps, `unique_pages` its distinct URLs and
   * `unique_hours` its distinct hours.
   */
  lemma AggregateSpec(rows: seq<Row>)
    ensures Aggregate(rows).Keys == Ips(rows)
    ensures forall ip :: ip in Aggregate(rows) ==>
      Aggregate(rows)[ip] == Features(|ParsedOf(rows, ip)|, |PagesOf(rows, ip)|, |HoursOf(rows, ip)|)
  {
    GroupsSpec(rows);
  }

  /** The bounds the walk keeps for every group of well-formed rows. */
  predicate Bounded(g: Group) {
    g.requests <= g.size && |g.pages| <= g.size && |g.hours| <= g.requests
  }

  lemma {:induction false} GroupsBounded(rows: seq<Row>)
    requires forall i :: 0 <= i < |rows| ==> WellFormed(rows[i])
    ensures forall ip :: ip in Groups(rows) ==> Bounded(Groups(rows)[ip])
    decreases |rows|
  {
    if rows != [] {
      var p, r := rows[..|rows| - 1], rows[|rows| - 1];
      assert forall i :: 0 <= i < |p| ==> p[i] == rows[i];
      GroupsBounded(p);
      var g := if r.ip in Groups(p) then Groups(p)[r.ip] else EMPTY_GROUP;
      assert WellFormed(r);
      if r.url.Some? {
        assert |g.pages + {r.url.value}| <= |g.pages| + 1 by {
          if r.url.value in g.pages {
            assert g.pages + {r.url.value} == g.pages;
          }
        }
      }
      if r.hora.Some? {
        assert |g.hours + {r.hora.value}| <= |g.hours| + 1 by {
          if r.hora.value in g.hours {
            assert g.hours + {r.hora.value} == g.hours;
          }
        }
      }
    }
  }

  /**
   * For every IP of a preprocessed table: `unique_hours <= total_requests`,
   * and neither `total_requests` nor `unique_pages` exceeds the IP's record count.
   */
  lemma FeatureBounds(rows: seq<Row>, ip: string)
    requires forall i :: 0 <= i < |rows| ==> WellFormed(rows[i])
    requires ip in Aggregate(rows)
    ensures Aggregate(rows)[ip].uniqueHours <= Aggregate(rows)[ip].totalRequests <= |RecordsOf(rows, ip)|
    ensures Aggregate(rows)[ip].uniquePages <= |RecordsOf(rows, ip)|
  {
    GroupsSpec(rows);
    GroupsBounded(rows);
  }

  /**
   * `'count'` skips null timestamps: a single request whose `fecha` did not
   * parse yields `total_requests == 0` beside `unique_pages == 1`.
   */
  lemma CountSkipsUnparsedFecha()
    ensures var row := Row(None, "10.0.0.1", Some("/"), "", "Other", "Other", "Desktop", false, "Otros", None);
      WellFormed(row) && Aggregate([row]) == map["10.0.0.1" := Features(0, 1, 0)]
  {
    var row := Row(None, "10.0.0.1", Some("/"), "", "Other", "Other", "Desktop", false, "Otros", None);
    assert [row][..0] == [];
  }

  // The groupby index: the distinct IPs in ascending order.

  predicate StrictlyAscending(s: seq<string>) {
    forall i, j :: 0 <= i < j < |s| ==> StrLt(s[i], s[j])
  }

  /** Inserts `x` into an ascending list of distinct strings. */
  function Insert(s: seq<string>, x: string): (t: seq<string>)
    requires StrictlyAscending(s)
    ensures StrictlyAscending(t)
    ensures forall y :: y in t <==> y in s || y == x
  {
    if s == [] then [x]
    else if x == s[0] then s
    else if StrLt(x, s[0]) then
      assert forall j :: 0 < j < |s| ==> StrLt(x, s[j]) by {
        forall j | 0 < j < |s| ensures StrLt(x, s[j]) {
          StrLtTransitive(x, s[0], s[j]);
        }
      }
      [x] + s
    else
      StrLtTotal(x, s[0]);
      var rest := Insert(s[1..], x);
      assert forall y :: y in s[1..] ==> StrLt(s[0], y);
      [s[0]] + rest
  }

  /** The sorted index of `features`. */
  function IpIndex(rows: seq<Row>): (index: seq<string>)
    ensures StrictlyAscending(index)
    ensures forall y :: y in index <==> y in Ips(rows)
    decreases |rows|
  {
    if rows == [] then []
    else
      IpsSnoc(rows);
      Insert(IpIndex(rows[..|rows| - 1]), rows[|rows| - 1].ip)
  }

  /** A strictly ascending list has no repeated entry, so it is as long as its set of entries. */
  lemma {:induction false} AscendingCard(s: seq<string>)
    requires StrictlyAscending(s)
    ensures |set y | y in s| == |s|
    decreases |s|
  {
    if s != [] {
      AscendingCard(s[1..]);
      assert (set y | y in s) == {s[0]} + (set y | y in s[1..]);
      assert s[0] !in s[1..] by {
        StrLtIrreflexive(s[0]);
        forall j | 0 < j < |s|
          ensures s[j] != s[0]
        {
          assert StrLt(s[0], s[j]);
        }
      }
    }
  }

  /** The index has one entry per feature row, and the feature rows are one per distinct IP. */
  lemma IndexSize(rows: seq<Row>)
    ensures |IpIndex(rows)| == |Aggregate(rows)| == |Ips(rows)|
  {
    var index := IpIndex(rows);
    AscendingCard(index);
    assert (set y | y in index) == Ips(rows);
    AggregateSpec(rows);
    assert Aggregate(rows).Keys == Ips(rows);
  }

  /** Line 164: `np.where(anomalies == -1, 1, 0)` for one verdict of the detector. */
  function AnomalyFlag(verdict: int): (flag: int)
    ensures flag == 0 || flag == 1
    ensures flag == 1 <==> verdict == -1
  {
    if verdict == -1 then 1 else 0
  }

  /** The `es_anomalia` column made from the detector's verdicts. */
  function AnomalyColumn(verdicts: seq<int>): (flags: seq<int>)
    ensures |flags| == |verdicts|
    ensures forall i :: 0 <= i < |flags| ==> flags[i] == AnomalyFlag(verdicts[i])
  {
    seq(|verdicts|, i requires 0 <= i < |verdicts| => AnomalyFlag(verdicts[i]))
  }

  /** The column holds as many ones as the detector returned `-1` verdicts, and zeros elsewhere. */
  lemma {:induction false} AnomalyColumnCount(verdicts: seq<int>)
    ensures multiset(AnomalyColumn(verdicts))[1] == multiset(verdicts)[-1]
    ensures multiset(AnomalyColumn(verdicts))[0] == |verdicts| - multiset(verdicts)[-1]
    decreases |verdicts|
  {
    if verdicts != [] {
      var p, v := verdicts[..|verdicts| - 1], verdicts[|verdicts| - 1];
      AnomalyColumnCount(p);
      assert AnomalyColumn(verdicts) == AnomalyColumn(p) + [AnomalyFlag(v)];
      assert verdicts == p + [v];
    }
  }

  /** The IPs flagged 1 in a column aligned with `index`. */
  function Flagged(index: seq<string>, flags: seq<int>): set<string>
    requires |flags| == |index|
  {
    set i | 0 <= i < |index| && flags[i] == 1 :: index[i]
  }

  /**
   * Line 489: the rows of `features` with `es_anomalia == 1` are as many as
   * the distinct suspicious IPs, because the index repeats no IP.
   */
  lemma {:induction false} FlaggedCount(index: seq<string>, flags: seq<int>)
    requires StrictlyAscending(index) && |flags| == |index|
    ensures |Flagged(index, flags)| == multiset(flags)[1]
    decreases |index|
  {
    if index != [] {
      FlaggedCount(index[1..], flags[1..]);
      FlaggedCons(index, flags);
      assert flags == [flags[0]] + flags[1..];
    }
  }

  /** Splitting off the first row of a flagged column. */
  lemma FlaggedCons(index: seq<string>, flags: seq<int>)
    requires StrictlyAscending(index) && |flags| == |index| && index != []
    ensures Flagged(index, flags) == (if flags[0] == 1 then {index[0]} else {}) + Flagged(index[1..], flags[1..])
    ensures index[0] !in Flagged(index[1..], flags[1..])
  {
    var rest, tail := index[1..], flags[1..];
    assert forall i :: 0 < i < |index| ==> index[i] == rest[i - 1] && flags[i] == tail[i - 1];
    StrLtIrreflexive(index[0]);
    forall i | 0 <= i < |rest|
      ensures rest[i] != index[0]
    {
      assert StrLt(index[0], index[i + 1]);
    }
  }

  /** The `features` DataFrame: its sorted IP index, its rows, and the `es_anomalia` column once assigned. */
  class FeatureTable {
    var index: seq<string>
    var rows: map<string, Features>
    var esAnomalia: seq<int>

    /** The index lists every feature row once, in ascending order. */
    ghost predicate Valid()
      reads this
    {
      StrictlyAscending(index) && forall ip :: ip in index <==> ip in rows
    }

    /** Lines 154-158: the groupby of the preprocessed table. */
    constructor (table: seq<Row>)
      ensures Valid()
      ensures index == IpIndex(table) && rows == Aggregate(table) && esAnomalia == []
    {
      AggregateSpec(table);
      index := IpIndex(table);
      rows := Aggregate(table);
      esAnomalia := [];
    }

    /** Line 164: `features['es_anomalia'] = np.where(anomalies == -1, 1, 0)`, one verdict per row. */
    method MarkAnomalies(verdicts: seq<int>)
      requires Valid() && |verdicts| == |index|
      modifies this`esAnomalia
      ensures Valid()
      ensures esAnomalia == AnomalyColumn(verdicts)
    {
      esAnomalia := seq(|verdicts|, i requires 0 <= i < |verdicts| => AnomalyFlag(verdicts[i]));
    }

    /** The IPs whose row is flagged as an anomaly. */
    function Suspicious(): (ips: set<string>)
      reads this
      requires Valid() && |esAnomalia| == |index|
      ensures ips <= rows.Keys
      ensures |ips| == multiset(esAnomalia)[1]
    {
      FlaggedCount(index, esAnomalia);
      Flagged(index, esAnomalia)
    }
  }
}
