# Web-traffic dashboard: log normaliser, per-IP features and summary metrics

This project models the computing core of a Streamlit dashboard that analyses
web access logs (`streamlit_app.py`). The dashboard reads a JSON array of
records with the fields `fecha`, `IP`, `url` and `user_agent`. It then:

- preprocesses them (`preprocess_data`): it parses the timestamp and adds the
  browser, operating system, device class, static-resource flag and country
  of each record, then adds the hour of the day;
- groups the records by IP into a feature table (`total_requests`,
  `unique_pages`, `unique_hours`) that an anomaly detector scores;
- turns the detector's verdicts into a 0/1 `es_anomalia` column;
- reports the summary metrics: unique users, requests, mobile share, modal
  browser and country, anomaly share, hourly traffic and its peak hour, the
  ten most visited non-static pages with shortened labels, and the number of
  suspicious IPs.

Modules, one per component:

- `Wrappers` (wrappers.dfy): `Option`, the model's stand-in for a NaN/NaT cell.
- `Text` (text.dfy): Python's `in`, `startswith` and the ordering of `str`.
- `Classifiers` (classifiers.dfy): the four first-match rule tables.
- `StaticResources` (static_resources.dfy): the `es_estatico` regular-expression
  search. The extensions are joined with `|` and not escaped, so each leading
  `.` is the regex wildcard. A match may sit anywhere in the URL, and case is
  ignored.
- `Timestamps` (timestamps.dfy): the `%d-%m-%Y %I:%M:%S%p` parser with
  `errors='coerce'`, and the hour of a parsed value.
- `AccessLog` (access_log.dfy): the records, the preprocessed rows, and the
  DataFrame as a class whose methods assign whole columns, as the source does.
- `Aggregation` (aggregation.dfy): the groupby, its sorted IP index, and the
  `es_anomalia` column.
- `Metrics` (metrics.dfy): `metricas`, hourly traffic, peak hour, top pages,
  labels and the suspicious count.
- `Dashboard` (dashboard.dfy): all of the above in source order.

The model follows the code where the code reads differently from what the
names suggest:

- `total_requests` is pandas' `'count'` of `fecha`, so a record whose
  timestamp does not parse is not counted. A feature row can therefore show
  more unique pages than requests (`CountSkipsUnparsedFecha`).
- `es_estatico` is a regex search, not a suffix test: `/xcss` and `/jsonapi`
  are "static".

## Model

| member | source | states |
|---|---|---|
| `Text.ContainsIffOccurs` | streamlit_app.py:94 | `key in user_agent` holds exactly when the key occurs at some position of the user agent |
| `Text.StrLeTotalOrder` | streamlit_app.py:170 | the `str` ordering that sorts the modes is antisymmetric, transitive and total |
| `Classifiers.FirstMatch` | streamlit_app.py:93-96 | a rule-table search returns the label of the first rule whose key hits, or the fallback when none does |
| `Classifiers.FirstHitExists` | streamlit_app.py:93-96 | either no rule hits or exactly one rule is the first hit, so the search result is well defined |
| `Classifiers.ExtractBrowser` | streamlit_app.py:85-96 | the browser is one of the six labels; it is `Other` exactly when no key occurs; otherwise it is the label of the first key, in table order, that occurs |
| `Classifiers.ChromeWins` | streamlit_app.py:85-96 | a user agent containing `Chrome` is Chrome, whatever else it contains |
| `Classifiers.FirefoxUnlessChrome` | streamlit_app.py:85-96 | a user agent containing `Firefox` and not `Chrome` is Firefox |
| `Classifiers.ExtractOs` | streamlit_app.py:98-109 | the OS is one of the six labels; it is `Other` exactly when no key occurs; otherwise it is the first occurring key in table order |
| `Classifiers.OsShadowing` | streamlit_app.py:98-109 | a user agent containing `Linux` is never Android or iOS, and one containing `Mac` is never Linux, Android or iOS |
| `Classifiers.AnyContained` | streamlit_app.py:113 | `any(...)` holds exactly when some indicator occurs in the text |
| `Classifiers.ExtractDevice` | streamlit_app.py:111-115 | the device is `Mobile` or `Desktop`, and `Mobile` exactly when one of Mobile, Android, iPhone, iPad occurs |
| `Classifiers.GeolocateIp` | streamlit_app.py:117-129 | the country is one of the six labels; it is `Otros` exactly when no prefix starts the IP; otherwise it is the country of the first prefix in table order |
| `Classifiers.ArgentinaPrefix` | streamlit_app.py:119 | every `200.81` address is Argentina |
| `Classifiers.BrasilPrefix` | streamlit_app.py:122 | every `200.1` address is Brasil, because no earlier prefix can start it |
| `Classifiers.UruguayPrefix` | streamlit_app.py:124 | every `200.32` address is Uruguay: the last rule is reachable |
| `Classifiers.ChilePrefixes` | streamlit_app.py:120-121 | both `190.` and `181.` addresses are Chile |
| `StaticResources.IsStatic` | streamlit_app.py:137 | a missing URL is never static (`na=False`); for a present URL, `StaticIff` states exactly when it is |
| `StaticResources.SearchIff` | streamlit_app.py:137 | the left-to-right regex search succeeds exactly when some alternative matches at some position |
| `StaticResources.CompiledExtension` | streamlit_app.py:136-137 | an extension's compiled pattern matches exactly when a non-newline character is followed by the extension's letters in any case |
| `StaticResources.StaticIff` | streamlit_app.py:136-137 | `es_estatico` holds exactly when the URL is present and some extension's letters follow some non-newline character anywhere in it |
| `StaticResources.StaticExamples` | streamlit_app.py:137 | `/x/IMG.JPG`, `/xcss`, `/data.json` and `/jsonapi` are static; a missing URL is not |
| `StaticResources.NotStaticExamples` | streamlit_app.py:137 | `css` alone and `/home` are not static |
| `Timestamps.ClockConversion` | streamlit_app.py:132 | `%I` with `%p` and the 24-hour hour correspond one to one: 12AM is 0, 12PM is 12, other PM hours add 12 |
| `Timestamps.ParseFecha` | streamlit_app.py:132 | whatever parses is a real calendar date and time of day; anything else is a missing value, not an error |
| `Timestamps.ParseFormat` | streamlit_app.py:132 | every valid timestamp, written in the format, parses back to itself |
| `Timestamps.FormatParse` | streamlit_app.py:132 | every text that parses, with an upper-case AM/PM, is exactly the rendering of its value |
| `Timestamps.SampleFecha` | streamlit_app.py:132 | `25-02-2024 10:30:45AM` parses to 25 February 2024, 10:30:45 |
| `Timestamps.Hora` | streamlit_app.py:146 | the hour is present exactly when the timestamp is, and lies in 0..23 |
| `AccessLog.Normalize` | streamlit_app.py:131-139 | a preprocessed row keeps IP, URL and user agent, and its derived columns are consistent: labels from their sets, an hour in 0..23 exactly when `fecha` parsed, a missing URL never static |
| `AccessLog.NormalizeAll` | streamlit_app.py:144-146 | preprocessing keeps one row per record, and every row is well formed in the sense `Normalize` states |
| `AccessLog.SampleRecord` | streamlit_app.py:131-146 | the sample record is read at hour 10 and located in Argentina |
| `AccessLog.AccessFrame.constructor` | streamlit_app.py:80 | the table read from the records holds exactly those records and no derived column |
| `AccessLog.AccessFrame.Preprocess` | streamlit_app.py:131-139 | every added column holds, row by row, its classifier's value of the row's cells, and the read columns are unchanged |
| `AccessLog.AccessFrame.DeriveHour` | streamlit_app.py:146 | the `hora` column holds the hour of each row's parsed `fecha` |
| `AccessLog.AccessFrame.Rows` | streamlit_app.py:144-146 | after preprocessing, the table's rows are the normalised records |
| `AccessLog.LoadAndPreprocess` | streamlit_app.py:144-146 | the preprocessed table of fresh records equals the row-by-row normalisation of those records |
| `Aggregation.GroupsSpec` | streamlit_app.py:154-158 | the groupby walk builds one group per distinct IP, holding that IP's record count, parsed-timestamp count, distinct URLs and distinct hours |
| `Aggregation.Aggregate` | streamlit_app.py:154-158 | the feature table has one row per distinct IP; `AggregateSpec` states each row's three counts |
| `Aggregation.AggregateSpec` | streamlit_app.py:154-158 | one feature row per distinct IP, with `total_requests` = parsed timestamps, `unique_pages` = distinct non-null URLs and `unique_hours` = distinct non-null hours of that IP |
| `Aggregation.GroupsBounded` | streamlit_app.py:154-158 | over preprocessed rows every group keeps requests ≤ records, pages ≤ records and hours ≤ requests |
| `Aggregation.FeatureBounds` | streamlit_app.py:154-158 | `unique_hours <= total_requests <= records of the IP` and `unique_pages <= records of the IP` |
| `Aggregation.CountSkipsUnparsedFecha` | streamlit_app.py:155 | one request with an unparseable `fecha` gives `total_requests` 0 beside `unique_pages` 1 |
| `Aggregation.Insert` | streamlit_app.py:154 | inserting into the ascending distinct index keeps it ascending and adds exactly the new IP |
| `Aggregation.IpIndex` | streamlit_app.py:154 | the groupby index is strictly ascending and lists exactly the distinct IPs |
| `Aggregation.IndexSize` | streamlit_app.py:167 | index entries, feature rows and distinct IPs are equally many |
| `Aggregation.AnomalyFlag` | streamlit_app.py:164 | the flag is 0 or 1, and 1 exactly for the verdict -1 |
| `Aggregation.AnomalyColumn` | streamlit_app.py:164 | one flag per verdict, in order, each 1 exactly for the verdict -1 (`AnomalyFlag`) |
| `Aggregation.AnomalyColumnCount` | streamlit_app.py:164 | the column holds as many ones as there were -1 verdicts, and zeros for the rest |
| `Aggregation.FlaggedCount` | streamlit_app.py:489 | the number of distinct IPs flagged 1 equals the number of rows flagged 1 |
| `Aggregation.FeatureTable.constructor` | streamlit_app.py:154-158 | the feature table holds the sorted index and the aggregated rows, and no anomaly column yet |
| `Aggregation.FeatureTable.MarkAnomalies` | streamlit_app.py:164 | `es_anomalia` is assigned along the index, one flag per verdict, and the rest of the table is unchanged |
| `Aggregation.FeatureTable.Suspicious` | streamlit_app.py:489 | the suspicious IPs are feature-table IPs, as many as the rows flagged 1 |
| `Metrics.MeanPercent` | streamlit_app.py:169 | `mean() * 100` is NaN exactly for an empty column; otherwise it times the length is 100 times the sum |
| `Metrics.SumOfFlags` | streamlit_app.py:172 | a 0/1 column sums to its number of ones, at most its length |
| `Metrics.FlagShare` | streamlit_app.py:172 | the percentage mean of a non-empty 0/1 column is 100 × ones / length, in [0, 100] |
| `Metrics.IndicatorCount` | streamlit_app.py:169 | the ones of `column == v` are exactly the cells equal to `v` |
| `Metrics.MobileShare` | streamlit_app.py:169 | the mobile share is NaN exactly for an empty table; `MobileShareSpec` states its value |
| `Metrics.MobileShareSpec` | streamlit_app.py:169 | the mobile share is NaN exactly for an empty table; otherwise 100 × mobile rows / rows, in [0, 100] |
| `Metrics.Leader` | streamlit_app.py:170 | the chosen candidate is at least as frequent as every candidate, and smallest among the equally frequent |
| `Metrics.Mode` | streamlit_app.py:170-171 | `N/A` for an empty column, otherwise a most frequent value, the smallest of those tied |
| `Metrics.ModeUnique` | streamlit_app.py:170-171 | any value that is most frequent and smallest among the tied is the mode |
| `Metrics.FilterSomeCount` | streamlit_app.py:224 | dropping null hours keeps every hour's number of rows |
| `Metrics.TraficoPorHora` | streamlit_app.py:224 | the hourly series is keyed by exactly the hours that occur; `TraficoPorHoraSpec` states the counts |
| `Metrics.TraficoPorHoraSpec` | streamlit_app.py:224 | the hourly series has one entry per hour that occurs, counting the rows at that hour |
| `Metrics.Busiest` | streamlit_app.py:486 | the chosen hour has the most rows, and is the earliest of the hours that have as many |
| `Metrics.PeakHour` | streamlit_app.py:486 | no peak exactly when no timestamp parsed; otherwise the hour with most rows, the earliest on a tie |
| `Metrics.PeakHourSpec` | streamlit_app.py:486 | over preprocessed rows the peak lies in 0..23, is a key of the hourly series, and has maximal traffic with ties to the earliest hour |
| `Metrics.PageColumn` | streamlit_app.py:327 | the counted URLs are exactly the present URLs of non-static rows; `PageColumnCount` states how often each occurs |
| `Metrics.RequestsSnoc` | streamlit_app.py:327 | one more row adds one request for its URL when it is non-static, and none otherwise |
| `Metrics.PageColumnCount` | streamlit_app.py:327 | each URL occurs in the counted column once per non-static row that requests it, which is what `value_counts` counts |
| `Metrics.Dedup` | streamlit_app.py:327 | the distinct values, each once, and no others |
| `Metrics.InsertByVisits` | streamlit_app.py:327 | inserting by visit count keeps the list most-visited-first and adds exactly one entry |
| `Metrics.SortByVisits` | streamlit_app.py:327 | the `value_counts` order is a permutation of its input, most visited first |
| `Metrics.Ranking` | streamlit_app.py:327 | the ranked URLs are distinct, most visited first, and exactly the non-static URLs |
| `Metrics.TopPages` | streamlit_app.py:327 | `head(10)` keeps the first min(10, n) ranked URLs, each with its visit count |
| `Metrics.TopPagesOrdered` | streamlit_app.py:327 | the listed URLs are distinct non-static URLs, each paired with the number of non-static rows requesting it, in non-increasing order of that count |
| `Metrics.TopPagesComplete` | streamlit_app.py:327 | a non-static URL left out means ten are listed, each visited at least as often as it |
| `Metrics.Shorten` | streamlit_app.py:336 | a label of at most 50 characters is unchanged; a longer one becomes its first 50 characters followed by `...` |
| `Metrics.ShortenIdempotent` | streamlit_app.py:336 | shortening a shortened label changes nothing |
| `Metrics.ShortenedLabels` | streamlit_app.py:336 | one label per listed page, each at most 53 characters and the shortening of its URL |
| `Metrics.SuspiciousCount` | streamlit_app.py:489 | for a 0/1 column, the suspicious count is at most the rows, and the anomaly percentage times the rows is 100 times the count |
| `Metrics.Metricas` | streamlit_app.py:166-173 | as many unique users as feature rows and index entries, one request per row; the shares and modes are those whose meaning `MobileShareSpec`, `FlagShare`/`SuspiciousCount` and `Mode` state |
| `Dashboard.Analyze` | streamlit_app.py:144-173 | the pipeline's figures are the model's functions of the normalised records and flags; the suspicious count equals the number of -1 verdicts; the peak hour lies in 0..23 |

## Left out

- File upload, `pd.read_json`, CSV export and download (lines 77-80, 447-468): I/O. Records enter the model as a sequence of `RawRecord`.
- Page layout, CSS, markdown, metric cards and all chart rendering (lines 20-70, 176-405 apart from the counting expressions modelled): presentation only.
- `StandardScaler`, `IsolationForest` and `KMeans` (lines 160-163, 387-390): seeded floating-point numerics. The detector's verdicts are an input to `FeatureTable.MarkAnomalies` and `Dashboard.Analyze`, one per feature row. Cluster ids are not modelled.
- `dia_semana` (line 147) is not part of this model: no metric or chart reads it; it only reaches the processed-data CSV export (line 455), which is I/O.
- `datetime.now()` in the executive summary (line 475): a clock read, used only for display.
- A `url` cell that is present but not text (a number, say) is read as a missing URL (`None`). In the source such a cell is not static (`na=False`), but `nunique` (line 156) and `value_counts` (line 327) count it, and `len(label)` (line 336) raises on it. The model therefore undercounts `unique_pages` and leaves such a cell out of the page ranking.
- Records with a missing `IP` or `user_agent`: in the source the classifiers then raise, so the model types both as text.
- Percentages are `real`, not binary floating point, so rounding is not modelled.
- Timestamps.ParseFecha: accepts only the fixed-width form (two-digit day, month, hour, minute and second, four-digit year, ASCII digits, single separators). pandas' more lenient reading of the same format, such as one-digit fields, is not modelled, and neither is its nanosecond timestamp range.
- StaticResources.StaticIff: case is folded for ASCII letters only. Python's `re.IGNORECASE` also folds a few non-ASCII characters onto ASCII letters, such as the long s and the dotless i.
- Metrics.TopPagesOrdered: does not state the order among URLs with equal visit counts. The model keeps them in order of first occurrence, but pandas' `value_counts` does not promise any tie order.
- Dashboard.Analyze: requires one verdict per distinct IP. This is what the detector returns for the feature table.
