# ADS-B flight engine, modelled in Dafny

The repository turns ADS-B position reports (one row per report: `icao24`,
`callsign`, `timestamp`, `latitude`, `longitude`, `altitude`,
`vertical_rate`) into flight episodes, classifies each episode as a landing or
a takeoff, extracts its plottable trajectory, cuts that trajectory to a square
window around Paris in Lambert-93 coordinates, and, in the Grafana variant,
exports trajectories and flight summaries to two databases.

The engine exists in three near-identical copies:
`ILEMS2025_ECE_6ILM4_TA_Bleicher_Cusseau.py` (`FlightCollection`, `Flight`),
`ILEMS2025_ECE_6ILM4_TA_Bleicher_Cusseau_OO.py` (the same two classes) and
`ILEMS2025_ECE_6ILM4_TA_Bleicher_Cusseau_GRAFANA.py` (`FlightCollectionGrafana`,
`FlightGrafana`). It is modelled once; where the copies differ the model is
parameterised or gives both versions:

- identity of a flight: `Flight.callsign` / `Flight.icao24` are the pandas
  minimum of the column (`Episode.LeastPresent`), `FlightGrafana`'s are the
  first non-null value in row order (`Episode.FirstPresent`);
- only `FlightGrafana` caches its trajectory (`Grafana.FlightGrafana`), can
  summarise itself and can export.

Modules, one per component of the engine:

| file | module | models |
|---|---|---|
| records.dfy | `Records` | the row, with `Option` for every nullable cell |
| ordering.dfy | `Ordering` | Python string order and the tuple order of group keys |
| sequences.dfy | `Sequences` | order-preserving filtering, sub-sequences |
| segmenter.dfy | `Segmenter` | `iterate_time` |
| grouper.dfy | `Grouper` | `groupby` on (icao24, callsign) and on icao24, `filter_by_icao24_only` |
| episode.dfy | `Episode` | ranges, classifiers, trajectory, start/end time, identity, `__lt__` |
| projector.dfy | `Projector` | the projection window of `to_geopandas` |
| collection.dfy | `Collection` | `__iter__`, `__len__`, `__getitem__`, the filters, `get_statistics` |
| grafana.dfy | `Grafana` | `FlightGrafana` with its cache, the summary, the exports and their tally |

Modelling choices:

- Timestamps are integer seconds; altitude and vertical rate are integers;
  latitude and longitude are reals. A null cell is `None`. The classifiers
  only compare altitude and vertical rate with integer thresholds, so integers
  decide them as the source does; the flight summary, however, reports the
  extremes themselves, which the source keeps as floats.
- pandas `groupby` leaves out every row whose key has a null column and visits
  the groups in ascending key order (keys compared as Python strings, pairs
  lexicographically), keeping table order inside each group.
- `iterate_time` is modelled as written: it does not sort, the row at each
  split index goes into no run, two adjacent splits produce an empty run, and
  an empty input yields one empty run. So the generator neither sorts its
  input nor yields every row: the runs put back together are the input
  without the rows at split indices
  (`Segmenter.SegmentsDropOnlySplitRows`, `Segmenter.AdjacentSplitsGiveEmptyRun`).
  For the same reason the episodes do not partition the table: rows with a
  null icao24 or callsign and rows at split indices of their group are in
  none, and every other row is in exactly one (`Collection.EpisodesCoverGroups`,
  `Grouper.GroupByPartitions`).
- The coordinate transform (pyproj, EPSG:4326 to EPSG:2154) is a parameter:
  any function from (longitude, latitude) to (x, y).
- The two databases are represented only by whether each write succeeds:
  parameters of `FlightGrafana.ExportToGrafana`, chosen freely in
  `ExportAllToGrafana`.

## Model

| member | source | states |
|---|---|---|
| Segmenter.SplitsFrom | ILEMS2025_ECE_6ILM4_TA_Bleicher_Cusseau_GRAFANA.py:61 | the split indices are exactly the i >= 1 whose timestamp exceeds the previous one by more than the threshold, strictly increasing |
| Segmenter.RunsFrom | ILEMS2025_ECE_6ILM4_TA_Bleicher_Cusseau_GRAFANA.py:62-66 | slicing between cuts yields one run more than there are cuts |
| Segmenter.IterateTime | ILEMS2025_ECE_6ILM4_TA_Bleicher_Cusseau_GRAFANA.py:54-66 | the loop that advances `start = stop + 1` yields exactly the runs of the split specification |
| Segmenter.RunsAreSlices | ILEMS2025_ECE_6ILM4_TA_Bleicher_Cusseau_GRAFANA.py:62-66 | run k is the contiguous slice from just after split k-1 up to split k, in input order |
| Segmenter.Segments | ILEMS2025_ECE_6ILM4_TA_Bleicher_Cusseau_GRAFANA.py:54-66 | every run yielded is made of input rows, and inside every run no two neighbouring rows are more than the threshold apart |
| Segmenter.SegmentsDropOnlySplitRows | ILEMS2025_ECE_6ILM4_TA_Bleicher_Cusseau.py:58-64 | the runs put back together are the input without the rows at split indices |
| Segmenter.SegmentsTotalLength | ILEMS2025_ECE_6ILM4_TA_Bleicher_Cusseau_GRAFANA.py:62-66 | total run length is the input length minus the number of split indices |
| Segmenter.SegmentsCount | ILEMS2025_ECE_6ILM4_TA_Bleicher_Cusseau_GRAFANA.py:61-66 | number of runs is one more than the number of rows whose gap to the previous row exceeds the threshold, counted as a set of row indices |
| Segmenter.AdjacentSplitsGiveEmptyRun | ILEMS2025_ECE_6ILM4_TA_Bleicher_Cusseau_GRAFANA.py:62-66 | two gaps at consecutive indices produce an empty run |
| Segmenter.FirstRunStartsAtFirstRow | ILEMS2025_ECE_6ILM4_TA_Bleicher_Cusseau_GRAFANA.py:61-64 | the first row never starts a split: the first run begins at row 0 |
| Segmenter.SegmentsOfShortInputs | ILEMS2025_ECE_6ILM4_TA_Bleicher_Cusseau_OO.py:68-74 | an empty input yields one empty run; a one-row input yields one run equal to the input |
| Grouper.GroupKeys | ILEMS2025_ECE_6ILM4_TA_Bleicher_Cusseau_GRAFANA.py:68-71 | the group keys are exactly the non-null keys present, strictly ascending |
| Grouper.GroupBy | ILEMS2025_ECE_6ILM4_TA_Bleicher_Cusseau.py:67-69 | one group per key, in key order, holding the rows of that key in table order |
| Grouper.GroupByPartitions | ILEMS2025_ECE_6ILM4_TA_Bleicher_Cusseau_OO.py:77-79 | groups are non-empty ordered sub-sequences sharing their key; every row with a non-null key is in its group; rows with a null key are in none |
| Grouper.FilterByIcao24Only | ILEMS2025_ECE_6ILM4_TA_Bleicher_Cusseau_GRAFANA.py:433-437 | exactly the icao24 groups with at least two rows, in key order |
| Grouper.FlightsCountSharedIcao24s | ILEMS2025_ECE_6ILM4_TA_Bleicher_Cusseau.py:107-111 | the flights of `filter_by_icao24_only` are exactly as many as the icao24 values that at least two rows carry |
| Grouper.Icao24FlightsAreWholeAircraft | ILEMS2025_ECE_6ILM4_TA_Bleicher_Cusseau.py:107-111 | each such flight holds every row of one aircraft and no other row |
| Episode.ValueRange | ILEMS2025_ECE_6ILM4_TA_Bleicher_Cusseau_GRAFANA.py:205-217 | no range iff every value is null; otherwise min <= max, both attained, all values between |
| Episode.RangeDependsOnlyOnValues | ILEMS2025_ECE_6ILM4_TA_Bleicher_Cusseau_OO.py:187-199 | the range depends only on the multiset of non-null values |
| Episode.IsLanding | ILEMS2025_ECE_6ILM4_TA_Bleicher_Cusseau_GRAFANA.py:219-227 | landing iff some altitude <= ground threshold and some vertical rate <= descent threshold; false when either column is all null |
| Episode.IsTakeoff | ILEMS2025_ECE_6ILM4_TA_Bleicher_Cusseau_GRAFANA.py:229-237 | takeoff iff some altitude <= ground threshold and some vertical rate >= climb threshold |
| Episode.ClassifiersDependOnlyOnValues | ILEMS2025_ECE_6ILM4_TA_Bleicher_Cusseau.py:177-211 | the classifiers depend only on the multisets of altitude and vertical-rate values |
| Episode.ClassifiersIgnoreRowOrder | ILEMS2025_ECE_6ILM4_TA_Bleicher_Cusseau_OO.py:187-221 | reordering the rows changes neither classification |
| Episode.NoAltitudeMeansNeither | ILEMS2025_ECE_6ILM4_TA_Bleicher_Cusseau.py:191-211 | with no altitude the flight is neither landing nor takeoff, for any thresholds |
| Episode.LandingExample | ILEMS2025_ECE_6ILM4_TA_Bleicher_Cusseau.py:191-200 | a concrete descent to 10 ft at -1800 ft/min is a landing |
| Episode.LandingAndTakeoffAtOnce | ILEMS2025_ECE_6ILM4_TA_Bleicher_Cusseau_OO.py:201-221 | one flight can be both a landing and a takeoff |
| Episode.Trajectory | ILEMS2025_ECE_6ILM4_TA_Bleicher_Cusseau.py:213-223 | a time-sorted permutation of exactly the rows with latitude, longitude and altitude |
| Episode.HasValidTrajectory | ILEMS2025_ECE_6ILM4_TA_Bleicher_Cusseau_OO.py:241-243 | true iff at least two rows are complete |
| Episode.StartTime | ILEMS2025_ECE_6ILM4_TA_Bleicher_Cusseau_GRAFANA.py:181-185 | the least timestamp, attained; none for an empty flight |
| Episode.EndTime | ILEMS2025_ECE_6ILM4_TA_Bleicher_Cusseau_GRAFANA.py:174-179 | the greatest timestamp, attained; none for an empty flight |
| Episode.StartsNoLaterThan | ILEMS2025_ECE_6ILM4_TA_Bleicher_Cusseau_OO.py:170-171 | true iff both flights have rows and every row of the second is matched by a row of the first that is no later, i.e. the least start time is no later; false when either flight is empty |
| Episode.LessThanIsNotStrict | ILEMS2025_ECE_6ILM4_TA_Bleicher_Cusseau_OO.py:170-171 | two flights with the same start time are each "less than" the other |
| Episode.FirstPresent | ILEMS2025_ECE_6ILM4_TA_Bleicher_Cusseau_GRAFANA.py:186-197 | the first non-null value in row order, none iff all null |
| Episode.LeastPresent | ILEMS2025_ECE_6ILM4_TA_Bleicher_Cusseau.py:166-175 | the least non-null value in string order, none iff all null |
| Episode.FirstAndLeastDisagree | ILEMS2025_ECE_6ILM4_TA_Bleicher_Cusseau_GRAFANA.py:191-197 | the two identity rules differ on a flight with two callsigns |
| Episode.FirstAndLeastAgreeOnUniform | ILEMS2025_ECE_6ILM4_TA_Bleicher_Cusseau_OO.py:176-185 | the two rules agree when a column has one non-null value |
| Projector.KeepInWindow | ILEMS2025_ECE_6ILM4_TA_Bleicher_Cusseau_GRAFANA.py:330-344 | kept points are exactly the projected trajectory rows inside the 100 km square around (650000, 6860000), in trajectory order, each row as often as it occurs in the trajectory |
| Projector.ProjectTrajectory | ILEMS2025_ECE_6ILM4_TA_Bleicher_Cusseau.py:229-279 | nothing when no point is in the window; otherwise the points, and a line through them iff there are two or more |
| Projector.ToGeopandas | ILEMS2025_ECE_6ILM4_TA_Bleicher_Cusseau_GRAFANA.py:314-363 | the same result shape, stated against the flight's rows: points are complete rows of the flight inside the window, all such rows kept, each as often as it occurs in the flight, line coordinates equal to the points' |
| Projector.EmptyTrajectoryGivesNothing | ILEMS2025_ECE_6ILM4_TA_Bleicher_Cusseau_OO.py:245-252 | a flight without complete rows gives nothing |
| Collection.Episodes | ILEMS2025_ECE_6ILM4_TA_Bleicher_Cusseau.py:84-87 | every episode `__iter__` yields is made of input rows sharing one non-null (icao24, callsign) pair, with no gap above 20000 s between neighbouring rows; at least one episode per group |
| Collection.EpisodesCoverGroups | ILEMS2025_ECE_6ILM4_TA_Bleicher_Cusseau_GRAFANA.py:406-409 | the episodes put back together are, in order, the (icao24, callsign) groups in key order, each without the rows at its own split indices: every such row in exactly one episode, no other row in any |
| Collection.EpisodeIdentityRulesAgree | ILEMS2025_ECE_6ILM4_TA_Bleicher_Cusseau_GRAFANA.py:406-409 | on those episodes the first-non-null and the minimum identity coincide |
| Collection.Len | ILEMS2025_ECE_6ILM4_TA_Bleicher_Cusseau_GRAFANA.py:411-412 | at least one episode per (icao24, callsign) group; zero iff no row has both an icao24 and a callsign |
| Collection.GetItem | ILEMS2025_ECE_6ILM4_TA_Bleicher_Cusseau.py:92-105 | keeps, in order, exactly the rows whose callsign or icao24 equals the string, or whose timestamp is strictly inside the day after the instant, each as often as it occurs in the input; a bare flight iff one episode; unbound for other keys |
| Collection.GetItemOneFlightIsOneGroup | ILEMS2025_ECE_6ILM4_TA_Bleicher_Cusseau_OO.py:102-115 | a bare flight comes back only when the selection is one (icao24, callsign) group without a gap above 20000 s |
| Collection.KeepFlights | ILEMS2025_ECE_6ILM4_TA_Bleicher_Cusseau.py:115-127 | the append loop of both filters keeps, in order, exactly the flights that pass the test |
| Collection.FilterLandings | ILEMS2025_ECE_6ILM4_TA_Bleicher_Cusseau_GRAFANA.py:439-445 | the order-preserving sub-list of `filter_by_icao24_only` of landings with at least two trajectory points, all of them |
| Collection.FilterTakeoffs | ILEMS2025_ECE_6ILM4_TA_Bleicher_Cusseau.py:121-127 | the same for takeoffs |
| Collection.CountFlights | ILEMS2025_ECE_6ILM4_TA_Bleicher_Cusseau_GRAFANA.py:457-466 | the counter loop: total is the number of flights, each other counter the number of flights passing its classifier |
| Collection.GetStatistics | ILEMS2025_ECE_6ILM4_TA_Bleicher_Cusseau_OO.py:139-156 | total is the number of multi-row icao24 groups, which is the number of icao24 values carried by at least two rows; landings and takeoffs count the classifier alone and are at most the total |
| Collection.StatisticsBoundFilters | ILEMS2025_ECE_6ILM4_TA_Bleicher_Cusseau_GRAFANA.py:433-472 | the landing (takeoff) counter is at least the length of `filter_landings` (`filter_takeoffs`) |
| Collection.BothCountersRise | ILEMS2025_ECE_6ILM4_TA_Bleicher_Cusseau_OO.py:145-150 | a flight that is both landing and takeoff raises both counters |
| Collection.StatisticsIgnoreTrajectory | ILEMS2025_ECE_6ILM4_TA_Bleicher_Cusseau.py:113-146 | appending a landing with fewer than two complete rows raises the landing counter by one and leaves `filter_landings` unchanged |
| Grafana.TrajectoryEnds | ILEMS2025_ECE_6ILM4_TA_Bleicher_Cusseau_GRAFANA.py:288-291 | the first and last trajectory rows are complete rows of the flight with the earliest and the latest timestamp among complete rows |
| Grafana.Endpoint | ILEMS2025_ECE_6ILM4_TA_Bleicher_Cusseau_GRAFANA.py:288-291 | first and last position of the sorted trajectory: those of an earliest and a latest complete row, none iff no complete row |
| Grafana.Summary | ILEMS2025_ECE_6ILM4_TA_Bleicher_Cusseau_GRAFANA.py:268-292 | start <= end bound every timestamp and are attained; point count is the number of complete rows; ranges and landing/takeoff flags are those of the flight, so a landing reports a minimum altitude <= 100 and a takeoff a maximum rate >= 3000; first and last positions are those of an earliest and a latest complete row; identity by first non-null |
| Grafana.LandingTakeoffRanges | ILEMS2025_ECE_6ILM4_TA_Bleicher_Cusseau_GRAFANA.py:219-237 | a landing has a defined altitude range with minimum <= 100; a takeoff a vertical-rate range with maximum >= 3000 |
| Grafana.FlightGrafana.constructor | ILEMS2025_ECE_6ILM4_TA_Bleicher_Cusseau_GRAFANA.py:160-163 | a new flight has an empty cache |
| Grafana.FlightGrafana.GetTrajectory | ILEMS2025_ECE_6ILM4_TA_Bleicher_Cusseau_GRAFANA.py:239-262 | returns the trajectory and caches it; a filled cache is returned unchanged |
| Grafana.FlightGrafana.HasValidTrajectory | ILEMS2025_ECE_6ILM4_TA_Bleicher_Cusseau_GRAFANA.py:264-266 | true iff at least two complete rows; fills the cache |
| Grafana.FlightGrafana.GetFlightSummary | ILEMS2025_ECE_6ILM4_TA_Bleicher_Cusseau_GRAFANA.py:268-292 | the summary of the flight's rows; fills the cache |
| Grafana.FlightGrafana.ExportToGrafana | ILEMS2025_ECE_6ILM4_TA_Bleicher_Cusseau_GRAFANA.py:294-312 | writes the trajectory and the summary iff an exporter is set and the trajectory is non-empty; true iff both writes succeed; without exporter the cache is untouched |
| Grafana.FlightGrafana.ToGeopandas | ILEMS2025_ECE_6ILM4_TA_Bleicher_Cusseau_GRAFANA.py:314-363 | the projected window of the cached trajectory, line labelled with the first non-null icao24 |
| Grafana.Truncate | ILEMS2025_ECE_6ILM4_TA_Bleicher_Cusseau_GRAFANA.py:482-484 | a prefix; unchanged when the bound is absent or zero; Python slice length for positive and negative bounds |
| Grafana.ExportFlight | ILEMS2025_ECE_6ILM4_TA_Bleicher_Cusseau_GRAFANA.py:489-505 | one step of the export loop: skipped iff the flight has no valid trajectory, otherwise exported or failed |
| Grafana.ExportFlights | ILEMS2025_ECE_6ILM4_TA_Bleicher_Cusseau_GRAFANA.py:488-505 | skipped counts the flights without a valid trajectory, exported plus failed those with one |
| Grafana.ExportAllToGrafana | ILEMS2025_ECE_6ILM4_TA_Bleicher_Cusseau_GRAFANA.py:474-507 | skipped counts the flights without a valid trajectory, exported plus failed the others, and the three add up to the number of flights after truncation |

## Left out

- Loading data (`read_json`, `read_jsonl_gz`), the module-level script cells (shapefiles, plotting, histograms, CSV and requirements writers) and the legacy cells that use undefined names: file I/O, rendering and floating point.
- `GrafanaExporter`, `setup_grafana_databases`, `create_grafana_dashboard_config`, `check_data_file_exists` and `stream_to_grafana`: database clients, configuration, the filesystem and sleeping. A database write is a boolean outcome.
- The pyproj transform and the GeoDataFrame, Point and LineString objects: the transform is a parameter, the geometries are sequences of pairs.
- `__repr__`, `flight_id` and `duration_minutes`: string formatting and float minutes; the summary carries the duration in seconds instead.
- Datetime conversion: timestamps are integer seconds throughout, so `to_datetime(unit='s')` and the one-day `timedelta` are integer arithmetic. Only the Grafana copy of `iterate_time` converts the timestamp column first (ILEMS2025_ECE_6ILM4_TA_Bleicher_Cusseau_GRAFANA.py:57-59); the other two copies call `.dt.total_seconds()` on the column as loaded, numbers in those scripts, where `__iter__`, `__len__` and `__getitem__` would raise instead. The model gives all three copies the converted behaviour.
- `pd.to_numeric(errors='coerce')` in the Grafana ranges: a non-numeric altitude or rate is modelled as null; the other copies would raise on it, which the model does not capture.
- Null timestamps: every row carries an integer timestamp. In the source a null timestamp gives a NaN difference, which never exceeds the threshold and so never splits, and pandas skips it in the minimum and maximum of the start and end times; the model has no such row.
- Episode.LeastPresent: the minimum of an icao24 or callsign column that mixes nulls with strings is taken over the non-null strings; pandas may instead raise a TypeError comparing a null with a string on such an object column. Episodes of `__iter__` hold no null icao24 or callsign, so they cannot reach this; a bare flight returned by `__getitem__`, or a flight of `filter_by_icao24_only` asked for its callsign, can.
- Extra columns (`ground_speed`, `timestamp_dt`, `x_lambert`, `y_lambert`) are not carried on rows.
- Episode.Trajectory: `sort_values` uses an unstable quicksort; the model sorts stably, so the order of rows with equal timestamps is not pinned down to pandas'; the proved properties (sorted, permutation of the complete rows) hold for any sort.
- Grafana.Summary: the reported altitude and vertical-rate extremes are integers, whereas the source reports the float values of the columns, so a fractional altitude or rate is not represented.
- Grafana.Summary and Grafana.FlightGrafana.GetFlightSummary: require a flight with at least one row, since `flight_id` formats the start time and fails on an empty flight.
- Grafana.FlightGrafana.ExportToGrafana: requires at least one row only when an exporter is set; without one the source returns False before reaching `flight_id`, and so does the model, empty flight included. With an exporter an empty flight has no trajectory, and the source then fails formatting `flight_id` for its message.
- Grafana.ExportAllToGrafana: an exception raised during one export is counted as a failure, like a failed write; both are the free choice of outcome in the model. Progress messages are not modelled.
- Collection.GetItem: a key of another type makes the source fail on an unbound local; the model returns `Unbound` instead of raising.
