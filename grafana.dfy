/** `FlightGrafana` and the export loop of `FlightCollectionGrafana`. The
    flight object caches its trajectory on first use; the two databases are
    represented only by whether each write succeeds. */
module Grafana {
  import opened Records
  import opened Sequences
  import Grouper
  import Episode
  import Projector

  /** The metadata record a flight sends to the relational database. The
      textual flight id and the float duration in minutes are not carried;
      `durationSeconds` is the difference they are computed from. */
  datatype FlightSummary = FlightSummary(
    icao24: Option<string>,
    callsign: Option<string>,
    startTime: int,
    endTime: int,
    durationSeconds: int,
    totalPoints: nat,
    altitude: Option<Range>,
    verticalRate: Option<Range>,
    isLanding: bool,
    isTakeoff: bool,
    start: Option<(real, real)>,
    end: Option<(real, real)>)

  /** Latitude and longitude of a complete row. */
  function Position(r: Record): (real, real)
    requires Episode.Complete(r)
  {
    (r.latitude.value, r.longitude.value)
  }

  /** Whether the row comes first (`earliest`) or last among the complete rows of `data`. */
  predicate Extreme(data: seq<Record>, x: Record, earliest: bool)
  {
    forall y :: y in data && Episode.Complete(y) ==>
      if earliest then x.timestamp <= y.timestamp else y.timestamp <= x.timestamp
  }

  /** The first row of the sorted trajectory is an earliest complete row, its
      last row a latest one. */
  lemma TrajectoryEnds(data: seq<Record>)
    ensures var t := Episode.Trajectory(data);
      |t| > 0 ==> t[0] in data && t[|t| - 1] in data && Episode.Complete(t[0]) && Episode.Complete(t[|t| - 1])
    ensures var t := Episode.Trajectory(data);
      |t| > 0 ==> Extreme(data, t[0], true) && Extreme(data, t[|t| - 1], false)
  {
    var t := Episode.Trajectory(data);
    if |t| > 0 {
      assert t[0] in t && t[|t| - 1] in t;
      forall y | y in data && Episode.Complete(y)
        ensures t[0].timestamp <= y.timestamp <= t[|t| - 1].timestamp
      {
        SortedEnds(t, y);
      }
    }
  }

  /** In a time-sorted sequence the first row is earliest and the last latest. */
  lemma SortedEnds(t: seq<Record>, y: Record)
    requires Episode.SortedByTime(t) && y in t
    ensures t[0].timestamp <= y.timestamp <= t[|t| - 1].timestamp
  {
    var k :| 0 <= k < |t| && t[k] == y;
    if 0 < k {
      assert t[0].timestamp <= t[k].timestamp;
    }
    if k < |t| - 1 {
      assert t[k].timestamp <= t[|t| - 1].timestamp;
    }
  }

  /** `trajectory.iloc[0]` (`earliest`) or `trajectory.iloc[-1]`: the position of
      an earliest (latest) complete row, or nothing when there is none. */
  function Endpoint(data: seq<Record>, earliest: bool): (p: Option<(real, real)>)
    ensures p.Some? <==> |Filter(data, Episode.Complete)| > 0
    ensures p.Some? ==> exists x :: x in data && Episode.Complete(x) && Position(x) == p.value && Extreme(data, x, earliest)
  {
    var t := Episode.Trajectory(data);
    TrajectoryEnds(data);
    if |t| == 0 then None
    else if earliest then Some(Position(t[0]))
    else Some(Position(t[|t| - 1]))
  }

  /** `get_flight_summary`: identity by first non-null value, time span of all
      rows, ranges and classifications of the flight, and the first and last
      position of the time-sorted trajectory. The flight id needs a start time,
      so the flight must have a row. */
  function Summary(data: seq<Record>): (s: FlightSummary)
    requires |data| > 0
    ensures s.startTime <= s.endTime && s.durationSeconds == s.endTime - s.startTime
    ensures forall x :: x in data ==> s.startTime <= x.timestamp <= s.endTime
    ensures exists x :: x in data && x.timestamp == s.startTime
    ensures exists x :: x in data && x.timestamp == s.endTime
    ensures s.totalPoints == |Filter(data, Episode.Complete)|
    ensures s.start.Some? <==> s.totalPoints > 0
    ensures s.end.Some? <==> s.totalPoints > 0
    ensures s.start.Some? ==> exists x :: x in data && Episode.Complete(x) && Position(x) == s.start.value && Extreme(data, x, true)
    ensures s.end.Some? ==> exists x :: x in data && Episode.Complete(x) && Position(x) == s.end.value && Extreme(data, x, false)
    ensures s.altitude == Episode.ValueRange(data, Altitude) && s.verticalRate == Episode.ValueRange(data, VerticalRate)
    ensures s.isLanding == Episode.IsDefaultLanding(data) && s.isTakeoff == Episode.IsDefaultTakeoff(data)
    ensures s.isLanding ==> s.altitude.Some? && s.altitude.value.lo <= Episode.GroundAltitude
    ensures s.isTakeoff ==> s.verticalRate.Some? && s.verticalRate.value.hi >= Episode.ClimbRate
    ensures s.icao24 == Episode.FirstPresent(data, Icao24) && s.callsign == Episode.FirstPresent(data, Callsign)
  {
    var lo := Episode.StartTime(data).value;
    var hi := Episode.EndTime(data).value;
    LandingTakeoffRanges(data);
    FlightSummary(
      Episode.FirstPresent(data, Icao24), Episode.FirstPresent(data, Callsign),
      lo, hi, hi - lo, |Episode.Trajectory(data)|,
      Episode.ValueRange(data, Altitude), Episode.ValueRange(data, VerticalRate),
      Episode.IsDefaultLanding(data), Episode.IsDefaultTakeoff(data),
      Endpoint(data, true), Endpoint(data, false))
  }

  /** A landing reports a minimum altitude at most 100 ft; a takeoff a maximum
      vertical rate of at least 3000 ft/min. */
  lemma LandingTakeoffRanges(data: seq<Record>)
    ensures Episode.IsDefaultLanding(data) ==>
      Episode.ValueRange(data, Altitude).Some? && Episode.ValueRange(data, Altitude).value.lo <= Episode.GroundAltitude
    ensures Episode.IsDefaultTakeoff(data) ==>
      Episode.ValueRange(data, VerticalRate).Some? && Episode.ValueRange(data, VerticalRate).value.hi >= Episode.ClimbRate
  {
    if Episode.IsDefaultLanding(data) {
      var x :| x in data && NumericCell(x, Altitude).Some? && NumericCell(x, Altitude).value <= Episode.GroundAltitude;
    }
    if Episode.IsDefaultTakeoff(data) {
      var x :| x in data && NumericCell(x, VerticalRate).Some? && NumericCell(x, VerticalRate).value >= Episode.ClimbRate;
    }
  }

  /** One flight episode with its exporter and its trajectory cache. */
  class FlightGrafana {
    const data: seq<Record>
    /** Whether an exporter was configured; the collection always supplies one. */
    const hasExporter: bool
    var trajectoryCache: Option<seq<Record>>

    /** A filled cache holds the trajectory of the flight's rows. */
    ghost predicate Valid()
      reads this
    {
      trajectoryCache.Some? ==> trajectoryCache.value == Episode.Trajectory(data)
    }

    constructor(data: seq<Record>, hasExporter: bool)
      ensures this.data == data && this.hasExporter == hasExporter
      ensures trajectoryCache.None? && Valid()
    {
      this.data := data;
      this.hasExporter := hasExporter;
      trajectoryCache := None;
    }

    /** `get_trajectory`: the cached frame when there is one, otherwise the
        complete rows sorted by time, which are then cached. */
    method GetTrajectory() returns (t: seq<Record>)
      requires Valid()
      modifies this
      ensures Valid() && trajectoryCache == Some(t)
      ensures t == Episode.Trajectory(data)
      ensures old(trajectoryCache).Some? ==> t == old(trajectoryCache).value
    {
      if trajectoryCache.Some? {
        return trajectoryCache.value;
      }
      t := Episode.Trajectory(data);
      trajectoryCache := Some(t);
    }

    /** `has_valid_trajectory`: more than one trajectory point. */
    method HasValidTrajectory() returns (b: bool)
      requires Valid()
      modifies this
      ensures Valid() && trajectoryCache == Some(Episode.Trajectory(data))
      ensures b <==> |Filter(data, Episode.Complete)| >= 2
    {
      var t := GetTrajectory();
      b := |t| > 1;
    }

    /** `get_flight_summary`. */
    method GetFlightSummary() returns (s: FlightSummary)
      requires Valid() && |data| > 0
      modifies this
      ensures Valid() && trajectoryCache == Some(Episode.Trajectory(data))
      ensures s == Summary(data)
    {
      var t := GetTrajectory();
      s := Summary(data);
    }

    /** `export_to_grafana`: nothing is written without an exporter or without
        trajectory points; otherwise the trajectory goes to the time-series
        database and the summary to the relational one, both writes are
        attempted, and the result is true only when both succeed. */
    method ExportToGrafana(influxOk: bool, postgresOk: bool)
      returns (ok: bool, written: Option<(seq<Record>, FlightSummary)>)
      requires Valid() && (hasExporter ==> |data| > 0)
      modifies this
      ensures Valid()
      ensures !hasExporter ==> trajectoryCache == old(trajectoryCache)
      ensures hasExporter ==> trajectoryCache == Some(Episode.Trajectory(data))
      ensures written.Some? <==> hasExporter && |Filter(data, Episode.Complete)| > 0
      ensures written.Some? ==> written.value == (Episode.Trajectory(data), Summary(data))
      ensures ok <==> written.Some? && influxOk && postgresOk
    {
      if !hasExporter {
        return false, None;
      }
      var t := GetTrajectory();
      if |t| == 0 {
        return false, None;
      }
      var s := GetFlightSummary();
      written := Some((t, s));
      ok := influxOk && postgresOk;
    }

    /** `to_geopandas`: the trajectory projected, cut to the window around
        Paris, with a line when two or more points remain; the line carries
        the flight's first non-null icao24. */
    method ToGeopandas(transform: (real, real) -> (real, real)) returns (g: Option<Projector.GeoFrame>)
      requires Valid()
      modifies this
      ensures Valid() && trajectoryCache == Some(Episode.Trajectory(data))
      ensures g == Projector.ToGeopandas(data, transform, Episode.FirstPresent(data, Icao24))
      ensures g.Some? ==> forall p :: p in g.value.points ==> p.row in data && Episode.Complete(p.row)
    {
      var t := GetTrajectory();
      g := Projector.ProjectTrajectory(t, transform, Episode.FirstPresent(data, Icao24));
    }
  }

  /** `flights[:max_flights]` under `if max_flights:`: no bound or a zero bound
      keeps every flight; otherwise Python slice semantics, where a negative
      bound drops that many flights from the end. */
  function Truncate<T>(flights: seq<T>, maxFlights: Option<int>): (r: seq<T>)
    ensures |r| <= |flights| && r == flights[..|r|]
    ensures maxFlights.None? || maxFlights == Some(0) ==> r == flights
    ensures maxFlights.Some? && maxFlights.value > 0 ==> |r| == if maxFlights.value < |flights| then maxFlights.value else |flights|
    ensures maxFlights.Some? && maxFlights.value < 0 ==> |r| == if |flights| + maxFlights.value > 0 then |flights| + maxFlights.value else 0
  {
    match maxFlights
    case None => flights
    case Some(m) =>
      if m == 0 then flights
      else if m > 0 then (if m < |flights| then flights[..m] else flights)
      else (if |flights| + m > 0 then flights[..|flights| + m] else [])
  }

  datatype ExportTally = ExportTally(exported: nat, failed: nat, skipped: nat)

  predicate NoValidTrajectory(f: seq<Record>)
  {
    !Episode.HasValidTrajectory(f)
  }

  /** What happens to one flight in `export_all_to_grafana`. */
  datatype ExportOutcome = Exported | Failed | Skipped

  /** One iteration of `export_all_to_grafana`: a fresh flight with the
      collection's exporter is skipped without a valid trajectory, otherwise
      exported; whether the databases accept the writes is left open. */
  method ExportFlight(data: seq<Record>) returns (outcome: ExportOutcome)
    ensures outcome.Skipped? <==> !Episode.HasValidTrajectory(data)
  {
    var flight := new FlightGrafana(data, true);
    var valid := flight.HasValidTrajectory();
    if !valid {
      return Skipped;
    }
    assert |data| > 0 by {
      assert |Filter(data, Episode.Complete)| <= |data|;
    }
    var influxOk: bool :| true;
    var postgresOk: bool :| true;
    var ok, _ := flight.ExportToGrafana(influxOk, postgresOk);
    outcome := if ok then Exported else Failed;
  }

  /** The loop of `export_all_to_grafana`: one outcome per flight, tallied. */
  method ExportFlights(flights: seq<seq<Record>>) returns (tally: ExportTally)
    ensures tally.skipped == |Filter(flights, NoValidTrajectory)|
    ensures tally.exported + tally.failed == |Filter(flights, Episode.HasValidTrajectory)|
  {
    var exported: nat, failed: nat, skipped: nat := 0, 0, 0;
    for i := 0 to |flights|
      invariant skipped == |Filter(flights[..i], NoValidTrajectory)|
      invariant exported + failed == |Filter(flights[..i], Episode.HasValidTrajectory)|
    {
      FilterPrefixCount(flights, NoValidTrajectory, i);
      FilterPrefixCount(flights, Episode.HasValidTrajectory, i);
      var outcome := ExportFlight(flights[i]);
      if outcome == Skipped {
        skipped := skipped + 1;
      } else if outcome == Exported {
        exported := exported + 1;
      } else {
        failed := failed + 1;
      }
    }
    assert flights[..|flights|] == flights;
    tally := ExportTally(exported, failed, skipped);
  }

  /** `export_all_to_grafana`: over the (possibly truncated) flights of
      `filter_by_icao24_only`, flights without a valid trajectory are skipped
      and the others exported, each counted as exported or failed depending on
      what the databases answer. */
  method ExportAllToGrafana(rows: seq<Record>, maxFlights: Option<int>) returns (tally: ExportTally)
    ensures var flights := Truncate(Grouper.FilterByIcao24Only(rows), maxFlights);
      && tally.skipped == |Filter(flights, NoValidTrajectory)|
      && tally.exported + tally.failed == |Filter(flights, Episode.HasValidTrajectory)|
      && tally.exported + tally.failed + tally.skipped == |flights|
  {
    var flights := Truncate(Grouper.FilterByIcao24Only(rows), maxFlights);
    tally := ExportFlights(flights);
    FilterSplits(flights, Episode.HasValidTrajectory, NoValidTrajectory);
  }
}
