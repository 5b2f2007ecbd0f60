/** `to_geopandas`: the trajectory is mapped through a caller-supplied planar
    transform (longitude, latitude) -> (x, y), points outside a fixed square
    window around the reference centre are dropped, and the survivors become a
    point set plus, when there are at least two, a line in trajectory order. */
module Projector {
  import opened Records
  import opened Episode
  import opened Sequences

  /** Centre of the window in the planar projection, and its half-width. */
  const CenterX: real := 650000.0
  const CenterY: real := 6860000.0
  const MaxDistance: real := 100000.0

  function Abs(v: real): (r: real)
    ensures r >= 0.0 && (r == v || r == -v)
  {
    if v < 0.0 then -v else v
  }

  /** The mask `|x - 650000| <= 100000 & |y - 6860000| <= 100000`. */
  predicate InWindow(x: real, y: real)
  {
    Abs(x - CenterX) <= MaxDistance && Abs(y - CenterY) <= MaxDistance
  }

  /** A row with the planar coordinates the transform gave it. */
  datatype PlanarPoint = PlanarPoint(row: Record, x: real, y: real)

  /** The trajectory line, tagged with the flight's icao24. */
  datatype Line = Line(icao24: Option<string>, coords: seq<(real, real)>)

  /** The `(points, line)` pair; `line` is None for a single point. */
  datatype GeoFrame = GeoFrame(points: seq<PlanarPoint>, line: Option<Line>)

  predicate Located(r: Record)
  {
    r.latitude.Some? && r.longitude.Some?
  }

  function Project(r: Record, transform: (real, real) -> (real, real)): PlanarPoint
    requires Located(r)
  {
    var xy := transform(r.longitude.value, r.latitude.value);
    PlanarPoint(r, xy.0, xy.1)
  }

  predicate ProjectsInWindow(r: Record, transform: (real, real) -> (real, real))
    requires Located(r)
  {
    InWindow(Project(r, transform).x, Project(r, transform).y)
  }

  function RowsOf(points: seq<PlanarPoint>): (rs: seq<Record>)
    ensures |rs| == |points| && forall i :: 0 <= i < |points| ==> rs[i] == points[i].row
  {
    seq(|points|, i requires 0 <= i < |points| => points[i].row)
  }

  /** The mask, on any row: it has a position and that position projects into the window. */
  predicate Visible(r: Record, transform: (real, real) -> (real, real))
  {
    Located(r) && ProjectsInWindow(r, transform)
  }

  /** Every row with its planar coordinates, in order. */
  function ProjectAll(rows: seq<Record>, transform: (real, real) -> (real, real)): (ps: seq<PlanarPoint>)
    requires forall x :: x in rows ==> Located(x)
    ensures |ps| == |rows| && forall i :: 0 <= i < |rows| ==> ps[i] == Project(rows[i], transform)
    ensures RowsOf(ps) == rows
  {
    var ps := seq(|rows|, i requires 0 <= i < |rows| => Project(rows[i], transform));
    assert forall i :: 0 <= i < |rows| ==> RowsOf(ps)[i] == rows[i];
    ps
  }

  /** The masked selection: the projected rows that fall in the window, in trajectory order. */
  function KeepInWindow(traj: seq<Record>, transform: (real, real) -> (real, real)): (r: seq<PlanarPoint>)
    requires forall x :: x in traj ==> Located(x)
    ensures |r| <= |traj|
    ensures forall p :: p in r ==> p.row in traj && p == Project(p.row, transform) && InWindow(p.x, p.y)
    ensures forall x :: x in traj && ProjectsInWindow(x, transform) ==> Project(x, transform) in r
    ensures |r| == 0 <==> forall x :: x in traj ==> !ProjectsInWindow(x, transform)
    ensures IsSubsequence(RowsOf(r), traj)
    ensures forall x :: x in traj ==>
      multiset(RowsOf(r))[x] == if ProjectsInWindow(x, transform) then multiset(traj)[x] else 0
  {
    var visible := x => Visible(x, transform);
    FilterCounts(traj, visible);
    var kept := Filter(traj, visible);
    var r := ProjectAll(kept, transform);
    assert forall p :: p in r ==> p.row in kept && p == Project(p.row, transform) by {
      forall p | p in r
        ensures p.row in kept && p == Project(p.row, transform)
      {
        var i :| 0 <= i < |r| && r[i] == p;
        assert p == Project(kept[i], transform);
      }
    }
    assert forall x :: x in kept ==> Project(x, transform) in r by {
      forall x | x in kept
        ensures Project(x, transform) in r
      {
        var i :| 0 <= i < |kept| && kept[i] == x;
        assert r[i] == Project(x, transform);
      }
    }
    r
  }

  /** The line through the points, in their order. */
  function Coords(points: seq<PlanarPoint>): (cs: seq<(real, real)>)
    ensures |cs| == |points| && forall i :: 0 <= i < |points| ==> cs[i] == (points[i].x, points[i].y)
  {
    seq(|points|, i requires 0 <= i < |points| => (points[i].x, points[i].y))
  }

  /** Projection of an already computed trajectory (the cached one in `FlightGrafana`). */
  function ProjectTrajectory(traj: seq<Record>, transform: (real, real) -> (real, real), icao24: Option<string>): (g: Option<GeoFrame>)
    requires forall x :: x in traj ==> Located(x)
    ensures g.None? <==> forall x :: x in traj ==> !ProjectsInWindow(x, transform)
    ensures g.Some? ==> g.value.points == KeepInWindow(traj, transform)
    ensures g.Some? ==> |g.value.points| >= 1 && (g.value.line.Some? <==> |g.value.points| >= 2)
    ensures g.Some? && g.value.line.Some? ==> g.value.line.value == Line(icao24, Coords(g.value.points))
  {
    if |traj| == 0 then None
    else
      var kept := KeepInWindow(traj, transform);
      if |kept| == 0 then None
      else if |kept| > 1 then Some(GeoFrame(kept, Some(Line(icao24, Coords(kept)))))
      else Some(GeoFrame(kept, None))
  }

  /** `to_geopandas` of one flight: None when the trajectory is empty or no
      point lands in the window; otherwise exactly the in-window points, in
      trajectory order, each inside the window, with a line through them in
      that order when there are two or more. */
  function ToGeopandas(data: seq<Record>, transform: (real, real) -> (real, real), icao24: Option<string>): (g: Option<GeoFrame>)
    ensures forall x :: x in Trajectory(data) ==> Located(x)
    ensures g.None? <==> forall x :: x in Trajectory(data) ==> !ProjectsInWindow(x, transform)
    ensures g.Some? ==> |g.value.points| >= 1 && (g.value.line.Some? <==> |g.value.points| >= 2)
    ensures g.Some? ==> forall p :: p in g.value.points ==>
      p.row in data && Complete(p.row) && p == Project(p.row, transform) && InWindow(p.x, p.y)
    ensures g.Some? ==> forall x :: x in data && Complete(x) && ProjectsInWindow(x, transform) ==>
      Project(x, transform) in g.value.points
    ensures g.Some? ==> IsSubsequence(RowsOf(g.value.points), Trajectory(data))
    ensures g.Some? ==> forall x :: x in data && Complete(x) ==>
      multiset(RowsOf(g.value.points))[x] == if ProjectsInWindow(x, transform) then multiset(data)[x] else 0
    ensures g.Some? && g.value.line.Some? ==> g.value.line.value.coords == Coords(g.value.points)
  {
    FilterCounts(data, Complete);
    ProjectTrajectory(Trajectory(data), transform, icao24)
  }

  /** A flight with no plottable row never projects. */
  lemma EmptyTrajectoryGivesNothing(data: seq<Record>, transform: (real, real) -> (real, real), icao24: Option<string>)
    requires forall x :: x in data ==> !Complete(x)
    ensures ToGeopandas(data, transform, icao24).None?
  {
  }
}
