/** One flight episode (`Flight`, `FlightGrafana`): its summaries over the
    non-null samples, the landing and takeoff heuristics, and the cleaned
    trajectory. Every operation here is a function of the episode's rows. */
module Episode {
  import opened Records
  import opened Ordering
  import opened Sequences

  /** Default classifier thresholds (feet, feet per minute). */
  const GroundAltitude := 100
  const DescentRate := -1500
  const ClimbRate := 3000

  /** The non-null values of column `c`, in row order (`dropna`). */
  function Values(data: seq<Record>, c: NumericColumn): (r: seq<int>)
    ensures forall v :: v in r <==> exists x :: x in data && NumericCell(x, c) == Some(v)
    ensures |r| == 0 <==> forall x :: x in data ==> NumericCell(x, c).None?
  {
    if data == [] then []
    else
      var init := Values(data[..|data| - 1], c);
      var last := data[|data| - 1];
      assert forall x :: x in data <==> x in data[..|data| - 1] || x == last;
      match NumericCell(last, c)
      case None => init
      case Some(v) => init + [v]
  }

  function MinOf(s: seq<int>): (m: int)
    requires |s| > 0
    ensures m in s && forall x :: x in s ==> m <= x
  {
    if |s| == 1 then s[0]
    else
      var t := MinOf(s[1..]);
      assert forall x :: x in s ==> x == s[0] || x in s[1..];
      if s[0] <= t then s[0] else t
  }

  function MaxOf(s: seq<int>): (m: int)
    requires |s| > 0
    ensures m in s && forall x :: x in s ==> x <= m
  {
    if |s| == 1 then s[0]
    else
      var t := MaxOf(s[1..]);
      assert forall x :: x in s ==> x == s[0] || x in s[1..];
      if s[0] >= t then s[0] else t
  }

  /** `altitude_range` (c = Altitude) and `vertical_rate_range` (c = VerticalRate):
      no range exactly when the column holds no non-null value; otherwise the
      least and the greatest value, both taken by some row. */
  function ValueRange(data: seq<Record>, c: NumericColumn): (r: Option<Range>)
    ensures r.None? <==> forall x :: x in data ==> NumericCell(x, c).None?
    ensures r.Some? ==> r.value.lo <= r.value.hi
    ensures r.Some? ==> exists x :: x in data && NumericCell(x, c) == Some(r.value.lo)
    ensures r.Some? ==> exists x :: x in data && NumericCell(x, c) == Some(r.value.hi)
    ensures r.Some? ==> forall x :: x in data && NumericCell(x, c).Some? ==>
      r.value.lo <= NumericCell(x, c).value <= r.value.hi
  {
    var vs := Values(data, c);
    if |vs| == 0 then None
    else
      var lo, hi := MinOf(vs), MaxOf(vs);
      assert forall x :: x in data && NumericCell(x, c).Some? ==> NumericCell(x, c).value in vs;
      Some(Range(lo, hi))
  }

  /** The range of a column depends only on the multiset of its non-null values. */
  lemma RangeDependsOnlyOnValues(a: seq<Record>, b: seq<Record>, c: NumericColumn)
    requires multiset(Values(a, c)) == multiset(Values(b, c))
    ensures ValueRange(a, c) == ValueRange(b, c)
  {
    var va, vb := Values(a, c), Values(b, c);
    assert |va| == |multiset(va)| == |multiset(vb)| == |vb|;
    if |va| > 0 {
      var loA, loB, hiA, hiB := MinOf(va), MinOf(vb), MaxOf(va), MaxOf(vb);
      assert loA in multiset(vb) && hiA in multiset(vb);
      assert loB in multiset(va) && hiB in multiset(va);
      assert loA == loB && hiA == hiB;
    }
  }

  /** Some row has a non-null value of `c` at most `t`. */
  predicate SomeValueAtMost(data: seq<Record>, c: NumericColumn, t: int)
  {
    exists x :: x in data && NumericCell(x, c).Some? && NumericCell(x, c).value <= t
  }

  /** Some row has a non-null value of `c` at least `t`. */
  predicate SomeValueAtLeast(data: seq<Record>, c: NumericColumn, t: int)
  {
    exists x :: x in data && NumericCell(x, c).Some? && NumericCell(x, c).value >= t
  }

  /** `is_landing`: False when either range is missing; otherwise the minimum
      altitude and the minimum vertical rate are both at most their thresholds.
      Equivalently: some altitude is at most `groundAltitude` and some vertical
      rate is at most `descentRate`. */
  function IsLanding(data: seq<Record>, groundAltitude: int, descentRate: int): (b: bool)
    ensures b <==> SomeValueAtMost(data, Altitude, groundAltitude) && SomeValueAtMost(data, VerticalRate, descentRate)
  {
    var alt := ValueRange(data, Altitude);
    var vr := ValueRange(data, VerticalRate);
    if alt.None? || vr.None? then false
    else alt.value.lo <= groundAltitude && vr.value.lo <= descentRate
  }

  /** `is_takeoff`: False when either range is missing; otherwise the minimum
      altitude is at most its threshold and the maximum vertical rate at least
      `climbRate`. Equivalently: some altitude is at most `groundAltitude` and
      some vertical rate is at least `climbRate`. */
  function IsTakeoff(data: seq<Record>, groundAltitude: int, climbRate: int): (b: bool)
    ensures b <==> SomeValueAtMost(data, Altitude, groundAltitude) && SomeValueAtLeast(data, VerticalRate, climbRate)
  {
    var alt := ValueRange(data, Altitude);
    var vr := ValueRange(data, VerticalRate);
    if alt.None? || vr.None? then false
    else alt.value.lo <= groundAltitude && vr.value.hi >= climbRate
  }

  /** The classifiers with their default thresholds, as the collection calls them. */
  predicate IsDefaultLanding(data: seq<Record>)
  {
    IsLanding(data, GroundAltitude, DescentRate)
  }

  predicate IsDefaultTakeoff(data: seq<Record>)
  {
    IsTakeoff(data, GroundAltitude, ClimbRate)
  }

  /** The classifiers see only the multisets of altitude and vertical-rate values. */
  lemma ClassifiersDependOnlyOnValues(a: seq<Record>, b: seq<Record>, ground: int, descent: int, climb: int)
    requires multiset(Values(a, Altitude)) == multiset(Values(b, Altitude))
    requires multiset(Values(a, VerticalRate)) == multiset(Values(b, VerticalRate))
    ensures IsLanding(a, ground, descent) == IsLanding(b, ground, descent)
    ensures IsTakeoff(a, ground, climb) == IsTakeoff(b, ground, climb)
  {
    RangeDependsOnlyOnValues(a, b, Altitude);
    RangeDependsOnlyOnValues(a, b, VerticalRate);
  }

  /** Reordering the rows of a flight changes neither classification. */
  lemma ClassifiersIgnoreRowOrder(a: seq<Record>, b: seq<Record>, ground: int, descent: int, climb: int)
    requires multiset(a) == multiset(b)
    ensures IsLanding(a, ground, descent) == IsLanding(b, ground, descent)
    ensures IsTakeoff(a, ground, climb) == IsTakeoff(b, ground, climb)
  {
    forall x ensures x in a <==> x in b {
      assert x in a <==> x in multiset(a);
      assert x in b <==> x in multiset(b);
    }
  }

  /** A flight without any altitude sample is neither a landing nor a takeoff. */
  lemma NoAltitudeMeansNeither(data: seq<Record>, ground: int, descent: int, climb: int)
    requires forall x :: x in data ==> x.altitude.None?
    ensures !IsLanding(data, ground, descent) && !IsTakeoff(data, ground, climb)
  {
  }

  /** Altitudes 50, 30, 10 with vertical rates -200, -1800, -100 make a landing. */
  lemma LandingExample()
    ensures var data := [
        Record(None, None, 0, None, None, Some(50), Some(-200)),
        Record(None, None, 1, None, None, Some(30), Some(-1800)),
        Record(None, None, 2, None, None, Some(10), Some(-100))];
      IsDefaultLanding(data)
  {
    var data := [
        Record(None, None, 0, None, None, Some(50), Some(-200)),
        Record(None, None, 1, None, None, Some(30), Some(-1800)),
        Record(None, None, 2, None, None, Some(10), Some(-100))];
    assert data[1] in data && NumericCell(data[1], VerticalRate) == Some(-1800);
    assert data[2] in data && NumericCell(data[2], Altitude) == Some(10);
    assert SomeValueAtMost(data, VerticalRate, DescentRate);
    assert SomeValueAtMost(data, Altitude, GroundAltitude);
  }

  /** One flight can be both a landing and a takeoff. */
  lemma LandingAndTakeoffAtOnce()
    ensures var data := [
        Record(None, None, 0, None, None, Some(0), Some(-2000)),
        Record(None, None, 60, None, None, Some(0), Some(3500))];
      IsDefaultLanding(data) && IsDefaultTakeoff(data)
  {
    var data := [
        Record(None, None, 0, None, None, Some(0), Some(-2000)),
        Record(None, None, 60, None, None, Some(0), Some(3500))];
    assert data[0] in data && NumericCell(data[0], VerticalRate) == Some(-2000);
    assert data[1] in data && NumericCell(data[1], VerticalRate) == Some(3500);
    assert NumericCell(data[0], Altitude) == Some(0);
    assert SomeValueAtMost(data, Altitude, GroundAltitude);
    assert SomeValueAtMost(data, VerticalRate, DescentRate);
    assert SomeValueAtLeast(data, VerticalRate, ClimbRate);
  }

  // ---- trajectory -------------------------------------------------------

  /** A row that can be plotted: latitude, longitude and altitude are all known. */
  predicate Complete(r: Record)
  {
    r.latitude.Some? && r.longitude.Some? && r.altitude.Some?
  }

  predicate SortedByTime(s: seq<Record>)
  {
    forall i, j :: 0 <= i < j < |s| ==> s[i].timestamp <= s[j].timestamp
  }

  /** Placing `r` after the first row of `s`, which is earlier than `r`, keeps
      the sequence sorted. */
  lemma InsertAfterHead(r: Record, s: seq<Record>, rest: seq<Record>)
    requires SortedByTime(s) && s != [] && s[0].timestamp < r.timestamp
    requires SortedByTime(rest) && multiset(rest) == multiset(s[1..]) + multiset{r}
    ensures SortedByTime([s[0]] + rest)
  {
    forall j | 0 <= j < |rest|
      ensures s[0].timestamp <= rest[j].timestamp
    {
      assert rest[j] in multiset(rest);
      if rest[j] != r {
        assert rest[j] in multiset(s[1..]);
        var k :| 0 <= k < |s[1..]| && s[1..][k] == rest[j];
        assert s[k + 1] == rest[j];
      }
    }
    var t := [s[0]] + rest;
    forall i, j | 0 <= i < j < |t|
      ensures t[i].timestamp <= t[j].timestamp
    {
      assert t[j] == rest[j - 1];
      if i > 0 {
        assert t[i] == rest[i - 1];
      }
    }
  }

  /** `r` placed before the first row of the sorted `s` that is not earlier. */
  function InsertByTime(r: Record, s: seq<Record>): (t: seq<Record>)
    requires SortedByTime(s)
    ensures SortedByTime(t)
    ensures multiset(t) == multiset(s) + multiset{r}
    decreases |s|
  {
    if s == [] then [r]
    else if r.timestamp <= s[0].timestamp then
      var t := [r] + s;
      assert SortedByTime(t) by {
        forall i, j | 0 <= i < j < |t|
          ensures t[i].timestamp <= t[j].timestamp
        {
          assert t[j] == s[j - 1];
          if i > 0 {
            assert t[i] == s[i - 1];
          }
        }
      }
      t
    else
      var rest := InsertByTime(r, s[1..]);
      InsertAfterHead(r, s, rest);
      assert s == [s[0]] + s[1..];
      [s[0]] + rest
  }

  /** Rows ascending by timestamp (an insertion sort). */
  function SortByTime(s: seq<Record>): (t: seq<Record>)
    ensures SortedByTime(t)
    ensures multiset(t) == multiset(s)
  {
    if s == [] then []
    else
      assert s == [s[0]] + s[1..];
      InsertByTime(s[0], SortByTime(s[1..]))
  }

  /** `get_trajectory`: exactly the rows with non-null latitude, longitude and
      altitude (each as often as in the flight), ascending by timestamp. */
  function Trajectory(data: seq<Record>): (t: seq<Record>)
    ensures SortedByTime(t)
    ensures multiset(t) == multiset(Filter(data, Complete))
    ensures |t| == |Filter(data, Complete)|
    ensures forall x :: x in t <==> x in data && Complete(x)
  {
    var t := SortByTime(Filter(data, Complete));
    assert |t| == |multiset(t)|;
    assert forall x :: x in t <==> x in multiset(t);
    t
  }

  /** `has_valid_trajectory`: at least two plottable rows. */
  function HasValidTrajectory(data: seq<Record>): (b: bool)
    ensures b <==> |Filter(data, Complete)| >= 2
  {
    |Trajectory(data)| > 1
  }

  // ---- start and end times, identity -------------------------------------

  function Timestamps(data: seq<Record>): (ts: seq<int>)
    ensures |ts| == |data| && forall i :: 0 <= i < |data| ==> ts[i] == data[i].timestamp
  {
    seq(|data|, i requires 0 <= i < |data| => data[i].timestamp)
  }

  /** `min("timestamp")`: the earliest timestamp, null for an empty flight. */
  function StartTime(data: seq<Record>): (t: Option<int>)
    ensures t.None? <==> data == []
    ensures t.Some? ==> exists x :: x in data && x.timestamp == t.value
    ensures t.Some? ==> forall x :: x in data ==> t.value <= x.timestamp
  {
    if data == [] then None
    else
      var ts := Timestamps(data);
      var m := MinOf(ts);
      assert forall x :: x in data ==> x.timestamp in ts;
      Some(m)
  }

  /** `max("timestamp")`: the latest timestamp, null for an empty flight. */
  function EndTime(data: seq<Record>): (t: Option<int>)
    ensures t.None? <==> data == []
    ensures t.Some? ==> exists x :: x in data && x.timestamp == t.value
    ensures t.Some? ==> forall x :: x in data ==> x.timestamp <= t.value
  {
    if data == [] then None
    else
      var ts := Timestamps(data);
      var m := MaxOf(ts);
      assert forall x :: x in data ==> x.timestamp in ts;
      Some(m)
  }

  /** `__lt__`: the start times compared with `<=`; a comparison with a null
      start time is False, so an empty flight is never "less than" anything. */
  predicate StartsNoLaterThan(a: seq<Record>, b: seq<Record>): (lt: bool)
    ensures lt <==> a != [] && b != [] && forall y :: y in b ==> exists x :: x in a && x.timestamp <= y.timestamp
  {
    var sa, sb := StartTime(a), StartTime(b);
    if sa.Some? && sb.Some? && sa.value <= sb.value then
      assert forall y :: y in b ==> exists x :: x in a && x.timestamp <= y.timestamp by {
        var x :| x in a && x.timestamp == sa.value;
        forall y | y in b
          ensures exists x :: x in a && x.timestamp <= y.timestamp
        {
          assert x.timestamp <= y.timestamp;
        }
      }
      true
    else
      assert a != [] && b != [] ==> exists y :: y in b && forall x :: x in a ==> x.timestamp > y.timestamp by {
        if a != [] && b != [] {
          var y :| y in b && y.timestamp == sb.value;
          assert forall x :: x in a ==> x.timestamp > y.timestamp;
        }
      }
      false
  }

  /** Two flights with the same start time each compare "less than" the other,
      and every non-empty flight compares "less than" itself. */
  lemma LessThanIsNotStrict(a: seq<Record>, b: seq<Record>)
    requires a != [] && StartTime(a) == StartTime(b)
    ensures StartsNoLaterThan(a, b) && StartsNoLaterThan(b, a)
    ensures StartsNoLaterThan(a, a)
  {
  }

  /** The `callsign`/`icao24` of `FlightGrafana`: the first non-null value in row order. */
  function FirstPresent(data: seq<Record>, c: TextColumn): (r: Option<string>)
    ensures r.None? <==> forall x :: x in data ==> TextCell(x, c).None?
    ensures r.Some? ==> exists i ::
      && 0 <= i < |data| && TextCell(data[i], c) == r
      && (forall j :: 0 <= j < i ==> TextCell(data[j], c).None?)
  {
    if data == [] then None
    else if TextCell(data[0], c).Some? then TextCell(data[0], c)
    else
      var r := FirstPresent(data[1..], c);
      assert forall x :: x in data ==> x == data[0] || x in data[1..];
      if r.Some? then
        var i :| 0 <= i < |data[1..]| && TextCell(data[1..][i], c) == r &&
          forall j :: 0 <= j < i ==> TextCell(data[1..][j], c).None?;
        assert TextCell(data[i + 1], c) == r;
        assert forall j :: 0 <= j < i + 1 ==> TextCell(data[j], c).None? by {
          forall j | 0 <= j < i + 1 ensures TextCell(data[j], c).None? {
            if j > 0 { assert data[j] == data[1..][j - 1]; }
          }
        }
        r
      else r
  }

  /** The `callsign`/`icao24` of `Flight`: pandas `min`, taken as the least
      non-null value in Python's string order (nulls skipped). */
  function LeastPresent(data: seq<Record>, c: TextColumn): (r: Option<string>)
    ensures r.None? <==> forall x :: x in data ==> TextCell(x, c).None?
    ensures r.Some? ==> exists x :: x in data && TextCell(x, c) == r
    ensures r.Some? ==> forall x :: x in data && TextCell(x, c).Some? ==> !StrLess(TextCell(x, c).value, r.value)
  {
    if data == [] then None
    else
      var rest := LeastPresent(data[1..], c);
      var head := TextCell(data[0], c);
      assert forall x :: x in data ==> x == data[0] || x in data[1..];
      if head.None? then rest
      else if rest.None? then
        StrLessIrreflexive(head.value);
        head
      else if StrLess(rest.value, head.value) then
        StrLessAsymmetric(rest.value, head.value);
        rest
      else
        assert forall x :: x in data[1..] && TextCell(x, c).Some? ==> !StrLess(TextCell(x, c).value, head.value) by {
          forall x | x in data[1..] && TextCell(x, c).Some?
            ensures !StrLess(TextCell(x, c).value, head.value)
          {
            StrNotLessTransitive(TextCell(x, c).value, rest.value, head.value);
          }
        }
        StrLessIrreflexive(head.value);
        head
  }

  /** The two identity rules can disagree: callsigns "B" then "A" give "B" first but "A" least. */
  lemma FirstAndLeastDisagree()
    ensures var data := [
        Record(Some("abc123"), Some("B"), 0, None, None, None, None),
        Record(Some("abc123"), Some("A"), 1, None, None, None, None)];
      FirstPresent(data, Callsign) == Some("B") && LeastPresent(data, Callsign) == Some("A")
  {
    var data := [
        Record(Some("abc123"), Some("B"), 0, None, None, None, None),
        Record(Some("abc123"), Some("A"), 1, None, None, None, None)];
    assert data[1..] == [data[1]];
    assert data[1..][1..] == [];
    assert StrLess("A", "B");
  }

  /** All non-null values of the column are equal. */
  predicate Uniform(data: seq<Record>, c: TextColumn)
  {
    forall x, y :: x in data && y in data && TextCell(x, c).Some? && TextCell(y, c).Some? ==>
      TextCell(x, c) == TextCell(y, c)
  }

  /** On a column with one non-null value the two identity rules agree. */
  lemma FirstAndLeastAgreeOnUniform(data: seq<Record>, c: TextColumn)
    requires Uniform(data, c)
    ensures FirstPresent(data, c) == LeastPresent(data, c)
  {
    var f, l := FirstPresent(data, c), LeastPresent(data, c);
    if f.Some? {
      var i :| 0 <= i < |data| && TextCell(data[i], c) == f &&
        forall j :: 0 <= j < i ==> TextCell(data[j], c).None?;
      var x :| x in data && TextCell(x, c) == l;
      assert data[i] in data;
    }
  }
}
