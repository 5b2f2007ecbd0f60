/** `FlightCollection` / `FlightCollectionGrafana`: the whole table, iterated
    as flight episodes, looked up by name or by day, filtered into landings
    and takeoffs, and counted. The collection never changes its table. */
module Collection {
  import opened Records
  import opened Sequences
  import opened Segmenter
  import opened Grouper
  import opened Episode

  /** The episodes of a list of groups: each group split by `iterate_time` at 20000 s. */
  function EpisodesOf(groups: seq<seq<Record>>): seq<seq<Record>>
  {
    if groups == [] then [] else Segments(groups[0], EpisodeGap) + EpisodesOf(groups[1..])
  }

  /** `__iter__`: the (icao24, callsign) groups in key order, each split at
      timestamp gaps above 20000 s; every episode keeps one pair and no larger gap. */
  function Episodes(rows: seq<Record>): (episodes: seq<seq<Record>>)
    ensures forall e :: e in episodes ==> OnePair(e) && WithinGap(e, EpisodeGap)
    ensures forall e, x :: e in episodes && x in e ==> x in rows
    ensures |episodes| >= |GroupBy(ByIcao24AndCallsign, rows)|
  {
    var groups := GroupBy(ByIcao24AndCallsign, rows);
    GroupByPartitions(ByIcao24AndCallsign, rows);
    assert forall g :: g in groups ==> OnePair(g);
    assert forall g, x :: g in groups && x in g ==> x in rows by {
      forall g, x | g in groups && x in g
        ensures x in rows
      {
        var i :| 0 <= i < |groups| && groups[i] == g;
        assert g == RowsWithKey(ByIcao24AndCallsign, rows, GroupKeys(ByIcao24AndCallsign, rows)[i]);
      }
    }
    EpisodesOfGroups(groups, rows);
    EpisodesOf(groups)
  }

  /** All rows share one non-null (icao24, callsign) pair. */
  predicate OnePair(e: seq<Record>)
  {
    forall x, y :: x in e && y in e ==>
      KeyOf(ByIcao24AndCallsign, x).Some? && KeyOf(ByIcao24AndCallsign, x) == KeyOf(ByIcao24AndCallsign, y)
  }

  lemma {:induction false} EpisodesOfGroups(groups: seq<seq<Record>>, rows: seq<Record>)
    requires forall g :: g in groups ==> OnePair(g)
    requires forall g, x :: g in groups && x in g ==> x in rows
    ensures forall e :: e in EpisodesOf(groups) ==> OnePair(e) && WithinGap(e, EpisodeGap)
    ensures forall e, x :: e in EpisodesOf(groups) && x in e ==> x in rows
    ensures |EpisodesOf(groups)| >= |groups|
  {
    if groups != [] {
      var g := groups[0];
      assert g in groups;
      EpisodesOfGroups(groups[1..], rows);
      SegmentsCount(g, EpisodeGap);
      forall e | e in Segments(g, EpisodeGap)
        ensures OnePair(e)
      {
        forall x, y | x in e && y in e
          ensures KeyOf(ByIcao24AndCallsign, x).Some? && KeyOf(ByIcao24AndCallsign, x) == KeyOf(ByIcao24AndCallsign, y)
        {
          assert x in g && y in g;
        }
      }
      assert forall e :: e in EpisodesOf(groups) ==> e in Segments(g, EpisodeGap) || e in EpisodesOf(groups[1..]);
    }
  }

  /** The groups, each without the rows at its split indices, one after the other. */
  function UnsplitGroups(groups: seq<seq<Record>>): seq<Record>
  {
    if groups == [] then [] else UnsplitFrom(groups[0], EpisodeGap, 0) + UnsplitGroups(groups[1..])
  }

  lemma {:induction false} EpisodesOfConcat(groups: seq<seq<Record>>)
    ensures Concat(EpisodesOf(groups)) == UnsplitGroups(groups)
  {
    if groups != [] {
      EpisodesOfConcat(groups[1..]);
      ConcatAppend(Segments(groups[0], EpisodeGap), EpisodesOf(groups[1..]));
      SegmentsDropOnlySplitRows(groups[0], EpisodeGap);
    }
  }

  /** `__iter__` yields, in order, exactly the rows of the (icao24, callsign)
      groups except those at a split index of their group: every such row in
      exactly one episode, and no other row in any. */
  lemma EpisodesCoverGroups(rows: seq<Record>)
    ensures Concat(Episodes(rows)) == UnsplitGroups(GroupBy(ByIcao24AndCallsign, rows))
  {
    EpisodesOfConcat(GroupBy(ByIcao24AndCallsign, rows));
  }

  /** On every episode `__iter__` yields, the first-non-null identity of
      `FlightGrafana` and the minimum identity of `Flight` coincide. */
  lemma EpisodeIdentityRulesAgree(rows: seq<Record>, e: seq<Record>)
    requires e in Episodes(rows)
    ensures FirstPresent(e, Icao24) == LeastPresent(e, Icao24)
    ensures FirstPresent(e, Callsign) == LeastPresent(e, Callsign)
  {
    assert OnePair(e);
    forall x, y | x in e && y in e
      ensures x.icao24 == y.icao24 && x.callsign == y.callsign
    {
      var kx, ky := KeyOf(ByIcao24AndCallsign, x), KeyOf(ByIcao24AndCallsign, y);
      assert kx.Some? && kx == ky;
      assert kx.value == [x.icao24.value, x.callsign.value];
      assert ky.value == [y.icao24.value, y.callsign.value];
    }
    assert Uniform(e, Icao24) && Uniform(e, Callsign);
    FirstAndLeastAgreeOnUniform(e, Icao24);
    FirstAndLeastAgreeOnUniform(e, Callsign);
  }

  /** `__len__`: the number of episodes `__iter__` yields. It is at least the
      number of (icao24, callsign) groups, and zero exactly when no row has both
      an icao24 and a callsign. */
  function Len(rows: seq<Record>): (n: nat)
    ensures n >= |GroupBy(ByIcao24AndCallsign, rows)|
    ensures n == 0 <==> forall x :: x in rows ==> KeyOf(ByIcao24AndCallsign, x).None?
  {
    var groups := GroupBy(ByIcao24AndCallsign, rows);
    GroupByPartitions(ByIcao24AndCallsign, rows);
    assert (forall x :: x in rows ==> KeyOf(ByIcao24AndCallsign, x).None?) ==> groups == [] by {
      if groups != [] {
        assert GroupKeys(ByIcao24AndCallsign, rows)[0] in GroupKeys(ByIcao24AndCallsign, rows);
      }
    }
    |Episodes(rows)|
  }

  // ---- __getitem__ --------------------------------------------------------

  /** The key types `__getitem__` may receive. */
  datatype Key = Text(text: string) | Instant(seconds: int) | OtherKey

  /** A bare flight, a sub-collection, or the unbound `result` of a key of another type. */
  datatype Lookup = OneFlight(data: seq<Record>) | SubCollection(data: seq<Record>) | Unbound

  const OneDay := 86400

  /** The query of each key: `callsign == key or icao24 == key` (a null never
      equals the key), or `key < timestamp < key + 1 day`. */
  predicate Selects(key: Key, r: Record)
  {
    match key
    case Text(s) => r.callsign == Some(s) || r.icao24 == Some(s)
    case Instant(t) => t < r.timestamp < t + OneDay
    case OtherKey => false
  }

  function Selection(rows: seq<Record>, key: Key): seq<Record>
  {
    Filter(rows, r => Selects(key, r))
  }

  /** `__getitem__`: the selected rows, as a bare flight exactly when they form
      one episode, as a sub-collection otherwise; a key that is neither a string
      nor a timestamp leaves `result` unbound. */
  function GetItem(rows: seq<Record>, key: Key): (r: Lookup)
    ensures r.Unbound? <==> key.OtherKey?
    ensures !r.Unbound? ==> IsSubsequence(r.data, rows)
    ensures !r.Unbound? ==> forall x :: x in r.data <==> x in rows && Selects(key, x)
    ensures !r.Unbound? ==> forall x :: multiset(r.data)[x] == if Selects(key, x) then multiset(rows)[x] else 0
    ensures r.OneFlight? <==> !key.OtherKey? && |Episodes(Selection(rows, key))| == 1
  {
    if key.OtherKey? then Unbound
    else
      FilterCounts(rows, r => Selects(key, r));
      var selected := Selection(rows, key);
      if |Episodes(selected)| == 1 then OneFlight(selected) else SubCollection(selected)
  }

  lemma {:induction false} EpisodesOfOne(groups: seq<seq<Record>>)
    requires |EpisodesOf(groups)| == 1
    ensures |groups| == 1 && SplitIndices(groups[0], EpisodeGap) == []
  {
    SegmentsCount(groups[0], EpisodeGap);
  }

  /** A bare flight comes back only when the selection has a single
      (icao24, callsign) group and that group has no gap above 20000 s. */
  lemma GetItemOneFlightIsOneGroup(rows: seq<Record>, key: Key)
    requires GetItem(rows, key).OneFlight?
    ensures var groups := GroupBy(ByIcao24AndCallsign, GetItem(rows, key).data);
      |groups| == 1 && SplitIndices(groups[0], EpisodeGap) == []
  {
    EpisodesOfOne(GroupBy(ByIcao24AndCallsign, Selection(rows, key)));
  }

  // ---- landings, takeoffs, statistics -------------------------------------

  predicate LandingWithPath(f: seq<Record>)
  {
    IsDefaultLanding(f) && HasValidTrajectory(f)
  }

  predicate TakeoffWithPath(f: seq<Record>)
  {
    IsDefaultTakeoff(f) && HasValidTrajectory(f)
  }

  /** The loop of `filter_landings` and `filter_takeoffs`: append each flight
      that passes the test, in traversal order. */
  method KeepFlights(flights: seq<seq<Record>>, keep: seq<Record> -> bool) returns (kept: seq<seq<Record>>)
    ensures kept == Filter(flights, keep)
  {
    kept := [];
    for i := 0 to |flights|
      invariant kept == Filter(flights[..i], keep)
    {
      assert flights[..i + 1] == flights[..i] + [flights[i]];
      FilterAppend(flights[..i], flights[i], keep);
      if keep(flights[i]) {
        kept := kept + [flights[i]];
      }
    }
    assert flights[..|flights|] == flights;
  }

  /** `filter_landings`: in traversal order, every flight of `filter_by_icao24_only`
      that is a landing and has at least two trajectory points. */
  method FilterLandings(rows: seq<Record>) returns (landings: seq<seq<Record>>)
    ensures landings == Filter(FilterByIcao24Only(rows), LandingWithPath)
    ensures IsSubsequence(landings, FilterByIcao24Only(rows))
    ensures forall f :: f in landings ==> IsDefaultLanding(f) && |Filter(f, Complete)| >= 2
    ensures forall f :: f in FilterByIcao24Only(rows) && IsDefaultLanding(f) && HasValidTrajectory(f) ==> f in landings
  {
    var flights := FilterByIcao24Only(rows);
    landings := KeepFlights(flights, LandingWithPath);
    forall f | f in landings
      ensures IsDefaultLanding(f) && |Filter(f, Complete)| >= 2
    {
      assert LandingWithPath(f);
    }
    forall f | f in flights && IsDefaultLanding(f) && HasValidTrajectory(f)
      ensures f in landings
    {
      assert LandingWithPath(f);
    }
  }

  /** `filter_takeoffs`: the same with the takeoff test. */
  method FilterTakeoffs(rows: seq<Record>) returns (takeoffs: seq<seq<Record>>)
    ensures takeoffs == Filter(FilterByIcao24Only(rows), TakeoffWithPath)
    ensures IsSubsequence(takeoffs, FilterByIcao24Only(rows))
    ensures forall f :: f in takeoffs ==> IsDefaultTakeoff(f) && |Filter(f, Complete)| >= 2
    ensures forall f :: f in FilterByIcao24Only(rows) && IsDefaultTakeoff(f) && HasValidTrajectory(f) ==> f in takeoffs
  {
    var flights := FilterByIcao24Only(rows);
    takeoffs := KeepFlights(flights, TakeoffWithPath);
    forall f | f in takeoffs
      ensures IsDefaultTakeoff(f) && |Filter(f, Complete)| >= 2
    {
      assert TakeoffWithPath(f);
    }
    forall f | f in flights && IsDefaultTakeoff(f) && HasValidTrajectory(f)
      ensures f in takeoffs
    {
      assert TakeoffWithPath(f);
    }
  }

  datatype Statistics = Statistics(totalFlights: nat, landings: nat, takeoffs: nat)

  /** The loop of `get_statistics`: one pass that counts every flight and,
      independently, those passing each test. */
  method CountFlights(flights: seq<seq<Record>>, landing: seq<Record> -> bool, takeoff: seq<Record> -> bool)
    returns (stats: Statistics)
    ensures stats.totalFlights == |flights|
    ensures stats.landings == |Filter(flights, landing)|
    ensures stats.takeoffs == |Filter(flights, takeoff)|
  {
    var total: nat, landings: nat, takeoffs: nat := 0, 0, 0;
    for i := 0 to |flights|
      invariant total == i
      invariant landings == |Filter(flights[..i], landing)|
      invariant takeoffs == |Filter(flights[..i], takeoff)|
    {
      FilterPrefixCount(flights, landing, i);
      FilterPrefixCount(flights, takeoff, i);
      var f := flights[i];
      total := total + 1;
      if landing(f) {
        landings := landings + 1;
      }
      if takeoff(f) {
        takeoffs := takeoffs + 1;
      }
    }
    assert flights[..|flights|] == flights;
    stats := Statistics(total, landings, takeoffs);
  }

  /** `get_statistics`: over `filter_by_icao24_only`, the number of flights,
      of landings and of takeoffs, with no trajectory test. */
  method GetStatistics(rows: seq<Record>) returns (stats: Statistics)
    ensures stats.totalFlights == |FilterByIcao24Only(rows)| == |SharedIcao24s(rows)|
    ensures stats.landings == |Filter(FilterByIcao24Only(rows), IsDefaultLanding)|
    ensures stats.takeoffs == |Filter(FilterByIcao24Only(rows), IsDefaultTakeoff)|
    ensures stats.landings <= stats.totalFlights && stats.takeoffs <= stats.totalFlights
  {
    stats := CountFlights(FilterByIcao24Only(rows), IsDefaultLanding, IsDefaultTakeoff);
    FlightsCountSharedIcao24s(rows);
  }

  /** The statistics never count fewer landings (takeoffs) than `filter_landings`
      (`filter_takeoffs`) returns. */
  lemma StatisticsBoundFilters(rows: seq<Record>)
    ensures var flights := FilterByIcao24Only(rows);
      && |Filter(flights, LandingWithPath)| <= |Filter(flights, IsDefaultLanding)|
      && |Filter(flights, TakeoffWithPath)| <= |Filter(flights, IsDefaultTakeoff)|
  {
    var flights := FilterByIcao24Only(rows);
    FilterWeakerKeepsMore(flights, LandingWithPath, IsDefaultLanding);
    FilterWeakerKeepsMore(flights, TakeoffWithPath, IsDefaultTakeoff);
  }

  /** A flight that is both a landing and a takeoff raises both counters. */
  lemma BothCountersRise(flights: seq<seq<Record>>, f: seq<Record>)
    requires IsDefaultLanding(f) && IsDefaultTakeoff(f)
    ensures |Filter(flights + [f], IsDefaultLanding)| == |Filter(flights, IsDefaultLanding)| + 1
    ensures |Filter(flights + [f], IsDefaultTakeoff)| == |Filter(flights, IsDefaultTakeoff)| + 1
  {
    FilterAppend(flights, f, IsDefaultLanding);
    FilterAppend(flights, f, IsDefaultTakeoff);
  }

  /** A landing with fewer than two plottable rows raises the statistics'
      landing counter but is left out of `filter_landings`. */
  lemma StatisticsIgnoreTrajectory(flights: seq<seq<Record>>, f: seq<Record>)
    requires IsDefaultLanding(f) && |Filter(f, Complete)| < 2
    ensures |Filter(flights + [f], IsDefaultLanding)| == |Filter(flights, IsDefaultLanding)| + 1
    ensures Filter(flights + [f], LandingWithPath) == Filter(flights, LandingWithPath)
  {
    FilterAppend(flights, f, IsDefaultLanding);
    FilterAppend(flights, f, LandingWithPath);
  }
}
