/** The two pandas `groupby` calls: by (icao24, callsign) in
    `iterate_icao24_callsign`, and by icao24 alone in `filter_by_icao24_only`.
    pandas leaves out every row with a null key column, visits the groups in
    ascending key order, and keeps each group's rows in their table order. */
module Grouper {
  import opened Records
  import opened Ordering
  import opened Sequences

  datatype Mode = ByIcao24AndCallsign | ByIcao24

  /** The group key of a row, or None when a key column is null. */
  function KeyOf(mode: Mode, r: Record): Option<seq<string>>
  {
    match mode
    case ByIcao24AndCallsign =>
      if r.icao24.Some? && r.callsign.Some? then Some([r.icao24.value, r.callsign.value]) else None
    case ByIcao24 =>
      if r.icao24.Some? then Some([r.icao24.value]) else None
  }

  /** `ks` with `k` added at its place in key order, unless already there. */
  function InsertKey(k: seq<string>, ks: seq<seq<string>>): (r: seq<seq<string>>)
    requires StrictlyAscending(ks)
    ensures StrictlyAscending(r)
    ensures forall x :: x in r <==> x == k || x in ks
  {
    if ks == [] then [k]
    else if k == ks[0] then ks
    else if KeyLess(k, ks[0]) then
      assert forall j :: 0 <= j < |ks| ==> KeyLess(k, ks[j]) by {
        forall j | 0 <= j < |ks| ensures KeyLess(k, ks[j]) {
          if j > 0 { KeyLessTransitive(k, ks[0], ks[j]); }
        }
      }
      [k] + ks
    else
      KeyLessTotal(k, ks[0]);
      var rest := InsertKey(k, ks[1..]);
      assert forall x :: x in ks[1..] ==> KeyLess(ks[0], x);
      [ks[0]] + rest
  }

  /** The distinct non-null keys of `rows`, ascending: the order pandas visits groups in. */
  function GroupKeys(mode: Mode, rows: seq<Record>): (r: seq<seq<string>>)
    ensures StrictlyAscending(r)
    ensures forall k :: k in r <==> exists x :: x in rows && KeyOf(mode, x) == Some(k)
  {
    if rows == [] then []
    else
      var init := GroupKeys(mode, rows[..|rows| - 1]);
      var last := rows[|rows| - 1];
      assert forall x :: x in rows <==> x in rows[..|rows| - 1] || x == last;
      match KeyOf(mode, last)
      case None => init
      case Some(k) => InsertKey(k, init)
  }

  predicate HasKey(mode: Mode, k: seq<string>, r: Record)
  {
    KeyOf(mode, r) == Some(k)
  }

  /** The group of key `k`: its rows in table order. */
  function RowsWithKey(mode: Mode, rows: seq<Record>, k: seq<string>): seq<Record>
  {
    Filter(rows, r => HasKey(mode, k, r))
  }

  /** The groups of the keys `ks`, in the order of `ks`. */
  function GroupsFor(mode: Mode, rows: seq<Record>, ks: seq<seq<string>>): (groups: seq<seq<Record>>)
    ensures |groups| == |ks|
    ensures forall i :: 0 <= i < |groups| ==> groups[i] == RowsWithKey(mode, rows, ks[i])
  {
    if ks == [] then []
    else GroupsFor(mode, rows, ks[..|ks| - 1]) + [RowsWithKey(mode, rows, ks[|ks| - 1])]
  }

  /** What `data.groupby(...)` iterates over: one group per key, in key order. */
  function GroupBy(mode: Mode, rows: seq<Record>): (groups: seq<seq<Record>>)
    ensures |groups| == |GroupKeys(mode, rows)|
    ensures forall i :: 0 <= i < |groups| ==> groups[i] == RowsWithKey(mode, rows, GroupKeys(mode, rows)[i])
  {
    var keys := GroupKeys(mode, rows);
    seq(|keys|, i requires 0 <= i < |keys| => RowsWithKey(mode, rows, keys[i]))
  }

  /** Every group is non-empty, all its rows share its key (so none has a null
      key), every row of the table with a non-null key is in the group of its
      key, each group keeps its rows in table order, and the groups come in
      strictly ascending key order, so no key is visited twice. */
  lemma {:induction false} GroupByPartitions(mode: Mode, rows: seq<Record>)
    ensures var keys := GroupKeys(mode, rows);
      var groups := GroupBy(mode, rows);
      && StrictlyAscending(keys)
      && (forall i :: 0 <= i < |groups| ==> |groups[i]| > 0 && IsSubsequence(groups[i], rows))
      && (forall i, x :: 0 <= i < |groups| && x in groups[i] ==> KeyOf(mode, x) == Some(keys[i]))
      && (forall x :: x in rows && KeyOf(mode, x).Some? ==>
            exists i :: 0 <= i < |groups| && x in groups[i] && keys[i] == KeyOf(mode, x).value)
      && (forall x :: x in rows && KeyOf(mode, x).None? ==> forall g :: g in groups ==> x !in g)
  {
    var keys := GroupKeys(mode, rows);
    var groups := GroupBy(mode, rows);
    forall i | 0 <= i < |groups|
      ensures |groups[i]| > 0
    {
      assert keys[i] in keys;
      var x :| x in rows && KeyOf(mode, x) == Some(keys[i]);
      assert HasKey(mode, keys[i], x);
      assert x in groups[i];
    }
    forall x | x in rows && KeyOf(mode, x).Some?
      ensures exists i :: 0 <= i < |groups| && x in groups[i] && keys[i] == KeyOf(mode, x).value
    {
      var k := KeyOf(mode, x).value;
      assert k in keys;
      var i :| 0 <= i < |keys| && keys[i] == k;
      assert HasKey(mode, k, x);
      assert x in groups[i];
    }
  }

  /** A group with at least two rows: the test `filter_by_icao24_only` applies. */
  predicate MultiRow(group: seq<Record>)
  {
    |group| > 1
  }

  /** The flights `filter_by_icao24_only` yields: the icao24 groups, in key
      order, without those of a single row. */
  function FilterByIcao24Only(rows: seq<Record>): (flights: seq<seq<Record>>)
    ensures IsSubsequence(flights, GroupBy(ByIcao24, rows))
    ensures forall f :: f in flights ==> |f| >= 2
    ensures forall g :: g in GroupBy(ByIcao24, rows) && |g| >= 2 ==> g in flights
  {
    Filter(GroupBy(ByIcao24, rows), MultiRow)
  }

  /** The icao24 values carried by at least two rows. */
  function SharedIcao24s(rows: seq<Record>): set<string>
  {
    set x | x in rows && x.icao24.Some? && MultiRow(RowsWithKey(ByIcao24, rows, [x.icao24.value])) :: x.icao24.value
  }

  /** The icao24 values of those one-column keys in `ks` whose group has at least two rows. */
  function MultiRowIcao24s(rows: seq<Record>, ks: seq<seq<string>>): set<string>
  {
    if ks == [] then {}
    else
      var last := ks[|ks| - 1];
      MultiRowIcao24s(rows, ks[..|ks| - 1]) +
        if |last| == 1 && MultiRow(RowsWithKey(ByIcao24, rows, last)) then {last[0]} else {}
  }

  lemma {:induction false} MultiRowIcao24sMembers(rows: seq<Record>, ks: seq<seq<string>>, c: string)
    ensures c in MultiRowIcao24s(rows, ks) <==>
      exists k :: k in ks && |k| == 1 && MultiRow(RowsWithKey(ByIcao24, rows, k)) && k[0] == c
  {
    if ks != [] {
      var init, last := ks[..|ks| - 1], ks[|ks| - 1];
      MultiRowIcao24sMembers(rows, init, c);
      assert forall k :: k in ks <==> k in init || k == last by {
        assert ks == init + [last];
      }
    }
  }

  /** A one-column key that is none of `init` brings a new icao24 value. */
  lemma FreshIcao24(rows: seq<Record>, init: seq<seq<string>>, last: seq<string>)
    requires |last| == 1 && last !in init
    ensures last[0] !in MultiRowIcao24s(rows, init)
  {
    MultiRowIcao24sMembers(rows, init, last[0]);
    forall k | k in init && |k| == 1
      ensures k[0] != last[0]
    {
      assert k != last;
      assert k == [k[0]] && last == [last[0]];
    }
  }

  lemma AscendingIsDistinct(ks: seq<seq<string>>)
    requires StrictlyAscending(ks)
    ensures Distinct(ks)
  {
    forall i, j | 0 <= i < j < |ks|
      ensures ks[i] != ks[j]
    {
      if ks[i] == ks[j] {
        KeyLessIrreflexive(ks[i]);
        assert false;
      }
    }
  }

  /** Dropping the last key keeps the keys distinct and one-column, and the last key is none of the others. */
  lemma DistinctInit(ks: seq<seq<string>>)
    requires ks != [] && Distinct(ks) && forall k :: k in ks ==> |k| == 1
    ensures Distinct(ks[..|ks| - 1]) && forall k :: k in ks[..|ks| - 1] ==> |k| == 1
    ensures |ks[|ks| - 1]| == 1 && ks[|ks| - 1] !in ks[..|ks| - 1]
  {
    var init := ks[..|ks| - 1];
    assert forall k :: k in init ==> k in ks;
    forall i | 0 <= i < |init|
      ensures init[i] != ks[|ks| - 1]
    {
      assert init[i] == ks[i];
    }
  }

  lemma CountMultiRowGroupsStep(rows: seq<Record>, ks: seq<seq<string>>)
    requires ks != [] && |ks[|ks| - 1]| == 1
    requires ks[|ks| - 1][0] !in MultiRowIcao24s(rows, ks[..|ks| - 1])
    requires |Filter(GroupsFor(ByIcao24, rows, ks[..|ks| - 1]), MultiRow)| == |MultiRowIcao24s(rows, ks[..|ks| - 1])|
    ensures |Filter(GroupsFor(ByIcao24, rows, ks), MultiRow)| == |MultiRowIcao24s(rows, ks)|
  {
    FilterAppendCount(GroupsFor(ByIcao24, rows, ks[..|ks| - 1]), RowsWithKey(ByIcao24, rows, ks[|ks| - 1]), MultiRow);
  }

  /** Over distinct one-column keys, the multi-row groups are as many as their icao24 values. */
  lemma {:induction false} CountMultiRowGroups(rows: seq<Record>, ks: seq<seq<string>>)
    requires Distinct(ks)
    requires forall k :: k in ks ==> |k| == 1
    ensures |Filter(GroupsFor(ByIcao24, rows, ks), MultiRow)| == |MultiRowIcao24s(rows, ks)|
  {
    if ks != [] {
      DistinctInit(ks);
      CountMultiRowGroups(rows, ks[..|ks| - 1]);
      FreshIcao24(rows, ks[..|ks| - 1], ks[|ks| - 1]);
      CountMultiRowGroupsStep(rows, ks);
    }
  }

  /** The icao24 groups have one-column keys, and their multi-row icao24
      values are those carried by at least two rows. */
  lemma Icao24Keys(rows: seq<Record>)
    ensures forall k :: k in GroupKeys(ByIcao24, rows) ==> |k| == 1
    ensures SharedIcao24s(rows) == MultiRowIcao24s(rows, GroupKeys(ByIcao24, rows))
  {
    var keys := GroupKeys(ByIcao24, rows);
    forall k | k in keys
      ensures |k| == 1
    {
      var x :| x in rows && KeyOf(ByIcao24, x) == Some(k);
    }
    forall c | c in SharedIcao24s(rows)
      ensures c in MultiRowIcao24s(rows, keys)
    {
      var x :| x in rows && x.icao24 == Some(c) && MultiRow(RowsWithKey(ByIcao24, rows, [c]));
      assert KeyOf(ByIcao24, x) == Some([c]);
      assert [c] in keys && [c][0] == c;
      MultiRowIcao24sMembers(rows, keys, c);
    }
    forall c | c in MultiRowIcao24s(rows, keys)
      ensures c in SharedIcao24s(rows)
    {
      MultiRowIcao24sMembers(rows, keys, c);
      var k :| k in keys && |k| == 1 && MultiRow(RowsWithKey(ByIcao24, rows, k)) && k[0] == c;
      var x :| x in rows && KeyOf(ByIcao24, x) == Some(k);
      assert k == [c];
    }
  }

  /** `total_flights` counts aircraft: one flight per icao24 value that at
      least two rows carry. */
  lemma FlightsCountSharedIcao24s(rows: seq<Record>)
    ensures |FilterByIcao24Only(rows)| == |SharedIcao24s(rows)|
  {
    var keys := GroupKeys(ByIcao24, rows);
    Icao24Keys(rows);
    AscendingIsDistinct(keys);
    CountMultiRowGroups(rows, keys);
    assert GroupBy(ByIcao24, rows) == GroupsFor(ByIcao24, rows, keys);
  }

  /** Every flight of `filter_by_icao24_only` holds the rows of exactly one
      aircraft, and all of that aircraft's rows. */
  lemma {:induction false} Icao24FlightsAreWholeAircraft(rows: seq<Record>, f: seq<Record>)
    requires f in FilterByIcao24Only(rows)
    ensures exists icao ::
      && f == RowsWithKey(ByIcao24, rows, [icao])
      && (forall x :: x in f ==> x.icao24 == Some(icao))
  {
    var groups := GroupBy(ByIcao24, rows);
    var keys := GroupKeys(ByIcao24, rows);
    assert f in groups;
    var i :| 0 <= i < |groups| && groups[i] == f;
    GroupByPartitions(ByIcao24, rows);
    assert keys[i] in keys;
    var x :| x in rows && KeyOf(ByIcao24, x) == Some(keys[i]);
    var icao := x.icao24.value;
    assert keys[i] == [icao];
    forall y | y in f
      ensures y.icao24 == Some(icao)
    {
      assert KeyOf(ByIcao24, y) == Some([icao]);
    }
  }
}
