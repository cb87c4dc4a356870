/**
 * The rooms page: measurements of the last week grouped per device name and sorted oldest first,
 * the latest measurement per name, and the per-series chart projections.
 */
module RoomsGrid {
  import opened Wrappers
  import opened Sequences
  import Store

  type Measurement = Store.Measurement

  /** `m.deviceName || ""`: a missing or empty name both become "", which is skipped. */
  function DisplayName(m: Measurement): string {
    m.deviceName.GetOr("")
  }

  /** The measurements shown under name `k`, in input order. */
  function Named(ms: seq<Measurement>, k: string): seq<Measurement> {
    if ms == [] then []
    else Named(ms[..|ms| - 1], k) + (if DisplayName(ms[|ms| - 1]) == k then [ms[|ms| - 1]] else [])
  }

  /** Named keeps exactly the measurements with that name, each as often as it occurs. */
  lemma {:induction false} NamedContents(ms: seq<Measurement>, k: string)
    ensures forall i :: 0 <= i < |Named(ms, k)| ==> DisplayName(Named(ms, k)[i]) == k
    ensures forall m :: DisplayName(m) == k ==> multiset(Named(ms, k))[m] == multiset(ms)[m]
    ensures forall m :: DisplayName(m) != k ==> multiset(Named(ms, k))[m] == 0
  {
    if ms != [] {
      var prefix := ms[..|ms| - 1];
      NamedContents(prefix, k);
      assert ms == prefix + [ms[|ms| - 1]];
    }
  }

  /** The names that get a group: every non-empty display name that occurs. */
  predicate IsGroupName(ms: seq<Measurement>, k: string) {
    k != "" && exists i :: 0 <= i < |ms| && DisplayName(ms[i]) == k
  }

  lemma NamedSnoc(ms: seq<Measurement>, m: Measurement, k: string)
    ensures Named(ms + [m], k) == Named(ms, k) + (if DisplayName(m) == k then [m] else [])
  {
    assert (ms + [m])[..|ms|] == ms;
  }

  /** One more measurement extends every name's list by that measurement at most. */
  lemma NamedStep(ms: seq<Measurement>, i: nat)
    requires i < |ms|
    ensures forall k :: Named(ms[..i + 1], k) == Named(ms[..i], k) + (if DisplayName(ms[i]) == k then [ms[i]] else [])
  {
    assert ms[..i + 1] == ms[..i] + [ms[i]];
    forall k ensures Named(ms[..i + 1], k) == Named(ms[..i], k) + (if DisplayName(ms[i]) == k then [ms[i]] else []) {
      NamedSnoc(ms[..i], ms[i], k);
    }
  }

  /** One more measurement adds at most its own name to the group names. */
  lemma GroupNameStep(ms: seq<Measurement>, i: nat)
    requires i < |ms|
    ensures forall k :: IsGroupName(ms[..i + 1], k) <==> IsGroupName(ms[..i], k) || (k != "" && k == DisplayName(ms[i]))
  {
    var name := DisplayName(ms[i]);
    forall k ensures IsGroupName(ms[..i + 1], k) ==> IsGroupName(ms[..i], k) || (k != "" && k == name) {
      if IsGroupName(ms[..i + 1], k) {
        var j :| 0 <= j < i + 1 && DisplayName(ms[..i + 1][j]) == k;
        if j < i { assert ms[..i][j] == ms[..i + 1][j]; }
      }
    }
    forall k | IsGroupName(ms[..i], k) ensures IsGroupName(ms[..i + 1], k) {
      var j :| 0 <= j < i && DisplayName(ms[..i][j]) == k;
      assert ms[..i + 1][j] == ms[..i][j];
    }
    assert DisplayName(ms[..i + 1][i]) == name;
  }

  /** A non-empty name that is not a group name has no measurements. */
  lemma {:induction false} AbsentNameIsEmpty(ms: seq<Measurement>, k: string)
    requires !IsGroupName(ms, k) && k != ""
    ensures Named(ms, k) == []
  {
    if ms != [] {
      var prefix := ms[..|ms| - 1];
      AbsentNameIsEmpty(prefix, k);
      assert DisplayName(ms[|ms| - 1]) != k;
    }
  }

  /**
   * `measurementsByDevice`: pushes every measurement with a non-empty name onto its name's list, then
   * sorts each list by ascending timestamp (a stable sort: equal timestamps keep their input order).
   */
  method MeasurementsByDevice(ms: seq<Measurement>) returns (groups: map<string, seq<Measurement>>)
    ensures forall k :: k in groups <==> IsGroupName(ms, k)
    ensures forall k :: k in groups ==> groups[k] == SortBy(Named(ms, k), Store.OldestFirst)
  {
    var pushed := PushByName(ms);
    groups := SortEachGroup(pushed);
  }

  /** The forEach: every named measurement pushed, in input order, onto its name's list. */
  method PushByName(ms: seq<Measurement>) returns (groups: map<string, seq<Measurement>>)
    ensures forall k :: k in groups <==> IsGroupName(ms, k)
    ensures forall k :: k in groups ==> groups[k] == Named(ms, k)
  {
    groups := map[];
    for i := 0 to |ms|
      invariant forall k :: k in groups <==> IsGroupName(ms[..i], k)
      invariant forall k :: k in groups ==> groups[k] == Named(ms[..i], k)
    {
      NamedStep(ms, i);
      GroupNameStep(ms, i);
      var name := DisplayName(ms[i]);
      if name != "" {
        if name !in groups {
          AbsentNameIsEmpty(ms[..i], name);
          groups := groups[name := []];
        }
        groups := groups[name := groups[name] + [ms[i]]];
      }
    }
    assert ms[..|ms|] == ms;
  }

  /** The second pass: each list sorted by ascending timestamp, the key set untouched. */
  method SortEachGroup(pushed: map<string, seq<Measurement>>) returns (groups: map<string, seq<Measurement>>)
    ensures groups.Keys == pushed.Keys
    ensures forall k :: k in groups ==> groups[k] == SortBy(pushed[k], Store.OldestFirst)
  {
    groups := pushed;
    var pending := groups.Keys;
    while pending != {}
      invariant pending <= groups.Keys && groups.Keys == pushed.Keys
      invariant forall k :: k in groups && k in pending ==> groups[k] == pushed[k]
      invariant forall k :: k in groups && k !in pending ==> groups[k] == SortBy(pushed[k], Store.OldestFirst)
      decreases |pending|
    {
      var k :| k in pending;
      groups := groups[k := SortBy(groups[k], Store.OldestFirst)];
      pending := pending - {k};
    }
  }

  /**
   * Every list is ascending by timestamp and holds each measurement of its name as often as the input
   * does, and no measurement of another name.
   */
  lemma GroupIsSortedPermutation(ms: seq<Measurement>, k: string)
    ensures SortedBy(SortBy(Named(ms, k), Store.OldestFirst), Store.OldestFirst)
    ensures forall m :: DisplayName(m) == k ==> multiset(SortBy(Named(ms, k), Store.OldestFirst))[m] == multiset(ms)[m]
    ensures forall m :: DisplayName(m) != k ==> multiset(SortBy(Named(ms, k), Store.OldestFirst))[m] == 0
  {
    Store.TimestampOrdersArePreorders();
    SortBySorted(Named(ms, k), Store.OldestFirst);
    NamedContents(ms, k);
  }

  /**
   * The index the reduce settles on: the first measurement whose timestamp no other exceeds. `isAfter` is
   * strict, so a later measurement with an equal timestamp does not replace it.
   */
  function LatestIndex(s: seq<Measurement>): (r: nat)
    requires |s| > 0
    ensures r < |s|
    ensures forall j :: 0 <= j < |s| ==> s[j].timestamp <= s[r].timestamp
    ensures forall j :: 0 <= j < r ==> s[j].timestamp < s[r].timestamp
  {
    if |s| == 1 then 0
    else
      var p := LatestIndex(s[..|s| - 1]);
      assert forall j :: 0 <= j < |s| - 1 ==> s[..|s| - 1][j] == s[j];
      if s[|s| - 1].timestamp > s[p].timestamp then |s| - 1 else p
  }

  /** The measurement the reduce keeps for name `k` after seeing `ms`, when `ms` has one. */
  function LatestOf(ms: seq<Measurement>, k: string): Option<Measurement> {
    var named := Named(ms, k);
    if named == [] then None else Some(named[LatestIndex(named)])
  }

  /** The reduce callback: skip unnamed measurements, else keep `current` if there is none yet or it is strictly later. */
  function Reducer(acc: map<string, Measurement>, current: Measurement): map<string, Measurement> {
    var name := DisplayName(current);
    if name == "" then acc
    else if name !in acc || current.timestamp > acc[name].timestamp then acc[name := current]
    else acc
  }

  /** One reduce step keeps the accumulator equal to LatestOf for every name. */
  lemma ReducerStep(ms: seq<Measurement>, i: nat, acc: map<string, Measurement>)
    requires i < |ms|
    requires forall k :: k in acc <==> IsGroupName(ms[..i], k)
    requires forall k :: k in acc ==> LatestOf(ms[..i], k) == Some(acc[k])
    ensures forall k :: k in Reducer(acc, ms[i]) <==> IsGroupName(ms[..i + 1], k)
    ensures forall k :: k in Reducer(acc, ms[i]) ==> LatestOf(ms[..i + 1], k) == Some(Reducer(acc, ms[i])[k])
  {
    GroupNameStep(ms, i);
    forall k ensures k in Reducer(acc, ms[i]) ==> LatestOf(ms[..i + 1], k) == Some(Reducer(acc, ms[i])[k]) {
      ReducerStepAt(ms, i, acc, k);
    }
  }

  lemma ReducerStepAt(ms: seq<Measurement>, i: nat, acc: map<string, Measurement>, k: string)
    requires i < |ms|
    requires k in acc <==> IsGroupName(ms[..i], k)
    requires k in acc ==> LatestOf(ms[..i], k) == Some(acc[k])
    ensures k in Reducer(acc, ms[i]) ==> LatestOf(ms[..i + 1], k) == Some(Reducer(acc, ms[i])[k])
  {
    assert ms[..i + 1] == ms[..i] + [ms[i]];
    NamedSnoc(ms[..i], ms[i], k);
    var before := Named(ms[..i], k);
    var after := Named(ms[..i + 1], k);
    if DisplayName(ms[i]) == k && k != "" {
      assert after == before + [ms[i]];
      if k !in acc {
        AbsentNameIsEmpty(ms[..i], k);
        assert after == [ms[i]];
      } else {
        LatestStep(before, ms[i]);
        var p := LatestIndex(before);
        assert after[p] == before[p];
      }
    } else if DisplayName(ms[i]) != k {
      assert after == before;
    }
  }

  /** `latestMeasurements`: per non-empty name, the measurement the reduce keeps. */
  method LatestMeasurements(ms: seq<Measurement>) returns (acc: map<string, Measurement>)
    ensures forall k :: k in acc <==> IsGroupName(ms, k)
    ensures forall k :: k in acc ==> LatestOf(ms, k) == Some(acc[k])
  {
    acc := map[];
    for i := 0 to |ms|
      invariant forall k :: k in acc <==> IsGroupName(ms[..i], k)
      invariant forall k :: k in acc ==> LatestOf(ms[..i], k) == Some(acc[k])
    {
      ReducerStep(ms, i, acc);
      acc := Reducer(acc, ms[i]);
    }
    assert ms[..|ms|] == ms;
  }

  /** What the reduce does with one more measurement of a name. */
  lemma LatestStep(before: seq<Measurement>, current: Measurement)
    ensures var after := before + [current];
      LatestIndex(after) == if before == [] || current.timestamp > before[LatestIndex(before)].timestamp then |before| else LatestIndex(before)
  {
    var after := before + [current];
    assert after[..|after| - 1] == before;
  }

  /**
   * Server and client disagree on ties: of two measurements of one device at the same instant, the server's
   * latest query returns both, while the page keeps only the first in input order.
   */
  lemma ClientKeepsFirstOfServerTies(a: Measurement, b: Measurement)
    requires a != b && a.deviceName == b.deviceName == Some("kitchen") && a.timestamp == b.timestamp
    ensures Store.GetLatestMeasurementsByDevice([a, b]) == [a, b]
    ensures LatestOf([a, b], "kitchen") == Some(a)
  {
    Store.TiesYieldSeveralRows(a, b);
    TiedPair(a, b);
  }

  lemma TiedPair(a: Measurement, b: Measurement)
    requires DisplayName(a) == DisplayName(b) == "kitchen" && a.timestamp == b.timestamp
    ensures LatestOf([a, b], "kitchen") == Some(a)
  {
    assert [a, b][..1] == [a];
    assert [a][..0] == [];
    assert Named([a], "kitchen") == [a];
    assert Named([a, b], "kitchen") == [a, b];
    assert LatestIndex([a]) == 0;
    assert LatestIndex([a, b]) == 0;
  }

  /** The chart series of one name: timestamps formatted by `format`, and temperatures with null shown as 0. */
  function SeriesTimestamps(series: seq<Measurement>, format: int -> string): (r: seq<string>)
    ensures |r| == |series| && forall i :: 0 <= i < |r| ==> r[i] == format(series[i].timestamp)
  {
    seq(|series|, i requires 0 <= i < |series| => format(series[i].timestamp))
  }

  function SeriesTemperatures(series: seq<Measurement>): (r: seq<real>)
    ensures |r| == |series|
    ensures forall i :: 0 <= i < |r| ==> (series[i].temperature.Some? ==> r[i] == series[i].temperature.value)
    ensures forall i :: 0 <= i < |r| ==> (series[i].temperature.None? ==> r[i] == 0.0)
  {
    seq(|series|, i requires 0 <= i < |series| => series[i].temperature.GetOr(0.0))
  }
}
