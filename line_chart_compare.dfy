/**
 * The comparison chart: which lines are shown, the legend toggle, and the bucketing of measurements into
 * one chart entry per minute.
 */
module LineChartCompare {
  import opened Wrappers
  import opened Sequences

  datatype MetricKey = Temperature | Humidity

  function KeyName(k: MetricKey): string {
    match k
    case Temperature => "temperature"
    case Humidity => "humidity"
  }

  datatype ChartMetric = ChartMetric(key: MetricKey, name: string, colors: seq<string>, unit: string)

  /** The `${device}_${metric.key}` name of one line. */
  function LineKey(device: string, key: MetricKey): string {
    device + "_" + KeyName(key)
  }

  // ---------------------------------------------------------------------------
  // Active lines and the legend toggle
  // ---------------------------------------------------------------------------

  function DeviceLines(device: string, metrics: seq<ChartMetric>): (r: seq<string>)
    ensures |r| == |metrics| && forall m :: 0 <= m < |metrics| ==> r[m] == LineKey(device, metrics[m].key)
  {
    seq(|metrics|, m requires 0 <= m < |metrics| => LineKey(device, metrics[m].key))
  }

  /** The initial `activeLines`: every device with every metric, device by device. */
  function InitialActiveLines(devices: seq<string>, metrics: seq<ChartMetric>): (r: seq<string>)
    ensures |r| == |devices| * |metrics|
  {
    if devices == [] then []
    else
      MulSucc(|devices| - 1, |metrics|);
      DeviceLines(devices[0], metrics) + InitialActiveLines(devices[1..], metrics)
  }

  /** Line `m` of device `d` sits at position d * |metrics| + m. */
  lemma {:induction false} InitialActiveLinesLayout(devices: seq<string>, metrics: seq<ChartMetric>, d: nat, m: nat, pos: nat)
    requires d < |devices| && m < |metrics| && pos == d * |metrics| + m
    ensures pos < |InitialActiveLines(devices, metrics)|
    ensures InitialActiveLines(devices, metrics)[pos] == LineKey(devices[d], metrics[m].key)
  {
    var n := |metrics|;
    var head := DeviceLines(devices[0], metrics);
    var rest := InitialActiveLines(devices[1..], metrics);
    var lines := InitialActiveLines(devices, metrics);
    assert lines == head + rest;
    if d == 0 {
      ZeroMul(n);
      assert lines[m] == head[m];
    } else {
      MulSucc(d - 1, n);
      InitialActiveLinesLayout(devices[1..], metrics, d - 1, m, pos - n);
      assert lines[pos] == rest[pos - n];
      assert devices[1..][d - 1] == devices[d];
    }
  }

  lemma MulSucc(k: nat, n: nat)
    ensures (k + 1) * n == n + k * n
  {
  }

  lemma ZeroMul(n: nat)
    ensures 0 * n == 0
  {
  }

  function Other(key: string): string -> bool {
    k => k != key
  }

  /** `handleLegendClick`: an active key is removed everywhere it occurs; an inactive one is appended. */
  function HandleLegendClick(prev: seq<string>, key: string): (next: seq<string>)
    ensures key in next <==> key !in prev
    ensures key !in prev ==> next == prev + [key]
  {
    if key in prev then Filter(prev, Other(key)) else prev + [key]
  }

  /** Clicking a key twice restores whether it is active. */
  lemma TwoClicksRestoreMembership(prev: seq<string>, key: string)
    ensures key in HandleLegendClick(HandleLegendClick(prev, key), key) <==> key in prev
  {
  }

  /** Clicking an inactive key twice gives back exactly the list it started from. */
  lemma TwoClicksRestoreInactive(prev: seq<string>, key: string)
    requires key !in prev
    ensures HandleLegendClick(HandleLegendClick(prev, key), key) == prev
  {
    FilterAppend(prev, [key], Other(key));
    FilterNoneRemoved(prev, key);
    assert Filter([key], Other(key)) == [] by { assert [key][1..] == []; }
  }

  lemma {:induction false} FilterNoneRemoved(s: seq<string>, key: string)
    requires key !in s
    ensures Filter(s, Other(key)) == s
  {
    if s != [] {
      FilterNoneRemoved(s[1..], key);
      assert s == [s[0]] + s[1..];
    }
  }

  /** The other keys keep their relative order through a click. */
  lemma ClickKeepsOtherKeys(prev: seq<string>, key: string)
    ensures Filter(HandleLegendClick(prev, key), Other(key)) == Filter(prev, Other(key))
  {
    if key in prev {
      FilterTwice(prev, key);
    } else {
      FilterAppend(prev, [key], Other(key));
      assert Filter([key], Other(key)) == [] by { assert [key][1..] == []; }
    }
  }

  lemma FilterTwice(s: seq<string>, key: string)
    ensures Filter(Filter(s, Other(key)), Other(key)) == Filter(s, Other(key))
  {
    var once := Filter(s, Other(key));
    assert key !in once by {
      forall i | 0 <= i < |once| ensures once[i] != key { assert Other(key)(once[i]); }
    }
    FilterNoneRemoved(once, key);
  }

  // ---------------------------------------------------------------------------
  // Minute buckets
  // ---------------------------------------------------------------------------

  const MinuteMs: int := 60_000

  /** One input point; a missing or empty timestamp is None. */
  datatype Item = Item(timestamp: Option<int>, temperature: Option<real>, humidity: Option<real>, device: string)

  /** One chart entry: its minute, and the line values set in it. */
  datatype Entry = Entry(minute: int, values: map<string, real>)

  /** The "YYYY-MM-DD HH:mm" bucket of a timestamp, as a minute number. */
  function MinuteOf(t: int): int {
    t / MinuteMs
  }

  function Reading(item: Item, key: MetricKey): Option<real> {
    match key
    case Temperature => item.temperature
    case Humidity => item.humidity
  }

  /** The inner loop: each metric with a defined value writes the item's line for it. */
  function ApplyMetrics(values: map<string, real>, item: Item, metrics: seq<ChartMetric>): map<string, real> {
    if metrics == [] then values
    else
      var before := ApplyMetrics(values, item, metrics[..|metrics| - 1]);
      var key := metrics[|metrics| - 1].key;
      match Reading(item, key)
      case None => before
      case Some(v) => before[LineKey(item.device, key) := v]
  }

  /** The minutes that occur among the timestamped items. */
  function Buckets(items: seq<Item>): set<int> {
    if items == [] then {}
    else
      var last := items[|items| - 1];
      Buckets(items[..|items| - 1]) + (if last.timestamp.Some? then {MinuteOf(last.timestamp.value)} else {})
  }

  /** The values of bucket `b` after the items, in order: later items overwrite earlier ones. */
  function BucketValues(items: seq<Item>, metrics: seq<ChartMetric>, b: int): map<string, real> {
    if items == [] then map[]
    else
      var last := items[|items| - 1];
      var before := BucketValues(items[..|items| - 1], metrics, b);
      if last.timestamp.Some? && MinuteOf(last.timestamp.value) == b then ApplyMetrics(before, last, metrics) else before
  }

  predicate EntryLe(a: Entry, b: Entry) {
    a.minute <= b.minute
  }

  predicate StrictlyIncreasing(s: seq<Entry>) {
    forall i, j :: 0 <= i < j < |s| ==> s[i].minute < s[j].minute
  }

  /**
   * `processedData`: one entry per minute that occurs, holding the values of that minute's items (a later
   * item overwriting an earlier one, undefined values never written), sorted by ascending minute.
   */
  method ProcessedData(items: seq<Item>, metrics: seq<ChartMetric>) returns (entries: seq<Entry>)
    ensures StrictlyIncreasing(entries)
    ensures forall i :: 0 <= i < |entries| ==> entries[i].minute in Buckets(items)
    ensures forall b :: b in Buckets(items) ==> exists i :: 0 <= i < |entries| && entries[i].minute == b
    ensures forall i :: 0 <= i < |entries| ==> entries[i].values == BucketValues(items, metrics, entries[i].minute)
  {
    var byMinute, order := GroupByMinute(items, metrics);
    var unsorted := seq(|order|, k requires 0 <= k < |order| => Entry(order[k], byMinute[order[k]]));
    UnsortedEntries(items, metrics, byMinute, order, unsorted);
    entries := SortBy(unsorted, EntryLe);
    SortStrict(unsorted);
    SortedEntries(items, metrics, unsorted, entries);
  }

  /** One entry per bucket, in first-seen order, each holding that bucket's values. */
  lemma UnsortedEntries(items: seq<Item>, metrics: seq<ChartMetric>, byMinute: map<int, map<string, real>>,
                        order: seq<int>, unsorted: seq<Entry>)
    requires byMinute.Keys == Buckets(items)
    requires forall b :: b in byMinute ==> byMinute[b] == BucketValues(items, metrics, b)
    requires forall k, l :: 0 <= k < l < |order| ==> order[k] != order[l]
    requires forall k :: 0 <= k < |order| ==> order[k] in byMinute
    requires forall b :: b in byMinute ==> exists k :: 0 <= k < |order| && order[k] == b
    requires |unsorted| == |order|
    requires forall k :: 0 <= k < |order| ==> unsorted[k] == Entry(order[k], byMinute[order[k]])
    ensures forall i, j :: 0 <= i < j < |unsorted| ==> unsorted[i].minute != unsorted[j].minute
    ensures forall i :: 0 <= i < |unsorted| ==>
              unsorted[i].minute in Buckets(items) && unsorted[i].values == BucketValues(items, metrics, unsorted[i].minute)
    ensures forall b :: b in Buckets(items) ==> exists i :: 0 <= i < |unsorted| && unsorted[i].minute == b
  {
    forall b | b in Buckets(items) ensures exists i :: 0 <= i < |unsorted| && unsorted[i].minute == b {
      var k :| 0 <= k < |order| && order[k] == b;
      assert unsorted[k].minute == b;
    }
  }

  /** Sorting the entries keeps what each entry holds and which buckets have one. */
  lemma SortedEntries(items: seq<Item>, metrics: seq<ChartMetric>, unsorted: seq<Entry>, entries: seq<Entry>)
    requires multiset(unsorted) == multiset(entries)
    requires forall i :: 0 <= i < |unsorted| ==>
               unsorted[i].minute in Buckets(items) && unsorted[i].values == BucketValues(items, metrics, unsorted[i].minute)
    requires forall b :: b in Buckets(items) ==> exists i :: 0 <= i < |unsorted| && unsorted[i].minute == b
    ensures forall i :: 0 <= i < |entries| ==>
              entries[i].minute in Buckets(items) && entries[i].values == BucketValues(items, metrics, entries[i].minute)
    ensures forall b :: b in Buckets(items) ==> exists i :: 0 <= i < |entries| && entries[i].minute == b
  {
    SameEntries(unsorted, entries);
    forall b | b in Buckets(items) ensures exists i :: 0 <= i < |entries| && entries[i].minute == b {
      var k :| 0 <= k < |unsorted| && unsorted[k].minute == b;
      assert unsorted[k] in entries;
    }
  }

  /** The loop of `processedData`: the map from minute to its line values, and the minutes in first-seen order. */
  method GroupByMinute(items: seq<Item>, metrics: seq<ChartMetric>) returns (byMinute: map<int, map<string, real>>, order: seq<int>)
    ensures byMinute.Keys == Buckets(items)
    ensures forall b :: b in byMinute ==> byMinute[b] == BucketValues(items, metrics, b)
    ensures forall k, l :: 0 <= k < l < |order| ==> order[k] != order[l]
    ensures forall k :: 0 <= k < |order| ==> order[k] in byMinute
    ensures forall b :: b in byMinute ==> exists k :: 0 <= k < |order| && order[k] == b
  {
    byMinute := map[];
    order := [];
    for i := 0 to |items|
      invariant byMinute.Keys == Buckets(items[..i])
      invariant forall b :: b in byMinute ==> byMinute[b] == BucketValues(items[..i], metrics, b)
      invariant forall k, l :: 0 <= k < l < |order| ==> order[k] != order[l]
      invariant forall k :: 0 <= k < |order| ==> order[k] in byMinute
      invariant forall b :: b in byMinute ==> exists k :: 0 <= k < |order| && order[k] == b
    {
      var item := items[i];
      assert items[..i + 1][..i] == items[..i];
      if item.timestamp.Some? {
        var minute := MinuteOf(item.timestamp.value);
        if minute !in byMinute {
          AbsentBucketIsEmpty(items[..i], metrics, minute);
          byMinute := byMinute[minute := map[]];
          ghost var before := order;
          order := order + [minute];
          assert forall k :: 0 <= k < |before| ==> order[k] == before[k];
          assert order[|before|] == minute;
        }
        var entry := ApplyItem(byMinute[minute], item, metrics);
        byMinute := byMinute[minute := entry];
      }
    }
    assert items[..|items|] == items;
  }

  /** The inner loop of `processedData`: each metric with a defined value writes the item's line. */
  method ApplyItem(values: map<string, real>, item: Item, metrics: seq<ChartMetric>) returns (entry: map<string, real>)
    ensures entry == ApplyMetrics(values, item, metrics)
  {
    entry := values;
    for j := 0 to |metrics|
      invariant entry == ApplyMetrics(values, item, metrics[..j])
    {
      assert metrics[..j + 1][..j] == metrics[..j];
      var key := metrics[j].key;
      if Reading(item, key).Some? {
        entry := entry[LineKey(item.device, key) := Reading(item, key).value];
      }
    }
    assert metrics[..|metrics|] == metrics;
  }

  lemma {:induction false} AbsentBucketIsEmpty(items: seq<Item>, metrics: seq<ChartMetric>, b: int)
    requires b !in Buckets(items)
    ensures BucketValues(items, metrics, b) == map[]
  {
    if items != [] {
      AbsentBucketIsEmpty(items[..|items| - 1], metrics, b);
    }
  }

  lemma SameEntries(a: seq<Entry>, b: seq<Entry>)
    requires multiset(a) == multiset(b)
    ensures forall i :: 0 <= i < |b| ==> b[i] in a
    ensures forall i :: 0 <= i < |a| ==> a[i] in b
  {
    forall i | 0 <= i < |b| ensures b[i] in a { assert b[i] in multiset(b); }
    forall i | 0 <= i < |a| ensures a[i] in b { assert a[i] in multiset(a); }
  }

  lemma {:induction false} InsertStrict(x: Entry, s: seq<Entry>)
    requires StrictlyIncreasing(s)
    requires forall i :: 0 <= i < |s| ==> s[i].minute != x.minute
    ensures StrictlyIncreasing(Insert(x, s, EntryLe))
  {
    if s != [] && !EntryLe(x, s[0]) {
      var t := Insert(x, s[1..], EntryLe);
      assert StrictlyIncreasing(t) by {
        InsertStrict(x, s[1..]);
      }
      forall j | 0 <= j < |t| ensures s[0].minute < t[j].minute {
        assert t[j] in multiset(s[1..]) + multiset{x} by { assert t[j] in multiset(t); }
        if t[j] != x {
          assert t[j] in s[1..];
          var k :| 0 <= k < |s[1..]| && s[1..][k] == t[j];
          assert s[k + 1] == t[j];
        }
      }
      PrependStrict(s[0], t);
      assert Insert(x, s, EntryLe) == [s[0]] + t;
    }
  }

  /** An entry earlier than every entry of a strictly increasing sequence can go in front of it. */
  lemma PrependStrict(e: Entry, t: seq<Entry>)
    requires StrictlyIncreasing(t)
    requires forall j :: 0 <= j < |t| ==> e.minute < t[j].minute
    ensures StrictlyIncreasing([e] + t)
  {
    var r := [e] + t;
    forall i, j | 0 <= i < j < |r| ensures r[i].minute < r[j].minute {
      assert r[j] == t[j - 1];
      if i > 0 { assert r[i] == t[i - 1]; }
    }
  }

  lemma {:induction false} SortStrict(s: seq<Entry>)
    requires forall i, j :: 0 <= i < j < |s| ==> s[i].minute != s[j].minute
    ensures StrictlyIncreasing(SortBy(s, EntryLe))
  {
    if s != [] {
      var rest := SortBy(s[1..], EntryLe);
      SortStrict(s[1..]);
      forall i | 0 <= i < |rest| ensures rest[i].minute != s[0].minute {
        assert rest[i] in multiset(s[1..]) by { assert rest[i] in multiset(rest); }
        var k :| 0 <= k < |s[1..]| && s[1..][k] == rest[i];
        assert s[k + 1] == rest[i];
      }
      InsertStrict(s[0], rest);
    }
  }

  /** A later item of the same minute overwrites the value an earlier one wrote for that line. */
  lemma {:induction false} LaterItemWins(items: seq<Item>, metrics: seq<ChartMetric>, last: Item, key: MetricKey)
    requires last.timestamp.Some? && Reading(last, key).Some?
    requires exists i :: 0 <= i < |metrics| && metrics[i].key == key
    ensures var values := BucketValues(items + [last], metrics, MinuteOf(last.timestamp.value));
      LineKey(last.device, key) in values && values[LineKey(last.device, key)] == Reading(last, key).value
  {
    assert (items + [last])[..|items|] == items;
    var before := BucketValues(items, metrics, MinuteOf(last.timestamp.value));
    assert BucketValues(items + [last], metrics, MinuteOf(last.timestamp.value)) == ApplyMetrics(before, last, metrics);
    ApplyMetricsWrites(before, last, metrics, key);
  }

  /** Whatever was there before, an item's defined value for one of the metrics ends up on its line. */
  lemma {:induction false} ApplyMetricsWrites(values: map<string, real>, item: Item, metrics: seq<ChartMetric>, key: MetricKey)
    requires Reading(item, key).Some?
    requires exists i :: 0 <= i < |metrics| && metrics[i].key == key
    ensures LineKey(item.device, key) in ApplyMetrics(values, item, metrics)
    ensures ApplyMetrics(values, item, metrics)[LineKey(item.device, key)] == Reading(item, key).value
  {
    var lastKey := metrics[|metrics| - 1].key;
    if lastKey != key {
      var i :| 0 <= i < |metrics| && metrics[i].key == key;
      assert metrics[..|metrics| - 1][i].key == key;
      ApplyMetricsWrites(values, item, metrics[..|metrics| - 1], key);
      assert |LineKey(item.device, lastKey)| != |LineKey(item.device, key)|;
    }
  }

  /** An item whose values are undefined changes no line of its minute. */
  lemma {:induction false} UndefinedValuesAreSkipped(items: seq<Item>, metrics: seq<ChartMetric>, last: Item, b: int)
    requires last.temperature.None? && last.humidity.None?
    ensures BucketValues(items + [last], metrics, b) == BucketValues(items, metrics, b)
  {
    assert (items + [last])[..|items|] == items;
    NoValuesNoWrites(BucketValues(items, metrics, b), last, metrics);
  }

  lemma {:induction false} NoValuesNoWrites(values: map<string, real>, item: Item, metrics: seq<ChartMetric>)
    requires item.temperature.None? && item.humidity.None?
    ensures ApplyMetrics(values, item, metrics) == values
  {
    if metrics != [] {
      NoValuesNoWrites(values, item, metrics[..|metrics| - 1]);
    }
  }
}
