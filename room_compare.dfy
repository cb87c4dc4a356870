/**
 * The room comparison view: two selected rooms, their latest measurements, their historic measurements
 * filtered to the chosen time range, and the differences shown between them.
 */
module RoomCompare {
  import opened Wrappers
  import opened Sequences
  import Store
  import LineChartCompare

  type Measurement = Store.Measurement
  type Room = Store.Room

  const OneDay: int := 86_400_000

  /** A selected room: its name (the select's value and its label, `display` here) and the MAC of its first device. */
  datatype Selection = Selection(value: string, display: string, macAddress: string)

  /** A room's selection; reading `devices[0]` of a room without devices throws, which is None here. */
  function SelectionOf(room: Room): (s: Option<Selection>)
    ensures s.Some? <==> |room.devices| > 0
    ensures s.Some? ==> s.value.value == room.name && s.value.display == room.name
                        && s.value.macAddress == room.devices[0].macAddress
  {
    if |room.devices| == 0 then None else Some(Selection(room.name, room.name, room.devices[0].macAddress))
  }

  /** `rooms.find`: the first room with that name. */
  function FindRoom(rooms: seq<Room>, name: string): (r: Option<Room>)
    ensures r.Some? ==> r.value in rooms && r.value.name == name
    ensures r.None? <==> forall i :: 0 <= i < |rooms| ==> rooms[i].name != name
  {
    if rooms == [] then None else if rooms[0].name == name then Some(rooms[0]) else FindRoom(rooms[1..], name)
  }

  /** The room found is the first with that name. */
  lemma {:induction false} FindRoomIsFirst(rooms: seq<Room>, name: string, i: nat)
    requires i < |rooms| && rooms[i].name == name
    ensures FindRoom(rooms, name).Some?
    ensures exists k :: 0 <= k <= i && rooms[k] == FindRoom(rooms, name).value
                        && forall j :: 0 <= j < k ==> rooms[j].name != name
  {
    if rooms[0].name != name {
      FindRoomIsFirst(rooms[1..], name, i - 1);
      var k :| 0 <= k <= i - 1 && rooms[1..][k] == FindRoom(rooms[1..], name).value
               && forall j :: 0 <= j < k ==> rooms[1..][j].name != name;
      assert rooms[k + 1] == FindRoom(rooms, name).value;
      forall j | 0 <= j < k + 1 ensures rooms[j].name != name {
        if j > 0 { assert rooms[j] == rooms[1..][j - 1]; }
      }
    }
  }

  /** `measurements.find`: the first measurement whose MAC equals the selected one; a null MAC never matches. */
  function FindByMac(ms: seq<Measurement>, mac: string): (r: Option<Measurement>)
    ensures r.Some? ==> r.value in ms && r.value.macAddress == Some(mac)
    ensures r.None? <==> forall i :: 0 <= i < |ms| ==> ms[i].macAddress != Some(mac)
    ensures r.Some? ==> exists k :: 0 <= k < |ms| && ms[k] == r.value && forall j :: 0 <= j < k ==> ms[j].macAddress != Some(mac)
  {
    if ms == [] then None
    else if ms[0].macAddress == Some(mac) then Some(ms[0])
    else
      var rest := FindByMac(ms[1..], mac);
      assert rest.Some? ==> exists k :: 0 <= k < |ms| && ms[k] == rest.value && forall j :: 0 <= j < k ==> ms[j].macAddress != Some(mac) by {
        if rest.Some? {
          var k :| 0 <= k < |ms[1..]| && ms[1..][k] == rest.value && forall j :: 0 <= j < k ==> ms[1..][j].macAddress != Some(mac);
          assert ms[k + 1] == rest.value;
          forall j | 0 <= j < k + 1 ensures ms[j].macAddress != Some(mac) {
            if j > 0 { assert ms[j] == ms[1..][j - 1]; }
          }
        }
      }
      rest
  }

  predicate StrictlyInside(start: int, end: int, m: Measurement) {
    start < m.timestamp < end
  }

  function StrictRange(start: int, end: int): Measurement -> bool {
    m => StrictlyInside(start, end, m)
  }

  /** `filterData`: the measurements strictly after start and strictly before end; no range keeps nothing. */
  function FilterData(data: seq<Measurement>, range: Option<(int, int)>): (r: seq<Measurement>)
    ensures range.None? ==> r == []
    ensures range.Some? ==> forall i :: 0 <= i < |r| ==> r[i] in data && range.value.0 < r[i].timestamp < range.value.1
    ensures range.Some? ==> forall i :: 0 <= i < |data| && range.value.0 < data[i].timestamp < range.value.1 ==> data[i] in r
  {
    match range
    case None => []
    case Some((start, end)) =>
      var r := Filter(data, StrictRange(start, end));
      assert forall i :: 0 <= i < |r| ==> StrictRange(start, end)(r[i]);
      r
  }

  /** Each measurement strictly inside the range is kept as often as the data holds it; no other is kept. */
  lemma FilterDataMultiplicity(data: seq<Measurement>, start: int, end: int)
    ensures forall m :: multiset(FilterData(data, Some((start, end))))[m]
                     == if StrictlyInside(start, end, m) then multiset(data)[m] else 0
  {
    FilterMultiplicity(data, StrictRange(start, end));
  }

  /** A row at exactly the start of the range is returned by the server's window but dropped by the client. */
  lemma {:induction false} BoundaryRowServerKeepsClientDrops(m: Measurement, end: int)
    requires m.timestamp <= end
    ensures Store.GetMeasurementsInTimeRange([m], m.timestamp, end) == [m]
    ensures FilterData([m], Some((m.timestamp, end))) == []
  {
    var server := Store.GetMeasurementsInTimeRange([m], m.timestamp, end);
    assert m in server;
    assert |server| == 1 by {
      assert multiset(server) == multiset(Filter([m], Store.TimeRangeFilter(m.timestamp, end)));
      assert |multiset(Filter([m], Store.TimeRangeFilter(m.timestamp, end)))| <= 1;
    }
    assert !StrictRange(m.timestamp, end)(m);
    assert [m][1..] == [];
  }

  /** The truthiness test `!x?.reading` fails for a missing measurement, a missing reading and zero. */
  predicate Truthy(v: Option<real>) {
    v.Some? && v.value != 0.0
  }

  function TemperatureOf(m: Option<Measurement>): Option<real> {
    if m.Some? then m.value.temperature else None
  }

  function HumidityOf(m: Option<Measurement>): Option<real> {
    if m.Some? then m.value.humidity else None
  }

  /** A − B when both readings are truthy, else 0. */
  function Difference(a: Option<real>, b: Option<real>): (d: real)
    ensures Truthy(a) && Truthy(b) ==> d == a.value - b.value
    ensures !(Truthy(a) && Truthy(b)) ==> d == 0.0
  {
    if !Truthy(a) || !Truthy(b) then 0.0 else a.value - b.value
  }

  /** `getTemperatureDifference`: room A's temperature minus room B's, or 0 when either is missing or zero. */
  function TemperatureDifference(a: Option<Measurement>, b: Option<Measurement>): (d: real)
    ensures (a.Some? && b.Some? && a.value.temperature.Some? && b.value.temperature.Some?
             && a.value.temperature.value != 0.0 && b.value.temperature.value != 0.0) ==>
              d == a.value.temperature.value - b.value.temperature.value
    ensures (a.None? || b.None? || a.value.temperature in {None, Some(0.0)} || b.value.temperature in {None, Some(0.0)}) ==>
              d == 0.0
  {
    Difference(TemperatureOf(a), TemperatureOf(b))
  }

  /** `getHumidityDifference`: room A's humidity minus room B's, or 0 when either is missing or zero. */
  function HumidityDifference(a: Option<Measurement>, b: Option<Measurement>): (d: real)
    ensures (a.Some? && b.Some? && a.value.humidity.Some? && b.value.humidity.Some?
             && a.value.humidity.value != 0.0 && b.value.humidity.value != 0.0) ==>
              d == a.value.humidity.value - b.value.humidity.value
    ensures (a.None? || b.None? || a.value.humidity in {None, Some(0.0)} || b.value.humidity in {None, Some(0.0)}) ==>
              d == 0.0
  {
    Difference(HumidityOf(a), HumidityOf(b))
  }

  /** Swapping the rooms negates the difference. */
  lemma DifferenceIsAntisymmetric(a: Option<real>, b: Option<real>)
    ensures Difference(a, b) == -Difference(b, a)
  {
  }

  /** A legitimate reading of exactly zero is treated like a missing one. */
  lemma {:induction false} ZeroReadingGivesNoDifference(a: Option<Measurement>, b: Option<Measurement>)
    requires b.Some? && b.value.temperature == Some(0.0)
    ensures TemperatureDifference(a, b) == 0.0
  {
    assert !Truthy(TemperatureOf(b));
  }

  const TemperatureMetric: LineChartCompare.ChartMetric :=
    LineChartCompare.ChartMetric(LineChartCompare.Temperature, "Temperatur", ["#1890ff", "#00c49f"], "°C")
  const HumidityMetric: LineChartCompare.ChartMetric :=
    LineChartCompare.ChartMetric(LineChartCompare.Humidity, "Luftfeuchtigkeit", ["#ff7300", "#ffc658"], "%")

  predicate HasKey(metrics: seq<LineChartCompare.ChartMetric>, key: LineChartCompare.MetricKey) {
    exists i :: 0 <= i < |metrics| && metrics[i].key == key
  }

  class Compare {
    var rooms: seq<Room>
    var selectedA: Option<Selection>
    var selectedB: Option<Selection>
    var latestA: Option<Measurement>
    var latestB: Option<Measurement>
    var historicA: seq<Measurement>
    var historicB: seq<Measurement>
    var filteredA: seq<Measurement>
    var filteredB: seq<Measurement>
    var showTemperature: bool
    var showHumidity: bool
    var timeRange: Option<(int, int)>

    /** The filtered data always follows the historic data and the time range. */
    ghost predicate Valid()
      reads this
    {
      filteredA == FilterData(historicA, timeRange) && filteredB == FilterData(historicB, timeRange)
    }

    /** The initial state: nothing loaded, temperature shown, the last day selected. */
    constructor(now: int)
      ensures Valid()
      ensures rooms == [] && selectedA.None? && selectedB.None? && latestA.None? && latestB.None?
      ensures historicA == [] && historicB == [] && filteredA == [] && filteredB == []
      ensures showTemperature && !showHumidity && timeRange == Some((now - OneDay, now))
    {
      rooms := [];
      selectedA, selectedB := None, None;
      latestA, latestB := None, None;
      historicA, historicB := [], [];
      filteredA, filteredB := [], [];
      showTemperature, showHumidity := true, false;
      timeRange := Some((now - OneDay, now));
    }

    /**
     * The room load on mount (None: the request failed). With at least two rooms, A and B become the first
     * two; reading the first device of a room without devices throws and stops the remaining updates.
     */
    method LoadRooms(fetched: Option<seq<Room>>)
      modifies this
      requires Valid()
      ensures Valid()
      ensures fetched.None? ==> rooms == old(rooms) && selectedA == old(selectedA) && selectedB == old(selectedB)
      ensures fetched.Some? ==> rooms == fetched.value
      ensures fetched.Some? && |fetched.value| >= 2 && |fetched.value[0].devices| > 0 ==>
                selectedA == SelectionOf(fetched.value[0])
      ensures fetched.Some? && |fetched.value| >= 2 && |fetched.value[0].devices| > 0 && |fetched.value[1].devices| > 0 ==>
                selectedB == SelectionOf(fetched.value[1])
      ensures fetched.Some? && |fetched.value| >= 2 && (|fetched.value[0].devices| == 0 || |fetched.value[1].devices| == 0) ==>
                selectedB == old(selectedB)
      ensures fetched.Some? && (|fetched.value| < 2 || |fetched.value[0].devices| == 0) ==> selectedA == old(selectedA)
      ensures fetched.Some? && |fetched.value| < 2 ==> selectedB == old(selectedB)
      ensures latestA == old(latestA) && latestB == old(latestB) && historicA == old(historicA) && historicB == old(historicB)
      ensures showTemperature == old(showTemperature) && showHumidity == old(showHumidity) && timeRange == old(timeRange)
    {
      if fetched.Some? {
        var fetchedRooms := fetched.value;
        rooms := fetchedRooms;
        if |fetchedRooms| >= 2 {
          var a := SelectionOf(fetchedRooms[0]);
          if a.Some? {
            selectedA := a;
            var b := SelectionOf(fetchedRooms[1]);
            if b.Some? {
              selectedB := b;
            }
          }
        }
      }
    }

    /** `getRoomByValue` over the loaded rooms. */
    function RoomByValue(name: string): Option<Room>
      reads this
    {
      FindRoom(rooms, name)
    }

    /** `onChangeSelectA`: a known room with a device replaces selection A; anything else changes nothing. */
    method OnChangeSelectA(value: string)
      modifies this
      requires Valid()
      ensures Valid()
      ensures var room := FindRoom(rooms, value);
        selectedA == if room.Some? && |room.value.devices| > 0 then SelectionOf(room.value) else old(selectedA)
      ensures FindRoom(rooms, value).None? ==> selectedA == old(selectedA)
      ensures rooms == old(rooms) && selectedB == old(selectedB) && latestA == old(latestA) && latestB == old(latestB)
      ensures historicA == old(historicA) && historicB == old(historicB) && filteredA == old(filteredA) && filteredB == old(filteredB)
      ensures showTemperature == old(showTemperature) && showHumidity == old(showHumidity) && timeRange == old(timeRange)
    {
      var room := RoomByValue(value);
      if room.Some? {
        var s := SelectionOf(room.value);
        if s.Some? {
          selectedA := s;
        }
      }
    }

    /** `onChangeSelectB`, the same for selection B. */
    method OnChangeSelectB(value: string)
      modifies this
      requires Valid()
      ensures Valid()
      ensures var room := FindRoom(rooms, value);
        selectedB == if room.Some? && |room.value.devices| > 0 then SelectionOf(room.value) else old(selectedB)
      ensures FindRoom(rooms, value).None? ==> selectedB == old(selectedB)
      ensures rooms == old(rooms) && selectedA == old(selectedA) && latestA == old(latestA) && latestB == old(latestB)
      ensures historicA == old(historicA) && historicB == old(historicB) && filteredA == old(filteredA) && filteredB == old(filteredB)
      ensures showTemperature == old(showTemperature) && showHumidity == old(showHumidity) && timeRange == old(timeRange)
    {
      var room := RoomByValue(value);
      if room.Some? {
        var s := SelectionOf(room.value);
        if s.Some? {
          selectedB := s;
        }
      }
    }

    /**
     * `fetchLatestMeasurements`, given the server's answer (None: the request failed). Without both selections
     * or with a failed request nothing changes; otherwise each side gets its first MAC match or nothing.
     */
    method FetchLatestMeasurements(measurements: Option<seq<Measurement>>) returns (fetched: bool)
      modifies this
      requires Valid()
      ensures Valid()
      ensures fetched <==> selectedA.Some? && selectedB.Some?
      ensures selectedA.Some? && selectedB.Some? && measurements.Some? ==>
                latestA == FindByMac(measurements.value, selectedA.value.macAddress)
                && latestB == FindByMac(measurements.value, selectedB.value.macAddress)
      ensures !(selectedA.Some? && selectedB.Some? && measurements.Some?) ==> latestA == old(latestA) && latestB == old(latestB)
      ensures rooms == old(rooms) && selectedA == old(selectedA) && selectedB == old(selectedB)
      ensures historicA == old(historicA) && historicB == old(historicB) && filteredA == old(filteredA) && filteredB == old(filteredB)
      ensures showTemperature == old(showTemperature) && showHumidity == old(showHumidity) && timeRange == old(timeRange)
    {
      if selectedA.None? || selectedB.None? {
        return false;
      }
      fetched := true;
      if measurements.Some? {
        latestA := FindByMac(measurements.value, selectedA.value.macAddress);
        latestB := FindByMac(measurements.value, selectedB.value.macAddress);
      }
    }

    /**
     * `fetchHistoricData`, given both rooms' answers (None: the request failed, which fails both). It needs
     * both selections and a range; the filtered data then follows.
     */
    method FetchHistoricData(forA: Option<seq<Measurement>>, forB: Option<seq<Measurement>>) returns (fetched: bool)
      modifies this`historicA, this`historicB, this`filteredA, this`filteredB
      requires Valid()
      ensures Valid()
      ensures fetched <==> selectedA.Some? && selectedB.Some? && timeRange.Some?
      ensures fetched && forA.Some? && forB.Some? ==> historicA == forA.value && historicB == forB.value
      ensures !(fetched && forA.Some? && forB.Some?) ==> historicA == old(historicA) && historicB == old(historicB)
      ensures rooms == old(rooms) && selectedA == old(selectedA) && selectedB == old(selectedB)
      ensures latestA == old(latestA) && latestB == old(latestB)
      ensures showTemperature == old(showTemperature) && showHumidity == old(showHumidity) && timeRange == old(timeRange)
    {
      if selectedA.None? || selectedB.None? || timeRange.None? {
        return false;
      }
      fetched := true;
      if forA.Some? && forB.Some? {
        SetHistoric(forA.value, forB.value);
      }
    }

    /** Both rooms' history arrives together; the filtered data then follows. */
    method SetHistoric(a: seq<Measurement>, b: seq<Measurement>)
      modifies this`historicA, this`historicB, this`filteredA, this`filteredB
      ensures Valid()
      ensures historicA == a && historicB == b
      ensures rooms == old(rooms) && selectedA == old(selectedA) && selectedB == old(selectedB)
      ensures latestA == old(latestA) && latestB == old(latestB)
      ensures showTemperature == old(showTemperature) && showHumidity == old(showHumidity) && timeRange == old(timeRange)
    {
      historicA, historicB := a, b;
      RefreshFiltered();
    }

    /** A new range from the picker; the filtered data follows. */
    method SetTimeRange(range: Option<(int, int)>)
      modifies this`timeRange, this`filteredA, this`filteredB
      requires Valid()
      ensures Valid()
      ensures timeRange == range
      ensures range.None? ==> filteredA == [] && filteredB == []
      ensures rooms == old(rooms) && selectedA == old(selectedA) && selectedB == old(selectedB)
      ensures latestA == old(latestA) && latestB == old(latestB) && historicA == old(historicA) && historicB == old(historicB)
      ensures showTemperature == old(showTemperature) && showHumidity == old(showHumidity)
    {
      timeRange := range;
      RefreshFiltered();
    }

    /** The effect that recomputes the filtered data from the historic data and the range. */
    method RefreshFiltered()
      modifies this`filteredA, this`filteredB
      ensures Valid()
      ensures rooms == old(rooms) && selectedA == old(selectedA) && selectedB == old(selectedB)
      ensures latestA == old(latestA) && latestB == old(latestB) && historicA == old(historicA) && historicB == old(historicB)
      ensures showTemperature == old(showTemperature) && showHumidity == old(showHumidity) && timeRange == old(timeRange)
    {
      var a := FilterData(historicA, timeRange);
      var b := FilterData(historicB, timeRange);
      filteredA, filteredB := a, b;
    }

    /** The differences shown between the latest measurements of A and B. */
    function Differences(): (d: (real, real))
      reads this
      ensures d.0 == Difference(TemperatureOf(latestA), TemperatureOf(latestB))
      ensures d.1 == Difference(HumidityOf(latestA), HumidityOf(latestB))
    {
      (TemperatureDifference(latestA, latestB), HumidityDifference(latestA, latestB))
    }

    /** `chartMetrics`: temperature when shown, then humidity when shown. */
    method ChartMetrics() returns (metrics: seq<LineChartCompare.ChartMetric>)
      ensures HasKey(metrics, LineChartCompare.Temperature) <==> showTemperature
      ensures HasKey(metrics, LineChartCompare.Humidity) <==> showHumidity
      ensures |metrics| == (if showTemperature then 1 else 0) + (if showHumidity then 1 else 0)
      ensures showTemperature ==> metrics[0] == TemperatureMetric
      ensures showHumidity ==> metrics[|metrics| - 1] == HumidityMetric
    {
      metrics := [];
      if showTemperature {
        metrics := metrics + [TemperatureMetric];
      }
      if showHumidity {
        metrics := metrics + [HumidityMetric];
      }
      if showTemperature {
        assert metrics[0].key == LineChartCompare.Temperature;
      } else {
        assert forall i :: 0 <= i < |metrics| ==> metrics[i] == HumidityMetric;
      }
      if showHumidity {
        assert metrics[|metrics| - 1].key == LineChartCompare.Humidity;
      } else {
        assert forall i :: 0 <= i < |metrics| ==> metrics[i] == TemperatureMetric;
      }
    }
  }
}
