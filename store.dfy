/**
 * The measurement store: one `measurements` table
 * (id SERIAL, timestamp, temperature, humidity, ip_address VARCHAR(45),
 * mac_address VARCHAR(17), device_name VARCHAR(255)), an insert that appends a row,
 * and the read queries, each given its SQL meaning over the table's rows.
 */
module Store {
  import opened Wrappers
  import opened Sequences
  import Numerals

  const IpAddressWidth: nat := 45
  const MacAddressWidth: nat := 17
  const DeviceNameWidth: nat := 255
  /** The room name given to measurements without a device name. */
  const UnknownRoom: string := "Unknown Room"

  /** One row of the table. Timestamps are milliseconds on the server's local clock. */
  datatype Measurement = Measurement(
    id: int,
    timestamp: int,
    temperature: Option<real>,
    humidity: Option<real>,
    ipAddress: Option<string>,
    macAddress: Option<string>,
    deviceName: Option<string>)

  /** A distinct (mac_address, device_name) pair, nulls shown as "". */
  datatype Device = Device(macAddress: string, name: string)

  /** A distinct device name together with the devices listed under it. */
  datatype Room = Room(devices: seq<Device>, name: string)

  /** The errors the database raises for the statements below. */
  datatype StoreError =
    | NegativeLimit                // LIMIT must not be negative
    | NegativeOffset               // OFFSET must not be negative
    | ValueTooLong(column: string) // value too long for type character varying(n)
    | IdsExhausted                 // the SERIAL sequence passed the largest int4

  /**
   * Whether a value may be assigned to a VARCHAR(width) column: null, at most `width` characters, or longer
   * with only spaces past the width.
   */
  predicate FitsColumn(v: Option<string>, width: nat) {
    v.None? || forall i :: width <= i < |v.value| ==> v.value[i] == ' '
  }

  /** What the column holds after the assignment: a value longer than the width is cut to it. */
  function Stored(v: Option<string>, width: nat): (r: Option<string>)
    ensures r.None? <==> v.None?
    ensures r.Some? ==> |r.value| <= width && r.value <= v.value
    ensures r.Some? && |v.value| <= width ==> r == v
    ensures r.Some? && FitsColumn(v, width) ==> forall i :: |r.value| <= i < |v.value| ==> v.value[i] == ' '
  {
    if v.Some? && |v.value| > width then Some(v.value[..width]) else v
  }

  /** A MAC with one trailing space past VARCHAR(17) is stored without it; any other extra character is refused. */
  lemma TrailingSpacesAreCut()
    ensures FitsColumn(Some("AA:BB:CC:DD:EE:FF "), MacAddressWidth)
    ensures Stored(Some("AA:BB:CC:DD:EE:FF "), MacAddressWidth) == Some("AA:BB:CC:DD:EE:FF")
    ensures !FitsColumn(Some("AA:BB:CC:DD:EE:FFX"), MacAddressWidth)
  {
    assert "AA:BB:CC:DD:EE:FF "[..17] == "AA:BB:CC:DD:EE:FF";
    assert "AA:BB:CC:DD:EE:FFX"[17] == 'X';
  }

  // ---------------------------------------------------------------------------
  // The table and its one mutation
  // ---------------------------------------------------------------------------

  class MeasurementTable {
    var rows: seq<Measurement>
    /** The next value of the id sequence. */
    var nextId: int

    /** Ids are positive, strictly increasing in insertion order, and below the sequence's next value. */
    ghost predicate Valid()
      reads this
    {
      && nextId >= 1
      && (forall i :: 0 <= i < |rows| ==> 1 <= rows[i].id < nextId)
      && (forall i, j :: 0 <= i < j < |rows| ==> rows[i].id < rows[j].id)
    }

    constructor ()
      ensures Valid() && rows == [] && nextId == 1
    {
      rows := [];
      nextId := 1;
    }

    /**
     * `saveMeasurement`: appends one row holding the given fields, stamped `now` (the column default),
     * under the next id, and returns that id. Strings longer than their column but only by spaces are
     * stored cut to the column width. The id is drawn before the row's strings are checked against
     * their column widths, so a rejected insert still uses up an id; nothing else changes.
     */
    method SaveMeasurement(now: int, temperature: Option<real> := None, humidity: Option<real> := None,
                           ipAddress: Option<string> := None, macAddress: Option<string> := None,
                           deviceName: Option<string> := None)
      returns (r: Result<int, StoreError>)
      requires Valid()
      modifies this
      ensures Valid()
      ensures r == InsertOutcome(old(nextId), ipAddress, macAddress, deviceName)
      ensures r.Success? ==>
        && r.value == old(nextId) && r.value > 0
        && (forall i :: 0 <= i < |old(rows)| ==> old(rows)[i].id != r.value)
        && rows == old(rows) + [Measurement(r.value, now, temperature, humidity, Stored(ipAddress, IpAddressWidth),
                                            Stored(macAddress, MacAddressWidth), Stored(deviceName, DeviceNameWidth))]
      ensures r.Failure? ==> rows == old(rows)
      ensures nextId == if old(nextId) > Numerals.IntMax then old(nextId) else old(nextId) + 1
    {
      r := InsertOutcome(nextId, ipAddress, macAddress, deviceName);
      if nextId <= Numerals.IntMax {
        var id := nextId;
        nextId := nextId + 1;
        if r.Success? {
          rows := rows + [Measurement(id, now, temperature, humidity, Stored(ipAddress, IpAddressWidth),
                                      Stored(macAddress, MacAddressWidth), Stored(deviceName, DeviceNameWidth))];
        }
      }
    }
  }

  /** What the insert statement returns: the drawn id, or the first error it runs into. */
  function InsertOutcome(nextId: int, ipAddress: Option<string>, macAddress: Option<string>,
                         deviceName: Option<string>): (r: Result<int, StoreError>)
    ensures r.Success? <==> nextId <= Numerals.IntMax && FitsColumn(ipAddress, IpAddressWidth)
                            && FitsColumn(macAddress, MacAddressWidth) && FitsColumn(deviceName, DeviceNameWidth)
    ensures r.Success? ==> r.value == nextId
  {
    if nextId > Numerals.IntMax then Failure(IdsExhausted)
    else if !FitsColumn(ipAddress, IpAddressWidth) then Failure(ValueTooLong("ip_address"))
    else if !FitsColumn(macAddress, MacAddressWidth) then Failure(ValueTooLong("mac_address"))
    else if !FitsColumn(deviceName, DeviceNameWidth) then Failure(ValueTooLong("device_name"))
    else Success(nextId)
  }

  // ---------------------------------------------------------------------------
  // ORDER BY, LIMIT and OFFSET
  // ---------------------------------------------------------------------------

  /** ORDER BY timestamp DESC. */
  predicate NewestFirst(a: Measurement, b: Measurement) {
    a.timestamp >= b.timestamp
  }

  /** ORDER BY timestamp ASC. */
  predicate OldestFirst(a: Measurement, b: Measurement) {
    a.timestamp <= b.timestamp
  }

  lemma TimestampOrdersArePreorders()
    ensures TotalPreorder(NewestFirst) && TotalPreorder(OldestFirst)
  {
  }

  function Min(a: int, b: int): int {
    if a <= b then a else b
  }

  /** The rows that LIMIT `limit` OFFSET `offset` keeps. */
  function Window<T>(s: seq<T>, limit: nat, offset: nat): (w: seq<T>)
    ensures |w| == if offset >= |s| then 0 else Min(limit, |s| - offset)
    ensures forall i :: 0 <= i < |w| ==> w[i] == s[offset + i]
    ensures multiset(w) <= multiset(s)
  {
    if offset >= |s| then []
    else
      var end := Min(offset + limit, |s|);
      assert s == s[..offset] + s[offset..end] + s[end..];
      s[offset..end]
  }

  /**
   * LIMIT/OFFSET, which the database rejects when either is negative. The executor checks the
   * OFFSET first, so when both are negative the error is the OFFSET one.
   */
  function LimitOffset<T>(s: seq<T>, limit: int, offset: int): (r: Result<seq<T>, StoreError>)
    ensures r.Failure? <==> limit < 0 || offset < 0
    ensures r.Failure? ==> r.error == if offset < 0 then NegativeOffset else NegativeLimit
    ensures r.Success? ==> r.value == Window(s, limit, offset)
  {
    if offset < 0 then Failure(NegativeOffset)
    else if limit < 0 then Failure(NegativeLimit)
    else Success(Window(s, limit, offset))
  }

  /** Two adjacent windows together are the window that spans both. */
  lemma AdjacentWindows<T>(s: seq<T>, a: nat, b: nat, offset: nat)
    ensures Window(s, a, offset) + Window(s, b, offset + a) == Window(s, a + b, offset)
  {
    var l, r, w := Window(s, a, offset), Window(s, b, offset + a), Window(s, a + b, offset);
    assert |l + r| == |w|;
    forall i | 0 <= i < |w| ensures (l + r)[i] == w[i] {
      if i < |l| {
        assert (l + r)[i] == l[i] == s[offset + i];
      } else {
        assert |l| == a;
        assert (l + r)[i] == r[i - a] == s[offset + a + (i - a)];
      }
    }
  }

  /** How many of `n` rows LIMIT `limit` OFFSET `offset` keeps. */
  function WindowLength(n: nat, limit: int, offset: int): int {
    if offset >= n then 0 else Min(limit, n - offset)
  }

  /** Rows sorted newest first, then windowed: the shape of every paginated read. */
  function NewestPage(rows: seq<Measurement>, limit: int, offset: int): (r: Result<seq<Measurement>, StoreError>)
    ensures r.Failure? <==> limit < 0 || offset < 0
    ensures r.Failure? ==> r.error == if offset < 0 then NegativeOffset else NegativeLimit
    ensures r.Success? ==> SortedBy(r.value, NewestFirst)
    ensures r.Success? ==> |r.value| == if offset >= |rows| then 0 else Min(limit, |rows| - offset)
    ensures r.Success? ==> multiset(r.value) <= multiset(rows)
    ensures r.Success? && offset == 0 && limit >= |rows| ==> multiset(r.value) == multiset(rows)
  {
    var sorted := SortBy(rows, NewestFirst);
    TimestampOrdersArePreorders();
    SortBySorted(rows, NewestFirst);
    assert offset == 0 && limit >= |rows| ==> Window(sorted, limit, offset) == sorted;
    LimitOffset(sorted, limit, offset)
  }

  // ---------------------------------------------------------------------------
  // The paginated reads
  // ---------------------------------------------------------------------------

  /**
   * `getAllMeasurements`: the rows newest first, `offset` skipped, at most `limit` kept.
   * Rows with equal timestamps come in an order the database leaves open.
   */
  function GetAllMeasurements(rows: seq<Measurement>, limit: int := 100, offset: int := 0)
    : (r: Result<seq<Measurement>, StoreError>)
    ensures r.Failure? <==> limit < 0 || offset < 0
    ensures r.Failure? ==> r.error == if offset < 0 then NegativeOffset else NegativeLimit
    ensures r.Success? ==> SortedBy(r.value, NewestFirst) && |r.value| <= limit
    ensures r.Success? ==> |r.value| == if offset >= |rows| then 0 else Min(limit, |rows| - offset)
    ensures r.Success? ==> multiset(r.value) <= multiset(rows)
  {
    NewestPage(rows, limit, offset)
  }

  /** `getCountOfMeasurements`: SELECT COUNT(*). */
  function GetCountOfMeasurements(rows: seq<Measurement>): (n: nat)
    ensures n == |multiset(rows)|
  {
    |rows|
  }

  predicate HasMac(mac: string, m: Measurement) {
    m.macAddress == Some(mac)
  }

  predicate InRoom(room: string, m: Measurement) {
    m.deviceName == Some(room)
  }

  function MacFilter(mac: string): Measurement -> bool {
    m => HasMac(mac, m)
  }

  function RoomFilter(room: string): Measurement -> bool {
    m => InRoom(room, m)
  }

  /** The rows satisfying a WHERE condition, then ordered and windowed as getAllMeasurements. */
  function FilteredPage(rows: seq<Measurement>, p: Measurement -> bool, limit: int, offset: int)
    : (r: Result<seq<Measurement>, StoreError>)
    ensures r.Failure? <==> limit < 0 || offset < 0
    ensures r.Failure? ==> r.error == if offset < 0 then NegativeOffset else NegativeLimit
    ensures r.Success? ==> forall i :: 0 <= i < |r.value| ==> p(r.value[i])
    ensures r.Success? ==> SortedBy(r.value, NewestFirst) && |r.value| <= limit
    ensures r.Success? ==> multiset(r.value) <= multiset(Filter(rows, p)) <= multiset(rows)
    ensures r.Success? ==> |r.value| == WindowLength(|Filter(rows, p)|, limit, offset)
    ensures r.Success? && offset == 0 && limit >= |rows| ==>
      forall i :: 0 <= i < |rows| && p(rows[i]) ==> rows[i] in r.value
  {
    var matching := Filter(rows, p);
    var r := NewestPage(matching, limit, offset);
    if r.Success? then
      PageElements(rows, p, matching, r.value, offset == 0 && limit >= |rows|);
      r
    else
      r
  }

  /** A filtered page is a window of the one newest-first ordering of the matching rows. */
  lemma FilteredPageIsWindow(rows: seq<Measurement>, p: Measurement -> bool, limit: nat, offset: nat)
    ensures FilteredPage(rows, p, limit, offset) == Success(Window(SortBy(Filter(rows, p), NewestFirst), limit, offset))
  {
  }

  /** What a page of the filtered rows holds, and with a full window everything the filter keeps. */
  lemma PageElements(rows: seq<Measurement>, p: Measurement -> bool, matching: seq<Measurement>, page: seq<Measurement>, full: bool)
    requires matching == Filter(rows, p)
    requires multiset(page) <= multiset(matching)
    requires full ==> multiset(page) == multiset(matching)
    ensures forall i :: 0 <= i < |page| ==> p(page[i])
    ensures full ==> forall i :: 0 <= i < |rows| && p(rows[i]) ==> rows[i] in page
  {
    forall i | 0 <= i < |page| ensures p(page[i]) {
      assert page[i] in multiset(matching);
    }
    if full {
      forall i | 0 <= i < |rows| && p(rows[i]) ensures rows[i] in page {
        assert rows[i] in multiset(page);
      }
    }
  }

  /** `getMeasurementsByMacAddress`: WHERE mac_address = mac (a null never matches), then as getAllMeasurements. */
  function GetMeasurementsByMacAddress(rows: seq<Measurement>, mac: string, limit: int := 100, offset: int := 0)
    : (r: Result<seq<Measurement>, StoreError>)
    ensures r.Failure? <==> limit < 0 || offset < 0
    ensures r.Failure? ==> r.error == if offset < 0 then NegativeOffset else NegativeLimit
    ensures r.Success? ==> forall i :: 0 <= i < |r.value| ==> r.value[i].macAddress == Some(mac)
    ensures r.Success? ==> SortedBy(r.value, NewestFirst) && |r.value| <= limit
    ensures r.Success? ==> multiset(r.value) <= multiset(Filter(rows, MacFilter(mac))) <= multiset(rows)
    ensures r.Success? ==> |r.value| == WindowLength(|Filter(rows, MacFilter(mac))|, limit, offset)
    ensures r.Success? && offset == 0 && limit >= |rows| ==>
      forall i :: 0 <= i < |rows| && rows[i].macAddress == Some(mac) ==> rows[i] in r.value
  {
    FilteredPage(rows, MacFilter(mac), limit, offset)
  }

  /** `getMeasurementsByRoom`: WHERE device_name = room (a null never matches), then as getAllMeasurements. */
  function GetMeasurementsByRoom(rows: seq<Measurement>, room: string, limit: int := 100, offset: int := 0)
    : (r: Result<seq<Measurement>, StoreError>)
    ensures r.Failure? <==> limit < 0 || offset < 0
    ensures r.Failure? ==> r.error == if offset < 0 then NegativeOffset else NegativeLimit
    ensures r.Success? ==> forall i :: 0 <= i < |r.value| ==> r.value[i].deviceName == Some(room)
    ensures r.Success? ==> SortedBy(r.value, NewestFirst) && |r.value| <= limit
    ensures r.Success? ==> multiset(r.value) <= multiset(Filter(rows, RoomFilter(room))) <= multiset(rows)
    ensures r.Success? ==> |r.value| == WindowLength(|Filter(rows, RoomFilter(room))|, limit, offset)
    ensures r.Success? && offset == 0 && limit >= |rows| ==>
      forall i :: 0 <= i < |rows| && rows[i].deviceName == Some(room) ==> rows[i] in r.value
  {
    FilteredPage(rows, RoomFilter(room), limit, offset)
  }

  /** The first `pages` pages of `pageSize` rows of getAllMeasurements, one after the other. */
  function PagesConcat(rows: seq<Measurement>, pageSize: nat, pages: nat): seq<Measurement> {
    if pages == 0 then []
    else PagesConcat(rows, pageSize, pages - 1) + GetAllMeasurements(rows, pageSize, (pages - 1) * pageSize).value
  }

  /** getAllMeasurements with valid bounds is a window of the one newest-first ordering. */
  lemma PageIsWindow(rows: seq<Measurement>, limit: nat, offset: nat)
    ensures GetAllMeasurements(rows, limit, offset) == Success(Window(SortBy(rows, NewestFirst), limit, offset))
  {
  }

  /** No two rows share a timestamp, so ORDER BY timestamp leaves the database no choice. */
  predicate NoTies(rows: seq<Measurement>) {
    forall i, j :: 0 <= i < j < |rows| ==> rows[i].timestamp != rows[j].timestamp
  }

  /** Without ties a row occurs at most once. */
  lemma {:induction false} NoTiesNoDuplicates(rows: seq<Measurement>, x: Measurement)
    requires NoTies(rows)
    ensures multiset(rows)[x] <= 1
  {
    if rows != [] {
      var tail := rows[1..];
      assert NoTies(tail) by {
        forall i, j | 0 <= i < j < |tail| ensures tail[i].timestamp != tail[j].timestamp {
          assert tail[i] == rows[i + 1] && tail[j] == rows[j + 1];
        }
      }
      NoTiesNoDuplicates(tail, x);
      assert rows == [rows[0]] + tail;
      assert multiset(rows) == multiset{rows[0]} + multiset(tail);
    }
  }

  /** The rows of a multiset without duplicates and without two rows at one instant. */
  ghost predicate Untied(m: multiset<Measurement>) {
    && (forall x :: m[x] <= 1)
    && (forall x, y :: x in m && y in m && x.timestamp == y.timestamp ==> x == y)
  }

  lemma UntiedRows(rows: seq<Measurement>)
    requires NoTies(rows)
    ensures Untied(multiset(rows))
  {
    forall x ensures multiset(rows)[x] <= 1 {
      NoTiesNoDuplicates(rows, x);
    }
    forall x, y | x in multiset(rows) && y in multiset(rows) && x.timestamp == y.timestamp ensures x == y {
      var i :| 0 <= i < |rows| && rows[i] == x;
      var j :| 0 <= j < |rows| && rows[j] == y;
      assert !(i < j) && !(j < i);
    }
  }

  /** Two newest-first orderings of the same untied rows are the same sequence. */
  lemma {:induction false} NewestFirstIsUnique(a: seq<Measurement>, b: seq<Measurement>)
    requires multiset(a) == multiset(b) && Untied(multiset(a))
    requires SortedBy(a, NewestFirst) && SortedBy(b, NewestFirst)
    ensures a == b
    decreases |a|
  {
    if a != [] {
      HeadsAgree(a, b);
      TailsAgree(a, b);
      SortedTail(a);
      SortedTail(b);
      NewestFirstIsUnique(a[1..], b[1..]);
      assert a == [a[0]] + a[1..] && b == [b[0]] + b[1..];
    }
  }

  /** Both orderings start with the newest row, which is the same row when there are no ties. */
  lemma HeadsAgree(a: seq<Measurement>, b: seq<Measurement>)
    requires a != [] && multiset(a) == multiset(b) && Untied(multiset(a))
    requires SortedBy(a, NewestFirst) && SortedBy(b, NewestFirst)
    ensures b != [] && a[0] == b[0]
  {
    assert a[0] in multiset(a);
    assert b != [];
    assert b[0] in multiset(b);
    var i :| 0 <= i < |a| && a[i] == b[0];
    var j :| 0 <= j < |b| && b[j] == a[0];
    assert a[0].timestamp >= b[0].timestamp by { if i > 0 { assert NewestFirst(a[0], a[i]); } }
    assert b[0].timestamp >= a[0].timestamp by { if j > 0 { assert NewestFirst(b[0], b[j]); } }
  }

  /** Removing the common first row leaves the same untied rows behind. */
  lemma TailsAgree(a: seq<Measurement>, b: seq<Measurement>)
    requires a != [] && b != [] && a[0] == b[0] && multiset(a) == multiset(b) && Untied(multiset(a))
    ensures multiset(a[1..]) == multiset(b[1..]) && Untied(multiset(a[1..]))
  {
    assert a == [a[0]] + a[1..] && b == [b[0]] + b[1..];
    assert multiset(a) == multiset{a[0]} + multiset(a[1..]);
    assert multiset(b) == multiset{b[0]} + multiset(b[1..]);
    assert multiset(a[1..]) <= multiset(a);
  }

  lemma SortedTail(a: seq<Measurement>)
    requires a != [] && SortedBy(a, NewestFirst)
    ensures SortedBy(a[1..], NewestFirst)
  {
    forall k, l | 0 <= k < l < |a[1..]| ensures NewestFirst(a[1..][k], a[1..][l]) {
      assert a[1..][k] == a[k + 1] && a[1..][l] == a[l + 1];
    }
  }

  /**
   * Without ties, every newest-first ordering the database may choose for a query yields the model's page:
   * the page does not depend on the model's choice of sort.
   */
  lemma PageUnderAnyOrdering(rows: seq<Measurement>, ordering: seq<Measurement>, limit: nat, offset: nat)
    requires NoTies(rows)
    requires multiset(ordering) == multiset(rows) && SortedBy(ordering, NewestFirst)
    ensures GetAllMeasurements(rows, limit, offset) == Success(Window(ordering, limit, offset))
  {
    var sorted := SortBy(rows, NewestFirst);
    TimestampOrdersArePreorders();
    SortBySorted(rows, NewestFirst);
    UntiedRows(rows);
    NewestFirstIsUnique(sorted, ordering);
    PageIsWindow(rows, limit, offset);
  }

  /**
   * With two rows at one instant both orders are newest first, and a page of one row at offset 0 under one
   * order repeats the page at offset 1 under the other: separate queries may overlap and skip a row.
   */
  lemma TiesLetPagesOverlap(a: Measurement, b: Measurement)
    requires a != b && a.timestamp == b.timestamp
    ensures SortedBy([a, b], NewestFirst) && SortedBy([b, a], NewestFirst)
    ensures multiset([a, b]) == multiset([b, a])
    ensures Window([a, b], 1, 0) == [a] && Window([b, a], 1, 1) == [a]
  {
  }

  lemma NextPageOffset(k: nat, size: nat)
    ensures 0 <= k * size && k * size + size == (k + 1) * size
  {
  }

  /**
   * Without ties in the timestamp, pagination is stable: pages (0,N), (N,N), (2N,N), ... of a fixed table,
   * put together, are exactly the first pages*N rows of the one ordering, with no row repeated or skipped.
   * With ties each query may order the tied rows differently (TiesLetPagesOverlap).
   */
  lemma {:induction false} PagesTile(rows: seq<Measurement>, pageSize: nat, pages: nat, covered: nat)
    requires NoTies(rows)
    requires covered == pages * pageSize
    ensures PagesConcat(rows, pageSize, pages) == Window(SortBy(rows, NewestFirst), covered, 0)
  {
    if pages != 0 {
      var k := pages - 1;
      var before := k * pageSize;
      NextPageOffset(k, pageSize);
      PagesTile(rows, pageSize, k, before);
      PagesStep(rows, pageSize, k, before);
    }
  }

  /** One more page extends the covered prefix by one page. */
  lemma PagesStep(rows: seq<Measurement>, pageSize: nat, k: nat, before: nat)
    requires before == k * pageSize
    requires PagesConcat(rows, pageSize, k) == Window(SortBy(rows, NewestFirst), before, 0)
    ensures PagesConcat(rows, pageSize, k + 1) == Window(SortBy(rows, NewestFirst), before + pageSize, 0)
  {
    var sorted := SortBy(rows, NewestFirst);
    PageIsWindow(rows, pageSize, before);
    AdjacentWindows(sorted, before, pageSize, 0);
  }

  /** Enough pages cover the whole table: their concatenation is a sorted permutation of all rows. */
  lemma AllPagesCoverTable(rows: seq<Measurement>, pageSize: nat, pages: nat)
    requires NoTies(rows)
    requires pages * pageSize >= |rows|
    ensures multiset(PagesConcat(rows, pageSize, pages)) == multiset(rows)
    ensures SortedBy(PagesConcat(rows, pageSize, pages), NewestFirst)
  {
    PagesTile(rows, pageSize, pages, pages * pageSize);
    TimestampOrdersArePreorders();
    SortBySorted(rows, NewestFirst);
    assert Window(SortBy(rows, NewestFirst), pages * pageSize, 0) == SortBy(rows, NewestFirst);
  }

  /** A row newer than every other comes back alone from getAllMeasurements(limit = 1, offset = 0). */
  lemma NewestRowComesFirst(rows: seq<Measurement>, m: Measurement)
    requires forall i :: 0 <= i < |rows| ==> rows[i].timestamp < m.timestamp
    ensures GetAllMeasurements(rows + [m], 1, 0) == Success([m])
  {
    var all := rows + [m];
    var sorted := SortBy(all, NewestFirst);
    TimestampOrdersArePreorders();
    SortBySorted(all, NewestFirst);
    PageIsWindow(all, 1, 0);
    assert m in multiset(sorted) by { assert m in all; }
    var k :| 0 <= k < |sorted| && sorted[k] == m;
    assert sorted[0] in all by { assert sorted[0] in multiset(sorted); }
    assert sorted[0].timestamp >= m.timestamp by {
      if k > 0 { assert NewestFirst(sorted[0], sorted[k]); }
    }
    assert sorted[0] !in rows;
    assert sorted[0] == m;
    assert Window(sorted, 1, 0) == [m];
  }

  // ---------------------------------------------------------------------------
  // Time-window reads
  // ---------------------------------------------------------------------------

  /** WHERE timestamp >= start AND timestamp <= end: both bounds included. */
  predicate InTimeRange(start: int, end: int, m: Measurement) {
    start <= m.timestamp <= end
  }

  function TimeRangeFilter(start: int, end: int): Measurement -> bool {
    m => InTimeRange(start, end, m)
  }

  /** `getMeasurementsInTimeRange`: exactly the rows of the inclusive window, oldest first. */
  function GetMeasurementsInTimeRange(rows: seq<Measurement>, start: int, end: int): (r: seq<Measurement>)
    ensures forall i :: 0 <= i < |r| ==> start <= r[i].timestamp <= end && r[i] in rows
    ensures forall i :: 0 <= i < |rows| && start <= rows[i].timestamp <= end ==> rows[i] in r
    ensures multiset(r) == multiset(Filter(rows, TimeRangeFilter(start, end)))
    ensures SortedBy(r, OldestFirst)
  {
    var inRange := Filter(rows, TimeRangeFilter(start, end));
    TimestampOrdersArePreorders();
    SortBySorted(inRange, OldestFirst);
    var r := SortBy(inRange, OldestFirst);
    SameElements(inRange, r);
    forall i | 0 <= i < |r| ensures start <= r[i].timestamp <= end && r[i] in rows {
      assert r[i] in inRange;
      var j :| 0 <= j < |inRange| && inRange[j] == r[i];
      assert TimeRangeFilter(start, end)(inRange[j]);
    }
    forall i | 0 <= i < |rows| && start <= rows[i].timestamp <= end ensures rows[i] in r {
      assert TimeRangeFilter(start, end)(rows[i]);
      assert rows[i] in inRange;
    }
    r
  }

  /** Two sequences with one multiset hold the same elements. */
  lemma SameElements<T>(a: seq<T>, b: seq<T>)
    requires multiset(a) == multiset(b)
    ensures forall x :: x in a <==> x in b
  {
    forall x ensures x in a <==> x in b {
      assert x in a <==> x in multiset(a);
      assert x in b <==> x in multiset(b);
    }
  }

  datatype Reading = TemperatureReading | HumidityReading

  function ReadingOf(m: Measurement, which: Reading): Option<real> {
    match which
    case TemperatureReading => m.temperature
    case HumidityReading => m.humidity
  }

  /** The non-null readings of the rows in the inclusive window: what AVG(column) looks at. */
  function ValuesIn(rows: seq<Measurement>, which: Reading, start: int, end: int): seq<real> {
    if rows == [] then []
    else
      var last := rows[|rows| - 1];
      ValuesIn(rows[..|rows| - 1], which, start, end)
        + (if InTimeRange(start, end, last) && ReadingOf(last, which).Some? then [ReadingOf(last, which).value] else [])
  }

  function Sum(xs: seq<real>): real {
    if xs == [] then 0.0 else Sum(xs[..|xs| - 1]) + xs[|xs| - 1]
  }

  /** AVG over the inclusive window, ignoring nulls; null when no row has the reading. */
  function Average(rows: seq<Measurement>, which: Reading, start: int, end: int): (r: Option<real>)
    ensures r.None? <==> ValuesIn(rows, which, start, end) == []
    ensures r.Some? ==> r.value * (|ValuesIn(rows, which, start, end)| as real) == Sum(ValuesIn(rows, which, start, end))
  {
    var vs := ValuesIn(rows, which, start, end);
    if vs == [] then None else Some(Sum(vs) / (|vs| as real))
  }

  /** `getAverageTemperature`. */
  function GetAverageTemperature(rows: seq<Measurement>, start: int, end: int): (r: Option<real>)
    ensures r.None? <==> ValuesIn(rows, TemperatureReading, start, end) == []
    ensures r.Some? ==> r.value * (|ValuesIn(rows, TemperatureReading, start, end)| as real) == Sum(ValuesIn(rows, TemperatureReading, start, end))
  {
    Average(rows, TemperatureReading, start, end)
  }

  /** `getAverageHumidity`. */
  function GetAverageHumidity(rows: seq<Measurement>, start: int, end: int): (r: Option<real>)
    ensures r.None? <==> ValuesIn(rows, HumidityReading, start, end) == []
    ensures r.Some? ==> r.value * (|ValuesIn(rows, HumidityReading, start, end)| as real) == Sum(ValuesIn(rows, HumidityReading, start, end))
  {
    Average(rows, HumidityReading, start, end)
  }

  lemma {:induction false} SumBounds(xs: seq<real>, lo: real, hi: real)
    requires forall i :: 0 <= i < |xs| ==> lo <= xs[i] <= hi
    ensures (|xs| as real) * lo <= Sum(xs) <= (|xs| as real) * hi
  {
    if xs != [] {
      SumBounds(xs[..|xs| - 1], lo, hi);
    }
  }

  lemma QuotientBounds(total: real, n: real, lo: real, hi: real)
    requires n > 0.0 && n * lo <= total <= n * hi
    ensures lo <= total / n <= hi
  {
    var q := total / n;
    assert q * n == total;
  }

  /** The mean lies between the smallest and the largest reading averaged. */
  lemma AverageWithinBounds(rows: seq<Measurement>, which: Reading, start: int, end: int, lo: real, hi: real)
    requires forall i :: 0 <= i < |ValuesIn(rows, which, start, end)| ==> lo <= ValuesIn(rows, which, start, end)[i] <= hi
    ensures Average(rows, which, start, end).Some? ==> lo <= Average(rows, which, start, end).value <= hi
  {
    var vs := ValuesIn(rows, which, start, end);
    SumBounds(vs, lo, hi);
    if vs != [] {
      QuotientBounds(Sum(vs), |vs| as real, lo, hi);
    }
  }

  /** A row whose reading is null, or which lies outside the window, does not move the average. */
  lemma AverageIgnoresRow(rows: seq<Measurement>, m: Measurement, which: Reading, start: int, end: int)
    requires ReadingOf(m, which).None? || !InTimeRange(start, end, m)
    ensures Average(rows + [m], which, start, end) == Average(rows, which, start, end)
  {
    assert (rows + [m])[..|rows|] == rows;
    assert ValuesIn(rows + [m], which, start, end) == ValuesIn(rows, which, start, end);
  }

  /** Readings 20 and 22 in the window average to 21; an empty window gives null, not zero. */
  lemma {:induction false} AverageExample(a: Measurement, b: Measurement)
    requires a.temperature == Some(20.0) && b.temperature == Some(22.0)
    requires 0 <= a.timestamp <= 10 && 0 <= b.timestamp <= 10
    ensures GetAverageTemperature([a, b], 0, 10) == Some(21.0)
    ensures GetAverageTemperature([a, b], 11, 20) == None
  {
    var vs := ValuesIn([a, b], TemperatureReading, 0, 10);
    assert vs == [20.0, 22.0] by {
      assert [a, b][..1] == [a];
      assert [a][..0] == [];
      assert ValuesIn([a], TemperatureReading, 0, 10) == [20.0];
    }
    assert Sum(vs) == 42.0 by {
      assert [20.0, 22.0][..1] == [20.0];
      assert [20.0][..0] == [];
    }
    assert GetAverageTemperature([a, b], 0, 10) == Some(42.0 / 2.0);
    assert ValuesIn([a, b], TemperatureReading, 11, 20) == [] by {
      assert [a, b][..1] == [a];
      assert [a][..0] == [];
      assert ValuesIn([a], TemperatureReading, 11, 20) == [];
    }
  }

  // ---------------------------------------------------------------------------
  // Latest measurement per device name
  // ---------------------------------------------------------------------------

  /** SELECT max(timestamp) ... WHERE device_name = name: null when the name has no rows. */
  function MaxTimestamp(rows: seq<Measurement>, name: string): (r: Option<int>)
    ensures r.None? <==> forall i :: 0 <= i < |rows| ==> rows[i].deviceName != Some(name)
    ensures r.Some? ==> exists i :: 0 <= i < |rows| && rows[i].deviceName == Some(name) && rows[i].timestamp == r.value
    ensures r.Some? ==> forall i :: 0 <= i < |rows| && rows[i].deviceName == Some(name) ==> rows[i].timestamp <= r.value
  {
    if rows == [] then None
    else
      var rest := MaxTimestamp(rows[1..], name);
      assert forall i :: 1 <= i < |rows| ==> rows[i] == rows[1..][i - 1];
      if rows[0].deviceName != Some(name) then
        assert rest.Some? ==> exists i :: 1 <= i < |rows| && rows[i].deviceName == Some(name) && rows[i].timestamp == rest.value
          by { if rest.Some? { var i :| 0 <= i < |rows[1..]| && rows[1..][i].deviceName == Some(name) && rows[1..][i].timestamp == rest.value; assert rows[i + 1] == rows[1..][i]; } }
        rest
      else if rest.Some? && rest.value >= rows[0].timestamp then
        assert exists i :: 1 <= i < |rows| && rows[i].deviceName == Some(name) && rows[i].timestamp == rest.value
          by { var i :| 0 <= i < |rows[1..]| && rows[1..][i].deviceName == Some(name) && rows[1..][i].timestamp == rest.value; assert rows[i + 1] == rows[1..][i]; }
        rest
      else
        Some(rows[0].timestamp)
  }

  /** The join condition: the row's device name is not null and its timestamp is that name's maximum. */
  predicate JoinsLatest(rows: seq<Measurement>, m: Measurement) {
    m.deviceName.Some? && MaxTimestamp(rows, m.deviceName.value) == Some(m.timestamp)
  }

  /**
   * `getLatestMeasurementsByDevice`: the rows joined with (device_name, max(timestamp)) grouped over the
   * non-null names. Every row at its name's maximum is returned, so tied rows all come back.
   */
  function GetLatestMeasurementsByDevice(rows: seq<Measurement>): (r: seq<Measurement>)
    ensures multiset(r) <= multiset(rows)
    ensures forall i :: 0 <= i < |r| ==> r[i].deviceName.Some?
    ensures forall i, j :: 0 <= i < |r| && 0 <= j < |rows| && rows[j].deviceName == r[i].deviceName ==>
              rows[j].timestamp <= r[i].timestamp
    ensures forall j :: 0 <= j < |rows| && rows[j].deviceName.Some? ==>
              (rows[j] in r <==> forall k :: 0 <= k < |rows| && rows[k].deviceName == rows[j].deviceName ==>
                                    rows[k].timestamp <= rows[j].timestamp)
  {
    var r := Filter(rows, m => JoinsLatest(rows, m));
    forall j | 0 <= j < |rows| && rows[j].deviceName.Some?
      ensures rows[j] in r <==> forall k :: 0 <= k < |rows| && rows[k].deviceName == rows[j].deviceName ==>
                                  rows[k].timestamp <= rows[j].timestamp
    {
      JoinsLatestMeansMaximal(rows, j);
    }
    r
  }

  /** A row with a device name meets the join condition exactly when no row of that name is later. */
  lemma JoinsLatestMeansMaximal(rows: seq<Measurement>, j: nat)
    requires j < |rows| && rows[j].deviceName.Some?
    ensures JoinsLatest(rows, rows[j]) <==>
              forall k :: 0 <= k < |rows| && rows[k].deviceName == rows[j].deviceName ==> rows[k].timestamp <= rows[j].timestamp
  {
    var mx := MaxTimestamp(rows, rows[j].deviceName.value);
    assert mx.Some?;
    var k :| 0 <= k < |rows| && rows[k].deviceName == rows[j].deviceName && rows[k].timestamp == mx.value;
  }

  /** Every non-null device name present in the table has at least one latest row. */
  lemma LatestCoversEveryName(rows: seq<Measurement>, j: nat)
    requires j < |rows| && rows[j].deviceName.Some?
    ensures exists i :: 0 <= i < |GetLatestMeasurementsByDevice(rows)| &&
              GetLatestMeasurementsByDevice(rows)[i].deviceName == rows[j].deviceName
  {
    var name := rows[j].deviceName.value;
    var mx := MaxTimestamp(rows, name);
    var k :| 0 <= k < |rows| && rows[k].deviceName == Some(name) && rows[k].timestamp == mx.value;
    var r := GetLatestMeasurementsByDevice(rows);
    assert rows[k] in r;
    var i :| 0 <= i < |r| && r[i] == rows[k];
  }

  /** Two rows of one device at the same latest instant both come back: there is no tie-break. */
  lemma TiesYieldSeveralRows(a: Measurement, b: Measurement)
    requires a != b && a.deviceName == b.deviceName == Some("kitchen") && a.timestamp == b.timestamp
    ensures GetLatestMeasurementsByDevice([a, b]) == [a, b]
  {
    assert JoinsLatest([a, b], a) && JoinsLatest([a, b], b);
  }

  // ---------------------------------------------------------------------------
  // Devices and rooms
  // ---------------------------------------------------------------------------

  /** A (mac_address, device_name) group. */
  datatype Group = Group(mac: Option<string>, name: Option<string>)

  function GroupOf(m: Measurement): Group {
    Group(m.macAddress, m.deviceName)
  }

  /** GROUP BY mac_address, device_name: each pair once, in order of first appearance. */
  function DistinctGroups(rows: seq<Measurement>): (r: seq<Group>)
    ensures forall i, j :: 0 <= i < j < |r| ==> r[i] != r[j]
    ensures forall i :: 0 <= i < |r| ==> exists k :: 0 <= k < |rows| && GroupOf(rows[k]) == r[i]
    ensures forall k :: 0 <= k < |rows| ==> GroupOf(rows[k]) in r
    ensures |r| <= |rows|
  {
    if rows == [] then []
    else
      var prefix := rows[..|rows| - 1];
      var g := GroupOf(rows[|rows| - 1]);
      var rest := DistinctGroups(prefix);
      assert forall k :: 0 <= k < |prefix| ==> prefix[k] == rows[k];
      if g in rest then rest else rest + [g]
  }

  /** Lexicographic order of code points (the C collation). */
  predicate StrLe(a: string, b: string) {
    a == [] || (b != [] && (a[0] < b[0] || (a[0] == b[0] && StrLe(a[1..], b[1..]))))
  }

  lemma {:induction false} StrLeTotal(a: string, b: string)
    ensures StrLe(a, b) || StrLe(b, a)
  {
    if a != [] && b != [] && a[0] == b[0] {
      StrLeTotal(a[1..], b[1..]);
    }
  }

  lemma {:induction false} StrLeTransitive(a: string, b: string, c: string)
    requires StrLe(a, b) && StrLe(b, c)
    ensures StrLe(a, c)
  {
    if a != [] && b != [] && c != [] && a[0] == b[0] && b[0] == c[0] {
      StrLeTransitive(a[1..], b[1..], c[1..]);
    }
  }

  /** ORDER BY mac_address ASC, where PostgreSQL puts nulls last. */
  predicate MacOrder(a: Group, b: Group) {
    match (a.mac, b.mac)
    case (_, None) => true
    case (None, Some(_)) => false
    case (Some(x), Some(y)) => StrLe(x, y)
  }

  lemma MacOrderIsPreorder()
    ensures TotalPreorder(MacOrder)
  {
    forall a: Group, b: Group ensures MacOrder(a, b) || MacOrder(b, a) {
      if a.mac.Some? && b.mac.Some? { StrLeTotal(a.mac.value, b.mac.value); }
    }
    forall a: Group, b: Group, c: Group | MacOrder(a, b) && MacOrder(b, c) ensures MacOrder(a, c) {
      if a.mac.Some? && b.mac.Some? && c.mac.Some? { StrLeTransitive(a.mac.value, b.mac.value, c.mac.value); }
    }
  }

  /** A group as a Device: a null MAC or name becomes "". */
  function ToDevice(g: Group): Device {
    Device(g.mac.GetOr(""), g.name.GetOr(""))
  }

  function ToDevices(gs: seq<Group>): (ds: seq<Device>)
    ensures |ds| == |gs| && forall i :: 0 <= i < |gs| ==> ds[i] == ToDevice(gs[i])
  {
    seq(|gs|, i requires 0 <= i < |gs| => ToDevice(gs[i]))
  }

  /** The distinct groups in MAC order, before LIMIT/OFFSET. */
  function DevicesInMacOrder(rows: seq<Measurement>): (r: seq<Group>)
    ensures SortedBy(r, MacOrder)
    ensures multiset(r) == multiset(DistinctGroups(rows))
  {
    MacOrderIsPreorder();
    SortBySorted(DistinctGroups(rows), MacOrder);
    SortBy(DistinctGroups(rows), MacOrder)
  }

  /**
   * `getAllDevices`: the distinct (mac, name) groups ordered by MAC, windowed by LIMIT/OFFSET, with null
   * MACs and names shown as "".
   */
  function GetAllDevices(rows: seq<Measurement>, limit: int := 100, offset: int := 0)
    : (r: Result<seq<Device>, StoreError>)
    ensures r.Failure? <==> limit < 0 || offset < 0
    ensures r.Failure? ==> r.error == if offset < 0 then NegativeOffset else NegativeLimit
    ensures r.Success? ==> |r.value| <= limit
    ensures r.Success? ==> |r.value| == WindowLength(|DistinctGroups(rows)|, limit, offset)
    ensures r.Success? ==> forall i :: 0 <= i < |r.value| ==>
              exists k :: 0 <= k < |rows| && r.value[i] == ToDevice(GroupOf(rows[k]))
    ensures r.Success? ==> r.value == ToDevices(Window(DevicesInMacOrder(rows), limit, offset))
  {
    var ordered := DevicesInMacOrder(rows);
    if offset < 0 then Failure(NegativeOffset)
    else if limit < 0 then Failure(NegativeLimit)
    else
      var page := Window(ordered, limit, offset);
      PageDevicesComeFromRows(rows, ordered, page);
      Success(ToDevices(page))
  }

  /** Every device of a window of the ordered groups is the device of some row. */
  lemma PageDevicesComeFromRows(rows: seq<Measurement>, ordered: seq<Group>, page: seq<Group>)
    requires multiset(ordered) == multiset(DistinctGroups(rows))
    requires multiset(page) <= multiset(ordered)
    ensures forall i :: 0 <= i < |ToDevices(page)| ==> exists k :: 0 <= k < |rows| && ToDevices(page)[i] == ToDevice(GroupOf(rows[k]))
  {
    var ds := ToDevices(page);
    forall i | 0 <= i < |ds| ensures exists k :: 0 <= k < |rows| && ds[i] == ToDevice(GroupOf(rows[k])) {
      assert page[i] in multiset(page);
      GroupComesFromRow(rows, ordered, page[i]);
    }
  }

  /** With offset 0 and a limit no smaller than the table, every row's (mac, name) pair is listed. */
  lemma AllDevicesListed(rows: seq<Measurement>, limit: int, k: nat)
    requires limit >= |rows| && k < |rows|
    ensures ToDevice(GroupOf(rows[k])) in GetAllDevices(rows, limit, 0).value
  {
    var ordered := DevicesInMacOrder(rows);
    assert Window(ordered, limit, 0) == ordered;
    assert GroupOf(rows[k]) in multiset(ordered) by {
      assert GroupOf(rows[k]) in multiset(DistinctGroups(rows));
    }
    var i :| 0 <= i < |ordered| && ordered[i] == GroupOf(rows[k]);
    assert ToDevices(ordered)[i] == ToDevice(GroupOf(rows[k]));
  }

  lemma GroupComesFromRow(rows: seq<Measurement>, ordered: seq<Group>, g: Group)
    requires multiset(ordered) == multiset(DistinctGroups(rows))
    requires g in multiset(ordered)
    ensures exists k :: 0 <= k < |rows| && GroupOf(rows[k]) == g
  {
    var gs := DistinctGroups(rows);
    assert g in multiset(ordered);
    assert g in gs;
    var j :| 0 <= j < |gs| && gs[j] == g;
  }

  /** SELECT DISTINCT device_name: each name (null included) once; the database fixes no order. */
  function DistinctNames(rows: seq<Measurement>): (r: seq<Option<string>>)
    ensures forall i, j :: 0 <= i < j < |r| ==> r[i] != r[j]
    ensures forall i :: 0 <= i < |r| ==> exists k :: 0 <= k < |rows| && rows[k].deviceName == r[i]
    ensures forall k :: 0 <= k < |rows| ==> rows[k].deviceName in r
    ensures |r| <= |rows|
  {
    if rows == [] then []
    else
      var prefix := rows[..|rows| - 1];
      var n := rows[|rows| - 1].deviceName;
      var rest := DistinctNames(prefix);
      assert forall k :: 0 <= k < |prefix| ==> prefix[k] == rows[k];
      if n in rest then rest else rest + [n]
  }

  function RoomName(n: Option<string>): string {
    n.GetOr(UnknownRoom)
  }

  /** The devices among the first 100 of getAllDevices whose name equals the room's. */
  function RoomDevices(rows: seq<Measurement>, room: string): (ds: seq<Device>)
    ensures forall i :: 0 <= i < |ds| ==> ds[i].name == room && ds[i] in GetAllDevices(rows).value
    ensures forall i :: 0 <= i < |GetAllDevices(rows).value| && GetAllDevices(rows).value[i].name == room ==>
              GetAllDevices(rows).value[i] in ds
  {
    Filter(GetAllDevices(rows).value, NamedRoom(room))
  }

  function NamedRoom(room: string): Device -> bool {
    (d: Device) => d.name == room
  }

  /**
   * `getAllRooms`: one room per distinct device name in the window, named by that name (null becomes
   * "Unknown Room"), holding the devices of the default device page with that name.
   */
  function GetAllRooms(rows: seq<Measurement>, limit: int := 100, offset: int := 0)
    : (r: Result<seq<Room>, StoreError>)
    ensures r.Failure? <==> limit < 0 || offset < 0
    ensures r.Failure? ==> r.error == if offset < 0 then NegativeOffset else NegativeLimit
    ensures r.Success? ==> |r.value| <= limit
    ensures r.Success? ==> forall i :: 0 <= i < |r.value| ==> r.value[i].devices == RoomDevices(rows, r.value[i].name)
    ensures r.Success? ==> forall i :: 0 <= i < |r.value| ==>
              exists k :: 0 <= k < |rows| && RoomName(rows[k].deviceName) == r.value[i].name
    ensures r.Success? ==> |r.value| == WindowLength(|DistinctNames(rows)|, limit, offset)
    ensures r.Success? ==> r.value == RoomsFor(rows, Window(DistinctNames(rows), limit, offset))
  {
    match LimitOffset(DistinctNames(rows), limit, offset)
    case Failure(e) => Failure(e)
    case Success(names) =>
      WindowNamesComeFromRows(rows, limit, offset);
      Success(RoomsFor(rows, names))
  }

  /** With offset 0 and a limit no smaller than the table, every row's room is listed. */
  lemma AllRoomsListed(rows: seq<Measurement>, limit: int, k: nat)
    requires limit >= |rows| && k < |rows|
    ensures exists i :: 0 <= i < |GetAllRooms(rows, limit, 0).value| &&
              GetAllRooms(rows, limit, 0).value[i].name == RoomName(rows[k].deviceName)
  {
    var names := DistinctNames(rows);
    assert Window(names, limit, 0) == names;
    var i :| 0 <= i < |names| && names[i] == rows[k].deviceName;
    assert GetAllRooms(rows, limit, 0).value[i].name == RoomName(names[i]);
  }

  /** Every name of a window of the distinct names is, as a room name, the name of some row. */
  lemma WindowNamesComeFromRows(rows: seq<Measurement>, limit: nat, offset: nat)
    ensures var names := Window(DistinctNames(rows), limit, offset);
      forall i :: 0 <= i < |names| ==> exists k :: 0 <= k < |rows| && RoomName(rows[k].deviceName) == RoomName(names[i])
  {
    var distinct := DistinctNames(rows);
    var names := Window(distinct, limit, offset);
    assert forall i :: 0 <= i < |names| ==> names[i] == distinct[offset + i];
    NamesComeFromRows(rows, distinct, names);
  }

  /** One room per name, named after it and holding the devices of that name. */
  function RoomsFor(rows: seq<Measurement>, names: seq<Option<string>>): (rs: seq<Room>)
    ensures |rs| == |names|
    ensures forall i :: 0 <= i < |rs| ==> rs[i].name == RoomName(names[i]) && rs[i].devices == RoomDevices(rows, rs[i].name)
  {
    seq(|names|, i requires 0 <= i < |names| => Room(RoomDevices(rows, RoomName(names[i])), RoomName(names[i])))
  }

  /** Every name of a window of the distinct names is the name of some row. */
  lemma NamesComeFromRows(rows: seq<Measurement>, distinct: seq<Option<string>>, names: seq<Option<string>>)
    requires distinct == DistinctNames(rows)
    requires forall i :: 0 <= i < |names| ==> names[i] in distinct
    ensures forall i :: 0 <= i < |names| ==> exists k :: 0 <= k < |rows| && RoomName(rows[k].deviceName) == RoomName(names[i])
  {
    forall i | 0 <= i < |names| ensures exists k :: 0 <= k < |rows| && RoomName(rows[k].deviceName) == RoomName(names[i]) {
      var j :| 0 <= j < |distinct| && distinct[j] == names[i];
      var k :| 0 <= k < |rows| && rows[k].deviceName == distinct[j];
    }
  }

  /**
   * Devices whose name is null are listed with name "", never "Unknown Room", so the room made from the
   * null name holds no devices unless some device is really called "Unknown Room".
   */
  lemma UnknownRoomIsEmpty(rows: seq<Measurement>)
    requires forall k :: 0 <= k < |rows| ==> rows[k].deviceName != Some(UnknownRoom)
    ensures RoomDevices(rows, UnknownRoom) == []
  {
    var devices := GetAllDevices(rows).value;
    forall i | 0 <= i < |devices| ensures !NamedRoom(UnknownRoom)(devices[i]) {
      var k :| 0 <= k < |rows| && devices[i] == ToDevice(GroupOf(rows[k]));
      match rows[k].deviceName
      case None =>
        assert devices[i].name == "";
        assert |UnknownRoom| > 0;
      case Some(n) =>
        assert devices[i].name == n;
    }
    FilterNone(devices, NamedRoom(UnknownRoom));
  }
}
