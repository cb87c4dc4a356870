/**
 * The HTTP handlers of RequestApplication. Each GET handler defaults its parameters and makes one store
 * call; the POST handler decodes a submission and saves one row. Every response, success or error, gets the
 * same four CORS headers.
 */
module Server {
  import opened Wrappers
  import Numerals
  import RequestTypes
  import Store

  const OneDay: int := 86_400_000
  const DefaultLimit: int := 100
  const DefaultOffset: int := 0

  /** Query parameters or headers in arrival order; a parameter given without a value carries None. */
  type Params = seq<(string, Option<string>)>

  datatype HttpRequest = HttpRequest(
    body: RequestTypes.Body,
    source: Option<string>,  // the transport's source address, when it has one
    query: Params,
    headers: Params)

  /** Why a handler answered 400: the message of the exception it caught. */
  datatype Cause =
    | Missing(message: string)
    | Decoding(decodeError: RequestTypes.DecodeError)
    | Database(storeError: Store.StoreError)
    | BadTime(text: string)   // LocalDateTime.parse rejected the text

  datatype Payload =
    | PlainText(text: string)
    | ErrorText(prefix: string, cause: Cause)
    | MeasurementList(measurements: seq<Store.Measurement>)
    | MeasurementsWithCount(measurements: seq<Store.Measurement>, count: int)
    | DeviceList(devices: seq<Store.Device>)
    | RoomList(rooms: seq<Store.Room>)
    | AverageValue(average: real)
    | NullLiteral

  datatype Response = Response(status: int, headers: seq<(string, string)>, body: Payload)

  const Ok := 200
  const BadRequest := 400

  const CorsHeaders: seq<(string, string)> := [
    ("Access-Control-Allow-Origin", "*"),
    ("Access-Control-Allow-Methods", "GET, POST, PUT, DELETE, OPTIONS"),
    ("Access-Control-Allow-Headers", "Content-Type, Authorization"),
    ("Access-Control-Allow-Credentials", "true")]

  predicate HasCorsHeaders(r: Response) {
    |r.headers| >= |CorsHeaders| && r.headers[|r.headers| - |CorsHeaders|..] == CorsHeaders
  }

  /** `withCorsHeaders`: appends the four headers and changes nothing else. */
  function WithCorsHeaders(r: Response): (c: Response)
    ensures HasCorsHeaders(c)
    ensures c.status == r.status && c.body == r.body
    ensures |c.headers| == |r.headers| + |CorsHeaders| && c.headers[..|r.headers|] == r.headers
  {
    Response(r.status, r.headers + CorsHeaders, r.body)
  }

  function Json(body: Payload): Response {
    WithCorsHeaders(Response(Ok, [("Content-Type", "application/json")], body))
  }

  function Error(prefix: string, cause: Cause): Response {
    WithCorsHeaders(Response(BadRequest, [("Content-Type", "text/plain")], ErrorText(prefix, cause)))
  }

  // ---------------------------------------------------------------------------
  // Parameter lookup and defaulting
  // ---------------------------------------------------------------------------

  /** `query(name)`: the value of the first parameter with exactly that name. */
  function QueryValue(q: Params, name: string): (v: Option<string>)
    ensures v.Some? ==> exists i :: 0 <= i < |q| && q[i] == (name, v)
    ensures (forall i :: 0 <= i < |q| ==> q[i].0 != name) ==> v.None?
    ensures forall k :: 0 <= k < |q| && q[k].0 == name && (forall j :: 0 <= j < k ==> q[j].0 != name) ==> v == q[k].1
  {
    if q == [] then None
    else if q[0].0 == name then q[0].1
    else
      var v := QueryValue(q[1..], name);
      assert v.Some? ==> exists i :: 0 <= i < |q| && q[i] == (name, v) by {
        if v.Some? { var i :| 0 <= i < |q[1..]| && q[1..][i] == (name, v); assert q[i + 1] == q[1..][i]; }
      }
      assert forall k :: 0 <= k < |q| && q[k].0 == name && (forall j :: 0 <= j < k ==> q[j].0 != name) ==> v == q[k].1 by {
        forall k | 0 <= k < |q| && q[k].0 == name && (forall j :: 0 <= j < k ==> q[j].0 != name) ensures v == q[k].1 {
          assert q[1..][k - 1] == q[k];
          forall j | 0 <= j < k - 1 ensures q[1..][j].0 != name { assert q[1..][j] == q[j + 1]; }
        }
      }
      v
  }

  function LowerAscii(c: char): char {
    if 'A' <= c <= 'Z' then (c as int + 32) as char else c
  }

  /** Names compared the way header lookup compares them: ignoring ASCII case. */
  predicate EqualIgnoringCase(a: string, b: string) {
    |a| == |b| && forall i :: 0 <= i < |a| ==> LowerAscii(a[i]) == LowerAscii(b[i])
  }

  /** `header(name)`: the value of the first header whose name matches ignoring case. */
  function HeaderValue(headers: Params, name: string): (v: Option<string>)
    ensures v.Some? ==> exists i :: 0 <= i < |headers| && EqualIgnoringCase(headers[i].0, name) && headers[i].1 == v
    ensures (forall i :: 0 <= i < |headers| ==> !EqualIgnoringCase(headers[i].0, name)) ==> v.None?
    ensures forall k :: (0 <= k < |headers| && EqualIgnoringCase(headers[k].0, name)
                         && forall j :: 0 <= j < k ==> !EqualIgnoringCase(headers[j].0, name)) ==> v == headers[k].1
  {
    if headers == [] then None
    else if EqualIgnoringCase(headers[0].0, name) then headers[0].1
    else
      var v := HeaderValue(headers[1..], name);
      assert v.Some? ==> exists i :: 0 <= i < |headers| && EqualIgnoringCase(headers[i].0, name) && headers[i].1 == v by {
        if v.Some? {
          var i :| 0 <= i < |headers[1..]| && EqualIgnoringCase(headers[1..][i].0, name) && headers[1..][i].1 == v;
          assert headers[i + 1] == headers[1..][i];
        }
      }
      assert forall k :: (0 <= k < |headers| && EqualIgnoringCase(headers[k].0, name)
                          && forall j :: 0 <= j < k ==> !EqualIgnoringCase(headers[j].0, name)) ==> v == headers[k].1 by {
        forall k | 0 <= k < |headers| && EqualIgnoringCase(headers[k].0, name)
                   && (forall j :: 0 <= j < k ==> !EqualIgnoringCase(headers[j].0, name)) ensures v == headers[k].1 {
          assert headers[1..][k - 1] == headers[k];
          forall j | 0 <= j < k - 1 ensures !EqualIgnoringCase(headers[1..][j].0, name) { assert headers[1..][j] == headers[j + 1]; }
        }
      }
      v
  }

  /** `query(name)?.toIntOrNull() ?: default`: the parsed value, or the default when absent or unparsable. */
  function IntParam(q: Params, name: string, default: int): (n: int)
    ensures QueryValue(q, name).None? ==> n == default
    ensures QueryValue(q, name).Some? && Numerals.ToIntOrNull(QueryValue(q, name).value).None? ==> n == default
    ensures QueryValue(q, name).Some? && Numerals.ToIntOrNull(QueryValue(q, name).value).Some? ==>
              n == Numerals.ToIntOrNull(QueryValue(q, name).value).value
  {
    match QueryValue(q, name)
    case None => default
    case Some(s) => Numerals.ToIntOrNull(s).GetOr(default)
  }

  /** An integer written the way Kotlin prints it is read back as itself, negatives included (no clamping). */
  lemma IntParamReadsPrintedInt(q: Params, name: string, default: int, n: int)
    requires Numerals.IsInt32(n) && QueryValue(q, name) == Some(Numerals.IntToString(n))
    ensures IntParam(q, name, default) == n
  {
    Numerals.IntToStringRoundTrip(n);
  }

  function Limit(r: HttpRequest): int { IntParam(r.query, "limit", DefaultLimit) }
  function Offset(r: HttpRequest): int { IntParam(r.query, "offset", DefaultOffset) }

  /** startTime/endTime: parsed when given (a parse failure is a 400), else now minus one day and now. */
  function TimeWindow(r: HttpRequest, now: int, parseTime: string -> Option<int>): (w: Result<(int, int), Cause>)
    ensures QueryValue(r.query, "startTime").None? && QueryValue(r.query, "endTime").None? ==>
              w == Success((now - OneDay, now))
    ensures w.Failure? <==>
              (QueryValue(r.query, "startTime").Some? && parseTime(QueryValue(r.query, "startTime").value).None?) ||
              (QueryValue(r.query, "endTime").Some? && parseTime(QueryValue(r.query, "endTime").value).None?)
    ensures w.Success? && QueryValue(r.query, "startTime").Some? ==> w.value.0 == parseTime(QueryValue(r.query, "startTime").value).value
    ensures w.Success? && QueryValue(r.query, "endTime").Some? ==> w.value.1 == parseTime(QueryValue(r.query, "endTime").value).value
  {
    var start := match QueryValue(r.query, "startTime")
      case None => Success(now - OneDay)
      case Some(s) => (match parseTime(s) case None => Failure(BadTime(s)) case Some(t) => Success(t));
    var end := match QueryValue(r.query, "endTime")
      case None => Success(now)
      case Some(s) => (match parseTime(s) case None => Failure(BadTime(s)) case Some(t) => Success(t));
    if start.Failure? then Failure(start.error)
    else if end.Failure? then Failure(end.error)
    else Success((start.value, end.value))
  }

  // ---------------------------------------------------------------------------
  // The GET handlers
  // ---------------------------------------------------------------------------

  /** The database error behind a rejected page: the OFFSET check comes before the LIMIT check. */
  function PagingCause(r: HttpRequest): Cause {
    Database(if Offset(r) < 0 then Store.NegativeOffset else Store.NegativeLimit)
  }

  /** GET /measurements: one page newest first, plus the count of all rows whatever the page. */
  function HandleGetAllMeasurements(rows: seq<Store.Measurement>, r: HttpRequest): (resp: Response)
    ensures HasCorsHeaders(resp)
    ensures resp.status == Ok <==> Limit(r) >= 0 && Offset(r) >= 0
    ensures resp.status == Ok ==>
      && resp.body.MeasurementsWithCount?
      && resp.body.count == |rows|
      && resp.body.measurements == Store.GetAllMeasurements(rows, Limit(r), Offset(r)).value
      && |resp.body.measurements| <= Limit(r)
    ensures resp.status != Ok ==> resp.status == BadRequest && resp.body.ErrorText?
    ensures resp.status != Ok ==> resp == Error("Error retrieving measurements: ", PagingCause(r))
  {
    match Store.GetAllMeasurements(rows, Limit(r), Offset(r))
    case Failure(e) => Error("Error retrieving measurements: ", Database(e))
    case Success(ms) => Json(MeasurementsWithCount(ms, Store.GetCountOfMeasurements(rows)))
  }

  /** GET /measurements/device: the MAC comes from the `deviceMac` header; without it the answer is 400. */
  function HandleGetAllMeasurementsForDevice(rows: seq<Store.Measurement>, r: HttpRequest): (resp: Response)
    ensures HasCorsHeaders(resp)
    ensures HeaderValue(r.headers, "deviceMac").None? ==>
              resp == Error("Error retrieving measurements: ", Missing("Missing deviceMac header"))
    ensures resp.status == Ok <==> HeaderValue(r.headers, "deviceMac").Some? && Limit(r) >= 0 && Offset(r) >= 0
    ensures HeaderValue(r.headers, "deviceMac").Some? && resp.status != Ok ==>
              resp == Error("Error retrieving measurements: ", PagingCause(r))
    ensures resp.status == Ok ==>
      && resp.body.MeasurementList?
      && resp.body.measurements == Store.GetMeasurementsByMacAddress(rows, HeaderValue(r.headers, "deviceMac").value, Limit(r), Offset(r)).value
      && forall i :: 0 <= i < |resp.body.measurements| ==>
           resp.body.measurements[i].macAddress == HeaderValue(r.headers, "deviceMac")
  {
    match HeaderValue(r.headers, "deviceMac")
    case None => Error("Error retrieving measurements: ", Missing("Missing deviceMac header"))
    case Some(mac) =>
      match Store.GetMeasurementsByMacAddress(rows, mac, Limit(r), Offset(r))
      case Failure(e) => Error("Error retrieving measurements: ", Database(e))
      case Success(ms) => Json(MeasurementList(ms))
  }

  /** GET /rooms/measurements: `room` is a required query parameter; startTime and endTime are not read. */
  function HandleGetAllMeasurementsForRoom(rows: seq<Store.Measurement>, r: HttpRequest): (resp: Response)
    ensures HasCorsHeaders(resp)
    ensures QueryValue(r.query, "room").None? ==>
              resp == Error("Error retrieving measurements for room: ", Missing("Missing room parameter"))
    ensures resp.status == Ok <==> QueryValue(r.query, "room").Some? && Limit(r) >= 0 && Offset(r) >= 0
    ensures QueryValue(r.query, "room").Some? && resp.status != Ok ==>
              resp == Error("Error retrieving measurements for room: ", PagingCause(r))
    ensures resp.status == Ok ==>
      && resp.body.MeasurementList?
      && resp.body.measurements == Store.GetMeasurementsByRoom(rows, QueryValue(r.query, "room").value, Limit(r), Offset(r)).value
      && forall i :: 0 <= i < |resp.body.measurements| ==>
           resp.body.measurements[i].deviceName == QueryValue(r.query, "room")
  {
    match QueryValue(r.query, "room")
    case None => Error("Error retrieving measurements for room: ", Missing("Missing room parameter"))
    case Some(room) =>
      match Store.GetMeasurementsByRoom(rows, room, Limit(r), Offset(r))
      case Failure(e) => Error("Error retrieving measurements for room: ", Database(e))
      case Success(ms) => Json(MeasurementList(ms))
  }

  /** The room handler gives the same answer whatever time range is asked for. */
  lemma RoomHandlerIgnoresTimeRange(rows: seq<Store.Measurement>, r: HttpRequest, extra: Params)
    requires forall i :: 0 <= i < |extra| ==> extra[i].0 == "startTime" || extra[i].0 == "endTime"
    ensures HandleGetAllMeasurementsForRoom(rows, r.(query := extra + r.query)) == HandleGetAllMeasurementsForRoom(rows, r)
  {
    SkipOtherNames(extra, r.query, "room");
    SkipOtherNames(extra, r.query, "limit");
    SkipOtherNames(extra, r.query, "offset");
  }

  lemma {:induction false} SkipOtherNames(extra: Params, q: Params, name: string)
    requires forall i :: 0 <= i < |extra| ==> extra[i].0 != name
    ensures QueryValue(extra + q, name) == QueryValue(q, name)
  {
    if extra != [] {
      assert (extra + q)[0] == extra[0];
      assert (extra + q)[1..] == extra[1..] + q;
      SkipOtherNames(extra[1..], q, name);
    } else {
      assert extra + q == q;
    }
  }

  /** GET /devices. */
  function HandleGetAllDevices(rows: seq<Store.Measurement>, r: HttpRequest): (resp: Response)
    ensures HasCorsHeaders(resp)
    ensures resp.status == Ok <==> Limit(r) >= 0 && Offset(r) >= 0
    ensures resp.status == Ok ==>
      resp.body.DeviceList? && resp.body.devices == Store.GetAllDevices(rows, Limit(r), Offset(r)).value
    ensures resp.status != Ok ==> resp == Error("Error retrieving devices: ", PagingCause(r))
  {
    match Store.GetAllDevices(rows, Limit(r), Offset(r))
    case Failure(e) => Error("Error retrieving devices: ", Database(e))
    case Success(ds) => Json(DeviceList(ds))
  }

  /** GET /measurements/timerange. */
  function HandleGetMeasurementsInTimeRange(rows: seq<Store.Measurement>, r: HttpRequest, now: int,
                                            parseTime: string -> Option<int>): (resp: Response)
    ensures HasCorsHeaders(resp)
    ensures resp.status == Ok <==> TimeWindow(r, now, parseTime).Success?
    ensures resp.status == Ok ==>
      var (start, end) := TimeWindow(r, now, parseTime).value;
      resp.body == MeasurementList(Store.GetMeasurementsInTimeRange(rows, start, end))
  {
    match TimeWindow(r, now, parseTime)
    case Failure(c) => Error("Error retrieving measurements in time range: ", c)
    case Success((start, end)) => Json(MeasurementList(Store.GetMeasurementsInTimeRange(rows, start, end)))
  }

  /** An average, or the literal body "null" when the window holds no reading. */
  function AverageBody(avg: Option<real>): (p: Payload)
    ensures avg.None? <==> p == NullLiteral
    ensures avg.Some? ==> p == AverageValue(avg.value)
  {
    match avg
    case None => NullLiteral
    case Some(a) => AverageValue(a)
  }

  /** GET /measurements/avgTemperature. */
  function HandleGetAverageTemperature(rows: seq<Store.Measurement>, r: HttpRequest, now: int,
                                       parseTime: string -> Option<int>): (resp: Response)
    ensures HasCorsHeaders(resp)
    ensures resp.status == Ok <==> TimeWindow(r, now, parseTime).Success?
    ensures resp.status == Ok ==>
      var (start, end) := TimeWindow(r, now, parseTime).value;
      (resp.body == NullLiteral <==> Store.ValuesIn(rows, Store.TemperatureReading, start, end) == [])
      && resp.body == AverageBody(Store.GetAverageTemperature(rows, start, end))
  {
    match TimeWindow(r, now, parseTime)
    case Failure(c) => Error("Error retrieving average temperature in time range: ", c)
    case Success((start, end)) => Json(AverageBody(Store.GetAverageTemperature(rows, start, end)))
  }

  /** GET /measurements/avgHumidity. */
  function HandleGetAverageHumidity(rows: seq<Store.Measurement>, r: HttpRequest, now: int,
                                    parseTime: string -> Option<int>): (resp: Response)
    ensures HasCorsHeaders(resp)
    ensures resp.status == Ok <==> TimeWindow(r, now, parseTime).Success?
    ensures resp.status == Ok ==>
      var (start, end) := TimeWindow(r, now, parseTime).value;
      (resp.body == NullLiteral <==> Store.ValuesIn(rows, Store.HumidityReading, start, end) == [])
      && resp.body == AverageBody(Store.GetAverageHumidity(rows, start, end))
  {
    match TimeWindow(r, now, parseTime)
    case Failure(c) => Error("Error retrieving average humidity in time range: ", c)
    case Success((start, end)) => Json(AverageBody(Store.GetAverageHumidity(rows, start, end)))
  }

  /** GET /measurements/latest. */
  function HandleGetLatestMeasurementsByDevice(rows: seq<Store.Measurement>): (resp: Response)
    ensures HasCorsHeaders(resp) && resp.status == Ok
    ensures resp.body == MeasurementList(Store.GetLatestMeasurementsByDevice(rows))
  {
    Json(MeasurementList(Store.GetLatestMeasurementsByDevice(rows)))
  }

  /** GET /rooms: the store's default page of rooms, which never fails. */
  function HandleGetRooms(rows: seq<Store.Measurement>): (resp: Response)
    ensures HasCorsHeaders(resp) && resp.status == Ok
    ensures resp.body.RoomList? && |resp.body.rooms| <= DefaultLimit
    ensures resp.body == RoomList(Store.GetAllRooms(rows).value)
  {
    Json(RoomList(Store.GetAllRooms(rows).value))
  }

  // ---------------------------------------------------------------------------
  // POST /request
  // ---------------------------------------------------------------------------

  /** The arguments handed to saveMeasurement. */
  datatype SaveArguments = SaveArguments(
    temperature: Option<real>,
    humidity: Option<real>,
    ipAddress: Option<string>,
    macAddress: Option<string>,
    deviceName: Option<string>)

  /**
   * What each variant saves: its own readings (the one it lacks stays null), the transport address or
   * "unknown", and the MAC and name from the X-MAC-Address and X-Device-Name query parameters. The body's
   * ipAddress and deviceName are never saved.
   */
  function ArgumentsFor(req: RequestTypes.Request, r: HttpRequest): (a: SaveArguments)
    ensures a.ipAddress == Some(r.source.GetOr("unknown"))
    ensures a.macAddress == QueryValue(r.query, "X-MAC-Address")
    ensures a.deviceName == QueryValue(r.query, "X-Device-Name")
    ensures a.temperature == if req.HumidityRequest? then None else req.temperature
    ensures a.humidity == if req.TemperatureRequest? then None else req.humidity
  {
    var ip := Some(r.source.GetOr("unknown"));
    var mac := QueryValue(r.query, "X-MAC-Address");
    var name := QueryValue(r.query, "X-Device-Name");
    match req
    case TemperatureHumidityRequest(_, t, h, _, _) => SaveArguments(t, h, ip, mac, name)
    case HumidityRequest(_, h, _, _) => SaveArguments(None, h, ip, mac, name)
    case TemperatureRequest(_, t, _, _) => SaveArguments(t, None, ip, mac, name)
  }

  /** A string template renders a null reading as "null"; numbers are rendered by `render`. */
  function Shown(v: Option<real>, render: real -> string): string {
    match v
    case None => "null"
    case Some(x) => render(x)
  }

  /** The acknowledgment: the variant's class name, then exactly the readings it carries. */
  function Acknowledgment(req: RequestTypes.Request, render: real -> string): (text: string)
    ensures req.TemperatureHumidityRequest? ==>
      text == "Received TemperatureHumidityRequest: Temp=" + Shown(req.temperature, render) + ", Humidity=" + Shown(req.humidity, render)
    ensures req.HumidityRequest? ==> text == "Received HumidityRequest: Humidity=" + Shown(req.humidity, render)
    ensures req.TemperatureRequest? ==> text == "Received TemperatureRequest: Temp=" + Shown(req.temperature, render)
  {
    match req
    case TemperatureHumidityRequest(_, t, h, _, _) =>
      "Received TemperatureHumidityRequest: Temp=" + Shown(t, render) + ", Humidity=" + Shown(h, render)
    case HumidityRequest(_, h, _, _) => "Received HumidityRequest: Humidity=" + Shown(h, render)
    case TemperatureRequest(_, t, _, _) => "Received TemperatureRequest: Temp=" + Shown(t, render)
  }

  /** What handleRequest does before touching the store: reject the body, or save these arguments. */
  datatype Plan = Reject(response: Response) | Save(arguments: SaveArguments, acknowledgment: string)

  function PlanRequest(r: HttpRequest, render: real -> string): (p: Plan)
    ensures p.Reject? <==> RequestTypes.Decode(r.body).Failure?
    ensures p.Reject? ==> p.response == Error("Invalid request body: ", Decoding(RequestTypes.Decode(r.body).error))
    ensures p.Save? ==> (p.arguments == ArgumentsFor(RequestTypes.Decode(r.body).value, r)
                      && p.acknowledgment == Acknowledgment(RequestTypes.Decode(r.body).value, render))
  {
    match RequestTypes.Decode(r.body)
    case Failure(e) => Reject(Error("Invalid request body: ", Decoding(e)))
    case Success(req) => Save(ArgumentsFor(req, r), Acknowledgment(req, render))
  }

  /**
   * `handleRequest`: decodes the body, saves one row through the table, and acknowledges it in plain text.
   * A body that does not decode, or a row the database refuses, gives 400 "Invalid request body: " with the
   * cause; decoding comes first, so a bad body leaves the table exactly as it was.
   */
  method HandleRequest(table: Store.MeasurementTable, r: HttpRequest, now: int, render: real -> string)
    returns (resp: Response)
    requires table.Valid()
    modifies table
    ensures table.Valid()
    ensures HasCorsHeaders(resp)
    ensures RequestTypes.Decode(r.body).Failure? ==>
      && resp == PlanRequest(r, render).response
      && table.rows == old(table.rows) && table.nextId == old(table.nextId)
    ensures RequestTypes.Decode(r.body).Success? ==>
      var a := PlanRequest(r, render).arguments;
      var outcome := Store.InsertOutcome(old(table.nextId), a.ipAddress, a.macAddress, a.deviceName);
      && (outcome.Success? ==> (
            && table.rows == old(table.rows) + [Store.Measurement(outcome.value, now, a.temperature, a.humidity,
                 Store.Stored(a.ipAddress, Store.IpAddressWidth), Store.Stored(a.macAddress, Store.MacAddressWidth),
                 Store.Stored(a.deviceName, Store.DeviceNameWidth))]
            && resp == WithCorsHeaders(Response(Ok, [("Content-Type", "text/plain")], PlainText(PlanRequest(r, render).acknowledgment)))))
      && (outcome.Failure? ==> (
            && table.rows == old(table.rows)
            && resp == Error("Invalid request body: ", Database(outcome.error))))
  {
    match PlanRequest(r, render)
    case Reject(rejection) =>
      resp := rejection;
    case Save(a, ack) =>
      var saved := table.SaveMeasurement(now, a.temperature, a.humidity, a.ipAddress, a.macAddress, a.deviceName);
      match saved
      case Failure(e) =>
        resp := Error("Invalid request body: ", Database(e));
      case Success(_) =>
        resp := WithCorsHeaders(Response(Ok, [("Content-Type", "text/plain")], PlainText(ack)));
  }

  /** A HUMIDITY submission saves its humidity with a null temperature, even when the body carries one. */
  lemma HumiditySubmissionSavesNoTemperature(r: HttpRequest, t: real, h: real, render: real -> string)
    requires r.body == RequestTypes.JsonObject(map["type" := RequestTypes.Text(RequestTypes.HumidityName),
                                                   "temperature" := RequestTypes.Number(t),
                                                   "humidity" := RequestTypes.Number(h)])
    ensures PlanRequest(r, render) == Save(
      SaveArguments(None, Some(h), Some(r.source.GetOr("unknown")),
                    QueryValue(r.query, "X-MAC-Address"), QueryValue(r.query, "X-Device-Name")),
      "Received HumidityRequest: Humidity=" + render(h))
  {
    assert RequestTypes.Decode(r.body) == Success(RequestTypes.HumidityRequest(humidity := Some(h)));
  }
}
