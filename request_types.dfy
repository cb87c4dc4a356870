/**
 * The submission body of `POST /request`: a union of three shapes told apart by the
 * `type` property, decoded as Jackson does for `@JsonTypeInfo(use = NAME,
 * include = EXISTING_PROPERTY, property = "type", visible = true)` with the three
 * registered subtype names.
 */
module RequestTypes {
  import opened Wrappers

  const TemperatureHumidityName: string := "TEMPERATURE_HUMIDITY"
  const HumidityName: string := "HUMIDITY"
  const TemperatureName: string := "TEMPERATURE"

  /** A JSON value as far as decoding needs to tell it apart. `Other` stands for booleans, arrays and objects. */
  datatype JsonValue = Null | Number(n: real) | Text(s: string) | Other

  /** A request body: either not a JSON object at all, or an object's properties. */
  datatype Body = NotAnObject | JsonObject(fields: map<string, JsonValue>)

  /**
   * The three data classes. Each carries its own `type` string (here `tag`), whose
   * default is its registered subtype name; every reading and both strings default to null.
   */
  datatype Request =
    | TemperatureHumidityRequest(tag: string := TemperatureHumidityName, temperature: Option<real> := None,
                                 humidity: Option<real> := None, ipAddress: Option<string> := None,
                                 deviceName: Option<string> := None)
    | HumidityRequest(tag: string := HumidityName, humidity: Option<real> := None,
                      ipAddress: Option<string> := None, deviceName: Option<string> := None)
    | TemperatureRequest(tag: string := TemperatureName, temperature: Option<real> := None,
                         ipAddress: Option<string> := None, deviceName: Option<string> := None)

  datatype DecodeError =
    | NotJsonObject
    | MissingTypeId                 // no `type` property, or `type` is null
    | UnknownTypeId(id: JsonValue)  // `type` is not one of the registered names
    | WrongKind(property: string)   // a declared property holds the wrong kind of JSON value

  /** The subtype name under which each variant is registered. */
  function RegisteredName(r: Request): string {
    match r
    case TemperatureHumidityRequest(_, _, _, _, _) => TemperatureHumidityName
    case HumidityRequest(_, _, _, _) => HumidityName
    case TemperatureRequest(_, _, _, _) => TemperatureName
  }

  predicate IsRegisteredName(t: string) {
    t == TemperatureHumidityName || t == HumidityName || t == TemperatureName
  }

  /** A `Double?` property: absent or null is null, a number is itself. */
  function ReadNumber(fields: map<string, JsonValue>, name: string): Result<Option<real>, DecodeError> {
    if name !in fields then Success(None)
    else match fields[name]
      case Null => Success(None)
      case Number(n) => Success(Some(n))
      case _ => Failure(WrongKind(name))
  }

  /** A `String?` property: absent or null is null, a string is itself. */
  function ReadText(fields: map<string, JsonValue>, name: string): Result<Option<string>, DecodeError> {
    if name !in fields then Success(None)
    else match fields[name]
      case Null => Success(None)
      case Text(s) => Success(Some(s))
      case _ => Failure(WrongKind(name))
  }

  /**
   * Decoding a body into a `Request`. The `type` property picks the subtype and, being an existing and
   * visible property, is also that object's `type`. Properties the chosen class does not declare are ignored
   * (so a HUMIDITY body's `temperature` is never read); readings carry no range check.
   */
  function Decode(body: Body): (r: Result<Request, DecodeError>)
    ensures body.NotAnObject? ==> r == Failure(NotJsonObject)
    ensures body.JsonObject? && ("type" !in body.fields || body.fields["type"] == Null) ==> r == Failure(MissingTypeId)
    ensures r.Success? ==> body.JsonObject? && "type" in body.fields && body.fields["type"] == Text(r.value.tag)
    ensures r.Success? ==> RegisteredName(r.value) == r.value.tag
    ensures (body.JsonObject? && "type" in body.fields && body.fields["type"].Text? && !IsRegisteredName(body.fields["type"].s))
              ==> r == Failure(UnknownTypeId(body.fields["type"]))
  {
    match body
    case NotAnObject => Failure(NotJsonObject)
    case JsonObject(fields) =>
      if "type" !in fields || fields["type"] == Null then Failure(MissingTypeId)
      else if !fields["type"].Text? || !IsRegisteredName(fields["type"].s) then Failure(UnknownTypeId(fields["type"]))
      else
        var tag := fields["type"].s;
        match ReadText(fields, "ipAddress")
        case Failure(e) => Failure(e)
        case Success(ip) =>
          match ReadText(fields, "deviceName")
          case Failure(e) => Failure(e)
          case Success(name) =>
            if tag == TemperatureHumidityName then
              match (ReadNumber(fields, "temperature"), ReadNumber(fields, "humidity"))
              case (Failure(e), _) => Failure(e)
              case (_, Failure(e)) => Failure(e)
              case (Success(t), Success(h)) => Success(TemperatureHumidityRequest(tag, t, h, ip, name))
            else if tag == HumidityName then
              match ReadNumber(fields, "humidity")
              case Failure(e) => Failure(e)
              case Success(h) => Success(HumidityRequest(tag, h, ip, name))
            else
              match ReadNumber(fields, "temperature")
              case Failure(e) => Failure(e)
              case Success(t) => Success(TemperatureRequest(tag, t, ip, name))
  }

  function OptionalNumber(v: Option<real>): JsonValue {
    match v
    case None => Null
    case Some(n) => Number(n)
  }

  function OptionalText(v: Option<string>): JsonValue {
    match v
    case None => Null
    case Some(s) => Text(s)
  }

  /** Serialising a `Request`: every declared property, null ones included, and `type` from the object itself. */
  function Encode(r: Request): (b: Body)
    ensures b.JsonObject? && "type" in b.fields && b.fields["type"] == Text(r.tag)
    ensures b.JsonObject? && ("temperature" in b.fields <==> !r.HumidityRequest?)
    ensures b.JsonObject? && ("humidity" in b.fields <==> !r.TemperatureRequest?)
  {
    match r
    case TemperatureHumidityRequest(tag, t, h, ip, name) =>
      JsonObject(map["type" := Text(tag), "temperature" := OptionalNumber(t), "humidity" := OptionalNumber(h),
                     "ipAddress" := OptionalText(ip), "deviceName" := OptionalText(name)])
    case HumidityRequest(tag, h, ip, name) =>
      JsonObject(map["type" := Text(tag), "humidity" := OptionalNumber(h),
                     "ipAddress" := OptionalText(ip), "deviceName" := OptionalText(name)])
    case TemperatureRequest(tag, t, ip, name) =>
      JsonObject(map["type" := Text(tag), "temperature" := OptionalNumber(t),
                     "ipAddress" := OptionalText(ip), "deviceName" := OptionalText(name)])
  }

  /** Encoding through the body lens and decoding back gives the same request, when its `type` is its registered name. */
  lemma RoundTrip(r: Request)
    requires r.tag == RegisteredName(r)
    ensures Decode(Encode(r)) == Success(r)
  {
  }

  /**
   * The discriminator is the object's own `type` field: a request whose `type` was changed away from its
   * registered name encodes to a body that no longer decodes.
   */
  lemma RetaggedRequestDoesNotDecode()
    ensures Decode(Encode(HumidityRequest(tag := "humidity"))) == Failure(UnknownTypeId(Text("humidity")))
  {
  }

  /** Decoding succeeds only for the three registered names, each yielding its own class. */
  lemma {:induction false} DecodeDispatch(body: Body)
    requires Decode(body).Success?
    ensures var r := Decode(body).value;
      && IsRegisteredName(r.tag)
      && (r.TemperatureHumidityRequest? <==> r.tag == TemperatureHumidityName)
      && (r.HumidityRequest? <==> r.tag == HumidityName)
      && (r.TemperatureRequest? <==> r.tag == TemperatureName)
  {
    var r := Decode(body).value;
    assert RegisteredName(r) == r.tag;
  }

  /** Every variant's default `type` is its registered subtype name, and its other properties default to null. */
  lemma DefaultsAreRegisteredNames()
    ensures TemperatureHumidityRequest().tag == RegisteredName(TemperatureHumidityRequest())
    ensures HumidityRequest().tag == RegisteredName(HumidityRequest())
    ensures TemperatureRequest().tag == RegisteredName(TemperatureRequest())
    ensures TemperatureHumidityRequest() == TemperatureHumidityRequest(TemperatureHumidityName, None, None, None, None)
  {
  }

  /** A body's readings are taken as they are, however implausible. */
  lemma NoRangeValidation(t: real, h: real)
    ensures Decode(JsonObject(map["type" := Text(TemperatureHumidityName), "temperature" := Number(t), "humidity" := Number(h)]))
         == Success(TemperatureHumidityRequest(temperature := Some(t), humidity := Some(h)))
  {
  }

  /** A HUMIDITY body's `temperature` property, whatever it holds, is not part of the decoded request. */
  lemma HumidityIgnoresTemperature(fields: map<string, JsonValue>, v: JsonValue)
    requires "type" in fields && fields["type"] == Text(HumidityName)
    ensures Decode(JsonObject(fields["temperature" := v])) == Decode(JsonObject(fields))
  {
  }
}
