/** The generated JSON codec of the `Device` model: the instance check, decoding and encoding. */
module DeviceCodec {

  /** A JavaScript value as the codec meets it; an object's properties form a map (their order is not modelled). */
  datatype Json = Undefined | Null | Str(s: string) | Num(n: int) | Bool(b: bool) | Obj(fields: map<string, Json>)

  /** A typed device. */
  datatype Device = Device(macAddress: string, name: string)

  /** `value[key]`: `undefined` for a missing property and for a value that is not an object. */
  function Property(value: Json, key: string): (v: Json)
    ensures value.Obj? && key in value.fields ==> v == value.fields[key]
    ensures !(value.Obj? && key in value.fields) ==> v == Undefined
  {
    if value.Obj? && key in value.fields then value.fields[key] else Undefined
  }

  /** `instanceOfDevice`: both properties are present (whatever their values, `undefined` included). */
  function InstanceOfDevice(value: Json): (r: bool)
    requires value.Obj?
    ensures r <==> "macAddress" in value.fields && "name" in value.fields
  {
    var isInstance := true;
    var isInstance := isInstance && "macAddress" in value.fields;
    isInstance && "name" in value.fields
  }

  /** The two properties a device carries. */
  function DeviceObject(macAddress: Json, name: Json): Json {
    Obj(map["macAddress" := macAddress, "name" := name])
  }

  /** A typed device as JSON. */
  function Encoded(d: Device): Json {
    DeviceObject(Str(d.macAddress), Str(d.name))
  }

  /** `DeviceFromJSONTyped`: null and undefined pass through; anything else keeps exactly the two properties. */
  function DeviceFromJson(json: Json): (r: Json)
    ensures json.Undefined? || json.Null? ==> r == json
    ensures !(json.Undefined? || json.Null?) ==>
              r.Obj? && r.fields.Keys == {"macAddress", "name"}
              && r.fields["macAddress"] == Property(json, "macAddress") && r.fields["name"] == Property(json, "name")
  {
    if json.Undefined? || json.Null? then json
    else DeviceObject(Property(json, "macAddress"), Property(json, "name"))
  }

  /** `DeviceToJSON`: undefined and null map to themselves; a device to its two properties. */
  function DeviceToJson(value: Json): (r: Json)
    ensures value.Undefined? ==> r == Undefined
    ensures value.Null? ==> r == Null
    ensures !(value.Undefined? || value.Null?) ==>
              r == DeviceObject(Property(value, "macAddress"), Property(value, "name"))
  {
    if value.Undefined? then Undefined
    else if value.Null? then Null
    else DeviceObject(Property(value, "macAddress"), Property(value, "name"))
  }

  /** Decoding what a device encodes to gives the same device back. */
  lemma {:induction false} RoundTrip(d: Device)
    ensures DeviceFromJson(DeviceToJson(Encoded(d))) == Encoded(d)
  {
    var e := Encoded(d);
    assert Property(e, "macAddress") == Str(d.macAddress);
    assert Property(e, "name") == Str(d.name);
  }

  /** A decoded object passes the instance check even when the input lacked the properties. */
  lemma {:induction false} DecodedPassesInstanceCheck(json: Json)
    requires !(json.Undefined? || json.Null?)
    ensures InstanceOfDevice(DeviceFromJson(json))
  {
  }

  /** Properties other than the two are dropped. */
  lemma {:induction false} ExtraPropertiesAreDropped(fields: map<string, Json>, key: string, v: Json)
    requires key != "macAddress" && key != "name"
    ensures DeviceFromJson(Obj(fields[key := v])) == DeviceFromJson(Obj(fields))
  {
    assert Property(Obj(fields[key := v]), "macAddress") == Property(Obj(fields), "macAddress");
    assert Property(Obj(fields[key := v]), "name") == Property(Obj(fields), "name");
  }
}
