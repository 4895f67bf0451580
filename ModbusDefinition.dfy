/**
 * The register definition of the Modbus-to-MQTT bridge: its closed
 * enumerations, the record itself, its decoding from one JSON object
 * (`init(from:)`: the address normaliser and the per-field required/optional
 * policy) and the derived `hasFactor`.
 */
module ModbusDefinition {
  import opened Wrappers
  import opened IntParsing
  import opened Json

  /** How a decoded value is published (`MQTTVisibilty` in the source). */
  datatype MqttVisibility = Invisible | Visible | Retained

  datatype ModbusAccess = Read | ReadWrite | Write

  /** How the raw register bytes are interpreted. */
  datatype ModbusValueType =
    | Bool
    | UInt8 | Int8 | UInt16 | Int16 | UInt32 | Int32 | UInt64 | Int64
    | String | IPv4Address | MacAddress

  /**
   * The two enumerations of the Modbus library, whose cases are not part of
   * this model: a value is the raw string it was decoded from.
   */
  datatype RegisterType = RegisterType(raw: string)
  datatype Endianness = Endianness(raw: string)

  /** The raw values the Modbus library's two enumerations accept. */
  datatype ExternalEnums = ExternalEnums(registerTypes: set<string>, endiannesses: set<string>)

  /** A Foundation `Date`, as seconds since the reference date 2001-01-01. */
  datatype Date = Date(sinceReference: real)

  /** `Date.distantPast`, 0001-01-01 00:00:00 UTC. */
  const DistantPast: Date := Date(-63114076800.0)

  /** One register definition; `interval` and `factor` are kept as exact numbers. */
  datatype Definition = Definition(
    address: int,
    length: Option<int>,
    modbustype: RegisterType,
    modbusaccess: ModbusAccess,
    endianness: Option<Endianness>,
    valuetype: ModbusValueType,
    factor: Option<real>,
    unit: Option<string>,
    mqtt: MqttVisibility,
    publishalways: Option<bool>,
    interval: real,
    topic: string,
    title: string,
    nextReadDate: Option<Date>)
  {
    /** `hasFactor`: a factor is present and is neither 0 nor 1. */
    predicate HasFactor()
      ensures HasFactor() ==> factor.Some?
      ensures factor.Some? ==> (HasFactor() <==> factor.value * factor.value != factor.value)
    {
      factor.Some? && factor.value != 0.0 && factor.value != 1.0
    }
  }

  // ---------------------------------------------------------------------------
  // Raw values of the source's own enumerations

  function AccessRaw(a: ModbusAccess): string {
    match a
    case Read => "read"
    case ReadWrite => "readwrite"
    case Write => "write"
  }

  /** `ModbusAccess(rawValue:)`: the inverse of `AccessRaw`. */
  function AccessFromRaw(s: string): (r: Option<ModbusAccess>)
    ensures forall a :: r == Some(a) <==> AccessRaw(a) == s
  {
    if s == "read" then Some(Read)
    else if s == "readwrite" then Some(ReadWrite)
    else if s == "write" then Some(Write)
    else None
  }

  function ValueTypeRaw(t: ModbusValueType): string {
    match t
    case Bool => "bool"
    case UInt8 => "uint8"
    case Int8 => "int8"
    case UInt16 => "uint16"
    case Int16 => "int16"
    case UInt32 => "uint32"
    case Int32 => "int32"
    case UInt64 => "uint64"
    case Int64 => "int64"
    case String => "string"
    case IPv4Address => "ipv4address"
    case MacAddress => "macaddress"
  }

  /** `ModbusValueType(rawValue:)`: the inverse of `ValueTypeRaw`. */
  function ValueTypeFromRaw(s: string): (r: Option<ModbusValueType>)
    ensures forall t :: r == Some(t) <==> ValueTypeRaw(t) == s
  {
    if s == "bool" then Some(Bool)
    else if s == "uint8" then Some(UInt8)
    else if s == "int8" then Some(Int8)
    else if s == "uint16" then Some(UInt16)
    else if s == "int16" then Some(Int16)
    else if s == "uint32" then Some(UInt32)
    else if s == "int32" then Some(Int32)
    else if s == "uint64" then Some(UInt64)
    else if s == "int64" then Some(Int64)
    else if s == "string" then Some(String)
    else if s == "ipv4address" then Some(IPv4Address)
    else if s == "macaddress" then Some(MacAddress)
    else None
  }

  function VisibilityRaw(v: MqttVisibility): string {
    match v
    case Invisible => "invisible"
    case Visible => "visible"
    case Retained => "retained"
  }

  /** `MQTTVisibilty(rawValue:)`: the inverse of `VisibilityRaw`. */
  function VisibilityFromRaw(s: string): (r: Option<MqttVisibility>)
    ensures forall v :: r == Some(v) <==> VisibilityRaw(v) == s
  {
    if s == "invisible" then Some(Invisible)
    else if s == "visible" then Some(Visible)
    else if s == "retained" then Some(Retained)
    else None
  }

  // ---------------------------------------------------------------------------
  // Field decoders

  /** True when `s` starts with the two characters `0x` (lower-case x only). */
  predicate HasHexPrefix(s: string) {
    |s| >= 2 && s[0] == '0' && s[1] == 'x'
  }

  /** The string form of an address: base 16 after a `0x` prefix, base 10 otherwise. */
  function ParseAddressLiteral(s: string): (r: Option<int>)
    ensures r.Some? ==> InIntRange(r.value)
    ensures r.Some? && HasHexPrefix(s) ==> IsIntLiteral(s[2..], 16) && r.value == SignedValue(s[2..], 16)
    ensures r.Some? && !HasHexPrefix(s) ==> IsIntLiteral(s, 10) && r.value == SignedValue(s, 10)
    ensures r.Some? && !HasHexPrefix(s) ==> forall i | 0 <= i < |Unsigned(s)| :: '0' <= Unsigned(s)[i] <= '9'
    ensures HasHexPrefix(s) && IsIntLiteral(s[2..], 16) && InIntRange(SignedValue(s[2..], 16)) ==> r.Some?
    ensures !HasHexPrefix(s) && IsIntLiteral(s, 10) && InIntRange(SignedValue(s, 10)) ==> r.Some?
  {
    if HasHexPrefix(s) then ParseInt(s[2..], 16) else ParseInt(s, 10)
  }

  /**
   * The address: an integer is taken as it is; failing that, a string is
   * parsed, and a string that does not parse is a corrupted-data error that
   * names the key and the literal.
   */
  function DecodeAddress(obj: JsonObject): (r: Result<int, DecodeError>)
    ensures r.Success? ==> InIntRange(r.value)
    ensures forall n :: "address" in obj && obj["address"] == JInt(n) && InIntRange(n) ==> r == Success(n)
    ensures "address" !in obj ==> r == Failure(KeyNotFound("address"))
    ensures r.Success? ==>
      && "address" in obj
      && (|| obj["address"] == JInt(r.value)
          || obj["address"] == JNumber(r.value as real)
          || (obj["address"].JString? && ParseAddressLiteral(obj["address"].s) == Some(r.value)))
    ensures "address" in obj && FitsInt(obj["address"]) ==> r == Success(IntValue(obj["address"]))
    ensures "address" in obj && obj["address"] == JNull ==> r == Failure(ValueNotFound("address"))
    ensures "address" in obj && obj["address"] != JNull && !obj["address"].JString? && !FitsInt(obj["address"])
      ==> r == Failure(TypeMismatch("address"))
    ensures forall s :: "address" in obj && obj["address"] == JString(s) ==>
      r == match ParseAddressLiteral(s)
           case Some(n) => Success(n)
           case None => Failure(DataCorrupted("address", s))
  {
    match DecodeInt(obj, "address")
    case Success(n) => Success(n)
    case Failure(_) =>
      var s :- DecodeString(obj, "address");
      match ParseAddressLiteral(s)
      case Some(n) => Success(n)
      case None => Failure(DataCorrupted("address", s))
  }

  /** A string field decoded into a closed enumeration, or the literal it rejected. */
  function DecodeAccess(obj: JsonObject): (r: Result<ModbusAccess, DecodeError>)
    ensures r.Success? <==> "modbusaccess" in obj && obj["modbusaccess"].JString? && AccessFromRaw(obj["modbusaccess"].s).Some?
    ensures r.Success? ==> obj["modbusaccess"] == JString(AccessRaw(r.value))
    ensures "modbusaccess" in obj && obj["modbusaccess"].JString? && AccessFromRaw(obj["modbusaccess"].s).None? ==>
      r == Failure(DataCorrupted("modbusaccess", obj["modbusaccess"].s))
    ensures !("modbusaccess" in obj && obj["modbusaccess"].JString?) ==> r == Failure(KindError(obj, "modbusaccess"))
    ensures r.Failure? ==> r.error.Key() == Some("modbusaccess")
  {
    var s :- DecodeString(obj, "modbusaccess");
    match AccessFromRaw(s)
    case Some(a) => Success(a)
    case None => Failure(DataCorrupted("modbusaccess", s))
  }

  function DecodeValueType(obj: JsonObject): (r: Result<ModbusValueType, DecodeError>)
    ensures r.Success? <==> "valuetype" in obj && obj["valuetype"].JString? && ValueTypeFromRaw(obj["valuetype"].s).Some?
    ensures r.Success? ==> obj["valuetype"] == JString(ValueTypeRaw(r.value))
    ensures "valuetype" in obj && obj["valuetype"].JString? && ValueTypeFromRaw(obj["valuetype"].s).None? ==>
      r == Failure(DataCorrupted("valuetype", obj["valuetype"].s))
    ensures !("valuetype" in obj && obj["valuetype"].JString?) ==> r == Failure(KindError(obj, "valuetype"))
    ensures r.Failure? ==> r.error.Key() == Some("valuetype")
  {
    var s :- DecodeString(obj, "valuetype");
    match ValueTypeFromRaw(s)
    case Some(t) => Success(t)
    case None => Failure(DataCorrupted("valuetype", s))
  }

  function DecodeVisibility(obj: JsonObject): (r: Result<MqttVisibility, DecodeError>)
    ensures r.Success? <==> "mqtt" in obj && obj["mqtt"].JString? && VisibilityFromRaw(obj["mqtt"].s).Some?
    ensures r.Success? ==> obj["mqtt"] == JString(VisibilityRaw(r.value))
    ensures "mqtt" in obj && obj["mqtt"].JString? && VisibilityFromRaw(obj["mqtt"].s).None? ==>
      r == Failure(DataCorrupted("mqtt", obj["mqtt"].s))
    ensures !("mqtt" in obj && obj["mqtt"].JString?) ==> r == Failure(KindError(obj, "mqtt"))
    ensures r.Failure? ==> r.error.Key() == Some("mqtt")
  {
    var s :- DecodeString(obj, "mqtt");
    match VisibilityFromRaw(s)
    case Some(v) => Success(v)
    case None => Failure(DataCorrupted("mqtt", s))
  }

  function DecodeRegisterType(ext: ExternalEnums, obj: JsonObject): (r: Result<RegisterType, DecodeError>)
    ensures r.Success? <==> "modbustype" in obj && obj["modbustype"].JString? && obj["modbustype"].s in ext.registerTypes
    ensures r.Success? ==> obj["modbustype"] == JString(r.value.raw)
    ensures "modbustype" in obj && obj["modbustype"].JString? && obj["modbustype"].s !in ext.registerTypes ==>
      r == Failure(DataCorrupted("modbustype", obj["modbustype"].s))
    ensures !("modbustype" in obj && obj["modbustype"].JString?) ==> r == Failure(KindError(obj, "modbustype"))
    ensures r.Failure? ==> r.error.Key() == Some("modbustype")
  {
    var s :- DecodeString(obj, "modbustype");
    if s in ext.registerTypes then Success(RegisterType(s))
    else Failure(DataCorrupted("modbustype", s))
  }

  function DecodeEndianness(ext: ExternalEnums, obj: JsonObject): (r: Result<Endianness, DecodeError>)
    ensures r.Success? <==> "endianness" in obj && obj["endianness"].JString? && obj["endianness"].s in ext.endiannesses
    ensures r.Success? ==> obj["endianness"] == JString(r.value.raw)
    ensures "endianness" in obj && obj["endianness"].JString? && obj["endianness"].s !in ext.endiannesses ==>
      r == Failure(DataCorrupted("endianness", obj["endianness"].s))
    ensures !("endianness" in obj && obj["endianness"].JString?) ==> r == Failure(KindError(obj, "endianness"))
    ensures r.Failure? ==> r.error.Key() == Some("endianness")
  {
    var s :- DecodeString(obj, "endianness");
    if s in ext.endiannesses then Success(Endianness(s))
    else Failure(DataCorrupted("endianness", s))
  }

  /** A `Date` under the default strategy: a number of seconds since the reference date. */
  function DecodeDate(obj: JsonObject, key: string): (r: Result<Date, DecodeError>)
    ensures r.Success? <==> key in obj && (obj[key].JInt? || obj[key].JNumber?)
    ensures r.Success? && obj[key].JNumber? ==> r.value == Date(obj[key].x)
    ensures r.Success? && obj[key].JInt? ==> r.value == Date(obj[key].i as real)
    ensures r.Failure? ==> r.error == KindError(obj, key)
  {
    var x :- DecodeNumber(obj, key);
    Success(Date(x))
  }

  // ---------------------------------------------------------------------------
  // The record decoder

  /**
   * `init(from:)` on one JSON object. Required fields are decoded with `try`
   * and abort the record; optional ones with `try?` and become `None`.
   */
  function DecodeRecord(ext: ExternalEnums, obj: JsonObject): (r: Result<Definition, DecodeError>)
    ensures r.Success? ==> InIntRange(r.value.address)
    ensures r.Success? ==> r.value.length.Some? ==> InIntRange(r.value.length.value)
    ensures r.Success? ==> r.value.modbustype.raw in ext.registerTypes
    ensures r.Success? ==> r.value.endianness.Some? ==> r.value.endianness.value.raw in ext.endiannesses
    ensures r.Failure? ==> r.error.Key().Some? && r.error.Key().value in RequiredKeys
  {
    var address :- DecodeAddress(obj);
    var length := DecodeInt(obj, "length").ToOption();
    var modbustype :- DecodeRegisterType(ext, obj);
    var modbusaccess :- DecodeAccess(obj);
    var endianness := DecodeEndianness(ext, obj).ToOption();
    var valuetype :- DecodeValueType(obj);
    var factor := DecodeNumber(obj, "factor").ToOption();
    var unit := DecodeString(obj, "unit").ToOption();
    var mqtt :- DecodeVisibility(obj);
    var publishalways := DecodeBool(obj, "publishalways").ToOption();
    var interval :- DecodeNumber(obj, "interval");
    var topic :- DecodeString(obj, "topic");
    var title :- DecodeString(obj, "title");
    var nextReadDate := DecodeDate(obj, "nextReadDate").ToOption();
    Success(Definition(address, length, modbustype, modbusaccess, endianness, valuetype,
                       factor, unit, mqtt, publishalways, interval, topic, title, nextReadDate))
  }

  /** `decoder.container(keyedBy:)` fails on anything but an object. */
  function DecodeDefinition(ext: ExternalEnums, v: JsonValue): (r: Result<Definition, DecodeError>)
    ensures !v.JObject? <==> r == Failure(NotAnObject)
    ensures v.JObject? ==> r == DecodeRecord(ext, v.fields)
  {
    if v.JObject? then DecodeRecord(ext, v.fields) else Failure(NotAnObject)
  }

  // ---------------------------------------------------------------------------
  // The field policy, stated as a table

  datatype Policy = Required | Optional

  /** The coding keys of the record. */
  datatype CodingKey =
    | AddressKey | LengthKey | ModbustypeKey | ModbusaccessKey | EndiannessKey
    | ValuetypeKey | FactorKey | UnitKey | MqttKey | PublishalwaysKey
    | IntervalKey | TopicKey | TitleKey | NextReadDateKey
  {
    /** The JSON key. */
    function Name(): string {
      match this
      case AddressKey => "address"
      case LengthKey => "length"
      case ModbustypeKey => "modbustype"
      case ModbusaccessKey => "modbusaccess"
      case EndiannessKey => "endianness"
      case ValuetypeKey => "valuetype"
      case FactorKey => "factor"
      case UnitKey => "unit"
      case MqttKey => "mqtt"
      case PublishalwaysKey => "publishalways"
      case IntervalKey => "interval"
      case TopicKey => "topic"
      case TitleKey => "title"
      case NextReadDateKey => "nextReadDate"
    }

    /** `try` (required) or `try?` (optional) in `init(from:)`. */
    function Policy(): Policy {
      match this
      case LengthKey | EndiannessKey | FactorKey | UnitKey | PublishalwaysKey | NextReadDateKey => Optional
      case _ => Required
    }
  }

  /** The coding keys in declaration order. */
  const CodingKeys: seq<CodingKey> := [
    AddressKey, LengthKey, ModbustypeKey, ModbusaccessKey, EndiannessKey, ValuetypeKey, FactorKey,
    UnitKey, MqttKey, PublishalwaysKey, IntervalKey, TopicKey, TitleKey, NextReadDateKey]

  const RequiredKeys: set<string> :=
    {"address", "modbustype", "modbusaccess", "valuetype", "mqtt", "interval", "topic", "title"}

  const OptionalKeys: set<string> :=
    {"length", "endianness", "factor", "unit", "publishalways", "nextReadDate"}

  /** The error of a decode, if it failed. */
  function ErrorOf<T>(r: Result<T, DecodeError>): Option<DecodeError> {
    if r.Failure? then Some(r.error) else None
  }

  /** The error the decoder for `key`'s type raises on `obj`, if any. */
  function FieldError(ext: ExternalEnums, obj: JsonObject, key: CodingKey): Option<DecodeError> {
    match key
    case AddressKey => ErrorOf(DecodeAddress(obj))
    case LengthKey => ErrorOf(DecodeInt(obj, key.Name()))
    case ModbustypeKey => ErrorOf(DecodeRegisterType(ext, obj))
    case ModbusaccessKey => ErrorOf(DecodeAccess(obj))
    case EndiannessKey => ErrorOf(DecodeEndianness(ext, obj))
    case ValuetypeKey => ErrorOf(DecodeValueType(obj))
    case FactorKey => ErrorOf(DecodeNumber(obj, key.Name()))
    case UnitKey => ErrorOf(DecodeString(obj, key.Name()))
    case MqttKey => ErrorOf(DecodeVisibility(obj))
    case PublishalwaysKey => ErrorOf(DecodeBool(obj, key.Name()))
    case IntervalKey => ErrorOf(DecodeNumber(obj, key.Name()))
    case TopicKey => ErrorOf(DecodeString(obj, key.Name()))
    case TitleKey => ErrorOf(DecodeString(obj, key.Name()))
    case NextReadDateKey => ErrorOf(DecodeDate(obj, key.Name()))
  }

  /** The first error among the `Required` entries of `keys`, in table order. */
  function PolicyError(ext: ExternalEnums, obj: JsonObject, keys: seq<CodingKey>): Option<DecodeError> {
    if keys == [] then None
    else if keys[0].Policy() == Required && FieldError(ext, obj, keys[0]).Some? then FieldError(ext, obj, keys[0])
    else PolicyError(ext, obj, keys[1..])
  }
}
