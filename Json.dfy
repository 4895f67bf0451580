/**
 * Already-parsed JSON values and the primitive decodes of a keyed container
 * (`container.decode(T.self, forKey:)`) as Foundation's `JSONDecoder` performs
 * them: a missing key, a `null`, a value of the wrong JSON kind and a number
 * that does not fit are each an error.
 */
module Json {
  import opened Wrappers
  import opened IntParsing

  /**
   * A JSON value. `JInt` is a number written as an integer; `JNumber` is a
   * number written with a fraction or an exponent, kept exactly (its value may
   * still be integral, as in `5.0`).
   */
  datatype JsonValue =
    | JNull
    | JBool(b: bool)
    | JInt(i: int)
    | JNumber(x: real)
    | JString(s: string)
    | JArray(items: seq<JsonValue>)
    | JObject(fields: map<string, JsonValue>)

  type JsonObject = map<string, JsonValue>

  /** The decoding errors the core can raise, each naming the key it concerns. */
  datatype DecodeError =
    | NotAnObject
    | KeyNotFound(key: string)
    | ValueNotFound(key: string)
    | TypeMismatch(key: string)
    | NumberDoesNotFit(key: string, number: real)
    | DataCorrupted(key: string, literal: string)
  {
    /** The key the error names, if it names one. */
    function Key(): Option<string> {
      if NotAnObject? then None else Some(key)
    }
  }

  /** A present, non-null value under `key`. */
  function Field(obj: JsonObject, key: string): (r: Result<JsonValue, DecodeError>)
    ensures r.Success? <==> key in obj && obj[key] != JNull
    ensures r.Success? ==> r.value == obj[key]
    ensures r.Failure? ==> r.error == (if key in obj then ValueNotFound(key) else KeyNotFound(key))
  {
    if key !in obj then Failure(KeyNotFound(key))
    else if obj[key] == JNull then Failure(ValueNotFound(key))
    else Success(obj[key])
  }

  /**
   * The error a decode raises when the value under `key` is missing, `null`
   * or of a JSON kind the requested type cannot be read from.
   */
  function KindError(obj: JsonObject, key: string): DecodeError {
    if key !in obj then KeyNotFound(key)
    else if obj[key] == JNull then ValueNotFound(key)
    else TypeMismatch(key)
  }

  /** A number with an integral value that fits in 64 bits, however it is written. */
  predicate FitsInt(v: JsonValue) {
    || (v.JInt? && InIntRange(v.i))
    || (v.JNumber? && v.x == v.x.Floor as real && InIntRange(v.x.Floor))
  }

  /** The integer such a number denotes. */
  function IntValue(v: JsonValue): int
    requires FitsInt(v)
  {
    if v.JInt? then v.i else v.x.Floor
  }

  /** `decode(Int.self, forKey: key)`: an integral number that fits in 64 bits. */
  function DecodeInt(obj: JsonObject, key: string): (r: Result<int, DecodeError>)
    ensures r.Success? ==> InIntRange(r.value)
    ensures r.Success? ==> key in obj && (obj[key] == JInt(r.value) || obj[key] == JNumber(r.value as real))
    ensures forall n :: key in obj && obj[key] == JInt(n) && InIntRange(n) ==> r == Success(n)
    ensures r.Success? <==> key in obj && FitsInt(obj[key])
    ensures key in obj && FitsInt(obj[key]) ==> r == Success(IntValue(obj[key]))
  {
    var v :- Field(obj, key);
    match v
    case JInt(n) => if InIntRange(n) then Success(n) else Failure(NumberDoesNotFit(key, n as real))
    case JNumber(x) =>
      if x == x.Floor as real && InIntRange(x.Floor) then Success(x.Floor)
      else Failure(NumberDoesNotFit(key, x))
    case _ => Failure(TypeMismatch(key))
  }

  /** `decode(String.self, forKey: key)`. */
  function DecodeString(obj: JsonObject, key: string): (r: Result<string, DecodeError>)
    ensures r.Success? <==> key in obj && obj[key].JString?
    ensures r.Success? ==> obj[key] == JString(r.value)
    ensures r.Failure? ==> r.error == KindError(obj, key)
  {
    var v :- Field(obj, key);
    if v.JString? then Success(v.s) else Failure(TypeMismatch(key))
  }

  /** `decode(Bool.self, forKey: key)`: only `true` and `false`, never a number. */
  function DecodeBool(obj: JsonObject, key: string): (r: Result<bool, DecodeError>)
    ensures r.Success? <==> key in obj && obj[key].JBool?
    ensures r.Success? ==> obj[key] == JBool(r.value)
    ensures r.Failure? ==> r.error == KindError(obj, key)
  {
    var v :- Field(obj, key);
    if v.JBool? then Success(v.b) else Failure(TypeMismatch(key))
  }

  /**
   * `decode(Double.self, forKey: key)` and `decode(Decimal.self, forKey: key)`:
   * any number, read as an exact value.
   */
  function DecodeNumber(obj: JsonObject, key: string): (r: Result<real, DecodeError>)
    ensures r.Success? <==> key in obj && (obj[key].JInt? || obj[key].JNumber?)
    ensures r.Success? ==> obj[key] == JNumber(r.value) || (obj[key].JInt? && r.value == obj[key].i as real)
    ensures r.Failure? ==> r.error == KindError(obj, key)
  {
    var v :- Field(obj, key);
    match v
    case JInt(n) => Success(n as real)
    case JNumber(x) => Success(x)
    case _ => Failure(TypeMismatch(key))
  }
}
