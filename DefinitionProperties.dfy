/**
 * What `init(from:)` promises about one register definition: the address
 * normaliser, the required/optional field policy, indifference to unknown
 * keys, a round trip through a JSON object, and `hasFactor`.
 */
module DefinitionProperties {
  import opened Wrappers
  import opened IntParsing
  import opened Json
  import opened ModbusDefinition

  // ---------------------------------------------------------------------------
  // Address normaliser

  /** An address string spelled with `0x` and hexadecimal digits decodes to its value. */
  lemma HexAddressDecodes(n: int)
    requires InIntRange(n)
    ensures DecodeAddress(map["address" := JString("0x" + FormatInt(n, 16))]) == Success(n)
  {
    var s := "0x" + FormatInt(n, 16);
    assert HasHexPrefix(s) && s[2..] == FormatInt(n, 16);
    ParseFormatRoundTrip(n, 16);
  }

  /** An address string of decimal digits decodes to its value, the same as the integer form. */
  lemma DecimalAddressDecodes(n: int)
    requires InIntRange(n)
    ensures DecodeAddress(map["address" := JString(FormatInt(n, 10))]) == Success(n)
    ensures DecodeAddress(map["address" := JInt(n)]) == Success(n)
  {
    var s := FormatInt(n, 10);
    var m := if n < 0 then -n else n;
    DigitsRoundTrip(m, 10);
    var d := Digits(m, 10);
    if n >= 0 && |d| >= 2 {
      assert IsDigit(d[1], 10);
    }
    assert !HasHexPrefix(s);
    ParseFormatRoundTrip(n, 10);
  }

  /** The accepted spellings of address 16. */
  lemma AddressExamplesAccepted()
    ensures DecodeAddress(map["address" := JString("0x10")]) == Success(16)
    ensures DecodeAddress(map["address" := JString("16")]) == Success(16)
    ensures DecodeAddress(map["address" := JInt(16)]) == Success(16)
  {
    ParseIntExamples();
    assert HasHexPrefix("0x10") && "0x10"[2..] == "10";
    assert !HasHexPrefix("16");
  }

  /** Numbers that are not a 64-bit integer, and `null`, fail the address; an integral `16.0` is 16. */
  lemma AddressNumberExamples()
    ensures DecodeAddress(map["address" := JInt(0x1_0000_0000_0000_0000)]) == Failure(TypeMismatch("address"))
    ensures DecodeAddress(map["address" := JNumber(16.0)]) == Success(16)
    ensures DecodeAddress(map["address" := JNumber(16.5)]) == Failure(TypeMismatch("address"))
    ensures DecodeAddress(map["address" := JNull]) == Failure(ValueNotFound("address"))
  {
  }

  /** Zero-padded spellings of address 16. */
  lemma AddressExamplesZeroPadded()
    ensures DecodeAddress(map["address" := JString("0x0010")]) == Success(16)
    ensures DecodeAddress(map["address" := JString("0016")]) == Success(16)
  {
    assert "0x" + Zeros(2) + FormatInt(16, 16) == "0x0010" by {
      assert Digits(16, 16) == Digits(1, 16) + [DigitChar(0)];
    }
    ZeroPaddedHexAddressDecodes(2, 16);
    assert Zeros(2) + FormatInt(16, 10) == "0016" by {
      assert Digits(16, 10) == Digits(1, 10) + [DigitChar(6)];
    }
    ZeroPaddedDecimalAddressDecodes(2, 16);
  }

  /** Zeros after `0x` are ignored: `"0x0010"` is address 16. */
  lemma ZeroPaddedHexAddressDecodes(z: nat, n: int)
    requires 0 <= n <= IntMax
    ensures DecodeAddress(map["address" := JString("0x" + Zeros(z) + FormatInt(n, 16))]) == Success(n)
  {
    var s := "0x" + Zeros(z) + FormatInt(n, 16);
    assert HasHexPrefix(s) && s[2..] == Zeros(z) + FormatInt(n, 16);
    ZeroPaddedParse(z, n, 16);
  }

  /** Leading zeros of a decimal address are ignored: `"007"` is address 7. */
  lemma ZeroPaddedDecimalAddressDecodes(z: nat, n: int)
    requires 0 <= n <= IntMax
    ensures DecodeAddress(map["address" := JString(Zeros(z) + FormatInt(n, 10))]) == Success(n)
  {
    var d := FormatInt(n, 10);
    var s := Zeros(z) + d;
    DigitsRoundTrip(n, 10);
    assert IsDigit(d[0], 10);
    if |s| >= 2 {
      assert s[1] == (if z >= 2 then '0' else d[1 - z]);
      assert IsDigit(s[1], 10) by {
        if z < 2 { assert IsDigit(d[1 - z], 10); }
      }
    }
    assert !HasHexPrefix(s);
    ZeroPaddedParse(z, n, 10);
  }

  /** Rejected address values: malformed literals, a wrong JSON kind, a missing key. */
  lemma AddressExamplesRejected()
    ensures DecodeAddress(map["address" := JString("0xq")]) == Failure(DataCorrupted("address", "0xq"))
    ensures DecodeAddress(map["address" := JString("0x")]) == Failure(DataCorrupted("address", "0x"))
    ensures DecodeAddress(map["address" := JString("abc")]) == Failure(DataCorrupted("address", "abc"))
    ensures DecodeAddress(map["address" := JString("0X10")]) == Failure(DataCorrupted("address", "0X10"))
    ensures DecodeAddress(map["address" := JBool(true)]) == Failure(TypeMismatch("address"))
    ensures DecodeAddress(map[]) == Failure(KeyNotFound("address"))
  {
    assert ParseAddressLiteral("0xq") == None by {
      assert HasHexPrefix("0xq") && "0xq"[2..] == "q" && Unsigned("q") == "q";
      ParseRejectsStrayCharacter("q", 16, 0);
    }
    assert ParseAddressLiteral("0x") == None by {
      assert HasHexPrefix("0x") && "0x"[2..] == "";
    }
    assert ParseAddressLiteral("abc") == None by {
      assert !HasHexPrefix("abc") && Unsigned("abc") == "abc";
      ParseRejectsStrayCharacter("abc", 10, 0);
    }
    assert ParseAddressLiteral("0X10") == None by {
      assert !HasHexPrefix("0X10") && Unsigned("0X10") == "0X10";
      ParseRejectsStrayCharacter("0X10", 10, 1);
    }
  }

  // ---------------------------------------------------------------------------
  // Field policy

  /** `obj` and `other` hold the same thing (or nothing) under each of `keys`. */
  ghost predicate AgreeOn(obj: JsonObject, other: JsonObject, keys: set<string>) {
    forall k | k in keys :: (k in obj <==> k in other) && (k in obj ==> obj[k] == other[k])
  }

  lemma FieldsAgree(obj: JsonObject, other: JsonObject, keys: set<string>)
    requires AgreeOn(obj, other, keys)
    ensures forall k | k in keys :: Field(obj, k) == Field(other, k)
  {
  }

  /** Keys outside the coding keys are ignored: the record depends on its fourteen keys only. */
  lemma UnknownKeysIgnored(ext: ExternalEnums, obj: JsonObject, other: JsonObject)
    requires AgreeOn(obj, other, RequiredKeys + OptionalKeys)
    ensures DecodeRecord(ext, obj) == DecodeRecord(ext, other)
  {
    RequiredKeysDecide(ext, obj, other);
    if FirstRequiredError(ext, obj).None? {
      assert Assembled(ext, obj) == Assembled(ext, other) by {
        RequiredDecodesAgree(ext, obj, other);
        OptionalDecodesAgree(ext, obj, other);
      }
      DecodeRecordAssembles(ext, obj);
      DecodeRecordAssembles(ext, other);
    }
  }

  /** Each required field decodes alike in objects that agree on the required keys. */
  lemma RequiredDecodesAgree(ext: ExternalEnums, obj: JsonObject, other: JsonObject)
    requires AgreeOn(obj, other, RequiredKeys)
    ensures DecodeAddress(obj) == DecodeAddress(other)
    ensures DecodeRegisterType(ext, obj) == DecodeRegisterType(ext, other)
    ensures DecodeAccess(obj) == DecodeAccess(other)
    ensures DecodeValueType(obj) == DecodeValueType(other)
    ensures DecodeVisibility(obj) == DecodeVisibility(other)
    ensures DecodeNumber(obj, "interval") == DecodeNumber(other, "interval")
    ensures DecodeString(obj, "topic") == DecodeString(other, "topic")
    ensures DecodeString(obj, "title") == DecodeString(other, "title")
  {
    FieldsAgree(obj, other, RequiredKeys);
  }

  /** Each optional field decodes alike in objects that agree on the optional keys. */
  lemma OptionalDecodesAgree(ext: ExternalEnums, obj: JsonObject, other: JsonObject)
    requires AgreeOn(obj, other, OptionalKeys)
    ensures DecodeInt(obj, "length") == DecodeInt(other, "length")
    ensures DecodeEndianness(ext, obj) == DecodeEndianness(ext, other)
    ensures DecodeNumber(obj, "factor") == DecodeNumber(other, "factor")
    ensures DecodeString(obj, "unit") == DecodeString(other, "unit")
    ensures DecodeBool(obj, "publishalways") == DecodeBool(other, "publishalways")
    ensures DecodeDate(obj, "nextReadDate") == DecodeDate(other, "nextReadDate")
  {
    FieldsAgree(obj, other, OptionalKeys);
  }

  /** The first failing required field depends on the required keys alone. */
  lemma FirstRequiredErrorAgrees(ext: ExternalEnums, obj: JsonObject, other: JsonObject)
    requires AgreeOn(obj, other, RequiredKeys)
    ensures FirstRequiredError(ext, obj) == FirstRequiredError(ext, other)
  {
    RequiredDecodesAgree(ext, obj, other);
  }

  /** Whether a record decodes is decided by its required keys alone. */
  lemma RequiredKeysDecide(ext: ExternalEnums, obj: JsonObject, other: JsonObject)
    requires AgreeOn(obj, other, RequiredKeys)
    ensures DecodeRecord(ext, obj).Success? == DecodeRecord(ext, other).Success?
    ensures DecodeRecord(ext, obj).Failure? ==> DecodeRecord(ext, obj) == DecodeRecord(ext, other)
    ensures FirstRequiredError(ext, obj) == FirstRequiredError(ext, other)
  {
    FirstRequiredErrorAgrees(ext, obj, other);
    DecodeStopsAtFirstRequiredError(ext, obj);
    DecodeStopsAtFirstRequiredError(ext, other);
  }

  /** Whatever an optional key holds, or its absence, never decides whether a record decodes. */
  lemma OptionalFieldsNeverFail(ext: ExternalEnums, obj: JsonObject, key: string, v: JsonValue)
    requires key in OptionalKeys
    ensures DecodeRecord(ext, obj[key := v]).Success? == DecodeRecord(ext, obj).Success?
    ensures DecodeRecord(ext, obj - {key}).Success? == DecodeRecord(ext, obj).Success?
  {
    assert key !in RequiredKeys;
    RequiredKeysDecide(ext, obj[key := v], obj);
    RequiredKeysDecide(ext, obj - {key}, obj);
  }

  /** One step of the policy table walk, at row `i`, which holds `key`. */
  lemma PolicyErrorAt(ext: ExternalEnums, obj: JsonObject, i: nat, key: CodingKey)
    requires i < |CodingKeys| && CodingKeys[i] == key
    ensures PolicyError(ext, obj, CodingKeys[i..]) ==
      if key.Policy() == Required && FieldError(ext, obj, key).Some?
      then FieldError(ext, obj, key)
      else PolicyError(ext, obj, CodingKeys[i + 1..])
  {
    assert CodingKeys[i..][1..] == CodingKeys[i + 1..];
  }

  /** The error of the first required field, in declaration order, whose decode fails. */
  ghost function FirstRequiredError(ext: ExternalEnums, obj: JsonObject): Option<DecodeError> {
    if DecodeAddress(obj).Failure? then Some(DecodeAddress(obj).error)
    else if DecodeRegisterType(ext, obj).Failure? then Some(DecodeRegisterType(ext, obj).error)
    else if DecodeAccess(obj).Failure? then Some(DecodeAccess(obj).error)
    else if DecodeValueType(obj).Failure? then Some(DecodeValueType(obj).error)
    else if DecodeVisibility(obj).Failure? then Some(DecodeVisibility(obj).error)
    else if DecodeNumber(obj, "interval").Failure? then Some(DecodeNumber(obj, "interval").error)
    else if DecodeString(obj, "topic").Failure? then Some(DecodeString(obj, "topic").error)
    else if DecodeString(obj, "title").Failure? then Some(DecodeString(obj, "title").error)
    else None
  }

  /** The record the decoder builds from the individual field decodes, once every required one succeeds. */
  ghost function Assembled(ext: ExternalEnums, obj: JsonObject): Definition
    requires FirstRequiredError(ext, obj).None?
  {
    Definition(DecodeAddress(obj).value, DecodeInt(obj, "length").ToOption(), DecodeRegisterType(ext, obj).value,
               DecodeAccess(obj).value, DecodeEndianness(ext, obj).ToOption(), DecodeValueType(obj).value,
               DecodeNumber(obj, "factor").ToOption(), DecodeString(obj, "unit").ToOption(), DecodeVisibility(obj).value,
               DecodeBool(obj, "publishalways").ToOption(), DecodeNumber(obj, "interval").value,
               DecodeString(obj, "topic").value, DecodeString(obj, "title").value,
               DecodeDate(obj, "nextReadDate").ToOption())
  }

  /** With no failing required field, the decoder returns the assembled record. */
  lemma DecodeRecordAssembles(ext: ExternalEnums, obj: JsonObject)
    requires FirstRequiredError(ext, obj).None?
    ensures DecodeRecord(ext, obj) == Success(Assembled(ext, obj))
  {
  }

  /** Rows 0 and 1 of the table walk. */
  lemma PolicyWalkHead(ext: ExternalEnums, obj: JsonObject)
    ensures PolicyError(ext, obj, CodingKeys[0..]) ==
      if DecodeAddress(obj).Failure? then Some(DecodeAddress(obj).error) else PolicyError(ext, obj, CodingKeys[2..])
  {
    var tail := PolicyError(ext, obj, CodingKeys[2..]);
    assert PolicyError(ext, obj, CodingKeys[1..]) == tail by { PolicyErrorAt(ext, obj, 1, LengthKey); }
    tail := if DecodeAddress(obj).Failure? then Some(DecodeAddress(obj).error) else tail;
    assert PolicyError(ext, obj, CodingKeys[0..]) == tail by { PolicyErrorAt(ext, obj, 0, AddressKey); }
  }

  /** Rows 2 and 3 of the table walk. */
  lemma PolicyWalkRegister(ext: ExternalEnums, obj: JsonObject)
    ensures PolicyError(ext, obj, CodingKeys[2..]) ==
      if DecodeRegisterType(ext, obj).Failure? then Some(DecodeRegisterType(ext, obj).error)
      else if DecodeAccess(obj).Failure? then Some(DecodeAccess(obj).error) else PolicyError(ext, obj, CodingKeys[4..])
  {
    var tail := PolicyError(ext, obj, CodingKeys[4..]);
    tail := if DecodeAccess(obj).Failure? then Some(DecodeAccess(obj).error) else tail;
    assert PolicyError(ext, obj, CodingKeys[3..]) == tail by { PolicyErrorAt(ext, obj, 3, ModbusaccessKey); }
    tail := if DecodeRegisterType(ext, obj).Failure? then Some(DecodeRegisterType(ext, obj).error) else tail;
    assert PolicyError(ext, obj, CodingKeys[2..]) == tail by { PolicyErrorAt(ext, obj, 2, ModbustypeKey); }
  }

  /** Rows 4 to 7 of the table walk. */
  lemma PolicyWalkMiddle(ext: ExternalEnums, obj: JsonObject)
    ensures PolicyError(ext, obj, CodingKeys[4..]) ==
      if DecodeValueType(obj).Failure? then Some(DecodeValueType(obj).error) else PolicyError(ext, obj, CodingKeys[8..])
  {
    var tail := PolicyError(ext, obj, CodingKeys[8..]);
    assert PolicyError(ext, obj, CodingKeys[7..]) == tail by { PolicyErrorAt(ext, obj, 7, UnitKey); }
    assert PolicyError(ext, obj, CodingKeys[6..]) == tail by { PolicyErrorAt(ext, obj, 6, FactorKey); }
    tail := if DecodeValueType(obj).Failure? then Some(DecodeValueType(obj).error) else tail;
    assert PolicyError(ext, obj, CodingKeys[5..]) == tail by { PolicyErrorAt(ext, obj, 5, ValuetypeKey); }
    assert PolicyError(ext, obj, CodingKeys[4..]) == tail by { PolicyErrorAt(ext, obj, 4, EndiannessKey); }
  }

  /** Rows 8 to 10 of the table walk. */
  lemma PolicyWalkLate(ext: ExternalEnums, obj: JsonObject)
    ensures PolicyError(ext, obj, CodingKeys[8..]) ==
      if DecodeVisibility(obj).Failure? then Some(DecodeVisibility(obj).error)
      else if DecodeNumber(obj, "interval").Failure? then Some(DecodeNumber(obj, "interval").error)
      else PolicyError(ext, obj, CodingKeys[11..])
  {
    var tail := PolicyError(ext, obj, CodingKeys[11..]);
    tail := if DecodeNumber(obj, "interval").Failure? then Some(DecodeNumber(obj, "interval").error) else tail;
    assert PolicyError(ext, obj, CodingKeys[10..]) == tail by { PolicyErrorAt(ext, obj, 10, IntervalKey); }
    assert PolicyError(ext, obj, CodingKeys[9..]) == tail by { PolicyErrorAt(ext, obj, 9, PublishalwaysKey); }
    tail := if DecodeVisibility(obj).Failure? then Some(DecodeVisibility(obj).error) else tail;
    assert PolicyError(ext, obj, CodingKeys[8..]) == tail by { PolicyErrorAt(ext, obj, 8, MqttKey); }
  }

  /** Rows 11 to 13 of the table walk, and its end. */
  lemma PolicyWalkTail(ext: ExternalEnums, obj: JsonObject)
    ensures PolicyError(ext, obj, CodingKeys[11..]) ==
      if DecodeString(obj, "topic").Failure? then Some(DecodeString(obj, "topic").error)
      else if DecodeString(obj, "title").Failure? then Some(DecodeString(obj, "title").error)
      else None
  {
    var tail: Option<DecodeError> := None;
    assert PolicyError(ext, obj, CodingKeys[14..]) == tail by { assert CodingKeys[14..] == []; }
    assert PolicyError(ext, obj, CodingKeys[13..]) == tail by { PolicyErrorAt(ext, obj, 13, NextReadDateKey); }
    tail := if DecodeString(obj, "title").Failure? then Some(DecodeString(obj, "title").error) else tail;
    assert PolicyError(ext, obj, CodingKeys[12..]) == tail by { PolicyErrorAt(ext, obj, 12, TitleKey); }
    tail := if DecodeString(obj, "topic").Failure? then Some(DecodeString(obj, "topic").error) else tail;
    assert PolicyError(ext, obj, CodingKeys[11..]) == tail by { PolicyErrorAt(ext, obj, 11, TopicKey); }
  }

  /** The table walk finds the first failing required field. */
  lemma PolicyWalk(ext: ExternalEnums, obj: JsonObject)
    ensures PolicyError(ext, obj, CodingKeys) == FirstRequiredError(ext, obj)
  {
    PolicyWalkHead(ext, obj);
    PolicyWalkRegister(ext, obj);
    PolicyWalkMiddle(ext, obj);
    PolicyWalkLate(ext, obj);
    PolicyWalkTail(ext, obj);
    assert CodingKeys[0..] == CodingKeys;
  }

  /** The decoder stops at the first failing required field, and succeeds when there is none. */
  lemma DecodeStopsAtFirstRequiredError(ext: ExternalEnums, obj: JsonObject)
    ensures DecodeRecord(ext, obj).Success? <==> FirstRequiredError(ext, obj).None?
    ensures DecodeRecord(ext, obj).Failure? ==> FirstRequiredError(ext, obj) == Some(DecodeRecord(ext, obj).error)
  {
    if DecodeAddress(obj).Failure? {
      assert DecodeRecord(ext, obj) == Failure(DecodeAddress(obj).error);
    } else if DecodeRegisterType(ext, obj).Failure? {
      assert DecodeRecord(ext, obj) == Failure(DecodeRegisterType(ext, obj).error);
    } else if DecodeAccess(obj).Failure? {
      assert DecodeRecord(ext, obj) == Failure(DecodeAccess(obj).error);
    } else if DecodeValueType(obj).Failure? {
      assert DecodeRecord(ext, obj) == Failure(DecodeValueType(obj).error);
    } else if DecodeVisibility(obj).Failure? {
      assert DecodeRecord(ext, obj) == Failure(DecodeVisibility(obj).error);
    } else if DecodeNumber(obj, "interval").Failure? {
      assert DecodeRecord(ext, obj) == Failure(DecodeNumber(obj, "interval").error);
    } else if DecodeString(obj, "topic").Failure? {
      assert DecodeRecord(ext, obj) == Failure(DecodeString(obj, "topic").error);
    } else if DecodeString(obj, "title").Failure? {
      assert DecodeRecord(ext, obj) == Failure(DecodeString(obj, "title").error);
    } else {
      assert DecodeRecord(ext, obj).Success?;
    }
  }

  /**
   * The decoder fails exactly when the policy table has a required field whose
   * decode fails, and then with the error of the first such field in
   * declaration order; optional rows never contribute an error.
   */
  lemma DecodeFollowsPolicy(ext: ExternalEnums, obj: JsonObject)
    ensures DecodeRecord(ext, obj).Failure? <==> PolicyError(ext, obj, CodingKeys).Some?
    ensures DecodeRecord(ext, obj).Failure? ==> DecodeRecord(ext, obj).error == PolicyError(ext, obj, CodingKeys).value
  {
    PolicyWalk(ext, obj);
    DecodeStopsAtFirstRequiredError(ext, obj);
  }

  // ---------------------------------------------------------------------------
  // Field outcomes, stated on the JSON values themselves

  predicate IsNumber(v: JsonValue) {
    v.JInt? || v.JNumber?
  }

  /** A required field that is missing, of the wrong JSON kind or not a known raw value fails the record. */
  lemma RequiredFieldsFail(ext: ExternalEnums, obj: JsonObject)
    ensures "address" !in obj ==> DecodeRecord(ext, obj) == Failure(KeyNotFound("address"))
    ensures ("modbustype" !in obj || !obj["modbustype"].JString? || obj["modbustype"].s !in ext.registerTypes)
      ==> DecodeRecord(ext, obj).Failure?
    ensures ("modbusaccess" !in obj || !obj["modbusaccess"].JString? || AccessFromRaw(obj["modbusaccess"].s).None?)
      ==> DecodeRecord(ext, obj).Failure?
    ensures ("valuetype" !in obj || !obj["valuetype"].JString? || ValueTypeFromRaw(obj["valuetype"].s).None?)
      ==> DecodeRecord(ext, obj).Failure?
    ensures ("mqtt" !in obj || !obj["mqtt"].JString? || VisibilityFromRaw(obj["mqtt"].s).None?)
      ==> DecodeRecord(ext, obj).Failure?
    ensures ("interval" !in obj || !IsNumber(obj["interval"])) ==> DecodeRecord(ext, obj).Failure?
    ensures ("topic" !in obj || !obj["topic"].JString?) ==> DecodeRecord(ext, obj).Failure?
    ensures ("title" !in obj || !obj["title"].JString?) ==> DecodeRecord(ext, obj).Failure?
  {
    DecodeStopsAtFirstRequiredError(ext, obj);
  }

  /**
   * In a record that decodes, each optional field holds its JSON value when
   * that has the right kind, and is `None` when it is missing or ill-typed.
   */
  lemma OptionalFieldsDegrade(ext: ExternalEnums, obj: JsonObject)
    requires DecodeRecord(ext, obj).Success?
    ensures var d := DecodeRecord(ext, obj).value;
      && (d.length.None? <==> "length" !in obj || !FitsInt(obj["length"]))
      && ("length" in obj && obj["length"].JInt? && InIntRange(obj["length"].i) ==> d.length == Some(obj["length"].i))
      && ("length" in obj && FitsInt(obj["length"]) ==> d.length == Some(IntValue(obj["length"])))
      && (d.endianness.None? <==> "endianness" !in obj || !obj["endianness"].JString? || obj["endianness"].s !in ext.endiannesses)
      && (d.endianness.Some? ==> obj["endianness"] == JString(d.endianness.value.raw))
      && (d.factor.None? <==> "factor" !in obj || !IsNumber(obj["factor"]))
      && ("factor" in obj && obj["factor"].JInt? ==> d.factor == Some(obj["factor"].i as real))
      && ("factor" in obj && obj["factor"].JNumber? ==> d.factor == Some(obj["factor"].x))
      && (d.unit.None? <==> "unit" !in obj || !obj["unit"].JString?)
      && (d.unit.Some? ==> obj["unit"] == JString(d.unit.value))
      && (d.publishalways.None? <==> "publishalways" !in obj || !obj["publishalways"].JBool?)
      && (d.publishalways.Some? ==> obj["publishalways"] == JBool(d.publishalways.value))
      && (d.nextReadDate.None? <==> "nextReadDate" !in obj || !IsNumber(obj["nextReadDate"]))
      && ("nextReadDate" in obj && obj["nextReadDate"].JInt? ==> d.nextReadDate == Some(Date(obj["nextReadDate"].i as real)))
      && ("nextReadDate" in obj && obj["nextReadDate"].JNumber? ==> d.nextReadDate == Some(Date(obj["nextReadDate"].x)))
  {
    DecodeStopsAtFirstRequiredError(ext, obj);
    DecodeRecordAssembles(ext, obj);
  }

  // ---------------------------------------------------------------------------
  // Round trip through a JSON object

  /** A definition the decoder can produce: numbers that fit `Int`, known external raw values. */
  predicate Decodable(ext: ExternalEnums, d: Definition) {
    && InIntRange(d.address)
    && (d.length.Some? ==> InIntRange(d.length.value))
    && d.modbustype.raw in ext.registerTypes
    && (d.endianness.Some? ==> d.endianness.value.raw in ext.endiannesses)
  }

  /** The JSON object describing `d`: every present field under its coding key, absent ones left out. */
  function ToJson(d: Definition): JsonObject {
    var required := map[
      "address" := JInt(d.address),
      "modbustype" := JString(d.modbustype.raw),
      "modbusaccess" := JString(AccessRaw(d.modbusaccess)),
      "valuetype" := JString(ValueTypeRaw(d.valuetype)),
      "mqtt" := JString(VisibilityRaw(d.mqtt)),
      "interval" := JNumber(d.interval),
      "topic" := JString(d.topic),
      "title" := JString(d.title)];
    var withLength := if d.length.Some? then required["length" := JInt(d.length.value)] else required;
    var withEndianness := if d.endianness.Some? then withLength["endianness" := JString(d.endianness.value.raw)] else withLength;
    var withFactor := if d.factor.Some? then withEndianness["factor" := JNumber(d.factor.value)] else withEndianness;
    var withUnit := if d.unit.Some? then withFactor["unit" := JString(d.unit.value)] else withFactor;
    var withPublish := if d.publishalways.Some? then withUnit["publishalways" := JBool(d.publishalways.value)] else withUnit;
    if d.nextReadDate.Some? then withPublish["nextReadDate" := JNumber(d.nextReadDate.value.sinceReference)] else withPublish
  }

  /** Where `ToJson` puts the required fields that identify the register. */
  lemma ToJsonRegisterEntries(d: Definition)
    ensures var obj := ToJson(d);
      && "address" in obj && obj["address"] == JInt(d.address)
      && "modbustype" in obj && obj["modbustype"] == JString(d.modbustype.raw)
      && "modbusaccess" in obj && obj["modbusaccess"] == JString(AccessRaw(d.modbusaccess))
      && "valuetype" in obj && obj["valuetype"] == JString(ValueTypeRaw(d.valuetype))
  {
  }

  /** Where `ToJson` puts the required fields that concern publishing. */
  lemma ToJsonPublishingEntries(d: Definition)
    ensures var obj := ToJson(d);
      && "mqtt" in obj && obj["mqtt"] == JString(VisibilityRaw(d.mqtt))
      && "interval" in obj && obj["interval"] == JNumber(d.interval)
      && "topic" in obj && obj["topic"] == JString(d.topic)
      && "title" in obj && obj["title"] == JString(d.title)
  {
  }

  /** Where `ToJson` puts the optional fields, and that it leaves out the absent ones. */
  lemma ToJsonOptionalEntries(d: Definition)
    ensures var obj := ToJson(d);
      && ("length" in obj <==> d.length.Some?)
      && (d.length.Some? ==> obj["length"] == JInt(d.length.value))
      && ("endianness" in obj <==> d.endianness.Some?)
      && (d.endianness.Some? ==> obj["endianness"] == JString(d.endianness.value.raw))
      && ("factor" in obj <==> d.factor.Some?)
      && (d.factor.Some? ==> obj["factor"] == JNumber(d.factor.value))
      && ("unit" in obj <==> d.unit.Some?)
      && (d.unit.Some? ==> obj["unit"] == JString(d.unit.value))
      && ("publishalways" in obj <==> d.publishalways.Some?)
      && (d.publishalways.Some? ==> obj["publishalways"] == JBool(d.publishalways.value))
      && ("nextReadDate" in obj <==> d.nextReadDate.Some?)
      && (d.nextReadDate.Some? ==> obj["nextReadDate"] == JNumber(d.nextReadDate.value.sinceReference))
  {
  }

  /** The required fields of `ToJson(d)` decode to those of `d`. */
  lemma ToJsonRequiredDecode(ext: ExternalEnums, d: Definition)
    requires Decodable(ext, d)
    ensures var obj := ToJson(d);
      && DecodeAddress(obj) == Success(d.address)
      && DecodeRegisterType(ext, obj) == Success(d.modbustype)
      && DecodeAccess(obj) == Success(d.modbusaccess)
      && DecodeValueType(obj) == Success(d.valuetype)
      && DecodeVisibility(obj) == Success(d.mqtt)
      && DecodeNumber(obj, "interval") == Success(d.interval)
      && DecodeString(obj, "topic") == Success(d.topic)
      && DecodeString(obj, "title") == Success(d.title)
  {
    ToJsonRegisterEntries(d);
    ToJsonPublishingEntries(d);
  }

  /** The optional fields of `ToJson(d)` decode to those of `d`, absent ones to `None`. */
  lemma ToJsonOptionalDecode(ext: ExternalEnums, d: Definition)
    requires Decodable(ext, d)
    ensures var obj := ToJson(d);
      && DecodeInt(obj, "length").ToOption() == d.length
      && DecodeEndianness(ext, obj).ToOption() == d.endianness
      && DecodeNumber(obj, "factor").ToOption() == d.factor
      && DecodeString(obj, "unit").ToOption() == d.unit
      && DecodeBool(obj, "publishalways").ToOption() == d.publishalways
      && DecodeDate(obj, "nextReadDate").ToOption() == d.nextReadDate
  {
    ToJsonOptionalEntries(d);
  }

  /** Every decodable definition comes back unchanged from its JSON object, field for field. */
  lemma DecodeToJsonRoundTrip(ext: ExternalEnums, d: Definition)
    requires Decodable(ext, d)
    ensures DecodeRecord(ext, ToJson(d)) == Success(d)
  {
    var obj := ToJson(d);
    ToJsonRequiredDecode(ext, d);
    ToJsonOptionalDecode(ext, d);
    assert FirstRequiredError(ext, obj).None?;
    assert Assembled(ext, obj) == d;
    DecodeRecordAssembles(ext, obj);
  }

  // ---------------------------------------------------------------------------
  // hasFactor

  /** A factor counts only when present and neither 0 nor 1. */
  lemma HasFactorExamples(d: Definition)
    ensures d.(factor := None).HasFactor() == false
    ensures d.(factor := Some(0.0)).HasFactor() == false
    ensures d.(factor := Some(1.0)).HasFactor() == false
    ensures d.(factor := Some(0.1)).HasFactor()
    ensures d.(factor := Some(10.0)).HasFactor()
    ensures d.(factor := Some(-1.0)).HasFactor()
  {
  }
}
