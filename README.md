# Register definitions of a Modbus-to-MQTT bridge, in Dafny

This project models the register-definition catalog of `modbus2mqtt`
(`Sources/modbus2mqtt/ModbusDefinition.swift`) and proves what it promises.
The catalog describes the Modbus registers the bridge polls and publishes.

- **Enumerations.** `ModbusAccess`, `ModbusValueType` and `MQTTVisibilty` are
  closed enumerations decoded from their raw strings (`ModbusDefinition.dfy`).
- **Record.** `ModbusDefinition` becomes the datatype `Definition`, with its
  fourteen fields in source order.
- **Address normaliser** (`DecodeAddress`). A JSON integer is used as it is.
  Failing that, a string is parsed: base 16 after a `0x` prefix, base 10
  otherwise. Parsing follows Swift's `Int(_:radix:)` (`IntParsing.dfy`): an
  optional sign, at least one digit, letters in either case, and a value that
  fits the 64-bit `Int`. A string that does not parse is a data-corrupted error
  naming `address` and the literal.
- **Record decoder** (`DecodeRecord`). Required fields (`try`) abort the record.
  Optional fields (`try?`) degrade to `None`. The same policy is also written
  as a table (`CodingKeys` with `Policy()`), and a lemma proves that the decoder
  and the table agree.
- **Catalog loader** (`DefinitionCatalog.dfy`). The whole document is decoded
  all-or-nothing, and every `nextReadDate` is reset to `Date.distantPast`.
  `BuildCatalog` keys the records by address. It is a loop that refuses a
  repeated address. The static `modbusDefinitions` becomes the field of a
  `DefinitionStore` object. That field is `None` until the first successful
  load, and a failed load never changes it.
- **`hasFactor`.** This becomes `Definition.HasFactor`, over exact numbers.

The input is JSON that has already been parsed (`Json.dfy`). Each primitive
decode of Foundation's `JSONDecoder` keyed container is modelled with its error
cases: a missing key, `null`, the wrong JSON kind, and a number that does not
fit.

Two behaviours of the code worth knowing:

- **Signed addresses.** `address` accepts any `Int`: `-5`, `"-5"` and `"0x-10"`
  (which is -16) all decode.
- **Duplicate addresses.** `Dictionary(uniqueKeysWithValues:)` traps on a
  repeated address, which ends the process. The model returns
  `DuplicateAddress` instead and leaves the stored catalog as it was.

## Model

| member | source | states |
|---|---|---|
| `IntParsing.ParseInt` | Sources/modbus2mqtt/ModbusDefinition.swift:85 | a parsed value fits the 64-bit `Int` and comes only from a non-empty digit string after an optional sign; it is the digit string's value, negated after `-`; conversely, every such string whose signed value fits `Int` parses to that value |
| `IntParsing.DigitsRoundTrip` | Sources/modbus2mqtt/ModbusDefinition.swift:85 | the digits printed for a natural number are a non-empty string of digits of that radix, and they read back as that number |
| `IntParsing.ParseFormatRoundTrip` | Sources/modbus2mqtt/ModbusDefinition.swift:85 | parsing the printed form of any integer, in any radix, gives that integer when it fits `Int` and nil when it does not |
| `IntParsing.PlusSignAccepted` | Sources/modbus2mqtt/ModbusDefinition.swift:85 | a leading `+` is accepted and changes nothing |
| `IntParsing.DigitsCaseInsensitive` | Sources/modbus2mqtt/ModbusDefinition.swift:85 | letter digits read the same in upper and lower case |
| `IntParsing.LeadingZerosIgnored` | Sources/modbus2mqtt/ModbusDefinition.swift:85 | zeros in front of a digit string keep it a digit string and do not change its value |
| `IntParsing.ZeroPaddedParse` | Sources/modbus2mqtt/ModbusDefinition.swift:85 | a non-negative `Int` printed with any number of leading zeros parses back to itself |
| `IntParsing.ParseRejectsStrayCharacter` | Sources/modbus2mqtt/ModbusDefinition.swift:85 | any character after the sign that is not a digit of the radix makes the parse nil |
| `IntParsing.ParseIntExamples` | Sources/modbus2mqtt/ModbusDefinition.swift:85 | "16"/10 and "10"/16 both give 16, "fF"/16 gives 255, "-10"/16 gives -16; the strings "", "-", "+", "q" (hex) and "1a" (decimal) all give nil |
| `Json.Field` | Sources/modbus2mqtt/ModbusDefinition.swift:82 | a keyed decode sees the stored value only when the key is present and not `null`; otherwise it fails with key-not-found or value-not-found |
| `Json.DecodeInt` | Sources/modbus2mqtt/ModbusDefinition.swift:76 | an `Int` decode succeeds exactly on a number with an integral value that fits in 64 bits, written as `5` or `5.0`, and returns that value |
| `Json.DecodeString` | Sources/modbus2mqtt/ModbusDefinition.swift:82 | a `String` decode succeeds exactly on a JSON string, and returns its text; a missing key fails with key-not-found, `null` with value-not-found, and any other JSON kind with type-mismatch |
| `Json.DecodeBool` | Sources/modbus2mqtt/ModbusDefinition.swift:104 | a `Bool` decode succeeds exactly on `true`/`false`, never on a number; a missing key fails with key-not-found, `null` with value-not-found, and any other JSON kind with type-mismatch |
| `Json.DecodeNumber` | Sources/modbus2mqtt/ModbusDefinition.swift:105 | a `Double`/`Decimal` decode succeeds exactly on a JSON number, and returns its exact value, whether it is written as an integer or not; a missing key fails with key-not-found, `null` with value-not-found, and any other JSON kind with type-mismatch |
| `ModbusDefinition.AccessFromRaw` | Sources/modbus2mqtt/ModbusDefinition.swift:17-22 | `ModbusAccess(rawValue:)` is the exact inverse of the raw values `read`, `readwrite`, `write` |
| `ModbusDefinition.ValueTypeFromRaw` | Sources/modbus2mqtt/ModbusDefinition.swift:24-40 | `ModbusValueType(rawValue:)` is the exact inverse of the twelve raw values |
| `ModbusDefinition.VisibilityFromRaw` | Sources/modbus2mqtt/ModbusDefinition.swift:10-13 | `MQTTVisibilty(rawValue:)` is the exact inverse of `invisible`, `visible`, `retained` |
| `ModbusDefinition.ParseAddressLiteral` | Sources/modbus2mqtt/ModbusDefinition.swift:85 | a literal parses exactly when, after `0x` (base 16) or from the start (base 10), it is an optional sign and one or more digits whose signed value fits `Int`, and then it gives that value; so `0x-10` is -16, while `0X10`, `0x-` and `1a` do not parse |
| `ModbusDefinition.DecodeAddress` | Sources/modbus2mqtt/ModbusDefinition.swift:76-91 | an integral number that fits `Int` (`16` or `16.0`) is used as its value; `null` is value-not-found; any other non-string value (an out-of-range integer, `16.5`, a bool, an array, an object) is a type mismatch; a missing key is key-not-found; a string gives its literal's value or a data-corrupted error naming `address` and the literal; a success is always one of these |
| `ModbusDefinition.DecodeAccess` | Sources/modbus2mqtt/ModbusDefinition.swift:96 | `modbusaccess` decodes exactly when it is a string naming a known access; the result's raw value is that string; any other string fails with data-corrupted naming the key and the string; a missing, `null` or non-string value fails as a string decode does; every failure names `modbusaccess` |
| `ModbusDefinition.DecodeValueType` | Sources/modbus2mqtt/ModbusDefinition.swift:99 | `valuetype` decodes exactly when it is a string naming a known value type; the result's raw value is that string; any other string fails with data-corrupted naming the key and the string; a missing, `null` or non-string value fails as a string decode does; every failure names `valuetype` |
| `ModbusDefinition.DecodeVisibility` | Sources/modbus2mqtt/ModbusDefinition.swift:103 | `mqtt` decodes exactly when it is a string naming a known visibility; the result's raw value is that string; any other string fails with data-corrupted naming the key and the string; a missing, `null` or non-string value fails as a string decode does; every failure names `mqtt` |
| `ModbusDefinition.DecodeRegisterType` | Sources/modbus2mqtt/ModbusDefinition.swift:95 | `modbustype` decodes exactly when it is a string among the register type's raw values, and keeps that string; any other string fails with data-corrupted naming the key and the string; a missing, `null` or non-string value fails as a string decode does; every failure names `modbustype` |
| `ModbusDefinition.DecodeEndianness` | Sources/modbus2mqtt/ModbusDefinition.swift:97 | `endianness` decodes exactly when it is a string among the endianness raw values, and keeps that string; any other string fails with data-corrupted naming the key and the string; a missing, `null` or non-string value fails as a string decode does; every failure names `endianness` |
| `ModbusDefinition.DecodeDate` | Sources/modbus2mqtt/ModbusDefinition.swift:109 | a `Date` decodes exactly from a JSON number, and is that many seconds after the reference date; a missing key fails with key-not-found, `null` with value-not-found, and any other JSON kind with type-mismatch |
| `ModbusDefinition.DecodeRecord` | Sources/modbus2mqtt/ModbusDefinition.swift:72-112 | a decoded record has an in-range address and length and known external raw values; a failure always names one of the eight required keys |
| `ModbusDefinition.DecodeDefinition` | Sources/modbus2mqtt/ModbusDefinition.swift:74 | a keyed container exists only for a JSON object; anything else fails with not-an-object; an object is decoded field by field as the record decoder does |
| `ModbusDefinition.Definition.HasFactor` | Sources/modbus2mqtt/ModbusDefinition.swift:137 | `hasFactor` implies a factor is present; for a present factor it holds exactly when the factor is not idempotent under multiplication (x·x ≠ x, that is, neither 0 nor 1) |
| `DefinitionProperties.HexAddressDecodes` | Sources/modbus2mqtt/ModbusDefinition.swift:85 | `"0x"` followed by the hexadecimal form of any in-range integer decodes to that integer |
| `DefinitionProperties.DecimalAddressDecodes` | Sources/modbus2mqtt/ModbusDefinition.swift:76-85 | the decimal string form of any in-range integer decodes to that integer, which is also what its JSON-integer form decodes to |
| `DefinitionProperties.ZeroPaddedHexAddressDecodes` | Sources/modbus2mqtt/ModbusDefinition.swift:85 | `"0x"`, any number of zeros, then the hexadecimal form of any non-negative `Int` decodes to that number |
| `DefinitionProperties.ZeroPaddedDecimalAddressDecodes` | Sources/modbus2mqtt/ModbusDefinition.swift:85 | any number of zeros, then the decimal form of any non-negative `Int`, decodes to that number |
| `DefinitionProperties.AddressExamplesAccepted` | Sources/modbus2mqtt/ModbusDefinition.swift:76-91 | `"0x10"`, `"16"` and `16` all decode to 16 |
| `DefinitionProperties.AddressExamplesZeroPadded` | Sources/modbus2mqtt/ModbusDefinition.swift:76-91 | `"0x0010"` and `"0016"` both decode to 16 |
| `DefinitionProperties.AddressExamplesRejected` | Sources/modbus2mqtt/ModbusDefinition.swift:82-89 | `"0xq"`, `"0x"`, `"abc"` and `"0X10"` fail with data-corrupted naming the literal; `true` fails with a type mismatch; a missing address is key-not-found |
| `DefinitionProperties.AddressNumberExamples` | Sources/modbus2mqtt/ModbusDefinition.swift:76-82 | 2^64 and `16.5` fail with a type mismatch, `null` with value-not-found, and `16.0` decodes to 16 |
| `DefinitionProperties.UnknownKeysIgnored` | Sources/modbus2mqtt/ModbusDefinition.swift:67-70 | two objects that agree on the fourteen coding keys decode identically, whatever else they hold |
| `DefinitionProperties.RequiredKeysDecide` | Sources/modbus2mqtt/ModbusDefinition.swift:95-107 | whether a record decodes, and its error, depend only on the required keys |
| `DefinitionProperties.OptionalFieldsNeverFail` | Sources/modbus2mqtt/ModbusDefinition.swift:94-109 | setting an optional key to any value, or removing it, never changes whether the record decodes |
| `DefinitionProperties.PolicyWalk` | Sources/modbus2mqtt/ModbusDefinition.swift:93-109 | walking the policy table gives the error of the first required field, in declaration order, whose decode fails |
| `DefinitionProperties.DecodeStopsAtFirstRequiredError` | Sources/modbus2mqtt/ModbusDefinition.swift:82-107 | the decoder succeeds exactly when every required field decodes, and otherwise fails with the first failing field's error |
| `DefinitionProperties.DecodeFollowsPolicy` | Sources/modbus2mqtt/ModbusDefinition.swift:72-112 | the decoder fails exactly when the policy table finds a failing required field, and with that same error; optional rows never contribute one |
| `DefinitionProperties.RequiredFieldsFail` | Sources/modbus2mqtt/ModbusDefinition.swift:95-107 | a missing address is key-not-found; a missing or ill-typed `modbustype`, `modbusaccess`, `valuetype`, `mqtt`, `interval`, `topic` or `title`, or one that is not a known raw value, fails the record |
| `DefinitionProperties.OptionalFieldsDegrade` | Sources/modbus2mqtt/ModbusDefinition.swift:94-109 | in a decoded record, each optional field is `None` exactly when its key is missing, ill-typed or (for `length` and `endianness`) out of range, and otherwise holds the JSON value: the integer, the raw string, the exact number, the text, the flag, or the `Date` of that many seconds |
| `DefinitionProperties.DecodeToJsonRoundTrip` | Sources/modbus2mqtt/ModbusDefinition.swift:72-112 | every definition the decoder can produce comes back field for field from its JSON object |
| `DefinitionProperties.HasFactorExamples` | Sources/modbus2mqtt/ModbusDefinition.swift:137 | `hasFactor` is false for nil, 0 and 1, and true for 0.1, 10 and -1 |
| `DefinitionCatalog.DecodeDefinitions` | Sources/modbus2mqtt/ModbusDefinition.swift:122 | the record array decodes exactly when every element does, keeping order and length; otherwise it fails with the index and error of the first failing element |
| `DefinitionCatalog.DecodeDocument` | Sources/modbus2mqtt/ModbusDefinition.swift:122 | a document that is not an array fails; an array is decoded element by element |
| `DefinitionCatalog.DocumentDecodesRecords` | Sources/modbus2mqtt/ModbusDefinition.swift:72-129 | a document array loads exactly when every element is an object whose record decodes, and then yields those records in order; otherwise the error is that of the first element that is not an object or whose record fails |
| `DefinitionCatalog.IncompleteRecordFailsDocument` | Sources/modbus2mqtt/ModbusDefinition.swift:76-108 | one element that is not an object, or that lacks `address`, `topic` or `title`, makes the whole document fail to load |
| `DefinitionCatalog.ResetSchedules` | Sources/modbus2mqtt/ModbusDefinition.swift:123 | the same number of records, each with `nextReadDate == distantPast` and otherwise unchanged |
| `DefinitionCatalog.BuildCatalog` | Sources/modbus2mqtt/ModbusDefinition.swift:125 | succeeds exactly when all addresses are distinct, and then returns a map with one key per record, each key its record's address; otherwise it reports an address that two records share |
| `DefinitionCatalog.CatalogIsUnique` | Sources/modbus2mqtt/ModbusDefinition.swift:125 | the records determine the catalog: two maps that both catalog them are equal |
| `DefinitionCatalog.CatalogEntriesAreResetRecords` | Sources/modbus2mqtt/ModbusDefinition.swift:123-125 | every catalog entry sits under its own address, has its schedule reset, and is otherwise a decoded record; the keys are exactly the decoded addresses |
| `DefinitionCatalog.ResetKeepsAddresses` | Sources/modbus2mqtt/ModbusDefinition.swift:123-125 | resetting the schedule keeps the set of addresses and their distinctness |
| `DefinitionCatalog.DefinitionStore.constructor` | Sources/modbus2mqtt/ModbusDefinition.swift:131 | the store starts unset (`nil`) |
| `DefinitionCatalog.DefinitionStore.Read` | Sources/modbus2mqtt/ModbusDefinition.swift:119-131 | a load succeeds exactly when the document decodes and its addresses are distinct. A decode failure is returned unchanged. A document with a repeated address fails with `DuplicateAddress`, naming an address two records share. On success, the returned map has one entry per record, catalogs the reset records, and becomes the stored catalog. On failure the store keeps its previous value |

## Left out

- Reading the file (`Data(contentsOf:)`) and tokenising JSON text are not modelled. The model starts from parsed JSON values, so an unreadable source and malformed JSON text are outside it. A JSON object is a map, so duplicate keys in one object are also not represented.
- `JLog.debug` logging is left out. It has no effect on the result.
- The synthesized `Encodable` conformance is not modelled. `DefinitionProperties.ToJson` is a reference encoding used only to state the round trip. It uses the same coding keys and leaves absent fields out.
- `ModbusRegisterType` and `ModbusDeviceEndianness` come from the Modbus library, which is not part of this model. Each value keeps the raw string it was decoded from. The accepted raw values are a parameter (`ExternalEnums`). This assumes those enumerations decode from strings, as the source's own ones do.
- `interval` (`Double`) and `factor` (`Decimal`) are exact `real`s, so binary floating-point rounding is not modelled. A JSON number that is not an integer is kept exactly.
- `Date` is its number of seconds since the reference date. Only `distantPast` (-63114076800) is a distinguished value.
- Strings are sequences of characters. Swift's `hasPrefix` and `dropFirst(2)` work on grapheme clusters, and combining characters are not modelled.
- `Sendable` and `@preconcurrency` are not modelled. No synchronisation of the shared catalog is modelled either; the store is a plain object with one field.
- `Dictionary(uniqueKeysWithValues:)` traps on a repeated key and ends the process. `BuildCatalog` returns an error instead. In both cases the stored catalog is not replaced.
- `DefinitionCatalog.DefinitionStore.Read` does not state which address is reported when more than one is repeated, only that two records share it. The source reports nothing, because it traps.
