/**
 * `ModbusDefinition.read(from:)` and the static `modbusDefinitions`: decode a
 * whole document all-or-nothing, reset every `nextReadDate` to the distant
 * past, key the records by address with no duplicate allowed, and only then
 * replace the stored catalog.
 */
module DefinitionCatalog {
  import opened Wrappers
  import opened Json
  import opened ModbusDefinition
  import opened DefinitionProperties

  /** Why a load fails. */
  datatype LoadError =
    | NotAnArray
    | RecordError(index: nat, error: DecodeError)
    | DuplicateAddress(address: int)

  // ---------------------------------------------------------------------------
  // Decoding the document

  /**
   * Decoding `[ModbusDefinition]`: every element decodes, or the load fails with
   * the error of the first element that does not.
   */
  function DecodeDefinitions(ext: ExternalEnums, items: seq<JsonValue>): (r: Result<seq<Definition>, LoadError>)
    ensures r.Success? <==> forall i | 0 <= i < |items| :: DecodeDefinition(ext, items[i]).Success?
    ensures r.Success? ==> |r.value| == |items|
    ensures r.Success? ==> forall i | 0 <= i < |items| :: DecodeDefinition(ext, items[i]) == Success(r.value[i])
    ensures r.Failure? ==> r.error.RecordError? && r.error.index < |items|
    ensures r.Failure? ==> DecodeDefinition(ext, items[r.error.index]) == Failure(r.error.error)
    ensures r.Failure? ==> forall j | 0 <= j < r.error.index :: DecodeDefinition(ext, items[j]).Success?
  {
    if items == [] then Success([])
    else
      match DecodeDefinition(ext, items[0])
      case Failure(e) => Failure(RecordError(0, e))
      case Success(d) =>
        match DecodeDefinitions(ext, items[1..])
        case Failure(e) => Failure(RecordError(e.index + 1, e.error))
        case Success(ds) => Success([d] + ds)
  }

  /** The top level of the document must be an array of records. */
  function DecodeDocument(ext: ExternalEnums, doc: JsonValue): (r: Result<seq<Definition>, LoadError>)
    ensures !doc.JArray? ==> r == Failure(NotAnArray)
    ensures doc.JArray? ==> r == DecodeDefinitions(ext, doc.items)
  {
    if doc.JArray? then DecodeDefinitions(ext, doc.items) else Failure(NotAnArray)
  }

  /**
   * A document decodes exactly when every element is an object whose record
   * decodes, and then it yields those records in order; otherwise the error
   * is that of the first element that is not an object or whose record fails.
   */
  lemma DocumentDecodesRecords(ext: ExternalEnums, items: seq<JsonValue>)
    ensures DecodeDocument(ext, JArray(items)).Success? <==>
      forall i | 0 <= i < |items| :: items[i].JObject? && DecodeRecord(ext, items[i].fields).Success?
    ensures DecodeDocument(ext, JArray(items)).Success? ==>
      forall i | 0 <= i < |items| :: DecodeRecord(ext, items[i].fields) == Success(DecodeDocument(ext, JArray(items)).value[i])
    ensures DecodeDocument(ext, JArray(items)).Failure? ==>
      var e := DecodeDocument(ext, JArray(items)).error;
      && e.RecordError? && e.index < |items|
      && (if items[e.index].JObject? then DecodeRecord(ext, items[e.index].fields) == Failure(e.error)
          else e.error == NotAnObject)
  {
    var r := DecodeDocument(ext, JArray(items));
    if r.Success? {
      forall i | 0 <= i < |items|
        ensures items[i].JObject? && DecodeRecord(ext, items[i].fields) == Success(r.value[i])
      {
        assert DecodeDefinition(ext, items[i]) == Success(r.value[i]);
      }
    } else {
      assert DecodeDefinition(ext, items[r.error.index]) == Failure(r.error.error);
    }
  }

  /** One element that lacks a required field, or is not an object, fails the whole document. */
  lemma IncompleteRecordFailsDocument(ext: ExternalEnums, items: seq<JsonValue>, k: nat)
    requires k < |items|
    requires !items[k].JObject? || "address" !in items[k].fields || "topic" !in items[k].fields || "title" !in items[k].fields
    ensures DecodeDocument(ext, JArray(items)).Failure?
  {
    if items[k].JObject? {
      RequiredFieldsFail(ext, items[k].fields);
    }
    DocumentDecodesRecords(ext, items);
  }

  // ---------------------------------------------------------------------------
  // Resetting the schedule

  /** `a` and `b` agree on everything but the scheduling cursor. */
  predicate SameConfiguration(a: Definition, b: Definition) {
    a.(nextReadDate := None) == b.(nextReadDate := None)
  }

  /** Every record with its `nextReadDate` set to the distant past. */
  function ResetSchedules(defs: seq<Definition>): (r: seq<Definition>)
    ensures |r| == |defs|
    ensures forall i | 0 <= i < |defs| :: r[i].nextReadDate == Some(DistantPast) && SameConfiguration(r[i], defs[i])
  {
    seq(|defs|, i requires 0 <= i < |defs| => defs[i].(nextReadDate := Some(DistantPast)))
  }

  // ---------------------------------------------------------------------------
  // Keying by address

  /** No two records share an address. */
  predicate DistinctAddresses(defs: seq<Definition>) {
    forall i, j | 0 <= i < j < |defs| :: defs[i].address != defs[j].address
  }

  function Addresses(defs: seq<Definition>): set<int> {
    set i | 0 <= i < |defs| :: defs[i].address
  }

  /** `m` holds exactly the records of `defs`, each under its own address. */
  predicate IsCatalogOf(m: map<int, Definition>, defs: seq<Definition>) {
    && m.Keys == Addresses(defs)
    && forall i | 0 <= i < |defs| :: m[defs[i].address] == defs[i]
  }

  /**
   * `Dictionary(uniqueKeysWithValues:)` over `(address, record)` pairs. Swift
   * traps on a repeated key; here that is a `DuplicateAddress` failure.
   */
  method BuildCatalog(defs: seq<Definition>) returns (r: Result<map<int, Definition>, LoadError>)
    ensures r.Success? <==> DistinctAddresses(defs)
    ensures r.Success? ==> IsCatalogOf(r.value, defs) && |r.value| == |defs|
    ensures r.Failure? ==> r.error.DuplicateAddress?
    ensures r.Failure? ==> exists i, j | 0 <= i < j < |defs| :: defs[i].address == defs[j].address == r.error.address
  {
    var m: map<int, Definition> := map[];
    var i := 0;
    while i < |defs|
      invariant 0 <= i <= |defs|
      invariant DistinctAddresses(defs[..i])
      invariant IsCatalogOf(m, defs[..i])
      invariant |m| == i
    {
      var a := defs[i].address;
      if a in m {
        var k :| 0 <= k < i && defs[..i][k].address == a;
        assert defs[k].address == defs[i].address;
        return Failure(DuplicateAddress(a));
      }
      m := m[a := defs[i]];
      assert defs[..i + 1] == defs[..i] + [defs[i]];
      i := i + 1;
    }
    assert defs[..i] == defs;
    return Success(m);
  }

  // ---------------------------------------------------------------------------
  // Properties of the catalog

  /** A catalog of `defs` is unique: the records determine the map. */
  lemma CatalogIsUnique(m: map<int, Definition>, other: map<int, Definition>, defs: seq<Definition>)
    requires IsCatalogOf(m, defs) && IsCatalogOf(other, defs)
    ensures m == other
  {
    forall a | a in m ensures a in other && m[a] == other[a] {
      var i :| 0 <= i < |defs| && defs[i].address == a;
    }
  }

  /**
   * Every entry of a catalog built from reset records is one of the decoded
   * records, under its own address, with only the schedule reset.
   */
  lemma CatalogEntriesAreResetRecords(m: map<int, Definition>, decoded: seq<Definition>)
    requires IsCatalogOf(m, ResetSchedules(decoded))
    ensures forall a | a in m :: m[a].address == a && m[a].nextReadDate == Some(DistantPast)
    ensures forall a | a in m :: exists i | 0 <= i < |decoded| :: decoded[i].address == a && SameConfiguration(m[a], decoded[i])
    ensures m.Keys == Addresses(decoded)
  {
    var reset := ResetSchedules(decoded);
    forall a | a in m
      ensures m[a].address == a && m[a].nextReadDate == Some(DistantPast)
      ensures exists i | 0 <= i < |decoded| :: decoded[i].address == a && SameConfiguration(m[a], decoded[i])
    {
      var i :| 0 <= i < |reset| && reset[i].address == a;
      assert SameConfiguration(reset[i], decoded[i]);
    }
    forall a | a in Addresses(decoded) ensures a in m {
      var i :| 0 <= i < |decoded| && decoded[i].address == a;
      assert reset[i].address == a;
    }
  }

  /** Resetting the schedule keeps every address, so it keeps duplicates and distinctness. */
  lemma ResetKeepsAddresses(defs: seq<Definition>)
    ensures Addresses(ResetSchedules(defs)) == Addresses(defs)
    ensures DistinctAddresses(ResetSchedules(defs)) <==> DistinctAddresses(defs)
  {
    var reset := ResetSchedules(defs);
    assert forall i | 0 <= i < |defs| :: reset[i].address == defs[i].address;
  }

  // ---------------------------------------------------------------------------
  // The catalog store

  /**
   * The process-wide catalog (`static var modbusDefinitions`): `None` until the
   * first successful load, then the latest successfully loaded catalog.
   */
  class DefinitionStore {
    var definitions: Option<map<int, Definition>>

    constructor ()
      ensures definitions == None
    {
      definitions := None;
    }

    /**
     * `read(from:)` on an already-parsed document. On success the new catalog
     * replaces the stored one and is returned; on any failure the store keeps
     * its previous value.
     */
    method Read(ext: ExternalEnums, doc: JsonValue) returns (r: Result<map<int, Definition>, LoadError>)
      modifies this
      ensures r.Success? <==> DecodeDocument(ext, doc).Success? && DistinctAddresses(DecodeDocument(ext, doc).value)
      ensures DecodeDocument(ext, doc).Failure? ==> r == Failure(DecodeDocument(ext, doc).error)
      ensures DecodeDocument(ext, doc).Success? && !DistinctAddresses(DecodeDocument(ext, doc).value) ==>
        && r.Failure? && r.error.DuplicateAddress?
        && exists i, j | 0 <= i < j < |DecodeDocument(ext, doc).value| ::
             DecodeDocument(ext, doc).value[i].address == DecodeDocument(ext, doc).value[j].address == r.error.address
      ensures r.Success? ==> IsCatalogOf(r.value, ResetSchedules(DecodeDocument(ext, doc).value))
      ensures r.Success? ==> |r.value| == |DecodeDocument(ext, doc).value|
      ensures r.Success? ==> definitions == Some(r.value)
      ensures r.Failure? ==> definitions == old(definitions)
    {
      var decoded :- DecodeDocument(ext, doc);
      var reset := ResetSchedules(decoded);
      ResetKeepsAddresses(decoded);
      r := BuildCatalog(reset);
      if r.Success? {
        definitions := Some(r.value);
      } else {
        var i, j :| 0 <= i < j < |reset| && reset[i].address == reset[j].address == r.error.address;
        assert SameConfiguration(reset[i], decoded[i]) && SameConfiguration(reset[j], decoded[j]);
        assert decoded[i].address == decoded[j].address == r.error.address;
      }
    }
  }
}
