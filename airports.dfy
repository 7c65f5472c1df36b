/**
 * The airport coordinate table of src/airports.ts: `loadAirportLocations` folds
 * the CSV records of airports.dat into a map from the code in field 4 to the
 * (latitude, longitude) found in fields 6 and 7, skipping records whose code is
 * the two characters `\N`; a later record with the same code overwrites an
 * earlier one. `getDistanceBetweenAirports` loads that table once into the
 * module-level `AIRPORT_LOCATIONS`, looks both codes up, asserts both are
 * present, and hands the two locations to haversine.
 *
 * A record is the list of its fields as csv-parse delivers them: strings. A field
 * the record does not have reads as `undefined`, written `None` here, so keys
 * and coordinates are `Option<string>`: JavaScript would store such a record
 * under the key `undefined`, and so does the model.
 */
module Airports {
  import opened Wrappers

  /** One CSV record of airports.dat. */
  type Record = seq<string>

  /** What `record[i]` reads: the field, or `undefined` past the end of the record. */
  function Field(record: Record, i: nat): (v: Option<string>)
    ensures v.Some? <==> i < |record|
    ensures v.Some? ==> v.value == record[i]
  {
    if i < |record| then Some(record[i]) else None
  }

  /** The code airports.dat uses for an airport that has none. */
  const NoCode: string := "\\N"

  /** A table entry: the latitude and longitude fields, as read. */
  datatype Location = Location(latitude: Option<string>, longitude: Option<string>)

  /** `AIRPORT_LOCATIONS`' type: code to location. */
  type AirportTable = map<Option<string>, Location>

  /** The code a record is stored under (field 4). */
  function Code(record: Record): (c: Option<string>)
    ensures c.Some? <==> |record| > 4
    ensures c.Some? ==> c.value == record[4]
  {
    Field(record, 4)
  }

  /** The location a record is stored with (fields 6 and 7). */
  function LocationOf(record: Record): (loc: Location)
    ensures loc.latitude.Some? <==> |record| > 6
    ensures loc.longitude.Some? <==> |record| > 7
    ensures loc.latitude.Some? ==> loc.latitude.value == record[6]
    ensures loc.longitude.Some? ==> loc.longitude.value == record[7]
  {
    Location(Field(record, 6), Field(record, 7))
  }

  /** The map once the loop has consumed `records`. */
  function BuildTable(records: seq<Record>): AirportTable
  {
    if records == [] then map[]
    else
      var table := BuildTable(records[..|records| - 1]);
      var record := records[|records| - 1];
      if Code(record) == Some(NoCode) then table else table[Code(record) := LocationOf(record)]
  }

  /** `loadAirportLocations`, over the records the CSV stream yields. */
  method LoadAirportLocations(records: seq<Record>) returns (airports: AirportTable)
    ensures airports == BuildTable(records)
    ensures Some(NoCode) !in airports
  {
    airports := map[];
    for i := 0 to |records|
      invariant airports == BuildTable(records[..i])
    {
      assert records[..i + 1][..i] == records[..i];
      var record := records[i];
      var code := Field(record, 4);
      if code == Some(NoCode) {
        continue;
      }
      var latitude := Field(record, 6);
      var longitude := Field(record, 7);
      airports := airports[code := Location(latitude, longitude)];
    }
    assert records[..|records|] == records;
    NoCodeNeverKey(records);
  }

  /** A record whose code is `\N` never becomes a key. */
  lemma {:induction false} NoCodeNeverKey(records: seq<Record>)
    ensures Some(NoCode) !in BuildTable(records)
  {
    if records != [] {
      NoCodeNeverKey(records[..|records| - 1]);
    }
  }

  /** The keys are exactly the codes, other than `\N`, of the records. */
  lemma {:induction false} TableKeys(records: seq<Record>)
    ensures BuildTable(records).Keys ==
      set i | 0 <= i < |records| && Code(records[i]) != Some(NoCode) :: Code(records[i])
  {
    if records != [] {
      var init := records[..|records| - 1];
      TableKeys(init);
      assert forall i :: 0 <= i < |init| ==> init[i] == records[i];
    }
  }

  /**
   * The last record with a given code wins: the code maps to that record's
   * fields 6 and 7, whatever earlier records with the same code said.
   */
  lemma {:induction false} LastRecordWins(records: seq<Record>, i: nat)
    requires i < |records| && Code(records[i]) != Some(NoCode)
    requires forall j :: i < j < |records| ==> Code(records[j]) != Code(records[i])
    ensures Code(records[i]) in BuildTable(records)
    ensures BuildTable(records)[Code(records[i])] == LocationOf(records[i])
  {
    if i < |records| - 1 {
      var init := records[..|records| - 1];
      assert init[i] == records[i];
      LastRecordWins(init, i);
    }
  }

  /** One more record overwrites its own code's entry (unless its code is `\N`) and leaves every other key alone. */
  lemma AddRecord(records: seq<Record>, record: Record)
    ensures Code(record) != Some(NoCode) ==>
      Code(record) in BuildTable(records + [record]) && BuildTable(records + [record])[Code(record)] == LocationOf(record)
    ensures forall k :: k != Code(record) || k == Some(NoCode) ==>
      (k in BuildTable(records + [record]) <==> k in BuildTable(records))
      && (k in BuildTable(records) ==> BuildTable(records + [record])[k] == BuildTable(records)[k])
  {
    assert (records + [record])[..|records|] == records;
  }

  /** Why `getDistanceBetweenAirports`' assertions can fail: the first or the second code was not found. */
  datatype AssertionError = StartUndefined | EndUndefined

  /**
   * The lookup part of `getDistanceBetweenAirports`: it succeeds exactly when both
   * codes are keys, and then gives haversine of their two locations.
   */
  function Distance(table: AirportTable, code1: string, code2: string, haversine: (Location, Location) -> real): (r: Result<real, AssertionError>)
    ensures r.Success? <==> Some(code1) in table && Some(code2) in table
    ensures r.Success? ==> r.value == haversine(table[Some(code1)], table[Some(code2)])
    ensures r == Failure(StartUndefined) <==> Some(code1) !in table
  {
    var start := if Some(code1) in table then Some(table[Some(code1)]) else None;
    var end := if Some(code2) in table then Some(table[Some(code2)]) else None;
    if start.None? then Failure(StartUndefined)
    else if end.None? then Failure(EndUndefined)
    else Success(haversine(start.value, end.value))
  }

  /**
   * The module-level cache `AIRPORT_LOCATIONS`. `records` stands for the contents
   * of airports.dat; `loads` counts the calls of `loadAirportLocations`.
   */
  class AirportLocations {
    const records: seq<Record>
    var locations: Option<AirportTable>
    ghost var loads: nat

    /** The table is loaded at most once, and when present it is the fold of the records. */
    ghost predicate Valid()
      reads this
    {
      && loads <= 1
      && (locations.Some? <==> loads == 1)
      && (locations.Some? ==> locations.value == BuildTable(records))
    }

    /** The state at module load: nothing cached yet. */
    constructor (records: seq<Record>)
      ensures Valid()
      ensures this.records == records && locations == None && loads == 0
    {
      this.records := records;
      locations := None;
      loads := 0;
    }

    /** `AIRPORT_LOCATIONS ??= await loadAirportLocations()`: loads on the first call only. */
    method Ensure() returns (table: AirportTable)
      requires Valid()
      modifies this
      ensures Valid()
      ensures locations == Some(table) && table == BuildTable(records)
      ensures loads == 1
      ensures old(locations).Some? ==> locations == old(locations) && loads == old(loads)
    {
      if locations.None? {
        var loaded := LoadAirportLocations(records);
        locations := Some(loaded);
        loads := loads + 1;
      }
      table := locations.value;
    }

    /** `getDistanceBetweenAirports(code1, code2)` of src/airports.ts. */
    method GetDistanceBetweenAirports(code1: string, code2: string, haversine: (Location, Location) -> real)
      returns (r: Result<real, AssertionError>)
      requires Valid()
      modifies this
      ensures Valid()
      ensures locations == Some(BuildTable(records)) && loads == 1
      ensures old(locations).Some? ==> loads == old(loads)
      ensures r == Distance(BuildTable(records), code1, code2, haversine)
    {
      var table := Ensure();
      r := Distance(table, code1, code2, haversine);
    }
  }
}
