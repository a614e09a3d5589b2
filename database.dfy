/** The row shaping around persistence: the rows handed to the `raw_state` and
    `state` inserts, and the `FlightState`s rebuilt from `state` rows. The SQLite
    calls themselves are not modelled: a table is the sequence of its rows. */
module Database {
  import opened Common
  import opened OpenSky

  /** The columns of the `raw_state` table, in order: the API fields without `sensors`. */
  const RawStateColumns: seq<ApiField> := [
    Icao24, Callsign, OriginCountry, TimePosition, LastContact,
    Longitude, Latitude, BaroAltitude, OnGround, Velocity,
    TrueTrack, VerticalRate, GeoAltitude, Squawk, Spi,
    PositionSource
  ]

  /** The columns of the `state` table, in order. */
  const StateColumns: seq<ApiField> := [Icao24, Callsign, OriginCountry, OnGround, Spi, LastContact]

  /** `response_index['sensors']`, the slot that is never stored. */
  const SensorsSlot: nat := StateResponseOrder[Sensors]

  /** The loop body of `insert_raw_states_in_db` on one record: `pop` the
      sensors slot, then `pop` the last element if 17 remain. Elements before
      the sensors slot keep their place, later ones move one to the left, and
      an 18th element is dropped. */
  function ShapeRawRow<T>(record: seq<T>): (row: seq<T>)
    requires |record| > SensorsSlot
    ensures |row| == if |record| == 18 then 16 else |record| - 1
    ensures forall k :: 0 <= k < |row| ==>
              row[k] == if k < SensorsSlot then record[k] else record[k + 1]
  {
    var popped := record[..SensorsSlot] + record[SensorsSlot + 1..];
    if |popped| == 17 then popped[..|popped| - 1] else popped
  }

  /** A shaped row has one value per `raw_state` column exactly when the record
      had 17 elements (the documented fields) or 18 (with an undocumented extra). */
  lemma ShapedRowFitsRawTable<T>(record: seq<T>)
    requires |record| > SensorsSlot
    ensures |ShapeRawRow(record)| == |RawStateColumns| <==> |record| == 17 || |record| == 18
  {
  }

  /** Shaping the API's own field names gives the `raw_state` column names, so
      each value lands in the column named after its field. */
  lemma ShapedNamesAreRawColumns()
    ensures |ApiFieldOrder| > SensorsSlot
    ensures ShapeRawRow(ApiFieldOrder) == RawStateColumns
  {
    assert SensorsSlot == 12;
    assert ApiFieldOrder[..12] + ApiFieldOrder[13..] == RawStateColumns;
  }

  /** The row-shaping part of `insert_raw_states_in_db`: the batch is deep-copied
      and each copied row is shaped in place; the first record too short for
      `pop(12)` raises. The caller's batch is never written (no `modifies`). The
      result is the rows handed to the insert. */
  method InsertRawStatesInDb(rawStates: array<seq<Value>>) returns (r: Result<seq<seq<Value>>>)
    ensures r.Ok? <==> forall i :: 0 <= i < rawStates.Length ==> |rawStates[i]| > SensorsSlot
    ensures r.Ok? ==> (|r.value| == rawStates.Length &&
                       forall i :: 0 <= i < rawStates.Length ==> r.value[i] == ShapeRawRow(rawStates[i]))
    ensures r.Err? ==> r.error == PopOutOfRange(SensorsSlot)
  {
    var rows := new seq<Value>[rawStates.Length](i reads rawStates requires 0 <= i < rawStates.Length => rawStates[i]);
    for i := 0 to rows.Length
      invariant forall j :: 0 <= j < i ==> |rawStates[j]| > SensorsSlot && rows[j] == ShapeRawRow(rawStates[j])
      invariant forall j :: i <= j < rows.Length ==> rows[j] == rawStates[j]
    {
      var row := rows[i];
      if |row| <= SensorsSlot {
        return Err(PopOutOfRange(SensorsSlot));
      }
      row := row[..SensorsSlot] + row[SensorsSlot + 1..];
      if |row| == 17 {
        row := row[..|row| - 1];
      }
      rows[i] := row;
    }
    return Ok(rows[..]);
  }

  /** `map(tuple, parsed_states)` in `insert_parsed_states_in_db`: one row per
      state, in order, each holding the state's fields in the order of the
      `state` table's columns. */
  function InsertParsedStatesInDb(states: seq<FlightState>): (rows: seq<seq<Value>>)
    ensures |rows| == |states|
    ensures forall i :: 0 <= i < |states| ==> |rows[i]| == |StateColumns|
    ensures forall i, k :: 0 <= i < |states| && 0 <= k < |StateColumns| ==>
              rows[i][k] == Field(states[i], StateColumns[k])
  {
    seq(|states|, i requires 0 <= i < |states| => Iter(states[i]))
  }

  /** What SQLite keeps of a bound value: a `bool` is bound as the integer 0 or
      1, anything else as it is. */
  function Stored(v: Value): (r: Value)
    ensures !r.Bool?
    ensures Truthy(r) == Truthy(v)
    ensures !v.Bool? ==> r == v
    ensures v.Bool? ==> r == Int(if v.b then 1 else 0)
  {
    if v.Bool? then Int(if v.b then 1 else 0) else v
  }

  /** A row as the store keeps it: same width, no bools, every value as truthy
      as before and every non-bool unchanged. */
  function StoredRow(row: seq<Value>): (r: seq<Value>)
    ensures |r| == |row|
    ensures forall k :: 0 <= k < |r| ==> !r[k].Bool? && Truthy(r[k]) == Truthy(row[k])
    ensures forall k :: 0 <= k < |r| && !row[k].Bool? ==> r[k] == row[k]
    ensures forall k :: 0 <= k < |r| ==> r[k] == Stored(row[k])
  {
    seq(|row|, k requires 0 <= k < |row| => Stored(row[k]))
  }

  /** The rows as the store keeps them: one stored row per row, in order. */
  function StoredRows(rows: seq<seq<Value>>): (r: seq<seq<Value>>)
    ensures |r| == |rows|
    ensures forall i :: 0 <= i < |r| ==> |r[i]| == |rows[i]|
    ensures forall i, k :: 0 <= i < |r| && 0 <= k < |r[i]| ==> !r[i][k].Bool?
    ensures forall i :: 0 <= i < |r| ==> r[i] == StoredRow(rows[i])
  {
    seq(|rows|, i requires 0 <= i < |rows| => StoredRow(rows[i]))
  }

  /** `bool_indices`: the row positions of `on_ground` and `spi`. */
  const BoolIndices: seq<nat> := [3, 4]

  /** The state `convert_to_bools` returns: the values at the bool indices are
      replaced by their truth values, every other field is unchanged. */
  function WithBools(state: FlightState): (r: FlightState)
    ensures forall k :: 0 <= k < |FlightStateFields| ==>
              Iter(r)[k] == if k in BoolIndices then Bool(Truthy(Iter(state)[k])) else Iter(state)[k]
  {
    state.(onGround := Bool(Truthy(state.onGround)), spi := Bool(Truthy(state.spi)))
  }

  /** `convert_to_bools` in `get_parsed_states_from_db`: copies the state's
      values into a list, coerces the values at the bool indices one by one, and
      rebuilds the state. */
  method ConvertToBools(state: FlightState) returns (r: FlightState)
    ensures r == WithBools(state)
  {
    var values := new Value[6](k requires 0 <= k < 6 => Iter(state)[k]);
    for j := 0 to |BoolIndices|
      invariant forall k :: 0 <= k < 6 ==>
                  values[k] == if k in BoolIndices[..j] then Bool(Truthy(Iter(state)[k])) else Iter(state)[k]
    {
      var i := BoolIndices[j];
      values[i] := Bool(Truthy(values[i]));
    }
    var rebuilt := FromValues(values[..]);
    r := rebuilt.value;
    assert BoolIndices[..|BoolIndices|] == [3, 4];
  }

  /** `[FlightState(*state) for state in states]`: the first row that is not six
      wide raises. */
  function StatesFromRows(rows: seq<seq<Value>>): (r: Result<seq<FlightState>>)
    ensures r.Ok? <==> forall i :: 0 <= i < |rows| ==> |rows[i]| == |FlightStateFields|
    ensures r.Ok? ==> (|r.value| == |rows| &&
                       forall i :: 0 <= i < |rows| ==> FromValues(rows[i]) == Ok(r.value[i]))
    ensures r.Err? ==> (exists i :: 0 <= i < |rows| && FromValues(rows[i]) == Err(r.error) &&
                          forall j :: 0 <= j < i ==> FromValues(rows[j]).Ok?)
  {
    if rows == [] then Ok([])
    else
      match FromValues(rows[0])
      case Err(e) => Err(e)
      case Ok(state) =>
        match StatesFromRows(rows[1..])
        case Err(e) =>
          var i :| (0 <= i < |rows| - 1 && FromValues(rows[1..][i]) == Err(e) &&
                    forall j :: 0 <= j < i ==> FromValues(rows[1..][j]).Ok?);
          assert FromValues(rows[i + 1]) == Err(e);
          assert forall j :: 0 <= j < i + 1 ==> FromValues(rows[j]).Ok? by {
            forall j | 0 <= j < i + 1 ensures FromValues(rows[j]).Ok? {
              if j > 0 { assert rows[j] == rows[1..][j - 1]; }
            }
          }
          Err(e)
        case Ok(states) => Ok([state] + states)
  }

  /** The states `get_parsed_states_from_db` returns for the rows of the `state`
      table: one per row, in order, each holding the row's values with those at
      the bool indices replaced by their truth values. */
  function ReadBack(rows: seq<seq<Value>>): (r: Result<seq<FlightState>>)
    ensures r.Ok? <==> forall i :: 0 <= i < |rows| ==> |rows[i]| == |FlightStateFields|
    ensures r.Ok? ==> (|r.value| == |rows| &&
                       forall i, k :: 0 <= i < |rows| && 0 <= k < |FlightStateFields| ==>
                         Iter(r.value[i])[k] == if k in BoolIndices then Bool(Truthy(rows[i][k])) else rows[i][k])
    ensures r.Err? ==> (exists i :: 0 <= i < |rows| && r.error == WrongArity(|rows[i]|) &&
                          |rows[i]| != |FlightStateFields| &&
                          forall j :: 0 <= j < i ==> |rows[j]| == |FlightStateFields|)
  {
    match StatesFromRows(rows)
    case Err(e) => Err(e)
    case Ok(states) => Ok(seq(|states|, i requires 0 <= i < |states| => WithBools(states[i])))
  }

  /** `get_parsed_states_from_db` after the query: rebuilds every row, then
      converts each state. */
  method GetParsedStatesFromDb(rows: seq<seq<Value>>) returns (r: Result<seq<FlightState>>)
    ensures r == ReadBack(rows)
  {
    var flightStates: seq<FlightState> := [];
    for i := 0 to |rows|
      invariant |flightStates| == i
      invariant forall j :: 0 <= j < i ==> FromValues(rows[j]) == Ok(flightStates[j])
    {
      var built := FromValues(rows[i]);
      if built.Err? {
        return Err(built.error);
      }
      flightStates := flightStates + [built.value];
    }
    var fromRows := StatesFromRows(rows);
    assert fromRows.Ok? && fromRows.value == flightStates;
    var converted: seq<FlightState> := [];
    for i := 0 to |flightStates|
      invariant |converted| == i
      invariant forall j :: 0 <= j < i ==> converted[j] == WithBools(flightStates[j])
    {
      var state := ConvertToBools(flightStates[i]);
      converted := converted + [state];
    }
    assert converted == seq(|flightStates|, i requires 0 <= i < |flightStates| => WithBools(flightStates[i]));
    return Ok(converted);
  }

  /** A state whose fields hold the types the `state` table declares. */
  predicate Persistable(state: FlightState)
  {
    && (state.icao24.Str? || state.icao24.Null?)
    && (state.callsign.Str? || state.callsign.Null?)
    && (state.originCountry.Str? || state.originCountry.Null?)
    && state.onGround.Bool?
    && state.spi.Bool?
    && (state.lastContact.Int? || state.lastContact.Null?)
  }

  /** Writing a state, with its bools stored as 0 or 1, and rebuilding it from
      the stored row gives the same state. */
  lemma RowRoundTrip(state: FlightState)
    requires Persistable(state)
    ensures FromValues(StoredRow(Iter(state))).Ok?
    ensures WithBools(FromValues(StoredRow(Iter(state))).value) == state
  {
    assert StoredRow(Iter(state)) == [state.icao24, state.callsign, state.originCountry,
                                      Int(if state.onGround.b then 1 else 0),
                                      Int(if state.spi.b then 1 else 0),
                                      state.lastContact];
  }

  /** Writing a batch of states and reading the table back gives the batch. */
  lemma StoreRoundTrip(states: seq<FlightState>)
    requires forall s | s in states :: Persistable(s)
    ensures ReadBack(StoredRows(InsertParsedStatesInDb(states))) == Ok(states)
  {
    var rows := StoredRows(InsertParsedStatesInDb(states));
    forall i | 0 <= i < |states|
      ensures rows[i] == StoredRow(Iter(states[i]))
      ensures FromValues(rows[i]).Ok? && WithBools(FromValues(rows[i]).value) == states[i]
    {
      assert states[i] in states;
      RowRoundTrip(states[i]);
    }
    var fromRows := StatesFromRows(rows);
    assert fromRows.Ok?;
    assert ReadBack(rows).value == states;
  }
}
