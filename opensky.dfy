/** The state-vector parser: the name-to-index table of the OpenSky REST API,
    the `FlightState` record, and the conversions between the two. */
module OpenSky {
  import opened Common

  /** The field order of a state vector returned by `/states/all`. */
  const ApiFieldOrder: seq<ApiField> := [
    Icao24, Callsign, OriginCountry, TimePosition, LastContact,
    Longitude, Latitude, BaroAltitude, OnGround, Velocity,
    TrueTrack, VerticalRate, Sensors, GeoAltitude, Squawk,
    Spi, PositionSource
  ]

  /** STATE_RESPONSE_ORDER: the explicit name-to-position table the parser uses. */
  const StateResponseOrder: map<ApiField, nat> := map[
    Icao24 := 0,
    Callsign := 1,
    OriginCountry := 2,
    TimePosition := 3,
    LastContact := 4,
    Longitude := 5,
    Latitude := 6,
    BaroAltitude := 7,
    OnGround := 8,
    Velocity := 9,
    TrueTrack := 10,
    VerticalRate := 11,
    Sensors := 12,
    GeoAltitude := 13,
    Squawk := 14,
    Spi := 15,
    PositionSource := 16
  ]

  /** Each name's slot holds that name in the API order. */
  lemma FieldSlot(f: ApiField)
    ensures f in StateResponseOrder && StateResponseOrder[f] < |ApiFieldOrder|
    ensures ApiFieldOrder[StateResponseOrder[f]] == f
  {
    match f
    case Icao24 =>
    case Callsign =>
    case OriginCountry =>
    case TimePosition =>
    case LastContact =>
    case Longitude =>
    case Latitude =>
    case BaroAltitude =>
    case OnGround =>
    case Velocity =>
    case TrueTrack =>
    case VerticalRate =>
    case Sensors =>
    case GeoAltitude =>
    case Squawk =>
    case Spi =>
    case PositionSource =>
  }

  /** The table puts each of the 17 API fields at its own place in the API order. */
  lemma ResponseOrderFollowsApiOrder()
    ensures |ApiFieldOrder| == 17
    ensures forall k :: 0 <= k < |ApiFieldOrder| ==> StateResponseOrder[ApiFieldOrder[k]] == k
  {
  }

  /** The table names every field and maps the names one-to-one onto positions
      below 17. */
  lemma ResponseOrderIsInjective()
    ensures forall f: ApiField :: f in StateResponseOrder && StateResponseOrder[f] < 17
    ensures forall a, b :: a != b ==> StateResponseOrder[a] != StateResponseOrder[b]
  {
    forall f: ApiField ensures f in StateResponseOrder && StateResponseOrder[f] < 17 {
      FieldSlot(f);
    }
    forall a, b | a != b ensures StateResponseOrder[a] != StateResponseOrder[b] {
      FieldSlot(a);
      FieldSlot(b);
    }
  }

  /** The normalised record. Python's dataclass does not check field types, so
      every field holds whatever the record carried in that slot. */
  datatype FlightState = FlightState(
    icao24: Value,
    callsign: Value,
    originCountry: Value,
    onGround: Value,
    spi: Value,
    lastContact: Value)

  /** The dataclass fields of `FlightState`, in declaration order. */
  const FlightStateFields: seq<ApiField> :=
    [Icao24, Callsign, OriginCountry, OnGround, Spi, LastContact]

  /** `getattr(state, name)` */
  function Field(state: FlightState, name: ApiField): Value
    requires name in FlightStateFields
  {
    match name
    case Icao24 => state.icao24
    case Callsign => state.callsign
    case OriginCountry => state.originCountry
    case OnGround => state.onGround
    case Spi => state.spi
    case LastContact => state.lastContact
  }

  /** `FlightState(*values)`: positional construction, which raises on a wrong
      number of arguments. */
  function FromValues(values: seq<Value>): (r: Result<FlightState>)
    ensures r.Ok? <==> |values| == |FlightStateFields|
    ensures r.Ok? ==> (forall k :: 0 <= k < |FlightStateFields| ==>
                         Field(r.value, FlightStateFields[k]) == values[k])
    ensures r.Err? ==> r.error == WrongArity(|values|)
  {
    if |values| == 6 then
      Ok(FlightState(values[0], values[1], values[2], values[3], values[4], values[5]))
    else
      Err(WrongArity(|values|))
  }

  /** `FlightState.__iter__`: the field values, one per dataclass field. */
  function Iter(state: FlightState): (r: seq<Value>)
    ensures r == [state.icao24, state.callsign, state.originCountry,
                  state.onGround, state.spi, state.lastContact]
  {
    seq(|FlightStateFields|, k requires 0 <= k < |FlightStateFields| => Field(state, FlightStateFields[k]))
  }

  /** `getattr` on a parsed state returns the record's value at the slot the
      table gives that name. */
  lemma FieldOfParsedState(record: seq<Value>, name: ApiField)
    requires |record| >= 16 && name in FlightStateFields
    ensures FromStateList(record).Ok?
    ensures Field(FromStateList(record).value, name) == record[StateResponseOrder[name]]
  {
    FlightStateSlots();
  }

  /** Rebuilding a state from its own iteration gives it back. */
  lemma IterRoundTrip(state: FlightState)
    ensures FromValues(Iter(state)) == Ok(state)
  {
  }

  /** `state[STATE_RESPONSE_ORDER[name]]` */
  function Lookup(record: seq<Value>, name: ApiField): (r: Result<Value>)
    requires name in StateResponseOrder
    ensures r.Ok? <==> StateResponseOrder[name] < |record|
    ensures r.Ok? ==> r.value == record[StateResponseOrder[name]]
    ensures r.Err? ==> r.error == MissingField(name)
  {
    var i := StateResponseOrder[name];
    if i < |record| then Ok(record[i]) else Err(MissingField(name))
  }

  /** The lookups of the dict comprehension in `from_state_list`, evaluated in
      field order; the first one that raises ends the comprehension. */
  function LookupAll(record: seq<Value>, names: seq<ApiField>): (r: Result<seq<Value>>)
    requires forall n | n in names :: n in StateResponseOrder
    ensures r.Ok? <==> forall k :: 0 <= k < |names| ==> StateResponseOrder[names[k]] < |record|
    ensures r.Ok? ==> (|r.value| == |names| &&
                       forall k :: 0 <= k < |names| ==> r.value[k] == record[StateResponseOrder[names[k]]])
    ensures r.Err? ==> (exists k :: 0 <= k < |names| && r.error == MissingField(names[k]) &&
                          StateResponseOrder[names[k]] >= |record| &&
                          forall j :: 0 <= j < k ==> StateResponseOrder[names[j]] < |record|)
    decreases |names|
  {
    if names == [] then Ok([])
    else
      match Lookup(record, names[0])
      case Err(e) => Err(e)
      case Ok(v) =>
        match LookupAll(record, names[1..])
        case Err(e) =>
          FirstMissingShifts(record, names, e);
          Err(e)
        case Ok(vs) => Ok([v] + vs)
  }

  /** `FlightState.from_state_list`: each field is taken from its named slot, with
      no validation, so any value (a null callsign, say) passes through. The
      `spi` slot is 15, so a record of 15 or fewer elements raises, and the error
      names the first field, in declaration order, whose slot is missing. */
  function FromStateList(record: seq<Value>): (r: Result<FlightState>)
    ensures r.Ok? <==> |record| >= 16
    ensures r.Ok? ==> r.value == FlightState(record[0], record[1], record[2], record[8], record[15], record[4])
    ensures r.Err? ==> r.error == MissingField(
              if |record| == 0 then Icao24
              else if |record| == 1 then Callsign
              else if |record| == 2 then OriginCountry
              else if |record| <= 8 then OnGround
              else Spi)
  {
    FlightStateSlots();
    // `[f.name for f in fields(FlightState)]`
    var fields := seq(|FlightStateFields|, k requires 0 <= k < |FlightStateFields| => FlightStateFields[k]);
    assert fields == FlightStateFields;
    match LookupAll(record, fields)
    case Err(e) =>
      FirstMissingFlightStateField(record, e);
      Err(e)
    case Ok(values) => FromValues(values)
  }

  /** The field named by a failed lookup of the tail of `names` is also the
      first missing one of `names`, when the head's slot is present. */
  lemma FirstMissingShifts(record: seq<Value>, names: seq<ApiField>, e: Error)
    requires forall n | n in names :: n in StateResponseOrder
    requires names != [] && StateResponseOrder[names[0]] < |record|
    requires exists k :: 0 <= k < |names| - 1 && e == MissingField(names[1..][k]) &&
                         StateResponseOrder[names[1..][k]] >= |record| &&
                         forall j :: 0 <= j < k ==> StateResponseOrder[names[1..][j]] < |record|
    ensures exists k :: 0 <= k < |names| && e == MissingField(names[k]) &&
                        StateResponseOrder[names[k]] >= |record| &&
                        forall j :: 0 <= j < k ==> StateResponseOrder[names[j]] < |record|
  {
    var k :| (0 <= k < |names| - 1 && e == MissingField(names[1..][k]) &&
              StateResponseOrder[names[1..][k]] >= |record| &&
              forall j :: 0 <= j < k ==> StateResponseOrder[names[1..][j]] < |record|);
    forall j | 0 <= j < k + 1 ensures StateResponseOrder[names[j]] < |record| {
      if j > 0 { assert names[j] == names[1..][j - 1]; }
    }
    assert names[k + 1] == names[1..][k];
  }

  /** The first missing `FlightState` field of a short record, by its length. */
  lemma FirstMissingFlightStateField(record: seq<Value>, e: Error)
    requires exists k :: 0 <= k < |FlightStateFields| && e == MissingField(FlightStateFields[k]) &&
                         StateResponseOrder[FlightStateFields[k]] >= |record| &&
                         forall j :: 0 <= j < k ==> StateResponseOrder[FlightStateFields[j]] < |record|
    ensures |record| < 16
    ensures e == MissingField(
              if |record| == 0 then Icao24
              else if |record| == 1 then Callsign
              else if |record| == 2 then OriginCountry
              else if |record| <= 8 then OnGround
              else Spi)
  {
    FlightStateSlots();
    var k :| (0 <= k < |FlightStateFields| && e == MissingField(FlightStateFields[k]) &&
              StateResponseOrder[FlightStateFields[k]] >= |record| &&
              forall j :: 0 <= j < k ==> StateResponseOrder[FlightStateFields[j]] < |record|);
    assert k < 5;
  }

  /** The slots of the six `FlightState` fields in the API order. */
  lemma FlightStateSlots()
    ensures |FlightStateFields| == 6
    ensures forall n | n in FlightStateFields :: n in StateResponseOrder
    ensures StateResponseOrder[FlightStateFields[0]] == 0
    ensures StateResponseOrder[FlightStateFields[1]] == 1
    ensures StateResponseOrder[FlightStateFields[2]] == 2
    ensures StateResponseOrder[FlightStateFields[3]] == 8
    ensures StateResponseOrder[FlightStateFields[4]] == 15
    ensures StateResponseOrder[FlightStateFields[5]] == 4
  {
  }

  /** Slots other than 0, 1, 2, 4, 8 and 15, and any trailing extras, do not
      affect the parsed state. */
  lemma FromStateListReadsOnlyNamedSlots(a: seq<Value>, b: seq<Value>)
    requires |a| >= 16 && |b| >= 16
    requires a[0] == b[0] && a[1] == b[1] && a[2] == b[2]
    requires a[4] == b[4] && a[8] == b[8] && a[15] == b[15]
    ensures FromStateList(a) == FromStateList(b)
  {
  }

  /** `parse_flight_states`: parses each record in turn, appending to the output;
      the first record that fails to parse raises, and nothing is returned. */
  method ParseFlightStates(records: seq<seq<Value>>) returns (r: Result<seq<FlightState>>)
    ensures r.Ok? <==> forall i :: 0 <= i < |records| ==> |records[i]| >= 16
    ensures r.Ok? ==> (|r.value| == |records| &&
                       forall i :: 0 <= i < |records| ==> FromStateList(records[i]) == Ok(r.value[i]))
    ensures r.Err? ==> (exists i :: 0 <= i < |records| && FromStateList(records[i]) == Err(r.error) &&
                          forall j :: 0 <= j < i ==> FromStateList(records[j]).Ok?)
  {
    var parsed: seq<FlightState> := [];
    for i := 0 to |records|
      invariant |parsed| == i
      invariant forall j :: 0 <= j < i ==> FromStateList(records[j]) == Ok(parsed[j])
    {
      var state := FromStateList(records[i]);
      if state.Err? {
        assert |records[i]| < 16;
        return Err(state.error);
      }
      parsed := parsed + [state.value];
    }
    assert forall i :: 0 <= i < |records| ==> FromStateList(records[i]).Ok?;
    return Ok(parsed);
  }
}
