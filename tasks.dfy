/** The data transforms of the pipeline's tasks: rebuilding states from `state`
    rows, and turning the rows of the `countries` table into a dictionary. */
module Tasks {
  import opened Common
  import opened OpenSky
  import Database

  /** The `convert_to_bools` nested in `transform_state_tuples_to_dataclass`, a
      copy of the one in `get_parsed_states_from_db`. */
  method ConvertToBools(state: FlightState) returns (r: FlightState)
    ensures r == Database.WithBools(state)
  {
    var values := new Value[6](k requires 0 <= k < 6 => Iter(state)[k]);
    var boolIndices: seq<nat> := [3, 4];
    for j := 0 to |boolIndices|
      invariant forall k :: 0 <= k < 6 ==>
                  values[k] == if k in boolIndices[..j] then Bool(Truthy(Iter(state)[k])) else Iter(state)[k]
    {
      var i := boolIndices[j];
      values[i] := Bool(Truthy(values[i]));
    }
    var rebuilt := FromValues(values[..]);
    r := rebuilt.value;
    assert boolIndices[..|boolIndices|] == [3, 4];
  }

  /** `transform_state_tuples_to_dataclass`: the same conversion as the
      read-back in `get_parsed_states_from_db`, so its result is exactly
      `Database.ReadBack` of the rows, one state per row and in order. */
  method TransformStateTuplesToDataclass(rows: seq<seq<Value>>) returns (r: Result<seq<FlightState>>)
    ensures r == Database.ReadBack(rows)
  {
    var flightStates: seq<FlightState> := [];
    for i := 0 to |rows|
      invariant |flightStates| == i
      invariant forall j :: 0 <= j < i ==> FromValues(rows[j]) == Ok(flightStates[j])
    {
      var built := FromValues(rows[i]);
      if built.Err? {
        return Err(built.error);
      }
      flightStates := flightStates + [built.value];
    }
    var fromRows := Database.StatesFromRows(rows);
    assert fromRows.Ok? && fromRows.value == flightStates;
    var converted: seq<FlightState> := [];
    for i := 0 to |flightStates|
      invariant |converted| == i
      invariant forall j :: 0 <= j < i ==> converted[j] == Database.WithBools(flightStates[j])
    {
      var state := ConvertToBools(flightStates[i]);
      converted := converted + [state];
    }
    assert converted == seq(|flightStates|, i requires 0 <= i < |flightStates| => Database.WithBools(flightStates[i]));
    return Ok(converted);
  }

  /** `transform_count_tuples_to_dict`: `{c: v for (c, v) in count_tuple}` over
      the (country, count) rows of the `countries` table. The keys are exactly
      the countries of the pairs; `LastPairWins` says which count each gets. */
  function TransformCountTuplesToDict(pairs: seq<(string, int)>): (d: map<string, int>)
    ensures forall c :: c in d <==> exists i :: 0 <= i < |pairs| && pairs[i].0 == c
  {
    if pairs == [] then map[]
    else
      var prefix := pairs[..|pairs| - 1];
      var earlier := TransformCountTuplesToDict(prefix);
      var (country, count) := pairs[|pairs| - 1];
      assert forall i :: 0 <= i < |prefix| ==> prefix[i] == pairs[i];
      earlier[country := count]
  }

  /** A country maps to the count of the last pair that names it. */
  lemma {:induction false} LastPairWins(pairs: seq<(string, int)>, i: nat)
    requires i < |pairs|
    requires forall j :: i < j < |pairs| ==> pairs[j].0 != pairs[i].0
    ensures TransformCountTuplesToDict(pairs)[pairs[i].0] == pairs[i].1
  {
    var last := |pairs| - 1;
    if i < last {
      var prefix := pairs[..last];
      assert prefix[i] == pairs[i];
      LastPairWins(prefix, i);
    }
  }

  /** The dictionary has no more keys than there are pairs. */
  lemma {:induction false} DictNoLargerThanPairs(pairs: seq<(string, int)>)
    ensures |TransformCountTuplesToDict(pairs)| <= |pairs|
  {
    if pairs != [] {
      var prefix := pairs[..|pairs| - 1];
      DictNoLargerThanPairs(prefix);
      var d := TransformCountTuplesToDict(pairs);
      assert d.Keys == TransformCountTuplesToDict(prefix).Keys + {pairs[|pairs| - 1].0};
    }
  }

  /** With distinct keys every pair is in the dictionary. The `countries`
      table's `UNIQUE (country)` guarantees distinct keys only among non-NULL
      countries; the pairs here are typed `(string, int)`, so NULL does not
      arise. */
  lemma DistinctKeysKeepEveryPair(pairs: seq<(string, int)>)
    requires forall i, j :: 0 <= i < j < |pairs| ==> pairs[i].0 != pairs[j].0
    ensures forall i :: 0 <= i < |pairs| ==> TransformCountTuplesToDict(pairs)[pairs[i].0] == pairs[i].1
  {
    forall i | 0 <= i < |pairs| ensures TransformCountTuplesToDict(pairs)[pairs[i].0] == pairs[i].1 {
      LastPairWins(pairs, i);
    }
  }

  /** With distinct keys the dictionary has one entry per pair. */
  lemma {:induction false} DistinctKeysDictSize(pairs: seq<(string, int)>)
    requires forall i, j :: 0 <= i < j < |pairs| ==> pairs[i].0 != pairs[j].0
    ensures |TransformCountTuplesToDict(pairs)| == |pairs|
  {
    if pairs != [] {
      var prefix := pairs[..|pairs| - 1];
      DistinctKeysDictSize(prefix);
      var earlier := TransformCountTuplesToDict(prefix);
      assert pairs[|pairs| - 1].0 !in earlier;
    }
  }

  /** With a repeated key the later pair wins. */
  lemma RepeatedCountryExample()
    ensures TransformCountTuplesToDict([("Spain", 2), ("USA", 1), ("Spain", 5)]) == map["Spain" := 5, "USA" := 1]
  {
    var pairs := [("Spain", 2), ("USA", 1), ("Spain", 5)];
    assert pairs[..2] == [("Spain", 2), ("USA", 1)];
    assert pairs[..2][..1] == [("Spain", 2)];
    assert pairs[..2][..1][..0] == pairs[..0];
  }
}
