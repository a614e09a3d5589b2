# Flight-state ETL core, modelled in Dafny

This project models the record-shaping and decision logic of a small ETL for
live aircraft telemetry from the OpenSky REST API. It covers four pieces:

- **Parser** (`opensky.dfy`, module `OpenSky`). An explicit table maps the
  17 state-vector field names to positions. `FromStateList` builds a
  `FlightState` by looking up its six fields by name: icao24, callsign,
  origin_country, on_ground, spi and last_contact. `ParseFlightStates` loops
  over a batch and appends each parsed record. `Iter` turns a state back into
  its six values in declaration order.
- **Deduplication filter and country counter** (`operations.dfy`, module
  `Operations`). `FilterDuplicatedStates` keeps a new state only when two
  things hold: its icao24 occurs among the stored states, and its
  last_contact is strictly more than one day after that of the *first*
  stored state with that icao24. `CountCountriesOfOrigin` is a `Counter`
  over origin_country.
- **Row shaping around persistence** (`database.dfy`, module `Database`).
  `InsertRawStatesInDb` deep-copies the raw batch. For each copied row it
  pops the `sensors` slot (12) and, if 17 values remain, pops the last one.
  `InsertParsedStatesInDb` turns each state into its six-value row.
  `GetParsedStatesFromDb` rebuilds states from `state` rows. Its
  `ConvertToBools` turns positions 3 and 4 (on_ground, spi) back into bools.
- **Task transforms** (`tasks.dfy`, module `Tasks`). There is a second copy of
  the bool-coercing read-back, and the conversion of (country, count) pairs
  into a dictionary.

Values are modelled as a small datatype `Value`
(`Null | Int | Str | Bool | Opaque`); `Opaque` stands for floats and the
`sensors` list. A raw record is a `seq<Value>`. Timestamps are integer
seconds, and a day is 86400 seconds. Python exceptions are the `Err` side of
a `Result`. The SQLite store is a sequence of rows. The one thing modelled of
the store is that it binds a Python `bool` as the integer 0 or 1, which
`Database.Stored` captures.

`ParseFlightStates`, `InsertRawStatesInDb`, both `ConvertToBools` and the two
read-back methods loop the way the source does. Each is proved against a
specification function, and the lemmas state properties of those functions.

Two notes on record lengths and errors:

- A raw record normally has 17 values, with an optional undocumented 18th.
  A 16-value record shapes to a 15-value row, which does not fit the
  16-column `raw_state` table.
- Python's `IndexError` on a short record does not name the missing field.
  The model's `MissingField` error records which lookup failed: the first
  field, in declaration order, whose slot is past the end of the record.

## Model

| member | source | states |
|---|---|---|
| OpenSky.ResponseOrderFollowsApiOrder | app/opensky.py:6-24 | The table has 17 names, and the k-th API field name maps to position k. |
| OpenSky.ResponseOrderIsInjective | app/opensky.py:6-24 | Every field name is in the table, its position is below 17, and no two names share a position. |
| OpenSky.FromValues | app/opensky.py:56-63 | Positional construction succeeds exactly for six values, each landing in the field of that position; any other count is a TypeError naming the count. |
| OpenSky.FieldOfParsedState | app/opensky.py:65-73 | `getattr` (`Field`) on a parsed state returns the record's value at the slot the table gives that field name. |
| OpenSky.Iter | app/opensky.py:72-73 | A state iterates as icao24, callsign, origin_country, on_ground, spi, last_contact. |
| OpenSky.IterRoundTrip | app/opensky.py:57-73 | Rebuilding a state from its own iteration gives the same state. |
| OpenSky.Lookup | app/opensky.py:68 | A by-name lookup returns the value at the name's slot when the record is long enough, and otherwise fails naming the field. |
| OpenSky.LookupAll | app/opensky.py:67-70 | The lookups succeed exactly when every named slot is in range, giving one value per name in order; on failure the error names the first field whose slot is missing. |
| OpenSky.FromStateList | app/opensky.py:65-70 | Parsing succeeds exactly for records of at least 16 values, taking icao24, callsign, origin_country, last_contact, on_ground and spi from slots 0, 1, 2, 4, 8 and 15 unvalidated; a shorter record fails and names the first missing field. |
| OpenSky.FromStateListReadsOnlyNamedSlots | app/opensky.py:67-69 | Two records of at least 16 values that agree on slots 0, 1, 2, 4, 8 and 15 parse to the same state, whatever their other slots or trailing extras. |
| OpenSky.ParseFlightStates | app/opensky.py:77-85 | The batch parses exactly when every record has at least 16 values; the output has one parsed state per record in order; otherwise the error is that of the first failing record. |
| Operations.StoredCodesAreTheCodes | app/operations.py:12 | `StoredCodes` has one entry per stored state, and its members are exactly the codes of the stored states. |
| Operations.IcaoExists | app/operations.py:13-14 | The existence check holds exactly when some stored state carries the candidate's code, at a first position. |
| Operations.Matching | app/operations.py:21-23 | No longer than the stored batch, every result a stored state with the code; empty exactly when the code is not among the stored codes. |
| Operations.MatchingKeepsEveryMatch | app/operations.py:21-23 | Every stored state with the code is in the matches, and the matches keep stored order (a subsequence of the stored batch). |
| Operations.MatchingHeadIsFirst | app/operations.py:21-23 | The first element of the matches is the first stored state with that code. |
| Operations.MoreThanOneDayAfterFirstMatch | app/operations.py:16-26 | With the first stored state with the code at position i, its last_contact is an integer and the condition holds exactly when the candidate's last_contact exceeds it by more than 86400 seconds. |
| Operations.Accepted | app/operations.py:28-33 | A candidate passes `apply_filter` exactly when there is a first stored state with its code, both last_contact values are integers, and the candidate's is more than 86400 seconds later. |
| Operations.FilterDuplicatedStates | app/operations.py:7-37 | A state is in the output exactly when it is a new state accepted against the stored batch; the output is no longer than the input. |
| Operations.FilterIsSubsequence | app/operations.py:35-37 | The output is a subsequence of the new states: nothing added, nothing reordered. |
| Operations.AcceptedIffFirstMatchIsADayOlder | app/operations.py:16-33 | A candidate is accepted exactly when its last_contact exceeds that of the first stored state with its code by more than 86400 seconds. |
| Operations.UnknownCodeRejected | app/operations.py:12-31 | A candidate whose code is not among the stored codes is rejected. |
| Operations.FilterAgainstEmptyIsEmpty | app/operations.py:12-37 | Against an empty stored batch the output is empty. |
| Operations.OnlyFirstMatchConsulted | app/operations.py:21-26 | Stored states after the first match, even later ones, do not change the decision. |
| Operations.FilterAppend | app/operations.py:35-37 | Filtering a concatenation is the concatenation of the filtered parts. |
| Operations.FilterIsIdempotent | app/operations.py:28-37 | Filtering the output again against the same stored batch returns the same output. |
| Operations.FilterAgainstItselfIsEmpty | app/operations.py:63-67 | A batch with unique codes filtered against itself gives nothing. |
| Operations.MovedCopyIsAccepted | app/operations.py:69-77 | Appending a copy of a stored state moved two days later to a copy of the batch gives exactly that copy as output. |
| Operations.StrictOneDayBoundary | app/operations.py:20-26 | A gap of exactly 86400 s is rejected, 86401 s is accepted, and with no stored state nothing is accepted. |
| Operations.CountriesAreTheOrigins | app/operations.py:41-43 | `Countries` has one entry per state, and its members are exactly the states' origin countries. |
| Operations.CountCountriesOfOrigin | app/operations.py:39-44 | The keys are exactly the origin countries present, and each maps to the number of states with exactly that country. |
| Operations.CountsSumToLength | app/operations.py:39-44 | The counts add up to the number of states. |
| Operations.CountIsOrderIndependent | app/operations.py:39-44 | Any permutation of the states gives the same counts. |
| Operations.CountExample | app/operations.py:39-44 | Two Spanish aircraft and one American count as Spain 2, USA 1. |
| Database.ShapeRawRow | app/database.py:64-69 | One shaped record: slots before 12 keep their place, later ones move left by one, and an 18-value record loses its last value; the length becomes 16 for an 18-value record and one less otherwise. |
| Database.ShapedRowFitsRawTable | app/database.py:60-69 | A shaped row has the 16 values the insert binds exactly when the record had 17 or 18 values. |
| Database.ShapedNamesAreRawColumns | app/database.py:17-34 | Shaping the API field names yields the raw_state column names in order, so every value lands in its own column. |
| Database.InsertRawStatesInDb | app/database.py:59-69 | Without writing the caller's batch, it yields one shaped row per record in order, or the pop error when some record has 12 or fewer values. |
| Database.Stored | app/database.py:81 | A bound value is never a bool: `True` becomes the integer 1 and `False` the integer 0, so the truth value is kept, and anything else is kept as it is. |
| Database.StoredRow | app/database.py:81 | A bound row has the same width and binds each value as `Stored` does (True as 1, False as 0, anything else unchanged), so it holds no bool and keeps every value's truth value. |
| Database.StoredRows | app/database.py:81 | One bound row per row, in order: the i-th is the bound form of the i-th row, of the same width and holding no bool. |
| Database.InsertParsedStatesInDb | app/database.py:76-81 | One six-value row per state, in order, whose k-th value is the state's field named by the k-th state column. |
| Database.WithBools | app/database.py:104-110 | The values at positions 3 and 4 become their truth values, and every other field is unchanged. |
| Database.ConvertToBools | app/database.py:104-110 | The loop over the bool indices yields the state with on_ground and spi coerced and all else unchanged. |
| Database.StatesFromRows | app/database.py:102 | Rows rebuild into states exactly when all are six wide, one per row in order; otherwise the first bad row's arity error. |
| Database.ReadBack | app/database.py:102-112 | For six-wide rows, one state per row in order, whose values are the row's with positions 3 and 4 coerced to bool; otherwise the arity error of the first bad row. |
| Database.GetParsedStatesFromDb | app/database.py:102-112 | The two loops compute exactly the read-back of the rows. |
| Database.RowRoundTrip | app/database.py:76-112 | A state with the table's column types, stored with bools as 0/1 and rebuilt, comes back unchanged. |
| Database.StoreRoundTrip | app/database.py:76-112 | Writing a batch of such states into an empty `state` table and reading it back gives the same batch. |
| Tasks.ConvertToBools | app/dataflow/tasks.py:113-119 | The task's own copy of the bool coercion computes the same state as the read-back's. |
| Tasks.TransformStateTuplesToDataclass | app/dataflow/tasks.py:111-121 | The task's result equals the database read-back of the same rows, one state per row in order. |
| Tasks.TransformCountTuplesToDict | app/dataflow/tasks.py:137-139 | The keys are exactly the countries that occur in the pairs. |
| Tasks.LastPairWins | app/dataflow/tasks.py:138 | Each country maps to the count of the last pair that names it. |
| Tasks.DictNoLargerThanPairs | app/dataflow/tasks.py:137-139 | The dictionary has at most as many keys as there are pairs. |
| Tasks.DistinctKeysKeepEveryPair | app/dataflow/tasks.py:137-139 | With distinct countries, as the table's UNIQUE constraint ensures, every pair's count is in the dictionary. |
| Tasks.DistinctKeysDictSize | app/dataflow/tasks.py:137-139 | With distinct countries the dictionary has one entry per pair. |
| Tasks.RepeatedCountryExample | app/dataflow/tasks.py:138 | Spain 2, USA 1, Spain 5 gives Spain 5, USA 1. |

## Left out

- The HTTP fetch in `get_flights_in_roi` (app/opensky.py:27-53) is not modelled. It is network I/O.
- SQLite itself is not modelled: connections, table creation, `executemany` and `fetchall`. A table is the sequence of its rows. Only the bool-to-integer binding is modelled (`Database.Stored`). SQLite's column type affinity and its rejection of a row with the wrong number of bindings are not modelled.
- The Prefect wiring is not modelled: the `SQLiteScript` and `SQLiteQuery` objects, the `@task` wrappers that only delegate, and `app/dataflow/flows.py`. It is third-party orchestration.
- `insert_countries_in_db` and `save_plot_countries_histogram` are not part of this model. They are imported but not defined in the files modelled, so the additive country-count upsert has no code to model.
- The `__main__` debug blocks are not modelled. Their assertions in app/operations.py are restated as the lemmas `FilterAgainstItselfIsEmpty` and `MovedCopyIsAccepted`.
- Floating-point fields are `Opaque` values, carried through unchanged. For `bool()`, token 0 stands for a value Python treats as false.
- `datetime.fromtimestamp` works in local time, and the model does not capture that. Timestamps are integer seconds on a fixed 86400-second day. Local time can shift the comparison by an hour across a DST change, and an out-of-range timestamp raises. Both are platform behaviour.
- Python's cross-type equality is not modelled (`True == 1`, `1 == 1.0`). Codes and countries compare by structural equality of `Value`, and Counter keys use the same equality.
- FilterDuplicatedStates: requires integer last_contact values where `fromtimestamp` runs, which is on a candidate with a stored match and on that first match. The source also accepts floats and bools there, and raises TypeError for other values.
- Tasks.DistinctKeysKeepEveryPair: the pairs are typed `(string, int)`, so a NULL country is not modelled. SQLite's `UNIQUE (country)` allows repeated NULLs, so the distinct-keys premise holds for the table only among non-NULL countries.
