/** The deduplication filter and the country-of-origin counter. */
module Operations {
  import opened Common
  import opened OpenSky

  /** `timedelta(days=1)`, with timestamps as whole seconds on a fixed day. */
  const Day: int := 86400

  /** `current_stored_icao24_codes` */
  function StoredCodes(stored: seq<FlightState>): seq<Value>
  {
    seq(|stored|, i requires 0 <= i < |stored| => stored[i].icao24)
  }

  /** The stored codes are exactly the codes of the stored states. */
  lemma StoredCodesAreTheCodes(stored: seq<FlightState>)
    ensures |StoredCodes(stored)| == |stored|
    ensures forall c :: c in StoredCodes(stored) <==> exists s | s in stored :: s.icao24 == c
  {
    forall c | c in StoredCodes(stored) ensures exists s | s in stored :: s.icao24 == c {
      var i :| 0 <= i < |stored| && StoredCodes(stored)[i] == c;
      assert stored[i] in stored;
    }
    forall s | s in stored ensures s.icao24 in StoredCodes(stored) {
      var i :| 0 <= i < |stored| && stored[i] == s;
      assert StoredCodes(stored)[i] == s.icao24;
    }
  }

  /** `icao24_code_already_exist_condition`: some stored state has the code. */
  predicate IcaoExists(state: FlightState, stored: seq<FlightState>)
    ensures IcaoExists(state, stored) <==> exists i :: FirstMatchAt(stored, state.icao24, i)
  {
    FirstMatchFacts(stored, state.icao24);
    state.icao24 in StoredCodes(stored)
  }

  /** `[*filter(lambda s: s.icao24 == target_icao24, stored_states)]`: the stored
      states with that code, in stored order. It is empty exactly when the code
      is not among the stored codes. */
  function Matching(stored: seq<FlightState>, target: Value): (r: seq<FlightState>)
    ensures |r| <= |stored|
    ensures forall s | s in r :: s in stored && s.icao24 == target
    ensures r != [] <==> target in StoredCodes(stored)
  {
    if stored == [] then []
    else
      assert StoredCodes(stored) == [stored[0].icao24] + StoredCodes(stored[1..]);
      (if stored[0].icao24 == target then [stored[0]] else []) + Matching(stored[1..], target)
  }

  /** `Matching` keeps every stored state with the code, in stored order. */
  lemma {:induction false} MatchingKeepsEveryMatch(stored: seq<FlightState>, target: Value)
    ensures forall s | s in stored && s.icao24 == target :: s in Matching(stored, target)
    ensures SubsequenceOf(Matching(stored, target), stored)
  {
    if stored != [] {
      MatchingKeepsEveryMatch(stored[1..], target);
      var rest := Matching(stored[1..], target);
      if stored[0].icao24 == target {
        assert Matching(stored, target) == [stored[0]] + rest;
        assert ([stored[0]] + rest)[1..] == rest;
      } else {
        assert Matching(stored, target) == rest;
        if rest != [] {
          assert SubsequenceOf(rest, stored[1..]);
        }
      }
    }
  }

  /** `i` is the position of the first stored state with the code. */
  predicate FirstMatchAt(stored: seq<FlightState>, target: Value, i: int)
  {
    0 <= i < |stored| && stored[i].icao24 == target &&
    forall j :: 0 <= j < i ==> stored[j].icao24 != target
  }

  /** A stored code has a first position, and `Matching` starts there. */
  lemma {:induction false} FirstMatchFacts(stored: seq<FlightState>, target: Value)
    ensures target in StoredCodes(stored) <==> exists i :: FirstMatchAt(stored, target, i)
    ensures forall i | FirstMatchAt(stored, target, i) ::
              Matching(stored, target) != [] && Matching(stored, target)[0] == stored[i]
  {
    if stored != [] {
      FirstMatchFacts(stored[1..], target);
      assert StoredCodes(stored) == [stored[0].icao24] + StoredCodes(stored[1..]);
      if stored[0].icao24 == target {
        assert FirstMatchAt(stored, target, 0);
      } else if target in StoredCodes(stored[1..]) {
        var i :| FirstMatchAt(stored[1..], target, i);
        assert FirstMatchAt(stored, target, i + 1);
      }
    }
    forall i | FirstMatchAt(stored, target, i)
      ensures Matching(stored, target) != [] && Matching(stored, target)[0] == stored[i]
    {
      MatchingHeadIsFirst(stored, target, i);
    }
  }

  /** The head of `Matching` is the first stored state with the code, whatever
      follows it. */
  lemma {:induction false} MatchingHeadIsFirst(stored: seq<FlightState>, target: Value, i: nat)
    requires i < |stored| && stored[i].icao24 == target
    requires forall j :: 0 <= j < i ==> stored[j].icao24 != target
    ensures Matching(stored, target) != [] && Matching(stored, target)[0] == stored[i]
  {
    if i > 0 {
      MatchingHeadIsFirst(stored[1..], target, i - 1);
    }
  }

  /** Matching a concatenation matches each part in turn. */
  lemma {:induction false} MatchingAppend(a: seq<FlightState>, b: seq<FlightState>, target: Value)
    ensures Matching(a + b, target) == Matching(a, target) + Matching(b, target)
  {
    if a == [] {
      assert a + b == b;
    } else {
      assert (a + b)[1..] == a[1..] + b;
      MatchingAppend(a[1..], b, target);
    }
  }

  /** The timestamps `datetime.fromtimestamp` converts for this candidate, its
      own and that of its first stored match, are integers. A candidate without
      a stored match is rejected before any conversion. */
  predicate Comparable(state: FlightState, stored: seq<FlightState>)
  {
    var matches := Matching(stored, state.icao24);
    matches != [] ==> state.lastContact.Int? && matches[0].lastContact.Int?
  }

  /** `last_update_more_than_one_day_ago_condition`: only the first stored state
      with the code is consulted, and the comparison is strict. */
  predicate MoreThanOneDayAfterFirstMatch(state: FlightState, stored: seq<FlightState>)
    requires Matching(stored, state.icao24) != []
    requires Comparable(state, stored)
    ensures forall i | FirstMatchAt(stored, state.icao24, i) ::
              stored[i].lastContact.Int? &&
              (MoreThanOneDayAfterFirstMatch(state, stored) <==> state.lastContact.i > stored[i].lastContact.i + Day)
  {
    FirstMatchFacts(stored, state.icao24);
    var storedTimestamp := Matching(stored, state.icao24)[0].lastContact.i;
    state.lastContact.i > storedTimestamp + Day
  }

  /** `apply_filter` */
  predicate Accepted(state: FlightState, stored: seq<FlightState>)
    requires Comparable(state, stored)
    ensures Accepted(state, stored) <==>
              exists i | FirstMatchAt(stored, state.icao24, i) ::
                state.lastContact.Int? && stored[i].lastContact.Int? &&
                state.lastContact.i > stored[i].lastContact.i + Day
  {
    if !IcaoExists(state, stored) then false
    else MoreThanOneDayAfterFirstMatch(state, stored)
  }

  /** `filter_duplicated_states`: keeps, in order, the new states that pass
      `apply_filter` against the stored batch. */
  function FilterDuplicatedStates(newStates: seq<FlightState>, stored: seq<FlightState>): (r: seq<FlightState>)
    requires forall c | c in newStates :: Comparable(c, stored)
    ensures |r| <= |newStates|
    ensures forall c :: c in r <==> c in newStates && Accepted(c, stored)
  {
    if newStates == [] then []
    else
      (if Accepted(newStates[0], stored) then [newStates[0]] else [])
      + FilterDuplicatedStates(newStates[1..], stored)
  }

  /** `xs` is `ys` with some elements left out, the rest in their order. */
  ghost predicate SubsequenceOf<T>(xs: seq<T>, ys: seq<T>)
    decreases |ys|
  {
    if xs == [] then true
    else if ys == [] then false
    else (xs[0] == ys[0] && SubsequenceOf(xs[1..], ys[1..])) || SubsequenceOf(xs, ys[1..])
  }

  /** The filter adds nothing and reorders nothing. */
  lemma {:induction false} FilterIsSubsequence(newStates: seq<FlightState>, stored: seq<FlightState>)
    requires forall c | c in newStates :: Comparable(c, stored)
    ensures SubsequenceOf(FilterDuplicatedStates(newStates, stored), newStates)
  {
    if newStates != [] {
      var rest := FilterDuplicatedStates(newStates[1..], stored);
      FilterIsSubsequence(newStates[1..], stored);
      if Accepted(newStates[0], stored) {
        assert FilterDuplicatedStates(newStates, stored) == [newStates[0]] + rest;
      } else {
        assert FilterDuplicatedStates(newStates, stored) == rest;
      }
    }
  }

  /** A candidate is accepted exactly when the first stored state with its code
      is more than a day older; any later stored state with the code, even a
      more recent one, plays no part. */
  lemma AcceptedIffFirstMatchIsADayOlder(state: FlightState, stored: seq<FlightState>, i: nat)
    requires i < |stored| && stored[i].icao24 == state.icao24
    requires forall j :: 0 <= j < i ==> stored[j].icao24 != state.icao24
    requires state.lastContact.Int? && stored[i].lastContact.Int?
    ensures Comparable(state, stored)
    ensures Accepted(state, stored) <==> state.lastContact.i > stored[i].lastContact.i + Day
  {
    MatchingHeadIsFirst(stored, state.icao24, i);
  }

  /** A candidate whose code is not among the stored codes is rejected. */
  lemma UnknownCodeRejected(state: FlightState, stored: seq<FlightState>)
    requires forall j :: 0 <= j < |stored| ==> stored[j].icao24 != state.icao24
    ensures Comparable(state, stored) && !Accepted(state, stored)
  {
    assert state.icao24 !in StoredCodes(stored);
  }

  /** Against an empty stored batch nothing is accepted. */
  lemma FilterAgainstEmptyIsEmpty(newStates: seq<FlightState>)
    ensures FilterDuplicatedStates(newStates, []) == []
  {
  }

  /** Stored states appended after the first match do not change the decision. */
  lemma OnlyFirstMatchConsulted(state: FlightState, stored: seq<FlightState>, later: seq<FlightState>)
    requires IcaoExists(state, stored) && Comparable(state, stored)
    ensures Comparable(state, stored + later)
    ensures Accepted(state, stored + later) <==> Accepted(state, stored)
  {
    MatchingAppend(stored, later, state.icao24);
    assert state.icao24 in StoredCodes(stored + later) by {
      assert Matching(stored + later, state.icao24) != [];
    }
  }

  /** Filtering distributes over concatenation of the new states. */
  lemma {:induction false} FilterAppend(a: seq<FlightState>, b: seq<FlightState>, stored: seq<FlightState>)
    requires forall c | c in a + b :: Comparable(c, stored)
    ensures FilterDuplicatedStates(a + b, stored) ==
            FilterDuplicatedStates(a, stored) + FilterDuplicatedStates(b, stored)
  {
    if a == [] {
      assert a + b == b;
    } else {
      assert (a + b)[1..] == a[1..] + b;
      assert (a + b)[0] == a[0];
      FilterAppend(a[1..], b, stored);
    }
  }

  /** A batch whose every state is rejected filters to nothing. */
  lemma {:induction false} FilterDropsAllRejected(newStates: seq<FlightState>, stored: seq<FlightState>)
    requires forall c | c in newStates :: Comparable(c, stored) && !Accepted(c, stored)
    ensures FilterDuplicatedStates(newStates, stored) == []
  {
    if newStates != [] {
      FilterDropsAllRejected(newStates[1..], stored);
    }
  }

  /** A batch whose every state is accepted passes through unchanged. */
  lemma {:induction false} FilterKeepsAllAccepted(newStates: seq<FlightState>, stored: seq<FlightState>)
    requires forall c | c in newStates :: Comparable(c, stored) && Accepted(c, stored)
    ensures FilterDuplicatedStates(newStates, stored) == newStates
  {
    if newStates != [] {
      FilterKeepsAllAccepted(newStates[1..], stored);
    }
  }

  /** Filtering the output again against the same stored batch changes nothing:
      each decision depends on the candidate and the stored batch alone. */
  lemma FilterIsIdempotent(newStates: seq<FlightState>, stored: seq<FlightState>)
    requires forall c | c in newStates :: Comparable(c, stored)
    ensures var once := FilterDuplicatedStates(newStates, stored);
            (forall c | c in once :: Comparable(c, stored)) &&
            FilterDuplicatedStates(once, stored) == once
  {
    FilterKeepsAllAccepted(FilterDuplicatedStates(newStates, stored), stored);
  }

  /** No two states of the batch share a code, as within one fetch. */
  predicate UniqueCodes(states: seq<FlightState>)
  {
    forall i, j :: 0 <= i < j < |states| ==> states[i].icao24 != states[j].icao24
  }

  /** Every state carries an integer timestamp. */
  predicate Timed(states: seq<FlightState>)
  {
    forall i :: 0 <= i < |states| ==> states[i].lastContact.Int?
  }

  /** Each state of a batch with unique codes finds itself as its first match. */
  lemma SelfIsFirstMatch(states: seq<FlightState>, k: nat)
    requires UniqueCodes(states) && Timed(states) && k < |states|
    ensures Comparable(states[k], states) && !Accepted(states[k], states)
  {
    AcceptedIffFirstMatchIsADayOlder(states[k], states, k);
  }

  /** Filtering a batch with unique codes against itself yields nothing. */
  lemma FilterAgainstItselfIsEmpty(states: seq<FlightState>)
    requires UniqueCodes(states) && Timed(states)
    ensures forall c | c in states :: Comparable(c, states)
    ensures FilterDuplicatedStates(states, states) == []
  {
    forall c | c in states ensures Comparable(c, states) && !Accepted(c, states) {
      var k :| 0 <= k < |states| && states[k] == c;
      SelfIsFirstMatch(states, k);
    }
    FilterDropsAllRejected(states, states);
  }

  /** A copy of a stored state moved two days later, appended to a copy of the
      stored batch, is the one state accepted. */
  lemma MovedCopyIsAccepted(states: seq<FlightState>, k: nat)
    requires UniqueCodes(states) && Timed(states) && k < |states|
    ensures var moved := states[k].(lastContact := Int(states[k].lastContact.i + 2 * Day));
            (forall c | c in states + [moved] :: Comparable(c, states)) &&
            FilterDuplicatedStates(states + [moved], states) == [moved]
  {
    var moved := states[k].(lastContact := Int(states[k].lastContact.i + 2 * Day));
    forall j | 0 <= j < k ensures states[j].icao24 != moved.icao24 {
    }
    AcceptedIffFirstMatchIsADayOlder(moved, states, k);
    FilterAgainstItselfIsEmpty(states);
    FilterAppend(states, [moved], states);
    assert FilterDuplicatedStates([moved], states) == [moved] by {
      assert [moved][1..] == [];
    }
  }

  /** The decision at the one-day boundary, and for an unknown aircraft. */
  lemma StrictOneDayBoundary()
    ensures var stored := [FlightState(Str("abc123"), Null, Str("Spain"), Bool(false), Bool(false), Int(1000))];
            var atDay := stored[0].(lastContact := Int(1000 + 86400));
            var pastDay := stored[0].(lastContact := Int(1000 + 86401));
            FilterDuplicatedStates([atDay], stored) == [] &&
            FilterDuplicatedStates([pastDay], stored) == [pastDay] &&
            FilterDuplicatedStates([pastDay], []) == []
  {
    var stored := [FlightState(Str("abc123"), Null, Str("Spain"), Bool(false), Bool(false), Int(1000))];
    var atDay := stored[0].(lastContact := Int(1000 + 86400));
    var pastDay := stored[0].(lastContact := Int(1000 + 86401));
    AcceptedIffFirstMatchIsADayOlder(atDay, stored, 0);
    AcceptedIffFirstMatchIsADayOlder(pastDay, stored, 0);
    assert [atDay][1..] == [] && [pastDay][1..] == [];
    FilterAgainstEmptyIsEmpty([pastDay]);
  }

  /** `[state['origin_country'] for state in dict_states]` */
  function Countries(states: seq<FlightState>): seq<Value>
  {
    seq(|states|, i requires 0 <= i < |states| => states[i].originCountry)
  }

  /** The listed countries are exactly the origin countries of the states. */
  lemma CountriesAreTheOrigins(states: seq<FlightState>)
    ensures |Countries(states)| == |states|
    ensures forall c :: c in Countries(states) <==> exists s | s in states :: s.originCountry == c
  {
    forall c | c in Countries(states) ensures exists s | s in states :: s.originCountry == c {
      var i :| 0 <= i < |states| && Countries(states)[i] == c;
      assert states[i] in states;
    }
    forall s | s in states ensures s.originCountry in Countries(states) {
      var i :| 0 <= i < |states| && states[i] == s;
      assert Countries(states)[i] == s.originCountry;
    }
  }

  /** `count_countries_of_origin`: a `Counter` over the countries of origin,
      built one state at a time. Each country maps to the number of states
      whose `origin_country` is exactly that value (so "spain" and "Spain" are
      distinct, and an empty name is counted like any other). */
  function CountCountriesOfOrigin(states: seq<FlightState>): (r: map<Value, nat>)
    ensures forall c :: c in r <==> c in multiset(Countries(states))
    ensures forall c | c in r :: r[c] == multiset(Countries(states))[c]
    decreases |states|
  {
    if states == [] then map[]
    else
      var prefix := states[..|states| - 1];
      var country := states[|states| - 1].originCountry;
      assert Countries(states) == Countries(prefix) + [country];
      var counts := CountCountriesOfOrigin(prefix);
      counts[country := (if country in counts then counts[country] else 0) + 1]
  }

  /** Some key of a non-empty map. */
  ghost function Pick(m: map<Value, nat>): (k: Value)
    requires |m| > 0
    ensures k in m
  {
    var k :| k in m; k
  }

  /** The sum of a map's values. */
  ghost function MapSum(m: map<Value, nat>): nat
    decreases |m|
  {
    if |m| == 0 then 0
    else
      var k := Pick(m);
      m[k] + MapSum(m - {k})
  }

  /** The sum may start from any key. */
  lemma {:induction false} MapSumFrom(m: map<Value, nat>, k: Value)
    requires k in m
    ensures MapSum(m) == m[k] + MapSum(m - {k})
    decreases |m|
  {
    var p := Pick(m);
    if p != k {
      assert |(m - {p})| == |m| - 1;
      assert |(m - {k})| == |m| - 1;
      MapSumFrom(m - {p}, k);
      MapSumFrom(m - {k}, p);
      assert (m - {p}) - {k} == (m - {k}) - {p};
    }
  }

  /** Adding one to a key, new or old, adds one to the sum. */
  lemma IncrementSum(m: map<Value, nat>, k: Value)
    ensures MapSum(m[k := (if k in m then m[k] else 0) + 1]) == MapSum(m) + 1
  {
    var m' := m[k := (if k in m then m[k] else 0) + 1];
    MapSumFrom(m', k);
    if k in m {
      MapSumFrom(m, k);
      assert m' - {k} == m - {k};
    } else {
      assert m' - {k} == m;
    }
  }

  /** The counts add up to the number of states. */
  lemma {:induction false} CountsSumToLength(states: seq<FlightState>)
    ensures MapSum(CountCountriesOfOrigin(states)) == |states|
    decreases |states|
  {
    if states != [] {
      var prefix := states[..|states| - 1];
      CountsSumToLength(prefix);
      IncrementSum(CountCountriesOfOrigin(prefix), states[|states| - 1].originCountry);
    }
  }

  /** Removing one element removes it once from the multiset. */
  lemma MultisetRemoveAt<T>(b: seq<T>, j: nat)
    requires j < |b|
    ensures multiset(b[..j] + b[j + 1..]) == multiset(b) - multiset{b[j]}
  {
    assert b == b[..j] + [b[j]] + b[j + 1..];
  }

  /** The countries of a concatenation are the countries of the parts. */
  lemma CountriesAppend(p: seq<FlightState>, q: seq<FlightState>)
    ensures multiset(Countries(p + q)) == multiset(Countries(p)) + multiset(Countries(q))
  {
    assert Countries(p + q) == Countries(p) + Countries(q);
  }

  /** Taking one state out of a batch takes its country out once. */
  lemma CountriesWithout(s: seq<FlightState>, j: nat)
    requires j < |s|
    ensures multiset(Countries(s)) ==
            multiset(Countries(s[..j] + s[j + 1..])) + multiset{s[j].originCountry}
  {
    assert s == s[..j] + [s[j]] + s[j + 1..];
    CountriesAppend(s[..j] + [s[j]], s[j + 1..]);
    CountriesAppend(s[..j], [s[j]]);
    CountriesAppend(s[..j], s[j + 1..]);
    assert Countries([s[j]]) == [s[j].originCountry];
  }

  /** Reordering the states does not change the countries as a multiset. */
  lemma {:induction false} CountriesOfPermutation(a: seq<FlightState>, b: seq<FlightState>)
    requires multiset(a) == multiset(b)
    ensures multiset(Countries(a)) == multiset(Countries(b))
    decreases |a|
  {
    if a == [] {
      assert |multiset(b)| == 0;
    } else {
      var x := a[0];
      assert x in multiset(b);
      var j :| 0 <= j < |b| && b[j] == x;
      var rest := b[..j] + b[j + 1..];
      assert a[..0] + a[1..] == a[1..];
      assert multiset(a[1..]) == multiset(rest) by {
        MultisetRemoveAt(b, j);
        MultisetRemoveAt(a, 0);
      }
      CountriesOfPermutation(a[1..], rest);
      CountriesWithout(a, 0);
      CountriesWithout(b, j);
    }
  }

  /** The counter does not depend on the order of the states. */
  lemma CountIsOrderIndependent(a: seq<FlightState>, b: seq<FlightState>)
    requires multiset(a) == multiset(b)
    ensures CountCountriesOfOrigin(a) == CountCountriesOfOrigin(b)
  {
    CountriesOfPermutation(a, b);
  }

  /** Two Spanish aircraft and one American. */
  lemma CountExample()
    ensures var spain := FlightState(Str("a"), Null, Str("Spain"), Bool(false), Bool(false), Int(0));
            var usa := FlightState(Str("b"), Null, Str("USA"), Bool(true), Bool(false), Int(0));
            CountCountriesOfOrigin([spain, spain, usa]) == map[Str("Spain") := 2, Str("USA") := 1]
  {
    var spain := FlightState(Str("a"), Null, Str("Spain"), Bool(false), Bool(false), Int(0));
    var usa := FlightState(Str("b"), Null, Str("USA"), Bool(true), Bool(false), Int(0));
    assert Countries([spain, spain, usa]) == [Str("Spain"), Str("Spain"), Str("USA")];
    assert multiset([Str("Spain"), Str("Spain"), Str("USA")])[Str("Spain")] == 2;
    assert Str("Spain") != Str("USA");
  }
}
