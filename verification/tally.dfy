/**
 * `find_most_country_occurence`: counts the records of each non-empty country in a
 * dictionary and returns the key with the largest count, as `max(countries, key=countries.get)`
 * does — the first key in insertion order among those with the largest count.
 */
module Tally {
  import opened Types
  import opened Records

  /** `if data.country:` — the record has a country that is neither `None` nor empty. */
  predicate HasCountry(d: Data)
  {
    d.country.Some? && d.country.value != ""
  }

  /** A record's country is truthy exactly when its written country cell is non-empty. */
  lemma HasCountryCell(d: Data)
    ensures HasCountry(d) <==> EncodeOptional(d.country) != ""
  {
  }

  /** The number of records whose country is `c`. */
  function CountOf(rs: seq<Data>, c: string): (r: nat)
    ensures r <= |rs|
  {
    if rs == [] then 0
    else CountOf(rs[..|rs| - 1], c) + (if rs[|rs| - 1].country == Some(c) then 1 else 0)
  }

  /** A country's count is zero exactly when no record carries it. */
  lemma {:induction false} CountOfZero(rs: seq<Data>, c: string)
    ensures CountOf(rs, c) == 0 <==> forall i :: 0 <= i < |rs| ==> rs[i].country != Some(c)
  {
    if rs != [] {
      var front := rs[..|rs| - 1];
      CountOfZero(front, c);
      assert forall i :: 0 <= i < |front| ==> front[i] == rs[i];
    }
  }

  /** The non-empty countries of `rs` in order of first occurrence: the key order of the dictionary. */
  function DistinctCountries(rs: seq<Data>): (r: seq<string>)
    ensures forall j :: 0 <= j < |r| ==> r[j] != ""
    ensures forall j, k :: 0 <= j < k < |r| ==> r[j] != r[k]
  {
    if rs == [] then []
    else
      var seen := DistinctCountries(rs[..|rs| - 1]);
      var d := rs[|rs| - 1];
      if HasCountry(d) && d.country.value !in seen then seen + [d.country.value] else seen
  }

  /** A string is a key of the dictionary exactly when it is the non-empty country of some record. */
  lemma {:induction false} DistinctCountriesMembers(rs: seq<Data>, c: string)
    ensures c in DistinctCountries(rs) <==> c != "" && exists i :: 0 <= i < |rs| && rs[i].country == Some(c)
  {
    if rs != [] {
      var front := rs[..|rs| - 1];
      DistinctCountriesMembers(front, c);
      if c != "" && exists i :: 0 <= i < |rs| && rs[i].country == Some(c) {
        var i :| 0 <= i < |rs| && rs[i].country == Some(c);
        if i < |rs| - 1 {
          assert front[i] == rs[i];
        }
      }
      if exists i :: 0 <= i < |front| && front[i].country == Some(c) {
        var i :| 0 <= i < |front| && front[i].country == Some(c);
        assert rs[i] == front[i];
      }
    }
  }

  /** The keys seen after a prefix of the records are a prefix of the final key order. */
  lemma {:induction false} DistinctCountriesPrefix(rs: seq<Data>, m: nat)
    requires m <= |rs|
    ensures DistinctCountries(rs[..m]) <= DistinctCountries(rs)
    decreases |rs| - m
  {
    if m == |rs| {
      assert rs[..m] == rs;
    } else {
      var front := rs[..|rs| - 1];
      assert front[..m] == rs[..m];
      DistinctCountriesPrefix(front, m);
    }
  }

  /** A non-empty country no record carries has count zero. */
  lemma {:induction false} CountOfAbsent(rs: seq<Data>, c: string)
    requires c != "" && c !in DistinctCountries(rs)
    ensures CountOf(rs, c) == 0
  {
    if rs != [] {
      assert rs[|rs| - 1].country != Some(c) by {
        DistinctCountriesMembers(rs, c);
      }
      CountOfAbsent(rs[..|rs| - 1], c);
    }
  }

  /**
   * If key `a` comes no later than key `b` in the dictionary's order, every record carrying
   * `b` is preceded (or matched) by a record carrying `a`.
   */
  lemma KeyOrderIsFirstOccurrence(rs: seq<Data>, a: nat, b: nat, i: nat)
    requires a <= b < |DistinctCountries(rs)|
    requires i < |rs| && rs[i].country == Some(DistinctCountries(rs)[b])
    ensures exists k :: 0 <= k <= i && rs[k].country == Some(DistinctCountries(rs)[a])
  {
    var order := DistinctCountries(rs);
    var prefix := rs[..i + 1];
    var seen := DistinctCountries(prefix);
    DistinctCountriesPrefix(rs, i + 1);
    assert prefix[i] == rs[i];
    DistinctCountriesMembers(prefix, order[b]);
    var j :| 0 <= j < |seen| && seen[j] == order[b];
    assert order[j] == order[b];
    assert seen[a] == order[a];
    DistinctCountriesMembers(prefix, order[a]);
    var k :| 0 <= k < |prefix| && prefix[k].country == Some(order[a]);
    assert rs[k] == prefix[k];
  }

  /**
   * `find_most_country_occurence`. `None` stands for the `ValueError` that `max` raises
   * on an empty dictionary, i.e. when no record has a country.
   */
  method FindMostCountryOccurrence(rs: seq<Data>) returns (r: Option<string>)
    ensures r.None? <==> forall i :: 0 <= i < |rs| ==> !HasCountry(rs[i])
    ensures r.Some? ==> r.value != "" && exists i :: 0 <= i < |rs| && rs[i].country == Some(r.value)
    ensures r.Some? ==> forall i :: 0 <= i < |rs| && HasCountry(rs[i]) ==>
      CountOf(rs, rs[i].country.value) <= CountOf(rs, r.value)
    ensures r.Some? ==> forall i ::
      (0 <= i < |rs| && HasCountry(rs[i]) && CountOf(rs, rs[i].country.value) == CountOf(rs, r.value)) ==>
        exists k :: 0 <= k <= i && rs[k].country == Some(r.value)
  {
    var countries, keys := CountCountries(rs);
    if keys == [] {
      forall i | 0 <= i < |rs| ensures !HasCountry(rs[i]) {
        if HasCountry(rs[i]) {
          DistinctCountriesMembers(rs, rs[i].country.value);
        }
      }
      return None;
    }
    var best := MaxByCount(keys, countries);
    var winner := keys[best];
    r := Some(winner);
    DistinctCountriesMembers(rs, winner);
    forall i | 0 <= i < |rs| && HasCountry(rs[i])
      ensures CountOf(rs, rs[i].country.value) <= CountOf(rs, winner)
      ensures CountOf(rs, rs[i].country.value) == CountOf(rs, winner) ==>
        exists k :: 0 <= k <= i && rs[k].country == Some(winner)
    {
      var c := rs[i].country.value;
      DistinctCountriesMembers(rs, c);
      var b :| 0 <= b < |keys| && keys[b] == c;
      if CountOf(rs, c) == CountOf(rs, winner) {
        KeyOrderIsFirstOccurrence(rs, best, b, i);
      }
    }
  }

  /**
   * The counting loop of `find_most_country_occurence`: builds the dictionary `countries`,
   * returned as its entries and its keys in insertion order.
   */
  method CountCountries(rs: seq<Data>) returns (countries: map<string, nat>, keys: seq<string>)
    ensures keys == DistinctCountries(rs)
    ensures forall c :: c in countries <==> c in keys
    ensures forall c :: c in countries ==> countries[c] == CountOf(rs, c)
  {
    countries, keys := map[], [];
    var i := 0;
    while i < |rs|
      invariant 0 <= i <= |rs|
      invariant keys == DistinctCountries(rs[..i])
      invariant forall c :: c in countries <==> c in keys
      invariant forall c :: c in countries ==> countries[c] == CountOf(rs[..i], c)
    {
      var data := rs[i];
      assert rs[..i + 1][..i] == rs[..i];
      if data.country.Some? && data.country.value != "" {
        var c := data.country.value;
        if c in countries {
          countries := countries[c := countries[c] + 1];
        } else {
          CountOfAbsent(rs[..i], c);
          countries := countries[c := 1];
          keys := keys + [c];
        }
      }
      i := i + 1;
    }
    assert rs[..i] == rs;
  }

  /**
   * `max(keys, key=counts.get)`: the position of the first key whose count is the largest.
   */
  method MaxByCount(keys: seq<string>, counts: map<string, nat>) returns (best: nat)
    requires keys != []
    requires forall j :: 0 <= j < |keys| ==> keys[j] in counts
    ensures best < |keys|
    ensures forall j :: 0 <= j < |keys| ==> counts[keys[j]] <= counts[keys[best]]
    ensures forall j :: 0 <= j < best ==> counts[keys[j]] < counts[keys[best]]
  {
    best := 0;
    var j := 1;
    while j < |keys|
      invariant best < j <= |keys|
      invariant forall k :: 0 <= k < j ==> counts[keys[k]] <= counts[keys[best]]
      invariant forall k :: 0 <= k < best ==> counts[keys[k]] < counts[keys[best]]
    {
      if counts[keys[j]] > counts[keys[best]] {
        best := j;
      }
      j := j + 1;
    }
  }
}
