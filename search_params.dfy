/** A URL's query parameters as `URLSearchParams` keeps them: an ordered list of name/value
    pairs, where `set` overwrites the first pair of that name and drops the others, `delete`
    drops every pair of that name and `get` reads the first. Percent-encoding is not part of
    this model. */
module SearchParams {
  import opened Wrappers
  import opened Strings

  type Params = seq<(string, string)>

  predicate Has(ps: Params, name: string) {
    exists k :: 0 <= k < |ps| && ps[k].0 == name
  }

  /** `params.get(name)`: the value of the first pair of that name, `None` for `null`. */
  function Get(ps: Params, name: string): (r: Option<string>)
    ensures r.Some? <==> Has(ps, name)
  {
    if ps == [] then None
    else if ps[0].0 == name then Some(ps[0].1)
    else
      var r := Get(ps[1..], name);
      assert forall k :: 0 <= k < |ps| - 1 ==> ps[1..][k] == ps[k + 1];
      r
  }

  /** `params.delete(name)`. */
  function Delete(ps: Params, name: string): (r: Params)
    ensures forall k :: 0 <= k < |r| ==> r[k].0 != name
    ensures |r| <= |ps|
  {
    if ps == [] then []
    else if ps[0].0 == name then Delete(ps[1..], name)
    else [ps[0]] + Delete(ps[1..], name)
  }

  /** `params.set(name, value)`. */
  function Set(ps: Params, name: string, value: string): (r: Params)
  {
    if ps == [] then [(name, value)]
    else if ps[0].0 == name then [(name, value)] + Delete(ps[1..], name)
    else [ps[0]] + Set(ps[1..], name, value)
  }

  /** After `delete`, the name is gone and every other name reads as before. */
  lemma {:induction false} GetDelete(ps: Params, name: string, other: string)
    ensures Get(Delete(ps, name), name) == None
    ensures other != name ==> Get(Delete(ps, name), other) == Get(ps, other)
    decreases |ps|
  {
    if ps != [] {
      GetDelete(ps[1..], name, other);
    }
  }

  /** After `set`, the name reads as the new value and every other name as before. */
  lemma {:induction false} GetSet(ps: Params, name: string, value: string, other: string)
    ensures Get(Set(ps, name, value), name) == Some(value)
    ensures other != name ==> Get(Set(ps, name, value), other) == Get(ps, other)
    decreases |ps|
  {
    if ps != [] {
      if ps[0].0 == name {
        GetDelete(ps[1..], name, other);
      } else {
        GetSet(ps[1..], name, value, other);
      }
    }
  }

  /** `set` leaves a single pair of that name. */
  lemma {:induction false} SetLeavesOnePair(ps: Params, name: string, value: string)
    ensures exists k ::
      && 0 <= k < |Set(ps, name, value)| && Set(ps, name, value)[k] == (name, value)
      && (forall j :: 0 <= j < |Set(ps, name, value)| && j != k ==> Set(ps, name, value)[j].0 != name)
    decreases |ps|
  {
    var r := Set(ps, name, value);
    if ps == [] {
      assert r[0] == (name, value);
    } else if ps[0].0 == name {
      assert r[0] == (name, value);
      assert forall j :: 1 <= j < |r| ==> r[j] == Delete(ps[1..], name)[j - 1];
    } else {
      SetLeavesOnePair(ps[1..], name, value);
      var rest := Set(ps[1..], name, value);
      var k :|
        && 0 <= k < |rest| && rest[k] == (name, value)
        && (forall j :: 0 <= j < |rest| && j != k ==> rest[j].0 != name);
      assert r[k + 1] == (name, value);
      assert forall j :: 1 <= j < |r| ==> r[j] == rest[j - 1];
    }
  }

  /** `set(name, v)` for a value, `delete(name)` for none: the source's
      `if (…) params.set(…) else params.delete(…)`. */
  function SetOrDelete(ps: Params, name: string, v: Option<string>): Params {
    match v
    case Some(value) => Set(ps, name, value)
    case None => Delete(ps, name)
  }

  /** After `SetOrDelete`, the name reads as the given value or as absent, and every other
      name as before. */
  lemma GetSetOrDelete(ps: Params, name: string, v: Option<string>, other: string)
    ensures Get(SetOrDelete(ps, name, v), name) == v
    ensures other != name ==> Get(SetOrDelete(ps, name, v), other) == Get(ps, other)
  {
    if v.Some? {
      GetSet(ps, name, v.value, other);
    } else {
      GetDelete(ps, name, other);
    }
  }

  /** `params.toString()`, without percent-encoding: `name=value` pairs joined by `&`. */
  function ToQueryString(ps: Params): string {
    if ps == [] then ""
    else Join(seq(|ps|, k requires 0 <= k < |ps| => ps[k].0 + "=" + ps[k].1), "&")
  }

  /** A query with one pair reads `name=value`. */
  lemma OnePairQuery(name: string, value: string)
    ensures ToQueryString(Set([], name, value)) == name + "=" + value
  {
    assert Set([], name, value) == [(name, value)];
  }
}
