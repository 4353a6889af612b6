/**
 * JSON values as `json.loads` produces them. An object keeps its members in
 * insertion order, as a Python `dict` does, so it is an association list.
 */
module JsonValues {
  import opened Wrappers

  datatype Json =
    | JNull
    | JBool(b: bool)
    | JNumber(n: int)
    | JString(str: string)
    | JArray(items: seq<Json>)
    | JObject(fields: seq<(string, Json)>)

  /** The keys of an object, in order. */
  function Keys(fields: seq<(string, Json)>): (ks: seq<string>)
    ensures |ks| == |fields|
    ensures forall i :: 0 <= i < |fields| ==> ks[i] == fields[i].0
  {
    if fields == [] then [] else [fields[0].0] + Keys(fields[1..])
  }

  /** `d.get(key)`: the value bound to `key`, if there is one. */
  function Lookup(fields: seq<(string, Json)>, key: string): (r: Option<Json>)
    ensures r.None? <==> key !in Keys(fields)
  {
    if fields == [] then None
    else if fields[0].0 == key then Some(fields[0].1)
    else
      assert Keys(fields) == [fields[0].0] + Keys(fields[1..]);
      Lookup(fields[1..], key)
  }

  /** Looking a key up in `[member] + rest` looks at `member` first. */
  lemma LookupCons(member: (string, Json), rest: seq<(string, Json)>, key: string)
    ensures Lookup([member] + rest, key) == if member.0 == key then Some(member.1) else Lookup(rest, key)
  {
    assert ([member] + rest)[1..] == rest;
  }

  /**
   * `d[key] = value` on a dict: an existing key keeps its place and takes the
   * new value; a new key is appended at the end. SetKeyFacts states what
   * every key then maps to.
   */
  function SetKey(fields: seq<(string, Json)>, key: string, value: Json): seq<(string, Json)> {
    if fields == [] then [(key, value)]
    else if fields[0].0 == key then [(key, value)] + fields[1..]
    else [fields[0]] + SetKey(fields[1..], key, value)
  }

  /** After the assignment `key` maps to the new value and every other key to what it mapped to before. */
  lemma {:induction false} SetKeyLookup(fields: seq<(string, Json)>, key: string, value: Json, k: string)
    ensures Lookup(SetKey(fields, key, value), k) == if k == key then Some(value) else Lookup(fields, k)
    decreases |fields|
  {
    if fields == [] {
      LookupCons((key, value), [], k);
    } else if fields[0].0 == key {
      LookupCons((key, value), fields[1..], k);
      LookupCons(fields[0], fields[1..], k);
      assert fields == [fields[0]] + fields[1..];
    } else {
      SetKeyLookup(fields[1..], key, value, k);
      LookupCons(fields[0], SetKey(fields[1..], key, value), k);
      LookupCons(fields[0], fields[1..], k);
      assert fields == [fields[0]] + fields[1..];
    }
  }

  /** The assignment keeps the key order, and appends `key` when it is new. */
  lemma {:induction false} SetKeyKeys(fields: seq<(string, Json)>, key: string, value: Json)
    ensures Keys(SetKey(fields, key, value)) == if key in Keys(fields) then Keys(fields) else Keys(fields) + [key]
    decreases |fields|
  {
    if fields != [] {
      var rest := fields[1..];
      KeysCons(fields[0], rest);
      assert fields == [fields[0]] + rest;
      if fields[0].0 == key {
        KeysCons((key, value), rest);
      } else {
        SetKeyKeys(rest, key, value);
        KeysCons(fields[0], SetKey(rest, key, value));
        ConsThenAppend(key, Keys(rest), fields[0].0);
      }
    }
  }

  /** The keys of `[member] + rest` are the member's key followed by the keys of `rest`. */
  lemma KeysCons(member: (string, Json), rest: seq<(string, Json)>)
    ensures Keys([member] + rest) == [member.0] + Keys(rest)
  {
    assert ([member] + rest)[1..] == rest;
  }

  /** Membership and appending commute with putting an element in front. */
  lemma ConsThenAppend<T>(y: T, t: seq<T>, x: T)
    ensures y in [x] + t <==> y == x || y in t
    ensures [x] + (t + [y]) == ([x] + t) + [y]
  {
  }

  /** Everything the assignment promises, for every key at once. */
  lemma SetKeyFacts(fields: seq<(string, Json)>, key: string, value: Json)
    ensures Lookup(SetKey(fields, key, value), key) == Some(value)
    ensures forall k :: k != key ==> Lookup(SetKey(fields, key, value), k) == Lookup(fields, k)
    ensures Keys(SetKey(fields, key, value)) == if key in Keys(fields) then Keys(fields) else Keys(fields) + [key]
  {
    SetKeyLookup(fields, key, value, key);
    forall k | k != key
      ensures Lookup(SetKey(fields, key, value), k) == Lookup(fields, k)
    {
      SetKeyLookup(fields, key, value, k);
    }
    SetKeyKeys(fields, key, value);
  }

  /** Assigning a key the object does not have appends it as the last member. */
  lemma {:induction false} SetKeyAppends(fields: seq<(string, Json)>, key: string, value: Json)
    requires key !in Keys(fields)
    ensures SetKey(fields, key, value) == fields + [(key, value)]
    decreases |fields|
  {
    if fields != [] {
      var rest := fields[1..];
      KeysCons(fields[0], rest);
      assert fields == [fields[0]] + rest;
      ConsThenAppend(key, Keys(rest), fields[0].0);
      SetKeyAppends(rest, key, value);
      ConsThenAppend((key, value), rest, fields[0]);
    }
  }

  /** No key occurs twice, as in every Python dict. */
  predicate DistinctKeys(fields: seq<(string, Json)>) {
    var ks := Keys(fields);
    forall i, j :: 0 <= i < j < |ks| ==> ks[i] != ks[j]
  }

  /** Assigning a key keeps the keys of a dict distinct. */
  lemma SetKeyKeepsDistinct(fields: seq<(string, Json)>, key: string, value: Json)
    requires DistinctKeys(fields)
    ensures DistinctKeys(SetKey(fields, key, value))
  {
    SetKeyKeys(fields, key, value);
    var ks := Keys(fields);
    if key !in ks {
      var ks2 := ks + [key];
      forall i, j | 0 <= i < j < |ks2| ensures ks2[i] != ks2[j] {
        if j == |ks| {
          assert ks2[i] == ks[i];
        } else {
          assert ks2[i] == ks[i] && ks2[j] == ks[j];
        }
      }
    }
  }
}
