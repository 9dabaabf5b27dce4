/** The manifest step, `load_manifest`: the parsed JSON object is updated in
    place with the build timestamp and, optionally, a version. */
module Manifest {
  import opened Wrappers
  import opened Errors

  /** A parsed JSON value; numbers are modelled as integers. */
  datatype JsonValue =
    | JNull
    | JBool(b: bool)
    | JNumber(n: int)
    | JString(s: string)
    | JArray(items: seq<JsonValue>)
    | JObject(fields: seq<(string, JsonValue)>)

  /** The members of a JSON object in insertion order, as a Python `dict` keeps them. */
  type Fields = seq<(string, JsonValue)>

  function Keys(f: Fields): seq<string> {
    if f == [] then [] else [f[0].0] + Keys(f[1..])
  }

  predicate DistinctKeys(f: Fields) {
    f == [] || (f[0].0 !in Keys(f[1..]) && DistinctKeys(f[1..]))
  }

  /** `d.get(key)`. */
  function Lookup(f: Fields, key: string): Option<JsonValue> {
    if f == [] then None
    else if f[0].0 == key then Some(f[0].1)
    else Lookup(f[1..], key)
  }

  /** Python's `d[key] = value`: a present key keeps its position and takes
      the new value; an absent key is appended at the end. */
  function Assign(f: Fields, key: string, value: JsonValue): (r: Fields)
    ensures Keys(r) == if key in Keys(f) then Keys(f) else Keys(f) + [key]
    ensures forall k :: Lookup(r, k) == if k == key then Some(value) else Lookup(f, k)
    ensures DistinctKeys(f) ==> DistinctKeys(r)
  {
    if f == [] then [(key, value)]
    else if f[0].0 == key then [(key, value)] + f[1..]
    else [f[0]] + Assign(f[1..], key, value)
  }

  /** Python's truth value of the `str | None` override: set and non-empty. */
  predicate Truthy(version: Option<string>) {
    version.Some? && version.value != ""
  }

  /** The object `load_manifest` serialises: `mod` set to the timestamp,
      `version` set only for a truthy override, everything else as it was. */
  function Mutated(f: Fields, now: int, version: Option<string>): (r: Fields)
    ensures Lookup(r, "mod") == Some(JNumber(now))
    ensures Lookup(r, "version") == if Truthy(version) then Some(JString(version.value)) else Lookup(f, "version")
    ensures forall k :: k != "mod" && k != "version" ==> Lookup(r, k) == Lookup(f, k)
    ensures Keys(r) == Keys(f) + (if "mod" in Keys(f) then [] else ["mod"])
                               + (if Truthy(version) && "version" !in Keys(f) then ["version"] else [])
    ensures DistinctKeys(f) ==> DistinctKeys(r)
  {
    var m := Assign(f, "mod", JNumber(now));
    if Truthy(version) then Assign(m, "version", JString(version.value)) else m
  }

  /** The Python `dict` that `json.loads` returns for the manifest. */
  class Dict {
    var items: Fields

    ghost predicate Valid()
      reads this
    {
      DistinctKeys(items)
    }

    constructor (fields: Fields)
      requires DistinctKeys(fields)
      ensures Valid() && items == fields
    {
      items := fields;
    }

    /** `self[key] = value`. */
    method SetItem(key: string, value: JsonValue)
      requires Valid()
      modifies this
      ensures Valid() && items == Assign(old(items), key, value)
    {
      items := Assign(items, key, value);
    }
  }

  /** `load_manifest`. `found` is what `manifest_path.exists()` answers;
      `parsed` is what `json.loads` makes of the text, `None` when the text
      is not JSON; `now` is `int(time.time())`. */
  method LoadManifest(path: string, found: bool, parsed: Option<JsonValue>, now: int, version: Option<string>)
    returns (r: Result<Fields, Error>)
    requires found && parsed.Some? && parsed.value.JObject? ==> DistinctKeys(parsed.value.fields)
    ensures !found ==> r == Err(ManifestNotFound(path))
    ensures found && parsed.None? ==> r == Err(MalformedManifest)
    ensures found && parsed.Some? && !parsed.value.JObject? ==> r == Err(NotAnObject)
    ensures found && parsed.Some? && parsed.value.JObject? ==> r == Ok(Mutated(parsed.value.fields, now, version))
    ensures r.Ok? ==> Lookup(r.value, "mod") == Some(JNumber(now)) && DistinctKeys(r.value)
  {
    if !found {
      return Err(ManifestNotFound(path));
    }
    if parsed.None? {
      return Err(MalformedManifest);
    }
    if !parsed.value.JObject? {
      return Err(NotAnObject);
    }
    var data := new Dict(parsed.value.fields);
    data.SetItem("mod", JNumber(now));
    if Truthy(version) {
      data.SetItem("version", JString(version.value));
    }
    return Ok(data.items);
  }

  /** Without a truthy override the `version` member is left alone: kept
      where it is, or still absent. */
  lemma VersionUntouched(f: Fields, now: int, version: Option<string>)
    requires !Truthy(version)
    ensures Lookup(Mutated(f, now, version), "version") == Lookup(f, "version")
    ensures "version" in Keys(Mutated(f, now, version)) <==> "version" in Keys(f)
  {
  }

  /** Setting a key to the value it already has changes nothing. */
  lemma {:induction false} AssignPresent(f: Fields, key: string, value: JsonValue)
    requires Lookup(f, key) == Some(value)
    ensures Assign(f, key, value) == f
  {
    if f[0].0 != key {
      AssignPresent(f[1..], key, value);
    }
  }

  /** Mutating a manifest a second time with the same timestamp and override
      changes nothing more. */
  lemma MutatedIdempotent(f: Fields, now: int, version: Option<string>)
    ensures Mutated(Mutated(f, now, version), now, version) == Mutated(f, now, version)
  {
    var r := Mutated(f, now, version);
    AssignPresent(r, "mod", JNumber(now));
    if Truthy(version) {
      AssignPresent(r, "version", JString(version.value));
    }
  }

  /** The template `{"name": "X", "version": "1.0", "mod": 0}` with override
      `2.0` becomes `{"name": "X", "version": "2.0", "mod": now}`. */
  lemma TemplateExample(now: int)
    ensures Mutated([("name", JString("X")), ("version", JString("1.0")), ("mod", JNumber(0))], now, Some("2.0"))
         == [("name", JString("X")), ("version", JString("2.0")), ("mod", JNumber(now))]
  {
    var t := [("name", JString("X")), ("version", JString("1.0")), ("mod", JNumber(0))];
    var m := [("name", JString("X")), ("version", JString("1.0")), ("mod", JNumber(now))];
    assert t[1..][1..][0].0 == "mod";
    assert Assign(t[1..][1..], "mod", JNumber(now)) == m[1..][1..];
    assert Assign(t, "mod", JNumber(now)) == m;
    assert Truthy(Some("2.0"));
    assert m[1..][0].0 == "version";
    assert Assign(m[1..], "version", JString("2.0")) == [("version", JString("2.0")), ("mod", JNumber(now))];
  }
}
