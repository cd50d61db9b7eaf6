/**
  The environment-variable list given on the command line as repeated
  `KEY=VALUE` entries: its parser, and the JSON value the parsed list
  becomes when it is stored in a container definition.
*/
module Environment {
  import opened Strings
  import opened Errors
  import opened Document

  datatype EnvVar = EnvVar(name: string, value: string)

  /** `v` is the pair that `entry` spells as NAME=VALUE, with a single '='. */
  predicate Spells(entry: string, v: EnvVar)
  {
    entry == v.name + "=" + v.value && '=' !in v.name && '=' !in v.value
  }

  /** An entry spells at most one pair. */
  lemma SpelledPairIsUnique(entry: string, v: EnvVar, w: EnvVar)
    requires Spells(entry, v) && Spells(entry, w)
    ensures v == w
  {
    SplitPair(v.name, v.value, '=');
    SplitPair(w.name, w.value, '=');
  }

  /**
    Parses the entries in order. Each must split on '=' into exactly two
    parts; the first entry that does not aborts the whole parse, and no
    partial list is returned. Duplicate names are all kept.
  */
  method ToEnvironmentVariables(entries: seq<string>) returns (r: Result<seq<EnvVar>>)
    ensures r.Success? <==> forall i :: 0 <= i < |entries| ==> Count(entries[i], '=') == 1
    ensures r.Success? ==> |r.value| == |entries|
    ensures r.Success? ==> forall i :: 0 <= i < |entries| ==> Spells(entries[i], r.value[i])
    ensures r.Failure? ==>
              exists k :: 0 <= k < |entries| && Count(entries[k], '=') != 1 &&
                          (forall j :: 0 <= j < k ==> Count(entries[j], '=') == 1) &&
                          r.error == BadEnvFormat(entries[k])
  {
    var vars: seq<EnvVar> := [];
    var i := 0;
    while i < |entries|
      invariant 0 <= i <= |entries|
      invariant |vars| == i
      invariant forall j :: 0 <= j < i ==> Count(entries[j], '=') == 1
      invariant forall j :: 0 <= j < i ==> Spells(entries[j], vars[j])
    {
      var parts := Split(entries[i], '=');
      if |parts| != 2 {
        return Failure(BadEnvFormat(entries[i]));
      }
      JoinSplit(entries[i], '=');
      assert Join(parts, '=') == parts[0] + "=" + Join(parts[1..], '=');
      vars := vars + [EnvVar(parts[0], parts[1])];
      i := i + 1;
    }
    return Success(vars);
  }

  /** One variable as the JSON object {"name": ..., "value": ...}. */
  function EnvVarJson(v: EnvVar): JVal
  {
    JObj(map["name" := JStr(v.name), "value" := JStr(v.value)])
  }

  /** One name/value object per variable, in order. */
  function EnvVarsJson(vars: seq<EnvVar>): (items: seq<JVal>)
    ensures |items| == |vars|
    ensures forall i :: 0 <= i < |vars| ==> items[i] == EnvVarJson(vars[i])
  {
    if vars == [] then [] else [EnvVarJson(vars[0])] + EnvVarsJson(vars[1..])
  }

  /**
    The JSON value of the `environment` field after replacement. The parser
    builds its list by appending to an unset slice, so an empty list is a nil
    slice, which encodes as null; any other list encodes as an array of
    name/value objects in order.
  */
  function EnvironmentJson(vars: seq<EnvVar>): (j: JVal)
    ensures j == JNull <==> vars == []
    ensures vars != [] ==> j.JArr? && |j.arr| == |vars|
    ensures vars != [] ==> forall i :: 0 <= i < |vars| ==> j.arr[i] == EnvVarJson(vars[i])
  {
    if vars == [] then JNull else JArr(EnvVarsJson(vars))
  }

  /** Reads a list of variables back from its JSON value; None if it is not of that form. */
  function EnvironmentFromJson(j: JVal): Option<seq<EnvVar>>
  {
    match j
    case JNull => Some([])
    case JArr(items) => EnvVarsFromJson(items)
    case _ => None
  }

  function EnvVarsFromJson(items: seq<JVal>): Option<seq<EnvVar>>
  {
    if items == [] then Some([])
    else if HasString(items[0], "name") && HasString(items[0], "value") then
      match EnvVarsFromJson(items[1..])
      case Some(rest) => Some([EnvVar(items[0].obj["name"].str, items[0].obj["value"].str)] + rest)
      case None => None
    else None
  }

  /** The stored environment value reads back as exactly the list that was stored. */
  lemma {:induction false} EnvironmentRoundTrip(vars: seq<EnvVar>)
    ensures EnvironmentFromJson(EnvironmentJson(vars)) == Some(vars)
  {
    if vars != [] {
      EnvVarsRoundTrip(vars);
    }
  }

  lemma {:induction false} EnvVarsRoundTrip(vars: seq<EnvVar>)
    ensures EnvVarsFromJson(EnvVarsJson(vars)) == Some(vars)
  {
    if vars != [] {
      EnvVarsRoundTrip(vars[1..]);
      var items := EnvVarsJson(vars);
      assert items[1..] == EnvVarsJson(vars[1..]);
      assert [vars[0]] + vars[1..] == vars;
    }
  }
}
