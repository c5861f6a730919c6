/** The two pure string builders of ZanSql: escaping a value for use in a
    LIKE pattern, and building the `name = :placeholder` list and the
    parameter map of an `insert ... set` / `update ... set` statement. */
module ZanSql {
  import opened Php

  /** The two characters LIKE treats as wildcards. */
  predicate IsLikeWildcard(c: char)
  {
    c == '%' || c == '_'
  }

  const Backslash: char := '\\'

  /** `addcslashes($value, '%_')`: a backslash before every `%` and `_`,
      every other character (a backslash included) copied as it is. */
  function EscapeLikeValue(v: string): (r: string)
    ensures |r| == |v| + Count(v, '%') + Count(v, '_')
    ensures forall k {:trigger IsLikeWildcard(r[k])} :: 0 <= k < |r| && IsLikeWildcard(r[k]) ==> k > 0 && r[k - 1] == Backslash
    ensures r == [] || !IsLikeWildcard(r[0])
  {
    if |v| == 0 then []
    else
      var rest := EscapeLikeValue(v[1..]);
      if IsLikeWildcard(v[0]) then
        var r := [Backslash, v[0]] + rest;
        assert forall k :: 2 <= k < |r| ==> r[k] == rest[k - 2];
        r
      else
        var r := [v[0]] + rest;
        assert forall k :: 1 <= k < |r| ==> r[k] == rest[k - 1];
        r
  }

  /** Drops each backslash that stands right before a wildcard, reading left
      to right: the reading LIKE gives to an escaped wildcard. */
  function UnescapeLike(s: string): string
  {
    if |s| == 0 then []
    else if |s| >= 2 && s[0] == Backslash && IsLikeWildcard(s[1]) then [s[1]] + UnescapeLike(s[2..])
    else [s[0]] + UnescapeLike(s[1..])
  }

  /** Escaping loses nothing: unescaping gives the value back. */
  lemma {:induction false} UnescapeEscape(v: string)
    ensures UnescapeLike(EscapeLikeValue(v)) == v
  {
    if |v| > 0 {
      var rest := EscapeLikeValue(v[1..]);
      UnescapeEscape(v[1..]);
      if IsLikeWildcard(v[0]) {
        var r := [Backslash, v[0]] + rest;
        assert r[2..] == rest;
      } else {
        var r := [v[0]] + rest;
        assert r[1..] == rest;
      }
      assert v == [v[0]] + v[1..];
    }
  }

  /** A value without wildcards is left as it is. */
  lemma {:induction false} EscapeLikeNoWildcard(v: string)
    requires '%' !in v && '_' !in v
    ensures EscapeLikeValue(v) == v
  {
    if |v| > 0 {
      assert v == [v[0]] + v[1..];
      EscapeLikeNoWildcard(v[1..]);
    }
  }

  /** `escapeLikeParameter($value, $prefix, $postfix)`: the escaped value
      between the prefix and the postfix (both `%` unless given). */
  function EscapeLikeParameter(value: string, prefix: string := "%", postfix: string := "%"): (r: string)
    ensures IsPrefix(prefix, r) && IsSuffix(postfix, r)
    ensures |r| == |prefix| + |value| + Count(value, '%') + Count(value, '_') + |postfix|
    ensures UnescapeLike(r[|prefix|..|r| - |postfix|]) == value
  {
    var e := EscapeLikeValue(value);
    var r := prefix + e + postfix;
    assert r[..|prefix|] == prefix;
    assert r[|r| - |postfix|..] == postfix;
    assert r[|prefix|..|r| - |postfix|] == e;
    UnescapeEscape(value);
    r
  }

  /** The placeholder names carry this prefix. The doc comment of the source
      shows `setValue_`, the code uses `setField_`. */
  const ParameterPrefix := "setField_"

  /** One part of the generated list: `name = :setField_name`. */
  function SetPart(name: string): string
  {
    name + " = :" + ParameterPrefix + name
  }

  /** What the builder returns: the joined parts and the parameters. */
  datatype SetInfo<V> = SetInfo(query: string, parameters: map<string, V>)

  function SetParts<V>(fields: seq<(string, V)>): (parts: seq<string>)
    ensures |parts| == |fields|
    ensures forall i :: 0 <= i < |fields| ==> parts[i] == SetPart(fields[i].0)
  {
    if |fields| == 0 then [] else [SetPart(fields[0].0)] + SetParts(fields[1..])
  }

  /** Prefixing keeps names apart. */
  lemma KeyInjective(a: string, b: string)
    requires ParameterPrefix + a == ParameterPrefix + b
    ensures a == b
  {
    assert a == (ParameterPrefix + a)[|ParameterPrefix|..];
    assert b == (ParameterPrefix + b)[|ParameterPrefix|..];
  }

  /** The parameter map after assigning the fields in order, as the loop of
      the source does it (a later equal key would overwrite, but PHP array
      keys are distinct). */
  function Parameters<V>(fields: seq<(string, V)>): map<string, V>
  {
    if |fields| == 0 then map[]
    else
      var last := fields[|fields| - 1];
      Parameters(fields[..|fields| - 1])[ParameterPrefix + last.0 := last.1]
  }

  /** `m` holds exactly one entry per field: `setField_` + name to value. */
  ghost predicate Binds<V>(m: map<string, V>, fields: seq<(string, V)>)
  {
    && |m| == |fields|
    && (forall i :: 0 <= i < |fields| ==>
          ParameterPrefix + fields[i].0 in m && m[ParameterPrefix + fields[i].0] == fields[i].1)
    && (forall key :: key in m ==>
          exists i :: 0 <= i < |fields| && key == ParameterPrefix + fields[i].0)
  }

  /** Binding one more field under a fresh key. */
  lemma BindSnoc<V>(m: map<string, V>, init: seq<(string, V)>, name: string, value: V)
    requires Binds(m, init) && ParameterPrefix + name !in m
    ensures Binds(m[ParameterPrefix + name := value], init + [(name, value)])
  {
    var key := ParameterPrefix + name;
    var p := m[key := value];
    var fields := init + [(name, value)];
    forall i | 0 <= i < |fields|
      ensures ParameterPrefix + fields[i].0 in p && p[ParameterPrefix + fields[i].0] == fields[i].1
    {
      if i < |init| {
        assert fields[i] == init[i];
      }
    }
    forall k | k in p
      ensures exists i :: 0 <= i < |fields| && k == ParameterPrefix + fields[i].0
    {
      if k == key {
        assert k == ParameterPrefix + fields[|init|].0;
      } else {
        var i :| 0 <= i < |init| && k == ParameterPrefix + init[i].0;
        assert fields[i] == init[i];
      }
    }
  }

  /** A name no earlier field has is not yet bound. */
  lemma FreshKey<V>(m: map<string, V>, init: seq<(string, V)>, name: string)
    requires Binds(m, init)
    requires forall i :: 0 <= i < |init| ==> init[i].0 != name
    ensures ParameterPrefix + name !in m
  {
    var key := ParameterPrefix + name;
    if key in m {
      var i :| 0 <= i < |init| && key == ParameterPrefix + init[i].0;
      KeyInjective(name, init[i].0);
      assert false;
    }
  }

  /** Dropping the last field keeps names distinct, and the last name is new. */
  lemma DistinctSnoc<V>(init: seq<(string, V)>, last: (string, V))
    requires DistinctKeys(init + [last])
    ensures DistinctKeys(init)
    ensures forall i :: 0 <= i < |init| ==> init[i].0 != last.0
  {
    var fields := init + [last];
    forall i | 0 <= i < |init|
      ensures init[i].0 != last.0
    {
      assert fields[i] == init[i] && fields[|init|] == last;
    }
    forall i, j | 0 <= i < j < |init|
      ensures init[i].0 != init[j].0
    {
      assert fields[i] == init[i] && fields[j] == init[j];
    }
  }

  /** With distinct names the parameter map binds every field and nothing else. */
  lemma {:induction false} ParametersBind<V>(fields: seq<(string, V)>)
    requires DistinctKeys(fields)
    ensures Binds(Parameters(fields), fields)
  {
    if |fields| > 0 {
      var n := |fields| - 1;
      var init := fields[..n];
      var last := fields[n];
      assert fields == init + [(last.0, last.1)];
      var m := Parameters(init);
      assert Parameters(fields) == m[ParameterPrefix + last.0 := last.1];
      DistinctSnoc(init, last);
      ParametersBind(init);
      FreshKey(m, init, last.0);
      BindSnoc(m, init, last.0, last.1);
    }
  }

  /** `Binds` spelled out. */
  lemma BindsAll<V>(m: map<string, V>, fields: seq<(string, V)>)
    requires Binds(m, fields)
    ensures |m| == |fields|
    ensures forall i :: 0 <= i < |fields| ==>
              ParameterPrefix + fields[i].0 in m && m[ParameterPrefix + fields[i].0] == fields[i].1
    ensures forall key :: key in m ==>
              exists i :: 0 <= i < |fields| && key == ParameterPrefix + fields[i].0
  {
  }

  lemma SetPartsSnoc<V>(fields: seq<(string, V)>, n: nat)
    requires n < |fields|
    ensures SetParts(fields[..n + 1]) == SetParts(fields[..n]) + [SetPart(fields[n].0)]
  {
  }

  /** `buildSetInfoFromMap($fields, $extraQueryParts)`. */
  method BuildSetInfoFromMap<V>(fields: seq<(string, V)>, extraQueryParts: seq<string> := [])
    returns (info: SetInfo<V>)
    requires DistinctKeys(fields)
    ensures info.query == Join(", ", extraQueryParts + SetParts(fields))
    ensures |info.parameters| == |fields|
    ensures forall i :: 0 <= i < |fields| ==>
              ParameterPrefix + fields[i].0 in info.parameters &&
              info.parameters[ParameterPrefix + fields[i].0] == fields[i].1
    ensures forall key :: key in info.parameters ==>
              exists i :: 0 <= i < |fields| && key == ParameterPrefix + fields[i].0
    ensures fields == [] && extraQueryParts == [] ==> info.query == "" && info.parameters == map[]
  {
    var queryParts := extraQueryParts;
    var parameters: map<string, V> := map[];
    var n := 0;
    while n < |fields|
      invariant 0 <= n <= |fields|
      invariant queryParts == extraQueryParts + SetParts(fields[..n])
      invariant parameters == Parameters(fields[..n])
    {
      var (name, value) := fields[n];
      SetPartsSnoc(fields, n);
      assert fields[..n + 1][..n] == fields[..n];
      queryParts := queryParts + [SetPart(name)];
      parameters := parameters[ParameterPrefix + name := value];
      n := n + 1;
    }
    assert fields[..n] == fields;
    ParametersBind(fields);
    BindsAll(parameters, fields);
    info := SetInfo(Join(", ", queryParts), parameters);
  }
}
