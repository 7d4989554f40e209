/**
 The generic-map builder of a plain-path add or replace: a scalar or list value
 at `a.b.c` becomes `{a: {b: {c: value}}}`, and a level whose dotted prefix
 names a multi-valued attribute is wrapped in a one-element list,
 `{emails: [{value: ...}]}`, so the typed conversion sees a collection there.
 */
module GenericMap {
  import opened Wrappers
  import opened Text
  import opened Scim

  /**
   The wrapping test of the builder: the metadata of the prefix exists and is
   multi-valued. Unlike the value-filter branch it does not ask for COMPLEX.
   */
  function IsMultiValued(env: Env, prefix: string): (b: bool)
    ensures b <==> env.meta(prefix) == Some(AttributeMeta(true, false)) || env.meta(prefix) == Some(AttributeMeta(true, true))
  {
    env.meta(prefix).Some? && env.meta(prefix).value.multiValued
  }

  /** Level i of the nesting: `{segs[i]: inner}`, with inner in a one-element list when segs[0..i] is multi-valued. */
  function WrapLevel(env: Env, segs: seq<string>, i: nat, inner: map<string, Value>): map<string, Value>
    requires i < |segs|
  {
    var prefix := JoinDotted(segs[..i + 1]);
    map[segs[i] := if IsMultiValued(env, prefix) then Arr([Obj(inner)]) else Obj(inner)]
  }

  /** The builder's loop: levels n-1 down to 0, each wrapping the map built so far. */
  function WrapFromRight(env: Env, segs: seq<string>, n: nat, inner: map<string, Value>): (r: map<string, Value>)
    requires n <= |segs|
    ensures n == 0 ==> r == inner
    ensures n > 0 ==> r.Keys == {segs[0]}
  {
    if n == 0 then inner
    else WrapFromRight(env, segs, n - 1, WrapLevel(env, segs, n - 1, inner))
  }

  /** Reference: the nesting read outside in, level i enclosing levels i+1 and deeper. */
  function Nest(env: Env, segs: seq<string>, i: nat, inner: map<string, Value>): map<string, Value>
    requires i <= |segs|
    decreases |segs| - i
  {
    if i == |segs| then inner
    else WrapLevel(env, segs, i, Nest(env, segs, i + 1, inner))
  }

  /** The wrapping step, run only when the (possibly trimmed) path is not empty. */
  function WrapPath(env: Env, path: string, inner: map<string, Value>): (r: map<string, Value>)
    ensures path == "" ==> r == inner
    ensures path != "" && |env.splitPath(path)| > 0 ==> r.Keys == {env.splitPath(path)[0]}
  {
    if path == "" then inner
    else
      var segs := env.splitPath(path);
      WrapFromRight(env, segs, |segs|, inner)
  }

  /**
   Builds the generic map of an add or replace. A map value is taken as is and
   wrapped along the whole path; a scalar or list value needs a path, goes under
   its last segment, and is wrapped along the path cut at its last ".".
   */
  function BuildGenericMap(env: Env, path: string, value: Value): (r: Result<map<string, Value>, PatchError>)
    ensures value.Obj? ==> r.Ok?
    ensures !value.Obj? && path == "" ==> r == Err(ValueNotParseable)
    ensures r.Err? ==> !value.Obj? && (r.error == ValueNotParseable || r.error == RuntimeFailure)
    ensures !value.Obj? && path != "" ==>
              (r == Err(RuntimeFailure) <==> |env.splitPath(path)| == 0 || (|env.splitPath(path)| > 1 && '.' !in path))
  {
    if value.Obj? then Ok(WrapPath(env, path, value.fields))
    else if path == "" then Err(ValueNotParseable)
    else
      var segs := env.splitPath(path);
      if |segs| == 0 then Err(RuntimeFailure)            // subPaths[length - 1] throws
      else
        var leaf := map[segs[|segs| - 1] := value];
        if |segs| == 1 then Ok(leaf)
        else
          var dot := LastIndexOf(path, '.');
          if dot < 0 then Err(RuntimeFailure)              // substring(0, -1) throws
          else Ok(WrapPath(env, path[..dot], leaf))
  }

  /** Reading one level back: a map, or a map in a one-element list (flagged true). */
  function Enter(v: Value): Option<(map<string, Value>, bool)>
  {
    match v
    case Obj(m) => Some((m, false))
    case Arr(items) => if |items| == 1 && items[0].Obj? then Some((items[0].fields, true)) else None
    case _ => None
  }

  /**
   Inverse of the nesting: walks single-key maps along segs and returns the innermost
   map together with, per level, whether that level was wrapped in a list.
   */
  function Unnest(m: map<string, Value>, segs: seq<string>): Option<(map<string, Value>, seq<bool>)>
    decreases |segs|
  {
    if |segs| == 0 then Some((m, []))
    else if m.Keys != {segs[0]} then None
    else
      match Enter(m[segs[0]])
      case None => None
      case Some((inner, wrapped)) =>
        match Unnest(inner, segs[1..])
        case None => None
        case Some((core, flags)) => Some((core, [wrapped] + flags))
  }

  /** Per level i, whether the dotted prefix segs[0..i] is multi-valued. */
  function Flags(env: Env, segs: seq<string>): seq<bool>
  {
    seq(|segs|, i requires 0 <= i < |segs| => IsMultiValued(env, JoinDotted(segs[..i + 1])))
  }

  /** The right-to-left loop, started on the levels it has not yet built, ends in the outside-in nesting. */
  lemma {:induction false} LoopBuildsNesting(env: Env, segs: seq<string>, n: nat, inner: map<string, Value>)
    requires n <= |segs|
    ensures WrapFromRight(env, segs, n, Nest(env, segs, n, inner)) == Nest(env, segs, 0, inner)
    decreases n
  {
    if n > 0 {
      LoopBuildsNesting(env, segs, n - 1, inner);
    }
  }

  /** Reading the nesting back along its segments yields the innermost map and exactly the multi-valued flags. */
  lemma {:induction false} NestUnnest(env: Env, segs: seq<string>, i: nat, inner: map<string, Value>)
    requires i <= |segs|
    ensures Unnest(Nest(env, segs, i, inner), segs[i..]) == Some((inner, Flags(env, segs)[i..]))
    decreases |segs| - i
  {
    if i < |segs| {
      NestUnnest(env, segs, i + 1, inner);
      var deeper := Nest(env, segs, i + 1, inner);
      var m := Nest(env, segs, i, inner);
      var wrapped := IsMultiValued(env, JoinDotted(segs[..i + 1]));
      assert m.Keys == {segs[i]};
      assert Enter(m[segs[i]]) == Some((deeper, wrapped));
      assert segs[i..][0] == segs[i];
      assert segs[i..][1..] == segs[i + 1..];
      assert Flags(env, segs)[i] == wrapped;
      var tail := segs[i..];
      assert Unnest(deeper, tail[1..]) == Some((inner, Flags(env, segs)[i + 1..]));
      assert Unnest(m, tail) == Some((inner, [wrapped] + Flags(env, segs)[i + 1..]));
      assert Flags(env, segs)[i..] == [Flags(env, segs)[i]] + Flags(env, segs)[i + 1..];
    } else {
      assert segs[i..] == [];
      assert |Flags(env, segs)| == |segs|;
      assert Flags(env, segs)[i..] == [];
      assert Nest(env, segs, i, inner) == inner;
    }
  }

  /**
   The wrapping step round-trips: along the segments of a non-empty path the built map
   holds the original map, and the levels wrapped in a list are exactly the
   multi-valued prefixes.
   */
  lemma WrapPathRoundTrip(env: Env, path: string, inner: map<string, Value>)
    requires path != ""
    ensures Unnest(WrapPath(env, path, inner), env.splitPath(path)) == Some((inner, Flags(env, env.splitPath(path))))
  {
    var segs := env.splitPath(path);
    LoopBuildsNesting(env, segs, |segs|, inner);
    NestUnnest(env, segs, 0, inner);
    assert segs[0..] == segs;
  }

  /** A map value with an empty path is the generic map itself; with a path it is nested along all of it. */
  lemma BuildMapValue(env: Env, path: string, m: map<string, Value>)
    ensures path == "" ==> BuildGenericMap(env, path, Obj(m)) == Ok(m)
    ensures path != "" ==>
              BuildGenericMap(env, path, Obj(m)).Ok? &&
              Unnest(BuildGenericMap(env, path, Obj(m)).value, env.splitPath(path)) == Some((m, Flags(env, env.splitPath(path))))
  {
    if path != "" {
      WrapPathRoundTrip(env, path, m);
    }
  }

  /** A scalar or list value at a one-segment path is the single-entry map `{segment: value}`. */
  lemma BuildSingleSegment(env: Env, path: string, value: Value)
    requires !value.Obj? && path != "" && |env.splitPath(path)| == 1
    ensures BuildGenericMap(env, path, value) == Ok(map[env.splitPath(path)[0] := value])
  {
  }

  /**
   A scalar or list value at a dotted path: when the path cut at its last "." splits
   into the segments before the last one, the built map holds `{last: value}` along
   those segments, wrapped exactly at the multi-valued prefixes.
   */
  lemma BuildScalarRoundTrip(env: Env, path: string, value: Value)
    requires !value.Obj? && |env.splitPath(path)| >= 2 && '.' in path
    requires var p := path[..LastIndexOf(path, '.')];
             var segs := env.splitPath(path);
             p != "" && env.splitPath(p) == segs[..|segs| - 1]
    ensures var segs := env.splitPath(path);
            var outer := segs[..|segs| - 1];
            var r := BuildGenericMap(env, path, value);
            r.Ok? && Unnest(r.value, outer) == Some((map[segs[|segs| - 1] := value], Flags(env, outer)))
  {
    var segs := env.splitPath(path);
    var p := path[..LastIndexOf(path, '.')];
    assert path != "";
    WrapPathRoundTrip(env, p, map[segs[|segs| - 1] := value]);
  }

  /**
   The prefix is cut at the last "." of the raw path, not rebuilt from the segments:
   with a splitter that keeps the extension URN `urn:x:2.0:User` as one segment, the
   path `urn:x:2.0:User:title` is cut inside "2.0" and nests under `urn:x:2`.
   */
  lemma PrefixCutIgnoresSegments(env: Env)
    requires env.splitPath("urn:x:2.0:User:title") == ["urn:x:2.0:User", "title"]
    requires env.splitPath("urn:x:2") == ["urn:x:2"]
    requires env.meta("urn:x:2").None?
    ensures BuildGenericMap(env, "urn:x:2.0:User:title", Scalar("t")) ==
            Ok(map["urn:x:2" := Obj(map["title" := Scalar("t")])])
  {
    var path := "urn:x:2.0:User:title";
    assert path[7] == '.';
    assert forall j :: 7 < j < |path| ==> path[j] != '.';
    assert LastIndexOf(path, '.') == 7;
    assert path[..7] == "urn:x:2";
    var segs := ["urn:x:2"];
    var leaf := map["title" := Scalar("t")];
    assert segs[..1] == segs;
    assert JoinDotted(segs[..1]) == "urn:x:2";
    assert WrapLevel(env, segs, 0, leaf) == map["urn:x:2" := Obj(leaf)];
    assert WrapFromRight(env, segs, 0, WrapLevel(env, segs, 0, leaf)) == map["urn:x:2" := Obj(leaf)];
    assert WrapFromRight(env, segs, 1, leaf) == map["urn:x:2" := Obj(leaf)];
    assert "urn:x:2" != "";
    assert WrapPath(env, "urn:x:2", leaf) == map["urn:x:2" := Obj(leaf)];
  }
}
