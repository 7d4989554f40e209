/**
 The entry point of the PATCH interpreter (applyPatchOperation): routes a
 replace or remove with a value-selection path to the value-filter applier,
 and otherwise builds the generic map of the value and hands it, or for a
 remove the original resource and path, to the merge / delete helpers.
 */
module PatchService {
  import opened Wrappers
  import opened Text
  import opened Scim
  import opened BracketPath
  import opened IndexEdits
  import opened ValueFilter
  import opened GenericMap

  /**
   The plain-path part: a remove never builds anything and deletes by the original
   path; an add or replace builds the generic map and merges it into the resource.
   */
  function PlainPatch(res: Resource, op: PatchOperation, env: Env): (r: Result<Resource, PatchError>)
    ensures op.kind == Remove ==> r == Ok(env.deleteByPath(res, op.path))
    ensures r.Err? ==> op.kind != Remove && !op.value.Obj? && (r.error == ValueNotParseable || r.error == RuntimeFailure)
    ensures op.kind != Remove && op.path == "" && !op.value.Obj? ==> r == Err(ValueNotParseable)
    ensures op.kind == Replace && op.path == "" && op.value.Obj? ==> r == Ok(env.replaceMerge(op.value.fields, res))
    ensures op.kind == Add && op.path == "" && op.value.Obj? ==> r == Ok(env.addMerge(op.value.fields, res))
    ensures op.kind != Remove && BuildGenericMap(env, op.path, op.value).Err? ==> r == Err(BuildGenericMap(env, op.path, op.value).error)
    ensures op.kind == Replace && BuildGenericMap(env, op.path, op.value).Ok? ==>
              r == Ok(env.replaceMerge(BuildGenericMap(env, op.path, op.value).value, res))
    ensures op.kind == Add && BuildGenericMap(env, op.path, op.value).Ok? ==>
              r == Ok(env.addMerge(BuildGenericMap(env, op.path, op.value).value, res))
  {
    if op.kind == Remove then Ok(env.deleteByPath(res, op.path))
    else
      match BuildGenericMap(env, op.path, op.value)
      case Err(e) => Err(e)
      case Ok(alter) =>
        if op.kind == Replace then Ok(env.replaceMerge(alter, res))
        else Ok(env.addMerge(alter, res))
  }

  function ApplyPatchOperation(res: Resource, op: PatchOperation, env: Env): (r: Result<Resource, PatchError>)
    ensures op.kind == Add ==> r == PlainPatch(res, op, env)
    ensures !ValidateBracketedPath(op.path).isFilter ==> r == PlainPatch(res, op, env)
    ensures r == Err(InvalidPath) <==>
              op.kind != Add && ValidateBracketedPath(op.path) == BracketCheck(true, None)
  {
    var check := ValidateBracketedPath(op.path);
    if op.path != "" && op.kind != Add && check.isFilter then
      match check.filter
      case None => Err(InvalidPath)
      case Some(selFilter) => ApplyWithValueFilter(res, op, selFilter, env)
    else PlainPatch(res, op, env)
  }

  /** A replace or remove on a well-formed `a[f]t` is handled by the value-filter applier with filter text f. */
  lemma WellFormedFilterPathDelegates(res: Resource, op: PatchOperation, env: Env, a: string, f: string, t: string)
    requires op.kind != Add && WellFormedFilterPath(op.path, a, f, t)
    ensures '[' in op.path
    ensures ApplyPatchOperation(res, op, env) == ApplyWithValueFilter(res, op, f, env)
  {
    WellFormedPathYieldsFilter(op.path, a, f, t);
  }

  /** A replace or remove on `a[f]t` whose tail is neither empty nor "." and a letter fails, returning no resource. */
  lemma MalformedFilterPathFails(res: Resource, op: PatchOperation, env: Env, a: string, f: string, t: string)
    requires op.kind != Add
    requires op.path == a + "[" + f + "]" + t && IsIdentifier(a) && ']' !in t && !ValidTail(t)
    ensures ApplyPatchOperation(res, op, env) == Err(InvalidPath)
  {
    MalformedTailHasNoFilter(op.path, a, f, t);
  }

  /** An add never reaches the value-filter branch, whatever brackets its path holds. */
  lemma AddIgnoresBrackets(res: Resource, env: Env, path: string, value: Value)
    ensures ApplyPatchOperation(res, PatchOperation(Add, path, value), env) ==
            match BuildGenericMap(env, path, value)
            case Err(e) => Err(e)
            case Ok(alter) => Ok(env.addMerge(alter, res))
  {
  }

  /**
   A replace of a map value on a dotted path without brackets merges, through the
   replace helper, a map that reads back along the path's segments as the value,
   wrapped in a list exactly at the multi-valued prefixes.
   */
  lemma ReplacePlainPathMerges(res: Resource, env: Env, path: string, m: map<string, Value>)
    requires path != "" && '[' !in path
    ensures exists alter ::
              ApplyPatchOperation(res, PatchOperation(Replace, path, Obj(m)), env) == Ok(env.replaceMerge(alter, res)) &&
              Unnest(alter, env.splitPath(path)) == Some((m, Flags(env, env.splitPath(path))))
  {
    PlainWithoutBracket(path);
    BuildMapValue(env, path, m);
    var alter := BuildGenericMap(env, path, Obj(m)).value;
    assert ApplyPatchOperation(res, PatchOperation(Replace, path, Obj(m)), env) == Ok(env.replaceMerge(alter, res));
  }

  /**
   End to end: a remove on `a[f]` (no sub-attribute, no "]." in f) of a complex
   multi-valued attribute holding `list` keeps exactly the unmatched entries, in order.
   */
  lemma FilterRemoveEndToEnd(res: Resource, op: PatchOperation, env: Env, a: string, f: string, list: seq<Value>)
    requires op.kind == Remove && WellFormedFilterPath(op.path, a, f, "") && NoBracketDot(f)
    requires IsMultivaluedComplex(env, a) && CurrentValue(res, a) == Arr(list)
    requires env.parses(env.preprocess(f)) && EntriesAreMaps(list)
    ensures ApplyPatchOperation(res, op, env) ==
            Ok(res[a := StoreList(Reject(list, Matcher(env, env.preprocess(f), a)))])
  {
    WellFormedFilterPathDelegates(res, op, env, a, f, "");
    SubAttributeAgreesWithClassifier(op.path, a, f, "");
    FilterRemoveKeepsUnmatched(res, op, f, env, list);
  }

  /**
   Three entries, the first and last matching: a remove on the filter path (say
   `emails[type eq "work"]`) leaves the middle entry only.
   */
  lemma RemoveTwoOfThree(res: Resource, op: PatchOperation, env: Env, a: string, f: string, e0: Value, e1: Value, e2: Value)
    requires op.kind == Remove && WellFormedFilterPath(op.path, a, f, "") && NoBracketDot(f)
    requires IsMultivaluedComplex(env, a) && CurrentValue(res, a) == Arr([e0, e1, e2])
    requires env.parses(env.preprocess(f)) && EntriesAreMaps([e0, e1, e2])
    requires var matches := Matcher(env, env.preprocess(f), a);
             matches(e0) && !matches(e1) && matches(e2)
    ensures ApplyPatchOperation(res, op, env) == Ok(res[a := Arr([e1])])
  {
    var matches := Matcher(env, env.preprocess(f), a);
    FilterRemoveEndToEnd(res, op, env, a, f, [e0, e1, e2]);
    ThreeEntriesTwoMatch(e0, e1, e2, matches);
    RemoveMatchedKeepsUnmatched([e0, e1, e2], matches);
  }

  /** A value filter on an attribute that has metadata but is not complex multi-valued (say `displayName`) is refused. */
  lemma FilterOnSimpleAttributeFails(res: Resource, op: PatchOperation, env: Env, a: string, f: string, t: string)
    requires op.kind != Add && WellFormedFilterPath(op.path, a, f, t)
    requires env.meta(a).Some? && !IsMultivaluedComplex(env, a)
    ensures ApplyPatchOperation(res, op, env) == Err(NotMultivaluedComplex(a))
  {
    WellFormedFilterPathDelegates(res, op, env, a, f, t);
    assert op.path[..|a|] == a;
    FirstBracketAfterIdentifier(op.path, a);
  }

  /**
   The two metadata tests differ on a simple multi-valued attribute (multi-valued but
   not complex): the builder still wraps its level in a one-element list, while a
   value filter on it is refused.
   */
  lemma WrapTestSkipsComplex(res: Resource, env: Env, a: string, f: string, leaf: map<string, Value>)
    requires env.meta(a) == Some(AttributeMeta(true, false)) && IsIdentifier(a)
    ensures IsMultiValued(env, a) && !IsMultivaluedComplex(env, a)
    ensures WrapLevel(env, [a], 0, leaf) == map[a := Arr([Obj(leaf)])]
    ensures ApplyPatchOperation(res, PatchOperation(Replace, a + "[" + f + "]", Null), env) == Err(NotMultivaluedComplex(a))
  {
    assert [a][..1] == [a];
    FilterOnSimpleAttributeFails(res, PatchOperation(Replace, a + "[" + f + "]", Null), env, a, f, "");
  }

  /** A value filter on an attribute without metadata is refused as unrecognized. */
  lemma FilterOnUnknownAttributeFails(res: Resource, op: PatchOperation, env: Env, a: string, f: string, t: string)
    requires op.kind != Add && WellFormedFilterPath(op.path, a, f, t)
    requires env.meta(a).None?
    ensures ApplyPatchOperation(res, op, env) == Err(UnrecognizedAttribute(a))
  {
    WellFormedFilterPathDelegates(res, op, env, a, f, t);
    assert op.path[..|a|] == a;
    FirstBracketAfterIdentifier(op.path, a);
  }
}
