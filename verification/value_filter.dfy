/**
 The value-filter applier (applyPatchOperationWithValueFilter): a replace or
 remove whose path selects entries of a multi-valued complex attribute, as in
 `emails[type eq "work"].primary`.
 */
module ValueFilter {
  import opened Wrappers
  import opened Text
  import opened Scim
  import opened BracketPath
  import opened IndexEdits

  /** The attribute: the text before the first `[`. */
  function FilterAttribute(path: string): (r: string)
    requires '[' in path
    ensures |r| < |path| && path[|r|] == '[' && r == path[..|r|]
    ensures '[' !in r
  {
    path[..IndexOf(path, '[')]
  }

  /** The sub-attribute: the text after the LAST occurrence of "].", or "" when there is none. */
  function SubAttribute(path: string): (r: string)
    ensures (forall i :: !OccursAt(path, "].", i)) ==> r == ""
    ensures forall i :: OccursAt(path, "].", i) && (forall j :: OccursAt(path, "].", j) ==> j <= i) ==> r == path[i + 2..]
  {
    var i := LastIndexOfStr(path, "].");
    if i == -1 then "" else path[i + 2..]
  }

  /** The edit each matched position receives, by operation type and sub-attribute. */
  function EditFor(kind: OpKind, sub: string, value: Value): (e: Edit)
    ensures e.RemoveEntry? <==> kind == Remove && sub == ""
    ensures e.Change? && e.change.DropKey? ==> kind == Remove && e.change.key == sub
    ensures e.Change? && e.change.ReplaceEntry? ==> kind != Remove && sub == "" && e.change.entry == value
    ensures e.Change? && e.change.PutKey? ==> kind != Remove && sub != "" && e.change.key == sub && e.change.val == value
  {
    if kind == Remove then
      (if |sub| == 0 then RemoveEntry else Change(DropKey(sub)))
    else
      (if |sub| == 0 then Change(ReplaceEntry(value)) else Change(PutKey(sub, value)))
  }

  /** The value stored back for the attribute: an empty list becomes null. */
  function StoreList(list: seq<Value>): (v: Value)
    ensures v.Null? <==> |list| == 0
    ensures |list| > 0 ==> v == Arr(list)
  {
    if |list| == 0 then Null else Arr(list)
  }

  /** The attribute's current value in the generic map; an absent key reads as null. */
  function CurrentValue(res: Resource, attribute: string): (v: Value)
    ensures v.Null? <==> attribute !in res || res[attribute].Null?
    ensures !v.Null? ==> attribute in res && res[attribute] == v
  {
    if attribute in res then res[attribute] else Null
  }

  /** Each entry can be handed to the matcher as a map (a null entry casts too). */
  predicate EntriesAreMaps(list: seq<Value>) {
    forall k :: 0 <= k < |list| ==> list[k].Obj? || list[k].Null?
  }

  /** The filter of the value-selection path, evaluated against one entry of the attribute. */
  function Matcher(env: Env, filter: string, attribute: string): Value -> bool
  {
    e => env.matches(filter, e, attribute)
  }

  /** Metadata accepts the attribute for a value filter: multi-valued AND complex. */
  function IsMultivaluedComplex(env: Env, attribute: string): (b: bool)
    ensures b <==> env.meta(attribute) == Some(AttributeMeta(true, true))
  {
    env.meta(attribute).Some? && env.meta(attribute).value.multiValued && env.meta(attribute).value.complex
  }

  function ApplyWithValueFilter(res: Resource, op: PatchOperation, selFilter: string, env: Env): (r: Result<Resource, PatchError>)
    requires '[' in op.path
    ensures var attribute := FilterAttribute(op.path);
            env.meta(attribute).None? ==> r == Err(UnrecognizedAttribute(attribute))
    ensures var attribute := FilterAttribute(op.path);
            env.meta(attribute).Some? && !IsMultivaluedComplex(env, attribute) ==> r == Err(NotMultivaluedComplex(attribute))
    ensures var attribute := FilterAttribute(op.path);
            IsMultivaluedComplex(env, attribute) && CurrentValue(res, attribute).Null? ==> r == Ok(res)
    ensures var attribute := FilterAttribute(op.path);
            IsMultivaluedComplex(env, attribute) && CurrentValue(res, attribute).Arr? && !env.parses(env.preprocess(selFilter))
            ==> r == Err(FilterSyntax)
    ensures r.Ok? ==> r.value.Keys == res.Keys
    ensures r.Ok? ==> forall k :: k in res && k != FilterAttribute(op.path) ==> r.value[k] == res[k]
  {
    var attribute := FilterAttribute(op.path);
    var sub := SubAttribute(op.path);
    match env.meta(attribute)
    case None => Err(UnrecognizedAttribute(attribute))
    case Some(m) =>
      if !(m.multiValued && m.complex) then Err(NotMultivaluedComplex(attribute))
      else
        var col := CurrentValue(res, attribute);
        if col.Null? then Ok(res)
        else if !col.Arr? then Err(RuntimeFailure)
        else
          var list := col.items;
          var filter := env.preprocess(selFilter);
          if !env.parses(filter) then Err(FilterSyntax)
          else if !EntriesAreMaps(list) then Err(RuntimeFailure)
          else
            var idxs := MatchingIndexes(list, Matcher(env, filter, attribute), |list|);
            match ApplyEdits(list, idxs, EditFor(op.kind, sub, op.value))
            case None => Err(RuntimeFailure)
            case Some(list') => Ok(res[attribute := StoreList(list')])
  }

  /**
   The operation gets as far as the edit loop: the attribute is complex multi-valued,
   currently holds the list `list` of maps, and the preprocessed filter parses.
   */
  predicate ReachesEdits(res: Resource, op: PatchOperation, selFilter: string, env: Env, list: seq<Value>)
    requires '[' in op.path
  {
    var attribute := FilterAttribute(op.path);
    && IsMultivaluedComplex(env, attribute)
    && CurrentValue(res, attribute) == Arr(list)
    && env.parses(env.preprocess(selFilter))
    && EntriesAreMaps(list)
  }

  /** A remove without sub-attribute keeps exactly the unmatched entries, in order; none left stores null. */
  lemma FilterRemoveKeepsUnmatched(res: Resource, op: PatchOperation, selFilter: string, env: Env, list: seq<Value>)
    requires '[' in op.path
    requires op.kind == Remove && SubAttribute(op.path) == ""
    requires ReachesEdits(res, op, selFilter, env, list)
    ensures var attribute := FilterAttribute(op.path);
            var kept := Reject(list, Matcher(env, env.preprocess(selFilter), attribute));
            ApplyWithValueFilter(res, op, selFilter, env) == Ok(res[attribute := StoreList(kept)])
  {
    RemoveMatchedKeepsUnmatched(list, Matcher(env, env.preprocess(selFilter), FilterAttribute(op.path)));
  }

  /**
   Add/replace, and remove with a sub-attribute, act in place: the list keeps its length,
   matched entries are overwritten / re-keyed / lose the key, the others stay; the cast
   error arises iff some matched entry cannot take the change.
   */
  lemma FilterChangeIsPointwise(res: Resource, op: PatchOperation, selFilter: string, env: Env, list: seq<Value>)
    requires '[' in op.path
    requires op.kind != Remove || SubAttribute(op.path) != ""
    requires ReachesEdits(res, op, selFilter, env, list)
    ensures var attribute := FilterAttribute(op.path);
            var matches := Matcher(env, env.preprocess(selFilter), attribute);
            var c := EditFor(op.kind, SubAttribute(op.path), op.value).change;
            ApplyWithValueFilter(res, op, selFilter, env) ==
              if forall k :: 0 <= k < |list| && matches(list[k]) ==> Applicable(list[k], c)
              then Ok(res[attribute := StoreList(Pointwise(list, matches, c))])
              else Err(RuntimeFailure)
  {
    var attribute := FilterAttribute(op.path);
    var edit := EditFor(op.kind, SubAttribute(op.path), op.value);
    ChangeMatchedIsPointwise(list, Matcher(env, env.preprocess(selFilter), attribute), edit.change);
  }

  /**
   When no entry matches there is no error and no edit: the list is written back
   as it was, so the resource is unchanged unless the list was empty (then null).
   */
  lemma FilterNoMatchLeavesList(res: Resource, op: PatchOperation, selFilter: string, env: Env, list: seq<Value>)
    requires '[' in op.path
    requires ReachesEdits(res, op, selFilter, env, list)
    requires var matches := Matcher(env, env.preprocess(selFilter), FilterAttribute(op.path));
             forall k :: 0 <= k < |list| ==> !matches(list[k])
    ensures ApplyWithValueFilter(res, op, selFilter, env) == Ok(res[FilterAttribute(op.path) := StoreList(list)])
    ensures |list| > 0 ==> ApplyWithValueFilter(res, op, selFilter, env) == Ok(res)
  {
    var attribute := FilterAttribute(op.path);
    var edit := EditFor(op.kind, SubAttribute(op.path), op.value);
    NoMatchNoEdit(list, Matcher(env, env.preprocess(selFilter), attribute), edit);
    if |list| > 0 {
      assert res[attribute := Arr(list)] == res;
    }
  }

  /**
   Documented example: a filter followed by a sub-attribute. The classifier returns
   the bracketed text, and the applier finds the attribute before the `[` and the
   sub-attribute after the "].".
   */
  lemma ExampleIms()
    ensures ValidateBracketedPath("ims[value eq \"hi\"].primary") == BracketCheck(true, Some("value eq \"hi\""))
    ensures FilterAttribute("ims[value eq \"hi\"].primary") == "ims"
    ensures SubAttribute("ims[value eq \"hi\"].primary") == "primary"
  {
    ImsPathForm();
    WellFormedPathYieldsFilter("ims[value eq \"hi\"].primary", "ims", "value eq \"hi\"", ".primary");
    SubAttributeAgreesWithClassifier("ims[value eq \"hi\"].primary", "ims", "value eq \"hi\"", ".primary");
  }

  /** The documented sub-attribute path is `a[f]t` for the name `ims`, with no "]." in its filter text. */
  lemma ImsPathForm()
    ensures WellFormedFilterPath("ims[value eq \"hi\"].primary", "ims", "value eq \"hi\"", ".primary")
    ensures NoBracketDot("value eq \"hi\"")
  {
    assert IsIdentifier("ims");
    assert "ims[value eq \"hi\"].primary" == "ims" + "[" + "value eq \"hi\"" + "]" + ".primary";
    assert ValidTail(".primary");
    assert ']' !in "value eq \"hi\"";
  }

  /** No "]." occurs anywhere in s. */
  predicate NoBracketDot(s: string) {
    forall i :: 0 <= i < |s| - 1 ==> !(s[i] == ']' && s[i + 1] == '.')
  }

  /**
   The applier re-finds the attribute and the sub-attribute by its own searches; on a
   well-formed `a[f]t` whose filter text holds no "]." they agree with the classifier:
   the attribute is `a` and the sub-attribute is the tail without its dot.
   */
  lemma {:induction false} SubAttributeAgreesWithClassifier(path: string, a: string, f: string, t: string)
    requires WellFormedFilterPath(path, a, f, t)
    requires NoBracketDot(f)
    ensures '[' in path && FilterAttribute(path) == a
    ensures SubAttribute(path) == if t == "" then "" else t[1..]
  {
    assert path[|a|] == '[';
    assert path[..|a|] == a;
    FirstBracketAfterIdentifier(path, a);
    var R := |a| + |f| + 1;
    // every occurrence of "]." in the path starts at R, and only when the tail is non-empty
    forall i | OccursAt(path, "].", i)
      ensures i == R && t != ""
    {
      assert path[i..i + 2] == "].";
      assert path[i] == ']' && path[i + 1] == '.';
    }
    if t != "" {
      assert path[R..R + 2] == "].";
      assert OccursAt(path, "].", R);
      assert path[R + 2..] == t[1..];
    }
  }

  /**
   A path that ends in `]` but whose filter text holds "]." : the classifier takes the
   whole text up to the last `]` as the filter, so there is no sub-attribute ...
   */
  lemma QuirkPathHasNoSubAttribute()
    ensures ValidateBracketedPath("emails[value eq \"x].\"]") == BracketCheck(true, Some("value eq \"x].\""))
  {
    WellFormedPathYieldsFilter("emails[value eq \"x].\"]", "emails", "value eq \"x].\"", "");
  }

  /** ... yet the applier's own search for "]." stops inside the filter text and takes `"]` as one. */
  lemma QuirkPathGetsSpuriousSubAttribute()
    ensures SubAttribute("emails[value eq \"x].\"]") == "\"]"
  {
    var path := "emails[value eq \"x].\"]";
    assert |path| == 22 && path[18] == ']' && path[19] == '.' && path[20] == '"' && path[21] == ']';
    assert OccursAt(path, "].", 18) by {
      assert path[18..20] == [path[18], path[19]];
    }
    var i := LastIndexOfStr(path, "].");
    assert i == 18;
    assert path[20..] == [path[20], path[21]];
  }
}
