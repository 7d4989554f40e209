# SCIM PATCH interpreter — a Dafny model

This project models the core of oxTrust's SCIM 2.0 PATCH service
(`Scim2PatchService`): applying one PATCH operation — add, replace or remove,
section 3.5.2 of RFC 7644 — to a resource. It has three parts:

- **Path classifier** (`BracketPath`, `validateBracketedPath`). It decides whether a path is a
  value-selection filter such as `emails[type eq "work"].primary`. For a filter path it extracts
  the text between the first `[` and the last `]`.
- **Value-filter applier** (`IndexEdits`, `ValueFilter`, `applyPatchOperationWithValueFilter`).
  It checks the attribute's metadata and collects the positions of the matching entries, highest
  first. Then it deletes the entries, deletes one key, overwrites the entries or sets one key.
  An empty result list is stored as null.
- **Generic-map builder and dispatcher** (`GenericMap`, `PatchService`, `applyPatchOperation`).
  For a plain path it nests a scalar or list value under the path's segments. A level is wrapped
  in a one-element list when its dotted prefix is multi-valued. The result goes to the replace or
  add merge. A remove skips the build and deletes by the original path.

The resource is represented by its generic map (`map<string, Value>`), where
`Value = Null | Scalar | Arr | Obj`. Everything the service calls but does not own is a
function-typed field of `Scim.Env`:

- attribute metadata;
- `splitPath`;
- the filter preprocessor, parser and matcher;
- the merge and delete helpers.

Exceptions are `PatchError` values inside a `Result`.

Some of the code's behaviour is easy to misread; the model follows the code:

- A filter that matches nothing does not always leave the resource unchanged. The list is
  always written back (line 192), so an empty (non-null) list becomes null.
  `ValueFilter.FilterNoMatchLeavesList` states both cases.
- The builder's wrapping test (line 101) checks only `multiValueClass`, not `COMPLEX`
  (`GenericMap.IsMultiValued`). The filter branch (line 148) checks both
  (`ValueFilter.IsMultivaluedComplex`).
- The applier finds the sub-attribute with its own search for the last `"]."` (line 138). The
  classifier uses the last `]` (line 221). The two agree when the filter text holds no `"]."`
  (`ValueFilter.SubAttributeAgreesWithClassifier`). On `emails[value eq "x]."]` they disagree:
  the applier takes `"]` as the sub-attribute (the two `ValueFilter.Quirk…` lemmas).
- The prefix to wrap is cut at the raw path's last `.` (line 87). It is not rebuilt from the
  segments `splitPath` returned (line 81). `GenericMap.BuildScalarRoundTrip` assumes the two
  agree, and `GenericMap.PrefixCutIgnoresSegments` shows an extension URN where they do not.

## Model

| member | source | states |
|---|---|---|
| BracketPath.ValidateBracketedPath | server/src/main/java/org/gluu/oxtrust/service/scim2/Scim2PatchService.java:211-237 | filter text is only returned for a filter path; a filter path has a `[` after position 0 |
| BracketPath.FilterFormIffNameBeforeBracket | server/src/main/java/org/gluu/oxtrust/service/scim2/Scim2PatchService.java:216-218 | a path has the filter form iff some `[` after position 0 is preceded by a name matching `[a-zA-Z]\w*` |
| BracketPath.WellFormedPathYieldsFilter | server/src/main/java/org/gluu/oxtrust/service/scim2/Scim2PatchService.java:221-232 | a path `a[f]t` (name `a`, no `]` in `t`, `t` empty or "." and a letter) yields exactly `f`, embedded brackets included |
| BracketPath.FilterTextComesFromWellFormedPath | server/src/main/java/org/gluu/oxtrust/service/scim2/Scim2PatchService.java:221-232 | conversely, whenever filter text `f` is returned the path is such an `a[f]t` |
| BracketPath.MalformedTailHasNoFilter | server/src/main/java/org/gluu/oxtrust/service/scim2/Scim2PatchService.java:230-232 | `a[f]t` with a tail that is neither empty nor "." and a letter is a filter path with no filter text |
| BracketPath.ExampleEmails | server/src/main/java/org/gluu/oxtrust/service/scim2/Scim2PatchService.java:216-232 | `emails[type eq "work"]` yields `type eq "work"` |
| BracketPath.ExampleEmbeddedBrackets | server/src/main/java/org/gluu/oxtrust/service/scim2/Scim2PatchService.java:227 | `addresses[value co "any[...]thing"]` yields `value co "any[...]thing"`, inner brackets included, since the text runs to the last `]` |
| BracketPath.ExampleMalformedTail | server/src/main/java/org/gluu/oxtrust/service/scim2/Scim2PatchService.java:230-232 | `emails[x]foo` is a filter path without filter text |
| BracketPath.ExamplePlain | server/src/main/java/org/gluu/oxtrust/service/scim2/Scim2PatchService.java:216-218 | `name.givenName` is a plain path |
| IndexEdits.MatchingIndexes | server/src/main/java/org/gluu/oxtrust/service/scim2/Scim2PatchService.java:165-169 | the collected positions are strictly descending, in range, and are exactly the positions of matching entries |
| IndexEdits.Changed | server/src/main/java/org/gluu/oxtrust/service/scim2/Scim2PatchService.java:180-188 | dropping a key removes only that key; setting a key sets it and keeps the others; an overwrite yields the new entry |
| IndexEdits.RemoveAt | server/src/main/java/org/gluu/oxtrust/service/scim2/Scim2PatchService.java:179 | removing at a valid position shortens the list by one, keeps the entries before it and shifts the later ones down |
| IndexEdits.ApplyEdits | server/src/main/java/org/gluu/oxtrust/service/scim2/Scim2PatchService.java:176-189 | in-place edits keep the length; removals at distinct descending valid positions succeed and shorten the list by their number |
| IndexEdits.RemoveDescendingIsExclude | server/src/main/java/org/gluu/oxtrust/service/scim2/Scim2PatchService.java:176-179 | removing one by one at strictly descending positions removes exactly those positions, the rest in order |
| IndexEdits.RemoveMatchedKeepsUnmatched | server/src/main/java/org/gluu/oxtrust/service/scim2/Scim2PatchService.java:165-179 | removing at the collected positions leaves exactly the non-matching entries in their original order |
| IndexEdits.ChangeDescending | server/src/main/java/org/gluu/oxtrust/service/scim2/Scim2PatchService.java:176-189 | in-place edits at strictly descending valid positions fail iff a selected entry cannot take the change; otherwise only selected entries change |
| IndexEdits.ChangeMatchedIsPointwise | server/src/main/java/org/gluu/oxtrust/service/scim2/Scim2PatchService.java:165-189 | editing at the collected positions is the pointwise change of matching entries, or the cast error |
| IndexEdits.NoMatchNoEdit | server/src/main/java/org/gluu/oxtrust/service/scim2/Scim2PatchService.java:170-176 | with no matching entry nothing is edited and no error arises |
| IndexEdits.ThreeEntriesTwoMatch | server/src/main/java/org/gluu/oxtrust/service/scim2/Scim2PatchService.java:165-179 | entries 0 and 2 matching give positions [2, 0]; removing them leaves entry 1 |
| ValueFilter.FilterAttribute | server/src/main/java/org/gluu/oxtrust/service/scim2/Scim2PatchService.java:135-136 | the attribute is the text before the first `[`, and holds no `[` |
| ValueFilter.SubAttribute | server/src/main/java/org/gluu/oxtrust/service/scim2/Scim2PatchService.java:138-139 | with no "]." the sub-attribute is empty; otherwise it is the text after the last "]." |
| ValueFilter.ExampleIms | server/src/main/java/org/gluu/oxtrust/service/scim2/Scim2PatchService.java:228 | `ims[value eq "hi"].primary` yields filter `value eq "hi"`, attribute `ims` and sub-attribute `primary` |
| ValueFilter.ApplyWithValueFilter | server/src/main/java/org/gluu/oxtrust/service/scim2/Scim2PatchService.java:132-203 | no metadata: unrecognized-attribute error; not complex multi-valued: its error; absent or null list (`CurrentValue`, lines 149-150, 158): unchanged; unparsable filter: syntax error; success touches only the attribute |
| ValueFilter.FilterRemoveKeepsUnmatched | server/src/main/java/org/gluu/oxtrust/service/scim2/Scim2PatchService.java:165-192 | a remove without sub-attribute (`EditFor` gives a whole-entry removal) stores exactly the unmatched entries, in order; `StoreList` writes null when none remain |
| ValueFilter.FilterChangeIsPointwise | server/src/main/java/org/gluu/oxtrust/service/scim2/Scim2PatchService.java:176-192 | replace and remove-with-sub-attribute (`EditFor` gives an overwrite, a key set or a key drop) keep the length and change only the matched entries, or fail with the cast error |
| ValueFilter.FilterNoMatchLeavesList | server/src/main/java/org/gluu/oxtrust/service/scim2/Scim2PatchService.java:170-192 | with no match the list is written back unchanged by `StoreList`; a non-empty list leaves the resource unchanged, an empty one becomes null |
| ValueFilter.SubAttributeAgreesWithClassifier | server/src/main/java/org/gluu/oxtrust/service/scim2/Scim2PatchService.java:134-139 | on a well-formed `a[f]t` with no "]." in `f` the attribute is `a` and the sub-attribute is `t` without its dot |
| ValueFilter.QuirkPathHasNoSubAttribute | server/src/main/java/org/gluu/oxtrust/service/scim2/Scim2PatchService.java:221-232 | `emails[value eq "x]."]` is classified with the whole quoted text as filter and no tail |
| ValueFilter.QuirkPathGetsSpuriousSubAttribute | server/src/main/java/org/gluu/oxtrust/service/scim2/Scim2PatchService.java:138-139 | on that path the applier's own search yields the sub-attribute `"]` |
| GenericMap.BuildGenericMap | server/src/main/java/org/gluu/oxtrust/service/scim2/Scim2PatchService.java:69-107 | a map value always builds; a scalar or list value with an empty path is not parseable; the only other error is `RuntimeFailure`: an empty split (line 82) or a multi-segment path with no "." (line 87) |
| GenericMap.WrapFromRight | server/src/main/java/org/gluu/oxtrust/service/scim2/Scim2PatchService.java:93-106 | after at least one pass of the loop the built map has the single key of the first segment; with no pass it is the inner map |
| GenericMap.WrapPath | server/src/main/java/org/gluu/oxtrust/service/scim2/Scim2PatchService.java:90-106 | an empty path leaves the map as is; a path that splits into segments yields a map keyed by its first segment only |
| GenericMap.LoopBuildsNesting | server/src/main/java/org/gluu/oxtrust/service/scim2/Scim2PatchService.java:90-106 | the right-to-left wrapping loop builds the same nesting as the outside-in reading |
| GenericMap.NestUnnest | server/src/main/java/org/gluu/oxtrust/service/scim2/Scim2PatchService.java:93-106 | the nesting read back along its segments gives the inner map, wrapped in a list exactly at multi-valued prefixes |
| GenericMap.WrapPathRoundTrip | server/src/main/java/org/gluu/oxtrust/service/scim2/Scim2PatchService.java:90-106 | wrapping along a non-empty path round-trips: the inner map and the multi-valued flags come back |
| GenericMap.BuildMapValue | server/src/main/java/org/gluu/oxtrust/service/scim2/Scim2PatchService.java:73-106 | a map value with an empty path is used as is; with a path it is nested along all the path's segments |
| GenericMap.BuildSingleSegment | server/src/main/java/org/gluu/oxtrust/service/scim2/Scim2PatchService.java:80-85 | a scalar at a one-segment path becomes `{segment: value}` |
| GenericMap.BuildScalarRoundTrip | server/src/main/java/org/gluu/oxtrust/service/scim2/Scim2PatchService.java:75-106 | a scalar at a dotted path sits under the last segment, nested along the others, wrapped at multi-valued prefixes |
| GenericMap.PrefixCutIgnoresSegments | server/src/main/java/org/gluu/oxtrust/service/scim2/Scim2PatchService.java:81-87 | a path whose extension URN contains "." is cut inside the URN, not at the segment boundary |
| PatchService.PlainPatch | server/src/main/java/org/gluu/oxtrust/service/scim2/Scim2PatchService.java:69-127 | a remove deletes by the original path without building; otherwise a build error is returned as is, and a built map goes to the replace merge for a replace and to the add merge for an add; with an empty path a map value merges as is and a non-map value is not parseable |
| PatchService.ApplyPatchOperation | server/src/main/java/org/gluu/oxtrust/service/scim2/Scim2PatchService.java:43-130 | an add and a plain path take the plain route; the invalid-path error arises iff a replace or remove has a filter path with a malformed tail |
| PatchService.WellFormedFilterPathDelegates | server/src/main/java/org/gluu/oxtrust/service/scim2/Scim2PatchService.java:54-64 | a replace or remove on a well-formed `a[f]t` is the value-filter applier with filter `f` |
| PatchService.MalformedFilterPathFails | server/src/main/java/org/gluu/oxtrust/service/scim2/Scim2PatchService.java:54-60 | a replace or remove on a filter path with a malformed tail fails and returns no resource |
| PatchService.ReplacePlainPathMerges | server/src/main/java/org/gluu/oxtrust/service/scim2/Scim2PatchService.java:54-119 | a replace of a map value on a path without `[` goes to the replace merge, with a map that reads back along the path's segments as the value, wrapped at multi-valued prefixes |
| PatchService.AddIgnoresBrackets | server/src/main/java/org/gluu/oxtrust/service/scim2/Scim2PatchService.java:54-122 | an add with any path builds the generic map and merges it, never entering the filter branch |
| PatchService.FilterRemoveEndToEnd | server/src/main/java/org/gluu/oxtrust/service/scim2/Scim2PatchService.java:54-192 | a remove on `a[f]`, with no "]." in `f`, keeps exactly the unmatched entries of `a`, in order |
| PatchService.RemoveTwoOfThree | server/src/main/java/org/gluu/oxtrust/service/scim2/Scim2PatchService.java:165-192 | of three entries with the first and last matching, a filter remove on `a[f]` with no "]." in `f` leaves the middle one |
| PatchService.WrapTestSkipsComplex | server/src/main/java/org/gluu/oxtrust/service/scim2/Scim2PatchService.java:101 | on an attribute that is multi-valued but not complex, the builder's test (line 101) wraps its level in a one-element list, while the value-filter test (line 148) refuses a filter on it |
| PatchService.FilterOnSimpleAttributeFails | server/src/main/java/org/gluu/oxtrust/service/scim2/Scim2PatchService.java:146-153 | a filter path on an attribute whose metadata is present but not multi-valued and complex (`IsMultivaluedComplex`, line 148) fails with that error |
| PatchService.FilterOnUnknownAttributeFails | server/src/main/java/org/gluu/oxtrust/service/scim2/Scim2PatchService.java:146-156 | a filter path on an attribute without metadata fails as unrecognized |

## Left out

- `UpdateAsimbaSelectorAction.java` is not part of this model. It is a UI action whose behaviour is LDAP calls, synchronization and session state.
- Jackson conversion between the typed resource and its generic map (lines 113-114, 143, 193) is the identity: the resource is its generic map. A failure of that conversion is not modelled; `RuntimeFailure` stands only for the cast, index and substring exceptions of the service itself.
- The ANTLR parser, `FilterUtil.preprocess` and `complexAttributeMatch` are the functions `parses`, `preprocess` and `matches` of `Scim.Env`. Only a parse failure is modelled as an error, not other exceptions they may throw.
- `ScimResourceUtil.splitPath`, `transferToResourceReplace`, `transferToResourceAdd` and `deleteFromResource` are `Env` functions; their code lives outside `Scim2PatchService`. The merge and delete helpers are total: exceptions from them are not modelled.
- ValueFilter.ApplyWithValueFilter: fails with `RuntimeFailure` before matching when an entry is neither a map nor null (`EntriesAreMaps`). This assumes that `complexAttributeMatch` takes a `Map` parameter, so that each entry is cast at line 167; its signature lives outside `Scim2PatchService`.
- Reflection in `IntrospectUtil.getFieldAnnotation` is replaced by the table `Env.meta`.
- Logging and exception messages are left out. A SCIMException and a raw runtime exception (a cast, an index or a substring out of range) are both `PatchError` variants.
- A null path and an empty path are both `""`; an absent value is `Null`. Only the delete helper, which receives the path, could tell them apart.
- BracketPath.ValidateBracketedPath: `Character.isLetter` after the `].` is modelled for ASCII letters only. The source also accepts non-ASCII letters there.
- GenericMap.BuildScalarRoundTrip: assumes that splitting the path cut at its last "." gives the leading segments of the full path. The source does not guarantee this (see `PrefixCutIgnoresSegments`).
