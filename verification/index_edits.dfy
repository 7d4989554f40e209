/**
 The list surgery of the value-filter applier: collect the positions of the
 entries a filter selects, highest first, then delete, rewrite or re-key the
 entries at those positions one by one.
 */
module IndexEdits {
  import opened Wrappers
  import opened Scim

  /** Each position is strictly greater than every later one. */
  predicate StrictlyDescending(idxs: seq<int>) {
    forall i, j :: 0 <= i < j < |idxs| ==> idxs[i] > idxs[j]
  }

  /** Every position is a valid index of a list of length n. */
  predicate AllBelow(idxs: seq<int>, n: int) {
    forall i :: 0 <= i < |idxs| ==> 0 <= idxs[i] < n
  }

  /**
   The matching loop over the first n entries: position i is put at the FRONT
   of the collected list when entry i matches, so the result runs high to low.
   */
  function MatchingIndexes(list: seq<Value>, matches: Value -> bool, n: nat): (r: seq<int>)
    requires n <= |list|
    ensures StrictlyDescending(r)
    ensures AllBelow(r, n)
    ensures forall k :: 0 <= k < n ==> (k in r <==> matches(list[k]))
  {
    if n == 0 then []
    else if matches(list[n - 1]) then [n - 1] + MatchingIndexes(list, matches, n - 1)
    else MatchingIndexes(list, matches, n - 1)
  }

  /** A change applied to one selected entry in place. */
  datatype EntryChange =
    | DropKey(key: string)               // remove one key of the entry map
    | ReplaceEntry(entry: Value)         // overwrite the whole entry
    | PutKey(key: string, val: Value)    // set one key of the entry map

  /** What happens at each selected position. */
  datatype Edit = RemoveEntry | Change(change: EntryChange)

  /**
   The change goes through without a ClassCastException: the entry is a map for a
   key change, the new entry is a map (or null) for an overwrite.
   */
  predicate Applicable(e: Value, c: EntryChange) {
    match c
    case ReplaceEntry(v) => v.Obj? || v.Null?
    case _ => e.Obj?
  }

  /** The entry after the change; an entry the change does not apply to is returned as is. */
  function Changed(e: Value, c: EntryChange): (r: Value)
    ensures Applicable(e, c) && c.DropKey? ==>
              r.Obj? && r.fields.Keys == e.fields.Keys - {c.key}
              && forall k :: k in r.fields ==> r.fields[k] == e.fields[k]
    ensures Applicable(e, c) && c.PutKey? ==>
              r.Obj? && r.fields.Keys == e.fields.Keys + {c.key} && r.fields[c.key] == c.val
              && forall k :: k in e.fields && k != c.key ==> r.fields[k] == e.fields[k]
    ensures Applicable(e, c) && c.ReplaceEntry? ==> r == c.entry
  {
    match c
    case DropKey(k) => if e.Obj? then Obj(e.fields - {k}) else e
    case ReplaceEntry(v) => if Applicable(e, c) then v else e
    case PutKey(k, v) => if e.Obj? then Obj(e.fields[k := v]) else e
  }

  /** List.remove(int). */
  function RemoveAt(list: seq<Value>, i: int): (r: seq<Value>)
    requires 0 <= i < |list|
    ensures |r| == |list| - 1
    ensures forall k :: 0 <= k < i ==> r[k] == list[k]
    ensures forall k :: i <= k < |r| ==> r[k] == list[k + 1]
  {
    list[..i] + list[i + 1..]
  }

  /**
   The mutation loop: visits the positions in the given order; None is the
   exception the loop would raise (an index out of range, a failed cast).
   */
  function ApplyEdits(list: seq<Value>, idxs: seq<int>, edit: Edit): (r: Option<seq<Value>>)
    ensures r.Some? && edit.Change? ==> |r.value| == |list|
    ensures StrictlyDescending(idxs) && AllBelow(idxs, |list|) && edit.RemoveEntry? ==>
              r.Some? && |r.value| == |list| - |idxs|
    decreases |idxs|
  {
    if |idxs| == 0 then Some(list)
    else
      var i := idxs[0];
      if !(0 <= i < |list|) then None
      else
        match edit
        case RemoveEntry =>
          ApplyEdits(RemoveAt(list, i), idxs[1..], edit)
        case Change(c) =>
          if Applicable(list[i], c) then ApplyEdits(list[i := Changed(list[i], c)], idxs[1..], edit)
          else None
  }

  /** Reference: the entries whose positions are not listed in idxs, in their original order. */
  function Exclude(list: seq<Value>, idxs: seq<int>): seq<Value>
    decreases |list|
  {
    if |list| == 0 then []
    else Exclude(list[..|list| - 1], idxs) + (if |list| - 1 in idxs then [] else [list[|list| - 1]])
  }

  /** Reference: the entries that do not match, in their original order. */
  function Reject(list: seq<Value>, matches: Value -> bool): seq<Value>
    decreases |list|
  {
    if |list| == 0 then []
    else Reject(list[..|list| - 1], matches) + (if matches(list[|list| - 1]) then [] else [list[|list| - 1]])
  }

  /** Reference: every matching entry changed in place, every other entry kept. */
  function Pointwise(list: seq<Value>, matches: Value -> bool, c: EntryChange): seq<Value>
  {
    seq(|list|, k requires 0 <= k < |list| => if matches(list[k]) then Changed(list[k], c) else list[k])
  }

  /** Exclude only looks at the listed positions that are valid indexes of the list. */
  lemma {:induction false} ExcludeOnlyReadsValidPositions(list: seq<Value>, idxs: seq<int>, jdxs: seq<int>)
    requires forall k :: 0 <= k < |list| ==> (k in idxs <==> k in jdxs)
    ensures Exclude(list, idxs) == Exclude(list, jdxs)
    decreases |list|
  {
    if |list| > 0 {
      ExcludeOnlyReadsValidPositions(list[..|list| - 1], idxs, jdxs);
    }
  }

  /** Positions that all fall inside a leave the appended b untouched. */
  lemma {:induction false} ExcludeAppend(a: seq<Value>, b: seq<Value>, idxs: seq<int>)
    requires forall j :: 0 <= j < |idxs| ==> idxs[j] < |a|
    ensures Exclude(a + b, idxs) == Exclude(a, idxs) + b
    decreases |b|
  {
    if |b| == 0 {
      assert a + b == a;
    } else {
      var b' := b[..|b| - 1];
      assert (a + b)[..|a + b| - 1] == a + b';
      assert |a + b| - 1 !in idxs;
      ExcludeAppend(a, b', idxs);
      assert b' + [b[|b| - 1]] == b;
    }
  }

  /** Past its head, a strictly descending in-range list is strictly descending and below its head. */
  lemma DescendingRest(idxs: seq<int>, n: int)
    requires |idxs| > 0 && StrictlyDescending(idxs) && AllBelow(idxs, n)
    ensures 0 <= idxs[0] < n
    ensures StrictlyDescending(idxs[1..]) && AllBelow(idxs[1..], idxs[0])
  {
    forall j | 0 <= j < |idxs| - 1
      ensures 0 <= idxs[1..][j] < idxs[0]
    {
      assert idxs[1..][j] == idxs[j + 1];
    }
  }

  /** Removing position i first, then lower positions, is excluding i together with them. */
  lemma {:induction false} ExcludeTopThenRest(list: seq<Value>, i: int, rest: seq<int>)
    requires 0 <= i < |list| && AllBelow(rest, i)
    ensures Exclude(RemoveAt(list, i), rest) == Exclude(list, [i] + rest)
  {
    var idxs := [i] + rest;
    // the removal only shortened the part after position i
    ExcludeAppend(list[..i], list[i + 1..], rest);
    // on the original list, position i is dropped and the lower positions are those of rest
    assert list == list[..i + 1] + list[i + 1..];
    ExcludeAppend(list[..i + 1], list[i + 1..], idxs);
    assert list[..i + 1][..i] == list[..i];
    assert Exclude(list[..i + 1], idxs) == Exclude(list[..i], idxs);
    ExcludeOnlyReadsValidPositions(list[..i], idxs, rest);
  }

  /**
   Removing at strictly descending positions, one after the other, removes exactly
   those positions: a later (lower) position is never shifted by an earlier removal.
   */
  lemma {:induction false} RemoveDescendingIsExclude(list: seq<Value>, idxs: seq<int>)
    requires StrictlyDescending(idxs) && AllBelow(idxs, |list|)
    ensures ApplyEdits(list, idxs, RemoveEntry) == Some(Exclude(list, idxs))
    decreases |idxs|
  {
    if |idxs| == 0 {
      ExcludeOnlyReadsValidPositions(list, [], idxs);
      NothingExcluded(list);
    } else {
      var i, rest := idxs[0], idxs[1..];
      DescendingRest(idxs, |list|);
      var shorter := RemoveAt(list, i);
      assert AllBelow(rest, |shorter|);
      RemoveDescendingIsExclude(shorter, rest);
      ExcludeTopThenRest(list, i, rest);
      assert idxs == [i] + rest;
    }
  }

  /** With no positions listed, nothing is excluded. */
  lemma {:induction false} NothingExcluded(list: seq<Value>)
    ensures Exclude(list, []) == list
    decreases |list|
  {
    if |list| > 0 {
      NothingExcluded(list[..|list| - 1]);
      assert list[..|list| - 1] + [list[|list| - 1]] == list;
    }
  }

  /** Excluding exactly the positions of the matching entries is rejecting the matching entries. */
  lemma {:induction false} ExcludeMatchedIsReject(list: seq<Value>, idxs: seq<int>, matches: Value -> bool)
    requires forall k :: 0 <= k < |list| ==> (k in idxs <==> matches(list[k]))
    ensures Exclude(list, idxs) == Reject(list, matches)
    decreases |list|
  {
    if |list| > 0 {
      var init := list[..|list| - 1];
      assert forall k :: 0 <= k < |init| ==> init[k] == list[k];
      ExcludeMatchedIsReject(init, idxs, matches);
    }
  }

  /**
   The property the reverse-ordered index list exists for: removing every matched
   entry leaves exactly the unmatched entries, in their original relative order.
   */
  lemma {:induction false} RemoveMatchedKeepsUnmatched(list: seq<Value>, matches: Value -> bool)
    ensures ApplyEdits(list, MatchingIndexes(list, matches, |list|), RemoveEntry) == Some(Reject(list, matches))
  {
    var idxs := MatchingIndexes(list, matches, |list|);
    RemoveDescendingIsExclude(list, idxs);
    ExcludeMatchedIsReject(list, idxs, matches);
  }

  /**
   In-place changes at distinct positions: the loop fails iff some selected entry
   cannot take the change; otherwise the length is kept, the selected entries are
   changed and every other entry is untouched.
   */
  lemma {:induction false} ChangeDescending(list: seq<Value>, idxs: seq<int>, c: EntryChange)
    requires StrictlyDescending(idxs) && AllBelow(idxs, |list|)
    ensures ApplyEdits(list, idxs, Change(c)).Some? <==>
            forall j :: 0 <= j < |idxs| ==> Applicable(list[idxs[j]], c)
    ensures ApplyEdits(list, idxs, Change(c)).Some? ==>
            forall k :: 0 <= k < |list| ==>
              ApplyEdits(list, idxs, Change(c)).value[k] == if k in idxs then Changed(list[k], c) else list[k]
    decreases |idxs|
  {
    if |idxs| > 0 {
      var i, rest := idxs[0], idxs[1..];
      DescendingRest(idxs, |list|);
      if Applicable(list[i], c) {
        var list' := list[i := Changed(list[i], c)];
        ChangeDescending(list', rest, c);
        assert idxs == [i] + rest;
        ChangeStepApplicable(list, i, rest, c);
        var r := ApplyEdits(list', rest, Change(c));
        if r.Some? {
          ChangeStepPointwise(list, i, rest, c, r.value);
        }
      } else {
        ChangeStepApplicable(list, i, rest, c);
      }
    }
  }

  /** Every position of i :: rest can take the change iff i can, and every position of rest can after i changed. */
  lemma ChangeStepApplicable(list: seq<Value>, i: int, rest: seq<int>, c: EntryChange)
    requires 0 <= i < |list| && AllBelow(rest, i)
    ensures var idxs := [i] + rest;
            var list' := list[i := Changed(list[i], c)];
            (forall j :: 0 <= j < |idxs| ==> Applicable(list[idxs[j]], c)) <==>
            Applicable(list[i], c) && (forall j :: 0 <= j < |rest| ==> Applicable(list'[rest[j]], c))
  {
    var idxs := [i] + rest;
    var list' := list[i := Changed(list[i], c)];
    assert forall j :: 0 <= j < |rest| ==> list'[rest[j]] == list[rest[j]] && idxs[j + 1] == rest[j];
    if Applicable(list[i], c) && forall j :: 0 <= j < |rest| ==> Applicable(list'[rest[j]], c) {
      forall j | 0 <= j < |idxs| ensures Applicable(list[idxs[j]], c) {
        if j > 0 { assert idxs[j] == rest[j - 1]; }
      }
    }
    if forall j :: 0 <= j < |idxs| ==> Applicable(list[idxs[j]], c) {
      assert Applicable(list[idxs[0]], c);
      forall j | 0 <= j < |rest| ensures Applicable(list'[rest[j]], c) {
        assert idxs[j + 1] == rest[j];
      }
    }
  }

  /** Changing the lower positions of rest after i gives the pointwise change at i :: rest. */
  lemma ChangeStepPointwise(list: seq<Value>, i: int, rest: seq<int>, c: EntryChange, r: seq<Value>)
    requires 0 <= i < |list| && AllBelow(rest, i) && |r| == |list|
    requires var list' := list[i := Changed(list[i], c)];
             forall k :: 0 <= k < |list'| ==> r[k] == if k in rest then Changed(list'[k], c) else list'[k]
    ensures forall k :: 0 <= k < |list| ==> r[k] == if k in [i] + rest then Changed(list[k], c) else list[k]
  {
    forall k | 0 <= k < |list|
      ensures r[k] == if k in [i] + rest then Changed(list[k], c) else list[k]
    {
      if k in rest {
        var j :| 0 <= j < |rest| && rest[j] == k;
        assert k < i;
      } else if k == i {
        assert i !in rest;
      }
    }
  }

  /** Changing every matched entry in place is the pointwise change, or fails iff a matched entry cannot take it. */
  lemma {:induction false} ChangeMatchedIsPointwise(list: seq<Value>, matches: Value -> bool, c: EntryChange)
    ensures ApplyEdits(list, MatchingIndexes(list, matches, |list|), Change(c)) ==
            if forall k :: 0 <= k < |list| && matches(list[k]) ==> Applicable(list[k], c)
            then Some(Pointwise(list, matches, c))
            else None
  {
    var idxs := MatchingIndexes(list, matches, |list|);
    ChangeDescending(list, idxs, c);
    var ok := forall k :: 0 <= k < |list| && matches(list[k]) ==> Applicable(list[k], c);
    if ok {
      forall j | 0 <= j < |idxs| ensures Applicable(list[idxs[j]], c) {
        assert idxs[j] in idxs;
      }
      var r := ApplyEdits(list, idxs, Change(c)).value;
      assert |r| == |list|;
      assert r == Pointwise(list, matches, c);
    } else {
      var k :| 0 <= k < |list| && matches(list[k]) && !Applicable(list[k], c);
      assert k in idxs;
      var j :| 0 <= j < |idxs| && idxs[j] == k;
    }
  }

  /** When no entry matches, no edit is made and no error arises, whatever the edit. */
  lemma NoMatchNoEdit(list: seq<Value>, matches: Value -> bool, edit: Edit)
    requires forall k :: 0 <= k < |list| ==> !matches(list[k])
    ensures ApplyEdits(list, MatchingIndexes(list, matches, |list|), edit) == Some(list)
  {
    NothingMatchedNothingCollected(list, matches, |list|);
  }

  /** Over a prefix where nothing matches, the matching loop collects no position. */
  lemma {:induction false} NothingMatchedNothingCollected(list: seq<Value>, matches: Value -> bool, n: nat)
    requires n <= |list|
    requires forall k :: 0 <= k < n ==> !matches(list[k])
    ensures MatchingIndexes(list, matches, n) == []
  {
    if n > 0 {
      NothingMatchedNothingCollected(list, matches, n - 1);
    }
  }

  /**
   Three entries of which the first and the last match: the positions come out
   as 2 then 0, and removing them leaves the middle entry alone.
   */
  lemma ThreeEntriesTwoMatch(e0: Value, e1: Value, e2: Value, matches: Value -> bool)
    requires matches(e0) && !matches(e1) && matches(e2)
    ensures MatchingIndexes([e0, e1, e2], matches, 3) == [2, 0]
    ensures ApplyEdits([e0, e1, e2], [2, 0], RemoveEntry) == Some([e1])
  {
    var list := [e0, e1, e2];
    assert MatchingIndexes(list, matches, 1) == [0];
    assert MatchingIndexes(list, matches, 2) == [0];
    assert RemoveAt(list, 2) == [e0, e1];
    assert RemoveAt([e0, e1], 0) == [e1];
    assert [2, 0][1..] == [0] && [0][1..] == [];
    assert ApplyEdits([e1], [], RemoveEntry) == Some([e1]);
    assert ApplyEdits([e0, e1], [0], RemoveEntry) == Some([e1]);
  }
}
