/**
 The path classifier of the PATCH service (validateBracketedPath): decides
 whether a path is a value-selection filter such as `emails[type eq "work"]`
 and, when its tail is well formed, extracts the filter text between the
 first `[` and the last `]`.
 */
module BracketPath {
  import opened Wrappers
  import opened Text

  /** isFilter: the path has the bracket form; filter: the filter text, None when the tail is malformed. */
  datatype BracketCheck = BracketCheck(isFilter: bool, filter: Option<string>)

  /** What may follow the closing bracket: nothing, or "." and a letter (a sub-attribute). */
  predicate ValidTail(t: string) {
    t == "" || (|t| >= 2 && t[0] == '.' && IsLetter(t[1]))
  }

  /** `path` reads `a[f]t` with an attribute name `a` and a well-formed tail `t` holding no `]`. */
  predicate WellFormedFilterPath(path: string, a: string, f: string, t: string) {
    && path == a + "[" + f + "]" + t
    && IsIdentifier(a)
    && ']' !in t
    && ValidTail(t)
  }

  function ValidateBracketedPath(path: string): (r: BracketCheck)
    ensures r.filter.Some? ==> r.isFilter
    ensures r.isFilter ==> '[' in path && path[0] != '['
    ensures r.filter.Some? ==> |r.filter.value| <= |path| - 3
  {
    var l := IndexOf(path, '[');
    var isFilter := l > 0 && IsIdentifier(path[..l]);
    if !isFilter then BracketCheck(false, None)
    else
      var rb := LastIndexOf(path, ']');
      var lenm1 := |path| - 1;
      if rb > l && (rb == lenm1 || (lenm1 - rb > 1 && path[rb + 1] == '.' && IsLetter(path[rb + 2])))
      then BracketCheck(true, Some(path[l + 1..rb]))
      else BracketCheck(true, None)
  }

  /** An identifier holds no bracket, so the first `[` of `a[...` is the one right after `a`. */
  lemma FirstBracketAfterIdentifier(path: string, a: string)
    requires IsIdentifier(a)
    requires |a| < |path| && path[..|a|] == a && path[|a|] == '['
    ensures IndexOf(path, '[') == |a|
  {
  }

  /** Classification: a path has the filter form iff some `[` after position 0 is preceded by an attribute name. */
  lemma {:induction false} FilterFormIffNameBeforeBracket(path: string)
    ensures ValidateBracketedPath(path).isFilter <==>
            exists k :: 0 < k < |path| && path[k] == '[' && IsIdentifier(path[..k])
  {
    var l := IndexOf(path, '[');
    if ValidateBracketedPath(path).isFilter {
      assert 0 < l < |path| && path[l] == '[' && IsIdentifier(path[..l]);
    }
    if k :| 0 < k < |path| && path[k] == '[' && IsIdentifier(path[..k]) {
      FirstBracketAfterIdentifier(path, path[..k]);
    }
  }

  /** Filter extraction, one direction: a well-formed `a[f]t` yields exactly `f`, embedded brackets included. */
  lemma {:induction false} WellFormedPathYieldsFilter(path: string, a: string, f: string, t: string)
    requires WellFormedFilterPath(path, a, f, t)
    ensures ValidateBracketedPath(path) == BracketCheck(true, Some(f))
  {
    var R := |a| + |f| + 1;
    assert path[..|a|] == a;
    assert path[|a|] == '[';
    FirstBracketAfterIdentifier(path, a);
    assert path[R] == ']';
    forall j | R < j < |path|
      ensures path[j] != ']'
    {
      assert path[j] == t[j - R - 1];
    }
    assert LastIndexOf(path, ']') == R;
    if t != "" {
      assert path[R + 1] == t[0] && path[R + 2] == t[1];
    }
    assert path[|a| + 1..R] == f;
  }

  /** Filter extraction, other direction: whenever filter text is returned, the path is a well-formed `a[f]t`. */
  lemma {:induction false} FilterTextComesFromWellFormedPath(path: string)
    requires ValidateBracketedPath(path).filter.Some?
    ensures exists a, t :: WellFormedFilterPath(path, a, ValidateBracketedPath(path).filter.value, t)
  {
    var f := ValidateBracketedPath(path).filter.value;
    var l := IndexOf(path, '[');
    var R := LastIndexOf(path, ']');
    assert 0 < l < R < |path| && IsIdentifier(path[..l]);
    assert f == path[l + 1..R];
    assert R == |path| - 1 || (|path| - 1 - R > 1 && path[R + 1] == '.' && IsLetter(path[R + 2]));
    var a, t := path[..l], path[R + 1..];
    Reassemble(path, l, R);
    assert [path[l]] == "[" && [path[R]] == "]";
    assert ']' !in t by {
      forall j | 0 <= j < |t|
        ensures t[j] != ']'
      {
        assert t[j] == path[R + 1 + j];
      }
    }
    assert ValidTail(t) by {
      if t != "" {
        assert t[0] == path[R + 1] && t[1] == path[R + 2];
      }
    }
    assert WellFormedFilterPath(path, a, f, t);
  }

  /** A string cut around two positions and glued back together. */
  lemma Reassemble(s: string, l: int, R: int)
    requires 0 <= l < R < |s|
    ensures s == s[..l] + [s[l]] + s[l + 1..R] + [s[R]] + s[R + 1..]
  {
  }

  /** A bracketed path whose tail after the last `]` is neither empty nor "." and a letter is a filter path with no filter: the caller rejects it. */
  lemma {:induction false} MalformedTailHasNoFilter(path: string, a: string, f: string, t: string)
    requires path == a + "[" + f + "]" + t
    requires IsIdentifier(a) && ']' !in t && !ValidTail(t)
    ensures ValidateBracketedPath(path) == BracketCheck(true, None)
  {
    var R := |a| + |f| + 1;
    assert path[..|a|] == a;
    FirstBracketAfterIdentifier(path, a);
    assert path[R] == ']';
    forall j | R < j < |path|
      ensures path[j] != ']'
    {
      assert path[j] == t[j - R - 1];
    }
    assert LastIndexOf(path, ']') == R;
    if |t| >= 2 {
      assert path[R + 1] == t[0] && path[R + 2] == t[1];
    }
  }

  /** A path with no `[`, such as `name.givenName`, is plain. */
  lemma PlainWithoutBracket(path: string)
    requires '[' !in path
    ensures !ValidateBracketedPath(path).isFilter
  {
  }

  /** Documented example: a filter with no sub-attribute. */
  lemma ExampleEmails()
    ensures ValidateBracketedPath("emails[type eq \"work\"]") == BracketCheck(true, Some("type eq \"work\""))
  {
    var path, a, f, t := "emails[type eq \"work\"]", "emails", "type eq \"work\"", "";
    assert IsIdentifier(a);
    assert path == a + "[" + f + "]" + t;
    WellFormedPathYieldsFilter(path, a, f, t);
  }

  /**
   Documented example: brackets inside the filter value survive, since the filter
   text runs from the first `[` to the last `]`.
   */
  lemma ExampleEmbeddedBrackets()
    ensures ValidateBracketedPath("addresses[value co \"any[...]thing\"]") == BracketCheck(true, Some("value co \"any[...]thing\""))
  {
    EmbeddedBracketsPathForm();
    WellFormedPathYieldsFilter("addresses[value co \"any[...]thing\"]", "addresses", "value co \"any[...]thing\"", "");
  }

  /** The documented path with embedded brackets is `a[f]` for the name `addresses`. */
  lemma EmbeddedBracketsPathForm()
    ensures WellFormedFilterPath("addresses[value co \"any[...]thing\"]", "addresses", "value co \"any[...]thing\"", "")
  {
    assert IsIdentifier("addresses");
    assert "addresses[value co \"any[...]thing\"]" == "addresses" + "[" + "value co \"any[...]thing\"" + "]" + "";
  }

  /** A tail that is not "." and a letter: filter form, but no filter text. */
  lemma ExampleMalformedTail()
    ensures ValidateBracketedPath("emails[x]foo") == BracketCheck(true, None)
  {
    MalformedTailHasNoFilter("emails[x]foo", "emails", "x", "foo");
  }

  /** A dotted plain path. */
  lemma ExamplePlain()
    ensures !ValidateBracketedPath("name.givenName").isFilter
  {
    PlainWithoutBracket("name.givenName");
  }
}
