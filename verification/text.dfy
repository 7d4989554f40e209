/**
 Character classes and the java.lang.String searches the PATCH code relies on
 (indexOf, lastIndexOf with a char or with a string needle), over `string`.
 */
module Text {

  /** `[a-zA-Z]`; also used for Character.isLetter, restricted to ASCII. */
  predicate IsLetter(c: char) {
    'a' <= c <= 'z' || 'A' <= c <= 'Z'
  }

  /** The regex class `\w` (without the Unicode flag): `[a-zA-Z_0-9]`. */
  predicate IsWordChar(c: char) {
    IsLetter(c) || '0' <= c <= '9' || c == '_'
  }

  /** The whole string matches the regex `[a-zA-Z]\w*`. */
  predicate IsIdentifier(s: string) {
    |s| > 0 && IsLetter(s[0]) && forall i :: 1 <= i < |s| ==> IsWordChar(s[i])
  }

  /** String.indexOf(char): the first position of `c`, or -1. */
  function IndexOf(s: string, c: char): (r: int)
    ensures -1 <= r < |s|
    ensures r >= 0 ==> s[r] == c
    ensures forall j :: 0 <= j < |s| && s[j] == c ==> 0 <= r <= j
  {
    IndexOfFrom(s, c, 0)
  }

  /** The first position at or after `from` holding `c`, or -1. */
  function IndexOfFrom(s: string, c: char, from: nat): (r: int)
    requires from <= |s|
    ensures r == -1 || (from <= r < |s| && s[r] == c)
    ensures forall j :: from <= j < |s| && s[j] == c ==> from <= r <= j
    decreases |s| - from
  {
    if from == |s| then -1
    else if s[from] == c then from
    else IndexOfFrom(s, c, from + 1)
  }

  /** String.lastIndexOf(char): the last position of `c`, or -1. */
  function LastIndexOf(s: string, c: char): (r: int)
    ensures -1 <= r < |s|
    ensures r >= 0 ==> s[r] == c
    ensures forall j :: 0 <= j < |s| && s[j] == c ==> j <= r
  {
    LastIndexOfBefore(s, c, |s|)
  }

  /** The last position below `end` holding `c`, or -1. */
  function LastIndexOfBefore(s: string, c: char, end: nat): (r: int)
    requires end <= |s|
    ensures r == -1 || (0 <= r < end && s[r] == c)
    ensures forall j :: 0 <= j < end && s[j] == c ==> j <= r
  {
    if end == 0 then -1
    else if s[end - 1] == c then end - 1
    else LastIndexOfBefore(s, c, end - 1)
  }

  /** `needle` sits in `s` starting at position `i`. */
  predicate OccursAt(s: string, needle: string, i: int) {
    0 <= i && i + |needle| <= |s| && s[i..i + |needle|] == needle
  }

  /** String.lastIndexOf(String): the last start position of `needle`, or -1. */
  function LastIndexOfStr(s: string, needle: string): (r: int)
    ensures r == -1 || OccursAt(s, needle, r)
    ensures forall i :: OccursAt(s, needle, i) ==> i <= r
  {
    LastOccurrenceFrom(s, needle, |s| - |needle|)
  }

  /** The last start position not above `i` where `needle` occurs, or -1. */
  function LastOccurrenceFrom(s: string, needle: string, i: int): (r: int)
    requires i <= |s| - |needle|
    ensures r == -1 || (OccursAt(s, needle, r) && r <= i)
    ensures forall k :: OccursAt(s, needle, k) && k <= i ==> k <= r
    decreases i + 1
  {
    if i < 0 then -1
    else if OccursAt(s, needle, i) then i
    else LastOccurrenceFrom(s, needle, i - 1)
  }

  /** The segments joined by ".", as the StringBuilder loop at the wrapping step builds it. */
  function JoinDotted(segs: seq<string>): string
    requires |segs| > 0
  {
    if |segs| == 1 then segs[0]
    else JoinDotted(segs[..|segs| - 1]) + "." + segs[|segs| - 1]
  }
}
