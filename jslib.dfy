/**
 * The JavaScript array and string operations whose edge cases the controllers rely on:
 * `indexOf` (with its -1 for "absent"), `slice(0, end)` (negative ends count from the back)
 * and `substring(0, end)` (ends are clamped into the string).
 */
module JsLib {

  /** `s.indexOf(x)` for an array element or a single character: the first index of x, or -1. */
  function IndexOf<T(==)>(s: seq<T>, x: T): (r: int)
    ensures -1 <= r < |s|
    ensures r == -1 <==> x !in s
    ensures 0 <= r ==> s[r] == x && x !in s[..r]
  {
    if s == [] then -1
    else if s[0] == x then 0
    else
      var k := IndexOf(s[1..], x);
      if k == -1 then -1
      else
        assert s[..k + 1] == [s[0]] + s[1..][..k];
        k + 1
  }

  /** True when pat occurs in s starting at position i. */
  predicate OccursAt<T(==)>(s: seq<T>, pat: seq<T>, i: nat) {
    i + |pat| <= |s| && s[i..i + |pat|] == pat
  }

  /** A sequence occurs in a concatenation right after the prefix before it. */
  lemma OccursAtJoin<T>(pre: seq<T>, pat: seq<T>, post: seq<T>)
    ensures OccursAt(pre + pat + post, pat, |pre|)
  {
    assert (pre + pat + post)[|pre|..|pre| + |pat|] == pat;
  }

  /** The first position at or after i where pat occurs in s, or -1. */
  function IndexOfFrom<T(==)>(s: seq<T>, pat: seq<T>, i: nat): (r: int)
    requires i <= |s|
    ensures r == -1 || (i <= r && OccursAt(s, pat, r))
    ensures r == -1 ==> forall j: nat :: i <= j ==> !OccursAt(s, pat, j)
    ensures r != -1 ==> forall j: nat :: i <= j < r ==> !OccursAt(s, pat, j)
    decreases |s| - i
  {
    if OccursAt(s, pat, i) then i
    else if i == |s| then -1
    else IndexOfFrom(s, pat, i + 1)
  }

  /** `s.indexOf(pat)` for a substring pattern. */
  function IndexOfSub<T(==)>(s: seq<T>, pat: seq<T>): (r: int)
    ensures r == -1 <==> forall j: nat :: !OccursAt(s, pat, j)
    ensures r != -1 ==> 0 <= r && OccursAt(s, pat, r) && forall j: nat :: j < r ==> !OccursAt(s, pat, j)
  {
    IndexOfFrom(s, pat, 0)
  }

  /** `s.slice(0, end)`: a negative end counts back from the end of s, a large one stops at it. */
  function SliceTo<T>(s: seq<T>, end: int): (r: seq<T>)
    ensures |r| <= |s| && r == s[..|r|]
    ensures 0 <= end <= |s| ==> r == s[..end]
    ensures |s| <= end ==> r == s
    ensures end < 0 ==> |r| == if |s| + end < 0 then 0 else |s| + end
  {
    var stop := if end < 0 then (if |s| + end < 0 then 0 else |s| + end)
                else if end > |s| then |s| else end;
    s[..stop]
  }

  /** `s.substring(0, end)`: the end is clamped into 0..|s|. */
  function SubstringTo<T>(s: seq<T>, end: int): (r: seq<T>)
    ensures end <= 0 ==> r == []
    ensures 0 <= end <= |s| ==> r == s[..end]
    ensures |s| <= end ==> r == s
  {
    if end <= 0 then [] else if end >= |s| then s else s[..end]
  }
}
