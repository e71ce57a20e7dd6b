/** Where a CRUD request points: what routing finds in a target, and the segments of a path. */
module CrudPaths {

  datatype CrudPath = CrudPath(dataPath: string, entityName: string, entityId: string)

  /** One segment of a path. */
  predicate SlashFree(s: string) {
    s != "" && '/' !in s
  }

  predicate NoDoubleSlash(s: string) {
    forall i | 0 <= i < |s| - 1 :: !(s[i] == '/' && s[i + 1] == '/')
  }

  /** An id as routing yields it: it may have slashes, but only single ones between its segments. */
  predicate IsRouted(id: string) {
    id != "" && NoDoubleSlash(id) && id[0] != '/' && id[|id| - 1] != '/'
  }

  function FirstSegment(s: string): (first: string)
    ensures '/' !in first && |first| <= |s|
    ensures s[..|first|] == first && (|first| < |s| ==> s[|first|] == '/')
  {
    if s == "" || s[0] == '/' then "" else [s[0]] + FirstSegment(s[1..])
  }

  /** What is behind the first segment and its slash. */
  function BehindSegment(s: string): (behind: string)
    ensures s != "" ==> |behind| < |s|
  {
    var k := |FirstSegment(s)|;
    if k < |s| then s[k + 1..] else ""
  }

  lemma {:induction false} FirstSegmentOfPlain(s: string)
    requires '/' !in s
    ensures FirstSegment(s) == s
    decreases s
  {
    if s != "" {
      FirstSegmentOfPlain(s[1..]);
      assert s == [s[0]] + s[1..];
    }
  }

  lemma RoutedTail(s: string, k: nat)
    requires IsRouted(s) && k < |s| && s[k] == '/'
    ensures IsRouted(s[k + 1..])
  {
    var t := s[k + 1..];
    assert k + 1 < |s|;
    forall i | 0 <= i < |t| - 1
      ensures !(t[i] == '/' && t[i + 1] == '/')
    {
      assert t[i] == s[k + 1 + i] && t[i + 1] == s[k + 1 + (i + 1)];
    }
  }

  lemma SplitAtSlash(s: string, k: nat)
    requires k < |s| && s[k] == '/'
    ensures s == s[..k] + ("/" + s[k + 1..]) && '/' in s
  {
  }

  lemma FirstIsSome(s: string)
    requires s != "" && s[0] != '/'
    ensures FirstSegment(s) != ""
  {
  }

  /** A routed text is a segment, or a segment, a slash and another routed text. */
  lemma RoutedSegments(s: string)
    requires IsRouted(s)
    ensures var first, behind := FirstSegment(s), BehindSegment(s);
      && SlashFree(first)
      && (behind == "" <==> '/' !in s)
      && (behind == "" ==> s == first)
      && (behind != "" ==> IsRouted(behind) && s == first + ("/" + behind))
  {
    var k := |FirstSegment(s)|;
    FirstIsSome(s);
    if k < |s| {
      SplitAtSlash(s, k);
      RoutedTail(s, k);
    } else {
      assert s[..k] == s;
    }
  }

  function LastSegment(path: string): string
    decreases |path|
  {
    if BehindSegment(path) == "" then FirstSegment(path) else LastSegment(BehindSegment(path))
  }

  predicate IsDots(segment: string) {
    segment == "." || segment == ".."
  }
}
