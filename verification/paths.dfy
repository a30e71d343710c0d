/**
 * Paths are `/`-separated. This module gives the meaning of the JavaScript
 * idioms the resolver applies to them: `path.split("/")`, `parts.join("/")`,
 * `split("/").slice(0, -1).join("/")` (one level up) and `split("/")[0]`.
 */
module Paths {
  import opened Wrappers

  const Slash: char := '/'

  /** The index of the last `/` in `s`, or `None` when `s` has none. */
  function LastSlash(s: string): (r: Option<nat>)
    ensures r.Some? ==> r.value < |s| && s[r.value] == Slash
    ensures r.Some? ==> forall j :: r.value < j < |s| ==> s[j] != Slash
    ensures r.None? ==> Slash !in s
  {
    if |s| == 0 then None
    else if s[|s| - 1] == Slash then Some(|s| - 1)
    else
      var r := LastSlash(s[..|s| - 1]);
      assert s == s[..|s| - 1] + [s[|s| - 1]];
      r
  }

  /** A `/` at index `k` with none after it is the last one. */
  lemma LastSlashAt(s: string, k: nat)
    requires k < |s| && s[k] == Slash
    requires forall j :: k < j < |s| ==> s[j] != Slash
    ensures LastSlash(s) == Some(k)
  {
    assert s[k] in s;
  }

  /** `s.split("/")`: the segments between the slashes, the last one after the last slash. */
  function Split(s: string): (parts: seq<string>)
    ensures |parts| >= 1
    decreases |s|
  {
    match LastSlash(s)
    case None => [s]
    case Some(k) => Split(s[..k]) + [s[k + 1..]]
  }

  /** `parts.join("/")`; the join of no parts is `""`. */
  function Join(parts: seq<string>): (s: string)
  {
    if |parts| == 0 then ""
    else if |parts| == 1 then parts[0]
    else Join(parts[..|parts| - 1]) + [Slash] + parts[|parts| - 1]
  }

  /** Joining the segments of a path gives the path back. */
  lemma {:induction false} JoinSplit(s: string)
    ensures Join(Split(s)) == s
    decreases |s|
  {
    match LastSlash(s)
    case None =>
    case Some(k) =>
      var init := Split(s[..k]);
      JoinSplit(s[..k]);
      var parts := init + [s[k + 1..]];
      assert parts[..|parts| - 1] == init;
      assert s == s[..k] + [Slash] + s[k + 1..];
  }

  /** No segment contains a slash. */
  lemma {:induction false} SplitSegmentsHaveNoSlash(s: string)
    ensures forall i :: 0 <= i < |Split(s)| ==> Slash !in Split(s)[i]
    decreases |s|
  {
    match LastSlash(s)
    case None =>
    case Some(k) =>
      SplitSegmentsHaveNoSlash(s[..k]);
  }

  /** Splitting a join of slash-free segments gives the segments back: together
      with JoinSplit and SplitSegmentsHaveNoSlash this pins Split down uniquely. */
  lemma {:induction false} SplitJoin(parts: seq<string>)
    requires |parts| >= 1
    requires forall i :: 0 <= i < |parts| ==> Slash !in parts[i]
    ensures Split(Join(parts)) == parts
    decreases |parts|
  {
    if |parts| == 1 {
      assert LastSlash(parts[0]).None?;
    } else {
      var init := parts[..|parts| - 1];
      var last := parts[|parts| - 1];
      var a := Join(init);
      var s := a + [Slash] + last;
      assert Join(parts) == s;
      forall j | |a| < j < |s| ensures s[j] != Slash {
        assert s[j] == last[j - |a| - 1];
      }
      LastSlashAt(s, |a|);
      assert s[..|a|] == a && s[|a| + 1..] == last;
      SplitJoin(init);
      assert parts == init + [last];
    }
  }

  /** `path.split("/").slice(0, -1).join("/")`: the path one level up. */
  function StepDown(s: string): (r: string)
    ensures LastSlash(s).None? ==> r == ""
    ensures LastSlash(s).Some? ==> r == s[..LastSlash(s).value]
  {
    var parts := Split(s);
    match LastSlash(s)
    case None => Join(parts[..|parts| - 1])
    case Some(k) =>
      JoinSplit(s[..k]);
      assert parts[..|parts| - 1] == Split(s[..k]);
      Join(parts[..|parts| - 1])
  }

  /** One level up is a prefix of the path; with a slash it has one segment fewer,
      and without one it is `""`. */
  lemma StepDownShape(s: string)
    ensures StepDown(s) <= s
    ensures Slash !in s ==> StepDown(s) == ""
    ensures Slash in s ==> |Split(StepDown(s))| == |Split(s)| - 1
    ensures Slash in s ==> s == StepDown(s) + [Slash] + Split(s)[|Split(s)| - 1]
  {
    match LastSlash(s)
    case None =>
    case Some(k) =>
      assert s == s[..k] + [Slash] + s[k + 1..];
  }

  /** Dropping a slash-free last segment leads to what was before it. */
  lemma StepDownAppend(a: string, b: string)
    requires Slash !in b
    ensures StepDown(a + [Slash] + b) == a
  {
    var s := a + [Slash] + b;
    forall j | |a| < j < |s| ensures s[j] != Slash {
      assert s[j] == b[j - |a| - 1];
    }
    LastSlashAt(s, |a|);
    assert s[..|a|] == a;
  }

  /** `path.split("/")[0]`: the first segment. */
  function FirstSegment(s: string): (r: string)
  {
    Split(s)[0]
  }

  /** The first segment is the part of the path before its first slash. */
  lemma {:induction false} FirstSegmentShape(s: string)
    ensures FirstSegment(s) <= s
    ensures Slash !in FirstSegment(s)
    ensures |FirstSegment(s)| == |s| || s[|FirstSegment(s)|] == Slash
    decreases |s|
  {
    SplitSegmentsHaveNoSlash(s);
    match LastSlash(s)
    case None =>
    case Some(k) =>
      FirstSegmentShape(s[..k]);
      assert Split(s)[0] == Split(s[..k])[0];
  }

  /** The first segment of a path that starts with a slash-free `a` and a slash is `a`. */
  lemma FirstSegmentOf(a: string, c: string)
    requires Slash !in a
    ensures FirstSegment(a + [Slash] + c) == a
  {
    var s := a + [Slash] + c;
    FirstSegmentShape(s);
    assert s[|a|] == Slash;
    assert s[..|a|] == a;
  }

  /** A path without a slash is its own single segment. */
  lemma SlashFreeSegments(s: string)
    requires Slash !in s
    ensures Split(s) == [s] && FirstSegment(s) == s && SegmentCount(s) == 1
  {
  }

  /** `path.split("/").length`: the number of segments. */
  function SegmentCount(s: string): (n: nat)
    ensures n >= 1
  {
    |Split(s)|
  }
}
