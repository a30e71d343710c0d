/**
 * The string and array helpers of the resolver: `translate`,
 * `stripTrailingSlash`, `findUnknownPaths`, `stepDownOnPaths` and
 * `findUniqueKeysInParameters`. Each helper that builds an array in a loop is a
 * method proved against a function that says what the array holds.
 */
module GeneralHelper {
  import opened Wrappers
  import opened Entities
  import opened Paths
  import opened Strings

  // ---------------------------------------------------------------------------
  // translate

  /**
   * The text after each replacement entry, in enumeration order, has replaced
   * the first occurrence of its key by its value; entries whose value is not a
   * string are skipped.
   */
  function Replaced(text: string, entries: seq<(string, Json)>): (r: string)
    decreases |entries|
  {
    if |entries| == 0 then text
    else
      var t := Replaced(text, entries[..|entries| - 1]);
      var (key, v) := entries[|entries| - 1];
      if v.Str? then ReplaceFirst(t, key, v.s) else t
  }

  /** Replacements whose values are all non-strings leave the text as it is. */
  lemma {:induction false} NonStringReplacementsAreSkipped(text: string, entries: seq<(string, Json)>)
    requires forall i :: 0 <= i < |entries| ==> !entries[i].1.Str?
    ensures Replaced(text, entries) == text
    decreases |entries|
  {
    if |entries| > 0 {
      NonStringReplacementsAreSkipped(text, entries[..|entries| - 1]);
    }
  }

  /** One string replacement changes only the first occurrence of its key; a key
      that does not occur leaves the text unchanged. */
  lemma SingleReplacement(text: string, key: string, value: string, i: nat)
    requires FirstOccurrence(text, key, i)
    ensures Replaced(text, [(key, Str(value))]) == text[..i] + value + text[i + |key|..]
    ensures forall k: nat :: k < i ==> !OccursAt(text, key, k)
  {
    assert [(key, Str(value))][..0] == [];
  }

  /**
   * `translate(type, key, replacement)` once the template has been looked up:
   * `replacement` is `None` for `null` (or any non-object), otherwise the
   * object's entries in enumeration order.
   */
  method Translate(text: string, replacement: Option<seq<(string, Json)>>) returns (r: string)
    ensures replacement.None? ==> r == text
    ensures replacement.Some? ==> r == Replaced(text, replacement.value)
  {
    r := text;
    if replacement.Some? {
      var entries := replacement.value;
      for i := 0 to |entries|
        invariant r == Replaced(text, entries[..i])
      {
        var (key, v) := entries[i];
        if v.Str? {
          r := ReplaceFirst(r, key, v.s);
        }
        assert entries[..i + 1][..i] == entries[..i];
      }
      assert entries[..|entries|] == entries;
    }
  }

  /** A template that starts with its key gets the value in the key's place, as
      `":replacement does not exists."` becomes `"Parameter does not exists."`. */
  lemma ReplaceLeadingKey(key: string, rest: string, value: string)
    ensures Replaced(key + rest, [(key, Str(value))]) == value + rest
  {
    var text := key + rest;
    assert text[0..|key|] == key;
    assert FirstOccurrence(text, key, 0);
    SingleReplacement(text, key, value, 0);
    assert text[|key|..] == rest;
  }

  // ---------------------------------------------------------------------------
  // stripTrailingSlash

  /** `str.endsWith("/") ? str.slice(0, -1) : str`. */
  function StripTrailingSlash(s: string): (r: string)
    ensures r <= s && |s| - 1 <= |r|
    ensures |s| > 0 && s[|s| - 1] == Slash ==> r + [Slash] == s
    ensures (|s| == 0 || s[|s| - 1] != Slash) ==> r == s
  {
    if |s| > 0 && s[|s| - 1] == Slash then s[..|s| - 1] else s
  }

  // ---------------------------------------------------------------------------
  // findUnknownPaths

  /** lodash `find(parameters, { path })`: the first parameter with that path. */
  function FindByPath(ps: seq<Parameter>, path: string): (r: Option<Parameter>)
    ensures r.None? <==> path !in PathsOf(ps)
    ensures r.Some? ==> r.value in ps && r.value.path == path
  {
    if |ps| == 0 then None
    else if ps[0].path == path then Some(ps[0])
    else
      assert PathsOf(ps) == [ps[0].path] + PathsOf(ps[1..]);
      FindByPath(ps[1..], path)
  }

  /** The find answers the entry at `i` when no earlier entry has its path. */
  lemma {:induction false} FindByPathFirst(ps: seq<Parameter>, i: nat)
    requires i < |ps|
    requires forall j :: 0 <= j < i ==> ps[j].path != ps[i].path
    ensures FindByPath(ps, ps[i].path) == Some(ps[i])
    decreases i
  {
    if i > 0 {
      assert ps[0].path != ps[i].path;
      assert ps[1..][i - 1] == ps[i];
      FindByPathFirst(ps[1..], i - 1);
    }
  }

  /** The given paths, in order and with repetitions, that no found parameter has. */
  function UnknownPaths(given: seq<string>, found: seq<Parameter>): (unknown: seq<string>)
    decreases |given|
  {
    if |given| == 0 then []
    else
      var rest := UnknownPaths(given[..|given| - 1], found);
      var p := given[|given| - 1];
      if p in PathsOf(found) then rest else rest + [p]
  }

  /** A path occurs among the unknown paths exactly as often as among the given
      ones when no parameter has it, and not at all otherwise. */
  lemma {:induction false} UnknownPathsCount(given: seq<string>, found: seq<Parameter>, x: string)
    ensures multiset(UnknownPaths(given, found))[x]
         == if x in PathsOf(found) then 0 else multiset(given)[x]
    ensures x in UnknownPaths(given, found) <==> x in given && x !in PathsOf(found)
    decreases |given|
  {
    if |given| > 0 {
      var init := given[..|given| - 1];
      UnknownPathsCount(init, found, x);
      assert given == init + [given[|given| - 1]];
    }
  }

  /** `s` is `t` with some elements left out, the rest kept in order. */
  predicate Subsequence(s: seq<string>, t: seq<string>)
    decreases |t|
  {
    if |s| == 0 then true
    else if |t| == 0 then false
    else (s[|s| - 1] == t[|t| - 1] && Subsequence(s[..|s| - 1], t[..|t| - 1])) || Subsequence(s, t[..|t| - 1])
  }

  /** The unknown paths keep the order of the given paths: they are the given
      paths with the found ones left out. */
  lemma {:induction false} UnknownPathsSubsequence(given: seq<string>, found: seq<Parameter>)
    ensures Subsequence(UnknownPaths(given, found), given)
    decreases |given|
  {
    if |given| > 0 {
      var init := given[..|given| - 1];
      var u := UnknownPaths(init, found);
      UnknownPathsSubsequence(init, found);
      if given[|given| - 1] !in PathsOf(found) {
        assert (u + [given[|given| - 1]])[..|u|] == u;
      }
    }
  }

  /** One more given path is unknown exactly when no found parameter has it. */
  lemma UnknownPathsSnoc(given: seq<string>, x: string, found: seq<Parameter>)
    ensures UnknownPaths(given + [x], found) == UnknownPaths(given, found) + if x in PathsOf(found) then [] else [x]
  {
    assert (given + [x])[..|given|] == given;
  }

  /** `findUnknownPaths(givenPaths, foundParamaters)`. */
  method FindUnknownPaths(givenPaths: seq<string>, foundParameters: seq<Parameter>)
    returns (pathsNotFound: seq<string>)
    ensures pathsNotFound == UnknownPaths(givenPaths, foundParameters)
  {
    pathsNotFound := [];
    for i := 0 to |givenPaths|
      invariant pathsNotFound == UnknownPaths(givenPaths[..i], foundParameters)
    {
      var element := givenPaths[i];
      var found := FindByPath(foundParameters, element);
      if found.None? {
        pathsNotFound := pathsNotFound + [element];
      }
      assert givenPaths[..i + 1][..i] == givenPaths[..i];
    }
    assert givenPaths[..|givenPaths|] == givenPaths;
  }

  // ---------------------------------------------------------------------------
  // stepDownOnPaths

  /** Every path one level up, position by position. */
  function StepDownAll(paths: seq<string>): seq<string>
  {
    seq(|paths|, i requires 0 <= i < |paths| => StepDown(paths[i]))
  }

  /** `stepDownOnPaths(unknownPaths)`: same length and order, each path one level
      up, which is a prefix of it and `""` for a path without a slash. */
  method StepDownOnPaths(unknownPaths: seq<string>) returns (steppedDownPaths: seq<string>)
    ensures |steppedDownPaths| == |unknownPaths|
    ensures forall i :: 0 <= i < |unknownPaths| ==>
      steppedDownPaths[i] == StepDown(unknownPaths[i]) && steppedDownPaths[i] <= unknownPaths[i]
    ensures forall i :: 0 <= i < |unknownPaths| && Slash !in unknownPaths[i] ==> steppedDownPaths[i] == ""
    ensures steppedDownPaths == StepDownAll(unknownPaths)
  {
    steppedDownPaths := [];
    for i := 0 to |unknownPaths|
      invariant |steppedDownPaths| == i
      invariant forall j :: 0 <= j < i ==> steppedDownPaths[j] == StepDown(unknownPaths[j])
    {
      var path := Join(Split(unknownPaths[i])[..|Split(unknownPaths[i])| - 1]);
      steppedDownPaths := steppedDownPaths + [path];
    }
    forall i | 0 <= i < |unknownPaths| ensures steppedDownPaths[i] <= unknownPaths[i] {
      StepDownShape(unknownPaths[i]);
    }
  }

  // ---------------------------------------------------------------------------
  // findUniqueKeysInParameters

  /** The first segment of every parameter's path, position by position. */
  function FirstSegments(ps: seq<Parameter>): seq<string>
  {
    seq(|ps|, i requires 0 <= i < |ps| => FirstSegment(ps[i].path))
  }

  /** The distinct keys, each at its first appearance. */
  function UniqueKeys(keys: seq<string>): (r: seq<string>)
    decreases |keys|
  {
    if |keys| == 0 then []
    else
      var u := UniqueKeys(keys[..|keys| - 1]);
      if keys[|keys| - 1] in u then u else u + [keys[|keys| - 1]]
  }

  /** The index of the first occurrence of `x` in `s`. */
  function FirstIndex(s: seq<string>, x: string): (r: nat)
    requires x in s
    ensures r < |s| && s[r] == x
    ensures forall j :: 0 <= j < r ==> s[j] != x
  {
    if s[0] == x then 0 else 1 + FirstIndex(s[1..], x)
  }

  /** The first occurrence in `s` of an element of a prefix of `s` lies in that prefix. */
  lemma FirstIndexInPrefix(s: seq<string>, n: nat, x: string)
    requires n <= |s| && x in s[..n]
    ensures FirstIndex(s, x) == FirstIndex(s[..n], x)
  {
    var i, k := FirstIndex(s, x), FirstIndex(s[..n], x);
    assert s[k] == x;
    assert !(k < i);
  }

  /** Unique keys: no duplicates, exactly the keys that occur, in order of first appearance. */
  lemma {:induction false} UniqueKeysSpec(keys: seq<string>)
    ensures Distinct(UniqueKeys(keys))
    ensures forall k :: k in UniqueKeys(keys) <==> k in keys
    ensures forall i, j :: 0 <= i < j < |UniqueKeys(keys)| ==>
      FirstIndex(keys, UniqueKeys(keys)[i]) < FirstIndex(keys, UniqueKeys(keys)[j])
    decreases |keys|
  {
    if |keys| > 0 {
      var init := keys[..|keys| - 1];
      var last := keys[|keys| - 1];
      var u := UniqueKeys(init);
      UniqueKeysSpec(init);
      assert keys == init + [last];
      forall x | x in u ensures FirstIndex(keys, x) == FirstIndex(init, x) {
        FirstIndexInPrefix(keys, |init|, x);
      }
      if last !in u {
        assert FirstIndex(keys, last) == |init|;
      }
    }
  }

  /** Every unique key is a slash-free prefix of the path of some parameter. */
  lemma UniqueKeysArePrefixes(ps: seq<Parameter>)
    ensures forall k :: k in UniqueKeys(FirstSegments(ps)) ==>
      Slash !in k && exists i :: 0 <= i < |ps| && k <= ps[i].path && k == FirstSegment(ps[i].path)
  {
    UniqueKeysSpec(FirstSegments(ps));
    forall i | 0 <= i < |ps| ensures Slash !in FirstSegment(ps[i].path) && FirstSegment(ps[i].path) <= ps[i].path {
      FirstSegmentShape(ps[i].path);
    }
  }

  /** `findUniqueKeysInParameters(parameters)`. */
  method FindUniqueKeysInParameters(parameters: seq<Parameter>) returns (uniqueKeys: seq<string>)
    ensures uniqueKeys == UniqueKeys(FirstSegments(parameters))
    ensures Distinct(uniqueKeys)
    ensures forall k :: k in uniqueKeys <==> exists i :: 0 <= i < |parameters| && k == FirstSegment(parameters[i].path)
  {
    uniqueKeys := [];
    ghost var keys := FirstSegments(parameters);
    for i := 0 to |parameters|
      invariant uniqueKeys == UniqueKeys(keys[..i])
    {
      var key := Split(parameters[i].path)[0];
      if key !in uniqueKeys {
        uniqueKeys := uniqueKeys + [key];
      }
      assert keys[..i + 1][..i] == keys[..i];
    }
    assert keys[..|parameters|] == keys;
    UniqueKeysSpec(keys);
    assert forall k :: k in keys <==> exists i :: 0 <= i < |parameters| && k == FirstSegment(parameters[i].path) by {
      assert forall i :: 0 <= i < |parameters| ==> keys[i] == FirstSegment(parameters[i].path);
    }
  }
}
