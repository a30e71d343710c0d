/**
 * The "most specific parameter per group" filter of the wildcard list:
 * `groupBy(rows, "path")` and `findMoreSpecificParameters`. The grouped
 * dictionary is an object whose arrays the filter `pop()`s in place, and the
 * output array is the caller's, which the filter only `push`es onto.
 *
 * The dictionary's key order is taken to be first-appearance order (the order
 * `groupBy` inserts them in).
 */
module Specificity {
  import opened Wrappers
  import opened Entities
  import opened Paths
  import opened GeneralHelper

  /** The arrays of a grouped dictionary, by key. */
  type Buckets = map<string, seq<Parameter>>

  /** A grouped dictionary as a value: its keys in enumeration order and its arrays. */
  datatype Groups = Groups(keys: seq<string>, buckets: Buckets)

  /** What a run of `pop()`s pushes and the arrays it leaves. */
  datatype Yield = Yield(out: seq<Option<Parameter>>, buckets: Buckets)

  // ---------------------------------------------------------------------------
  // groupBy

  /** The rows with path `p`, in order. */
  function RowsWithPath(rows: seq<Parameter>, p: string): (r: seq<Parameter>)
    decreases |rows|
  {
    if |rows| == 0 then []
    else
      var init := RowsWithPath(rows[..|rows| - 1], p);
      if rows[|rows| - 1].path == p then init + [rows[|rows| - 1]] else init
  }

  /** A path that no row has selects no row. */
  lemma {:induction false} RowsWithAbsentPath(rows: seq<Parameter>, p: string)
    requires p !in PathsOf(rows)
    ensures RowsWithPath(rows, p) == []
    decreases |rows|
  {
    if |rows| > 0 {
      assert PathsOf(rows[..|rows| - 1]) == PathsOf(rows)[..|rows| - 1];
      RowsWithAbsentPath(rows[..|rows| - 1], p);
    }
  }

  /** `groupBy(rows, "path")`: the distinct paths, in order of first appearance,
      each with the rows that have it, in order. */
  function GroupBy(rows: seq<Parameter>): (g: Groups)
    ensures g.keys == UniqueKeys(PathsOf(rows))
    ensures Distinct(g.keys)
    ensures forall k :: k in g.buckets <==> k in g.keys
    ensures forall k :: k in g.buckets <==> k in PathsOf(rows)
    ensures forall k :: k in g.buckets ==> g.buckets[k] == RowsWithPath(rows, k)
    decreases |rows|
  {
    UniqueKeysSpec(PathsOf(rows));
    if |rows| == 0 then Groups([], map[])
    else
      var init := rows[..|rows| - 1];
      var r := rows[|rows| - 1];
      var g := GroupBy(init);
      assert PathsOf(init) == PathsOf(rows)[..|rows| - 1];
      assert PathsOf(rows) == PathsOf(init) + [r.path];
      if r.path in g.buckets then
        Groups(g.keys, g.buckets[r.path := g.buckets[r.path] + [r]])
      else
        RowsWithAbsentPath(init, r.path);
        Groups(g.keys + [r.path], g.buckets[r.path := [r]])
  }

  /** Rows with distinct paths give one array of one row per path. */
  lemma {:induction false} DistinctPathsGiveSingletons(rows: seq<Parameter>)
    requires Distinct(PathsOf(rows))
    ensures forall i :: 0 <= i < |rows| ==> RowsWithPath(rows, rows[i].path) == [rows[i]]
    decreases |rows|
  {
    if |rows| > 0 {
      var init := rows[..|rows| - 1];
      var r := rows[|rows| - 1];
      assert PathsOf(init) == PathsOf(rows)[..|rows| - 1];
      DistinctPathsGiveSingletons(init);
      assert r.path !in PathsOf(init) by {
        forall j | 0 <= j < |init| ensures PathsOf(init)[j] != r.path {
          assert PathsOf(rows)[j] != PathsOf(rows)[|rows| - 1];
        }
      }
      RowsWithAbsentPath(init, r.path);
      forall i | 0 <= i < |init| ensures RowsWithPath(rows, rows[i].path) == [rows[i]] {
        assert PathsOf(rows)[i] != PathsOf(rows)[|rows| - 1];
      }
    }
  }

  // ---------------------------------------------------------------------------
  // findMoreSpecificParameters, as functions

  /** `result[key]?.pop()`: the last row of the key's array, which loses it;
      `undefined` when the key is absent or its array already empty. */
  function PopFrom(b: Buckets, k: string): (y: Yield)
    ensures |y.out| == 1 && y.buckets.Keys == b.Keys
    ensures y.out[0].Some? <==> k in b && |b[k]| > 0
    ensures y.out[0].Some? ==> y.buckets[k] + [y.out[0].value] == b[k]
    ensures forall j :: j in b && (j != k || y.out[0].None?) ==> y.buckets[j] == b[j]
  {
    if k in b && |b[k]| > 0 then Yield([Some(b[k][|b[k]| - 1])], b[k := b[k][..|b[k]| - 1]])
    else Yield([None], b)
  }

  /** One `pop()` per key, in order, each on the arrays the previous ones left. */
  function PopEach(ks: seq<string>, b: Buckets): (y: Yield)
    ensures |y.out| == |ks| && y.buckets.Keys == b.Keys
    ensures forall j :: j in b && j !in ks ==> y.buckets[j] == b[j]
    decreases |ks|
  {
    if |ks| == 0 then Yield([], b)
    else
      assert ks == ks[..|ks| - 1] + [ks[|ks| - 1]];
      var y := PopEach(ks[..|ks| - 1], b);
      var z := PopFrom(y.buckets, ks[|ks| - 1]);
      Yield(y.out + z.out, z.buckets)
  }

  /** The largest segment count among the keys; 0 for none. */
  function MaxSegments(ks: seq<string>): (m: nat)
    ensures forall i :: 0 <= i < |ks| ==> SegmentCount(ks[i]) <= m
    ensures |ks| == 0 <==> m == 0
    ensures |ks| > 0 ==> exists i :: 0 <= i < |ks| && SegmentCount(ks[i]) == m
    decreases |ks|
  {
    if |ks| == 0 then 0
    else
      var m := MaxSegments(ks[..|ks| - 1]);
      var n := SegmentCount(ks[|ks| - 1]);
      assert forall i :: 0 <= i < |ks| - 1 ==> ks[..|ks| - 1][i] == ks[i];
      if n > m then n else m
  }

  /** The keys the running `length` comparison selects: each key with more
      segments than every key before it. */
  function Deepest(ks: seq<string>): (selected: seq<string>)
    decreases |ks|
  {
    if |ks| == 0 then []
    else
      var init := ks[..|ks| - 1];
      var k := ks[|ks| - 1];
      Deepest(init) + (if SegmentCount(k) > MaxSegments(init) then [k] else [])
  }

  /** The selected keys are taken from ks, at most one per key. */
  lemma {:induction false} DeepestWithin(ks: seq<string>)
    ensures forall k :: k in Deepest(ks) ==> k in ks
    ensures |Deepest(ks)| <= |ks|
    decreases |ks|
  {
    if |ks| > 0 {
      DeepestWithin(ks[..|ks| - 1]);
      assert forall x :: x in ks[..|ks| - 1] ==> x in ks;
    }
  }

  /** The selected keys have strictly increasing segment counts. */
  lemma {:induction false} DeepestIncreasing(ks: seq<string>)
    ensures forall i, j :: 0 <= i < j < |Deepest(ks)| ==>
      SegmentCount(Deepest(ks)[i]) < SegmentCount(Deepest(ks)[j])
    decreases |ks|
  {
    if |ks| > 0 {
      var init := ks[..|ks| - 1];
      DeepestIncreasing(init);
      DeepestWithin(init);
      var d := Deepest(init);
      forall x | x in d ensures SegmentCount(x) <= MaxSegments(init) {
        var i :| 0 <= i < |init| && init[i] == x;
      }
    }
  }

  /** The first key is always selected, and the last selected key has the most
      segments of all; so at least one key is selected. */
  lemma {:induction false} DeepestEnds(ks: seq<string>)
    requires |ks| > 0
    ensures |Deepest(ks)| >= 1 && Deepest(ks)[0] == ks[0]
    ensures SegmentCount(Deepest(ks)[|Deepest(ks)| - 1]) == MaxSegments(ks)
    decreases |ks|
  {
    var init := ks[..|ks| - 1];
    var k := ks[|ks| - 1];
    if |init| == 0 {
      assert Deepest(ks) == [k];
    } else {
      DeepestEnds(init);
      assert init[0] == ks[0];
    }
  }

  /** `pickBy(groupedKeys, (value, key) => key.startsWith(uniqueKey))`: the keys
      that start with `u`, in enumeration order. */
  function Levels(keys: seq<string>, u: string): (r: seq<string>)
    ensures forall k :: k in r <==> k in keys && u <= k
    decreases |keys|
  {
    if |keys| == 0 then []
    else
      var init := Levels(keys[..|keys| - 1], u);
      assert keys == keys[..|keys| - 1] + [keys[|keys| - 1]];
      if u <= keys[|keys| - 1] then init + [keys[|keys| - 1]] else init
  }

  /** One iteration of the outer `forEach`, for unique key `u`. */
  function GroupStep(u: string, keys: seq<string>, b: Buckets): (y: Yield)
    ensures y.buckets.Keys == b.Keys
    ensures 1 <= |y.out| <= if |Levels(keys, u)| <= 1 then 1 else |Levels(keys, u)|
  {
    var levels := Levels(keys, u);
    if |levels| <= 1 then PopFrom(b, u)
    else
      DeepestWithin(levels);
      DeepestEnds(levels);
      PopEach(Deepest(levels), b)
  }

  /** All iterations of the outer `forEach`, over `us` in order. Reassigning
      `uniqueKeys` inside the loop does not change what `forEach` visits. */
  function MoreSpecific(us: seq<string>, keys: seq<string>, b: Buckets): (y: Yield)
    ensures y.buckets.Keys == b.Keys
    ensures |y.out| >= |us|
    decreases |us|
  {
    if |us| == 0 then Yield([], b)
    else
      var y := MoreSpecific(us[..|us| - 1], keys, b);
      var z := GroupStep(us[|us| - 1], keys, y.buckets);
      Yield(y.out + z.out, z.buckets)
  }

  /** A group with at most one key pushes exactly one entry: the popped row of the
      unique key itself, or `undefined` when that key has no (non-empty) array,
      as when the lone path is longer than the key. */
  lemma LoneGroupPushesOne(u: string, keys: seq<string>, b: Buckets)
    requires |Levels(keys, u)| <= 1
    ensures |GroupStep(u, keys, b).out| == 1
    ensures GroupStep(u, keys, b).out[0].Some? <==> u in b && |b[u]| > 0
    ensures u in b && |b[u]| > 0 ==> GroupStep(u, keys, b).out[0] == Some(b[u][|b[u]| - 1])
  {
  }

  /** A group with several keys pushes one entry per selected key, in order. */
  lemma {:induction false} WideGroupPushesDeepening(u: string, keys: seq<string>, b: Buckets)
    requires |Levels(keys, u)| > 1
    ensures var out := GroupStep(u, keys, b).out;
      1 <= |out| == |Deepest(Levels(keys, u))| <= |Levels(keys, u)|
  {
    DeepestWithin(Levels(keys, u));
    DeepestEnds(Levels(keys, u));
  }

  /** Every array holds only rows from `rows`. */
  predicate Within(b: Buckets, rows: seq<Parameter>)
  {
    forall k, i :: k in b && 0 <= i < |b[k]| ==> b[k][i] in rows
  }

  lemma {:induction false} PopEachWithin(ks: seq<string>, b: Buckets, rows: seq<Parameter>)
    requires Within(b, rows)
    ensures Within(PopEach(ks, b).buckets, rows)
    ensures forall x :: x in PopEach(ks, b).out && x.Some? ==> x.value in rows
    decreases |ks|
  {
    if |ks| > 0 {
      PopEachWithin(ks[..|ks| - 1], b, rows);
    }
  }

  /** The filter pushes nothing but rows taken from the arrays. */
  lemma {:induction false} MoreSpecificWithin(us: seq<string>, keys: seq<string>, b: Buckets, rows: seq<Parameter>)
    requires Within(b, rows)
    ensures Within(MoreSpecific(us, keys, b).buckets, rows)
    ensures forall x :: x in MoreSpecific(us, keys, b).out && x.Some? ==> x.value in rows
    decreases |us|
  {
    if |us| > 0 {
      var y := MoreSpecific(us[..|us| - 1], keys, b);
      MoreSpecificWithin(us[..|us| - 1], keys, b, rows);
      var levels := Levels(keys, us[|us| - 1]);
      if |levels| > 1 {
        PopEachWithin(Deepest(levels), y.buckets, rows);
      }
    }
  }

  // ---------------------------------------------------------------------------
  // The wildcard list result

  /** The entries the list operation returns for the rows its pattern matched:
      `findMoreSpecificParameters(findUniqueKeysInParameters(rows), groupBy(rows, "path"), [])`. */
  function MostSpecificOf(rows: seq<Parameter>): (r: seq<Option<Parameter>>)
    ensures |r| >= |UniqueKeys(FirstSegments(rows))|
  {
    var g := GroupBy(rows);
    MoreSpecific(UniqueKeys(FirstSegments(rows)), g.keys, g.buckets).out
  }

  /** Every defined entry of the result is one of the matched rows. */
  lemma MostSpecificOfSound(rows: seq<Parameter>)
    ensures forall x :: x in MostSpecificOf(rows) && x.Some? ==> x.value in rows
  {
    var g := GroupBy(rows);
    forall k, i | k in g.buckets && 0 <= i < |g.buckets[k]| ensures g.buckets[k][i] in rows {
      RowsWithinRows(rows, k);
    }
    MoreSpecificWithin(UniqueKeys(FirstSegments(rows)), g.keys, g.buckets, rows);
  }

  lemma {:induction false} RowsWithinRows(rows: seq<Parameter>, p: string)
    ensures forall x :: x in RowsWithPath(rows, p) ==> x in rows && x.path == p
    decreases |rows|
  {
    if |rows| > 0 {
      RowsWithinRows(rows[..|rows| - 1], p);
    }
  }

  /** Two rows with different paths group into one array each. */
  lemma GroupByTwo(r1: Parameter, r2: Parameter)
    requires r1.path != r2.path
    ensures GroupBy([r1, r2]) == Groups([r1.path, r2.path], map[r1.path := [r1], r2.path := [r2]])
  {
    GroupByOne(r1);
    assert [r1, r2][..1] == [r1];
    assert [r1.path] + [r2.path] == [r1.path, r2.path];
  }

  /** Two different keys are both unique keys, in order. */
  lemma UniqueKeysTwo(x: string, y: string)
    requires x != y
    ensures UniqueKeys([x, y]) == [x, y]
  {
    assert [x, y][..1] == [x] && [x][..0] == [];
    assert UniqueKeys([x]) == [x];
  }

  /** The filter over two unique keys runs the second group step on what the first left. */
  lemma MoreSpecificTwo(u1: string, u2: string, keys: seq<string>, b: Buckets, o1: seq<Option<Parameter>>, o2: seq<Option<Parameter>>)
    requires GroupStep(u1, keys, b).out == o1
    requires GroupStep(u2, keys, GroupStep(u1, keys, b).buckets).out == o2
    ensures MoreSpecific([u1, u2], keys, b).out == o1 + o2
  {
    MoreSpecificOne(u1, keys, b);
    MoreSpecificSnoc([u1], u2, keys, b);
    assert [u1] + [u2] == [u1, u2];
  }

  /** The filter over one unique key is that key's group step. */
  lemma MoreSpecificOne(u: string, keys: seq<string>, b: Buckets)
    ensures MoreSpecific([u], keys, b) == GroupStep(u, keys, b)
  {
    assert [u][..0] == [];
    assert [] + GroupStep(u, keys, b).out == GroupStep(u, keys, b).out;
  }

  /** `MostSpecificOf` from the unique keys, the groups and what the filter makes of them. */
  lemma MostSpecificOfIs(rows: seq<Parameter>, us: seq<string>, keys: seq<string>, b: Buckets, o: seq<Option<Parameter>>)
    requires UniqueKeys(FirstSegments(rows)) == us
    requires GroupBy(rows) == Groups(keys, b)
    requires MoreSpecific(us, keys, b).out == o
    ensures MostSpecificOf(rows) == o
  {
  }

  /** Two slash-free paths, neither a prefix of the other, each form their own
      group and are both returned, in order. */
  lemma SeparateGroupsBothReturned(r1: Parameter, r2: Parameter)
    requires Slash !in r1.path && Slash !in r2.path
    requires !(r1.path <= r2.path) && !(r2.path <= r1.path)
    ensures MostSpecificOf([r1, r2]) == [Some(r1), Some(r2)]
  {
    var p, q := r1.path, r2.path;
    SlashFreeSegments(p);
    SlashFreeSegments(q);
    assert FirstSegments([r1, r2]) == [p, q];
    UniqueKeysTwo(p, q);
    GroupByTwo(r1, r2);
    SeparateSteps(r1, r2);
    MostSpecificOfIs([r1, r2], [p, q], [p, q], map[p := [r1], q := [r2]], [Some(r1), Some(r2)]);
  }

  /** The filter over two groups of one key each. */
  lemma SeparateSteps(r1: Parameter, r2: Parameter)
    requires r1.path != r2.path
    requires !(r1.path <= r2.path) && !(r2.path <= r1.path)
    ensures MoreSpecific([r1.path, r2.path], [r1.path, r2.path], map[r1.path := [r1], r2.path := [r2]]).out
         == [Some(r1), Some(r2)]
  {
    var p, q := r1.path, r2.path;
    SeparateLevels(p, q);
    TwoLoneKeys(p, q, [p, q], map[p := [r1], q := [r2]]);
  }

  /** The levels of two keys, neither a prefix of the other: each key alone. */
  lemma SeparateLevels(p: string, q: string)
    requires !(p <= q) && !(q <= p)
    ensures Levels([p, q], p) == [p] && Levels([p, q], q) == [q]
  {
    LevelsOfOne(p, p);
    LevelsOfOne(p, q);
    assert [p, q][..1] == [p];
  }

  /** Two keys each alone in its level, each with a one-row array, push both rows in order. */
  lemma TwoLoneKeys(p: string, q: string, keys: seq<string>, b: Buckets)
    requires p != q && Levels(keys, p) == [p] && Levels(keys, q) == [q]
    requires p in b && |b[p]| == 1 && q in b && |b[q]| == 1
    ensures MoreSpecific([p, q], keys, b).out == [Some(b[p][0]), Some(b[q][0])]
  {
    LoneKeyPopsOwnRow(p, keys, b);
    LoneKeyPopsOwnRow(q, keys, b[p := []]);
    MoreSpecificTwo(p, q, keys, b, [Some(b[p][0])], [Some(b[q][0])]);
  }

  /** A lone path deeper than its first segment yields `undefined`: the group of
      key `a` holds only `a/c`, and `result["a"]` does not exist. */
  lemma LoneDeeperPathYieldsUndefined(r: Parameter, a: string, c: string)
    requires Slash !in a && r.path == a + [Slash] + c
    ensures MostSpecificOf([r]) == [None]
  {
    LoneDeeperKeys(r, a, c);
    var keys, b := [r.path], map[r.path := [r]];
    GroupByOne(r);
    LevelsOfOne(r.path, a);
    LoneGroupPushesOne(a, keys, b);
    MoreSpecificOne(a, keys, b);
    MostSpecificOfIs([r], [a], keys, b, [None]);
  }

  /** The unique key of a lone `a/c` is `a`, a proper prefix of the path. */
  lemma LoneDeeperKeys(r: Parameter, a: string, c: string)
    requires Slash !in a && r.path == a + [Slash] + c
    ensures UniqueKeys(FirstSegments([r])) == [a]
    ensures a <= r.path && a != r.path
  {
    FirstSegmentOf(a, c);
    assert FirstSegments([r]) == [a];
    UniqueKeysOne(a);
    assert |a| < |r.path|;
    assert r.path[..|a|] == a;
  }

  /** The levels among a single key. */
  lemma LevelsOfOne(x: string, u: string)
    ensures Levels([x], u) == if u <= x then [x] else []
  {
    assert [x][..0] == [];
  }

  /** A single key is its own unique key. */
  lemma UniqueKeysOne(x: string)
    ensures UniqueKeys([x]) == [x]
  {
    assert [x][..0] == [];
  }

  /** A single row forms one group. */
  lemma GroupByOne(r: Parameter)
    ensures GroupBy([r]) == Groups([r.path], map[r.path := [r]])
  {
    assert [r][..0] == [];
    assert PathsOf([r]) == [r.path];
    UniqueKeysOne(r.path);
    assert RowsWithPath([r], r.path) == [r];
  }

  /** A key that is a proper prefix of another key shares its group (`startsWith`
      is not bounded by a slash): here the longer path `a+c` is popped in its own
      group first, so the group of `a` pops its emptied array and pushes
      `undefined`, and the row of `a` is never returned. */
  lemma OverlappingGroupYieldsUndefined(r1: Parameter, r2: Parameter, a: string, c: string)
    requires Slash !in a && Slash !in c && |c| > 0
    requires r1.path == a + c && r2.path == a
    ensures MostSpecificOf([r1, r2]) == [Some(r1), None]
  {
    assert Slash !in r1.path;
    assert r2.path <= r1.path;
    assert |r2.path| < |r1.path|;
    PrefixKeyYieldsUndefined(r1, r2);
  }

  /** The same, for any slash-free path `p` and proper prefix `a` of it. */
  lemma PrefixKeyYieldsUndefined(r1: Parameter, r2: Parameter)
    requires Slash !in r1.path && Slash !in r2.path
    requires r2.path <= r1.path && |r2.path| < |r1.path|
    ensures MostSpecificOf([r1, r2]) == [Some(r1), None]
  {
    var p, a := r1.path, r2.path;
    SlashFreeSegments(p);
    SlashFreeSegments(a);
    assert FirstSegments([r1, r2]) == [p, a];
    UniqueKeysTwo(p, a);
    GroupByTwo(r1, r2);
    PrefixSteps(r1, r2);
    MostSpecificOfIs([r1, r2], [p, a], [p, a], map[p := [r1], a := [r2]], [Some(r1), None]);
  }

  /** The filter over the groups of a key and a proper prefix of it. */
  lemma PrefixSteps(r1: Parameter, r2: Parameter)
    requires SegmentCount(r1.path) == 1 && SegmentCount(r2.path) == 1
    requires r2.path <= r1.path && |r2.path| < |r1.path|
    ensures MoreSpecific([r1.path, r2.path], [r1.path, r2.path], map[r1.path := [r1], r2.path := [r2]]).out
         == [Some(r1), None]
  {
    var p, a := r1.path, r2.path;
    var keys, b := [p, a], map[p := [r1], a := [r2]];
    var emptied := b[p := []];
    assert GroupStep(p, keys, b) == Yield([Some(r1)], emptied) by {
      OverlappingLevels(p, a);
      LoneKeyPopsOwnRow(p, keys, b);
    }
    assert GroupStep(a, keys, emptied).out == [None] by {
      OverlappingLevels(p, a);
      ShallowKeyPopsEmptied(p, a, emptied);
    }
    MoreSpecificTwo(p, a, keys, b, [Some(r1)], [None]);
  }

  /** The levels of two slash-free keys where only the second is a prefix of the first. */
  lemma OverlappingLevels(p: string, a: string)
    requires a <= p && !(p <= a)
    ensures Levels([p, a], p) == [p]
    ensures Levels([p, a], a) == [p, a]
  {
    assert [p, a][..1] == [p] && [p][..0] == [];
    assert Levels([p], p) == [p];
    assert Levels([p], a) == [p];
  }

  /** A key alone in its level pops the one row of its array. */
  lemma LoneKeyPopsOwnRow(p: string, keys: seq<string>, b: Buckets)
    requires Levels(keys, p) == [p]
    requires p in b && |b[p]| == 1
    ensures GroupStep(p, keys, b) == Yield([Some(b[p][0])], b[p := []])
  {
  }

  /** With levels `[p, a]` of equal depth only `p` is selected, and its emptied
      array yields `undefined`. */
  lemma ShallowKeyPopsEmptied(p: string, a: string, b: Buckets)
    requires SegmentCount(p) == 1 && SegmentCount(a) == 1
    requires Levels([p, a], a) == [p, a]
    requires p in b && b[p] == []
    ensures GroupStep(a, [p, a], b).out == [None]
  {
    assert [p, a][..1] == [p] && [p][..0] == [];
    assert MaxSegments([p]) == 1;
    assert Deepest([p]) == [p];
    assert Deepest([p, a]) == [p];
    assert PopEach([p], b).out == [None];
  }

  // ---------------------------------------------------------------------------
  // findMoreSpecificParameters, in place

  /** The dictionary `groupBy` returns: its keys in enumeration order and, for
      each, the array the filter pops from. */
  class GroupedParameters {
    var keys: seq<string>
    var buckets: Buckets

    /** The keys enumerate the arrays, each once. */
    ghost predicate Valid()
      reads this
    {
      Distinct(keys) && forall k :: k in buckets <==> k in keys
    }

    constructor (g: Groups)
      requires Distinct(g.keys) && forall k :: k in g.buckets <==> k in g.keys
      ensures Valid() && keys == g.keys && buckets == g.buckets
    {
      keys := g.keys;
      buckets := g.buckets;
    }

    /** `this[key]?.pop()`. */
    method Pop(key: string) returns (x: Option<Parameter>)
      requires Valid()
      modifies this
      ensures Valid() && keys == old(keys)
      ensures [x] == PopFrom(old(buckets), key).out && buckets == PopFrom(old(buckets), key).buckets
    {
      if key in buckets && |buckets[key]| > 0 {
        var a := buckets[key];
        x := Some(a[|a| - 1]);
        buckets := buckets[key := a[..|a| - 1]];
      } else {
        x := None;
      }
    }
  }

  /** The caller's `filteredParameters` array; `None` entries are `undefined`. */
  class ParameterList {
    var items: seq<Option<Parameter>>

    constructor ()
      ensures items == []
    {
      items := [];
    }

    /** `this.push(x)`. */
    method Push(x: Option<Parameter>)
      modifies this
      ensures items == old(items) + [x]
    {
      items := items + [x];
    }
  }

  /** One more key extends the running maximum and the selection by at most that key. */
  lemma DeepestStep(ks: seq<string>, i: nat)
    requires i < |ks|
    ensures MaxSegments(ks[..i + 1]) == if SegmentCount(ks[i]) > MaxSegments(ks[..i]) then SegmentCount(ks[i]) else MaxSegments(ks[..i])
    ensures Deepest(ks[..i + 1]) == Deepest(ks[..i]) + if SegmentCount(ks[i]) > MaxSegments(ks[..i]) then [ks[i]] else []
  {
    assert ks[..i + 1][..i] == ks[..i];
  }

  /** One more unique key runs one more group step on what the earlier ones left. */
  lemma MoreSpecificSnoc(us: seq<string>, u: string, keys: seq<string>, b: Buckets)
    ensures MoreSpecific(us + [u], keys, b)
         == Yield(MoreSpecific(us, keys, b).out + GroupStep(u, keys, MoreSpecific(us, keys, b).buckets).out,
                  GroupStep(u, keys, MoreSpecific(us, keys, b).buckets).buckets)
  {
    assert (us + [u])[..|us|] == us;
  }

  /** Appending in two steps appends the concatenation. */
  lemma AppendAssoc<T>(a: seq<T>, b: seq<T>, c: seq<T>)
    ensures (a + b) + c == a + (b + c)
  {
  }

  /** The filter over one more unique key of `us`. */
  lemma MoreSpecificPrefix(us: seq<string>, j: nat, keys: seq<string>, b: Buckets)
    requires j < |us|
    ensures var y := MoreSpecific(us[..j], keys, b);
      var z := GroupStep(us[j], keys, y.buckets);
      MoreSpecific(us[..j + 1], keys, b) == Yield(y.out + z.out, z.buckets)
  {
    assert us[..j + 1][..j] == us[..j];
  }

  /** Popping one more key pops it from what the earlier pops left. */
  lemma PopEachSnoc(ks: seq<string>, k: string, b: Buckets)
    ensures PopEach(ks + [k], b).out == PopEach(ks, b).out + PopFrom(PopEach(ks, b).buckets, k).out
    ensures PopEach(ks + [k], b).buckets == PopFrom(PopEach(ks, b).buckets, k).buckets
  {
    assert (ks + [k])[..|ks|] == ks;
  }

  /**
   * The `else` branch of `findMoreSpecificParameters` for one group: walks the
   * group's keys with a running `length`, and pops and pushes for every key with
   * more segments than all before it.
   */
  method PushDeepest(levels: seq<string>, groupedKeys: GroupedParameters, filteredParameters: ParameterList)
    requires groupedKeys.Valid()
    modifies groupedKeys, filteredParameters
    ensures groupedKeys.Valid() && groupedKeys.keys == old(groupedKeys.keys)
    ensures var y := PopEach(Deepest(levels), old(groupedKeys.buckets));
      filteredParameters.items == old(filteredParameters.items) + y.out && groupedKeys.buckets == y.buckets
  {
    ghost var items0, b0 := filteredParameters.items, groupedKeys.buckets;
    ghost var selected: seq<string> := [];
    var length := 0;
    assert levels[..0] == [];
    for i := 0 to |levels|
      invariant groupedKeys.Valid() && groupedKeys.keys == old(groupedKeys.keys)
      invariant length == MaxSegments(levels[..i])
      invariant selected == Deepest(levels[..i])
      invariant filteredParameters.items == items0 + PopEach(selected, b0).out
      invariant groupedKeys.buckets == PopEach(selected, b0).buckets
    {
      var key := levels[i];
      var splittedKeysLength := |Split(key)|;
      DeepestStep(levels, i);
      if splittedKeysLength > length {
        length := splittedKeysLength;
        PopEachSnoc(selected, key, b0);
        ghost var before := PopEach(selected, b0);
        var x := groupedKeys.Pop(key);
        filteredParameters.Push(x);
        AppendAssoc(items0, before.out, [x]);
        selected := selected + [key];
      }
    }
    assert levels[..|levels|] == levels;
  }

  /** The body of the outer `forEach`, for one unique key. */
  method PushGroup(uniqueKey: string, groupedKeys: GroupedParameters, filteredParameters: ParameterList)
    requires groupedKeys.Valid()
    modifies groupedKeys, filteredParameters
    ensures groupedKeys.Valid() && groupedKeys.keys == old(groupedKeys.keys)
    ensures var y := GroupStep(uniqueKey, old(groupedKeys.keys), old(groupedKeys.buckets));
      filteredParameters.items == old(filteredParameters.items) + y.out && groupedKeys.buckets == y.buckets
  {
    var levels := Levels(groupedKeys.keys, uniqueKey);
    if |levels| <= 1 {
      var x := groupedKeys.Pop(uniqueKey);
      filteredParameters.Push(x);
    } else {
      PushDeepest(levels, groupedKeys, filteredParameters);
    }
  }

  /**
   * `findMoreSpecificParameters(uniqueKeys, groupedKeys, filteredParameters)`:
   * appends to `filteredParameters` what MoreSpecific yields, leaving the
   * entries already there untouched, and leaves `groupedKeys` with the arrays
   * its `pop()`s left.
   */
  method FindMoreSpecificParameters(uniqueKeys: seq<string>, groupedKeys: GroupedParameters,
                                    filteredParameters: ParameterList)
    requires groupedKeys.Valid()
    modifies groupedKeys, filteredParameters
    ensures groupedKeys.Valid() && groupedKeys.keys == old(groupedKeys.keys)
    ensures var y := MoreSpecific(uniqueKeys, old(groupedKeys.keys), old(groupedKeys.buckets));
      filteredParameters.items == old(filteredParameters.items) + y.out && groupedKeys.buckets == y.buckets
  {
    ghost var items0, keys0, b0 := filteredParameters.items, groupedKeys.keys, groupedKeys.buckets;
    for j := 0 to |uniqueKeys|
      invariant groupedKeys.Valid() && groupedKeys.keys == keys0
      invariant filteredParameters.items == items0 + MoreSpecific(uniqueKeys[..j], keys0, b0).out
      invariant groupedKeys.buckets == MoreSpecific(uniqueKeys[..j], keys0, b0).buckets
    {
      ghost var y := MoreSpecific(uniqueKeys[..j], keys0, b0);
      ghost var z := GroupStep(uniqueKeys[j], keys0, y.buckets);
      MoreSpecificPrefix(uniqueKeys, j, keys0, b0);
      PushGroup(uniqueKeys[j], groupedKeys, filteredParameters);
      AppendAssoc(items0, y.out, z.out);
      // Line 78 rebinds `uniqueKeys` to a filtered copy; `forEach` keeps
      // visiting the original array, so nothing observable follows from it.
    }
    assert uniqueKeys[..|uniqueKeys|] == uniqueKeys;
  }
}
