/**
 * The repository the service talks to: the `parameter` table, whose primary
 * key is the pair (org_id, path), as a map from that pair to the stored JSON
 * value, and the queries and writes the service issues against it.
 */
module Store {
  import opened Entities
  import opened Like

  /** The primary key of a row. */
  datatype Key = Key(org: string, path: string)

  /** The table: at most one value per (org_id, path). */
  type Table = map<Key, Json>

  /** `find({ where: { path: In(paths), org_id } })`: one row per distinct
      stored path of the organization, in order of first request. */
  function FindIn(t: Table, org: string, paths: seq<string>): (rows: seq<Parameter>)
    ensures Distinct(PathsOf(rows))
    ensures forall r :: r in rows ==> Key(org, r.path) in t && t[Key(org, r.path)] == r.value
    ensures forall p :: p in PathsOf(rows) <==> p in paths && Key(org, p) in t
    ensures |rows| <= |paths|
    decreases |paths|
  {
    if |paths| == 0 then []
    else
      var init := FindIn(t, org, paths[..|paths| - 1]);
      var p := paths[|paths| - 1];
      assert paths == paths[..|paths| - 1] + [p];
      if Key(org, p) in t && p !in PathsOf(init) then
        var rows := init + [Parameter(p, t[Key(org, p)])];
        assert PathsOf(rows) == PathsOf(init) + [p];
        rows
      else init
  }

  /** The query finds one row per requested path exactly when the requested
      paths are distinct and all stored: the length comparisons of the service
      are "all found" tests. */
  lemma {:induction false} FindInComplete(t: Table, org: string, paths: seq<string>)
    ensures |FindIn(t, org, paths)| == |paths|
        <==> Distinct(paths) && forall p :: p in paths ==> Key(org, p) in t
    decreases |paths|
  {
    if |paths| > 0 {
      var init := paths[..|paths| - 1];
      var p := paths[|paths| - 1];
      assert paths == init + [p];
      FindInComplete(t, org, init);
      var rows := FindIn(t, org, init);
      if |FindIn(t, org, paths)| == |paths| {
        assert |rows| == |init|;
        assert Key(org, p) in t && p !in PathsOf(rows);
        assert p !in init;
        forall i, j | 0 <= i < j < |paths| ensures paths[i] != paths[j] {
          if j < |paths| - 1 {
            assert init[i] != init[j];
          } else {
            assert paths[i] in init;
          }
        }
      }
      if Distinct(paths) && forall q :: q in paths ==> Key(org, q) in t {
        assert Distinct(init) by {
          forall i, j | 0 <= i < j < |init| ensures init[i] != init[j] {
            assert paths[i] != paths[j];
          }
        }
        assert p !in init by {
          forall i | 0 <= i < |init| ensures init[i] != p {
            assert paths[i] != paths[|paths| - 1];
          }
        }
      }
    }
  }

  /** When every requested path is distinct and stored, the rows come back in
      request order, each with its stored value. */
  lemma {:induction false} FindInAllStored(t: Table, org: string, paths: seq<string>)
    requires Distinct(paths) && forall p :: p in paths ==> Key(org, p) in t
    ensures PathsOf(FindIn(t, org, paths)) == paths
    ensures forall i :: 0 <= i < |paths| ==> FindIn(t, org, paths)[i] == Parameter(paths[i], t[Key(org, paths[i])])
    decreases |paths|
  {
    if |paths| > 0 {
      var init := paths[..|paths| - 1];
      var p := paths[|paths| - 1];
      DistinctInit(paths);
      FindInAllStored(t, org, init);
      FindInSnoc(t, org, init, p);
      assert paths == init + [p];
    }
  }

  /** Dropping the last of distinct paths leaves distinct paths without it. */
  lemma DistinctInit(paths: seq<string>)
    requires |paths| > 0 && Distinct(paths)
    ensures Distinct(paths[..|paths| - 1]) && paths[|paths| - 1] !in paths[..|paths| - 1]
  {
    var init := paths[..|paths| - 1];
    forall i, j | 0 <= i < j < |init| ensures init[i] != init[j] {
      assert paths[i] != paths[j];
    }
    forall i | 0 <= i < |init| ensures init[i] != paths[|paths| - 1] {
      assert paths[i] != paths[|paths| - 1];
    }
  }

  /** Nothing is found when no requested path is stored. */
  lemma {:induction false} FindInNoneStored(t: Table, org: string, paths: seq<string>)
    requires forall p :: p in paths ==> Key(org, p) !in t
    ensures FindIn(t, org, paths) == []
    decreases |paths|
  {
    if |paths| > 0 {
      assert paths[|paths| - 1] in paths;
      FindInNoneStored(t, org, paths[..|paths| - 1]);
    }
  }

  /** The query for one more path. */
  lemma FindInSnoc(t: Table, org: string, paths: seq<string>, x: string)
    ensures FindIn(t, org, paths + [x]) == FindIn(t, org, paths) +
      if Key(org, x) in t && x !in PathsOf(FindIn(t, org, paths)) then [Parameter(x, t[Key(org, x)])] else []
  {
    assert (paths + [x])[..|paths|] == paths;
  }

  /** The query for one path. */
  lemma FindInSingle(t: Table, org: string, p: string)
    ensures FindIn(t, org, [p]) == if Key(org, p) in t then [Parameter(p, t[Key(org, p)])] else []
  {
    assert [p][..0] == [];
  }

  /** A stored path requested twice is found once. */
  lemma FindInRepeated(t: Table, org: string, p: string)
    requires Key(org, p) in t
    ensures FindIn(t, org, [p, p]) == [Parameter(p, t[Key(org, p)])]
  {
    assert [p, p][..1] == [p];
    FindInSingle(t, org, p);
  }

  /** The query reads only the rows of its own organization. */
  lemma {:induction false} FindInSameOrg(t1: Table, t2: Table, org: string, paths: seq<string>)
    requires forall p :: Key(org, p) in t1 <==> Key(org, p) in t2
    requires forall p :: Key(org, p) in t1 ==> t1[Key(org, p)] == t2[Key(org, p)]
    ensures FindIn(t1, org, paths) == FindIn(t2, org, paths)
    decreases |paths|
  {
    if |paths| > 0 {
      FindInSameOrg(t1, t2, org, paths[..|paths| - 1]);
    }
  }

  /** The rows a `find({ where: { path: Like(pattern), org_id } })` may return:
      each matching row of the organization once, in an order the database
      chooses. */
  predicate IsScan(rows: seq<Parameter>, t: Table, org: string, pattern: string)
  {
    && Distinct(PathsOf(rows))
    && (forall r :: r in rows ==> Key(org, r.path) in t && t[Key(org, r.path)] == r.value && Matches(r.path, pattern))
    && (forall k :: k in t && k.org == org && Matches(k.path, pattern) ==> k.path in PathsOf(rows))
  }

  /** The batches `save` refuses: two entries for one path the organization
      does not have yet are two inserts of the same primary key `(path, org_id)`,
      and the database rejects the statement. The save runs in one transaction,
      so a refused batch writes nothing. */
  predicate SaveRejected(t: Table, org: string, ps: seq<Parameter>)
  {
    exists i, j :: 0 <= i < j < |ps| && ps[i].path == ps[j].path && Key(org, ps[i].path) !in t
  }

  /** Rows with distinct paths, or whose paths are all stored already, are never refused. */
  lemma SaveAccepted(t: Table, org: string, ps: seq<Parameter>)
    requires Distinct(PathsOf(ps)) || forall p :: p in PathsOf(ps) ==> Key(org, p) in t
    ensures !SaveRejected(t, org, ps)
  {
    forall i, j | 0 <= i < j < |ps| && ps[i].path == ps[j].path ensures Key(org, ps[i].path) in t {
      assert PathsOf(ps)[i] == PathsOf(ps)[j];
      assert PathsOf(ps)[i] in PathsOf(ps);
    }
  }

  /** `save` of a list of rows of one organization that the database accepts:
      each row inserted or overwritten in turn, so that for a stored path given
      twice the later value wins. */
  function Upsert(t: Table, org: string, ps: seq<Parameter>): (r: Table)
    ensures forall k :: k in r <==> k in t || (k.org == org && k.path in PathsOf(ps))
    ensures forall k :: k in t && !(k.org == org && k.path in PathsOf(ps)) ==> r[k] == t[k]
    ensures forall i :: 0 <= i < |ps| && (forall j :: i < j < |ps| ==> ps[j].path != ps[i].path)
              ==> Key(org, ps[i].path) in r && r[Key(org, ps[i].path)] == ps[i].value
    decreases |ps|
  {
    if |ps| == 0 then t
    else
      var init := ps[..|ps| - 1];
      var last := ps[|ps| - 1];
      assert PathsOf(ps) == PathsOf(init) + [last.path];
      Upsert(t, org, init)[Key(org, last.path) := last.value]
  }

  /** Every saved path is stored afterwards. */
  lemma {:induction false} UpsertStores(t: Table, org: string, ps: seq<Parameter>)
    ensures forall i :: 0 <= i < |ps| ==> Key(org, ps[i].path) in Upsert(t, org, ps)
    decreases |ps|
  {
    if |ps| > 0 {
      var init := ps[..|ps| - 1];
      UpsertStores(t, org, init);
      assert Upsert(t, org, ps) == Upsert(t, org, init)[Key(org, ps[|ps| - 1].path) := ps[|ps| - 1].value];
      forall i | 0 <= i < |ps| - 1 ensures ps[i] == init[i] { }
    }
  }

  /** Saving rows that are all stored already adds no row. */
  lemma UpsertKeepsKeys(t: Table, org: string, ps: seq<Parameter>)
    requires forall p :: p in PathsOf(ps) ==> Key(org, p) in t
    ensures Upsert(t, org, ps).Keys == t.Keys
  {
    var r := Upsert(t, org, ps);
    forall k | k in r ensures k in t {
      if k.org == org && k.path in PathsOf(ps) {
        assert k == Key(org, k.path);
      }
    }
  }

  /** Saving rows with distinct paths stores each row's value. */
  lemma UpsertDistinct(t: Table, org: string, ps: seq<Parameter>)
    requires Distinct(PathsOf(ps))
    ensures forall i :: 0 <= i < |ps| ==> Key(org, ps[i].path) in Upsert(t, org, ps)
    ensures forall i :: 0 <= i < |ps| ==> Upsert(t, org, ps)[Key(org, ps[i].path)] == ps[i].value
  {
    var paths := PathsOf(ps);
    forall i | 0 <= i < |ps| ensures forall j :: i < j < |ps| ==> ps[j].path != ps[i].path {
      forall j | i < j < |ps| ensures ps[j].path != ps[i].path {
        assert paths[i] != paths[j];
      }
    }
  }

  /** The keys `delete({ path: In(paths), org_id })` removes. */
  function Removed(t: Table, org: string, paths: seq<string>): (s: set<Key>)
    ensures forall k :: k in s <==> k in t && k.org == org && k.path in paths
  {
    set k | k in t && k.org == org && k.path in paths
  }

  /** The table after `delete({ path: In(paths), org_id })`. */
  function Delete(t: Table, org: string, paths: seq<string>): (r: Table)
    ensures forall k :: k in r <==> k in t && !(k.org == org && k.path in paths)
    ensures forall k :: k in r ==> r[k] == t[k]
  {
    t - Removed(t, org, paths)
  }

  /** The number of rows the delete reports as affected is the number of rows
      that disappear from the table. */
  lemma DeleteCount(t: Table, org: string, paths: seq<string>)
    ensures |Delete(t, org, paths)| == |t| - |Removed(t, org, paths)|
  {
    var s := Removed(t, org, paths);
    assert Delete(t, org, paths).Keys == t.Keys - s;
    assert t.Keys == (t.Keys - s) + s;
  }
}
