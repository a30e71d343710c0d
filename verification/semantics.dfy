/**
 * What each operation of the parameter service answers and what it leaves in
 * the table, as functions of the table before the call, and the properties
 * of those functions: the all-or-nothing checks, the three-level fallback of
 * retrieve, organization isolation and the round trips between operations.
 */
module Semantics {
  import opened Wrappers
  import opened Entities
  import opened Paths
  import opened Strings
  import opened Like
  import opened GeneralHelper
  import opened Specificity
  import opened Store

  /** The `RpcException`s the service throws, and the database errors for a
      malformed LIKE pattern and for a batch that inserts one key twice. */
  datatype ServiceError = NotFound | AlreadyExists | InvalidPattern | DuplicateKey

  /** What an operation answers, and the table after it. */
  datatype Reply<T> = Reply(result: Result<T, ServiceError>, table: Table)

  /** Some requested path is already stored for the organization. */
  predicate AnyStored(t: Table, org: string, paths: seq<string>)
  {
    exists p :: p in paths && Key(org, p) in t
  }

  /** Every requested path is stored for the organization, each requested once. */
  predicate AllStoredOnce(t: Table, org: string, paths: seq<string>)
  {
    Distinct(paths) && forall p :: p in paths ==> Key(org, p) in t
  }

  /** The row the table holds for a stored path. */
  function Row(t: Table, org: string, p: string): (r: Parameter)
    requires Key(org, p) in t
    ensures r.path == p && r.value == t[Key(org, p)]
  {
    Parameter(p, t[Key(org, p)])
  }

  // ---------------------------------------------------------------------------
  // create
  // ---------------------------------------------------------------------------

  /** `create`: refused when a requested path exists and `overwrite` is not set;
      otherwise every entry is saved and echoed back, unless the database
      refuses the batch. */
  function Create(t: Table, org: string, request: seq<Parameter>, overwrite: bool): (r: Reply<seq<Parameter>>)
    ensures r.result.Err? <==> (!overwrite && AnyStored(t, org, PathsOf(request))) || SaveRejected(t, org, request)
    ensures r.result.Err? ==> r.table == t
    ensures r.result.Err? ==> r.result.error == if !overwrite && AnyStored(t, org, PathsOf(request)) then AlreadyExists else DuplicateKey
    ensures r.result.Ok? ==> r.result.value == request
  {
    var checkDuplicate := FindIn(t, org, PathsOf(request));
    assert |checkDuplicate| > 0 <==> AnyStored(t, org, PathsOf(request)) by {
      if |checkDuplicate| > 0 {
        assert checkDuplicate[0].path in PathsOf(checkDuplicate);
      }
    }
    if |checkDuplicate| > 0 && !overwrite then Reply(Err(AlreadyExists), t)
    else if SaveRejected(t, org, request) then Reply(Err(DuplicateKey), t)
    else Reply(Ok(request), Upsert(t, org, request))
  }

  /** A successful create stores the last entry given for each path under the
      organization and changes no other row. */
  lemma CreateEffect(t: Table, org: string, request: seq<Parameter>, overwrite: bool)
    requires Create(t, org, request, overwrite).result.Ok?
    ensures var t' := Create(t, org, request, overwrite).table;
      && (forall k :: k in t' <==> k in t || (k.org == org && k.path in PathsOf(request)))
      && (forall k :: k in t && !(k.org == org && k.path in PathsOf(request)) ==> t'[k] == t[k])
      && (forall i :: 0 <= i < |request| && (forall j :: i < j < |request| ==> request[j].path != request[i].path)
            ==> t'[Key(org, request[i].path)] == request[i].value)
  {
  }

  /** Creating the same entries twice without `overwrite` fails the second time
      and leaves the table as the first call left it. */
  lemma CreateTwiceFails(t: Table, org: string, request: seq<Parameter>, overwrite: bool)
    requires |request| > 0
    requires Create(t, org, request, overwrite).result.Ok?
    ensures var t' := Create(t, org, request, overwrite).table;
      Create(t', org, request, false) == Reply(Err(AlreadyExists), t')
  {
    var t' := Create(t, org, request, overwrite).table;
    CreateStoresPaths(t, org, request, overwrite);
    assert request[0].path in PathsOf(request);
    assert AnyStored(t', org, PathsOf(request));
  }

  /** After a successful create every requested path is stored. */
  lemma CreateStoresPaths(t: Table, org: string, request: seq<Parameter>, overwrite: bool)
    requires Create(t, org, request, overwrite).result.Ok?
    ensures forall i :: 0 <= i < |request| ==> Key(org, request[i].path) in Create(t, org, request, overwrite).table
  {
    UpsertStores(t, org, request);
  }

  /** With `overwrite` set, create succeeds unless the batch repeats a path the
      organization does not have yet; in particular it succeeds whenever the
      paths are distinct, stored or not. */
  lemma CreateOverwriteSucceeds(t: Table, org: string, request: seq<Parameter>)
    ensures Create(t, org, request, true).result.Ok? <==> !SaveRejected(t, org, request)
    ensures Distinct(PathsOf(request)) ==> Create(t, org, request, true) == Reply(Ok(request), Upsert(t, org, request))
  {
    if Distinct(PathsOf(request)) {
      SaveAccepted(t, org, request);
    }
  }

  /** A batch giving a new path twice is refused by the primary key, with or
      without `overwrite`, and nothing is written. */
  lemma CreateRepeatedNewPathFails(t: Table, org: string, p: string, v1: Json, v2: Json, overwrite: bool)
    requires Key(org, p) !in t
    ensures Create(t, org, [Parameter(p, v1), Parameter(p, v2)], overwrite) == Reply(Err(DuplicateKey), t)
  {
    var request := [Parameter(p, v1), Parameter(p, v2)];
    assert request[0].path == request[1].path;
    assert !AnyStored(t, org, PathsOf(request)) by {
      assert PathsOf(request) == [p, p];
    }
  }

  /** A batch giving a stored path twice, with `overwrite`, is two updates of
      the row: the later value wins. */
  lemma CreateRepeatedStoredPathLastWins(t: Table, org: string, p: string, v1: Json, v2: Json)
    requires Key(org, p) in t
    ensures Create(t, org, [Parameter(p, v1), Parameter(p, v2)], true)
         == Reply(Ok([Parameter(p, v1), Parameter(p, v2)]), t[Key(org, p) := v2])
  {
    var request := [Parameter(p, v1), Parameter(p, v2)];
    assert !SaveRejected(t, org, request) by {
      assert PathsOf(request) == [p, p];
      SaveAccepted(t, org, request);
    }
    assert Upsert(t, org, request) == t[Key(org, p) := v2] by {
      assert request[..1] == [Parameter(p, v1)] && request[..1][..0] == [];
      assert Upsert(t, org, request) == t[Key(org, p) := v1][Key(org, p) := v2];
    }
  }

  /** What was created, with one entry per path, is what retrieve returns. */
  lemma CreateThenRetrieve(t: Table, org: string, request: seq<Parameter>, overwrite: bool)
    requires Distinct(PathsOf(request))
    requires Create(t, org, request, overwrite).result.Ok?
    ensures Retrieve(Create(t, org, request, overwrite).table, org, PathsOf(request)) == Ok(request)
  {
    var t' := Create(t, org, request, overwrite).table;
    var paths := PathsOf(request);
    forall i | 0 <= i < |request| ensures Key(org, paths[i]) in t' && t'[Key(org, paths[i])] == request[i].value {
      forall j | i < j < |request| ensures request[j].path != request[i].path {
        assert paths[i] != paths[j];
      }
    }
    FindInAllStored(t', org, paths);
    FindInComplete(t', org, paths);
    var rows := FindIn(t', org, paths);
    assert rows == request by {
      forall i | 0 <= i < |request| ensures rows[i] == request[i] {
        assert rows[i] == Parameter(paths[i], t'[Key(org, paths[i])]);
      }
    }
  }

  // ---------------------------------------------------------------------------
  // update
  // ---------------------------------------------------------------------------

  /** `param.value = request.parameters.find(p => p.path === param.path)?.value || param.value`:
      the first request entry for the row's path, unless its value is falsy. */
  function Merge(row: Parameter, request: seq<Parameter>): (r: Parameter)
    ensures r.path == row.path
    ensures FindByPath(request, row.path).None? ==> r == row
    ensures FindByPath(request, row.path).Some? ==>
      r.value == if IsFalsy(FindByPath(request, row.path).value.value) then row.value else FindByPath(request, row.path).value.value
  {
    var found := FindByPath(request, row.path);
    if found.Some? && !IsFalsy(found.value.value) then Parameter(row.path, found.value.value) else row
  }

  /** The rows after the `map` of update. */
  function MergeAll(existing: seq<Parameter>, request: seq<Parameter>): (r: seq<Parameter>)
    ensures |r| == |existing| && PathsOf(r) == PathsOf(existing)
    ensures forall i :: 0 <= i < |existing| ==> r[i] == Merge(existing[i], request)
  {
    seq(|existing|, i requires 0 <= i < |existing| => Merge(existing[i], request))
  }

  /** `update`: refused unless one existing row is found per request entry;
      otherwise every found row takes the request's value and is saved. */
  function Update(t: Table, org: string, request: seq<Parameter>): (r: Reply<seq<Parameter>>)
    ensures r.result.Err? <==> !AllStoredOnce(t, org, PathsOf(request))
    ensures r.result.Err? ==> r.result.error == NotFound && r.table == t
  {
    var existingParameters := FindIn(t, org, PathsOf(request));
    FindInComplete(t, org, PathsOf(request));
    if |existingParameters| != |request| then Reply(Err(NotFound), t)
    else
      var updatedParameters := MergeAll(existingParameters, request);
      Reply(Ok(updatedParameters), Upsert(t, org, updatedParameters))
  }

  /** The first request entry for a path of a request whose paths are distinct is the one at its index. */
  lemma FindByPathDistinct(request: seq<Parameter>, i: nat)
    requires Distinct(PathsOf(request)) && i < |request|
    ensures FindByPath(request, request[i].path) == Some(request[i])
  {
    NoEarlierPath(request, i);
    FindByPathFirst(request, i);
  }

  /** No entry before index `i` of a request with distinct paths has its path. */
  lemma NoEarlierPath(request: seq<Parameter>, i: nat)
    requires Distinct(PathsOf(request)) && i < |request|
    ensures forall j :: 0 <= j < i ==> request[j].path != request[i].path
  {
    forall j | 0 <= j < i ensures request[j].path != request[i].path {
      assert PathsOf(request)[j] != PathsOf(request)[i];
    }
  }

  /** A successful update saves the merged rows. */
  lemma UpdateSaves(t: Table, org: string, request: seq<Parameter>)
    requires Update(t, org, request).result.Ok?
    ensures AllStoredOnce(t, org, PathsOf(request))
    ensures Update(t, org, request).result.value == MergeAll(FindIn(t, org, PathsOf(request)), request)
    ensures Update(t, org, request).table == Upsert(t, org, Update(t, org, request).result.value)
  {
    FindInComplete(t, org, PathsOf(request));
  }

  /** With one stored row per requested path, the merged rows are, in request
      order, each path with the request's value, or the stored one when the
      request's is falsy. */
  lemma MergedRows(t: Table, org: string, request: seq<Parameter>)
    requires AllStoredOnce(t, org, PathsOf(request))
    ensures var u := MergeAll(FindIn(t, org, PathsOf(request)), request);
      && PathsOf(u) == PathsOf(request)
      && forall i :: 0 <= i < |request| ==>
           && Key(org, request[i].path) in t
           && u[i].path == request[i].path
           && u[i].value == (if IsFalsy(request[i].value) then t[Key(org, request[i].path)] else request[i].value)
  {
    var paths := PathsOf(request);
    var existing := FindIn(t, org, paths);
    FindInAllStored(t, org, paths);
    var u := MergeAll(existing, request);
    forall i | 0 <= i < |request|
      ensures Key(org, request[i].path) in t
      ensures u[i].value == (if IsFalsy(request[i].value) then t[Key(org, request[i].path)] else request[i].value)
    {
      assert paths[i] in paths;
      FindByPathDistinct(request, i);
      assert existing[i] == Parameter(paths[i], t[Key(org, paths[i])]);
    }
  }

  /** A successful update answers, in request order, each path with its new
      value: the request's value, or the old one when the request's is falsy. */
  lemma UpdateAnswers(t: Table, org: string, request: seq<Parameter>)
    requires Update(t, org, request).result.Ok?
    ensures var u := Update(t, org, request).result.value;
      && |u| == |request|
      && forall i :: 0 <= i < |request| ==>
           && Key(org, request[i].path) in t
           && u[i].path == request[i].path
           && u[i].value == (if IsFalsy(request[i].value) then t[Key(org, request[i].path)] else request[i].value)
  {
    UpdateSaves(t, org, request);
    MergedRows(t, org, request);
  }

  /** A successful update stores each answered value under its path, keeps the
      set of rows, and changes no row of another path or organization. */
  lemma UpdateStores(t: Table, org: string, request: seq<Parameter>)
    requires Update(t, org, request).result.Ok?
    ensures var r := Update(t, org, request);
      && r.table.Keys == t.Keys
      && (forall i :: 0 <= i < |request| ==> r.table[Key(org, request[i].path)] == r.result.value[i].value)
      && (forall k :: k in t && !(k.org == org && k.path in PathsOf(request)) ==> r.table[k] == t[k])
  {
    var u := Update(t, org, request).result.value;
    UpdateSaves(t, org, request);
    MergedRows(t, org, request);
    UpsertKeepsKeys(t, org, u);
    UpsertDistinct(t, org, u);
  }

  // ---------------------------------------------------------------------------
  // delete
  // ---------------------------------------------------------------------------

  /** `delete`: removes the organization's rows for the given paths and answers
      how many there were; it never fails. */
  function DeleteParams(t: Table, org: string, paths: seq<string>): (r: Reply<nat>)
    ensures r.result.Ok?
    ensures r.result.value == |Removed(t, org, paths)|
    ensures r.table == Delete(t, org, paths)
  {
    Reply(Ok(|Removed(t, org, paths)|), Delete(t, org, paths))
  }

  /** The count is the number of rows that left the table. */
  lemma DeleteCountsRemovedRows(t: Table, org: string, paths: seq<string>)
    ensures var r := DeleteParams(t, org, paths);
      r.result.value == |t| - |r.table|
  {
    DeleteCount(t, org, paths);
  }

  /** Deleting paths none of which is stored removes nothing and answers 0. */
  lemma DeleteAbsent(t: Table, org: string, paths: seq<string>)
    requires forall p :: p in paths ==> Key(org, p) !in t
    ensures DeleteParams(t, org, paths) == Reply(Ok(0), t)
  {
    assert Removed(t, org, paths) == {};
    assert Delete(t, org, paths) == t;
  }

  /** Deleting one stored path answers 1, and deleting it again answers 0. */
  lemma DeleteOnceThenAgain(t: Table, org: string, p: string)
    requires Key(org, p) in t
    ensures DeleteParams(t, org, [p]).result == Ok(1)
    ensures var t' := DeleteParams(t, org, [p]).table;
      Key(org, p) !in t' && DeleteParams(t', org, [p]) == Reply(Ok(0), t')
  {
    assert Removed(t, org, [p]) == {Key(org, p)};
    DeleteAbsent(DeleteParams(t, org, [p]).table, org, [p]);
  }

  // ---------------------------------------------------------------------------
  // retrieve
  // ---------------------------------------------------------------------------

  /** `retrieve`: the exact paths; if not all are found, the parents of the
      paths not found; if not all of those are found, the parents of the
      level-one paths that are not exact hits. Each level is all-or-nothing. */
  function Retrieve(t: Table, org: string, paths: seq<string>): (r: Result<seq<Parameter>, ServiceError>)
    ensures r.Ok? ==> forall x :: x in r.value ==> Key(org, x.path) in t && t[Key(org, x.path)] == x.value
    ensures r.Err? ==> r.error == NotFound
  {
    var parameters := FindIn(t, org, paths);
    if |paths| == |parameters| then Ok(parameters)
    else
      var unknownPaths := UnknownPaths(paths, parameters);
      var orgLevelPath := StepDownAll(unknownPaths);
      var orgLevelPathFound := FindIn(t, org, orgLevelPath);
      if |orgLevelPath| == |orgLevelPathFound| then Ok(parameters + orgLevelPathFound)
      else
        var unknownPaths' := UnknownPaths(orgLevelPath, parameters);
        var baseLevelPath := StepDownAll(unknownPaths');
        var baseLevelPathFound := FindIn(t, org, baseLevelPath);
        if |baseLevelPath| != |baseLevelPathFound| then Err(NotFound)
        else Ok(parameters + orgLevelPathFound + baseLevelPathFound)
  }

  /** The paths of concatenated rows. */
  lemma PathsOfConcat(a: seq<Parameter>, b: seq<Parameter>)
    ensures PathsOf(a + b) == PathsOf(a) + PathsOf(b)
  {
  }

  /** A path's parent is among the parents of a list holding it. */
  lemma StepDownAllHas(ps: seq<string>, p: string)
    requires p in ps
    ensures StepDown(p) in StepDownAll(ps)
  {
    var i :| 0 <= i < |ps| && ps[i] == p;
    assert StepDownAll(ps)[i] == StepDown(p);
  }

  /** When all requested paths are stored, once each, retrieve answers their
      rows in request order. */
  lemma RetrieveAllExact(t: Table, org: string, paths: seq<string>)
    requires AllStoredOnce(t, org, paths)
    ensures Retrieve(t, org, paths) == Ok(FindIn(t, org, paths))
    ensures PathsOf(FindIn(t, org, paths)) == paths
  {
    FindInComplete(t, org, paths);
    FindInAllStored(t, org, paths);
  }

  /** Whatever retrieve answers covers every requested path: the path itself,
      its parent or its grandparent is among the rows returned. */
  lemma RetrieveCovers(t: Table, org: string, paths: seq<string>)
    requires Retrieve(t, org, paths).Ok?
    ensures var rows := PathsOf(Retrieve(t, org, paths).value);
      forall p :: p in paths ==> p in rows || StepDown(p) in rows || StepDown(StepDown(p)) in rows
  {
    var parameters := FindIn(t, org, paths);
    var rs := Retrieve(t, org, paths).value;
    FindInComplete(t, org, paths);
    if |paths| != |parameters| {
      var unknownPaths := UnknownPaths(paths, parameters);
      var orgLevelPath := StepDownAll(unknownPaths);
      var orgLevelPathFound := FindIn(t, org, orgLevelPath);
      FindInComplete(t, org, orgLevelPath);
      forall p | p in paths
        ensures p in PathsOf(rs) || StepDown(p) in PathsOf(rs) || StepDown(StepDown(p)) in PathsOf(rs)
      {
        UnknownPathsCount(paths, parameters, p);
        if p !in PathsOf(parameters) {
          StepDownAllHas(unknownPaths, p);
          if |orgLevelPath| == |orgLevelPathFound| {
            PathsOfConcat(parameters, orgLevelPathFound);
          } else {
            var unknownPaths' := UnknownPaths(orgLevelPath, parameters);
            var baseLevelPath := StepDownAll(unknownPaths');
            var baseLevelPathFound := FindIn(t, org, baseLevelPath);
            FindInComplete(t, org, baseLevelPath);
            PathsOfConcat(parameters, orgLevelPathFound);
            PathsOfConcat(parameters + orgLevelPathFound, baseLevelPathFound);
            UnknownPathsCount(orgLevelPath, parameters, StepDown(p));
            if StepDown(p) !in PathsOf(parameters) {
              StepDownAllHas(unknownPaths', StepDown(p));
            }
          }
        } else {
          if |orgLevelPath| == |orgLevelPathFound| {
            PathsOfConcat(parameters, orgLevelPathFound);
          } else {
            PathsOfConcat(parameters, orgLevelPathFound);
            PathsOfConcat(parameters + orgLevelPathFound, FindIn(t, org, StepDownAll(UnknownPaths(orgLevelPath, parameters))));
          }
        }
      }
    }
  }

  /** All or nothing: when some requested path has neither itself, its parent
      nor its grandparent stored, retrieve fails with not-found. */
  lemma RetrieveMissingFails(t: Table, org: string, paths: seq<string>, p: string)
    requires p in paths
    requires Key(org, p) !in t && Key(org, StepDown(p)) !in t && Key(org, StepDown(StepDown(p))) !in t
    ensures Retrieve(t, org, paths) == Err(NotFound)
  {
    var parameters := FindIn(t, org, paths);
    FindInComplete(t, org, paths);
    var unknownPaths := UnknownPaths(paths, parameters);
    UnknownPathsCount(paths, parameters, p);
    StepDownAllHas(unknownPaths, p);
    var orgLevelPath := StepDownAll(unknownPaths);
    FindInComplete(t, org, orgLevelPath);
    var unknownPaths' := UnknownPaths(orgLevelPath, parameters);
    UnknownPathsCount(orgLevelPath, parameters, StepDown(p));
    StepDownAllHas(unknownPaths', StepDown(p));
    FindInComplete(t, org, StepDownAll(unknownPaths'));
  }

  /** No path is known when nothing was found. */
  lemma {:induction false} UnknownPathsNoneFound(given: seq<string>)
    ensures UnknownPaths(given, []) == given
    decreases |given|
  {
    if |given| > 0 {
      UnknownPathsNoneFound(given[..|given| - 1]);
    }
  }

  /** The requested paths the organization has no row for, in request order,
      with repetitions. */
  function Unstored(t: Table, org: string, paths: seq<string>): (r: seq<string>)
    ensures forall p :: p in r <==> p in paths && Key(org, p) !in t
    decreases |paths|
  {
    if |paths| == 0 then []
    else
      var init := Unstored(t, org, paths[..|paths| - 1]);
      var p := paths[|paths| - 1];
      assert paths == paths[..|paths| - 1] + [p];
      if Key(org, p) in t then init else init + [p]
  }

  /** The stored rows of stored paths, in the order of the paths. */
  function StoredRows(t: Table, org: string, paths: seq<string>): (r: seq<Parameter>)
    requires forall p :: p in paths ==> Key(org, p) in t
    ensures PathsOf(r) == paths
    ensures forall i :: 0 <= i < |paths| ==> r[i].value == t[Key(org, paths[i])]
  {
    seq(|paths|, i requires 0 <= i < |paths| => Row(t, org, paths[i]))
  }

  /** Against the rows an `In` query found for a superset of the given paths,
      the unknown paths are the unstored ones. */
  lemma {:induction false} UnknownPathsAreUnstored(t: Table, org: string, given: seq<string>, found: seq<Parameter>)
    requires forall p :: p in given ==> (p in PathsOf(found) <==> Key(org, p) in t)
    ensures UnknownPaths(given, found) == Unstored(t, org, given)
    decreases |given|
  {
    if |given| > 0 {
      var init := given[..|given| - 1];
      assert forall p :: p in init ==> p in given;
      UnknownPathsAreUnstored(t, org, init, found);
      assert given[|given| - 1] in given;
    }
  }

  /** The rows of an `In` query for paths stored once each are their stored rows. */
  lemma FindInStoredRows(t: Table, org: string, paths: seq<string>)
    requires AllStoredOnce(t, org, paths)
    ensures |FindIn(t, org, paths)| == |paths|
    ensures FindIn(t, org, paths) == StoredRows(t, org, paths)
  {
    FindInComplete(t, org, paths);
    FindInAllStored(t, org, paths);
  }

  /** Level one: when some requested path is missing or repeated, and the
      parents of the unstored requested paths are stored, once each, retrieve
      answers the exact hits followed by the rows of those parents, in request
      order. */
  lemma RetrieveAtLevelOne(t: Table, org: string, paths: seq<string>)
    requires !AllStoredOnce(t, org, paths)
    requires AllStoredOnce(t, org, StepDownAll(Unstored(t, org, paths)))
    ensures Retrieve(t, org, paths) == Ok(FindIn(t, org, paths) + StoredRows(t, org, StepDownAll(Unstored(t, org, paths))))
  {
    var parameters := FindIn(t, org, paths);
    FindInComplete(t, org, paths);
    UnknownPathsAreUnstored(t, org, paths, parameters);
    FindInStoredRows(t, org, StepDownAll(Unstored(t, org, paths)));
  }

  /** Level two: when the parents of the unstored requested paths are not all
      stored once each, retrieve asks for the parents of those level-one paths
      that are not exact hits, and answers all three levels when these are
      stored once each, and not-found otherwise. */
  lemma RetrieveAtLevelTwo(t: Table, org: string, paths: seq<string>)
    requires !AllStoredOnce(t, org, paths)
    requires !AllStoredOnce(t, org, StepDownAll(Unstored(t, org, paths)))
    ensures var orgLevel := StepDownAll(Unstored(t, org, paths));
      var baseLevel := StepDownAll(UnknownPaths(orgLevel, FindIn(t, org, paths)));
      Retrieve(t, org, paths) ==
        if AllStoredOnce(t, org, baseLevel)
        then Ok(FindIn(t, org, paths) + FindIn(t, org, orgLevel) + StoredRows(t, org, baseLevel))
        else Err(NotFound)
  {
    var parameters := FindIn(t, org, paths);
    FindInComplete(t, org, paths);
    UnknownPathsAreUnstored(t, org, paths, parameters);
    var orgLevel := StepDownAll(Unstored(t, org, paths));
    FindInComplete(t, org, orgLevel);
    var baseLevel := StepDownAll(UnknownPaths(orgLevel, parameters));
    FindInComplete(t, org, baseLevel);
    if AllStoredOnce(t, org, baseLevel) {
      FindInStoredRows(t, org, baseLevel);
    }
  }

  /** Retrieve from the level-one query's outcome, given step by step. */
  lemma LevelOneOutcome(t: Table, org: string, paths: seq<string>, parameters: seq<Parameter>,
                        orgLevelPath: seq<string>, orgLevelPathFound: seq<Parameter>)
    requires FindIn(t, org, paths) == parameters && |parameters| != |paths|
    requires StepDownAll(UnknownPaths(paths, parameters)) == orgLevelPath
    requires FindIn(t, org, orgLevelPath) == orgLevelPathFound && |orgLevelPathFound| == |orgLevelPath|
    ensures Retrieve(t, org, paths) == Ok(parameters + orgLevelPathFound)
  {
  }

  /** Retrieve from the level-two query's outcome, given step by step. */
  lemma LevelTwoOutcome(t: Table, org: string, paths: seq<string>, parameters: seq<Parameter>,
                        orgLevelPath: seq<string>, orgLevelPathFound: seq<Parameter>,
                        baseLevelPath: seq<string>, baseLevelPathFound: seq<Parameter>)
    requires FindIn(t, org, paths) == parameters && |parameters| != |paths|
    requires StepDownAll(UnknownPaths(paths, parameters)) == orgLevelPath
    requires FindIn(t, org, orgLevelPath) == orgLevelPathFound && |orgLevelPathFound| != |orgLevelPath|
    requires StepDownAll(UnknownPaths(orgLevelPath, parameters)) == baseLevelPath
    requires FindIn(t, org, baseLevelPath) == baseLevelPathFound
    ensures Retrieve(t, org, paths) ==
      if |baseLevelPathFound| != |baseLevelPath| then Err(NotFound)
      else Ok(parameters + orgLevelPathFound + baseLevelPathFound)
  {
  }

  /** The exact query and the level-one paths for one unstored path. */
  lemma UnstoredSingle(t: Table, org: string, p: string)
    requires Key(org, p) !in t
    ensures FindIn(t, org, [p]) == []
    ensures StepDownAll(UnknownPaths([p], [])) == [StepDown(p)]
  {
    FindInSingle(t, org, p);
    UnknownPathsNoneFound([p]);
    assert StepDownAll([p]) == [StepDown(p)];
  }

  /** Retrieve of a single unstored path whose parent is stored answers the parent. */
  lemma RetrieveSingleParent(t: Table, org: string, p: string)
    requires Key(org, p) !in t && Key(org, StepDown(p)) in t
    ensures Retrieve(t, org, [p]) == Ok([Row(t, org, StepDown(p))])
  {
    var s := StepDown(p);
    UnstoredSingle(t, org, p);
    FindInSingle(t, org, s);
    LevelOneOutcome(t, org, [p], [], [s], [Row(t, org, s)]);
  }

  /** Retrieve of a single path whose parent is not stored either answers the
      grandparent, or fails. */
  lemma RetrieveSingleGrandparent(t: Table, org: string, p: string)
    requires Key(org, p) !in t && Key(org, StepDown(p)) !in t
    ensures Retrieve(t, org, [p]) ==
      if Key(org, StepDown(StepDown(p))) in t then Ok([Row(t, org, StepDown(StepDown(p)))]) else Err(NotFound)
  {
    var s := StepDown(p);
    var g := StepDown(s);
    UnstoredSingle(t, org, p);
    UnstoredSingle(t, org, s);
    FindInSingle(t, org, g);
    if Key(org, g) in t {
      var x := [Row(t, org, g)];
      assert [] + [] + x == x;
      LevelTwoOutcome(t, org, [p], [], [s], [], [g], x);
    } else {
      LevelTwoOutcome(t, org, [p], [], [s], [], [g], []);
    }
  }

  /** Retrieve of a single path walks up at most two levels and answers the
      first stored one. */
  lemma RetrieveSingle(t: Table, org: string, p: string)
    ensures Retrieve(t, org, [p]) ==
      if Key(org, p) in t then Ok([Row(t, org, p)])
      else if Key(org, StepDown(p)) in t then Ok([Row(t, org, StepDown(p))])
      else if Key(org, StepDown(StepDown(p))) in t then Ok([Row(t, org, StepDown(StepDown(p)))])
      else Err(NotFound)
  {
    if Key(org, p) in t {
      FindInSingle(t, org, p);
    } else if Key(org, StepDown(p)) in t {
      RetrieveSingleParent(t, org, p);
    } else {
      RetrieveSingleGrandparent(t, org, p);
    }
  }

  /** An unknown path without a slash steps down to `""`, which is not a stored
      path, so retrieve fails with not-found. */
  lemma RetrieveUnknownTopLevelFails(t: Table, org: string, p: string)
    requires Slash !in p && Key(org, p) !in t && Key(org, "") !in t
    ensures Retrieve(t, org, [p]) == Err(NotFound)
  {
    RetrieveSingle(t, org, p);
    assert StepDown("") == "";
  }

  /** `a/b/c` with neither it nor `a/b` stored resolves to a stored `a`. */
  lemma RetrieveTwoLevelsUp(t: Table, org: string, a: string, b: string, c: string)
    requires Slash !in b && Slash !in c
    requires Key(org, a) in t
    requires Key(org, a + [Slash] + b) !in t && Key(org, a + [Slash] + b + [Slash] + c) !in t
    ensures Retrieve(t, org, [a + [Slash] + b + [Slash] + c]) == Ok([Row(t, org, a)])
  {
    var ab := a + [Slash] + b;
    StepDownAppend(ab, c);
    StepDownAppend(a, b);
    RetrieveSingle(t, org, ab + [Slash] + c);
  }

  /** Two unknown paths under the same stored parent fail together: the level-one
      query asks for the parent twice and finds it once, and the level-two query
      then asks for the grandparent twice, which finds it at most once. Each
      path alone resolves. */
  lemma SiblingsUnderOneParentFail(t: Table, org: string, p: string, q: string)
    requires p != q && StepDown(p) == StepDown(q)
    requires Key(org, p) !in t && Key(org, q) !in t
    requires Key(org, StepDown(p)) in t
    ensures Retrieve(t, org, [p]).Ok? && Retrieve(t, org, [q]).Ok?
    ensures Retrieve(t, org, [p, q]) == Err(NotFound)
  {
    RetrieveSingle(t, org, p);
    RetrieveSingle(t, org, q);
    var s := StepDown(p);
    var g := StepDown(s);
    UnstoredPair(t, org, p, q);
    FindInRepeated(t, org, s);
    var baseFound := SharedParent(t, org, s);
    LevelTwoOutcome(t, org, [p, q], [], [s, s], [Row(t, org, s)], [g, g], baseFound);
  }

  /** The level-one and level-two queries when one parent is asked for twice:
      the grandparent, asked for twice, is found at most once. */
  lemma SharedParent(t: Table, org: string, s: string) returns (baseFound: seq<Parameter>)
    ensures StepDownAll(UnknownPaths([s, s], [])) == [StepDown(s), StepDown(s)]
    ensures FindIn(t, org, [StepDown(s), StepDown(s)]) == baseFound && |baseFound| <= 1
  {
    var g := StepDown(s);
    assert StepDownAll(UnknownPaths([s, s], [])) == [g, g] by {
      UnknownPathsNoneFound([s, s]);
      assert StepDownAll([s, s]) == [g, g];
    }
    if Key(org, g) in t {
      FindInRepeated(t, org, g);
    } else {
      FindInNoneStored(t, org, [g, g]);
    }
    baseFound := FindIn(t, org, [g, g]);
  }

  /** The exact query and the level-one paths for two unstored paths. */
  lemma UnstoredPair(t: Table, org: string, p: string, q: string)
    requires Key(org, p) !in t && Key(org, q) !in t
    ensures FindIn(t, org, [p, q]) == []
    ensures StepDownAll(UnknownPaths([p, q], [])) == [StepDown(p), StepDown(q)]
  {
    assert FindIn(t, org, [p, q]) == [] by {
      FindInNoneStored(t, org, [p, q]);
    }
    assert StepDownAll(UnknownPaths([p, q], [])) == [StepDown(p), StepDown(q)] by {
      UnknownPathsNoneFound([p, q]);
      assert StepDownAll([p, q]) == [StepDown(p), StepDown(q)];
    }
  }

  /** A path and its stored parent requested together return the parent twice:
      once as an exact hit and once as the fallback of the child. */
  lemma ParentReturnedTwice(t: Table, org: string, p: string)
    requires Key(org, p) !in t && Key(org, StepDown(p)) in t
    ensures Retrieve(t, org, [p, StepDown(p)]) == Ok([Row(t, org, StepDown(p)), Row(t, org, StepDown(p))])
  {
    var s := StepDown(p);
    var row := Row(t, org, s);
    ChildAndParent(t, org, p);
    FindInSingle(t, org, s);
    assert [row] + [row] == [row, row];
    LevelOneOutcome(t, org, [p, s], [row], [s], [row]);
  }

  /** The exact query and the level-one paths for an unstored path and its stored parent. */
  lemma ChildAndParent(t: Table, org: string, p: string)
    requires Key(org, p) !in t && Key(org, StepDown(p)) in t
    ensures FindIn(t, org, [p, StepDown(p)]) == [Row(t, org, StepDown(p))]
    ensures StepDownAll(UnknownPaths([p, StepDown(p)], [Row(t, org, StepDown(p))])) == [StepDown(p)]
  {
    var s := StepDown(p);
    var rows := TwoPathsSecondStored(t, org, p, s);
    assert rows == [Row(t, org, s)] by {
      FindInSingle(t, org, p);
      assert rows[0] in rows;
    }
    UnknownChildOfParent(p, s, Row(t, org, s));
  }

  /** Of a path and its parent, with only the parent found, the path is unknown. */
  lemma UnknownChildOfParent(p: string, s: string, row: Parameter)
    requires row.path == s && p != s
    ensures StepDownAll(UnknownPaths([p, s], [row])) == [StepDown(p)]
  {
    assert UnknownPaths([p, s], [row]) == [p] by {
      assert PathsOf([row]) == [s];
      assert UnknownPaths([p], [row]) == [p] by {
        assert [p][..0] == [] && [] + [p] == [p];
      }
      assert [p, s][..1] == [p];
    }
    assert StepDownAll([p]) == [StepDown(p)];
  }

  /** The level-two query is built from the level-one paths that are not exact
      hits, so a level-one hit still sends its own parent to level two: with
      `p`'s parent stored and `q`'s grandparent stored, each path resolves on
      its own but the pair fails, because `p`'s grandparent is not stored. */
  lemma LevelTwoFromExactHits(t: Table, org: string, p: string, q: string)
    requires Key(org, p) !in t && Key(org, q) !in t
    requires Key(org, StepDown(p)) in t && Key(org, StepDown(StepDown(p))) !in t
    requires Key(org, StepDown(q)) !in t && Key(org, StepDown(StepDown(q))) in t
    ensures Retrieve(t, org, [p]).Ok? && Retrieve(t, org, [q]).Ok?
    ensures Retrieve(t, org, [p, q]) == Err(NotFound)
  {
    RetrieveSingle(t, org, p);
    RetrieveSingle(t, org, q);
    var sp, sq := StepDown(p), StepDown(q);
    var gp, gq := StepDown(sp), StepDown(sq);
    UnstoredPair(t, org, p, q);
    var orgFound, baseFound := CrossedParents(t, org, sp, sq);
    LevelTwoOutcome(t, org, [p, q], [], [sp, sq], orgFound, [gp, gq], baseFound);
  }

  /** The level-one and level-two queries for a stored parent whose own parent
      is not stored, next to an unstored parent whose own parent is stored. */
  lemma CrossedParents(t: Table, org: string, sp: string, sq: string) returns (orgFound: seq<Parameter>, baseFound: seq<Parameter>)
    requires Key(org, sp) in t && Key(org, StepDown(sp)) !in t
    requires Key(org, sq) !in t && Key(org, StepDown(sq)) in t
    ensures FindIn(t, org, [sp, sq]) == orgFound && |orgFound| == 1
    ensures StepDownAll(UnknownPaths([sp, sq], [])) == [StepDown(sp), StepDown(sq)]
    ensures FindIn(t, org, [StepDown(sp), StepDown(sq)]) == baseFound && |baseFound| == 1
  {
    orgFound := TwoPathsFirstStored(t, org, sp, sq);
    UnknownPathsNoneFound([sp, sq]);
    assert StepDownAll([sp, sq]) == [StepDown(sp), StepDown(sq)];
    baseFound := TwoPathsSecondStored(t, org, StepDown(sp), StepDown(sq));
  }

  /** The query for two paths of which only the first is stored. */
  lemma TwoPathsFirstStored(t: Table, org: string, x: string, y: string) returns (rows: seq<Parameter>)
    requires Key(org, x) in t && Key(org, y) !in t
    ensures FindIn(t, org, [x, y]) == rows && |rows| == 1
  {
    assert [x] + [y] == [x, y];
    FindInSingle(t, org, x);
    FindInSnoc(t, org, [x], y);
    rows := FindIn(t, org, [x, y]);
  }

  /** The query for two paths of which only the second is stored. */
  lemma TwoPathsSecondStored(t: Table, org: string, x: string, y: string) returns (rows: seq<Parameter>)
    requires Key(org, x) !in t && Key(org, y) in t
    ensures FindIn(t, org, [x, y]) == rows && |rows| == 1
  {
    assert [x] + [y] == [x, y];
    FindInSingle(t, org, x);
    FindInSnoc(t, org, [x], y);
    rows := FindIn(t, org, [x, y]);
  }

  // ---------------------------------------------------------------------------
  // list
  // ---------------------------------------------------------------------------

  /** The LIKE pattern of a wildcard listing: the first `*` becomes `%`. */
  function WildcardPattern(path: string): (pattern: string)
    ensures IndexOf(path, "*").None? ==> pattern == path
    ensures IndexOf(path, "*").Some? ==>
      var i := IndexOf(path, "*").value;
      pattern == path[..i] + [Percent] + path[i + 1..]
  {
    ReplaceFirst(path, "*", [Percent])
  }

  /** The rows, each as a present entry. */
  function Somes(rows: seq<Parameter>): (r: seq<Option<Parameter>>)
    ensures |r| == |rows| && forall i :: 0 <= i < |rows| ==> r[i] == Some(rows[i])
  {
    seq(|rows|, i requires 0 <= i < |rows| => Some(rows[i]))
  }

  /** `list`. Without `*`, the row with exactly that path, if any. With `*`, the
      most specific rows among `scan`, the rows the LIKE query found; the
      database rejects a pattern that ends in its escape character. Entries
      are `None` where the source pushes `undefined`. */
  function List(t: Table, org: string, path: string, scan: seq<Parameter>): (r: Result<seq<Option<Parameter>>, ServiceError>)
    requires '*' in path && !EndsInEscape(WildcardPattern(path)) ==> IsScan(scan, t, org, WildcardPattern(path))
    ensures '*' !in path ==> r.Ok? && |r.value| <= 1
    ensures r.Err? <==> '*' in path && EndsInEscape(WildcardPattern(path))
    ensures r.Err? ==> r.error == InvalidPattern
  {
    if '*' in path then
      var pattern := WildcardPattern(path);
      if EndsInEscape(pattern) then Err(InvalidPattern)
      else Ok(MostSpecificOf(scan))
    else
      Ok(Somes(FindIn(t, org, [path])))
  }

  /** An exact listing answers the stored row for that path, or nothing. */
  lemma ListExact(t: Table, org: string, path: string, scan: seq<Parameter>)
    requires '*' !in path
    ensures List(t, org, path, scan) == Ok(if Key(org, path) in t then [Some(Row(t, org, path))] else [])
  {
    FindInSingle(t, org, path);
    if Key(org, path) in t {
      assert Somes([Row(t, org, path)]) == [Some(Row(t, org, path))];
    } else {
      assert Somes([]) == [];
    }
  }

  /** Every row a listing answers is a stored row of the organization; in
      wildcard mode its path matches the pattern. */
  lemma ListSound(t: Table, org: string, path: string, scan: seq<Parameter>)
    requires '*' in path && !EndsInEscape(WildcardPattern(path)) ==> IsScan(scan, t, org, WildcardPattern(path))
    requires List(t, org, path, scan).Ok?
    ensures forall x :: x in List(t, org, path, scan).value && x.Some? ==>
      && Key(org, x.value.path) in t && t[Key(org, x.value.path)] == x.value.value
      && ('*' in path ==> Matches(x.value.path, WildcardPattern(path)))
  {
    if '*' in path {
      MostSpecificOfSound(scan);
    }
  }

  /** For a path whose only special character is one `*`, a wildcard listing
      answers rows whose paths start with the text before the `*` and end with
      the text after it. */
  lemma ListWildcardShape(t: Table, org: string, path: string, i: nat, scan: seq<Parameter>)
    requires Literal(path) && FirstOccurrence(path, "*", i)
    requires IsScan(scan, t, org, WildcardPattern(path))
    ensures '*' in path && !EndsInEscape(WildcardPattern(path))
    ensures forall x :: x in List(t, org, path, scan).value && x.Some? ==>
      && path[..i] <= x.value.path
      && |path| - 1 <= |x.value.path|
      && x.value.path[|x.value.path| - (|path| - i - 1)..] == path[i + 1..]
  {
    WildcardListing(t, org, path, i, scan);
    ScanSelectionMatches(t, org, WildcardPattern(path), scan);
    MatchedShape(path, i, MostSpecificOf(scan));
  }

  /** A path with one `*` and no other special character lists the most
      specific of the scanned rows. */
  lemma WildcardListing(t: Table, org: string, path: string, i: nat, scan: seq<Parameter>)
    requires Literal(path) && FirstOccurrence(path, "*", i)
    requires IsScan(scan, t, org, WildcardPattern(path))
    ensures '*' in path && !EndsInEscape(WildcardPattern(path))
    ensures List(t, org, path, scan) == Ok(MostSpecificOf(scan))
  {
    assert path[i] == '*';
    NoEscapeIsWellFormed(WildcardPattern(path));
  }

  /** Entries matching the pattern of a path with one `*` have its shape. */
  lemma MatchedShape(path: string, i: nat, out: seq<Option<Parameter>>)
    requires Literal(path) && FirstOccurrence(path, "*", i)
    requires forall x :: x in out && x.Some? ==> Matches(x.value.path, WildcardPattern(path))
    ensures forall x :: x in out && x.Some? ==>
      && path[..i] <= x.value.path
      && |path| - 1 <= |x.value.path|
      && x.value.path[|x.value.path| - (|path| - i - 1)..] == path[i + 1..]
  {
    forall x | x in out && x.Some?
      ensures path[..i] <= x.value.path && |path| - 1 <= |x.value.path|
      ensures x.value.path[|x.value.path| - (|path| - i - 1)..] == path[i + 1..]
    {
      WildcardMatches(x.value.path, path, i);
    }
  }

  /** The rows the specificity filter keeps from a scan match the pattern. */
  lemma ScanSelectionMatches(t: Table, org: string, pattern: string, scan: seq<Parameter>)
    requires IsScan(scan, t, org, pattern)
    ensures forall x :: x in MostSpecificOf(scan) && x.Some? ==> Matches(x.value.path, pattern)
  {
    MostSpecificOfSound(scan);
  }

  // ---------------------------------------------------------------------------
  // organizations
  // ---------------------------------------------------------------------------

  /** The two tables hold the same rows for the organization. */
  ghost predicate SameOrgRows(t1: Table, t2: Table, org: string)
  {
    && (forall p :: Key(org, p) in t1 <==> Key(org, p) in t2)
    && (forall p :: Key(org, p) in t1 ==> t1[Key(org, p)] == t2[Key(org, p)])
  }

  /** The rows of other organizations are the same in both tables. */
  ghost predicate OtherOrgsUnchanged(t: Table, t': Table, org: string)
  {
    forall k: Key :: k.org != org ==> (k in t' <==> k in t) && (k in t ==> t'[k] == t[k])
  }

  /** Create, update and delete touch only rows of the caller's organization. */
  lemma WritesStayInOrg(t: Table, org: string, request: seq<Parameter>, overwrite: bool, paths: seq<string>)
    ensures OtherOrgsUnchanged(t, Create(t, org, request, overwrite).table, org)
    ensures OtherOrgsUnchanged(t, Update(t, org, request).table, org)
    ensures OtherOrgsUnchanged(t, DeleteParams(t, org, paths).table, org)
  {
  }

  /** Retrieve reads only rows of the caller's organization. */
  lemma RetrieveSeesOnlyOrg(t1: Table, t2: Table, org: string, paths: seq<string>)
    requires SameOrgRows(t1, t2, org)
    ensures Retrieve(t1, org, paths) == Retrieve(t2, org, paths)
  {
    FindInSameOrg(t1, t2, org, paths);
    var parameters := FindIn(t1, org, paths);
    var orgLevelPath := StepDownAll(UnknownPaths(paths, parameters));
    FindInSameOrg(t1, t2, org, orgLevelPath);
    FindInSameOrg(t1, t2, org, StepDownAll(UnknownPaths(orgLevelPath, parameters)));
  }
}
