/**
 * `ParamService`: the five operations of the parameter service, each working
 * on the repository table held in a field, step by step as the service does,
 * and each proved to answer and leave what the Semantics module says.
 */
module ParameterService {
  import opened Wrappers
  import opened Entities
  import opened Strings
  import opened Like
  import opened GeneralHelper
  import opened Specificity
  import opened Store
  import opened Semantics

  class ParamService {
    /** The `parameter` table the repository reads and writes. */
    var table: Table

    constructor (initial: Table)
      ensures table == initial
    {
      table := initial;
    }

    /** `paramRepo.save(rows)` for rows of one organization: refused as a whole
        when it would insert one key twice, otherwise each row inserted or
        overwritten in turn. */
    method Save(org: string, rows: seq<Parameter>) returns (saved: bool)
      modifies this
      ensures saved <==> !SaveRejected(old(table), org, rows)
      ensures table == if saved then Upsert(old(table), org, rows) else old(table)
    {
      if SaveRejected(table, org, rows) {
        return false;
      }
      saved := true;
      ghost var t0 := table;
      for i := 0 to |rows|
        invariant table == Upsert(t0, org, rows[..i])
      {
        assert rows[..i + 1][..i] == rows[..i];
        table := table[Key(org, rows[i].path) := rows[i].value];
      }
      assert rows[..|rows|] == rows;
    }

    /** `paramRepo.find({ where: { path: Like(pattern), org_id } })`: the
        matching rows of the organization, taken from the table in whatever
        order the choice below makes. */
    method ScanLike(org: string, pattern: string) returns (rows: seq<Parameter>)
      ensures IsScan(rows, table, org, pattern)
    {
      rows := [];
      var rest := table.Keys;
      while rest != {}
        invariant rest <= table.Keys
        invariant Distinct(PathsOf(rows))
        invariant forall x :: x in rows ==>
          Key(org, x.path) in table && table[Key(org, x.path)] == x.value && Matches(x.path, pattern)
        invariant forall x :: x in rows ==> Key(org, x.path) !in rest
        invariant forall k :: k in table && k.org == org && Matches(k.path, pattern) && k !in rest ==> k.path in PathsOf(rows)
        decreases rest
      {
        var k :| k in rest;
        forall j | 0 <= j < |rows| ensures rows[j].path != k.path || k.org != org {
          assert rows[j] in rows;
        }
        rest := rest - {k};
        if k.org == org && Matches(k.path, pattern) {
          var row := Parameter(k.path, table[k]);
          assert PathsOf(rows + [row]) == PathsOf(rows) + [row.path];
          rows := rows + [row];
        }
      }
    }

    /** `retrieve`: the exact paths, then their parents, then the parents of
        the level-one paths that are not exact hits. */
    method Retrieve(org: string, paths: seq<string>) returns (r: Result<seq<Parameter>, ServiceError>)
      ensures r == Semantics.Retrieve(table, org, paths)
    {
      var parameters := FindIn(table, org, paths);
      if |paths| != |parameters| {
        var unknownPaths := FindUnknownPaths(paths, parameters);
        var orgLevelPath := StepDownOnPaths(unknownPaths);
        var orgLevelPathFound := FindIn(table, org, orgLevelPath);
        if |orgLevelPath| != |orgLevelPathFound| {
          unknownPaths := FindUnknownPaths(orgLevelPath, parameters);
          var baseLevelPath := StepDownOnPaths(unknownPaths);
          var baseLevelPathFound := FindIn(table, org, baseLevelPath);
          if |baseLevelPath| != |baseLevelPathFound| {
            return Err(NotFound);
          }
          return Ok(parameters + orgLevelPathFound + baseLevelPathFound);
        }
        parameters := parameters + orgLevelPathFound;
      }
      return Ok(parameters);
    }

    /** `create`: refused when a requested path exists and `overwrite` is not
        set; otherwise every entry is saved and echoed back. */
    method Create(org: string, parameters: seq<Parameter>, overwrite: bool) returns (r: Result<seq<Parameter>, ServiceError>)
      modifies this
      ensures Reply(r, table) == Semantics.Create(old(table), org, parameters, overwrite)
    {
      var paths := PathsOf(parameters);
      var checkDuplicate := FindIn(table, org, paths);
      if |checkDuplicate| > 0 && !overwrite {
        return Err(AlreadyExists);
      }
      var saved := Save(org, parameters);
      if !saved {
        return Err(DuplicateKey);
      }
      return Ok(parameters);
    }

    /** `update`: refused unless one row exists per request entry; otherwise
        each row's value is replaced by the request's, unless that is falsy,
        and the rows are saved. */
    method Update(org: string, parameters: seq<Parameter>) returns (r: Result<seq<Parameter>, ServiceError>)
      modifies this
      ensures Reply(r, table) == Semantics.Update(old(table), org, parameters)
    {
      var paths := PathsOf(parameters);
      var existingParameters := FindIn(table, org, paths);
      if |existingParameters| != |parameters| {
        return Err(NotFound);
      }
      var updatedParameters := MergeRows(existingParameters, parameters);
      assert forall p :: p in PathsOf(updatedParameters) ==> Key(org, p) in table by {
        assert PathsOf(updatedParameters) == PathsOf(existingParameters);
        forall p | p in PathsOf(updatedParameters) ensures Key(org, p) in table {
          var i :| 0 <= i < |existingParameters| && PathsOf(existingParameters)[i] == p;
          assert existingParameters[i] in existingParameters;
        }
      }
      SaveAccepted(table, org, updatedParameters);
      var saved := Save(org, updatedParameters);
      return Ok(updatedParameters);
    }

    /** The `map` of update: each found row takes the value of the first
        request entry for its path, unless that value is falsy. */
    static method MergeRows(existingParameters: seq<Parameter>, parameters: seq<Parameter>)
      returns (updatedParameters: seq<Parameter>)
      ensures updatedParameters == MergeAll(existingParameters, parameters)
    {
      updatedParameters := [];
      for i := 0 to |existingParameters|
        invariant |updatedParameters| == i
        invariant forall j :: 0 <= j < i ==> updatedParameters[j] == Merge(existingParameters[j], parameters)
      {
        var param := existingParameters[i];
        var found := FindByPath(parameters, param.path);
        if found.Some? && !IsFalsy(found.value.value) {
          param := Parameter(param.path, found.value.value);
        }
        assert param == Merge(existingParameters[i], parameters);
        updatedParameters := updatedParameters + [param];
      }
    }

    /** `delete`: removes the organization's rows with the given paths and
        reports how many there were. */
    method Delete(org: string, paths: seq<string>) returns (deleted: nat)
      modifies this
      ensures Reply(Ok(deleted), table) == DeleteParams(old(table), org, paths)
    {
      deleted := |Removed(table, org, paths)|;
      table := Store.Delete(table, org, paths);
    }

    /** The wildcard branch of `list` after the query: the unique keys, the
        grouping, and the filter into a fresh array. */
    static method MoreSpecificOfScan(parameters: seq<Parameter>) returns (filtered: seq<Option<Parameter>>)
      ensures filtered == MostSpecificOf(parameters)
    {
      var uniqueKeys := FindUniqueKeysInParameters(parameters);
      var groupedKeys := new GroupedParameters(GroupBy(parameters));
      var filteredParameters := new ParameterList();
      FindMoreSpecificParameters(uniqueKeys, groupedKeys, filteredParameters);
      filtered := filteredParameters.items;
    }

    /** `list`: the exact row, or with `*` the most specific of the rows the
        LIKE query matches. */
    method List(org: string, path: string) returns (r: Result<seq<Option<Parameter>>, ServiceError>)
      ensures '*' !in path ==> r == Semantics.List(table, org, path, [])
      ensures exists scan ::
        && ('*' in path && !EndsInEscape(WildcardPattern(path)) ==> IsScan(scan, table, org, WildcardPattern(path)))
        && r == Semantics.List(table, org, path, scan)
    {
      if '*' in path {
        var pattern := ReplaceFirst(path, "*", [Percent]);
        if EndsInEscape(pattern) {
          r := Err(InvalidPattern);
          assert r == Semantics.List(table, org, path, []);
          return;
        }
        var parameters := ScanLike(org, pattern);
        var filteredParameters := MoreSpecificOfScan(parameters);
        r := Ok(filteredParameters);
        assert r == Semantics.List(table, org, path, parameters);
        return;
      }
      r := Ok(Somes(FindIn(table, org, [path])));
      assert r == Semantics.List(table, org, path, []);
    }
  }
}
