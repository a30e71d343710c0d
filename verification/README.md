# Parameter service: resolution engine

A model of the core of a multi-tenant parameter store. Every organization keeps
JSON values under slash-separated paths such as `MYCONFIG.F1/MYORG/SITE1`. The
`parameter` table has the primary key `(path, org_id)`; here it is a
`map<Key, Json>` with `Key(org, path)`. The service offers five operations on
that table:

- **create** saves a batch of entries. Unless `overwrite` is set, it refuses a
  batch when any of its paths already exists. The database refuses a batch
  that would insert one new key twice.
- **update** rewrites existing rows. It keeps the old value when the new one is
  JS-falsy.
- **delete** removes rows and reports how many it removed.
- **retrieve** looks paths up with a two-level fallback to parent paths. Each
  level is all-or-nothing.
- **list** returns at most one exact row. For a path with `*`, it returns the "most
  specific" rows that a `LIKE` query matched.

Three layers:

- **Helpers** (`paths.dfy`, `strings.dfy`, `like.dfy`, `general_helper.dfy`,
  `specificity.dfy`).
  - These are the string and array helpers of `general.helper.ts`: JS
    `split`/`join`, `String.replace` with a string pattern (first occurrence
    only), lodash `find` and `groupBy`, and PostgreSQL `LIKE`.
  - Loops are methods proved against functions.
  - `findMoreSpecificParameters` mutates its arguments in place. It is
    modelled with two classes: `GroupedParameters` is the dictionary whose
    arrays it `pop()`s, and `ParameterList` is the array it pushes to.
- **Semantics** (`store.dfy`, `semantics.dfy`).
  - Each operation is a function of the table before the call. It gives the
    answer and the table after the call.
  - Lemmas prove the service's promises, the scenarios of its test suite, and
    the quirks of the code.
- **ParamService** (`parameter_service.dfy`).
  - A class with the table as a field. Its methods follow the service code
    step by step.
  - Each method is proved to answer and leave exactly what Semantics says.

Modelling choices:

- **Repository queries.**
  - `find({ where: { path: In(paths), org_id } })` returns one row per
    distinct stored path, in order of first request (`FindIn`).
  - `find` with `Like` may return the matching rows in any order. Statements
    about `list` therefore hold for every such order (`IsScan`).
  - `save` refuses a batch that gives a path the organization does not have
    yet twice, since both entries would be inserts of one primary key
    `(path, org_id)`, and writes nothing (`SaveRejected`). Otherwise it writes
    the rows in turn (`Upsert`).
  - `delete` removes the matching keys (`Delete`).
- **`undefined`.** The `undefined` that `findMoreSpecificParameters` can push
  is `None`.
- **Two details of the fallback, as the code does it:**
  - The level-one query is not de-duplicated before its length check. So two
    unknown paths under one stored parent make the level-one check fail
    (`SiblingsUnderOneParentFail`).
  - The level-two query is built from the level-one paths that are not *exact*
    hits (line 69), not from the level-one paths that stayed unresolved
    (`LevelTwoFromExactHits`).

## Model

| member | source | states |
|---|---|---|
| Store.FindIn | src/modules/parameter/parameter.service.ts:47-53 | the `In` query yields distinct paths, only stored rows with their stored values, exactly the requested stored paths, never more rows than paths |
| Store.FindInComplete | src/modules/parameter/parameter.service.ts:55 | the "lengths equal" tests hold exactly when the requested paths are distinct and all stored |
| Store.FindInAllStored | src/modules/parameter/parameter.service.ts:145-147 | with every path stored once, the rows come back in request order with their stored values |
| Store.FindInNoneStored | src/modules/parameter/parameter.service.ts:47-53 | nothing stored, nothing found |
| Store.FindInRepeated | src/modules/parameter/parameter.service.ts:60-66 | a stored path asked twice is found once |
| Store.FindInSameOrg | src/db/entities/parameter.entity.ts:4-10 | the query depends only on the caller organization's rows |
| Store.SaveAccepted | src/db/entities/parameter.entity.ts:6-9 | the primary key never refuses a batch with distinct paths, nor one whose paths are all stored |
| Store.Upsert | src/modules/parameter/parameter.service.ts:125-129 | an accepted save adds exactly the organization's saved paths, changes nothing else, and the last entry for a path wins |
| Store.UpsertStores | src/modules/parameter/parameter.service.ts:125-129 | every saved path is stored afterwards, whatever the order or repetition of the entries |
| Store.UpsertKeepsKeys | src/modules/parameter/parameter.service.ts:164 | saving rows that all exist adds no row |
| Store.UpsertDistinct | src/modules/parameter/parameter.service.ts:164 | saving rows with distinct paths stores each row's value |
| Store.Delete | src/modules/parameter/parameter.service.ts:177-180 | delete removes exactly the organization's rows with the given paths and keeps the others' values |
| Store.DeleteCount | src/modules/parameter/parameter.service.ts:177-182 | the affected count equals the number of rows that disappear |
| Paths.StepDown | src/common/helper/general.helper.ts:48 | one level up is the text before the last slash, or `""` without a slash |
| Paths.JoinSplit | src/common/helper/general.helper.ts:48 | `join("/")` undoes `split("/")` |
| Paths.SplitJoin | src/common/helper/general.helper.ts:48 | `split("/")` undoes `join("/")` of slash-free segments |
| Paths.StepDownShape | src/common/helper/general.helper.ts:45-53 | the parent is a prefix with one segment fewer, and the path is parent + `/` + last segment |
| Paths.FirstSegmentShape | src/common/helper/general.helper.ts:58 | the key is a slash-free prefix ending at the first slash |
| Strings.IndexOf | src/common/helper/general.helper.ts:19 | the search behind `replace` finds the first occurrence of the pattern, or reports that there is none |
| Strings.ReplaceFirst | src/common/helper/general.helper.ts:19 | `replace` with a string pattern changes only the first occurrence, or nothing when there is none |
| Like.LiteralPrefix | src/modules/parameter/parameter.service.ts:197 | a literal head of a LIKE pattern matches exactly itself |
| Like.PercentThenLiteral | src/modules/parameter/parameter.service.ts:197 | `%` then a literal matches exactly the strings ending in it |
| Like.WildcardMatches | src/modules/parameter/parameter.service.ts:194-201 | for a literal path with one `*`, the pattern matches exactly the paths with the text before `*` as prefix and the text after it as suffix |
| Like.NoEscapeIsWellFormed | src/modules/parameter/parameter.service.ts:197 | a pattern without backslash is never a malformed LIKE pattern |
| Like.PercentMatchesAll | src/modules/parameter/parameter.service.ts:197 | `Matches`: a lone `%` matches every path, the empty one included |
| Like.UnderscoresMatchLength | src/modules/parameter/parameter.service.ts:197 | `Matches`: `n` underscores match exactly the paths of length `n` |
| Like.EscapedMatchesItself | src/modules/parameter/parameter.service.ts:197 | `Matches`/`EndsInEscape`: a backslash before every character makes a text match exactly itself; that pattern is well formed and one more lone backslash is not |
| GeneralHelper.Translate | src/common/helper/general.helper.ts:13-25 | with no replacement object the text is unchanged; otherwise each string-valued entry replaces, in order, the first occurrence of its key |
| GeneralHelper.NonStringReplacementsAreSkipped | src/common/helper/general.helper.ts:18 | entries with non-string values change nothing |
| GeneralHelper.SingleReplacement | src/common/helper/general.helper.ts:19 | one replacement changes the first occurrence of the key and no earlier position |
| GeneralHelper.ReplaceLeadingKey | src/modules/parameter/parameter.service.spec.ts:97-101 | `:replacement` at the head of a template becomes `Parameter`, as in the not-found message |
| GeneralHelper.StripTrailingSlash | src/common/helper/general.helper.ts:27-29 | exactly one trailing slash removed when present, otherwise the identity; at most one character shorter |
| GeneralHelper.FindByPath | src/common/helper/general.helper.ts:37 | lodash `find` is `undefined` exactly when no parameter has the path, else a parameter with that path |
| GeneralHelper.FindByPathFirst | src/common/helper/general.helper.ts:37 | `find` returns the first parameter with the path |
| GeneralHelper.UnknownPathsCount | src/common/helper/general.helper.ts:31-43 | each path occurs among the unknown paths as often as among the given paths if it was not found, and not at all otherwise |
| GeneralHelper.UnknownPathsSubsequence | src/common/helper/general.helper.ts:36-41 | the unknown paths are a subsequence of the given paths, so their order is kept |
| GeneralHelper.FindUnknownPaths | src/common/helper/general.helper.ts:31-43 | the loop builds the given paths without a hit, in order, with repetitions |
| GeneralHelper.StepDownOnPaths | src/common/helper/general.helper.ts:45-53 | same length and order; element i is path i one level up, a prefix of it, `""` without a slash |
| GeneralHelper.UniqueKeysSpec | src/common/helper/general.helper.ts:55-63 | unique keys are duplicate-free, exactly the keys occurring, in first-appearance order |
| GeneralHelper.UniqueKeysArePrefixes | src/common/helper/general.helper.ts:58 | every unique key is a slash-free prefix of some parameter's path |
| GeneralHelper.FindUniqueKeysInParameters | src/common/helper/general.helper.ts:55-63 | the loop returns the distinct first segments in first-appearance order, exactly those of the parameters |
| Specificity.GroupBy | src/modules/parameter/parameter.service.ts:207 | `groupBy` keys are the distinct paths in first-appearance order, each array the rows with that path, in order |
| Specificity.DistinctPathsGiveSingletons | src/modules/parameter/parameter.service.ts:207 | rows with distinct paths group into one-element arrays |
| Specificity.Levels | src/common/helper/general.helper.ts:71-74 | `pickBy` with `startsWith` keeps exactly the keys that start with the unique key |
| Specificity.PopFrom | src/common/helper/general.helper.ts:77 | `?.pop()` yields one entry; a row exactly when the array exists and is not empty, and pushing it back restores the array; other arrays are untouched |
| Specificity.PopEach | src/common/helper/general.helper.ts:81-87 | one entry per selected key, and the arrays of keys not selected are untouched |
| Specificity.MaxSegments | src/common/helper/general.helper.ts:80-84 | the running `length` ends as the largest segment count of the group, 0 for none |
| Specificity.GroupStep | src/common/helper/general.helper.ts:71-88 | one iteration of the outer `forEach` pushes at least one entry and at most one per key of its group, and keeps the dictionary's keys |
| Specificity.MoreSpecific | src/common/helper/general.helper.ts:65-90 | the whole filter pushes at least one entry per unique key and keeps the dictionary's keys |
| Specificity.LoneGroupPushesOne | src/common/helper/general.helper.ts:76-78 | a group of at most one key pushes exactly one entry: the popped last row of the unique key's own array, or `undefined` |
| Specificity.WideGroupPushesDeepening | src/common/helper/general.helper.ts:79-88 | a wider group pushes one popped entry per key whose segment count beats the running maximum, in order |
| Specificity.DeepestIncreasing | src/common/helper/general.helper.ts:82-86 | the keys the running comparison selects (`Deepest`) have strictly increasing segment counts |
| Specificity.DeepestEnds | src/common/helper/general.helper.ts:80-87 | the first key is always selected and the last selected has the maximum segment count |
| Specificity.DeepestWithin | src/common/helper/general.helper.ts:81-87 | between 1 and the group's size entries, each a key of the group |
| Specificity.MoreSpecificWithin | src/common/helper/general.helper.ts:65-90 | the filter pushes only rows from the grouped arrays, and the arrays keep only such rows |
| Specificity.MostSpecificOfSound | src/modules/parameter/parameter.service.ts:203-209 | every defined listed entry is one of the matched rows |
| Specificity.MostSpecificOf | src/modules/parameter/parameter.service.ts:203-209 | the wildcard result has at least one entry per unique first segment of the matched rows |
| Specificity.SeparateGroupsBothReturned | src/common/helper/general.helper.ts:70-78 | two unrelated one-segment paths are both returned, in order |
| Specificity.LoneDeeperPathYieldsUndefined | src/common/helper/general.helper.ts:77 | a lone `a/b` under key `a` pushes `undefined` |
| Specificity.OverlappingGroupYieldsUndefined | src/common/helper/general.helper.ts:70-85 | a key that is a proper prefix of another shares its group; the first group pops both, so the second yields `undefined` |
| Specificity.PrefixKeyYieldsUndefined | src/common/helper/general.helper.ts:70-85 | the same for any slash-free path and a proper prefix of it |
| Specificity.GroupedParameters.Pop | src/common/helper/general.helper.ts:77 | `?.pop()` removes and returns the array's last row, or `undefined` for a missing or empty array |
| Specificity.ParameterList.Push | src/common/helper/general.helper.ts:77 | push appends one entry and keeps the others |
| Specificity.PushGroup | src/common/helper/general.helper.ts:71-88 | one outer iteration appends its group step's entries and leaves its pops |
| Specificity.FindMoreSpecificParameters | src/common/helper/general.helper.ts:65-90 | appends exactly the filter's entries after the untouched old ones, and leaves the popped arrays in the caller's dictionary |
| Specificity.PushDeepest | src/common/helper/general.helper.ts:79-88 | the inner loop appends the pops of exactly the keys `Deepest` selects, in order, and leaves the arrays those pops leave |
| Semantics.Create | src/modules/parameter/parameter.service.ts:104-136 | fails exactly when not overwriting and some path exists (already-exists), or when the batch repeats a new path (duplicate key); a failure leaves the table unchanged; success echoes the request |
| Semantics.CreateEffect | src/modules/parameter/parameter.service.ts:125-129 | success adds exactly the organization's requested paths, keeps every other row, and stores the last value given per path |
| Semantics.CreateStoresPaths | src/modules/parameter/parameter.service.ts:125-129 | after success every requested path is stored |
| Semantics.CreateTwiceFails | src/modules/parameter/parameter.service.spec.ts:78-84 | repeating a non-empty create without overwrite fails and changes nothing |
| Semantics.CreateOverwriteSucceeds | src/modules/parameter/parameter.service.spec.ts:86-93 | with overwrite, create succeeds exactly when no new path is repeated, and always for distinct paths, saving the request |
| Semantics.CreateRepeatedNewPathFails | src/modules/parameter/parameter.service.ts:125-129 | a batch giving an unstored path twice fails with duplicate key and writes nothing, with or without overwrite |
| Semantics.CreateRepeatedStoredPathLastWins | src/modules/parameter/parameter.service.ts:125-129 | a batch giving a stored path twice, with overwrite, leaves the later value |
| Semantics.CreateThenRetrieve | src/modules/parameter/parameter.service.spec.ts:142-150 | what was created with distinct paths is exactly what retrieve returns |
| Semantics.Update | src/modules/parameter/parameter.service.ts:138-171 | fails exactly when the paths are not all stored once each, then with not-found and the table unchanged |
| Semantics.Merge | src/modules/parameter/parameter.service.ts:157-162 | a row keeps its path; its value becomes the first request entry's for that path unless that value is falsy (`IsFalsy`: null, false, 0, `""`), and stays when no entry has the path |
| Semantics.MergeAll | src/modules/parameter/parameter.service.ts:157-162 | the `map` keeps length, order and paths, and merges each row |
| Semantics.MergedRows | src/modules/parameter/parameter.service.ts:157-162 | with every path stored once, the merged rows are in request order, each with the request's value, or the stored one when the request's is falsy |
| Semantics.UpdateAnswers | src/modules/parameter/parameter.service.ts:157-170 | success answers, per request entry in order, its path with the new value, the old one if the request's is falsy |
| Semantics.UpdateStores | src/modules/parameter/parameter.service.ts:157-164 | success keeps the set of rows, stores each answered value, and changes no other path or organization |
| Semantics.DeleteParams | src/modules/parameter/parameter.service.ts:172-183 | delete always succeeds, answers the number of removed rows and removes them |
| Semantics.DeleteCountsRemovedRows | src/modules/parameter/parameter.service.ts:177-182 | the answer is the drop in the table's size |
| Semantics.DeleteAbsent | src/modules/parameter/parameter.service.spec.ts:117-121 | deleting absent paths answers 0 and changes nothing |
| Semantics.DeleteOnceThenAgain | src/modules/parameter/parameter.service.spec.ts:123-129 | deleting a stored path answers 1, and again 0 |
| Semantics.Retrieve | src/modules/parameter/parameter.service.ts:41-102 | every returned row is stored with its value; the only error is not-found |
| Semantics.RetrieveAllExact | src/modules/parameter/parameter.service.ts:55-101 | all paths stored once gives exactly their rows, in request order |
| Semantics.RetrieveCovers | src/modules/parameter/parameter.service.ts:41-102 | on success every requested path, its parent or its grandparent is among the returned paths |
| Semantics.RetrieveMissingFails | src/modules/parameter/parameter.service.ts:81-87 | all-or-nothing: one path without itself, parent or grandparent stored fails the whole request |
| Semantics.RetrieveAtLevelOne | src/modules/parameter/parameter.service.ts:55-101 | when a requested path is missing or repeated and the parents of the unstored requested paths are stored once each, the answer is the exact hits followed by those parents' stored rows, in request order |
| Semantics.RetrieveAtLevelTwo | src/modules/parameter/parameter.service.ts:68-96 | when those parents are not all stored once each, the answer is all three levels if the parents of the level-one paths that are not exact hits are stored once each, and not-found otherwise |
| Semantics.UnknownPathsAreUnstored | src/modules/parameter/parameter.service.ts:56 | against the rows the exact query found, the unknown paths are the requested paths with no row, in order |
| Semantics.RetrieveSingle | src/modules/parameter/parameter.service.ts:41-102 | one path resolves to itself, its parent or its grandparent, or fails |
| Semantics.RetrieveSingleParent | src/modules/parameter/parameter.service.spec.ts:152-164 | an unstored path with a stored parent answers the parent |
| Semantics.RetrieveUnknownTopLevelFails | src/modules/parameter/parameter.service.spec.ts:133-140 | an unknown slash-free path fails |
| Semantics.RetrieveTwoLevelsUp | src/modules/parameter/parameter.service.spec.ts:166-178 | `a/b/c` with only `a` stored answers `a` |
| Semantics.SiblingsUnderOneParentFail | src/modules/parameter/parameter.service.ts:58-68 | two unknown siblings under a stored parent each resolve alone but fail together, whether or not the grandparent is stored |
| Semantics.ParentReturnedTwice | src/modules/parameter/parameter.service.ts:98 | a path and its stored parent requested together return the parent twice |
| Semantics.LevelTwoFromExactHits | src/modules/parameter/parameter.service.ts:69 | a level-one hit still sends its parent to level two, so a pair can fail though each path resolves alone |
| Semantics.WildcardPattern | src/modules/parameter/parameter.service.ts:197 | only the first `*` becomes `%` |
| Semantics.List | src/modules/parameter/parameter.service.ts:185-223 | without `*`, success with at most one entry; the only failure is a wildcard pattern ending in an escape |
| Semantics.ListExact | src/modules/parameter/parameter.service.spec.ts:201-207 | an exact listing answers the stored row for the path, or nothing |
| Semantics.ListSound | src/modules/parameter/parameter.service.ts:194-211 | every listed row is a stored row of the organization; in wildcard mode it matches the pattern |
| Semantics.ListWildcardShape | src/modules/parameter/parameter.service.spec.ts:182-199 | listed rows start with the text before `*` and end with the text after it |
| Semantics.WritesStayInOrg | src/db/entities/parameter.entity.ts:4-10 | create, update and delete leave other organizations' rows unchanged |
| Semantics.RetrieveSeesOnlyOrg | src/db/entities/parameter.entity.ts:4-10 | retrieve depends only on the caller organization's rows |
| ParameterService.ParamService.Save | src/modules/parameter/parameter.service.ts:125-129 | the save reports refusal exactly for a batch repeating a new path and then leaves the table; otherwise the loop leaves the upserted table |
| ParameterService.ParamService.ScanLike | src/modules/parameter/parameter.service.ts:195-201 | the Like query returns each matching row of the organization once, with its value |
| ParameterService.ParamService.Retrieve | src/modules/parameter/parameter.service.ts:41-102 | the method answers what `Semantics.Retrieve` does |
| ParameterService.ParamService.Create | src/modules/parameter/parameter.service.ts:104-136 | answer and new table are those of `Semantics.Create` |
| ParameterService.ParamService.MergeRows | src/modules/parameter/parameter.service.ts:157-162 | the `map` loop builds the merged rows |
| ParameterService.ParamService.Update | src/modules/parameter/parameter.service.ts:138-171 | answer and new table are those of `Semantics.Update` |
| ParameterService.ParamService.Delete | src/modules/parameter/parameter.service.ts:172-183 | answer and new table are those of `Semantics.DeleteParams` |
| ParameterService.ParamService.MoreSpecificOfScan | src/modules/parameter/parameter.service.ts:203-211 | unique keys, grouping and the in-place filter give `MostSpecificOf` of the scan |
| ParameterService.ParamService.List | src/modules/parameter/parameter.service.ts:185-223 | the answer is `Semantics.List` for some admissible order of the Like query's rows |

## Left out

- **Organization id.** JWT decoding, verification and JWKS fetching are not
  modelled. Nor is `getOrganizationId` (general.helper.ts:93-94). The
  organization id is a parameter of every operation.
- **Other services and plumbing.** Left out:
  - the Redis cache services, which `ParamService` never receives;
  - the logger, the exception filter and the controller;
  - the module wiring and the migration DDL.
- **Concurrency.** `async`/`await` and concurrent requests are left out. Each
  operation is one sequential step on the table.
- **Translation templates.** The `lang` dictionary is not part of this model.
  `Translate` takes the looked-up template as input. A `replacement` that is
  not an object is treated as absent.
- **Error messages.** Errors are values (`NotFound`, `AlreadyExists`,
  `InvalidPattern`, `DuplicateKey`), not translated `RpcException` messages.
- **Replacement strings.** `$`-patterns in a replacement string (`$&`, `$1`,
  and so on) are not interpreted.
- **JSON values.** They are a datatype with null, booleans, numbers (as
  integers), strings, arrays and objects. Every entry carries a value; the
  column default `{}` for an entry without one is not modelled.
- **Floating point.** NaN, `-0` and non-integer numbers are not represented.
  `IsFalsy` covers null, false, 0 and `""`.
- **Timestamps.** The `created_at`/`updated_at` columns and their database
  defaults are not modelled.
- **Dictionary key order.** JS objects enumerate integer-like keys first.
  `groupBy`/`pickBy`/`Object.entries` are taken to enumerate keys in order of
  first appearance.
- **LIKE escapes.** Only PostgreSQL's default backslash escape is modelled. No
  other `ESCAPE` clause is. A pattern ending in a lone backslash is the
  database error `InvalidPattern`.
- **`In` query order.** The order of an `In` query's rows is fixed to request
  order. The database may return them in another order.
- Store.Upsert: for a stored path given twice in one batch, the later value is
  kept, as two updates in order would leave it. The ORM's change detection,
  which skips an update whose value equals the one loaded before the save, is
  not modelled; nor is its split of a batch into inserts and updates beyond
  the duplicate-key refusal (`SaveRejected`).
- Semantics.RetrieveCovers: does not state which level a returned row came from.
  It states only that each requested path is covered by itself, its parent or
  its grandparent.
- Semantics.List: in wildcard mode, states the result for a given order of the
  `Like` rows. ParamService.List says only that some admissible order was used.
