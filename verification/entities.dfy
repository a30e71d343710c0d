/** The parameter entity: a JSON value stored under a path for an organization. */
module Entities {

  /** A JSON document, as held in the `value` column. Numbers are integers in this model. */
  datatype Json =
    | Null
    | Bool(b: bool)
    | Num(n: int)
    | Str(s: string)
    | Arr(items: seq<Json>)
    | Obj(fields: seq<(string, Json)>)

  /** The JSON documents that JavaScript treats as false: `null`, `false`, `0` and `""`. */
  predicate IsFalsy(v: Json)
  {
    v == Null || v == Bool(false) || v == Num(0) || v == Str("")
  }

  /** A parameter as the service reads and returns it: `{path, value}`. */
  datatype Parameter = Parameter(path: string, value: Json)

  /** The paths of a sequence of parameters, position by position. */
  function PathsOf(ps: seq<Parameter>): (r: seq<string>)
    ensures |r| == |ps|
    ensures forall i :: 0 <= i < |ps| ==> r[i] == ps[i].path
  {
    seq(|ps|, i requires 0 <= i < |ps| => ps[i].path)
  }

  /** No element occurs twice. */
  predicate Distinct<T(==)>(s: seq<T>)
  {
    forall i, j :: 0 <= i < j < |s| ==> s[i] != s[j]
  }
}
