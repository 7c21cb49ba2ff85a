/** Optional values, row limits and a few facts about sequences, shared by the
    other modules. */
module Wrappers {
  datatype Option<+T> = None | Some(value: T)

  datatype Result<+T, +E> = Success(value: T) | Failure(error: E)

  /** How many of `total` rows a limit lets through; limit 0 is no limit. */
  function Clip(total: nat, limit: nat): (n: nat)
    ensures n <= total
  {
    if limit == 0 || total <= limit then total else limit
  }

  /** No element is there twice. */
  ghost predicate Distinct<T>(s: seq<T>) {
    forall i, j :: 0 <= i < j < |s| ==> s[i] != s[j]
  }

  lemma HasMember<T>(s: seq<T>)
    requires s != []
    ensures exists e :: e in s
  {
    assert s[0] in s;
  }

  lemma Assoc<T>(a: seq<T>, b: seq<T>, c: seq<T>)
    ensures a + b + c == a + (b + c)
  {}

  /** The lower-case hexadecimal digit of `d`. */
  function HexChar(d: nat): char
    requires d < 16
  {
    if d < 10 then '0' + d as char else 'a' + (d - 10) as char
  }
}
