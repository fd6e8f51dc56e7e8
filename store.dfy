/// The part of the document-store contract that the two collections use:
/// `findOne` (first match in natural order), `find(...).toArray()`
/// (every match, in order), `updateMany` with `$set`, and the result
/// records the driver hands back.
module Store {

  datatype Option<T> = None | Some(value: T)

  datatype Result<T, E> = Ok(value: T) | Err(error: E)

  /** A document's `_id`. */
  type Id = nat

  /** An instant, as milliseconds since the epoch. */
  type Time = int

  /** What `updateOne` / `updateMany` resolve with (always an object, never null). */
  datatype UpdateResult = UpdateResult(matchedCount: nat)

  /** What `deleteOne` / `deleteMany` resolve with. */
  datatype DeleteResult = DeleteResult(deletedCount: nat)

  function Not<T>(p: T -> bool): T -> bool
  {
    x => !p(x)
  }

  /** Index of the document `findOne(filter)` returns: the first one, in
      natural order, that satisfies the filter; None when there is none. */
  function FirstMatch<T>(s: seq<T>, p: T -> bool): (r: Option<nat>)
    ensures r.Some? ==> r.value < |s| && p(s[r.value])
    ensures r.Some? ==> forall j :: 0 <= j < r.value ==> !p(s[j])
    ensures r.None? <==> forall j :: 0 <= j < |s| ==> !p(s[j])
  {
    if |s| == 0 then None
    else if p(s[0]) then Some(0)
    else match FirstMatch(s[1..], p)
      case None => None
      case Some(i) => Some(i + 1)
  }

  /** `find(filter).toArray()`: every document satisfying the filter, each
      as often as it occurs, and nothing else. */
  function Filter<T(!new)>(s: seq<T>, p: T -> bool): (r: seq<T>)
    ensures |r| <= |s|
    ensures forall x :: x in r <==> x in s && p(x)
    ensures forall x :: multiset(r)[x] == if p(x) then multiset(s)[x] else 0
  {
    if |s| == 0 then []
    else
      assert s == [s[0]] + s[1..];
      if p(s[0]) then [s[0]] + Filter(s[1..], p) else Filter(s[1..], p)
  }

  /** `updateMany(filter, {$set})`: every matching document is rewritten by
      `f`, every other one is left as it was, and none moves. */
  function UpdateWhere<T>(s: seq<T>, p: T -> bool, f: T -> T): (r: seq<T>)
    ensures |r| == |s|
    ensures forall i :: 0 <= i < |s| ==> r[i] == if p(s[i]) then f(s[i]) else s[i]
  {
    if |s| == 0 then []
    else [if p(s[0]) then f(s[0]) else s[0]] + UpdateWhere(s[1..], p, f)
  }

  /** `deleteOne`: the document at `i` is gone and the others keep their order. */
  function RemoveAt<T>(s: seq<T>, i: nat): (r: seq<T>)
    requires i < |s|
    ensures |r| == |s| - 1
    ensures forall k :: 0 <= k < |r| ==> r[k] == if k < i then s[k] else s[k + 1]
  {
    s[..i] + s[i + 1..]
  }

  /** Every document either matches the filter or not: what `deleteMany`
      keeps and what it removes add up to the whole collection. */
  lemma {:induction false} FilterPartition<T(!new)>(s: seq<T>, p: T -> bool)
    ensures |Filter(s, p)| + |Filter(s, Not(p))| == |s|
  {
    if |s| > 0 {
      FilterPartition(s[1..], p);
    }
  }

  /** No two positions of `s` carry the same key. */
  ghost predicate KeysDistinct<T, K>(s: seq<T>, key: T -> K)
  {
    forall i, j :: 0 <= i < |s| && 0 <= j < |s| && key(s[i]) == key(s[j]) ==> i == j
  }

  /** Removing one document keeps the remaining keys distinct, and the
      removed key is then absent. */
  lemma RemoveAtKeepsKeysDistinct<T, K>(s: seq<T>, i: nat, key: T -> K)
    requires i < |s| && KeysDistinct(s, key)
    ensures KeysDistinct(RemoveAt(s, i), key)
    ensures forall x :: x in RemoveAt(s, i) <==> x in s && key(x) != key(s[i])
  {
  }

  lemma PrependKeepsKeysDistinct<T, K>(x: T, s: seq<T>, key: T -> K)
    requires KeysDistinct(s, key)
    requires forall y :: y in s ==> key(y) != key(x)
    ensures KeysDistinct([x] + s, key)
  {
  }

  /** A key that is unique in a collection stays unique in any filtered
      part of it (a unique `_id` index survives `deleteMany`). */
  lemma {:induction false} FilterKeepsKeysDistinct<T(!new), K>(s: seq<T>, p: T -> bool, key: T -> K)
    requires KeysDistinct(s, key)
    ensures KeysDistinct(Filter(s, p), key)
  {
    if |s| > 0 {
      assert KeysDistinct(s[1..], key) by {
        forall i, j | 0 <= i < |s[1..]| && 0 <= j < |s[1..]| && key(s[1..][i]) == key(s[1..][j]) ensures i == j {
          assert s[1..][i] == s[i + 1] && s[1..][j] == s[j + 1];
        }
      }
      FilterKeepsKeysDistinct(s[1..], p, key);
      if p(s[0]) {
        forall y | y in Filter(s[1..], p) ensures key(y) != key(s[0]) {
          var k :| 0 <= k < |s[1..]| && s[1..][k] == y;
          assert s[k + 1] == y;
        }
        PrependKeepsKeysDistinct(s[0], Filter(s[1..], p), key);
      }
    }
  }
}
