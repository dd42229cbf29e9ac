/**
 * The .NET collection operations the controller relies on, as functions on
 * sequences: LINQ's `FirstOrDefault` (as the index it finds), `List<T>.Remove`
 * and `Max`, together with the facts about them that the handlers' proofs use.
 */
module Sequences {
  import opened Wrappers

  /** The position of the first element of `s` that `matches`, or None when no element does. */
  function FirstIndex<T>(s: seq<T>, matches: T -> bool): (r: Option<nat>)
    ensures r.Some? ==> r.value < |s| && matches(s[r.value])
    ensures r.Some? ==> forall j :: 0 <= j < r.value ==> !matches(s[j])
    ensures r.None? <==> forall j :: 0 <= j < |s| ==> !matches(s[j])
    ensures forall i: nat :: r == Some(i) <==> IsFirstMatch(s, matches, i)
  {
    if |s| == 0 then None
    else if matches(s[0]) then Some(0)
    else match FirstIndex(s[1..], matches)
      case None => None
      case Some(k) => Some(k + 1)
  }

  /** `i` is the position of the first element of `s` that `matches`. */
  ghost predicate IsFirstMatch<T>(s: seq<T>, matches: T -> bool, i: nat)
  {
    i < |s| && matches(s[i]) && forall j :: 0 <= j < i ==> !matches(s[j])
  }

  /** `s` with its element at position `i` taken out; the others keep their order. */
  function RemoveAt<T>(s: seq<T>, i: nat): (r: seq<T>)
    requires i < |s|
    ensures |r| == |s| - 1
    ensures forall k :: 0 <= k < i ==> r[k] == s[k]
    ensures forall k :: i <= k < |r| ==> r[k] == s[k + 1]
  {
    s[..i] + s[i + 1..]
  }

  /** `List<T>.Remove(x)`: drops the first element equal to `x`, and leaves `s` as it is when there is none. */
  function RemoveFirst<T(==)>(s: seq<T>, x: T): (r: seq<T>)
    ensures x in s ==> |r| == |s| - 1
    ensures x !in s ==> r == s
  {
    if |s| == 0 then []
    else if s[0] == x then s[1..]
    else [s[0]] + RemoveFirst(s[1..], x)
  }

  /** When no earlier element equals `s[i]`, removing the first occurrence of `s[i]` removes position `i`. */
  lemma {:induction false} RemoveFirstIsRemoveAt<T>(s: seq<T>, i: nat)
    requires i < |s|
    requires forall j :: 0 <= j < i ==> s[j] != s[i]
    ensures RemoveFirst(s, s[i]) == RemoveAt(s, i)
  {
    if i > 0 {
      RemoveFirstIsRemoveAt(s[1..], i - 1);
      assert [s[0]] + RemoveAt(s[1..], i - 1) == RemoveAt(s, i);
    }
  }

  /**
   * Taking out an element that does not match leaves the first match where it
   * was (shifted down by one when it came after the removed position).
   */
  lemma FirstIndexAfterRemoveAt<T>(s: seq<T>, i: nat, matches: T -> bool)
    requires i < |s| && !matches(s[i])
    ensures FirstIndex(RemoveAt(s, i), matches).None? <==> FirstIndex(s, matches).None?
    ensures FirstIndex(s, matches).Some? ==>
      RemoveAt(s, i)[FirstIndex(RemoveAt(s, i), matches).value] == s[FirstIndex(s, matches).value]
  {
    var r := RemoveAt(s, i);
    match FirstIndex(s, matches)
    case None =>
      assert forall k :: 0 <= k < |r| ==> !matches(r[k]) by {
        forall k | 0 <= k < |r| ensures !matches(r[k]) {
          if k >= i { assert r[k] == s[k + 1]; }
        }
      }
    case Some(f) =>
      var g := if f < i then f else f - 1;
      assert r[g] == s[f];
      assert IsFirstMatch(r, matches, g) by {
        forall j | 0 <= j < g ensures !matches(r[j]) {
          if j >= i { assert r[j] == s[j + 1]; }
        }
      }
  }

  /** Replacing an element by one that matches exactly when it did leaves the first match's position alone. */
  lemma FirstIndexAfterUpdate<T>(s: seq<T>, i: nat, x: T, matches: T -> bool)
    requires i < |s| && matches(x) == matches(s[i])
    ensures FirstIndex(s[i := x], matches) == FirstIndex(s, matches)
  {
    var u := s[i := x];
    assert forall j :: 0 <= j < |s| ==> matches(u[j]) == matches(s[j]);
    if FirstIndex(s, matches).Some? {
      assert IsFirstMatch(u, matches, FirstIndex(s, matches).value);
    }
  }

  /** The largest element, as LINQ's `Max`; it throws on an empty sequence, hence the precondition. */
  function Max(s: seq<int>): (m: int)
    requires |s| > 0
    ensures m in s
    ensures forall k :: 0 <= k < |s| ==> s[k] <= m
  {
    if |s| == 1 then s[0]
    else
      var rest := Max(s[1..]);
      if s[0] >= rest then s[0] else rest
  }

  /** No value occurs twice in `s`. */
  predicate Distinct<T(==)>(s: seq<T>)
  {
    forall a, b :: 0 <= a < b < |s| ==> s[a] != s[b]
  }

  /** Taking out one element keeps a sequence free of duplicates. */
  lemma DistinctRemoveAt<T>(s: seq<T>, i: nat)
    requires i < |s| && Distinct(s)
    ensures Distinct(RemoveAt(s, i))
  {
    var r := RemoveAt(s, i);
    forall a, b | 0 <= a < b < |r| ensures r[a] != r[b] {
      var a' := if a < i then a else a + 1;
      var b' := if b < i then b else b + 1;
      assert r[a] == s[a'] && r[b] == s[b'];
    }
  }
}
