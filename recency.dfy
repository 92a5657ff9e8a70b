/** Sequences of keys (or node slots) ordered from most to least recently
    used, and the one structural change the cache makes to them: unlinking
    an element while every other element keeps its place relative to the rest. */
module Recency {

  /** No element occurs twice. */
  predicate NoDup(s: seq<int>)
  {
    forall i, j :: 0 <= i < j < |s| ==> s[i] != s[j]
  }

  /** `s` with every occurrence of `k` filtered out, the other elements in order. */
  function Remove(s: seq<int>, k: int): (r: seq<int>)
    ensures forall x :: x in r <==> x in s && x != k
    ensures |r| <= |s|
    ensures k in s ==> |r| < |s|
  {
    if s == [] then []
    else if s[0] == k then Remove(s[1..], k)
    else [s[0]] + Remove(s[1..], k)
  }

  /** Filtering out an element that is not there changes nothing. */
  lemma {:induction false} RemoveAbsent(s: seq<int>, k: int)
    requires k !in s
    ensures Remove(s, k) == s
  {
    if s != [] {
      RemoveAbsent(s[1..], k);
      assert s == [s[0]] + s[1..];
    }
  }

  /** A position at which an element occurs. */
  lemma PositionOf(s: seq<int>, x: int) returns (i: int)
    requires x in s
    ensures 0 <= i < |s| && s[i] == x
  {
    i :| 0 <= i < |s| && s[i] == x;
  }

  /** In a duplicate-free sequence, filtering out the element at position `i`
      is unlinking that one position: the elements before it and the elements
      after it stay, in their original order. */
  lemma {:induction false} RemoveAt(s: seq<int>, i: int)
    requires NoDup(s) && 0 <= i < |s|
    ensures Remove(s, s[i]) == s[..i] + s[i + 1..]
  {
    if i == 0 {
      assert s[0] !in s[1..] by {
        forall j | 0 <= j < |s[1..]| ensures s[1..][j] != s[0] {
          assert s[1..][j] == s[j + 1];
        }
      }
      RemoveAbsent(s[1..], s[0]);
    } else {
      var t := s[1..];
      assert NoDup(t) by {
        forall a, b | 0 <= a < b < |t| ensures t[a] != t[b] {
          assert t[a] == s[a + 1] && t[b] == s[b + 1];
        }
      }
      assert t[i - 1] == s[i];
      assert s[0] != s[i];
      RemoveAt(t, i - 1);
      assert t[..i - 1] + t[i..] == s[1..i] + s[i + 1..];
      assert s[..i] + s[i + 1..] == [s[0]] + (s[1..i] + s[i + 1..]);
    }
  }

  /** Unlinking keeps a duplicate-free sequence duplicate-free and shortens it by one. */
  lemma RemoveAtNoDup(s: seq<int>, i: int)
    requires NoDup(s) && 0 <= i < |s|
    ensures NoDup(s[..i] + s[i + 1..]) && |s[..i] + s[i + 1..]| == |s| - 1
  {
    var r := s[..i] + s[i + 1..];
    forall a, b | 0 <= a < b < |r| ensures r[a] != r[b] {
      var a' := if a < i then a else a + 1;
      var b' := if b < i then b else b + 1;
      assert r[a] == s[a'] && r[b] == s[b'] && a' < b';
    }
  }

  /** The position that the element now at `j` held before the element at
      `i` was moved to the front. */
  function MovedFrom(i: int, j: int): int
  {
    if j == 0 then i else if j <= i then j - 1 else j
  }

  lemma MovedToFrontAt(s: seq<int>, i: int, j: int)
    requires 0 <= i < |s| && 0 <= j < |s|
    ensures |[s[i]] + s[..i] + s[i + 1..]| == |s|
    ensures 0 <= MovedFrom(i, j) < |s|
    ensures ([s[i]] + s[..i] + s[i + 1..])[j] == s[MovedFrom(i, j)]
  {
  }
}
