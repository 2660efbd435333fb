/**
 * The two `java.util.ArrayList` operations the core relies on, over Dafny
 * sequences: `indexOf` (behind `contains`) and `remove(Object)`, which takes
 * out the FIRST element equal to its argument and keeps the order of the rest.
 */
module Sequences {

  /** No element occurs twice. */
  ghost predicate NoDuplicates<T>(s: seq<T>) {
    forall i, j :: 0 <= i < j < |s| ==> s[i] != s[j]
  }

  /** `s` with its first occurrence of `x` taken out; `s` itself when `x` does not occur. */
  function RemoveFirst<T(==)>(s: seq<T>, x: T): (r: seq<T>)
    ensures |r| == if x in s then |s| - 1 else |s|
    ensures multiset(r) == multiset(s) - multiset{x}
  {
    if s == [] then []
    else if s[0] == x then
      assert s == [s[0]] + s[1..];
      s[1..]
    else
      assert s == [s[0]] + s[1..];
      [s[0]] + RemoveFirst(s[1..], x)
  }

  /** Removing the first occurrence of `x`, found at `k`, is cutting index `k` out. */
  lemma {:induction false} RemoveFirstAt<T>(s: seq<T>, x: T, k: nat)
    requires k < |s| && s[k] == x && x !in s[..k]
    ensures RemoveFirst(s, x) == s[..k] + s[k + 1..]
  {
    if k > 0 {
      assert s[0] in s[..k];
      assert s[1..][..k - 1] == s[..k][1..];
      RemoveFirstAt(s[1..], x, k - 1);
      assert s[..k] + s[k + 1..] == [s[0]] + (s[1..][..k - 1] + s[1..][k..]);
    }
  }

  /** An element that does not occur is not removed. */
  lemma {:induction false} RemoveFirstAbsent<T>(s: seq<T>, x: T)
    requires x !in s
    ensures RemoveFirst(s, x) == s
  {
    if s != [] {
      RemoveFirstAbsent(s[1..], x);
    }
  }

  /** Appending a fresh element and then removing it gives back the original sequence. */
  lemma RemoveFirstOfAppended<T>(s: seq<T>, x: T)
    requires x !in s
    ensures RemoveFirst(s + [x], x) == s
  {
    assert (s + [x])[..|s|] == s;
    RemoveFirstAt(s + [x], x, |s|);
  }

  /** Cutting one index out of a duplicate-free sequence leaves no copy of that element. */
  lemma NoDuplicatesCut<T>(s: seq<T>, k: nat)
    requires NoDuplicates(s) && k < |s|
    ensures s[k] !in s[..k] + s[k + 1..]
    ensures NoDuplicates(s[..k] + s[k + 1..])
  {
    var r := s[..k] + s[k + 1..];
    forall i | 0 <= i < |r|
      ensures r[i] == s[if i < k then i else i + 1]
    {
      if i < k {
        assert r[i] == s[..k][i];
      } else {
        assert r[i] == s[k + 1..][i - k];
      }
    }
  }

  /**
   * On a duplicate-free sequence removal leaves no copy behind, and the
   * result is again duplicate-free.
   */
  lemma RemoveFirstNoDuplicates<T>(s: seq<T>, x: T)
    requires NoDuplicates(s)
    ensures x !in RemoveFirst(s, x)
    ensures NoDuplicates(RemoveFirst(s, x))
  {
    if k :| 0 <= k < |s| && s[k] == x {
      RemoveFirstAt(s, x, k);
      NoDuplicatesCut(s, k);
    } else {
      RemoveFirstAbsent(s, x);
    }
  }

  /** Every other element keeps its membership when `x` is removed. */
  lemma RemoveFirstKeepsOthers<T>(s: seq<T>, x: T, y: T)
    requires y != x
    ensures y in RemoveFirst(s, x) <==> y in s
  {
    assert multiset(RemoveFirst(s, x))[y] == multiset(s)[y];
  }

  /** The index of the first element equal to `x`, or -1 (`List.indexOf`). */
  method IndexOf<T(==)>(s: seq<T>, x: T) returns (i: int)
    ensures 0 <= i ==> i < |s| && s[i] == x && x !in s[..i]
    ensures i < 0 <==> x !in s
    ensures i < 0 ==> i == -1
  {
    i := 0;
    while i < |s|
      invariant 0 <= i <= |s|
      invariant x !in s[..i]
    {
      if s[i] == x {
        return;
      }
      assert s[..i + 1] == s[..i] + [s[i]];
      i := i + 1;
    }
    assert s[..i] == s;
    i := -1;
  }

  /** `List.remove(Object)`: drops the first element equal to `x`, and says whether there was one. */
  method Remove<T(==)>(s: seq<T>, x: T) returns (r: seq<T>, removed: bool)
    ensures removed <==> x in s
    ensures r == RemoveFirst(s, x)
  {
    var i := IndexOf(s, x);
    if i < 0 {
      RemoveFirstAbsent(s, x);
      r, removed := s, false;
    } else {
      RemoveFirstAt(s, x, i);
      r, removed := s[..i] + s[i + 1..], true;
    }
  }
}
