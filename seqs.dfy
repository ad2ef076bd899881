/**
 * Sequence operations shared by the model: JavaScript's `findIndex`, `reverse`
 * and the host's "insert at index" placement.
 */
module Seqs {

  /** `Array.prototype.reverse`, as a value. */
  function Reversed<T>(s: seq<T>): (r: seq<T>)
    ensures |r| == |s|
  {
    if s == [] then [] else Reversed(s[1..]) + [s[0]]
  }

  lemma {:induction false} ReversedAt<T>(s: seq<T>, k: nat)
    requires k < |s|
    ensures Reversed(s)[k] == s[|s| - 1 - k]
  {
    if k < |s| - 1 {
      ReversedAt(s[1..], k);
    }
  }

  lemma {:induction false} ReversedSnoc<T>(s: seq<T>, x: T)
    ensures Reversed(s + [x]) == [x] + Reversed(s)
    decreases |s|
  {
    if s != [] {
      assert (s + [x])[1..] == s[1..] + [x];
      ReversedSnoc(s[1..], x);
    } else {
      assert Reversed([x]) == Reversed([x][1..]) + [x];
    }
  }

  lemma {:induction false} ReversedTwice<T>(s: seq<T>)
    ensures Reversed(Reversed(s)) == s
    decreases |s|
  {
    if s != [] {
      ReversedSnoc(Reversed(s[1..]), s[0]);
      ReversedTwice(s[1..]);
      assert [s[0]] + s[1..] == s;
    }
  }

  /** Reversal keeps the elements. */
  lemma {:induction false} ReversedMultiset<T>(s: seq<T>)
    ensures multiset(Reversed(s)) == multiset(s)
    decreases |s|
  {
    if s != [] {
      ReversedMultiset(s[1..]);
      assert s == [s[0]] + s[1..];
    }
  }

  lemma ReversedDistinct<T>(s: seq<T>)
    requires Distinct(s)
    ensures Distinct(Reversed(s))
  {
    forall i, j | 0 <= i < j < |s|
      ensures Reversed(s)[i] != Reversed(s)[j]
    {
      ReversedAt(s, i);
      ReversedAt(s, j);
    }
  }

  /** `Array.prototype.reverse` in place. */
  method ReverseInPlace<T>(a: array<T>)
    modifies a
    ensures a[..] == Reversed(old(a[..]))
  {
    ghost var s := a[..];
    var i := 0;
    var j := a.Length - 1;
    while i < j
      invariant 0 <= i <= a.Length && j == a.Length - 1 - i
      invariant i <= j + 1
      invariant forall k :: 0 <= k < i ==> a[k] == s[a.Length - 1 - k] && a[a.Length - 1 - k] == s[k]
      invariant forall k :: i <= k <= j ==> a[k] == s[k]
    {
      a[i], a[j] := a[j], a[i];
      i := i + 1;
      j := j - 1;
    }
    forall k | 0 <= k < a.Length
      ensures a[k] == Reversed(s)[k]
    {
      ReversedAt(s, k);
    }
  }

  /**
   * The host's placement rule (tabs.create, bookmarks.create): the new element
   * ends up at position `k`; an index outside the list appends.
   */
  function InsertAt<T>(l: seq<T>, k: int, x: T): (r: seq<T>)
    ensures |r| == |l| + 1
    ensures 0 <= k <= |l| ==> r[k] == x && r[..k] == l[..k] && r[k + 1..] == l[k..]
    ensures !(0 <= k <= |l|) ==> r == l + [x]
  {
    if 0 <= k <= |l| then l[..k] + [x] + l[k..] else l + [x]
  }

  lemma ConcatAssoc<T>(a: seq<T>, b: seq<T>, c: seq<T>)
    ensures a + (b + c) == (a + b) + c
  {
  }

  /** Taking out what was just inserted gives the list back. */
  lemma RemoveInserted<T>(m: seq<T>, k: nat, x: T)
    requires k <= |m|
    ensures RemoveAt(InsertAt(m, k, x), k) == m
  {
    var r := InsertAt(m, k, x);
    assert r[..k] + r[k + 1..] == m[..k] + m[k..];
    assert m == m[..k] + m[k..];
  }

  /** `l` with the element at position `k` taken out. */
  function RemoveAt<T>(l: seq<T>, k: nat): (r: seq<T>)
    requires k < |l|
    ensures |r| == |l| - 1
    ensures r[..k] == l[..k] && r[k..] == l[k + 1..]
  {
    l[..k] + l[k + 1..]
  }

  /** `findIndex(x => x === v)`: the first position holding `v`, or -1. */
  function IndexOf<T(==)>(s: seq<T>, v: T): (i: int)
    ensures -1 <= i < |s|
    ensures i == -1 <==> v !in s
    ensures 0 <= i ==> s[i] == v && v !in s[..i]
  {
    if s == [] then -1
    else if s[0] == v then 0
    else var j := IndexOf(s[1..], v); if j == -1 then -1 else j + 1
  }

  /** Every element occurs once. */
  predicate Distinct<T(==)>(s: seq<T>)
  {
    forall i, j :: 0 <= i < j < |s| ==> s[i] != s[j]
  }

  /** `a` is `b` with some elements left out, order kept. */
  predicate Subseq<T(==)>(a: seq<T>, b: seq<T>)
    decreases |b|
  {
    if a == [] then true
    else if b == [] then false
    else ((a[|a| - 1] == b[|b| - 1] && Subseq(a[..|a| - 1], b[..|b| - 1]))
      || Subseq(a, b[..|b| - 1]))
  }

  lemma {:induction false} SubseqExtend<T>(a: seq<T>, b: seq<T>, c: seq<T>)
    requires Subseq(a, b)
    ensures Subseq(a, b + c)
    decreases |c|
  {
    if c == [] {
      assert b + c == b;
    } else if a != [] {
      var c' := c[..|c| - 1];
      SubseqExtend(a, b, c');
      assert (b + c)[..|b + c| - 1] == b + c';
      assert Subseq(a, (b + c)[..|b + c| - 1]);
    }
  }

  lemma SubseqSnoc<T>(a: seq<T>, b: seq<T>, x: T)
    requires Subseq(a, b)
    ensures Subseq(a + [x], b + [x])
  {
    assert (a + [x])[..|a|] == a;
    assert (b + [x])[..|b|] == b;
  }
}
