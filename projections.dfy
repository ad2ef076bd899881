/**
 * The two DOM projections of the bookmark tree that a bookmark move keeps in
 * step (src/drag-drop.ts `drop` and src/client.ts `moveBookmarks`): the
 * leafs pane shows every bookmark in its folder; the folders pane shows the
 * folders and, besides them, the bookmarks that sit directly under the root.
 *
 * A projection is the parent of every element and the ordered children of
 * every folder element, both keyed by element id.
 */
module Projections {
  import opened Types
  import opened Seqs

  datatype Proj = Proj(parent: map<string, string>, kids: map<string, seq<string>>)

  /** The parent map and the children lists describe the same tree, without repeats. */
  ghost predicate WF(t: Proj)
  {
    && (forall x :: x in t.parent ==> t.parent[x] in t.kids && x in t.kids[t.parent[x]])
    && (forall p, z :: p in t.kids && z in t.kids[p] ==> z in t.parent && t.parent[z] == p)
    && (forall p :: p in t.kids ==> Distinct(t.kids[p]))
  }

  // ---------------------------------------------------------------------------
  // Sequence helpers
  // ---------------------------------------------------------------------------

  /** A children list with the element `x` taken out. */
  function Without(s: seq<string>, x: string): (r: seq<string>)
    ensures x !in s ==> r == s
  {
    var k := IndexOf(s, x);
    if k == -1 then s else RemoveAt(s, k)
  }

  lemma WithoutSpec(s: seq<string>, x: string)
    requires Distinct(s)
    ensures Distinct(Without(s, x))
    ensures forall y :: y in Without(s, x) <==> y in s && y != x
  {
    var k := IndexOf(s, x);
    if k != -1 {
      DroppedElems(s, Without(s, x), k);
    }
  }

  /** The element at `i` of `m`, where `m` is `l` with position `j` dropped. */
  lemma DroppedIndex(l: seq<string>, m: seq<string>, j: nat, i: nat)
    requires DroppedAt(l, m, j) && i < |m|
    ensures m[i] == l[if i < j then i else i + 1]
  {
    if i < j {
      assert m[i] == m[..j][i];
    } else {
      assert m[i] == m[j..][i - j];
    }
  }

  /** Dropping one position from a list of distinct elements drops exactly that element. */
  lemma DroppedElems(l: seq<string>, m: seq<string>, j: nat)
    requires DroppedAt(l, m, j) && Distinct(l)
    ensures Distinct(m)
    ensures forall y :: y in m <==> y in l && y != l[j]
  {
    forall a, b | 0 <= a < b < |m|
      ensures m[a] != m[b]
    {
      DroppedIndex(l, m, j, a);
      DroppedIndex(l, m, j, b);
    }
    forall y | y in l && y != l[j]
      ensures y in m
    {
      var i :| 0 <= i < |l| && l[i] == y;
      DroppedIndex(l, m, j, if i < j then i else i - 1);
    }
    forall y | y in m
      ensures y in l && y != l[j]
    {
      var i :| 0 <= i < |m| && m[i] == y;
      DroppedIndex(l, m, j, i);
    }
  }

  lemma InsertAtSpec(l: seq<string>, k: int, x: string)
    requires Distinct(l) && x !in l
    ensures Distinct(InsertAt(l, k, x))
    ensures forall y :: y in InsertAt(l, k, x) <==> y == x || y in l
  {
    var r := InsertAt(l, k, x);
    if 0 <= k <= |l| {
      assert r == l[..k] + [x] + l[k..];
      forall i, j | 0 <= i < j < |r|
        ensures r[i] != r[j]
      {
        if i < k && j > k {
          assert r[j] == l[j - 1];
        } else if i > k {
          assert r[i] == l[i - 1] && r[j] == l[j - 1];
        }
      }
    }
  }

  // ---------------------------------------------------------------------------
  // `remove` and `insertAdjacentElement`
  // ---------------------------------------------------------------------------

  /** `el.remove()`: the element leaves its parent's children. */
  function Detach(t: Proj, x: string): Proj
  {
    if x in t.parent && t.parent[x] in t.kids then
      var p := t.parent[x];
      Proj(t.parent - {x}, t.kids[p := Without(t.kids[p], x)])
    else Proj(t.parent - {x}, t.kids)
  }

  /** Where `insertAdjacentElement(pos, el)` on `dest` can put an element. */
  predicate CanPlace(t: Proj, dest: string, pos: Position)
  {
    if pos == BeforeEnd then dest in t.kids else dest in t.parent && t.parent[dest] in t.kids
  }

  /** The folder the element lands in: `dest` itself for `beforeend`, else `dest`'s parent. */
  function NewParent(t: Proj, dest: string, pos: Position): string
    requires pos == BeforeEnd || dest in t.parent
  {
    if pos == BeforeEnd then dest else t.parent[dest]
  }

  /** The children list of the folder `x` lands in, with `x` put beside `dest` or last. */
  function PlaceIn(l: seq<string>, x: string, dest: string, pos: Position): seq<string>
  {
    if pos == BeforeEnd then l + [x]
    else InsertAt(l, IndexOf(l, dest) + (if pos == AfterEnd then 1 else 0), x)
  }

  /** `dest.insertAdjacentElement(pos, x)` for an `x` that is not in the tree. */
  function Place(t: Proj, x: string, dest: string, pos: Position): Proj
    requires CanPlace(t, dest, pos)
  {
    var p := NewParent(t, dest, pos);
    Proj(t.parent[x := p], t.kids[p := PlaceIn(t.kids[p], x, dest, pos)])
  }

  /** `dest.insertAdjacentElement(pos, x)` for an `x` already in the tree: it is moved. */
  function Move(t: Proj, x: string, dest: string, pos: Position): Proj
    requires x != dest && CanPlace(t, dest, pos)
  {
    assert Detach(t, x).kids.Keys == t.kids.Keys;
    Place(Detach(t, x), x, dest, pos)
  }

  /** The parent map after `remove` and `insertAdjacentElement` (no well-formedness needed). */
  lemma MoveParent(t: Proj, x: string, dest: string, pos: Position)
    requires x != dest && CanPlace(t, dest, pos)
    ensures Move(t, x, dest, pos).parent == t.parent[x := NewParent(t, dest, pos)]
    ensures Move(t, x, dest, pos).kids.Keys == t.kids.Keys
  {
    var d := Detach(t, x);
    DetachFrame(t, x);
    assert NewParent(d, dest, pos) == NewParent(t, dest, pos);
    PlaceParent(d, x, dest, pos);
    UpdateAfterRemove(t.parent, x, NewParent(t, dest, pos));
  }

  /** `remove` drops the element's own parent entry and keeps every folder. */
  lemma DetachFrame(t: Proj, x: string)
    ensures Detach(t, x).parent == t.parent - {x}
    ensures Detach(t, x).kids.Keys == t.kids.Keys
  {
  }

  lemma UpdateAfterRemove(m: map<string, string>, k: string, v: string)
    ensures (m - {k})[k := v] == m[k := v]
  {
  }

  lemma PlaceParent(t: Proj, x: string, dest: string, pos: Position)
    requires CanPlace(t, dest, pos)
    ensures Place(t, x, dest, pos).parent == t.parent[x := NewParent(t, dest, pos)]
    ensures Place(t, x, dest, pos).kids.Keys == t.kids.Keys
  {
  }

  lemma DetachSpec(t: Proj, x: string)
    requires WF(t)
    ensures WF(Detach(t, x))
    ensures forall p :: p in t.kids ==> x !in Detach(t, x).kids[p]
  {
    var r := Detach(t, x);
    if x in t.parent {
      var p := t.parent[x];
      WithoutSpec(t.kids[p], x);
      forall q | q in t.kids
        ensures x !in r.kids[q]
      {
        if q != p {
          assert r.kids[q] == t.kids[q];
        }
      }
    } else {
      forall q | q in t.kids
        ensures x !in r.kids[q]
      {
        assert x in t.kids[q] ==> x in t.parent;
      }
    }
  }

  /** An element outside the tree is in no children list. */
  lemma Unlisted(t: Proj, x: string)
    requires WF(t) && x !in t.parent
    ensures forall p :: p in t.kids ==> x !in t.kids[p]
  {
    forall p | p in t.kids
      ensures x !in t.kids[p]
    {
      assert x in t.kids[p] ==> x in t.parent;
    }
  }

  /** The children list `Place` writes: the old one with `x` added. */
  lemma PlacedList(t: Proj, x: string, dest: string, pos: Position)
    requires WF(t) && x !in t.parent && CanPlace(t, dest, pos)
    ensures var p := NewParent(t, dest, pos);
      var l := Place(t, x, dest, pos).kids[p];
      && Distinct(l)
      && forall y :: y in l <==> y == x || y in t.kids[p]
  {
    var p := NewParent(t, dest, pos);
    Unlisted(t, x);
    if pos == BeforeEnd {
      var l := t.kids[p] + [x];
      forall i, j | 0 <= i < j < |l|
        ensures l[i] != l[j]
      {
        if j == |l| - 1 {
          assert l[i] in t.kids[p];
        }
      }
    } else {
      var k := IndexOf(t.kids[p], dest) + (if pos == AfterEnd then 1 else 0);
      InsertAtSpec(t.kids[p], k, x);
    }
  }

  lemma PlaceSpec(t: Proj, x: string, dest: string, pos: Position)
    requires WF(t) && x !in t.parent && CanPlace(t, dest, pos)
    ensures WF(Place(t, x, dest, pos))
  {
    var p := NewParent(t, dest, pos);
    var r := Place(t, x, dest, pos);
    PlacedList(t, x, dest, pos);
    Unlisted(t, x);
    assert r.parent == t.parent[x := p];
    assert r.kids == t.kids[p := r.kids[p]];
    forall y | y in r.parent
      ensures r.parent[y] in r.kids && y in r.kids[r.parent[y]]
    {
      if y != x {
        assert y in t.kids[t.parent[y]];
      }
    }
    forall q, z | q in r.kids && z in r.kids[q]
      ensures z in r.parent && r.parent[z] == q
    {
      if q != p {
        assert z in t.kids[q];
        assert z != x;
      }
    }
  }

  lemma MoveSpec(t: Proj, x: string, dest: string, pos: Position)
    requires WF(t) && x != dest && CanPlace(t, dest, pos)
    ensures WF(Move(t, x, dest, pos))
  {
    DetachSpec(t, x);
    var d := Detach(t, x);
    assert d.parent == t.parent - {x};
    PlaceSpec(d, x, dest, pos);
  }

  /** `x` sits next to `dest` in `l` on the side `pos` names, or last for `beforeend`. */
  predicate LandsBeside(l: seq<string>, x: string, dest: string, pos: Position)
  {
    var j := IndexOf(l, x);
    && 0 <= j < |l|
    && (pos == BeforeBegin ==> j + 1 < |l| && l[j + 1] == dest)
    && (pos == AfterEnd ==> j >= 1 && l[j - 1] == dest)
    && (pos == BeforeEnd ==> j == |l| - 1)
  }

  /**
   * The moved element lands next to `dest` on the side `pos` names, or last
   * among `dest`'s children for `beforeend`.
   */
  lemma MovePlacesBeside(t: Proj, x: string, dest: string, pos: Position)
    requires WF(t) && x != dest && CanPlace(t, dest, pos)
    ensures LandsBeside(Move(t, x, dest, pos).kids[NewParent(t, dest, pos)], x, dest, pos)
  {
    MoveKids(t, x, dest, pos);
    var w := t.kids[NewParent(t, dest, pos)];
    WithoutPlacesBeside(w, x, dest, pos);
  }

  lemma WithoutPlacesBeside(w: seq<string>, x: string, dest: string, pos: Position)
    requires Distinct(w) && x != dest && (pos != BeforeEnd ==> dest in w)
    ensures LandsBeside(PlaceIn(Without(w, x), x, dest, pos), x, dest, pos)
  {
    WithoutSpec(w, x);
    PlaceInBeside(Without(w, x), x, dest, pos);
  }

  /** In the children list alone: `x` lands beside `dest`, or last. */
  lemma PlaceInBeside(w: seq<string>, x: string, dest: string, pos: Position)
    requires x !in w && (pos != BeforeEnd ==> dest in w)
    ensures LandsBeside(PlaceIn(w, x, dest, pos), x, dest, pos)
  {
    var l := PlaceIn(w, x, dest, pos);
    if pos == BeforeEnd {
      assert l[..|l| - 1] == w;
      IndexOfFirst(l, |l| - 1, x);
    } else {
      var k := IndexOf(w, dest);
      var k' := k + (if pos == AfterEnd then 1 else 0);
      assert x !in w[..k'];
      IndexOfFirst(l, k', x);
      if pos == BeforeBegin {
        assert l[k' + 1] == l[k' + 1..][0];
      } else {
        assert l[k' - 1] == l[..k'][k' - 1];
      }
    }
  }

  // ---------------------------------------------------------------------------
  // Runs of moved elements
  // ---------------------------------------------------------------------------

  /** `run` sits directly before `d` in `l`. */
  predicate RunBefore(l: seq<string>, d: string, run: seq<string>)
  {
    var k := IndexOf(l, d);
    k >= |run| && l[k - |run|..k] == run
  }

  /** `run` sits directly after `d` in `l`. */
  predicate RunAfter(l: seq<string>, d: string, run: seq<string>)
  {
    var k := IndexOf(l, d);
    0 <= k && k + 1 + |run| <= |l| && l[k + 1..k + 1 + |run|] == run
  }

  /** `run` ends `l`. */
  predicate RunAtEnd(l: seq<string>, run: seq<string>)
  {
    |run| <= |l| && l[|l| - |run|..] == run
  }

  lemma {:induction false} IndexOfFirst(l: seq<string>, i: nat, d: string)
    requires i < |l| && l[i] == d && d !in l[..i]
    ensures IndexOf(l, d) == i
  {
    if i > 0 {
      assert l[..i][0] == l[0];
      assert l[1..][..i - 1] == l[..i][1..];
      IndexOfFirst(l[1..], i - 1, d);
    }
  }

  lemma SliceHas(l: seq<string>, a: nat, b: nat, j: nat)
    requires a <= b <= |l| && j < |l|
    ensures a <= j < b ==> l[j] in l[a..b]
  {
    if a <= j < b {
      assert l[a..b][j - a] == l[j];
    }
  }

  lemma NotInParts(l: seq<string>, j: nat, k: nat, d: string)
    requires j < k <= |l| && d !in l[..k]
    ensures d !in l[..j] + l[j + 1..k]
  {
    assert l[..k] == l[..j] + [l[j]] + l[j + 1..k];
  }

  /** A slice after the removed position moves one place left. */
  lemma RemovedSliceLeft(l: seq<string>, j: nat, a: nat, b: nat)
    requires j <= a <= b < |l|
    ensures RemoveAt(l, j)[a..b] == l[a + 1..b + 1]
  {
  }

  /** A slice before the removed position stays where it is. */
  lemma RemovedSliceRight(l: seq<string>, j: nat, a: nat, b: nat)
    requires a <= b <= j < |l|
    ensures RemoveAt(l, j)[a..b] == l[a..b]
  {
  }

  lemma IndexAfterRemoveLeft(l: seq<string>, j: nat, d: string)
    requires j < |l| && l[j] != d && d in l && j < IndexOf(l, d)
    ensures IndexOf(RemoveAt(l, j), d) == IndexOf(l, d) - 1
  {
    IndexShiftLeft(l, RemoveAt(l, j), j, d);
  }

  lemma IndexAfterRemoveRight(l: seq<string>, j: nat, d: string)
    requires j < |l| && d in l && j > IndexOf(l, d)
    ensures IndexOf(RemoveAt(l, j), d) == IndexOf(l, d)
  {
    var k := IndexOf(l, d);
    RemovedSliceRight(l, j, 0, k + 1);
    var m := RemoveAt(l, j);
    assert m[..k] == m[..k + 1][..k];
    assert m[k] == m[..k + 1][k];
    IndexOfFirst(m, k, d);
  }

  lemma RemoveKeepsRunBefore(l: seq<string>, d: string, run: seq<string>, j: nat)
    requires j < |l| && l[j] != d && l[j] !in run && RunBefore(l, d, run)
    ensures RunBefore(RemoveAt(l, j), d, run)
  {
    var k := IndexOf(l, d);
    SliceHas(l, k - |run|, k, j);
    if j < k {
      IndexAfterRemoveLeft(l, j, d);
      RemovedSliceLeft(l, j, k - |run| - 1, k - 1);
    } else {
      IndexAfterRemoveRight(l, j, d);
      RemovedSliceRight(l, j, k - |run|, k);
    }
  }

  lemma WithoutKeepsRunBefore(l: seq<string>, d: string, run: seq<string>, x: string)
    requires x != d && x !in run && RunBefore(l, d, run)
    ensures RunBefore(Without(l, x), d, run)
  {
    var j := IndexOf(l, x);
    if j != -1 {
      RemoveKeepsRunBefore(l, d, run, j);
    }
  }

  lemma RemoveKeepsRunAfter(l: seq<string>, d: string, run: seq<string>, j: nat)
    requires j < |l| && l[j] != d && l[j] !in run && RunAfter(l, d, run)
    ensures RunAfter(RemoveAt(l, j), d, run)
  {
    if j < IndexOf(l, d) {
      RemoveLeftOfRunAfter(l, d, run, j);
    } else {
      RemoveRightOfRunAfter(l, d, run, j);
    }
  }

  lemma RemoveLeftOfRunAfter(l: seq<string>, d: string, run: seq<string>, j: nat)
    requires j < IndexOf(l, d) && l[j] != d && RunAfter(l, d, run)
    ensures RunAfter(RemoveAt(l, j), d, run)
  {
    RunAfterShiftLeft(l, RemoveAt(l, j), d, run, j);
  }

  /** `m` is `l` with the element at `j` dropped. */
  predicate DroppedAt(l: seq<string>, m: seq<string>, j: nat)
  {
    j < |l| && |m| + 1 == |l| && m[..j] == l[..j] && m[j..] == l[j + 1..]
  }

  lemma {:induction false} RunAfterShiftLeft(l: seq<string>, m: seq<string>, d: string, run: seq<string>, j: nat)
    requires DroppedAt(l, m, j) && j < IndexOf(l, d) && l[j] != d && RunAfter(l, d, run)
    ensures RunAfter(m, d, run)
  {
    IndexShiftLeft(l, m, j, d);
    ShiftedRunAfter(l, m, d, run, j, IndexOf(l, d));
  }

  lemma {:induction false} IndexShiftLeft(l: seq<string>, m: seq<string>, j: nat, d: string)
    requires DroppedAt(l, m, j) && l[j] != d && j < IndexOf(l, d)
    ensures IndexOf(m, d) + 1 == IndexOf(l, d)
  {
    var k := IndexOf(l, d);
    NotInParts(l, j, k, d);
    DroppedPrefix(l, m, j, k);
    DroppedIndex(l, m, j, k - 1);
    IndexOfFirst(m, k - 1, d);
  }

  /** Up to a position `k` past the drop, `m` holds `l`'s prefix without the dropped element. */
  lemma DroppedPrefix(l: seq<string>, m: seq<string>, j: nat, k: nat)
    requires DroppedAt(l, m, j) && j < k <= |l|
    ensures m[..k - 1] == l[..j] + l[j + 1..k]
  {
    assert m[..k - 1] == m[..j] + m[j..k - 1];
    assert m[j..k - 1] == m[j..][..k - 1 - j];
    assert l[j + 1..][..k - 1 - j] == l[j + 1..k];
  }

  lemma RemoveRightOfRunAfter(l: seq<string>, d: string, run: seq<string>, j: nat)
    requires IndexOf(l, d) < j < |l| && l[j] !in run && RunAfter(l, d, run)
    ensures RunAfter(RemoveAt(l, j), d, run)
  {
    RunAfterKeptRight(l, RemoveAt(l, j), d, run, j);
  }

  lemma {:induction false} RunAfterKeptRight(l: seq<string>, m: seq<string>, d: string, run: seq<string>, j: nat)
    requires DroppedAt(l, m, j) && IndexOf(l, d) < j && l[j] !in run && RunAfter(l, d, run)
    ensures RunAfter(m, d, run)
  {
    var k := IndexOf(l, d);
    SliceHas(l, k + 1, k + 1 + |run|, j);
    assert k + 1 + |run| <= j;
    IndexKeptByDropRight(l, m, j, d);
    SliceKeptByDropRight(l, m, j, k + 1, k + 1 + |run|);
  }

  lemma IndexKeptByDropRight(l: seq<string>, m: seq<string>, j: nat, d: string)
    requires DroppedAt(l, m, j) && IndexOf(l, d) < j
    ensures IndexOf(m, d) == IndexOf(l, d)
  {
    var k := IndexOf(l, d);
    if k >= 0 {
      SliceKeptByDropRight(l, m, j, 0, k);
      assert m[..k] == m[0..k] && l[..k] == l[0..k];
      DroppedIndex(l, m, j, k);
      IndexOfFirst(m, k, d);
    } else {
      forall i | 0 <= i < |m|
        ensures m[i] != d
      {
        DroppedIndex(l, m, j, i);
      }
    }
  }

  lemma SliceKeptByDropRight(l: seq<string>, m: seq<string>, j: nat, a: nat, b: nat)
    requires DroppedAt(l, m, j) && a <= b <= j
    ensures m[a..b] == l[a..b]
  {
    PrefixSlice(m, j, a, b);
    PrefixSlice(l, j, a, b);
  }

  /** A slice inside a prefix is the same slice of the whole. */
  lemma PrefixSlice(s: seq<string>, a: nat, b: nat, c: nat)
    requires b <= c <= a <= |s|
    ensures s[..a][b..c] == s[b..c]
  {
  }

  /** When `m` is `l` with one element left of `d` dropped, the run after `d` moves along with it. */
  lemma ShiftedRunAfter(l: seq<string>, m: seq<string>, d: string, run: seq<string>, j: nat, k: nat)
    requires j < k && k + 1 + |run| <= |l| && |m| + 1 == |l|
    requires m[j..] == l[j + 1..] && IndexOf(m, d) + 1 == k
    requires l[k + 1..k + 1 + |run|] == run
    ensures RunAfter(m, d, run)
  {
    var n := |run|;
    SuffixSlice(m, j, k - j, k - j + n, k, k + n);
    SuffixSlice(l, j + 1, k - j, k - j + n, k + 1, k + 1 + n);
  }

  /** A slice of a suffix is a slice of the whole, shifted by where the suffix starts. */
  lemma SuffixSlice(s: seq<string>, a: nat, b: nat, c: nat, x: nat, y: nat)
    requires a <= |s| && b <= c <= |s| - a && x == a + b && y == a + c
    ensures s[a..][b..c] == s[x..y]
  {
  }



  lemma WithoutKeepsRunAfter(l: seq<string>, d: string, run: seq<string>, x: string)
    requires x != d && x !in run && RunAfter(l, d, run)
    ensures RunAfter(Without(l, x), d, run)
  {
    var j := IndexOf(l, x);
    if j != -1 {
      RemoveKeepsRunAfter(l, d, run, j);
    }
  }

  lemma WithoutKeepsRunAtEnd(l: seq<string>, run: seq<string>, x: string)
    requires x !in run && RunAtEnd(l, run)
    ensures RunAtEnd(Without(l, x), run)
  {
    var j := IndexOf(l, x);
    if j != -1 {
      SliceHas(l, |l| - |run|, |l|, j);
      assert l[|l| - |run|..|l|] == l[|l| - |run|..];
      RemoveKeepsRunAtEnd(l, run, j);
    }
  }

  lemma RemoveKeepsRunAtEnd(l: seq<string>, run: seq<string>, j: nat)
    requires RunAtEnd(l, run) && j < |l| - |run|
    ensures RunAtEnd(RemoveAt(l, j), run)
  {
    RemovedSliceLeft(l, j, |l| - |run| - 1, |l| - 1);
    var m := RemoveAt(l, j);
    assert m[|m| - |run|..] == m[|l| - |run| - 1..|l| - 1];
  }

  lemma PlaceExtendsRunBefore(l: seq<string>, d: string, run: seq<string>, x: string)
    requires x != d && RunBefore(l, d, run)
    ensures RunBefore(PlaceIn(l, x, d, BeforeBegin), d, run + [x])
  {
    RunBeforeGrows(l, PlaceIn(l, x, d, BeforeBegin), d, run, x, IndexOf(l, d));
  }

  lemma PlaceExtendsRunAfter(l: seq<string>, d: string, run: seq<string>, x: string)
    requires x != d && RunAfter(l, d, run)
    ensures RunAfter(PlaceIn(l, x, d, AfterEnd), d, [x] + run)
  {
    RunAfterGrows(l, PlaceIn(l, x, d, AfterEnd), d, run, x, IndexOf(l, d));
  }

  /** `m` is `l` with `x` inserted at position `k`. */
  predicate InsertedAt(l: seq<string>, m: seq<string>, k: nat, x: string)
  {
    k <= |l| && |m| == |l| + 1 && m[k] == x && m[..k] == l[..k] && m[k + 1..] == l[k..]
  }

  lemma RunBeforeGrows(l: seq<string>, m: seq<string>, d: string, run: seq<string>, x: string, k: nat)
    requires InsertedAt(l, m, k, x) && k == IndexOf(l, d) && x != d && RunBefore(l, d, run)
    ensures RunBefore(m, d, run + [x])
  {
    IndexShiftRight(l, m, d, x, k);
    InsertedAfterRun(l, m, run, x, k);
  }

  lemma IndexShiftRight(l: seq<string>, m: seq<string>, d: string, x: string, k: nat)
    requires InsertedAt(l, m, k, x) && k == IndexOf(l, d) && x != d
    ensures IndexOf(m, d) == k + 1
  {
    assert m[k + 1] == m[k + 1..][0];
    assert m[..k + 1] == m[..k] + [x];
    IndexOfFirst(m, k + 1, d);
  }

  lemma InsertedAfterRun(l: seq<string>, m: seq<string>, run: seq<string>, x: string, k: nat)
    requires InsertedAt(l, m, k, x) && |run| <= k && l[k - |run|..k] == run
    ensures m[k - |run|..k + 1] == run + [x]
  {
    var n := |run|;
    PrefixSlice(m, k, k - n, k);
    PrefixSlice(l, k, k - n, k);
    assert m[k - n..k + 1] == m[k - n..k] + [x];
  }

  lemma RunAfterGrows(l: seq<string>, m: seq<string>, d: string, run: seq<string>, x: string, k: nat)
    requires InsertedAt(l, m, k + 1, x) && k == IndexOf(l, d) && x != d && RunAfter(l, d, run)
    ensures RunAfter(m, d, [x] + run)
  {
    IndexKeptByInsertRight(l, m, d, x, k);
    InsertedBeforeRun(l, m, run, x, k + 1);
  }

  lemma IndexKeptByInsertRight(l: seq<string>, m: seq<string>, d: string, x: string, k: nat)
    requires InsertedAt(l, m, k + 1, x) && k == IndexOf(l, d)
    ensures IndexOf(m, d) == k
  {
    assert m[..k] == l[..k] by {
      assert m[..k] == m[..k + 1][..k];
      assert l[..k] == l[..k + 1][..k];
    }
    assert m[k] == m[..k + 1][k];
    IndexOfFirst(m, k, d);
  }

  lemma InsertedBeforeRun(l: seq<string>, m: seq<string>, run: seq<string>, x: string, s: nat)
    requires InsertedAt(l, m, s, x) && s + |run| <= |l| && l[s..s + |run|] == run
    ensures m[s..s + 1 + |run|] == [x] + run
  {
    var n := |run|;
    SuffixSlice(m, s + 1, 0, n, s + 1, s + 1 + n);
    SuffixSlice(l, s, 0, n, s, s + n);
    assert m[s..s + 1 + n] == [x] + m[s + 1..s + 1 + n];
  }

  /** The children list of the landing folder after a move. */
  lemma MoveKids(t: Proj, x: string, dest: string, pos: Position)
    requires WF(t) && x != dest && CanPlace(t, dest, pos)
    ensures var p := NewParent(t, dest, pos);
      && p in t.kids && Distinct(t.kids[p])
      && Move(t, x, dest, pos).kids[p] == PlaceIn(Without(t.kids[p], x), x, dest, pos)
      && (pos != BeforeEnd ==> dest in t.kids[p])
  {
    var p := NewParent(t, dest, pos);
    assert x in t.kids[p] ==> x in t.parent && t.parent[x] == p;
    DetachKids(t, x, p);
    MoveAfterDetach(t, x, dest, pos);
  }

  /** A move leaves every other children list alone: neither the old nor the new parent's. */
  lemma MoveOtherKids(t: Proj, x: string, dest: string, pos: Position, q: string)
    requires x != dest && CanPlace(t, dest, pos) && q in t.kids && q != NewParent(t, dest, pos)
    requires !(x in t.parent && t.parent[x] == q)
    ensures Move(t, x, dest, pos).kids[q] == t.kids[q]
  {
    var d := Detach(t, x);
    assert d.kids[q] == t.kids[q];
    assert NewParent(d, dest, pos) == NewParent(t, dest, pos);
  }

  /** `remove` takes `x` out of the one list it is in, and out of no other. */
  lemma DetachKids(t: Proj, x: string, p: string)
    requires p in t.kids && (x in t.kids[p] ==> x in t.parent && t.parent[x] == p)
    ensures Detach(t, x).kids[p] == Without(t.kids[p], x)
  {
  }

  /** A move places into the detached tree, at the same landing folder. */
  lemma MoveAfterDetach(t: Proj, x: string, dest: string, pos: Position)
    requires x != dest && CanPlace(t, dest, pos)
    ensures var p := NewParent(t, dest, pos);
      Move(t, x, dest, pos).kids[p] == PlaceIn(Detach(t, x).kids[p], x, dest, pos)
  {
    assert NewParent(Detach(t, x), dest, pos) == NewParent(t, dest, pos);
  }

  /** The run of moved elements an insertion at `pos` keeps beside `dest`. */
  predicate RunAt(l: seq<string>, dest: string, pos: Position, run: seq<string>)
  {
    match pos
    case BeforeBegin => RunBefore(l, dest, run)
    case AfterEnd => RunAfter(l, dest, run)
    case BeforeEnd => RunAtEnd(l, run)
  }

  /** The run after one more element `x` lands at `pos`. */
  function Grown(run: seq<string>, x: string, pos: Position): seq<string>
  {
    if pos == AfterEnd then [x] + run else run + [x]
  }

  /** Taking `x` out of a list and placing it at `pos` beside `dest` grows the run. */
  lemma ReplaceExtendsRun(l: seq<string>, x: string, dest: string, pos: Position, run: seq<string>)
    requires x != dest && x !in run && RunAt(l, dest, pos, run)
    ensures RunAt(PlaceIn(Without(l, x), x, dest, pos), dest, pos, Grown(run, x, pos))
  {
    var w := Without(l, x);
    match pos
    case BeforeBegin =>
      WithoutKeepsRunBefore(l, dest, run, x);
      PlaceExtendsRunBefore(w, dest, run, x);
    case AfterEnd =>
      WithoutKeepsRunAfter(l, dest, run, x);
      PlaceExtendsRunAfter(w, dest, run, x);
    case BeforeEnd =>
      WithoutKeepsRunAtEnd(l, run, x);
      AppendExtendsRunAtEnd(w, run, x);
  }

  lemma AppendExtendsRunAtEnd(l: seq<string>, run: seq<string>, x: string)
    requires RunAtEnd(l, run)
    ensures RunAtEnd(l + [x], run + [x])
  {
    assert (l + [x])[|l + [x]| - |run + [x]|..] == l[|l| - |run|..] + [x];
  }

  /**
   * One more element moved beside `dest` extends the run of moved elements:
   * at its end for `beforebegin` and `beforeend`, at its start for `afterend`.
   */
  lemma MoveExtendsRun(t: Proj, x: string, dest: string, pos: Position, run: seq<string>)
    requires WF(t) && x != dest && CanPlace(t, dest, pos) && x !in run
    requires RunAt(t.kids[NewParent(t, dest, pos)], dest, pos, run)
    ensures RunAt(Move(t, x, dest, pos).kids[NewParent(t, dest, pos)], dest, pos, Grown(run, x, pos))
  {
    MoveKids(t, x, dest, pos);
    ReplaceExtendsRun(t.kids[NewParent(t, dest, pos)], x, dest, pos, run);
  }

  // ---------------------------------------------------------------------------
  // The two projections
  // ---------------------------------------------------------------------------

  /**
   * The folders pane mirrors the leafs pane: every element it shows has the
   * same parent there; it shows every folder; it shows a bookmark exactly when
   * the bookmark sits directly under the root; every folder element is in both.
   */
  ghost predicate Mirrors(leafs: Proj, folders: Proj, leaves: set<string>)
  {
    && (forall y :: y in folders.parent ==> y in leafs.parent && folders.parent[y] == leafs.parent[y])
    && (forall y :: y in leafs.parent && y !in leaves ==> y in folders.parent)
    && (forall y :: y in leafs.parent && y in leaves ==> (y in folders.parent <==> leafs.parent[y] == Root))
    && (forall f :: f in leafs.kids ==> f in folders.kids)
  }

  ghost predicate Consistent(leafs: Proj, folders: Proj, leaves: set<string>)
  {
    WF(leafs) && WF(folders) && Mirrors(leafs, folders, leaves)
  }

  /** `isRootTo`: the drop lands directly under the root, beside `dest`. */
  function IsRootTo(leafs: Proj, dest: string, pos: Position): bool
  {
    pos != BeforeEnd && dest in leafs.parent && leafs.parent[dest] == Root
  }

  /**
   * What one source's reconciliation leaves in the two panes: a root bookmark
   * moved away from the root loses its folders copy; a bookmark moved under
   * the root gets one (its own, or a clone); a folder moves in both panes; the
   * leafs pane element always moves.
   */
  function Reconciled(leafs: Proj, folders: Proj, leaves: set<string>, src: string, dest: string,
                      pos: Position, isRootTo: bool): (r: (Proj, Proj))
    requires src in leafs.parent && src != dest && CanPlace(leafs, dest, pos)
    requires isRootTo ==> CanPlace(folders, dest, pos)
    requires src !in leaves ==> CanPlace(folders, dest, pos)
  {
    var isLeafFrom := src in leaves;
    var isRootFrom := leafs.parent[src] == Root;
    var folders' :=
      if isLeafFrom && isRootFrom && !isRootTo then Detach(folders, src)
      else if isLeafFrom && isRootTo then
        (if isRootFrom then Move(folders, src, dest, pos) else Place(folders, src, dest, pos))
      else if !isLeafFrom then Move(folders, src, dest, pos)
      else folders;
    (Move(leafs, src, dest, pos), folders')
  }

  /** A drop beside an element under the root can use that element's folders copy. */
  lemma RootToPlaceable(leafs: Proj, folders: Proj, leaves: set<string>, dest: string, pos: Position)
    requires WF(folders) && Mirrors(leafs, folders, leaves)
    requires IsRootTo(leafs, dest, pos)
    ensures CanPlace(folders, dest, pos) && NewParent(folders, dest, pos) == Root
  {
  }

  /** The parent maps after one source's reconciliation. */
  lemma ReconciledParents(leafs: Proj, folders: Proj, leaves: set<string>, src: string,
                          dest: string, pos: Position)
    requires WF(folders) && Mirrors(leafs, folders, leaves)
    requires src in leafs.parent && src != dest && CanPlace(leafs, dest, pos)
    requires src !in leaves ==> CanPlace(folders, dest, pos)
    requires IsRootTo(leafs, dest, pos) ==> CanPlace(folders, dest, pos)
    requires !(pos == BeforeEnd && dest == Root)
    ensures var p := NewParent(leafs, dest, pos);
      var r := Reconciled(leafs, folders, leaves, src, dest, pos, IsRootTo(leafs, dest, pos));
      && r.0.parent == leafs.parent[src := p]
      && r.0.kids.Keys == leafs.kids.Keys
      && r.1.kids.Keys == folders.kids.Keys
      && (src in leaves && p == Root ==> r.1.parent == folders.parent[src := p])
      && (src in leaves && p != Root ==> r.1.parent == folders.parent - {src})
      && (src !in leaves ==> r.1.parent == folders.parent[src := p])
  {
    var isRootTo := IsRootTo(leafs, dest, pos);
    var p := NewParent(leafs, dest, pos);
    MoveParent(leafs, src, dest, pos);
    if CanPlace(folders, dest, pos) {
      MirroredNewParent(leafs, folders, leaves, dest, pos);
    }
    var isLeafFrom := src in leaves;
    var isRootFrom := leafs.parent[src] == Root;
    if isLeafFrom && isRootFrom && !isRootTo {
      DetachFrame(folders, src);
    } else if isLeafFrom && isRootTo {
      if isRootFrom {
        MoveParent(folders, src, dest, pos);
      } else {
        PlaceParent(folders, src, dest, pos);
      }
    } else if !isLeafFrom {
      MoveParent(folders, src, dest, pos);
    } else {
      assert src !in folders.parent;
      RemoveAbsent(folders.parent, src);
    }
  }

  lemma RemoveAbsent(m: map<string, string>, k: string)
    requires k !in m
    ensures m - {k} == m
  {
  }

  /** Both panes agree on the folder a drop lands in. */
  lemma MirroredNewParent(leafs: Proj, folders: Proj, leaves: set<string>, dest: string, pos: Position)
    requires Mirrors(leafs, folders, leaves) && CanPlace(folders, dest, pos)
    ensures NewParent(folders, dest, pos) == NewParent(leafs, dest, pos)
  {
  }

  /** The mirror relation, from the parent maps alone. */
  lemma MirrorsAfter(leafs: Proj, folders: Proj, leafs': Proj, folders': Proj, leaves: set<string>,
                     src: string, p: string)
    requires Mirrors(leafs, folders, leaves) && src in leafs.parent
    requires leafs'.parent == leafs.parent[src := p]
    requires leafs'.kids.Keys == leafs.kids.Keys && folders'.kids.Keys == folders.kids.Keys
    requires src in leaves && p == Root ==> folders'.parent == folders.parent[src := p]
    requires src in leaves && p != Root ==> folders'.parent == folders.parent - {src}
    requires src !in leaves ==> folders'.parent == folders.parent[src := p]
    ensures Mirrors(leafs', folders', leaves)
  {
  }

  /** The mirror relation survives a move. */
  lemma ReconciledMirrors(leafs: Proj, folders: Proj, leaves: set<string>, src: string,
                          dest: string, pos: Position)
    requires WF(folders) && Mirrors(leafs, folders, leaves)
    requires src in leafs.parent && src != dest && CanPlace(leafs, dest, pos)
    requires src !in leaves ==> CanPlace(folders, dest, pos)
    requires !(pos == BeforeEnd && dest == Root)
    ensures IsRootTo(leafs, dest, pos) ==> CanPlace(folders, dest, pos)
    ensures var r := Reconciled(leafs, folders, leaves, src, dest, pos, IsRootTo(leafs, dest, pos));
      Mirrors(r.0, r.1, leaves)
  {
    if IsRootTo(leafs, dest, pos) {
      RootToPlaceable(leafs, folders, leaves, dest, pos);
    }
    ReconciledParents(leafs, folders, leaves, src, dest, pos);
    var r := Reconciled(leafs, folders, leaves, src, dest, pos, IsRootTo(leafs, dest, pos));
    MirrorsAfter(leafs, folders, r.0, r.1, leaves, src, NewParent(leafs, dest, pos));
  }

  /** Both projections stay well formed. */
  lemma ReconciledWF(leafs: Proj, folders: Proj, leaves: set<string>, src: string,
                     dest: string, pos: Position)
    requires Consistent(leafs, folders, leaves)
    requires src in leafs.parent && src != dest && CanPlace(leafs, dest, pos)
    requires src !in leaves ==> CanPlace(folders, dest, pos)
    requires IsRootTo(leafs, dest, pos) ==> CanPlace(folders, dest, pos)
    ensures var r := Reconciled(leafs, folders, leaves, src, dest, pos, IsRootTo(leafs, dest, pos));
      WF(r.0) && WF(r.1)
  {
    var isRootTo := IsRootTo(leafs, dest, pos);
    MoveSpec(leafs, src, dest, pos);
    var isLeafFrom := src in leaves;
    var isRootFrom := leafs.parent[src] == Root;
    if isLeafFrom && isRootFrom && !isRootTo {
      DetachSpec(folders, src);
    } else if isLeafFrom && isRootTo {
      if isRootFrom {
        MoveSpec(folders, src, dest, pos);
      } else {
        assert src !in folders.parent;
        PlaceSpec(folders, src, dest, pos);
      }
    } else if !isLeafFrom {
      MoveSpec(folders, src, dest, pos);
    }
  }

  /**
   * After a move the panes are still consistent: in particular a bookmark has
   * a copy in the folders pane exactly when its new parent is the root.
   * (A `beforeend` drop on the root element itself is not covered.)
   */
  lemma ReconciledConsistent(leafs: Proj, folders: Proj, leaves: set<string>, src: string,
                             dest: string, pos: Position)
    requires Consistent(leafs, folders, leaves)
    requires src in leafs.parent && src != dest && CanPlace(leafs, dest, pos)
    requires src !in leaves ==> CanPlace(folders, dest, pos)
    requires !(pos == BeforeEnd && dest == Root)
    ensures IsRootTo(leafs, dest, pos) ==> CanPlace(folders, dest, pos)
    ensures var r := Reconciled(leafs, folders, leaves, src, dest, pos, IsRootTo(leafs, dest, pos));
      && Consistent(r.0, r.1, leaves)
      && r.0.parent == leafs.parent[src := NewParent(leafs, dest, pos)]
      && (src in leaves ==> (src in r.1.parent <==> NewParent(leafs, dest, pos) == Root))
  {
    ReconciledMirrors(leafs, folders, leaves, src, dest, pos);
    ReconciledParents(leafs, folders, leaves, src, dest, pos);
    ReconciledWF(leafs, folders, leaves, src, dest, pos);
  }

  /** What a move leaves alone: the folder keys, and other elements' folders-pane parents. */
  lemma MinusAfterUpdate(m: map<string, string>, m': map<string, string>, k: string, v: string)
    requires m' == m[k := v] || m' == m - {k}
    ensures m' - {k} == m - {k}
  {
    if m' == m[k := v] {
      assert m[k := v] - {k} == m - {k};
    } else {
      assert m - {k} - {k} == m - {k};
    }
  }

  lemma ReconciledFrame(leafs: Proj, folders: Proj, leaves: set<string>, src: string,
                        dest: string, pos: Position)
    requires WF(folders) && Mirrors(leafs, folders, leaves)
    requires src in leafs.parent && src != dest && CanPlace(leafs, dest, pos)
    requires src !in leaves ==> CanPlace(folders, dest, pos)
    requires !(pos == BeforeEnd && dest == Root)
    ensures IsRootTo(leafs, dest, pos) ==> CanPlace(folders, dest, pos)
    ensures var r := Reconciled(leafs, folders, leaves, src, dest, pos, IsRootTo(leafs, dest, pos));
      && r.0.kids.Keys == leafs.kids.Keys && r.1.kids.Keys == folders.kids.Keys
      && r.1.parent - {src} == folders.parent - {src}
  {
    if IsRootTo(leafs, dest, pos) {
      RootToPlaceable(leafs, folders, leaves, dest, pos);
    }
    ReconciledParents(leafs, folders, leaves, src, dest, pos);
    var p := NewParent(leafs, dest, pos);
    var f := Reconciled(leafs, folders, leaves, src, dest, pos, IsRootTo(leafs, dest, pos)).1;
    MinusAfterUpdate(folders.parent, f.parent, src, p);
  }

  /**
   * A move of `src` leaves the drop target where it was: the same folder
   * receives the next source, at the same kind of place.
   */
  lemma PlaceFrame(t: Proj, t': Proj, src: string, dest: string, pos: Position)
    requires t'.kids.Keys == t.kids.Keys && t'.parent - {src} == t.parent - {src} && src != dest
    ensures CanPlace(t', dest, pos) == CanPlace(t, dest, pos)
    ensures CanPlace(t, dest, pos) ==> NewParent(t', dest, pos) == NewParent(t, dest, pos)
    ensures IsRootTo(t', dest, pos) == IsRootTo(t, dest, pos)
  {
    assert dest in t'.parent <==> dest in t'.parent - {src};
    assert dest in t.parent <==> dest in t.parent - {src};
    if dest in t.parent && dest in t'.parent {
      assert t'.parent[dest] == (t'.parent - {src})[dest];
      assert t.parent[dest] == (t.parent - {src})[dest];
    }
  }

  /** Before any source has moved, the empty run sits beside `dest`. */
  lemma RunStart(t: Proj, dest: string, pos: Position)
    requires WF(t) && CanPlace(t, dest, pos)
    ensures NewParent(t, dest, pos) in t.kids
    ensures RunAt(t.kids[NewParent(t, dest, pos)], dest, pos, [])
  {
  }

  /** Both panes of the popup, updated in place by a bookmark move. */
  class Panes {
    var leafs: Proj
    var folders: Proj
    /** The ids rendered with class `leaf` (bookmarks, as opposed to folders). */
    const leaves: set<string>

    ghost predicate Valid()
      reads this
    {
      Consistent(leafs, folders, leaves)
    }

    constructor(leafs: Proj, folders: Proj, leaves: set<string>)
      requires Consistent(leafs, folders, leaves)
      ensures Valid()
      ensures this.leafs == leafs && this.folders == folders && this.leaves == leaves
    {
      this.leafs := leafs;
      this.folders := folders;
      this.leaves := leaves;
    }

    /**
     * The per-source reconciliation after `chrome.bookmarks.move`: the folders
     * pane first, then the leafs pane element is moved beside `dest`.
     * A folder source needs `dest` in the folders pane (the source reads that
     * element unconditionally).
     */
    method Reconcile(src: string, dest: string, pos: Position, isRootTo: bool)
      modifies this
      requires Valid()
      requires src in leafs.parent && src != dest && CanPlace(leafs, dest, pos)
      requires src !in leaves ==> CanPlace(folders, dest, pos)
      requires isRootTo == IsRootTo(leafs, dest, pos)
      requires !(pos == BeforeEnd && dest == Root)
      ensures (leafs, folders) == Reconciled(old(leafs), old(folders), leaves, src, dest, pos, isRootTo)
      ensures leafs.parent == old(leafs.parent)[src := NewParent(old(leafs), dest, pos)]
      ensures leafs.kids.Keys == old(leafs.kids.Keys) && folders.kids.Keys == old(folders.kids.Keys)
      ensures folders.parent - {src} == old(folders.parent) - {src}
      ensures Valid()
    {
      ReconciledConsistent(leafs, folders, leaves, src, dest, pos);
      ReconciledFrame(leafs, folders, leaves, src, dest, pos);
      var isLeafFrom := src in leaves;
      var isRootFrom := leafs.parent[src] == Root;
      if isLeafFrom && isRootFrom && !isRootTo {
        folders := Detach(folders, src);
      } else if isLeafFrom && isRootTo {
        if isRootFrom {
          folders := Move(folders, src, dest, pos);
        } else {
          folders := Place(folders, src, dest, pos);
        }
      } else if !isLeafFrom {
        folders := Move(folders, src, dest, pos);
      }
      leafs := Move(leafs, src, dest, pos);
    }
  }
}
