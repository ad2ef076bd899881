/**
 * Pure helpers and in-place list handling of the popup client
 * (src/client.ts): the pane resize clamps, the search for a previous sibling,
 * bookmarking several tabs at once, the index default of `addBookmark`, the
 * saved pane layouts, and `moveBookmarks` over the two bookmark projections.
 */
module Client {
  import opened Wrappers
  import opened Types
  import opened Seqs
  import opened Projections

  // ---------------------------------------------------------------------------
  // Resizing (`resizeSplitHandler`, `resizeHeightHandler`)
  // ---------------------------------------------------------------------------

  /**
   * The new width of a pane while its splitter is dragged: the pointer's
   * offset into the pane, but at least 220 for the tabs pane and 100 for the
   * others; `None` (nothing changes) when the panes would no longer fit into
   * the body.
   */
  function ResizeSplit(clientX: int, adjustMouseX: int, offsetLeft: int, isTabs: bool,
                       bodyWidth: int, subWidth: int, endPaneMinWidth: int): (r: Option<int>)
    ensures var minWidth := if isTabs then 220 else 100;
      var x := clientX - adjustMouseX - offsetLeft;
      var w := if x >= minWidth then x else minWidth;
      && (r.None? <==> bodyWidth < w + subWidth + endPaneMinWidth)
      && (r.Some? ==> (r.value >= x && r.value >= minWidth && (r.value == x || r.value == minWidth)
           && r.value + subWidth + endPaneMinWidth <= bodyWidth))
  {
    var minWidth := if isTabs then 220 else 100;
    var width := Max(clientX - adjustMouseX - offsetLeft, minWidth);
    if bodyWidth < width + subWidth + endPaneMinWidth then None else Some(width)
  }

  /** `Math.max` */
  function Max(a: int, b: int): (m: int)
    ensures m >= a && m >= b && (m == a || m == b)
  {
    if a >= b then a else b
  }

  /** `Math.min` */
  function Min(a: int, b: int): (m: int)
    ensures m <= a && m <= b && (m == a || m == b)
  {
    if a <= b then a else b
  }

  /**
   * The new body height while the bottom edge is dragged: six pixels above
   * the pointer, at most `maxHeight`; `None` below 200.
   */
  function ResizeHeight(clientY: int, maxHeight: int): (r: Option<int>)
    ensures r.None? <==> Min(clientY - 6, maxHeight) < 200
    ensures r.Some? ==> (200 <= r.value && r.value <= clientY - 6 && r.value <= maxHeight
      && (r.value == clientY - 6 || r.value == maxHeight))
  {
    var height := Min(clientY - 6, maxHeight);
    if height < 200 then None else Some(height)
  }

  // ---------------------------------------------------------------------------
  // `getPrevTarget`
  // ---------------------------------------------------------------------------

  /** `hasClass(el, ...classNames)`: the element has at least one of the classes. */
  predicate HasAny(el: set<string>, classNames: set<string>)
  {
    exists c :: c in classNames && c in el
  }

  /**
   * The nearest sibling before position `next` (siblings given by their class
   * lists) that has one of `classNames`, found by walking back one sibling at
   * a time.
   */
  function GetPrevTarget(siblings: seq<set<string>>, next: nat, classNames: set<string>): (r: Option<nat>)
    requires next <= |siblings|
    ensures r.Some? ==> (r.value < next && HasAny(siblings[r.value], classNames)
      && forall j :: r.value < j < next ==> !HasAny(siblings[j], classNames))
    ensures r.None? ==> forall j :: 0 <= j < next ==> !HasAny(siblings[j], classNames)
  {
    if next == 0 then None
    else if HasAny(siblings[next - 1], classNames) then Some(next - 1)
    else GetPrevTarget(siblings, next - 1, classNames)
  }

  // ---------------------------------------------------------------------------
  // `addBookmark`'s index and `addBookmarksFromTabs`
  // ---------------------------------------------------------------------------

  /** The index `addBookmark` passes on: the given one, else the top of the root, else none (append). */
  function AddBookmarkIndex(parentId: string, index: Option<int>): (r: Option<int>)
    ensures index.Some? ==> r == index
    ensures index.None? ==> (r.Some? <==> parentId == Root)
    ensures r.Some? && index.None? ==> r.value == 0
  {
    if index.Some? then index else if parentId == Root then Some(0) else None
  }

  /** What the host stores of a tab made into a bookmark. */
  datatype Tab = Tab(title: string, url: string)

  /** `chrome.bookmarks.create` in a folder: at `index` when given, else appended. */
  function Create(children: seq<Tab>, index: Option<int>, x: Tab): seq<Tab>
  {
    if index.Some? then InsertAt(children, index.value, x) else children + [x]
  }

  /** The folder's children after creating `xs`, one call after another, all with the same index. */
  function CreateAll(children: seq<Tab>, xs: seq<Tab>, index: Option<int>): (r: seq<Tab>)
    ensures |r| == |children| + |xs|
    decreases |xs|
  {
    if xs == [] then children else Create(CreateAll(children, xs[..|xs| - 1], index), index, xs[|xs| - 1])
  }

  /** One more call: the next tab is created in the folder the earlier calls left. */
  lemma CreateAllStep(children: seq<Tab>, xs: seq<Tab>, i: nat, index: Option<int>)
    requires i < |xs|
    ensures CreateAll(children, xs[..i + 1], index) == Create(CreateAll(children, xs[..i], index), index, xs[i])
  {
    var ys := xs[..i + 1];
    assert ys[..|ys| - 1] == xs[..i];
    assert ys[|ys| - 1] == xs[i];
  }

  /** Creating each tab at the same index stacks them there in reverse order. */
  lemma {:induction false} CreateAllAt(children: seq<Tab>, xs: seq<Tab>, k: nat)
    requires k <= |children|
    ensures CreateAll(children, xs, Some(k)) == children[..k] + Reversed(xs) + children[k..]
    decreases |xs|
  {
    if xs != [] {
      var ys := xs[..|xs| - 1];
      var x := xs[|xs| - 1];
      CreateAllAt(children, ys, k);
      assert xs == ys + [x];
      ReversedSnoc(ys, x);
      InsertAtSeam(children[..k], Reversed(ys), children[k..], x);
    }
  }

  /** Inserting where a prefix ends puts the element in front of what follows it. */
  lemma InsertAtSeam(front: seq<Tab>, mid: seq<Tab>, back: seq<Tab>, x: Tab)
    ensures InsertAt(front + mid + back, |front|, x) == front + ([x] + mid) + back
  {
    var c := front + mid + back;
    assert c[..|front|] == front;
    assert c[|front|..] == mid + back;
  }

  /** Creating without an index appends the tabs in order. */
  lemma {:induction false} CreateAllAppends(children: seq<Tab>, xs: seq<Tab>)
    ensures CreateAll(children, xs, None) == children + xs
    decreases |xs|
  {
    if xs != [] {
      CreateAllAppends(children, xs[..|xs| - 1]);
      assert xs[..|xs| - 1] + [xs[|xs| - 1]] == xs;
    }
  }

  /**
   * Bookmarks several tabs into one folder. With an index the list is first
   * reversed in place, then every tab is created at that same index, so the
   * tabs end up in their original order at the index. The editing callback is
   * handed over only for a single tab.
   */
  method AddBookmarksFromTabs(tabs: array<Tab>, parentId: Option<string>, index: Option<int>,
                              children: seq<Tab>)
    returns (parent: string, folder: seq<Tab>, editing: bool)
    modifies tabs
    ensures parent == (if parentId.Some? then parentId.value else Root)
    ensures editing <==> tabs.Length <= 1
    ensures tabs[..] == if index.Some? then Reversed(old(tabs[..])) else old(tabs[..])
    ensures folder == CreateAll(children, tabs[..], AddBookmarkIndex(parent, index))
  {
    parent := if parentId.Some? then parentId.value else Root;
    editing := !(tabs.Length > 1);
    if index.Some? {
      ReverseInPlace(tabs);
    }
    var k := AddBookmarkIndex(parent, index);
    ghost var ordered := tabs[..];
    folder := children;
    var i := 0;
    while i < tabs.Length
      invariant 0 <= i <= tabs.Length && tabs[..] == ordered
      invariant folder == CreateAll(children, tabs[..i], k)
    {
      CreateAllStep(children, tabs[..], i, k);
      folder := Create(folder, k, tabs[i]);
      i := i + 1;
    }
    assert tabs[..tabs.Length] == tabs[..];
  }

  /**
   * Where the tabs end up: in order at the given index; appended in order
   * under a non-root folder; and, with no index under the root, each at the
   * top, so in reverse order.
   */
  lemma AddBookmarksFromTabsOrder(tabs: seq<Tab>, parent: string, index: Option<int>, children: seq<Tab>)
    ensures index.Some? && 0 <= index.value <= |children| ==>
      CreateAll(children, Reversed(tabs), AddBookmarkIndex(parent, index))
        == children[..index.value] + tabs + children[index.value..]
    ensures index.None? && parent != Root ==>
      CreateAll(children, tabs, AddBookmarkIndex(parent, index)) == children + tabs
    ensures index.None? && parent == Root ==>
      CreateAll(children, tabs, AddBookmarkIndex(parent, index)) == Reversed(tabs) + children
  {
    if index.Some? && 0 <= index.value <= |children| {
      CreateReversedAt(children, tabs, index.value);
    }
    if index.None? && parent != Root {
      CreateAllAppends(children, tabs);
    }
    if index.None? && parent == Root {
      CreateAllAtTop(children, tabs);
    }
  }

  /** Creating the reversed list at one index puts the tabs there in their own order. */
  lemma CreateReversedAt(children: seq<Tab>, tabs: seq<Tab>, k: nat)
    requires k <= |children|
    ensures CreateAll(children, Reversed(tabs), Some(k)) == children[..k] + tabs + children[k..]
  {
    CreateAllAt(children, Reversed(tabs), k);
    ReversedTwice(tabs);
  }

  /** Creating each tab at the top puts the tabs in front, reversed. */
  lemma CreateAllAtTop(children: seq<Tab>, tabs: seq<Tab>)
    ensures CreateAll(children, tabs, Some(0)) == Reversed(tabs) + children
  {
    CreateAllAt(children, tabs, 0);
    SplitAtZero(children, Reversed(tabs), CreateAll(children, tabs, Some(0)));
  }

  lemma SplitAtZero(children: seq<Tab>, front: seq<Tab>, r: seq<Tab>)
    requires r == children[..0] + front + children[0..]
    ensures r == front + children
  {
    assert children[..0] == [] && children[0..] == children;
  }

  // ---------------------------------------------------------------------------
  // Saved pane layouts (`getNewPaneWidth`, `initSplitWidth`)
  // ---------------------------------------------------------------------------

  /** One pane of a saved layout. */
  datatype PaneWidth = PaneWidth(name: string, width: int)

  /** A saved layout is for the current pane order when its names match pane by pane. */
  predicate ForOrder(layout: seq<PaneWidth>, order: seq<string>)
  {
    |layout| == |order| && forall i :: 0 <= i < |order| ==> layout[i].name == order[i]
  }

  /** The layouts for other pane orders, in their saved order. */
  function OtherOrders(layouts: seq<seq<PaneWidth>>, order: seq<string>): (r: seq<seq<PaneWidth>>)
    ensures forall l :: l in r ==> l in layouts && !ForOrder(l, order)
    ensures forall l :: l in layouts && !ForOrder(l, order) ==> l in r
    decreases |layouts|
  {
    if layouts == [] then []
    else
      var rest := OtherOrders(layouts[..|layouts| - 1], order);
      var last := layouts[|layouts| - 1];
      if ForOrder(last, order) then rest else rest + [last]
  }

  /**
   * The layouts kept are exactly the saved ones for other orders: in their
   * saved order, each as often as it was saved.
   */
  lemma {:induction false} OtherOrdersSpec(layouts: seq<seq<PaneWidth>>, order: seq<string>)
    ensures Subseq(OtherOrders(layouts, order), layouts)
    ensures forall l ::
              multiset(OtherOrders(layouts, order))[l] == if ForOrder(l, order) then 0 else multiset(layouts)[l]
    decreases |layouts|
  {
    if layouts != [] {
      var init := layouts[..|layouts| - 1];
      var last := layouts[|layouts| - 1];
      assert layouts == init + [last];
      OtherOrdersSpec(init, order);
      assert multiset(layouts) == multiset(init) + multiset{last};
      var rest := OtherOrders(init, order);
      if ForOrder(last, order) {
        if rest != [] {
          assert Subseq(rest, layouts[..|layouts| - 1]);
        }
      } else {
        SubseqSnoc(rest, init, last);
      }
    }
  }

  /**
   * `getNewPaneWidth`: the saved layouts for the other pane orders, then the
   * current widths, last.
   */
  function GetNewPaneWidth(layouts: seq<seq<PaneWidth>>, order: seq<string>, widths: seq<int>)
    : (r: seq<seq<PaneWidth>>)
    requires |widths| == |order|
    ensures |r| > 0 && r[..|r| - 1] == OtherOrders(layouts, order)
    ensures ForOrder(r[|r| - 1], order) && forall i :: 0 <= i < |order| ==> r[|r| - 1][i].width == widths[i]
  {
    OtherOrders(layouts, order) + [seq(|order|, i requires 0 <= i < |order| => PaneWidth(order[i], widths[i]))]
  }

  /** No two saved layouts are for the same pane order. */
  predicate OnePerOrder(layouts: seq<seq<PaneWidth>>)
  {
    forall i, j :: 0 <= i < j < |layouts| ==> !SameOrder(layouts[i], layouts[j])
  }

  predicate SameOrder(a: seq<PaneWidth>, b: seq<PaneWidth>)
  {
    |a| == |b| && forall i :: 0 <= i < |a| ==> a[i].name == b[i].name
  }

  lemma {:induction false} OtherOrdersOnePerOrder(layouts: seq<seq<PaneWidth>>, order: seq<string>)
    requires OnePerOrder(layouts)
    ensures OnePerOrder(OtherOrders(layouts, order))
    decreases |layouts|
  {
    if layouts != [] {
      var init := layouts[..|layouts| - 1];
      var last := layouts[|layouts| - 1];
      OtherOrdersOnePerOrder(init, order);
      var rest := OtherOrders(init, order);
      if !ForOrder(last, order) {
        forall i | 0 <= i < |rest|
          ensures !SameOrder(rest[i], last)
        {
          assert rest[i] in init;
          var k :| 0 <= k < |init| && init[k] == rest[i];
          assert layouts[k] == rest[i];
        }
        var r := rest + [last];
        forall i, j | 0 <= i < j < |r|
          ensures !SameOrder(r[i], r[j])
        {
          if j < |rest| {
            assert r[i] == rest[i] && r[j] == rest[j];
          }
        }
      }
    }
  }

  /** Saving the current widths keeps one layout per pane order. */
  lemma GetNewPaneWidthOnePerOrder(layouts: seq<seq<PaneWidth>>, order: seq<string>, widths: seq<int>)
    requires |widths| == |order| && OnePerOrder(layouts)
    ensures OnePerOrder(GetNewPaneWidth(layouts, order, widths))
  {
    var r := GetNewPaneWidth(layouts, order, widths);
    var others := OtherOrders(layouts, order);
    OtherOrdersOnePerOrder(layouts, order);
    forall i, j | 0 <= i < j < |r|
      ensures !SameOrder(r[i], r[j])
    {
      if j == |r| - 1 {
        assert r[i] in others;
        assert !ForOrder(r[i], order);
      } else {
        assert r[i] == others[i] && r[j] == others[j];
      }
    }
  }

  /** `find` of the first layout for the current pane order. */
  function FindLayout(layouts: seq<seq<PaneWidth>>, order: seq<string>): (r: Option<seq<PaneWidth>>)
    ensures r.Some? ==> r.value in layouts && ForOrder(r.value, order)
    ensures r.None? ==> forall l :: l in layouts ==> !ForOrder(l, order)
    decreases |layouts|
  {
    if layouts == [] then None
    else if ForOrder(layouts[0], order) then Some(layouts[0])
    else FindLayout(layouts[1..], order)
  }

  /**
   * `initSplitWidth` with saved layouts: the first one for the current pane
   * order, else the first matching default (`None` when there is none, where
   * the source would fail).
   */
  function InitSplitWidth(layouts: seq<seq<PaneWidth>>, defaults: seq<seq<PaneWidth>>, order: seq<string>)
    : (r: Option<seq<PaneWidth>>)
    requires |layouts| > 0
    ensures r.Some? ==> ForOrder(r.value, order)
    ensures r.Some? && r.value !in layouts ==> r.value in defaults
  {
    match FindLayout(layouts, order)
    case Some(l) => Some(l)
    case None => FindLayout(defaults, order)
  }

  /** The widths saved by `getNewPaneWidth` are the ones `initSplitWidth` restores. */
  lemma {:induction false} SavedWidthsRestored(layouts: seq<seq<PaneWidth>>, defaults: seq<seq<PaneWidth>>,
                                               order: seq<string>, widths: seq<int>)
    requires |widths| == |order|
    ensures var saved := GetNewPaneWidth(layouts, order, widths);
      InitSplitWidth(saved, defaults, order) == Some(saved[|saved| - 1])
  {
    var saved := GetNewPaneWidth(layouts, order, widths);
    FindLast(saved, order);
  }

  lemma {:induction false} FindLast(s: seq<seq<PaneWidth>>, order: seq<string>)
    requires |s| > 0 && ForOrder(s[|s| - 1], order)
    requires forall l :: l in s[..|s| - 1] ==> !ForOrder(l, order)
    ensures FindLayout(s, order) == Some(s[|s| - 1])
    decreases |s|
  {
    if |s| > 1 {
      assert s[0] in s[..|s| - 1];
      assert s[1..][..|s| - 2] == s[..|s| - 1][1..];
      FindLast(s[1..], order);
    }
  }

  // ---------------------------------------------------------------------------
  // moveBookmarks: the panes after a bookmark drop
  // ---------------------------------------------------------------------------

  /** The order the moved ids end up in beside the target, given the loop order. */
  function RunOf(ids: seq<string>, pos: Position): (r: seq<string>)
    ensures |r| == |ids|
  {
    if pos == AfterEnd then Reversed(ids) else ids
  }

  lemma RunOfSnoc(ids: seq<string>, x: string, pos: Position)
    ensures RunOf(ids + [x], pos) == Grown(RunOf(ids, pos), x, pos)
  {
    if pos == AfterEnd {
      ReversedSnoc(ids, x);
    }
  }

  /** The ids of a list, as a set. */
  function Elems(s: seq<string>): set<string>
  {
    set y | y in s
  }

  /** The parent map with every id of `moved` put under `p`. */
  function Relocated(parent: map<string, string>, moved: set<string>, p: string): (r: map<string, string>)
    ensures r.Keys == parent.Keys
    ensures forall y :: y in r ==> r[y] == if y in moved then p else parent[y]
  {
    map y | y in parent :: if y in moved then p else parent[y]
  }

  /**
   * The popup's side of `moveBookmarks`, once the browser has moved the
   * bookmarks: nothing happens without a target element; otherwise the ids
   * are reversed in place for an `afterend` drop and each source is moved in
   * both panes beside `dest` (or into it, for `beforeend`). The sources end
   * up next to each other in the order they were dragged.
   */
  method MoveBookmarks(panes: Panes, area: DropArea, sourceIds: array<string>, dest: string)
    modifies panes, sourceIds
    requires area in {DropTop, DropBottom, DropFolder, Leafs}
    requires panes.Valid() && Distinct(sourceIds[..])
    requires forall s :: s in sourceIds[..] ==> s in panes.leafs.parent && s != dest
    requires forall s :: s in sourceIds[..] && s !in panes.leaves ==> CanPlace(panes.folders, dest, PositionOf(area))
    requires !(PositionOf(area) == BeforeEnd && dest == Root)
    ensures panes.Valid()
    ensures !CanPlace(old(panes.leafs), dest, PositionOf(area)) ==>
      panes.leafs == old(panes.leafs) && panes.folders == old(panes.folders) && sourceIds[..] == old(sourceIds[..])
    ensures CanPlace(old(panes.leafs), dest, PositionOf(area)) ==>
      var pos := PositionOf(area);
      var p := NewParent(old(panes.leafs), dest, pos);
      && sourceIds[..] == RunOf(old(sourceIds[..]), pos)
      && panes.leafs.parent == Relocated(old(panes.leafs.parent), Elems(old(sourceIds[..])), p)
      && p in panes.leafs.kids
      && RunAt(panes.leafs.kids[p], dest, pos, old(sourceIds[..]))
  {
    var pos := PositionOf(area);
    if !CanPlace(panes.leafs, dest, pos) {
      return;
    }
    var isRootTo := IsRootTo(panes.leafs, dest, pos);
    ghost var ids := sourceIds[..];
    if pos == AfterEnd {
      ReverseInPlace(sourceIds);
      ReversedMultiset(ids);
      ReversedDistinct(ids);
    }
    assert multiset(sourceIds[..]) == multiset(ids);
    SameElems(sourceIds[..], ids);
    ReconcileAll(panes, sourceIds[..], dest, pos, isRootTo);
    if pos == AfterEnd {
      ReversedTwice(ids);
    }
  }

  /**
   * Where the `forEach` stands after the ids in `moved` have been reconciled:
   * both panes keep their folders, exactly those ids have the new parent `p`,
   * the destination can still be placed beside, and the moved ids form `run`
   * beside it.
   */
  ghost predicate Placing(leafs: Proj, folders: Proj, leafs0: Proj, folders0: Proj, dest: string,
                          pos: Position, isRootTo: bool, p: string, run: seq<string>, moved: set<string>)
  {
    && leafs.kids.Keys == leafs0.kids.Keys && folders.kids.Keys == folders0.kids.Keys
    && leafs.parent == Relocated(leafs0.parent, moved, p)
    && CanPlace(leafs, dest, pos) && NewParent(leafs, dest, pos) == p
    && isRootTo == IsRootTo(leafs, dest, pos)
    && (CanPlace(folders0, dest, pos) ==> CanPlace(folders, dest, pos))
    && p in leafs.kids && RunAt(leafs.kids[p], dest, pos, run)
  }

  /** The `forEach` over the ids ids: each one is reconciled in turn. */
  method ReconcileAll(panes: Panes, ids: seq<string>, dest: string, pos: Position, isRootTo: bool)
    modifies panes
    requires panes.Valid() && Distinct(ids)
    requires forall s :: s in ids ==> s in panes.leafs.parent && s != dest
    requires forall s :: s in ids && s !in panes.leaves ==> CanPlace(panes.folders, dest, pos)
    requires !(pos == BeforeEnd && dest == Root)
    requires CanPlace(panes.leafs, dest, pos) && isRootTo == IsRootTo(panes.leafs, dest, pos)
    ensures panes.Valid()
    ensures var p := NewParent(old(panes.leafs), dest, pos);
      && panes.leafs.parent == Relocated(old(panes.leafs.parent), Elems(ids), p)
      && p in panes.leafs.kids
      && RunAt(panes.leafs.kids[p], dest, pos, RunOf(ids, pos))
  {
    ghost var leafs0 := panes.leafs;
    ghost var folders0 := panes.folders;
    ghost var p := NewParent(panes.leafs, dest, pos);
    PlacingStart(leafs0, folders0, dest, pos, isRootTo, ids);
    var i := 0;
    while i < |ids|
      invariant 0 <= i <= |ids|
      invariant panes.Valid()
      invariant Placing(panes.leafs, panes.folders, leafs0, folders0, dest, pos, isRootTo, p,
                        RunOf(ids[..i], pos), Elems(ids[..i]))
    {
      ReconcileAt(panes, ids, i, dest, pos, isRootTo, p, leafs0, folders0);
      i := i + 1;
    }
    PlacingDone(panes.leafs, panes.folders, leafs0, folders0, dest, pos, isRootTo, p, ids);
  }

  /** Before the first callback nothing has moved and the run is empty. */
  lemma PlacingStart(leafs: Proj, folders: Proj, dest: string, pos: Position, isRootTo: bool, ids: seq<string>)
    requires WF(leafs) && CanPlace(leafs, dest, pos) && isRootTo == IsRootTo(leafs, dest, pos)
    ensures Placing(leafs, folders, leafs, folders, dest, pos, isRootTo, NewParent(leafs, dest, pos),
                    RunOf(ids[..0], pos), Elems(ids[..0]))
  {
    RunStart(leafs, dest, pos);
    assert ids[..0] == [] && Elems(ids[..0]) == {};
    assert Relocated(leafs.parent, {}, NewParent(leafs, dest, pos)) == leafs.parent;
  }

  /** After the last callback every id has moved and the run holds them all. */
  lemma PlacingDone(leafs: Proj, folders: Proj, leafs0: Proj, folders0: Proj, dest: string,
                    pos: Position, isRootTo: bool, p: string, ids: seq<string>)
    requires Placing(leafs, folders, leafs0, folders0, dest, pos, isRootTo, p,
                     RunOf(ids[..|ids|], pos), Elems(ids[..|ids|]))
    ensures leafs.parent == Relocated(leafs0.parent, Elems(ids), p)
    ensures p in leafs.kids && RunAt(leafs.kids[p], dest, pos, RunOf(ids, pos))
  {
    assert ids[..|ids|] == ids;
  }

  /** One turn of the `forEach`: the callback for the `i`-th id extends the run by it. */
  method ReconcileAt(panes: Panes, ids: seq<string>, i: nat, dest: string, pos: Position, isRootTo: bool,
                     ghost p: string, ghost leafs0: Proj, ghost folders0: Proj)
    modifies panes
    requires i < |ids| && Distinct(ids)
    requires forall s :: s in ids ==> s in leafs0.parent && s != dest
    requires forall s :: s in ids && s !in panes.leaves ==> CanPlace(folders0, dest, pos)
    requires !(pos == BeforeEnd && dest == Root)
    requires panes.Valid()
    requires Placing(panes.leafs, panes.folders, leafs0, folders0, dest, pos, isRootTo, p,
                     RunOf(ids[..i], pos), Elems(ids[..i]))
    ensures panes.Valid()
    ensures Placing(panes.leafs, panes.folders, leafs0, folders0, dest, pos, isRootTo, p,
                    RunOf(ids[..i + 1], pos), Elems(ids[..i + 1]))
  {
    var src := ids[i];
    assert src in ids;
    MoveStep(ids, i, pos);
    ReconcileNext(panes, src, dest, pos, isRootTo, p, RunOf(ids[..i], pos), leafs0, folders0, Elems(ids[..i]));
  }

  /**
   * The `forEach` callback for one id: reconcile it, and the run of ids
   * already moved beside `dest` grows by that id.
   */
  method ReconcileNext(panes: Panes, src: string, dest: string, pos: Position, isRootTo: bool,
                       ghost p: string, ghost run: seq<string>,
                       ghost leafs0: Proj, ghost folders0: Proj, ghost moved: set<string>)
    modifies panes
    requires panes.Valid() && src in leafs0.parent && src != dest && src !in run
    requires src !in panes.leaves ==> CanPlace(folders0, dest, pos)
    requires !(pos == BeforeEnd && dest == Root)
    requires Placing(panes.leafs, panes.folders, leafs0, folders0, dest, pos, isRootTo, p, run, moved)
    ensures panes.Valid()
    ensures panes.leafs.parent == old(panes.leafs.parent)[src := p]
    ensures Placing(panes.leafs, panes.folders, leafs0, folders0, dest, pos, isRootTo, p,
                    Grown(run, src, pos), moved + {src})
  {
    ghost var leafs1 := panes.leafs;
    ghost var folders1 := panes.folders;
    panes.Reconcile(src, dest, pos, isRootTo);
    MoveExtendsRun(leafs1, src, dest, pos, run);
    MinusAfterUpdate(leafs1.parent, panes.leafs.parent, src, p);
    PlaceFrame(leafs1, panes.leafs, src, dest, pos);
    PlaceFrame(folders1, panes.folders, src, dest, pos);
    RelocatedStep(leafs0.parent, moved, src, p);
  }

  /** The bookkeeping of one loop step of `MoveBookmarks`. */
  lemma MoveStep(s: seq<string>, i: nat, pos: Position)
    requires i < |s| && Distinct(s)
    ensures s[i] in s && s[i] !in RunOf(s[..i], pos) && s[i] !in Elems(s[..i])
    ensures Grown(RunOf(s[..i], pos), s[i], pos) == RunOf(s[..i + 1], pos)
    ensures Elems(s[..i]) + {s[i]} == Elems(s[..i + 1])
  {
    assert s[..i + 1] == s[..i] + [s[i]];
    RunOfSnoc(s[..i], s[i], pos);
    assert s[i] !in s[..i];
    if pos == AfterEnd {
      ReversedMultiset(s[..i]);
      assert s[i] !in multiset(s[..i]);
    }
  }

  /** Two lists with the same elements, counted, have the same elements. */
  lemma SameElems(a: seq<string>, b: seq<string>)
    requires multiset(a) == multiset(b)
    ensures forall y :: y in a <==> y in b
    ensures Elems(a) == Elems(b)
  {
    assert forall y :: y in a <==> y in multiset(b);
  }

  lemma RelocatedStep(parent: map<string, string>, moved: set<string>, x: string, p: string)
    requires x in parent
    ensures Relocated(parent, moved + {x}, p) == Relocated(parent, moved, p)[x := p]
  {
  }
}
