/**
 * The decision logic of drag-and-drop (src/drag-drop.ts): which drops are
 * allowed, the index handed to the host for tab and bookmark drops, and the
 * dispatch by source kind. The host's placement rules (`tabs.create`,
 * `tabs.move`) are modelled on plain sequences of tab ids.
 */
module DragDrop {
  import opened Wrappers
  import opened Types
  import opened Seqs
  import opened Projections

  // ---------------------------------------------------------------------------
  // `checkDroppable`
  // ---------------------------------------------------------------------------

  /**
   * A drop on `area` of the element `targetId`, whose previous and next
   * siblings are `prev` and `next`, while `sourceId` is being dragged.
   * `area` is `None` when the element under the pointer is no drop area.
   */
  function CheckDroppable(area: Option<DropArea>, sourceId: string, targetId: string,
                          prev: Option<string>, next: Option<string>): (ok: bool)
    ensures ok ==> area.Some? && targetId != sourceId
    ensures ok && area == Some(DropBottom) ==> next != Some(sourceId)
    ensures ok && area == Some(DropTop) ==> prev != Some(sourceId)
  {
    if area.None? then false
    else if targetId == sourceId then false
    else if area.value == DropBottom && next == Some(sourceId) then false
    else if area.value == DropTop && prev == Some(sourceId) then false
    else true
  }

  function PrevOf(l: seq<string>, t: nat): Option<string>
    requires t < |l|
  {
    if t == 0 then None else Some(l[t - 1])
  }

  function NextOf(l: seq<string>, t: nat): Option<string>
    requires t < |l|
  {
    if t + 1 < |l| then Some(l[t + 1]) else None
  }

  /**
   * The sibling order after the element at `s` is taken out and put back
   * directly before (or, with `after`, directly after) the element at `t`:
   * what `insertAdjacentElement` does with `beforebegin` / `afterend`.
   */
  function Beside<T>(l: seq<T>, s: nat, t: nat, after: bool): (r: seq<T>)
    requires s < |l| && t < |l| && s != t
    ensures |r| == |l|
  {
    InsertAt(RemoveAt(l, s), (if t > s then t - 1 else t) + (if after then 1 else 0), l[s])
  }

  /**
   * `Beside` puts the moved element next to the target, on the requested
   * side, and keeps the order of all the others.
   */
  lemma BesideSpec<T>(l: seq<T>, s: nat, t: nat, after: bool)
    requires s < |l| && t < |l| && s != t
    ensures var p := (if t > s then t - 1 else t) + (if after then 1 else 0);
      var r := Beside(l, s, t, after);
      && p < |r| && r[p] == l[s]
      && (after ==> p >= 1 && r[p - 1] == l[t])
      && (!after ==> p + 1 < |r| && r[p + 1] == l[t])
      && RemoveAt(r, p) == RemoveAt(l, s)
  {
    var p := (if t > s then t - 1 else t) + (if after then 1 else 0);
    var m := RemoveAt(l, s);
    var r := Beside(l, s, t, after);
    var t' := if t > s then t - 1 else t;
    assert m[t'] == l[t] by {
      if t > s {
        assert m[t'] == m[s..][t' - s];
      } else {
        assert m[t'] == m[..s][t'];
      }
    }
    if after {
      assert r[p - 1] == r[..p][p - 1];
    } else {
      assert r[p + 1] == r[p + 1..][0];
    }
    RemoveInserted(m, p, l[s]);
  }

  /** Taking out the element at `s` and putting it back at `k` restores `l` only when `k == s`. */
  lemma {:induction false} ReinsertSame<T>(l: seq<T>, s: nat, k: nat)
    requires Distinct(l) && s < |l| && k < |l|
    ensures InsertAt(RemoveAt(l, s), k, l[s]) == l <==> k == s
  {
    var r := InsertAt(RemoveAt(l, s), k, l[s]);
    if k == s {
      assert r == l[..s] + [l[s]] + l[s + 1..];
      assert l == l[..s] + [l[s]] + l[s + 1..];
    } else {
      assert r[k] == l[s] != l[k];
    }
  }

  /**
   * `checkDroppable` on the top or bottom edge of a sibling refuses exactly the
   * drops that would leave the sibling order as it is.
   */
  lemma DroppableIffMoves(l: seq<string>, s: nat, t: nat, area: DropArea)
    requires Distinct(l) && s < |l| && t < |l|
    requires area == DropTop || area == DropBottom
    ensures CheckDroppable(Some(area), l[s], l[t], PrevOf(l, t), NextOf(l, t))
      <==> s != t && Beside(l, s, t, area == DropBottom) != l
  {
    if s != t {
      var after := area == DropBottom;
      var k := (if t > s then t - 1 else t) + (if after then 1 else 0);
      ReinsertSame(l, s, k);
      if t > 0 && l[t - 1] == l[s] {
        assert t - 1 == s;
      }
      if t + 1 < |l| && l[t + 1] == l[s] {
        assert t + 1 == s;
      }
    }
  }

  // ---------------------------------------------------------------------------
  // Tab indices (`dropWithTabs`, `dropFromHistory`)
  // ---------------------------------------------------------------------------

  /**
   * The index of a new tab (bookmark, history entry, merged window or opened
   * folder) dropped on the tab at `target`: before it on `drop-top`, after it
   * otherwise.
   */
  function CreateIndex(target: int, area: DropArea): int
  {
    target + (if area == DropTop then 0 else 1)
  }

  /** The created tab sits directly before or after the tab it was dropped on. */
  lemma CreatePlacesBeside<T>(tabs: seq<T>, t: nat, area: DropArea, x: T)
    requires t < |tabs|
    ensures var k := CreateIndex(t, area);
      var r := InsertAt(tabs, k, x);
      && r[k] == x
      && (area == DropTop ==> r[k + 1] == tabs[t])
      && (area != DropTop ==> r[k - 1] == tabs[t])
      && RemoveAt(r, k) == tabs
  {
    var k := CreateIndex(t, area);
    assert RemoveAt(InsertAt(tabs, k, x), k) == tabs;
  }

  /**
   * Opening a folder on a tab: child `i` is created at `index + i`, one call
   * per child in order. The children end up as one run at the drop slot.
   */
  method OpenFolder(tabs: seq<string>, target: nat, area: DropArea, urls: seq<string>)
    returns (r: seq<string>)
    requires target < |tabs|
    ensures var index := CreateIndex(target, area);
      r == tabs[..index] + urls + tabs[index..]
  {
    var index := CreateIndex(target, area);
    r := tabs;
    var i := 0;
    while i < |urls|
      invariant 0 <= i <= |urls|
      invariant r == tabs[..index] + urls[..i] + tabs[index..]
    {
      assert r[..index + i] == tabs[..index] + urls[..i];
      assert r[index + i..] == tabs[index..];
      r := InsertAt(r, index + i, urls[i]);
      assert urls[..i + 1] == urls[..i] + [urls[i]];
      i := i + 1;
    }
    assert urls[..|urls|] == urls;
  }

  /**
   * `chrome.tabs.move` inside one window: the tab is taken out and put back so
   * that it ends up at `index`; an index past the end appends.
   */
  function MoveTab<T>(tabs: seq<T>, s: nat, index: int): (r: seq<T>)
    requires s < |tabs|
    ensures |r| == |tabs|
  {
    InsertAt(RemoveAt(tabs, s), index, tabs[s])
  }

  /** The index a same-window tab move uses, as written. */
  function SameWindowIndex(source: int, target: int, area: DropArea): int
  {
    if target < source then target else target - (if area == DropBottom then 0 else 1)
  }

  /**
   * As written, a tab dragged leftwards onto the bottom edge of another tab
   * lands before that tab instead of after it.
   */
  lemma SameWindowIndexMisplaces()
    ensures var tabs := ["a", "b", "c"];
      && MoveTab(tabs, 2, SameWindowIndex(2, 0, DropBottom)) == ["c", "a", "b"]
      && CheckDroppable(Some(DropBottom), tabs[2], tabs[0], PrevOf(tabs, 0), NextOf(tabs, 0))
  {
    var tabs := ["a", "b", "c"];
    assert RemoveAt(tabs, 2) == ["a", "b"];
  }

  /** The evidently intended index: directly after the target on `drop-bottom`. */
  function SameWindowIndexIntended(source: int, target: int, area: DropArea): int
  {
    if target < source then target + (if area == DropBottom then 1 else 0)
    else target - (if area == DropBottom then 0 else 1)
  }

  /**
   * With the intended index, the moved tab ends up directly before (drop-top)
   * or after (drop-bottom) the target and all other tabs keep their order.
   * It differs from the written index exactly on leftward drop-bottom moves.
   */
  lemma SameWindowIndexIntendedPlaces<T>(tabs: seq<T>, s: nat, t: nat, area: DropArea)
    requires s < |tabs| && t < |tabs| && s != t
    requires area == DropTop || area == DropBottom
    ensures var k := SameWindowIndexIntended(s, t, area);
      var r := MoveTab(tabs, s, k);
      && 0 <= k < |r| && r[k] == tabs[s]
      && (area == DropBottom ==> k >= 1 && r[k - 1] == tabs[t])
      && (area == DropTop ==> k + 1 < |r| && r[k + 1] == tabs[t])
      && RemoveAt(r, k) == RemoveAt(tabs, s)
    ensures SameWindowIndex(s, t, area) == SameWindowIndexIntended(s, t, area)
      <==> !(t < s && area == DropBottom)
  {
    assert MoveTab(tabs, s, SameWindowIndexIntended(s, t, area)) == Beside(tabs, s, t, area == DropBottom);
    BesideSpec(tabs, s, t, area == DropBottom);
  }

  /** The index of a tab moved in from another window. */
  function CrossWindowIndex(target: int, area: DropArea): int
  {
    target + (if area == DropBottom then 1 else 0)
  }

  /** A tab moved in from another window sits directly before or after the target. */
  lemma CrossWindowPlacesBeside<T>(tabs: seq<T>, t: nat, area: DropArea, x: T)
    requires t < |tabs|
    requires area == DropTop || area == DropBottom
    ensures var k := CrossWindowIndex(t, area);
      var r := InsertAt(tabs, k, x);
      && r[k] == x
      && (area == DropTop ==> r[k + 1] == tabs[t])
      && (area == DropBottom ==> r[k - 1] == tabs[t])
      && CrossWindowIndex(t, area) == CreateIndex(t, area)
  {
  }

  // ---------------------------------------------------------------------------
  // Bookmark destination and dispatch (`drop`)
  // ---------------------------------------------------------------------------

  /** `chrome.bookmarks.BookmarkDestinationArg` */
  datatype Dest = Dest(parentId: string, index: Option<int>)

  /**
   * The destination of a bookmark drop. `parentElementId` is the id of the
   * target's parent element ("" when it has none) and `children` the ids of
   * that folder's children as the host returns them (`None` when the host
   * returns no children, the one case `drop` aborts on).
   */
  function BookmarkDest(targetId: string, isDroppedTab: bool, area: DropArea,
                        parentElementId: string, children: Option<seq<string>>): (r: Option<Dest>)
    ensures r.None? <==> !isDroppedTab && area != DropFolder && children.None?
    ensures isDroppedTab || area == DropFolder ==> r == Some(Dest(targetId, None))
    ensures !isDroppedTab && area != DropFolder && children.Some? ==> (
      var c := children.value;
      && r.Some? && r.value.index.Some?
      && r.value.parentId == (if parentElementId == "" then Root else parentElementId)
      && var k := r.value.index.value;
      && (targetId in c && area == DropBottom ==> 1 <= k <= |c| && c[k - 1] == targetId && targetId !in c[..k - 1])
      && (targetId in c && area != DropBottom ==> 0 <= k < |c| && c[k] == targetId && targetId !in c[..k])
      && (targetId !in c ==> k == (if area == DropBottom then 0 else -1)))
  {
    if isDroppedTab || area == DropFolder then Some(Dest(targetId, None))
    else
      var parentId := if parentElementId == "" then Root else parentElementId;
      match children
      case None => None
      case Some(c) => Some(Dest(parentId, Some(IndexOf(c, targetId) + (if area == DropBottom then 1 else 0))))
  }

  /** Which handler `drop` hands the drop to. */
  datatype Handler = FromHistory | WithTabs | FolderFromTabs | MoveBookmark

  /** History first, then a tab source or a tab target, then a window, then a bookmark move. */
  function Dispatch(source: SourceClass, isDroppedTab: bool): (h: Handler)
    ensures source == HistoryRow <==> h == FromHistory
    ensures h == WithTabs <==> source != HistoryRow && (source == TabWrap || isDroppedTab)
    ensures h == FolderFromTabs <==> source == WindowRow && !isDroppedTab
    ensures h == MoveBookmark <==> (source == Leaf || source == Marker) && !isDroppedTab
  {
    match source
    case HistoryRow => FromHistory
    case TabWrap => WithTabs
    case _ => if isDroppedTab then WithTabs else if source == WindowRow then FolderFromTabs else MoveBookmark
  }

  /** Where a tab is: its window and its index in that window. */
  datatype TabInfo = TabInfo(windowId: int, index: int)

  /** The host call `dropWithTabs` ends in. */
  datatype TabEffect =
    | BookmarkTab(dest: Dest)
    | CreateTab(index: int)
    | MergeWindow(index: int)
    | OpenChildren(index: int)
    | MoveTabTo(windowId: int, index: int)

  /**
   * `dropWithTabs`: a drop on a non-tab bookmarks the dragged tab; on a tab, a
   * bookmark opens a tab, a window merges, a folder opens its children and a
   * tab moves into the target's window, a same-window move with the index as
   * written (`SameWindowIndex`).
   */
  function DropWithTabs(targetIsTab: bool, source: SourceClass, area: DropArea, dest: Dest,
                        target: TabInfo, sourceTab: TabInfo): (e: TabEffect)
    ensures e.BookmarkTab? <==> !targetIsTab
    ensures e.BookmarkTab? ==> e.dest == dest
    ensures e.CreateTab? <==> targetIsTab && source == Leaf
    ensures e.MergeWindow? <==> targetIsTab && source == WindowRow
    ensures e.OpenChildren? <==> targetIsTab && source == Marker
    ensures e.MoveTabTo? ==> e.windowId == target.windowId
  {
    if !targetIsTab then BookmarkTab(dest)
    else
      var index := CreateIndex(target.index, area);
      if source == Leaf then CreateTab(index)
      else if source == WindowRow then MergeWindow(index)
      else if source == Marker then OpenChildren(index)
      else if sourceTab.windowId == target.windowId then
        MoveTabTo(target.windowId, SameWindowIndex(sourceTab.index, target.index, area))
      else MoveTabTo(target.windowId, CrossWindowIndex(target.index, area))
  }

  /**
   * `dropWithTabs` with the evidently intended same-window index. It differs
   * from the written one exactly on leftward `drop-bottom` moves.
   */
  function DropWithTabsIntended(targetIsTab: bool, source: SourceClass, area: DropArea, dest: Dest,
                                target: TabInfo, sourceTab: TabInfo): (e: TabEffect)
    ensures var written := DropWithTabs(targetIsTab, source, area, dest, target, sourceTab);
      e != written <==> written.MoveTabTo? && sourceTab.windowId == target.windowId
                        && target.index < sourceTab.index && area == DropBottom
  {
    var e := DropWithTabs(targetIsTab, source, area, dest, target, sourceTab);
    if e.MoveTabTo? && sourceTab.windowId == target.windowId then
      MoveTabTo(target.windowId, SameWindowIndexIntended(sourceTab.index, target.index, area))
    else e
  }

  /**
   * As written, whatever lands in the target's window lands directly before
   * the target tab on `drop-top` and directly after it on `drop-bottom` (a
   * created tab, or the first of several, or a tab from another window), and
   * a tab moved within the window leaves the other tabs in their order and
   * lands beside the target on the requested side, except on a leftward
   * `drop-bottom` move, where it lands directly before the target instead.
   */
  lemma DropWithTabsPlacesBeside(tabs: seq<string>, source: SourceClass, area: DropArea, dest: Dest,
                                 w: int, t: nat, sourceTab: TabInfo, x: string)
    requires t < |tabs| && (area == DropTop || area == DropBottom)
    requires source != HistoryRow
    ensures var e := DropWithTabs(true, source, area, dest, TabInfo(w, t), sourceTab);
      && !e.BookmarkTab?
      && ((e.CreateTab? || e.MergeWindow? || e.OpenChildren? || sourceTab.windowId != w) ==>
            var r := InsertAt(tabs, e.index, x);
            && r[e.index] == x
            && (area == DropTop ==> r[e.index + 1] == tabs[t])
            && (area == DropBottom ==> r[e.index - 1] == tabs[t]))
      && (e.MoveTabTo? && sourceTab.windowId == w && 0 <= sourceTab.index < |tabs| && sourceTab.index != t ==>
            var r := MoveTab(tabs, sourceTab.index, e.index);
            var misplaced := t < sourceTab.index && area == DropBottom;
            && 0 <= e.index < |r| && r[e.index] == tabs[sourceTab.index]
            && (area == DropTop || misplaced ==> e.index + 1 < |r| && r[e.index + 1] == tabs[t])
            && (area == DropBottom && !misplaced ==> e.index >= 1 && r[e.index - 1] == tabs[t])
            && RemoveAt(r, e.index) == RemoveAt(tabs, sourceTab.index))
  {
    var e := DropWithTabs(true, source, area, dest, TabInfo(w, t), sourceTab);
    if e.MoveTabTo? && sourceTab.windowId == w {
      var s := sourceTab.index;
      if 0 <= s < |tabs| && s != t {
        if t < s && area == DropBottom {
          assert SameWindowIndex(s, t, area) == SameWindowIndexIntended(s, t, DropTop);
          SameWindowIndexIntendedPlaces(tabs, s, t, DropTop);
        } else {
          SameWindowIndexIntendedPlaces(tabs, s, t, area);
        }
      }
    } else {
      CreatePlacesBeside(tabs, t, area, x);
      if e.MoveTabTo? {
        CrossWindowPlacesBeside(tabs, t, area, x);
      }
    }
  }

  /**
   * With the intended index every drop on a tab lands beside the target on
   * the requested side, and a same-window move keeps the other tabs' order.
   */
  lemma DropWithTabsIntendedPlacesBeside(tabs: seq<string>, source: SourceClass, area: DropArea, dest: Dest,
                                         w: int, t: nat, sourceTab: TabInfo, x: string)
    requires t < |tabs| && (area == DropTop || area == DropBottom)
    requires source != HistoryRow
    ensures var e := DropWithTabsIntended(true, source, area, dest, TabInfo(w, t), sourceTab);
      && !e.BookmarkTab?
      && ((e.CreateTab? || e.MergeWindow? || e.OpenChildren? || sourceTab.windowId != w) ==>
            var r := InsertAt(tabs, e.index, x);
            && r[e.index] == x
            && (area == DropTop ==> r[e.index + 1] == tabs[t])
            && (area == DropBottom ==> r[e.index - 1] == tabs[t]))
      && (e.MoveTabTo? && sourceTab.windowId == w && 0 <= sourceTab.index < |tabs| && sourceTab.index != t ==>
            var r := MoveTab(tabs, sourceTab.index, e.index);
            && 0 <= e.index < |r| && r[e.index] == tabs[sourceTab.index]
            && (area == DropTop ==> e.index + 1 < |r| && r[e.index + 1] == tabs[t])
            && (area == DropBottom ==> e.index >= 1 && r[e.index - 1] == tabs[t])
            && RemoveAt(r, e.index) == RemoveAt(tabs, sourceTab.index))
  {
    var e := DropWithTabsIntended(true, source, area, dest, TabInfo(w, t), sourceTab);
    if e.MoveTabTo? && sourceTab.windowId == w {
      if 0 <= sourceTab.index < |tabs| && sourceTab.index != t {
        SameWindowIndexIntendedPlaces(tabs, sourceTab.index, t, area);
      }
    } else {
      CreatePlacesBeside(tabs, t, area, x);
      if e.MoveTabTo? {
        CrossWindowPlacesBeside(tabs, t, area, x);
      }
    }
  }

  // ---------------------------------------------------------------------------
  // Bookmark drops: the panes after the browser has moved the bookmark
  // ---------------------------------------------------------------------------

  /**
   * The tail of `drop` for a bookmark or folder source: both panes are
   * reconciled as in `moveBookmarks`, and the source element lands beside the
   * target (`drop-top`, `drop-bottom`) or last inside it (`drop-folder`).
   */
  method DropBookmark(panes: Panes, sourceId: string, destId: string, area: DropArea)
    modifies panes
    requires area in {DropTop, DropBottom, DropFolder}
    requires panes.Valid()
    requires sourceId in panes.leafs.parent && sourceId != destId
    requires CanPlace(panes.leafs, destId, PositionOf(area))
    requires sourceId !in panes.leaves ==> CanPlace(panes.folders, destId, PositionOf(area))
    requires !(area == DropFolder && destId == Root)
    ensures panes.Valid()
    ensures var pos := PositionOf(area);
      (panes.leafs, panes.folders)
        == Reconciled(old(panes.leafs), old(panes.folders), panes.leaves, sourceId, destId, pos,
                      IsRootTo(old(panes.leafs), destId, pos))
    ensures var pos := PositionOf(area);
      var l := panes.leafs.kids[NewParent(old(panes.leafs), destId, pos)];
      var j := IndexOf(l, sourceId);
      && 0 <= j < |l|
      && (area == DropTop ==> j + 1 < |l| && l[j + 1] == destId)
      && (area == DropBottom ==> j >= 1 && l[j - 1] == destId)
      && (area == DropFolder ==> j == |l| - 1)
  {
    var pos := PositionOf(area);
    var isRootTo := IsRootTo(panes.leafs, destId, pos);
    MovePlacesBeside(panes.leafs, sourceId, destId, pos);
    panes.Reconcile(sourceId, destId, pos, isRootTo);
  }
}
