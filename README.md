# Tiles popup core, modelled in Dafny

This project models the logic at the heart of the "tiles" browser-extension
popup. The popup shows bookmarks, tabs and history in panes.

- **History log pipeline**:
  - closed sessions and visits merged newest-first, with a date header wherever the day changes (`addHeadersHistory`);
  - the search fold that carries one pending header (`searchHistory`);
  - the search-result cache of `resetHistory`;
  - the leading header added at start-up;
  - removal of a URL with its orphan fix-ups (`removeUrlHistory`).
- **Virtual scroller** of the history pane:
  - offset arithmetic;
  - the row painter;
  - the rule that exactly one scroll handler is bound;
  - the `History` pane element as a state machine over its search pattern, its "include URL" switch and its pending date jump.
- **Drag and drop**:
  - which drops are allowed;
  - the index handed to the browser for tab and bookmark drops;
  - dispatch by source kind;
  - the two bookmark projections (the leafs pane and the folders pane) kept in step after a move. A leaf has a copy in the folders pane exactly when its parent is the root folder `"1"`.
- **Client helpers**:
  - pane resize clamps;
  - previous-sibling search;
  - the bookmark index default;
  - the in-place reversal before inserting several tabs at one index;
  - the saved pane layouts (one per pane order);
  - `moveBookmarks`, the multi-bookmark move.
- **Popup**:
  - grouping tabs by window, current window first;
  - splitting the user's CSS text into rules.

The browser, the DOM and storage are modelled as plain values:
- sequences of ids, maps from ids to parents, arrays of painted rows;
- objects whose fields the source updates (the scroller, the `History` element, the pair of bookmark panes, local storage) as classes.

Other abstractions:
- `toLocaleDateString` is a parameter `day: int -> string`.
- A compiled regular expression is a pure predicate on strings.

Modules follow the source files:

| module | source |
|---|---|
| `VScroll` | `src/vscroll.ts` |
| `History` | `src/history.ts` |
| `AddHeadersHistory` | `src/add-headers-history.ts` |
| `Common` | `src/common.ts` |
| `DragDrop` | `src/drag-drop.ts` |
| `Projections` | the bookmark panes that `drop` and `moveBookmarks` update |
| `Client` | `src/client.ts` |
| `Popup` | `src/popup.ts` |
| `Types`, `Seqs`, `Wrappers` | shared entities and sequence helpers |

The source has the same `searchHistory` in `src/vscroll.ts` and `src/history.ts`. It is defined once, in `VScroll`, and used by both.

## Model

| member | source | states |
|---|---|---|
| VScroll.ReduceSnoc | src/vscroll.ts:99-110 | the fold is a left fold: reading one more element applies one step of the callback |
| VScroll.PendingIsUnmatched | src/vscroll.ts:100-109 | the header the fold carries is exactly the last header read that no kept entry has followed yet |
| VScroll.SearchSnoc | src/vscroll.ts:100-109 | a kept entry is emitted, preceded by the pending header if there is one; headers and rejected entries add nothing |
| VScroll.SearchIsSubsequence | src/vscroll.ts:98-112 | the search result is an in-order subsequence of the log |
| VScroll.SearchEntries | src/vscroll.ts:103-109 | the non-header elements of the result are exactly the entries the pattern keeps (title-or-url, or url when "include URL" is set), in log order |
| VScroll.SearchHeadersFollowed | src/vscroll.ts:100-109 | every element of the result is a kept entry, or a header directly followed by a kept entry |
| VScroll.SearchNoOrphanHeader | src/vscroll.ts:100-109 | the result never ends with a header and never has two adjacent headers |
| VScroll.SearchRefines | src/vscroll.ts:153-155 | re-filtering a result with a narrower search equals filtering the whole log with it, which the 'forward' branch relies on |
| VScroll.SearchIdempotent | src/vscroll.ts:98-112 | filtering a result again with the same search changes nothing |
| VScroll.ScrollWindow | src/vscroll.ts:91-92 | for a non-negative offset, `-h < rowTop <= 0`, `dataTop >= 0` and `dataTop * h - rowTop` is the offset |
| VScroll.ScrollWithinData | src/vscroll.ts:81-92 | any offset inside the filler height `h * |data|` starts inside the data |
| VScroll.PaintShowsWindow | src/vscroll.ts:14-47 | row 0 is untouched; row `i >= 1` shows `data[dataTop + i - 1]` at `rowTop` with `header-date` exactly on headers, or is parked at -10000px past the end |
| VScroll.PaintRows | src/vscroll.ts:93 | every pooled row, in place, becomes what the row setter paints from its old state |
| VScroll.ClearRows | src/vscroll.ts:162-167 | every pooled row loses its background image, tooltip and text, in place |
| VScroll.Without | src/vscroll.ts:83 | removing a listener drops exactly that binding and keeps every other one |
| VScroll.VScrollPane.constructor | src/vscroll.ts:66 | a fresh pane has no handler, no listener and offset 0 |
| VScroll.VScrollPane.SetVScroll | src/vscroll.ts:68-96 | when the pane's parts exist, the filler is `h * |data|` and one fresh handler over `data` replaces the old one; the wheel handler is added only on the first binding; exactly one scroll and one wheel listener stay attached |
| VScroll.VScrollPane.Scroll | src/vscroll.ts:90-95 | a scroll event repaints every row from the bound data at the current offset, or changes nothing before any binding |
| VScroll.WithLeadingHeader | src/vscroll.ts:131-146 | on an empty log the initialising step throws (`init` is undefined) and a non-initialising one keeps the empty log; otherwise a header is put in front exactly when initialising and the newest item is an entry from another day, carrying that entry's day floored to a whole day, and the log is unchanged in every other case |
| VScroll.EmptyLogThrows | src/vscroll.ts:131-136 | as written, the first initialising reset of an empty log throws |
| VScroll.WithLeadingHeaderIntended | src/vscroll.ts:131-146 | the intended step keeps an empty log empty and agrees with the source on every non-empty log |
| VScroll.DayFloor | src/vscroll.ts:138 | the floored stamp is a multiple of one day |
| VScroll.CacheBranchSound | src/vscroll.ts:148-159 | with 'forward' used only for a narrowing query and 'back' only for a query searched before, every branch binds the log filtered by the current search (the whole log on a 'back' miss), and the cache stays coherent |
| VScroll.LocalStore.constructor | src/vscroll.ts:128 | storage starts with the given log and an empty cache |
| VScroll.ResetHistory | src/vscroll.ts:116-172 | throws exactly on an initialising reset of an empty log, after the cache was emptied and before anything is bound; otherwise the stored log gets the leading header, the cache and the bound data follow the four branches, and when filtering or not initialising every row is cleared, the offset goes to 0 and the rows are repainted from the top |
| History.WithHeaderOnTop | src/history.ts:121-128 | on an empty log the initialising test throws and a non-initialising one keeps the empty log; otherwise a header with the entry's own time is put in front exactly when initialising and the newest item is an entry not from today |
| History.EmptyLogThrowsOnInit | src/history.ts:121-123 | as written, the first initialising reset of an empty log throws |
| History.WithHeaderOnTopIntended | src/history.ts:121-128 | the intended step keeps an empty log empty and agrees with the source on every non-empty log |
| History.LeadingHeadersAgree | src/history.ts:121-128 | this rule and the one in vscroll.ts throw on the same inputs, add a header in the same cases and differ only in its stamp |
| History.MemoSound | src/history.ts:129-137 | while a pattern source is never reused for another search, the bound data is the log filtered by the pattern and switch, and the cache stays coherent |
| History.MemoRepeats | src/history.ts:131-136 | a second lookup with the same pattern returns the stored result and leaves the cache unchanged, whatever the "include URL" switch |
| History.HeadersOfSpec | src/history.ts:170 | collapsing keeps exactly the headers, in their original order, each as often as it occurs in the log |
| History.FirstHeaderOn | src/history.ts:180-182 | the index of the first header whose day label is the date, or -1 when there is none |
| History.HistoryPane.constructor | src/history.ts:69-89 | `init`: nothing searched, no pending jump, rows of the measured height; any log, the empty one included |
| History.HistoryPane.ResetHistory | src/history.ts:118-153 | throws exactly on an initialising reset of an empty log, leaving the pane as it was; otherwise binds the memoised (possibly header-topped) log and, when filtering or not initialising, sets the offset to 0; the pattern, switch and jump stay |
| History.HistoryPane.RestoreHistory | src/history.ts:154-156 | a reset that does not initialise: binds the memoised log at offset 0 |
| History.HistoryPane.JumpDate | src/history.ts:178-185 | the offset becomes `rowHeight * index` of the first header on the pending date (-1 when absent) and the pending date is cleared |
| History.HistoryPane.CollapseHistoryDate | src/history.ts:161-173 | expanding restores the filtered log and performs a pending jump; collapsing binds only the headers of the bound data at offset 0 |
| History.HistoryPane.Search | src/history.ts:113-117 | both pattern and switch are overwritten, the pane is expanded, and it binds the memoised lookup for the new pattern (the cached result when the pattern's source was searched before) and stores the updated cache; a pending jump date is consumed: the scroller goes to the first header of that day in the bound rows, or to the top when no date was pending |
| History.HistoryPane.ClearSearch | src/history.ts:157-160 | the pattern is dropped and the expanded pane binds the whole log, the cache unchanged; a pending jump date is consumed: the scroller goes to the first header of that day in the whole log, or to the top |
| History.HistoryPane.JumpHistoryDate | src/history.ts:174-177 | the date is remembered, then expanding binds the memoised lookup for the unchanged pattern and switch, stores the updated cache, performs the jump and clears the date |
| History.HistoryPane.ClickHeaderDate | src/history.ts:92-98 | a click on a date header acts only while the pane is collapsed: it expands, binds the memoised lookup for the unchanged pattern and switch, and scrolls to the first header of the clicked day (the top for an empty date); on an expanded pane nothing changes |
| History.HistoryPane.SetIncludeUrl | src/history.ts:203-205 | only the switch changes |
| AddHeadersHistory.GetSessionItem | src/add-headers-history.ts:9-20 | a session becomes an entry stamped at `lastModified * 1000`; a closed tab keeps its url, title and id, a closed window keeps each tab's id, url and title, in order |
| AddHeadersHistory.Merged | src/add-headers-history.ts:36 | the sessions and the visits, one entry each |
| AddHeadersHistory.InsertDescSorted | src/add-headers-history.ts:37 | inserting keeps a newest-first sequence sorted |
| AddHeadersHistory.SortByTime | src/add-headers-history.ts:37 | the sort yields a newest-first permutation of its input |
| AddHeadersHistory.Truncated | src/add-headers-history.ts:40-41 | an entry's url becomes its prefix of length at most 1024 |
| AddHeadersHistory.AnnotateSorted | src/add-headers-history.ts:38-50 | the loop emits each truncated item, preceded by a header of its time when its day differs from a previous item's day |
| AddHeadersHistory.AddHeadersHistory | src/add-headers-history.ts:22-51 | the output is the header-annotated, sorted merge of sessions and visits |
| AddHeadersHistory.WithHeadersEntries | src/add-headers-history.ts:40-47 | the entries of the output are exactly the truncated items, in order |
| AddHeadersHistory.WithHeadersAnnotated | src/add-headers-history.ts:39-48 | each header is followed by an entry of the same time from a new day, consecutive entries share a day, and the output never starts with a header |
| AddHeadersHistory.WithHeadersLength | src/add-headers-history.ts:42-48 | the output length is the item count plus the number of day changes |
| AddHeadersHistory.AddHeadersHistorySpec | src/add-headers-history.ts:36-50 | the finished log's entries are the sorted, truncated inputs; it is annotated; its length is items plus day changes |
| Common.Decode | src/common.ts:157-174 | the value of the first tester that is a default or keyed by the test value; none exactly when no tester decides |
| Common.HtmlEscape | src/common.ts:698-706 | no raw quote or angle bracket remains |
| Common.UnescapeHtmlEscape | src/common.ts:698-706 | escaping loses nothing: reading the entities back restores the text |
| Common.Lower | src/common.ts:784 | lower-casing moves exactly the ASCII upper-case letters, each onto the lower-case letter that upper-casing maps back |
| Common.CamelToSnake | src/common.ts:783-785 | no ASCII upper-case letter remains and nothing is lost |
| Common.CamelToSnakeAppend | src/common.ts:783-785 | the mapping works character by character: an ASCII upper-case letter becomes `-` and its lower-case letter, every other character stays, in order |
| Common.SnakeToCamelRoundTrip | src/common.ts:783-785 | on hyphen-free input the hyphen-and-letter mapping is undone exactly |
| Common.GetChromeId | src/common.ts:884-887 | none (NaN) exactly when the text has no digit |
| Common.GetChromeIdRoundTrip | src/common.ts:884-887 | a numeral written between digit-free parts is read back as its value |
| Common.Numeral | src/common.ts:886 | a decimal numeral of `n` whose value is `n` |
| Common.ExtractDomain | src/common.ts:648-651 | both parts are empty or neither is; the scheme ends in `://` and scheme plus host is a prefix of the url |
| Common.ExtractDomainRoundTrip | src/common.ts:648-651 | a url written as scheme, `://`, a slash-free host and a path yields that scheme and that host |
| Common.ExtractDomainBareHost | src/common.ts:648-651 | a url written as scheme, `://` and a slash-free host with nothing after it (the `$` alternative) yields that scheme and the whole host |
| Common.FindMatch | src/common.ts:711-716 | the first item with the url or the visit time, or -1 when there is none |
| Common.RemovedPositions | src/common.ts:711-746 | the positions taken out, in both directions: none when nothing matches; otherwise the first match, a later position exactly when it is the next match after the first, and the position before the first match exactly when it is a header followed by a header or the end |
| Common.RemoveUrlHistoryErases | src/common.ts:708-748 | the result is the log with exactly those positions taken out, every other item kept in order |
| Common.RemoveUrlHistoryKeepsOrphan | src/common.ts:733-746 | as written, removing the second match can leave its header with nothing under it |
| Common.RemoveUrlHistoryKeepsOrphanNewestFirst | src/common.ts:724-731 | an orphan on a newest-first log such as `addHeadersHistory` builds: the first fix-up drops the newer header and returns early, so the older header, whose only entry goes as the second match, is never looked at |
| Common.RemoveUrlHistoryKeepsOrphanSameDay | src/common.ts:724-731 | an orphan when both visits sit under one header: the first fix-up reads the item after the first match in the original log, which is the second match about to be removed, so the header is kept |
| Common.DropOrphansSpec | src/common.ts:724-741 | dropping empty headers leaves no orphaned header, keeps every entry, and keeps order |
| Common.DropOrphansErases | src/common.ts:724-741 | exactly the orphaned headers are dropped (those followed by a header or by nothing), every other item kept in order; a log without orphans is unchanged |
| Common.RemoveUrlHistoryIntendedSpec | src/common.ts:708-748 | the intended removal is the erasure of the matches followed by dropping exactly the headers that erasure orphans; it leaves no orphaned header, keeps exactly the entries other than the removed matches, and keeps order |
| Common.RemoveUrlHistoryIntendedDropsOrphan | src/common.ts:733-741 | on the input that shows the finding, the intended removal leaves nothing |
| DragDrop.CheckDroppable | src/drag-drop.ts:144-163 | a drop is allowed only on a drop area, not on the source, not below the source's previous sibling and not above its next sibling |
| DragDrop.DroppableIffMoves | src/drag-drop.ts:144-163 | on the top or bottom edge of a sibling, a drop is allowed exactly when it changes the sibling order |
| DragDrop.BesideSpec | src/drag-drop.ts:144-163 | putting an element back beside a target places it on the requested side and keeps the order of the others |
| DragDrop.CreatePlacesBeside | src/drag-drop.ts:71-72 | the created tab sits directly before the target on `drop-top`, after it otherwise |
| DragDrop.OpenFolder | src/drag-drop.ts:100-102 | creating child `i` at `index + i` leaves the children as one run, in order, at the drop slot |
| DragDrop.SameWindowIndexMisplaces | src/drag-drop.ts:107-113 | as written, a tab dragged leftwards onto the bottom edge of another tab lands before it |
| DragDrop.SameWindowIndexIntendedPlaces | src/drag-drop.ts:107-113 | with the intended index the moved tab sits directly before (top) or after (bottom) the target, the other tabs keep their order, and the two indices differ exactly on leftward bottom drops |
| DragDrop.CrossWindowPlacesBeside | src/drag-drop.ts:114-116 | a tab from another window sits directly before or after the target |
| DragDrop.BookmarkDest | src/drag-drop.ts:225-241 | a tab target or `drop-folder` gives the target as parent; otherwise the target's index among its parent's children (+1 on `drop-bottom`, -1 or 0 when not found), under root when there is no parent; no destination when the host returns no children |
| DragDrop.Dispatch | src/drag-drop.ts:242-255 | history first, then a tab source or a tab target, then a window, then a bookmark move |
| DragDrop.DropWithTabs | src/drag-drop.ts:59-127 | as written: a non-tab target bookmarks the tab; a leaf creates a tab, a window merges, a folder opens its children, and a tab moves into the target's window, at `target.index` for a leftward same-window drop on either edge |
| DragDrop.DropWithTabsPlacesBeside | src/drag-drop.ts:71-116 | as written, whatever lands in the target's window sits directly before the target on `drop-top` and after it on `drop-bottom`, except a leftward same-window move on `drop-bottom`, which lands before it; a same-window move keeps the other tabs in order |
| DragDrop.DropWithTabsIntended | src/drag-drop.ts:105-116 | the intended drop differs from the written one exactly on a leftward same-window move onto a bottom edge |
| DragDrop.DropWithTabsIntendedPlacesBeside | src/drag-drop.ts:71-116 | with the intended index, whatever lands in the target's window sits directly before the target on `drop-top` and after it on `drop-bottom` |
| DragDrop.DropBookmark | src/drag-drop.ts:256-280 | both panes are reconciled (a leaf is in the folders pane exactly when its parent is root) and the source lands before, after or last inside the target |
| Projections.WithoutSpec | src/drag-drop.ts:262-276 | taking a child out keeps the rest distinct and drops only that child |
| Projections.InsertAtSpec | src/drag-drop.ts:266-273 | inserting a new child keeps the children distinct |
| Projections.MoveParent | src/drag-drop.ts:279 | a move changes only the moved node's parent, to the new parent |
| Projections.MoveSpec | src/drag-drop.ts:279 | moving keeps a projection well formed |
| Projections.MovePlacesBeside | src/drag-drop.ts:279 | the moved node sits directly before the target (`beforebegin`), after it (`afterend`) or last in it (`beforeend`) |
| Projections.MoveKids | src/drag-drop.ts:279 | the new parent's children after a move are its old children without the moved node, with the node then placed beside the target, so the others keep their order |
| Projections.MoveOtherKids | src/drag-drop.ts:279 | a move leaves every children list other than the old and the new parent's unchanged |
| Projections.MoveExtendsRun | src/client.ts:842-864 | moving one more source beside the destination grows the run of already moved sources by that source, on the side the position gives |
| Projections.ReconciledMirrors | src/drag-drop.ts:259-280 | after reconciliation, a leaf is in the folders pane exactly when its parent is root, with the same parent as in the leafs pane |
| Projections.ReconciledConsistent | src/drag-drop.ts:259-280 | reconciliation keeps both panes well formed and mirrored |
| Projections.Panes.constructor | src/drag-drop.ts:259-280 | the two panes start consistent |
| Projections.Panes.Reconcile | src/drag-drop.ts:259-280 | the panes become the reconciled pair; only the source's parent changes in the leafs pane; the panes stay consistent |
| Client.ResizeSplit | src/client.ts:394-411 | the width is the pointer offset clamped below by 220 for tabs and 100 otherwise; no resize when the body is narrower than width plus the other panes |
| Client.ResizeHeight | src/client.ts:413-419 | the height is `min(clientY - 6, maxHeight)`, ignored below 200 |
| Client.GetPrevTarget | src/client.ts:801-812 | the nearest preceding sibling having any of the classes, or none when no preceding sibling has one |
| Client.CreateAllAt | src/client.ts:695-700 | inserting the tabs one by one at the same index leaves them in reverse order |
| Client.CreateAllAppends | src/client.ts:695-700 | appending the tabs one by one keeps their order |
| Client.AddBookmarksFromTabs | src/client.ts:690-700 | the tab list is reversed in place exactly when an index is given; the editing callback is passed exactly for at most one tab; each tab is created in list order |
| Client.AddBookmarksFromTabsOrder | src/client.ts:690-700 | the new bookmarks end up in the tabs' own order at the index, or appended; under root with no index they end up reversed at the front |
| Client.OtherOrders | src/client.ts:282-285 | a saved layout is kept exactly when its pane order differs from the current one |
| Client.OtherOrdersSpec | src/client.ts:282-285 | the kept layouts are the saved ones for other orders, in their saved order, each as often as it was saved |
| Client.GetNewPaneWidth | src/client.ts:273-289 | the other orders' layouts, then the current widths last |
| Client.GetNewPaneWidthOnePerOrder | src/client.ts:280-289 | if at most one layout per pane order was saved, the same holds after saving |
| Client.FindLayout | src/client.ts:255-257 | the first saved layout for the current order, or none when there is none |
| Client.InitSplitWidth | src/client.ts:255-262 | the chosen layout matches the current order, and comes from the defaults when no saved one does |
| Client.SavedWidthsRestored | src/client.ts:255-289 | after saving, initialising picks the widths just saved |
| Client.RunOfSnoc | src/client.ts:842 | the moved run grows by one source per step, in front for `afterend` |
| Client.MoveBookmarks | src/client.ts:822-865 | nothing changes without a destination leaf; otherwise the sources end up as one run at the destination in their order (reversed in place for `afterend`), every moved source has the new parent while every other node keeps its own, and the panes stay consistent |
| Client.ReconcileAll | src/client.ts:843-864 | each source in turn is reconciled and placed beside the destination; the run grows, the panes stay consistent |
| Client.ReconcileAt | src/client.ts:842-864 | one turn of the `forEach`: after the callback for the next id the run beside the destination and the set of relocated ids each include that id, and the panes stay consistent |
| Client.ReconcileNext | src/client.ts:842-863 | one `forEach` callback: the source's leaf-pane parent becomes the new parent, the panes stay consistent, and the run beside the destination grows by that source |
| Seqs.ReversedTwice | src/client.ts:697 | reversing twice restores the list |
| Seqs.ReversedMultiset | src/client.ts:697 | reversing keeps the same elements |
| Seqs.ReverseInPlace | src/client.ts:697 | `Array.prototype.reverse` reverses the array in place |
| Popup.TooltipShowsHost | src/popup.ts:45-46 | for a url with scheme, host and path, the tooltip shows `scheme://,host` after the title |
| Popup.InsertKey | src/popup.ts:49 | integer object keys stay in ascending order |
| Popup.GroupByWindow | src/popup.ts:42-50 | one group per window that has tabs, keys ascending |
| Popup.GroupByWindowSpec | src/popup.ts:42-50 | each window's group is exactly its tabs' rows, in query order |
| Popup.LayoutOrder | src/popup.ts:51-53 | the current window first, then every other window in ascending id order |
| Popup.TabsPaneSpec | src/popup.ts:40-54 | the current window's group comes first, the others follow in ascending id order, every window with tabs appears, and each group holds exactly its tabs in query order |
| Popup.CurrentTabMarked | src/popup.ts:44 | a tab's row is marked current exactly when it is active in the current window |
| Popup.RowsOfHas | src/popup.ts:42-50 | every tab's row is in its window's group |
| Popup.Trim | src/popup.ts:148-151 | the result starts and ends with non-whitespace and changes nothing without whitespace |
| Popup.TrimSpec | src/popup.ts:148-151 | `trim` cuts exactly a whitespace prefix and a whitespace suffix, and leaves nothing exactly when the text is all whitespace |
| Popup.TrimIdempotent | src/popup.ts:151-152 | trimming twice is trimming once |
| Popup.SplitJoin | src/popup.ts:149 | joining the split pieces restores the text |
| Popup.JoinSplit | src/popup.ts:149 | splitting joined separator-free pieces restores them |
| Popup.NonEmpty | src/popup.ts:150 | keeps exactly the non-empty pieces |
| Popup.CssRulesShape | src/popup.ts:147-152 | one rule per non-empty piece; every rule ends in `}`, has no other `}` and no newline, and is trimmed |
| Popup.CssRulesRoundTrip | src/popup.ts:147-152 | trimmed, non-empty rules joined with `}` come back one by one, each closed by `}` |

## Left out

- Row-height probing (`getRowHeight` in vscroll.ts and history.ts) reads computed styles and floating-point pixel values. The row height is an input.
- All `chrome.*` calls are asynchronous foreign services, so their results are inputs: bookmarks, tabs, windows, sessions, history and storage. This includes `sequentialMoveBookmarks`, `getSubTree` and `tabs.move` themselves.
- The popup's own async sequencing, timers, animations, drag images and alerts are left out.
- DOM class toggling is left out: `hilite`, `search-path`, `selected`, `setHasChildren`, `setOpenPaths` and `init`.
- Text, favicon and tooltip strings of painted history rows are left out. A row records the item it shows.
- `objectEqaul` is left out; it compares arbitrary JavaScript objects by prototype tag.
- Colour, theme and palette code is left out (floating point).
- `toLocaleDateString`, `isDateEq` and `getLocaleDate` are one parameter `day`. `new Date()` is a `today` parameter.
- `RegExp.test` is a pure predicate. The `lastIndex` state of a `g` pattern is not modelled.
- VScroll.ResetHistory: the store argument `historiesCache = {}` default and the HTML of the inserted header row are not modelled. Storage holds the log and the cache only.
- History.HistoryPane: `getVScrollData`, `searchCache` and `setScrollTop` are imported from vscroll.ts, which does not export them. They are modelled as the bound data, a cache field and the scroller's offset.
- History.HistoryPane.ResetHistory: the `rmClass('init')` on initialisation is not modelled.
- History.HistoryPane.ResetHistory: the extra header row that initialisation inserts into the pane's DOM (src/history.ts:126-127) is not modelled; the model binds rows only.
- History.HistoryPane: history.ts calls `setVScroll` with a numeric row height and a fifth argument, where vscroll.ts declares `{ rowHeight }` and four parameters. The model follows history.ts.
- VScroll.WithLeadingHeader: on an empty log without initialising, the source binds `[undefined]` (the destructured `init` put back in front); the model binds `[]`. Both paint only parked rows, but the model's filler is one row shorter, and a search over the log, which throws in the source on the undefined item, finds nothing in the model.
- VScroll.ResetHistory: the same `[undefined]` log on a non-initialising reset of an empty log is bound as `[]`.
- History.WithHeaderOnTop: on an empty log without initialising, the source binds `[undefined]`; the model binds `[]`, so a pattern lookup over it finds nothing where the source throws on the undefined item.
- History.HistoryPane.ResetHistory: the same `[undefined]` log on a non-initialising reset of an empty log is bound as `[]`; `jumpDate`'s `findIndex` and the collapsed headers filter, which throw in the source on it, see an empty log.
- Common.Lower: lower-cases the ASCII letters `A`-`Z` only; JavaScript's `toLowerCase` also maps other Unicode upper-case letters (`É`, `Σ`, `İ`, the last to two code units).
- Common.CamelToSnake: inherits the ASCII-only lower-casing of Common.Lower, so a non-ASCII upper-case letter is kept without a hyphen.
- AddHeadersHistory.Truncated: counts characters, where `substring` counts UTF-16 code units; the two differ on text outside the Basic Multilingual Plane.
- AddHeadersHistory.SortByTime: states a newest-first permutation but not stability: JavaScript's `sort` keeps items with equal times in input order, which the model does not promise.
- The `.current-date` label that follows the scroll position in the history pane is not modelled (DOM text only).
- Client.MoveBookmarks: a beforeend move onto the root folder itself is excluded by its requires. The pane projection has no entry for the root's parent.
- Client.MoveBookmarks: a folder source requires the destination to be in the folders pane; the source would throw without it.
- DragDrop.DropBookmark: the document order of the `$$(cssid(...))` matches (src/drag-drop.ts:257-258) is taken to be leafs pane, then folders pane.
- DragDrop.DropBookmark: the source and the target are required to be in the leafs pane; the source reads `$sourceLeafs` and `$destLeafs` without a check and would throw otherwise.
- DragDrop.DropBookmark: a folder source requires the target to be in the folders pane; the source inserts into `$destFolders` without a check and would throw when it is undefined.
- DragDrop.DropBookmark: a `drop-folder` drop onto the root folder itself is excluded by its requires. The pane projection has no entry for the root's parent.
- DragDrop.DropBookmark: the browser-side `bookmarks.move` is taken to succeed.
- Popup.TabsPane: an undefined `url` or `title` is the empty string.
- Popup.TabsPane: the favicon style is left out, as are the `innerHTML` and `insertRule` writes.
- Popup.TabsPane: when the current window has no tabs, the source renders the text `undefined`; the model shows an empty group.
- `setTabs` of popup.ts passes five arguments to `makeTab`, which takes four (src/html.ts). The model keeps the id, class, tooltip and text.
- Popup.CssRules: a whitespace-only fragment between two `}` yields the rule `}`, as the source does. The model does not remove it.
- `resizeSplitHandler` in app-main.ts is called with a different argument list than client.ts declares. Client.ResizeSplit follows client.ts.
- `defaultWidthes`, `paneNames` and `maxHeight` are parameters.
- Client.AddBookmarksFromTabs: the browser's placement of one created bookmark is modelled as insertion at the index, or appending.
- `addBookmarksFromTabs` with no index under root places the tabs in reverse order. No caller of the shown code reaches that case, so it is recorded only as a lemma (Client.AddBookmarksFromTabsOrder).

## Findings

| source | as written | input that shows it | evidently intended | confidence | as-written member | corrected member |
|---|---|---|---|---|---|---|
| src/common.ts:733-741 | the second fix-up, for a header orphaned by removing the second match, builds the same sequence as the fall-through | log `[Entry(u, t1), Header(t2), Entry(u, t2)]`, removing url `u`: result `[Header(t2)]`, a header with nothing under it | the header left without entries is removed too | not executed | Common.RemoveUrlHistoryKeepsOrphan | Common.RemoveUrlHistoryIntendedSpec |
| src/common.ts:724-731 | the first fix-up looks only at the header before the first match, judges it from the item after the first match in the original log, and returns early when it drops that header | the newest-first log `[Header(t2), Entry(u, t2'), Header(t1), Entry(u, t1')]` gives `[Header(t1)]`: the first fix-up drops `Header(t2)` and returns before any check of `Header(t1)`, which lost its only entry as the second match; `[Header(t), Entry(u, t2), Entry(u, t1)]` gives `[Header(t)]`: the item read is the second match, itself removed (Common.RemoveUrlHistoryKeepsOrphanSameDay) | every header left without entries is removed too | not executed | Common.RemoveUrlHistoryKeepsOrphanNewestFirst | Common.RemoveUrlHistoryIntendedSpec |
| src/drag-drop.ts:107-113 | a same-window move to the left uses `target.index` whatever the drop area | tabs `a b c`, drag `c` onto the bottom edge of `a`: result `c a b` | `a c b`: on `drop-bottom` the tab lands after the target | not executed | DragDrop.DropWithTabsPlacesBeside | DragDrop.DropWithTabsIntendedPlacesBeside |
| src/vscroll.ts:131-136 | the log is destructured as `[init, ...tail]` and the initialising test reads `init.lastVisitDate` without checking that the log has an item | an empty stored log (no history, no closed sessions) with `initialize` set: `init` is undefined and reading its field throws a `TypeError`, so nothing is bound | an empty log stays empty and is bound as such | not executed | VScroll.EmptyLogThrows | VScroll.WithLeadingHeaderIntended |
| src/history.ts:121-123 | the same destructuring, then `init.headerDate` is read on initialisation | an empty log with `initialize` set: the `TypeError` is thrown before anything is bound | an empty log stays empty and is bound as such | not executed | History.EmptyLogThrowsOnInit | History.WithHeaderOnTopIntended |
