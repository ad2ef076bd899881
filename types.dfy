/**
 * Shared entities of the popup (src/types.ts and the host's history items).
 */
module Types {

  /** The bookmarks-bar folder, the root of the bookmark projections. */
  const Root := "1"

  /** What a session item was restored from. */
  datatype Session =
    | NoSession
    | SessionTab
    | SessionWindow(tabs: seq<SessionTabItem>)

  /** A tab of a closed session window (it carries no visit time). */
  datatype SessionTabItem = SessionTabItem(id: string, url: string, title: string)

  /**
   * One element of the ordered history log: a visited page, or the synthetic
   * `headerDate` marker that opens a new calendar day.
   * An absent url or title is the empty string.
   */
  datatype HistoryItem =
    | Entry(id: string, url: string, title: string, lastVisitTime: int, session: Session)
    | Header(lastVisitTime: int)

  /** `dropAreaClasses` */
  datatype DropArea = DropTop | DropBottom | DropFolder | Leafs | NewWindowPlus | Query

  /** `sourceClasses` of drag-drop.ts */
  datatype SourceClass = Leaf | Marker | TabWrap | HistoryRow | WindowRow

  /** The `InsertPosition`s of `insertAdjacentElement`. */
  datatype Position = BeforeBegin | AfterEnd | BeforeEnd

  /** `positions` of types.ts; the three remaining drop areas have no position. */
  function PositionOf(area: DropArea): (p: Position)
    requires area in {DropTop, DropBottom, DropFolder, Leafs}
    ensures p == AfterEnd <==> area == DropBottom
    ensures p == BeforeBegin <==> area == DropTop
  {
    match area
    case DropTop => BeforeBegin
    case DropBottom => AfterEnd
    case _ => BeforeEnd
  }
}
