// The history pane of history.ts: a small state machine over the search
// pattern, the "include URL" switch and the pending date jump, driving the
// shared virtual scroller of vscroll.ts.

module History {
  import opened Wrappers
  import opened Types
  import opened Seqs
  import opened VScroll

  /** A compiled search pattern: its source text (the memo key) and its test. */
  datatype RegExp = RegExp(source: string, test: string -> bool)

  /** The filter a pattern and the "include URL" switch stand for. */
  function FilterOf(re: RegExp, includeUrl: bool): Filter
  {
    Filter(re.test, includeUrl)
  }

  /**
   * On initialisation, a log whose newest item is an entry not from `today`
   * gets a header in front carrying that entry's own visit time. On an empty
   * log the initialising test reads `headerDate` of an undefined `init`:
   * `None` is that `TypeError`.
   */
  function WithHeaderOnTop(log: seq<HistoryItem>, initialize: bool, today: string, day: int -> string)
    : (r: Option<seq<HistoryItem>>)
    ensures r.None? <==> log == [] && initialize
    ensures r.Some? ==> r.value == log || (log != [] && r.value == [Header(log[0].lastVisitTime)] + log)
    ensures r.Some? ==> (r.value != log <==> initialize && log[0].Entry? && day(log[0].lastVisitTime) != today)
  {
    if log == [] then (if initialize then None else Some(log))
    else
      var init := log[0];
      if initialize && !init.Header? && day(init.lastVisitTime) != today then
        Some([Header(init.lastVisitTime)] + log)
      else Some(log)
  }

  /** As written, the first initialising reset of an empty log throws. */
  lemma EmptyLogThrowsOnInit(today: string, day: int -> string)
    ensures WithHeaderOnTop([], true, today, day).None?
    ensures WithHeaderOnTop([], false, today, day) == Some([])
  {
  }

  /** The evidently intended step: an empty log has no newest item and stays empty. */
  function WithHeaderOnTopIntended(log: seq<HistoryItem>, initialize: bool, today: string, day: int -> string)
    : (r: seq<HistoryItem>)
    ensures r == [] <==> log == []
    ensures log != [] ==> WithHeaderOnTop(log, initialize, today, day) == Some(r)
  {
    if log == [] then [] else WithHeaderOnTop(log, initialize, today, day).value
  }

  /**
   * The two leading-header rules throw on the same inputs, agree on when a
   * header is added and where, and differ only in its stamp, which vscroll.ts
   * floors to the start of the day while history.ts keeps the entry's own
   * time.
   */
  lemma LeadingHeadersAgree(log: seq<HistoryItem>, initialize: bool, today: string, day: int -> string)
    ensures var a := WithHeaderOnTop(log, initialize, today, day);
      var b := WithLeadingHeader(log, initialize, today, day);
      && (a.None? <==> b.None?)
      && (a.Some? ==>
        var a, b := a.value, b.value;
        && |a| == |b| && a[|a| - |log|..] == b[|b| - |log|..] == log
        && (|a| > |log| ==> a[0].Header? && b[0].Header?)
        && (|a| > |log| && a[0].lastVisitTime >= 0 ==>
              b[0].lastVisitTime <= a[0].lastVisitTime < b[0].lastVisitTime + DayMSec)
        && (|a| > |log| && a[0].lastVisitTime < 0 ==>
              a[0].lastVisitTime <= b[0].lastVisitTime < a[0].lastVisitTime + DayMSec))
  {
  }

  /**
   * The memoised search of `resetHistory`: without a pattern (or with an empty
   * source) the log is bound as is; a pattern whose source is cached gets the
   * cached sequence; otherwise the log is filtered and the result stored under
   * the source.
   */
  function Memo(histories: seq<HistoryItem>, cache: map<string, seq<HistoryItem>>,
                reFilter: Option<RegExp>, includeUrl: bool): Lookup
  {
    if reFilter.None? || reFilter.value.source == "" then Lookup(histories, cache)
    else
      var q := reFilter.value.source;
      if q in cache then Lookup(cache[q], cache)
      else
        var data := SearchHistory(histories, FilterOf(reFilter.value, includeUrl));
        Lookup(data, cache[q := data])
  }

  /**
   * The memo is sound as long as a source is never reused for another search:
   * the bound data is the log filtered by the current pattern and switch, and
   * the cache stays coherent.
   */
  lemma MemoSound(histories: seq<HistoryItem>, cache: map<string, seq<HistoryItem>>,
                  filters: map<string, Filter>, re: RegExp, includeUrl: bool)
    requires Coherent(cache, histories, filters)
    requires re.source in cache ==> filters[re.source] == FilterOf(re, includeUrl)
    requires re.source != ""
    ensures var r := Memo(histories, cache, Some(re), includeUrl);
      && r.data == SearchHistory(histories, FilterOf(re, includeUrl))
      && Coherent(r.cache, histories, filters[re.source := FilterOf(re, includeUrl)])
  {
  }

  /**
   * A second lookup with the same pattern returns the stored sequence and
   * leaves the cache as it was, whatever the "include URL" switch says then:
   * the switch is not part of the key.
   */
  lemma MemoRepeats(histories: seq<HistoryItem>, cache: map<string, seq<HistoryItem>>,
                    re: RegExp, includeUrl: bool, includeUrl2: bool)
    requires re.source != ""
    ensures var r := Memo(histories, cache, Some(re), includeUrl);
      && re.source in r.cache
      && Memo(histories, r.cache, Some(re), includeUrl2) == Lookup(r.cache[re.source], r.cache)
      && r.data == r.cache[re.source]
  {
  }

  /** The header items of `s`, in order: what a collapsed pane binds. */
  function HeadersOf(s: seq<HistoryItem>): seq<HistoryItem>
  {
    if s == [] then []
    else HeadersOf(s[..|s| - 1]) + (if s[|s| - 1].Header? then [s[|s| - 1]] else [])
  }

  /** Collapsing keeps exactly the headers, in their original order. */
  lemma HeadersOfSpec(s: seq<HistoryItem>)
    ensures Subseq(HeadersOf(s), s)
    ensures forall x :: x in HeadersOf(s) <==> x in s && x.Header?
    ensures forall x :: multiset(HeadersOf(s))[x] == if x.Header? then multiset(s)[x] else 0
  {
    HeadersOfSubseq(s);
    HeadersOfCount(s);
    forall x
      ensures x in HeadersOf(s) <==> x in s && x.Header?
    {
      assert x in HeadersOf(s) <==> x in multiset(HeadersOf(s));
      assert x in s <==> x in multiset(s);
    }
  }

  lemma {:induction false} HeadersOfSubseq(s: seq<HistoryItem>)
    ensures Subseq(HeadersOf(s), s)
  {
    if s != [] {
      var t := s[..|s| - 1];
      var x := s[|s| - 1];
      HeadersOfSubseq(t);
      if x.Header? {
        assert s == t + [x];
        SubseqSnoc(HeadersOf(t), t, x);
      } else {
        assert HeadersOf(s) == HeadersOf(t);
        if HeadersOf(t) != [] {
          assert Subseq(HeadersOf(t), s[..|s| - 1]);
        }
      }
    }
  }

  lemma {:induction false} HeadersOfCount(s: seq<HistoryItem>)
    ensures forall x :: multiset(HeadersOf(s))[x] == if x.Header? then multiset(s)[x] else 0
  {
    if s != [] {
      var t := s[..|s| - 1];
      var x := s[|s| - 1];
      assert s == t + [x];
      HeadersOfCount(t);
      assert multiset(s) == multiset(t) + multiset{x};
    }
  }

  /** `findIndex` of the first header whose day label is `date`, or -1. */
  function FirstHeaderOn(data: seq<HistoryItem>, date: string, day: int -> string): (i: int)
    ensures -1 <= i < |data|
    ensures i == -1 <==> forall k :: 0 <= k < |data| ==> !(data[k].Header? && day(data[k].lastVisitTime) == date)
    ensures 0 <= i ==> data[i].Header? && day(data[i].lastVisitTime) == date
    ensures forall k :: 0 <= k < i ==> !(data[k].Header? && day(data[k].lastVisitTime) == date)
  {
    if data == [] then -1
    else if data[0].Header? && day(data[0].lastVisitTime) == date then 0
    else
      var j := FirstHeaderOn(data[1..], date, day);
      if j == -1 then -1 else j + 1
  }

  /**
   * The `History` element: its private fields, the scroller it hosts, the
   * log its initial promise resolved to, the module-level search cache, and
   * the store's `historyCollapseDate` flag.
   */
  class HistoryPane {
    var reFilter: Option<RegExp>
    var includeUrl: bool
    var jumpDate: string
    const rowHeight: int
    const pane: VScrollPane
    const log: seq<HistoryItem>
    var searchCache: map<string, seq<HistoryItem>>
    var collapsed: bool

    ghost predicate Valid()
      reads this, pane
    {
      pane.Valid() && rowHeight > 0
    }

    /** The data the scroller is bound to (`getVScrollData`). */
    function Bound(): seq<HistoryItem>
      reads this, pane
    {
      if pane.handler.Some? then pane.handler.value.data else []
    }

    /** `init`: nothing searched, no pending jump, rows of the measured height. */
    constructor (scroller: VScrollPane, initLog: seq<HistoryItem>, measuredRowHeight: int)
      requires scroller.Valid() && measuredRowHeight > 0
      ensures Valid() && pane == scroller && log == initLog && rowHeight == measuredRowHeight
      ensures reFilter.None? && jumpDate == "" && searchCache == map[] && !collapsed
    {
      reFilter := None;
      includeUrl := false;
      jumpDate := "";
      rowHeight := measuredRowHeight;
      pane := scroller;
      log := initLog;
      searchCache := map[];
      collapsed := false;
    }

    /**
     * `resetHistory`: bind the (possibly header-topped, possibly filtered)
     * log; when filtering or not initialising, clear every row and scroll to
     * the top; then repaint. `threw` is the `TypeError` of an initialising
     * reset on an empty log, raised before anything is written.
     */
    method ResetHistory(initialize: bool, today: string, day: int -> string) returns (threw: bool)
      requires Valid()
      modifies this, pane, pane.rows
      ensures Valid()
      ensures reFilter == old(reFilter) && includeUrl == old(includeUrl)
      ensures jumpDate == old(jumpDate) && collapsed == old(collapsed)
      ensures threw <==> log == [] && initialize
      ensures threw ==>
        && searchCache == old(searchCache) && pane.handler == old(pane.handler)
        && pane.fillerHeight == old(pane.fillerHeight) && pane.scrollTop == old(pane.scrollTop)
        && pane.rows[..] == old(pane.rows[..])
      ensures !threw ==>
        var r := Memo(WithHeaderOnTop(log, initialize, today, day).value, old(searchCache), reFilter, includeUrl);
        searchCache == r.cache && Bound() == r.data && pane.fillerHeight == rowHeight * |r.data|
      ensures !threw && (reFilter.Some? || !initialize) ==> pane.scrollTop == 0
      ensures !threw && !(reFilter.Some? || !initialize) ==> pane.scrollTop == old(pane.scrollTop)
      ensures !threw ==> forall i :: 0 <= i < pane.rows.Length ==>
        pane.rows[i] == Paint(if reFilter.Some? || !initialize then Cleared(old(pane.rows[i])) else old(pane.rows[i]),
                              Bound(), ScrollWindow(pane.scrollTop, rowHeight), i)
    {
      var topped := WithHeaderOnTop(log, initialize, today, day);
      if topped.None? {
        return true;
      }
      threw := false;
      var r := Memo(topped.value, searchCache, reFilter, includeUrl);
      searchCache := r.cache;
      pane.SetVScroll(r.data, rowHeight, true);
      if reFilter.Some? || !initialize {
        ClearRows(pane.rows);
        pane.scrollTop := 0;
      }
      pane.Scroll();
    }

    /** `restoreHistory`: a reset that does not initialise. */
    method RestoreHistory()
      requires Valid()
      modifies this, pane, pane.rows
      ensures Valid()
      ensures reFilter == old(reFilter) && includeUrl == old(includeUrl)
      ensures jumpDate == old(jumpDate) && collapsed == old(collapsed)
      ensures var r := Memo(log, old(searchCache), reFilter, includeUrl);
        searchCache == r.cache && Bound() == r.data
      ensures pane.scrollTop == 0
    {
      var threw := ResetHistory(false, "", _ => "");
    }

    /** `jumpDate`: scroll to the first header of `#jumpDate` (row -1 when absent), then forget it. */
    method JumpDate(day: int -> string)
      requires Valid()
      modifies this, pane
      ensures Valid()
      ensures pane.scrollTop == rowHeight * FirstHeaderOn(old(Bound()), old(jumpDate), day)
      ensures jumpDate == ""
      ensures Bound() == old(Bound()) && reFilter == old(reFilter) && includeUrl == old(includeUrl)
      ensures searchCache == old(searchCache) && collapsed == old(collapsed)
    {
      var index := FirstHeaderOn(Bound(), jumpDate, day);
      pane.scrollTop := rowHeight * index;
      jumpDate := "";
    }

    /**
     * `collapseHistoryDate`: expanding restores the (filtered) log and performs
     * a pending jump; collapsing binds only the headers of the bound data and
     * scrolls to the top.
     */
    method CollapseHistoryDate(collapse: bool, day: int -> string)
      requires Valid()
      modifies this, pane, pane.rows
      ensures Valid()
      ensures collapsed == collapse
      ensures reFilter == old(reFilter) && includeUrl == old(includeUrl)
      ensures !collapse ==> (
        var r := Memo(log, old(searchCache), reFilter, includeUrl);
        && searchCache == r.cache && Bound() == r.data && jumpDate == ""
        && pane.scrollTop == (if old(jumpDate) == "" then 0
                              else rowHeight * FirstHeaderOn(r.data, old(jumpDate), day)))
      ensures collapse ==> (
        && Bound() == HeadersOf(old(Bound())) && pane.scrollTop == 0
        && searchCache == old(searchCache) && jumpDate == old(jumpDate))
    {
      collapsed := collapse;
      if !collapse {
        RestoreHistory();
        if jumpDate != "" {
          JumpDate(day);
        }
        return;
      }
      var data := HeadersOf(Bound());
      pane.SetVScroll(data, rowHeight, true);
      pane.scrollTop := 0;
    }

    /** `search`: take the new pattern and switch, then expand (the store's forced dispatch). */
    method Search(re: RegExp, withUrl: bool, day: int -> string)
      requires Valid()
      modifies this, pane, pane.rows
      ensures Valid()
      ensures reFilter == Some(re) && includeUrl == withUrl && !collapsed
      ensures var r := Memo(log, old(searchCache), Some(re), withUrl);
        && searchCache == r.cache && Bound() == r.data && jumpDate == ""
        && pane.scrollTop == (if old(jumpDate) == "" then 0
                              else rowHeight * FirstHeaderOn(r.data, old(jumpDate), day))
    {
      reFilter := Some(re);
      includeUrl := withUrl;
      CollapseHistoryDate(false, day);
    }

    /** `clearSearch`: drop the pattern, so the expanded pane binds the whole log. */
    method ClearSearch(day: int -> string)
      requires Valid()
      modifies this, pane, pane.rows
      ensures Valid()
      ensures reFilter.None? && !collapsed && includeUrl == old(includeUrl)
      ensures Bound() == log && searchCache == old(searchCache) && jumpDate == ""
      ensures pane.scrollTop == (if old(jumpDate) == "" then 0
                                 else rowHeight * FirstHeaderOn(log, old(jumpDate), day))
    {
      reFilter := None;
      CollapseHistoryDate(false, day);
    }

    /** `jumpHistoryDate`: remember the date, then expand, which performs the jump. */
    method JumpHistoryDate(localeDate: string, day: int -> string)
      requires Valid()
      modifies this, pane, pane.rows
      ensures Valid()
      ensures jumpDate == "" && !collapsed && reFilter == old(reFilter) && includeUrl == old(includeUrl)
      ensures var r := Memo(log, old(searchCache), reFilter, includeUrl);
        && searchCache == r.cache && Bound() == r.data
        && pane.scrollTop == (if localeDate == "" then 0 else rowHeight * FirstHeaderOn(r.data, localeDate, day))
    {
      jumpDate := localeDate;
      CollapseHistoryDate(false, day);
    }

    /** A click on a date header jumps to it only while the pane is collapsed. */
    method ClickHeaderDate(text: string, day: int -> string)
      requires Valid()
      modifies this, pane, pane.rows
      ensures Valid()
      ensures reFilter == old(reFilter) && includeUrl == old(includeUrl)
      ensures !old(collapsed) ==>
        (Bound() == old(Bound()) && jumpDate == old(jumpDate) && searchCache == old(searchCache)
          && pane.scrollTop == old(pane.scrollTop) && collapsed == old(collapsed))
      ensures old(collapsed) ==> jumpDate == "" && !collapsed
      ensures old(collapsed) ==>
        var r := Memo(log, old(searchCache), reFilter, includeUrl);
        && searchCache == r.cache && Bound() == r.data
        && pane.scrollTop == (if text == "" then 0 else rowHeight * FirstHeaderOn(r.data, text, day))
    {
      if collapsed {
        JumpHistoryDate(text, day);
      }
    }

    /** The `changeIncludeUrl` subscription: only the switch changes. */
    method SetIncludeUrl(withUrl: bool)
      modifies this
      ensures includeUrl == withUrl
      ensures reFilter == old(reFilter) && jumpDate == old(jumpDate)
      ensures searchCache == old(searchCache) && collapsed == old(collapsed)
    {
      includeUrl := withUrl;
    }
  }
}
