// add-headers-history.ts: merging closed sessions into the history log,
// newest first, with a date header wherever the calendar day changes.

module AddHeadersHistory {
  import opened Types
  import opened Seqs
  import opened VScroll

  /** A tab as the host's sessions API reports it. */
  datatype HostTab = HostTab(sessionId: string, url: string, title: string)

  /** A recently closed tab or window; `lastModified` is in seconds. */
  datatype HostSession =
    | TabSession(tab: HostTab, lastModified: int)
    | WindowSession(sessionId: string, tabs: seq<HostTab>, lastModified: int)

  /** A visit as the host's history API reports it (times in milliseconds). */
  datatype HostVisit = HostVisit(id: string, url: string, title: string, lastVisitTime: int)

  /**
   * `getSessionItem`: a session becomes a log entry stamped at its
   * modification time in milliseconds; a closed window keeps its tabs.
   */
  function GetSessionItem(s: HostSession): (r: HistoryItem)
    ensures r.Entry? && r.lastVisitTime == s.lastModified * 1000
    ensures s.TabSession? ==> (r.session == SessionTab && r.id == s.tab.sessionId
      && r.url == s.tab.url && r.title == s.tab.title)
    ensures s.WindowSession? ==> (r.id == s.sessionId && r.session.SessionWindow?
      && |r.session.tabs| == |s.tabs|
      && forall i :: 0 <= i < |s.tabs| ==>
           r.session.tabs[i].id == s.tabs[i].sessionId && r.session.tabs[i].url == s.tabs[i].url
           && r.session.tabs[i].title == s.tabs[i].title)
  {
    match s
    case TabSession(tab, m) => Entry(tab.sessionId, tab.url, tab.title, m * 1000, SessionTab)
    case WindowSession(id, tabs, m) =>
      Entry(id, "", "", m * 1000, SessionWindow(seq(|tabs|, i requires 0 <= i < |tabs| =>
        SessionTabItem(tabs[i].sessionId, tabs[i].url, tabs[i].title))))
  }

  function VisitItem(v: HostVisit): HistoryItem
  {
    Entry(v.id, v.url, v.title, v.lastVisitTime, NoSession)
  }

  /** The sessions followed by the visits, before sorting. */
  function Merged(visits: seq<HostVisit>, sessions: seq<HostSession>): (r: seq<HistoryItem>)
    ensures |r| == |sessions| + |visits|
    ensures forall x :: x in r ==> x.Entry?
  {
    seq(|sessions|, i requires 0 <= i < |sessions| => GetSessionItem(sessions[i]))
      + seq(|visits|, i requires 0 <= i < |visits| => VisitItem(visits[i]))
  }

  // ---------------------------------------------------------------------------
  // The stable sort by descending visit time
  // ---------------------------------------------------------------------------

  predicate SortedDesc(s: seq<HistoryItem>)
  {
    forall i, j :: 0 <= i < j < |s| ==> s[i].lastVisitTime >= s[j].lastVisitTime
  }

  /** Insert `x` in front of the first element that is not newer than it. */
  function InsertDesc(x: HistoryItem, s: seq<HistoryItem>): (r: seq<HistoryItem>)
    ensures multiset(r) == multiset(s) + multiset{x}
    ensures |r| == |s| + 1 && (r[0] == x || (|s| > 0 && r[0] == s[0]))
  {
    if s == [] || s[0].lastVisitTime <= x.lastVisitTime then [x] + s
    else
      var r' := InsertDesc(x, s[1..]);
      assert s == [s[0]] + s[1..];
      [s[0]] + r'
  }

  lemma {:induction false} InsertDescSorted(x: HistoryItem, s: seq<HistoryItem>)
    requires SortedDesc(s)
    ensures SortedDesc(InsertDesc(x, s))
  {
    if !(s == [] || s[0].lastVisitTime <= x.lastVisitTime) {
      InsertDescSorted(x, s[1..]);
      var r' := InsertDesc(x, s[1..]);
      forall y | y in s[1..] ensures s[0].lastVisitTime >= y.lastVisitTime {
        var k :| 0 <= k < |s[1..]| && s[1..][k] == y;
        assert s[1 + k] == y;
      }
      NoNewerThan(s[0], r', s[1..], x);
      SortedCons(s[0], r');
    }
  }

  /** After inserting `x` into `rest`, nothing is newer than a head that beat both. */
  lemma NoNewerThan(head: HistoryItem, r: seq<HistoryItem>, rest: seq<HistoryItem>, x: HistoryItem)
    requires multiset(r) == multiset(rest) + multiset{x}
    requires head.lastVisitTime > x.lastVisitTime
    requires forall y :: y in rest ==> head.lastVisitTime >= y.lastVisitTime
    ensures forall j :: 0 <= j < |r| ==> head.lastVisitTime >= r[j].lastVisitTime
  {
    forall j | 0 <= j < |r| ensures head.lastVisitTime >= r[j].lastVisitTime {
      assert r[j] in multiset(r);
      if r[j] != x {
        assert r[j] in multiset(rest);
      }
    }
  }

  lemma SortedCons(head: HistoryItem, r: seq<HistoryItem>)
    requires SortedDesc(r)
    requires forall j :: 0 <= j < |r| ==> head.lastVisitTime >= r[j].lastVisitTime
    ensures SortedDesc([head] + r)
  {
    var t := [head] + r;
    forall i, j | 0 <= i < j < |t| ensures t[i].lastVisitTime >= t[j].lastVisitTime {
      if i > 0 {
        assert t[i] == r[i - 1] && t[j] == r[j - 1];
      } else {
        assert t[j] == r[j - 1];
      }
    }
  }

  /**
   * `sort((a, b) => b.lastVisitTime - a.lastVisitTime)`: newest first, a
   * permutation of the input.
   */
  function SortByTime(s: seq<HistoryItem>): (r: seq<HistoryItem>)
    ensures SortedDesc(r)
    ensures multiset(r) == multiset(s)
  {
    if s == [] then []
    else
      assert s == [s[0]] + s[1..];
      InsertDescSorted(s[0], SortByTime(s[1..]));
      InsertDesc(s[0], SortByTime(s[1..]))
  }

  // ---------------------------------------------------------------------------
  // Header insertion
  // ---------------------------------------------------------------------------

  /** `url.substring(0, 1024)` */
  function Truncated(x: HistoryItem): (r: HistoryItem)
    ensures r.Entry? == x.Entry? && r.lastVisitTime == x.lastVisitTime
    ensures x.Entry? ==> (r.url == x.url[..if |x.url| <= 1024 then |x.url| else 1024]
      && r == x.(url := r.url))
  {
    if x.Entry? && |x.url| > 1024 then x.(url := x.url[..1024]) else x
  }

  /**
   * What the loop of `addHeadersHistory` emits for `items` when the previous
   * item's day label was `prev`: each item, truncated, preceded by a header
   * stamped with its time when its day label differs from a non-empty `prev`.
   */
  function WithHeaders(items: seq<HistoryItem>, prev: string, day: int -> string): seq<HistoryItem>
  {
    if items == [] then []
    else
      var x := items[0];
      var d := day(x.lastVisitTime);
      (if prev == d || prev == "" then [Truncated(x)] else [Header(x.lastVisitTime), Truncated(x)])
        + WithHeaders(items[1..], d, day)
  }

  /** `addHeadersHistory`: the loop over the sorted items, pushing into `histories`. */
  method AddHeadersHistory(visits: seq<HostVisit>, sessions: seq<HostSession>, day: int -> string)
    returns (histories: seq<HistoryItem>)
    ensures histories == WithHeaders(SortByTime(Merged(visits, sessions)), "", day)
  {
    var sorted := SortByTime(Merged(visits, sessions));
    histories := AnnotateSorted(sorted, day);
  }

  /** The loop body of `addHeadersHistory`, over the already sorted items. */
  method AnnotateSorted(sorted: seq<HistoryItem>, day: int -> string) returns (histories: seq<HistoryItem>)
    ensures histories == WithHeaders(sorted, "", day)
  {
    histories := [];
    var i := 0;
    var prevLastVisitDate := "";
    while i < |sorted|
      invariant 0 <= i <= |sorted|
      invariant histories + WithHeaders(sorted[i..], prevLastVisitDate, day) == WithHeaders(sorted, "", day)
    {
      var item := Truncated(sorted[i]);
      var lastVisitDate := day(sorted[i].lastVisitTime);
      var pushed := if prevLastVisitDate == lastVisitDate || prevLastVisitDate == "" then [item]
        else [Header(sorted[i].lastVisitTime), item];
      WithHeadersAt(sorted, i, prevLastVisitDate, day, histories, pushed);
      histories := histories + pushed;
      prevLastVisitDate := lastVisitDate;
      i := i + 1;
    }
  }

  /**
   * One step of the loop: after `done`, the items from `i` on are the `i`-th
   * item's output, then the rest.
   */
  lemma WithHeadersAt(s: seq<HistoryItem>, i: nat, prev: string, day: int -> string,
                      done: seq<HistoryItem>, pushed: seq<HistoryItem>)
    requires i < |s|
    requires pushed == if prev == day(s[i].lastVisitTime) || prev == "" then [Truncated(s[i])]
      else [Header(s[i].lastVisitTime), Truncated(s[i])]
    ensures done + WithHeaders(s[i..], prev, day)
      == (done + pushed) + WithHeaders(s[i + 1..], day(s[i].lastVisitTime), day)
  {
    assert s[i..][0] == s[i];
    assert s[i..][1..] == s[i + 1..];
    var rest := WithHeaders(s[i + 1..], day(s[i].lastVisitTime), day);
    assert WithHeaders(s[i..], prev, day) == pushed + rest;
    assert done + (pushed + rest) == (done + pushed) + rest;
  }

  // ---------------------------------------------------------------------------
  // What the header insertion guarantees
  // ---------------------------------------------------------------------------

  /** Item-by-item truncation of a sequence. */
  function TruncatedAll(s: seq<HistoryItem>): (r: seq<HistoryItem>)
    ensures |r| == |s| && forall i :: 0 <= i < |s| ==> r[i] == Truncated(s[i])
  {
    if s == [] then [] else [Truncated(s[0])] + TruncatedAll(s[1..])
  }

  /** The entries of the output are exactly the (truncated) items, in order. */
  lemma {:induction false} WithHeadersEntries(items: seq<HistoryItem>, prev: string, day: int -> string)
    requires forall x :: x in items ==> x.Entry?
    ensures Entries(WithHeaders(items, prev, day)) == TruncatedAll(items)
  {
    if items != [] {
      var x := items[0];
      var d := day(x.lastVisitTime);
      var rest := WithHeaders(items[1..], d, day);
      var head := if prev == d || prev == "" then [Truncated(x)] else [Header(x.lastVisitTime), Truncated(x)];
      assert x in items;
      WithHeadersEntries(items[1..], d, day);
      EntriesAppend(head, rest);
      if prev == d || prev == "" {
        EntriesOfOne(Truncated(x));
      } else {
        EntriesOfHeaded(Header(x.lastVisitTime), Truncated(x));
      }
      assert TruncatedAll(items) == [Truncated(x)] + TruncatedAll(items[1..]);
    }
  }

  lemma EntriesOfOne(y: HistoryItem)
    requires y.Entry?
    ensures Entries([y]) == [y]
  {
    assert [y][..0] == [];
  }

  lemma EntriesOfHeaded(h: HistoryItem, y: HistoryItem)
    requires h.Header? && y.Entry?
    ensures Entries([h, y]) == [y]
  {
    assert [h][..0] == [];
    assert Entries([h]) == [];
    assert [h, y][..1] == [h];
  }

  /** No calendar day renders as the empty label. */
  ghost predicate LabelsNonEmpty(items: seq<HistoryItem>, day: int -> string)
  {
    forall x :: x in items ==> day(x.lastVisitTime) != ""
  }

  /** Every header is directly followed by an entry of the same time. */
  ghost predicate HeadersLead(r: seq<HistoryItem>)
  {
    forall i {:trigger r[i]} :: 0 <= i < |r| && r[i].Header? ==>
      (i + 1 < |r| && r[i + 1].Entry? && r[i + 1].lastVisitTime == r[i].lastVisitTime)
  }

  /** Two consecutive entries share a day label. */
  ghost predicate RunsShareDay(r: seq<HistoryItem>, day: int -> string)
  {
    forall j {:trigger r[j]} :: 1 <= j < |r| && r[j].Entry? && r[j - 1].Entry? ==>
      day(r[j - 1].lastVisitTime) == day(r[j].lastVisitTime)
  }

  /** An entry after a header follows an entry of another day. */
  ghost predicate HeadersMarkChange(r: seq<HistoryItem>, day: int -> string)
  {
    forall j {:trigger r[j]} :: 2 <= j < |r| && r[j].Entry? && r[j - 1].Header? ==>
      (r[j - 2].Entry? && day(r[j - 2].lastVisitTime) != day(r[j].lastVisitTime))
  }

  /** The shape of a log annotated with day headers. */
  ghost predicate Annotated(r: seq<HistoryItem>, day: int -> string)
  {
    HeadersLead(r) && RunsShareDay(r, day) && HeadersMarkChange(r, day)
  }

  /** How the output for `items` starts, given the previous label. */
  lemma WithHeadersStart(items: seq<HistoryItem>, prev: string, day: int -> string)
    requires |items| > 0
    ensures var r := WithHeaders(items, prev, day);
      var d := day(items[0].lastVisitTime);
      && (prev == d || prev == "" ==> |r| >= 1 && r[0] == Truncated(items[0]))
      && (!(prev == d || prev == "") ==>
            (|r| >= 2 && r[0] == Header(items[0].lastVisitTime) && r[1] == Truncated(items[0])))
  {
  }

  lemma HeadersLeadConcat(a: seq<HistoryItem>, b: seq<HistoryItem>)
    requires HeadersLead(a) && HeadersLead(b)
    requires |a| > 0 && a[|a| - 1].Entry?
    ensures HeadersLead(a + b)
  {
    var r := a + b;
    forall i | 0 <= i < |r| && r[i].Header?
      ensures i + 1 < |r| && r[i + 1].Entry? && r[i + 1].lastVisitTime == r[i].lastVisitTime
    {
      if i >= |a| {
        assert r[i] == b[i - |a|] && r[i + 1] == b[i + 1 - |a|];
      } else {
        assert r[i] == a[i] && r[i + 1] == a[i + 1];
      }
    }
  }

  lemma RunsShareDayConcat(a: seq<HistoryItem>, b: seq<HistoryItem>, day: int -> string)
    requires RunsShareDay(a, day) && RunsShareDay(b, day)
    requires |a| > 0
    requires |b| > 0 && b[0].Entry? && a[|a| - 1].Entry? ==>
      day(b[0].lastVisitTime) == day(a[|a| - 1].lastVisitTime)
    ensures RunsShareDay(a + b, day)
  {
    var r := a + b;
    forall j | 1 <= j < |r| && r[j].Entry? && r[j - 1].Entry?
      ensures day(r[j - 1].lastVisitTime) == day(r[j].lastVisitTime)
    {
      if j > |a| {
        assert r[j] == b[j - |a|] && r[j - 1] == b[j - 1 - |a|];
      } else if j < |a| {
        assert r[j] == a[j] && r[j - 1] == a[j - 1];
      }
    }
  }

  lemma HeadersMarkChangeConcat(a: seq<HistoryItem>, b: seq<HistoryItem>, day: int -> string)
    requires HeadersMarkChange(a, day) && HeadersMarkChange(b, day)
    requires |a| > 0 && a[|a| - 1].Entry?
    requires |b| > 0 ==>
      (b[0].Entry? || (|b| > 1 && b[1].Entry? && day(b[1].lastVisitTime) != day(a[|a| - 1].lastVisitTime)))
    ensures HeadersMarkChange(a + b, day)
  {
    var r := a + b;
    var h := |a|;
    forall j | 2 <= j < |r| && r[j].Entry? && r[j - 1].Header?
      ensures r[j - 2].Entry? && day(r[j - 2].lastVisitTime) != day(r[j].lastVisitTime)
    {
      if j > h + 1 {
        assert r[j] == b[j - h] && r[j - 1] == b[j - 1 - h] && r[j - 2] == b[j - 2 - h];
      } else if j < h {
        assert r[j] == a[j] && r[j - 1] == a[j - 1] && r[j - 2] == a[j - 2];
      } else if j == h + 1 {
        assert r[j] == b[1] && r[j - 1] == b[0] && r[j - 2] == a[h - 1];
      }
    }
  }

  /**
   * The output is an annotated log, and from an empty previous label it starts
   * with an entry: a header stands before an item exactly when its day differs
   * from the previous item's, so headers are never first, last or adjacent.
   */
  lemma {:induction false} WithHeadersAnnotated(items: seq<HistoryItem>, prev: string, day: int -> string)
    requires forall x :: x in items ==> x.Entry?
    requires LabelsNonEmpty(items, day)
    ensures Annotated(WithHeaders(items, prev, day), day)
    ensures |items| > 0 && prev == "" ==> WithHeaders(items, prev, day)[0].Entry?
  {
    if items != [] {
      var x := items[0];
      var d := day(x.lastVisitTime);
      var rest := WithHeaders(items[1..], d, day);
      var head := if prev == d || prev == "" then [Truncated(x)] else [Header(x.lastVisitTime), Truncated(x)];
      assert WithHeaders(items, prev, day) == head + rest;
      assert x in items;
      assert LabelsNonEmpty(items[1..], day) by {
        forall y | y in items[1..] ensures day(y.lastVisitTime) != "" {
          assert y in items;
        }
      }
      WithHeadersAnnotated(items[1..], d, day);
      assert Annotated(head, day);
      if |items| > 1 {
        WithHeadersStart(items[1..], d, day);
        assert items[1] in items;
      }
      HeadersLeadConcat(head, rest);
      RunsShareDayConcat(head, rest, day);
      HeadersMarkChangeConcat(head, rest, day);
    }
  }

  /** The number of day changes between consecutive items. */
  function DayChanges(items: seq<HistoryItem>, day: int -> string): nat
  {
    if |items| < 2 then 0
    else
      (if day(items[0].lastVisitTime) != day(items[1].lastVisitTime) then 1 else 0)
        + DayChanges(items[1..], day)
  }

  /** The output is one element per item plus one header per day change. */
  lemma {:induction false} WithHeadersLength(items: seq<HistoryItem>, day: int -> string)
    requires LabelsNonEmpty(items, day)
    ensures |WithHeaders(items, "", day)| == |items| + DayChanges(items, day)
  {
    WithHeadersLengthFrom(items, "", day);
  }

  lemma {:induction false} WithHeadersLengthFrom(items: seq<HistoryItem>, prev: string, day: int -> string)
    requires LabelsNonEmpty(items, day)
    ensures |WithHeaders(items, prev, day)| == |items| + DayChanges(items, day)
      + (if |items| > 0 && prev != "" && prev != day(items[0].lastVisitTime) then 1 else 0)
  {
    if items != [] {
      var d := day(items[0].lastVisitTime);
      assert LabelsNonEmpty(items[1..], day) by {
        forall x | x in items[1..] ensures day(x.lastVisitTime) != "" {
          assert x in items;
        }
      }
      WithHeadersLengthFrom(items[1..], d, day);
      assert d != "" by { assert items[0] in items; }
    }
  }

  /** The finished log: entries are the sorted, truncated inputs, annotated with day headers. */
  lemma AddHeadersHistorySpec(visits: seq<HostVisit>, sessions: seq<HostSession>, day: int -> string)
    requires forall x :: x in Merged(visits, sessions) ==> day(x.lastVisitTime) != ""
    ensures var sorted := SortByTime(Merged(visits, sessions));
      var r := WithHeaders(sorted, "", day);
      && Entries(r) == TruncatedAll(sorted)
      && Annotated(r, day)
      && (|r| > 0 ==> r[0].Entry?)
      && |r| == |visits| + |sessions| + DayChanges(sorted, day)
  {
    var m := Merged(visits, sessions);
    var sorted := SortByTime(m);
    forall x | x in sorted ensures x.Entry? && day(x.lastVisitTime) != "" {
      assert x in multiset(sorted);
      assert x in m;
    }
    WithHeadersEntries(sorted, "", day);
    WithHeadersAnnotated(sorted, "", day);
    WithHeadersLength(sorted, day);
    assert |sorted| == |multiset(sorted)| == |m|;
  }
}
