/**
 * The virtual-scroll engine of the history pane (src/vscroll.ts): the search
 * filter over the header-annotated log, the scroll-offset arithmetic, the row
 * painter, the single-listener binding and `resetHistory`.
 */
module VScroll {
  import opened Wrappers
  import opened Types
  import opened Seqs

  // ---------------------------------------------------------------------------
  // Search filter (`searchHistory`)
  // ---------------------------------------------------------------------------

  /** A compiled search: `reFilter.test` and the include-url option. */
  datatype Filter = Filter(test: string -> bool, includeUrl: bool)

  /** `el.title || el.url || ''` */
  function Text(x: HistoryItem): string
    requires x.Entry?
  {
    if x.title != "" then x.title else x.url
  }

  /** An entry the filter keeps; headers are never kept on their own. */
  predicate Keep(f: Filter, x: HistoryItem)
  {
    x.Entry? && (f.test(Text(x)) || (f.includeUrl && f.test(x.url)))
  }

  /** The accumulator of the `reduce`: results so far and the pending header. */
  datatype Fold = Fold(result: seq<HistoryItem>, pending: Option<HistoryItem>)

  /** One step of the `reduce` callback. */
  function Step(acc: Fold, el: HistoryItem, f: Filter): Fold
  {
    if el.Header? then Fold(acc.result, Some(el))
    else if !Keep(f, el) then acc
    else match acc.pending
      case None => Fold(acc.result + [el], None)
      case Some(h) => Fold(acc.result + [h, el], None)
  }

  /** `source.reduce(step, [[], null])`: a left fold, unrolled from the end. */
  function Reduce(s: seq<HistoryItem>, f: Filter): Fold
    decreases |s|
  {
    if s == [] then Fold([], None) else Step(Reduce(s[..|s| - 1], f), s[|s| - 1], f)
  }

  function SearchHistory(s: seq<HistoryItem>, f: Filter): seq<HistoryItem>
  {
    Reduce(s, f).result
  }

  lemma ReduceSnoc(s: seq<HistoryItem>, x: HistoryItem, f: Filter)
    ensures Reduce(s + [x], f) == Step(Reduce(s, f), x, f)
  {
    assert (s + [x])[..|s|] == s;
  }

  // --- an independent description of the pending header ----------------------

  /** Position of the last header of `s`. */
  function LastHeader(s: seq<HistoryItem>): (k: Option<nat>)
    ensures k.Some? ==> (k.value < |s| && s[k.value].Header?
      && forall j :: k.value < j < |s| ==> s[j].Entry?)
    ensures k.None? ==> forall j :: 0 <= j < |s| ==> s[j].Entry?
    decreases |s|
  {
    if s == [] then None
    else if s[|s| - 1].Header? then Some(|s| - 1)
    else LastHeader(s[..|s| - 1])
  }

  /**
   * The header still waiting for a match after reading `s`: the last header
   * seen, provided no kept entry follows it.
   */
  function Unmatched(s: seq<HistoryItem>, f: Filter): Option<HistoryItem>
  {
    match LastHeader(s)
    case None => None
    case Some(k) =>
      if forall j :: k < j < |s| ==> !Keep(f, s[j]) then Some(s[k]) else None
  }

  function OptList(o: Option<HistoryItem>): seq<HistoryItem>
  {
    if o.Some? then [o.value] else []
  }

  /** The fold's pending header is exactly the last unmatched header. */
  lemma {:induction false} PendingIsUnmatched(s: seq<HistoryItem>, f: Filter)
    ensures Reduce(s, f).pending == Unmatched(s, f)
    decreases |s|
  {
    if s != [] {
      var t, x := s[..|s| - 1], s[|s| - 1];
      assert s == t + [x];
      PendingIsUnmatched(t, f);
      if x.Entry? {
        assert LastHeader(s) == LastHeader(t);
        match LastHeader(t)
        case None =>
        case Some(k) =>
          if Keep(f, x) {
            assert !(forall j :: k < j < |s| ==> !Keep(f, s[j]));
          } else {
            assert (forall j :: k < j < |s| ==> !Keep(f, s[j]))
              <==> (forall j :: k < j < |t| ==> !Keep(f, t[j]));
          }
      }
    }
  }

  /**
   * What reading one more element adds to the result: a kept entry is emitted,
   * preceded by the last header seen if no earlier kept entry followed that
   * header; anything else adds nothing.
   */
  lemma SearchSnoc(s: seq<HistoryItem>, x: HistoryItem, f: Filter)
    ensures SearchHistory(s + [x], f)
      == if Keep(f, x) then SearchHistory(s, f) + OptList(Unmatched(s, f)) + [x]
         else SearchHistory(s, f)
  {
    ReduceSnoc(s, x, f);
    PendingIsUnmatched(s, f);
  }

  // --- subsequence -------------------------------------------------------------

  lemma {:induction false} SubseqInvariant(s: seq<HistoryItem>, f: Filter)
    ensures Subseq(SearchHistory(s, f), s)
    ensures Reduce(s, f).pending.Some? ==> (LastHeader(s).Some?
      && Subseq(SearchHistory(s, f), s[..LastHeader(s).value]))
    decreases |s|
  {
    if s == [] {
      return;
    }
    var t, x := s[..|s| - 1], s[|s| - 1];
    assert s == t + [x];
    SubseqInvariant(t, f);
    PendingIsUnmatched(t, f);
    var r := SearchHistory(t, f);
    if x.Header? {
      SubseqExtend(r, t, [x]);
      assert s[..|t|] == t;
    } else if !Keep(f, x) {
      SubseqExtend(r, t, [x]);
      assert LastHeader(s) == LastHeader(t);
      if LastHeader(t).Some? {
        assert s[..LastHeader(t).value] == t[..LastHeader(t).value];
      }
    } else {
      match Reduce(t, f).pending
      case None =>
        SubseqSnoc(r, t, x);
      case Some(h) =>
        SubseqPendingStep(r, t, LastHeader(t).value, x);
    }
  }

  lemma SubseqHeader(r: seq<HistoryItem>, t: seq<HistoryItem>, k: nat)
    requires k < |t| && Subseq(r, t[..k])
    ensures Subseq(r + [t[k]], t)
  {
    SubseqSnoc(r, t[..k], t[k]);
    assert t[..k] + [t[k]] == t[..k + 1];
    SubseqExtend(r + [t[k]], t[..k + 1], t[k + 1..]);
    assert t[..k + 1] + t[k + 1..] == t;
  }

  /** Emitting the pending header `t[k]` with a kept entry keeps the subsequence. */
  lemma SubseqPendingStep(r: seq<HistoryItem>, t: seq<HistoryItem>, k: nat, x: HistoryItem)
    requires k < |t| && Subseq(r, t[..k])
    ensures Subseq(r + [t[k], x], t + [x])
  {
    SubseqHeader(r, t, k);
    SubseqSnoc(r + [t[k]], t, x);
    assert r + [t[k]] + [x] == r + [t[k], x];
  }

  /** The search result is an in-order subsequence of the log. */
  lemma SearchIsSubsequence(s: seq<HistoryItem>, f: Filter)
    ensures Subseq(SearchHistory(s, f), s)
  {
    SubseqInvariant(s, f);
  }

  // --- entries -------------------------------------------------------------------

  /** The entries of a log, headers dropped. */
  function Entries(s: seq<HistoryItem>): seq<HistoryItem>
    decreases |s|
  {
    if s == [] then []
    else Entries(s[..|s| - 1]) + (if s[|s| - 1].Entry? then [s[|s| - 1]] else [])
  }

  /** The entries the filter keeps, in log order. */
  function KeptEntries(s: seq<HistoryItem>, f: Filter): seq<HistoryItem>
    decreases |s|
  {
    if s == [] then []
    else KeptEntries(s[..|s| - 1], f) + (if Keep(f, s[|s| - 1]) then [s[|s| - 1]] else [])
  }

  lemma {:induction false} EntriesAppend(a: seq<HistoryItem>, b: seq<HistoryItem>)
    ensures Entries(a + b) == Entries(a) + Entries(b)
    decreases |b|
  {
    if b == [] {
      assert a + b == a;
    } else {
      var b' := b[..|b| - 1];
      assert (a + b)[..|a + b| - 1] == a + b';
      assert (a + b)[|a + b| - 1] == b[|b| - 1];
      EntriesAppend(a, b');
    }
  }

  lemma {:induction false} PendingIsHeader(s: seq<HistoryItem>, f: Filter)
    ensures Reduce(s, f).pending.Some? ==> Reduce(s, f).pending.value.Header?
    decreases |s|
  {
    if s != [] {
      PendingIsHeader(s[..|s| - 1], f);
    }
  }

  /** The non-header elements of the result are exactly the kept entries, in order. */
  lemma {:induction false} SearchEntries(s: seq<HistoryItem>, f: Filter)
    ensures Entries(SearchHistory(s, f)) == KeptEntries(s, f)
    decreases |s|
  {
    if s != [] {
      var t, x := s[..|s| - 1], s[|s| - 1];
      SearchEntries(t, f);
      PendingIsHeader(t, f);
      var r := SearchHistory(t, f);
      if Keep(f, x) {
        var added := OptList(Reduce(t, f).pending) + [x];
        assert SearchHistory(s, f) == r + added;
        EntriesAppend(r, added);
        assert Entries(added) == [x] by {
          if Reduce(t, f).pending.Some? {
            var h := Reduce(t, f).pending.value;
            assert added == [h, x];
            assert added[..1] == [h];
            assert [h][..0] == [];
            assert Entries([h]) == Entries([]) + [];
            assert Entries(added) == Entries([h]) + [x];
          } else {
            assert added == [x];
            assert added[..0] == [];
            assert Entries(added) == Entries([]) + [x];
          }
        }
      }
    }
  }

  // --- header invariant ------------------------------------------------------------

  /**
   * Every kept element is a kept entry or a header immediately followed by a
   * kept entry: no header is last and no two headers are adjacent.
   */
  ghost predicate HeadersFollowed(r: seq<HistoryItem>, f: Filter)
  {
    forall i {:trigger r[i]} :: 0 <= i < |r| ==>
      (r[i].Entry? ==> Keep(f, r[i]))
      && (r[i].Header? ==> i + 1 < |r| && Keep(f, r[i + 1]))
  }

  lemma {:induction false} SearchHeadersFollowed(s: seq<HistoryItem>, f: Filter)
    ensures HeadersFollowed(SearchHistory(s, f), f)
    decreases |s|
  {
    if s != [] {
      var t, x := s[..|s| - 1], s[|s| - 1];
      SearchHeadersFollowed(t, f);
      PendingIsHeader(t, f);
      var r := SearchHistory(t, f);
      var r' := SearchHistory(s, f);
      assert s == t + [x];
      ReduceSnoc(t, x, f);
      if Keep(f, x) {
        assert r' == r + OptList(Reduce(t, f).pending) + [x];
        forall i | 0 <= i < |r'|
          ensures (r'[i].Entry? ==> Keep(f, r'[i]))
            && (r'[i].Header? ==> i + 1 < |r'| && Keep(f, r'[i + 1]))
        {
          if i < |r| {
            assert r'[i] == r[i];
            if r[i].Header? {
              assert i + 1 < |r| && Keep(f, r[i + 1]);
              assert r'[i + 1] == r[i + 1];
            }
          } else if Reduce(t, f).pending.Some? {
            assert r' == r + [Reduce(t, f).pending.value, x];
            if i == |r| {
              assert r'[i + 1] == x;
            } else {
              assert r'[i] == x;
            }
          } else {
            assert r' == r + [x];
            assert r'[i] == x;
          }
        }
      }
    }
  }

  /** Consequences: the result never ends with a header and has no adjacent headers. */
  lemma SearchNoOrphanHeader(s: seq<HistoryItem>, f: Filter)
    ensures var r := SearchHistory(s, f);
      (r != [] ==> r[|r| - 1].Entry?)
      && forall i :: 0 <= i < |r| - 1 ==> !(r[i].Header? && r[i + 1].Header?)
  {
    SearchHeadersFollowed(s, f);
    var r := SearchHistory(s, f);
    assert HeadersFollowed(r, f);
    if r != [] {
      var i := |r| - 1;
      assert r[i].Header? ==> i + 1 < |r|;
    }
  }

  // --- refinement and idempotence ---------------------------------------------------

  /** Every entry `f2` keeps is kept by `f1` (a narrowed search). */
  ghost predicate Narrows(f2: Filter, f1: Filter)
  {
    forall x :: Keep(f2, x) ==> Keep(f1, x)
  }

  lemma {:induction false} RefineInvariant(s: seq<HistoryItem>, f1: Filter, f2: Filter)
    requires Narrows(f2, f1)
    ensures var r1 := SearchHistory(s, f1);
      && SearchHistory(r1, f2) == SearchHistory(s, f2)
      && (Reduce(s, f1).pending.None? ==> Reduce(r1, f2).pending == Reduce(s, f2).pending)
      && (Reduce(s, f1).pending.Some? ==> Reduce(s, f2).pending == Reduce(s, f1).pending)
    decreases |s|
  {
    if s == [] {
      return;
    }
    var t, x := s[..|s| - 1], s[|s| - 1];
    RefineInvariant(t, f1, f2);
    var r1 := SearchHistory(t, f1);
    if x.Entry? && Keep(f1, x) {
      match Reduce(t, f1).pending
      case None =>
        ReduceSnoc(r1, x, f2);
      case Some(h) =>
        PendingIsHeader(t, f1);
        ReduceSnoc(r1, h, f2);
        ReduceSnoc(r1 + [h], x, f2);
        assert r1 + [h, x] == r1 + [h] + [x];
    }
  }

  /**
   * Re-filtering a result with a narrower search equals filtering the whole
   * log with it: the 'forward' branch of the search cache.
   */
  lemma SearchRefines(s: seq<HistoryItem>, f1: Filter, f2: Filter)
    requires Narrows(f2, f1)
    ensures SearchHistory(SearchHistory(s, f1), f2) == SearchHistory(s, f2)
  {
    RefineInvariant(s, f1, f2);
  }

  /** Filtering is idempotent. */
  lemma SearchIdempotent(s: seq<HistoryItem>, f: Filter)
    ensures SearchHistory(SearchHistory(s, f), f) == SearchHistory(s, f)
  {
    SearchRefines(s, f, f);
  }

  // ---------------------------------------------------------------------------
  // Scroll arithmetic
  // ---------------------------------------------------------------------------

  /** JavaScript's `%`: the remainder takes the sign of the dividend. */
  function JsRem(a: int, b: int): int
    requires b > 0
  {
    if a >= 0 then a % b else -((-a) % b)
  }

  /** Where the pool starts: the first data index and the pixel offset of the rows. */
  datatype Window = Window(dataTop: int, rowTop: int)

  /** `rowTop = -(scrollTop % rowHeight)`, `dataTop = Math.floor(scrollTop / rowHeight)` */
  function ScrollWindow(scrollTop: int, rowHeight: int): (w: Window)
    requires rowHeight > 0
    ensures scrollTop >= 0 ==> (-rowHeight < w.rowTop <= 0 && w.dataTop >= 0
      && w.dataTop * rowHeight - w.rowTop == scrollTop)
  {
    Window(scrollTop / rowHeight, -JsRem(scrollTop, rowHeight))
  }

  /** Any offset inside the filler (`rowHeight * data.length`) starts inside the data. */
  lemma ScrollWithinData(scrollTop: int, rowHeight: int, n: nat)
    requires rowHeight > 0 && 0 <= scrollTop < rowHeight * n
    ensures 0 <= ScrollWindow(scrollTop, rowHeight).dataTop < n
  {
    var w := ScrollWindow(scrollTop, rowHeight);
    if w.dataTop >= n {
      assert w.dataTop * rowHeight >= n * rowHeight by {
        MulMonotone(n, w.dataTop, rowHeight);
      }
    }
  }

  lemma MulMonotone(a: int, b: int, c: nat)
    requires a <= b
    ensures a * c <= b * c
  {
  }

  // ---------------------------------------------------------------------------
  // Rows of the pool (`rowSetterHistory`)
  // ---------------------------------------------------------------------------

  /** The vertical offset that parks a row out of sight. */
  const Hidden := -10000

  /**
   * A pooled physical row: its `translateY`, the item whose text, tooltip and
   * favicon it shows (none once cleared) and whether it has `header-date`.
   */
  datatype Row = Row(translateY: int, item: Option<HistoryItem>, headerClass: bool)

  /** What the row setter does to physical row `index`. */
  function Paint(row: Row, data: seq<HistoryItem>, w: Window, index: nat): (r: Row)
  {
    if index == 0 then row
    else
      var k := w.dataTop + index - 1;
      if !(0 <= k < |data|) then row.(translateY := Hidden)
      else Row(w.rowTop, Some(data[k]), data[k].Header?)
  }

  /**
   * After a repaint at offset `scrollTop`, physical row `i >= 1` shows data item
   * `floor(scrollTop / rowHeight) + i - 1` when it exists, with the header class
   * exactly on headers, and is parked otherwise; row 0 is never touched.
   */
  lemma PaintShowsWindow(row: Row, data: seq<HistoryItem>, scrollTop: int, rowHeight: int, i: nat)
    requires rowHeight > 0 && scrollTop >= 0
    ensures var r := Paint(row, data, ScrollWindow(scrollTop, rowHeight), i);
      var k := scrollTop / rowHeight + i - 1;
      && (i == 0 ==> r == row)
      && (i > 0 && k < |data| ==> (r.item == Some(data[k]) && r.headerClass == data[k].Header?
            && -rowHeight < r.translateY <= 0))
      && (i > 0 && k >= |data| ==> r == row.(translateY := Hidden))
  {
  }

  /** `children.forEach(setter(data, rowTop, dataTop))`, in place. */
  method PaintRows(rows: array<Row>, data: seq<HistoryItem>, w: Window)
    modifies rows
    ensures forall i :: 0 <= i < rows.Length ==> rows[i] == Paint(old(rows[i]), data, w, i)
  {
    var i := 0;
    while i < rows.Length
      invariant 0 <= i <= rows.Length
      invariant forall j :: 0 <= j < i ==> rows[j] == Paint(old(rows[j]), data, w, j)
      invariant forall j :: i <= j < rows.Length ==> rows[j] == old(rows[j])
    {
      rows[i] := Paint(rows[i], data, w, i);
      i := i + 1;
    }
  }

  /** A row whose background image, tooltip and text were removed. */
  function Cleared(row: Row): Row
  {
    row.(item := None)
  }

  /** Clearing every pooled row before a rebind, in place. */
  method ClearRows(rows: array<Row>)
    modifies rows
    ensures forall i :: 0 <= i < rows.Length ==> rows[i] == Cleared(old(rows[i]))
  {
    var i := 0;
    while i < rows.Length
      invariant 0 <= i <= rows.Length
      invariant forall j :: 0 <= j < i ==> rows[j] == Cleared(old(rows[j]))
      invariant forall j :: i <= j < rows.Length ==> rows[j] == old(rows[j])
    {
      rows[i] := Cleared(rows[i]);
      i := i + 1;
    }
  }

  // ---------------------------------------------------------------------------
  // The single scroll binding (`setVScroll` and the module-level `vScrollHandler`)
  // ---------------------------------------------------------------------------

  /** One scroll-handler closure: the data and row height it captured, and its identity. */
  datatype Binding = Binding(serial: nat, data: seq<HistoryItem>, rowHeight: int)

  /** `listeners` without `b`: `removeEventListener`. */
  function Without(listeners: seq<Binding>, b: Binding): (r: seq<Binding>)
    ensures b !in r && forall x :: x in r <==> x in listeners && x != b
  {
    if listeners == [] then []
    else (if listeners[0] == b then [] else [listeners[0]]) + Without(listeners[1..], b)
  }

  /**
   * The history pane's scroller: the pool of rows, the scroll bar's offset and
   * filler height, the listeners attached to the scroll bar and to the rows,
   * and the module-level handler variable.
   */
  class VScrollPane {
    const rows: array<Row>
    var scrollTop: int
    var fillerHeight: int
    var handler: Option<Binding>
    var scrollListeners: seq<Binding>
    var wheelListeners: nat
    var serial: nat

    /** Exactly one scroll handler and one wheel handler once bound, none before. */
    ghost predicate Valid()
      reads this
    {
      && (handler.None? ==> scrollListeners == [] && wheelListeners == 0)
      && (handler.Some? ==> (scrollListeners == [handler.value] && wheelListeners == 1
            && handler.value.serial <= serial))
    }

    constructor (pool: array<Row>)
      ensures Valid() && rows == pool && handler.None? && scrollTop == 0
    {
      rows := pool;
      scrollTop := 0;
      fillerHeight := 0;
      handler := None;
      scrollListeners := [];
      wheelListeners := 0;
      serial := 0;
    }

    /**
     * `setVScroll`: when the pane's parts exist, size the filler to the data,
     * detach the previous scroll handler (or, on the first call, attach the
     * wheel handler) and attach a fresh handler over `data`.
     */
    method SetVScroll(data: seq<HistoryItem>, rowHeight: int, domReady: bool)
      requires Valid()
      modifies this
      ensures Valid()
      ensures !domReady ==> handler == old(handler) && fillerHeight == old(fillerHeight)
      ensures domReady ==> (fillerHeight == rowHeight * |data|
        && handler.Some? && handler.value.data == data && handler.value.rowHeight == rowHeight
        && (old(handler).Some? ==> handler != old(handler)))
      ensures scrollTop == old(scrollTop)
    {
      if !domReady {
        return;
      }
      fillerHeight := rowHeight * |data|;
      if handler.Some? {
        assert [handler.value][1..] == [];
        assert Without([handler.value], handler.value) == [] + Without([], handler.value);
        scrollListeners := Without(scrollListeners, handler.value);
      } else {
        wheelListeners := wheelListeners + 1;
      }
      serial := serial + 1;
      var b := Binding(serial, data, rowHeight);
      handler := Some(b);
      scrollListeners := scrollListeners + [b];
    }

    /** A scroll event: every attached handler repaints the pool. */
    method Scroll()
      requires Valid()
      modifies rows
      ensures handler.None? ==> rows[..] == old(rows[..])
      ensures handler.Some? && handler.value.rowHeight > 0 ==>
        forall i :: 0 <= i < rows.Length ==> rows[i] == Paint(old(rows[i]), handler.value.data,
          ScrollWindow(scrollTop, handler.value.rowHeight), i)
    {
      var n := 0;
      while n < |scrollListeners|
        invariant 0 <= n <= |scrollListeners|
        invariant n == 0 ==> rows[..] == old(rows[..])
        invariant n == 1 && handler.value.rowHeight > 0 ==>
          forall i :: 0 <= i < rows.Length ==> rows[i] == Paint(old(rows[i]), handler.value.data,
            ScrollWindow(scrollTop, handler.value.rowHeight), i)
      {
        var b := scrollListeners[n];
        if b.rowHeight > 0 {
          PaintRows(rows, b.data, ScrollWindow(scrollTop, b.rowHeight));
        }
        n := n + 1;
      }
    }
  }

  // ---------------------------------------------------------------------------
  // `resetHistory`: leading header, search cache, rebinding
  // ---------------------------------------------------------------------------

  /** `aDayMSec` of common.ts */
  const DayMSec := 1000 * 60 * 60 * 24

  /**
   * On initialisation, a log whose newest item is an entry from another day
   * than `today` gets a header in front, stamped at the start of that day
   * (`t - t % aDayMSec`); otherwise the log is kept. `day` stands for
   * `toLocaleDateString`. An empty log destructures to an undefined `init`,
   * whose `lastVisitDate` the initialising test reads: `None` is that
   * `TypeError`.
   */
  function WithLeadingHeader(log: seq<HistoryItem>, initialize: bool, today: string, day: int -> string)
    : (r: Option<seq<HistoryItem>>)
    ensures r.None? <==> log == [] && initialize
    ensures r.Some? ==> |r.value| == |log| || |r.value| == |log| + 1
    ensures r.Some? ==> r.value[|r.value| - |log|..] == log
    ensures r.Some? ==> (|r.value| == |log| + 1 <==> initialize && log[0].Entry? && day(log[0].lastVisitTime) != today)
    ensures r.Some? && |r.value| == |log| + 1 && log[0].lastVisitTime >= 0 ==>
      (r.value[0].Header? && r.value[0].lastVisitTime % DayMSec == 0
        && r.value[0].lastVisitTime <= log[0].lastVisitTime < r.value[0].lastVisitTime + DayMSec)
  {
    if log == [] then (if initialize then None else Some(log))
    else
      var init := log[0];
      if initialize && day(init.lastVisitTime) != today && !init.Header? then
        var t := init.lastVisitTime;
        var h := Header(t - JsRem(t, DayMSec));
        DayFloor(t);
        Some([h] + log)
      else Some(log)
  }

  /**
   * As written, a reset that initialises on an empty stored log throws before
   * anything is bound; an empty log is what `addHeadersHistory` gives for a
   * profile with no history and no closed sessions.
   */
  lemma EmptyLogThrows(today: string, day: int -> string)
    ensures WithLeadingHeader([], true, today, day).None?
    ensures WithLeadingHeader([], false, today, day) == Some([])
  {
  }

  /** The evidently intended step: an empty log has no newest item and stays empty. */
  function WithLeadingHeaderIntended(log: seq<HistoryItem>, initialize: bool, today: string, day: int -> string)
    : (r: seq<HistoryItem>)
    ensures r == [] <==> log == []
    ensures log != [] ==> WithLeadingHeader(log, initialize, today, day) == Some(r)
  {
    if log == [] then [] else WithLeadingHeader(log, initialize, today, day).value
  }

  lemma DayFloor(t: int)
    ensures t >= 0 ==> (t - t % DayMSec) % DayMSec == 0
  {
    assert t - t % DayMSec == DayMSec * (t / DayMSec);
  }

  /** `searchType`: an absent type takes the same branch as 'new'. */
  datatype SearchType = Forward | Back | NewSearch

  /** The data to bind and the search cache to store. */
  datatype Lookup = Lookup(data: seq<HistoryItem>, cache: map<string, seq<HistoryItem>>)

  /**
   * The cache branches of `resetHistory`: no filter binds the log and empties
   * the cache; 'back' reuses the entry of the current query (or the log);
   * 'forward' narrows the entry of the previous query (or the log); a new
   * search filters the log. The last two store their result under the query.
   */
  function CacheBranch(log: seq<HistoryItem>, cache: map<string, seq<HistoryItem>>,
                       reFilter: Option<Filter>, searchType: SearchType,
                       queryValue: string, lastQueryValue: string): Lookup
  {
    match reFilter
    case None => Lookup(log, map[])
    case Some(f) =>
      match searchType
      case Back => Lookup(if queryValue in cache then cache[queryValue] else log, cache)
      case Forward =>
        var data := SearchHistory(if lastQueryValue in cache then cache[lastQueryValue] else log, f);
        Lookup(data, cache[queryValue := data])
      case NewSearch =>
        var data := SearchHistory(log, f);
        Lookup(data, cache[queryValue := data])
  }

  /** Every cached result is the log filtered by the search its key was made for. */
  ghost predicate Coherent(cache: map<string, seq<HistoryItem>>, log: seq<HistoryItem>,
                           filters: map<string, Filter>)
  {
    forall q :: q in cache ==> q in filters && cache[q] == SearchHistory(log, filters[q])
  }

  /**
   * The cache never serves a stale result: when 'forward' is only used for a
   * query that narrows the previous one and 'back' only for a query searched
   * before with the same filter, every branch binds the log filtered by the
   * current search (except 'back' with a cache miss, which binds the whole
   * log) and leaves a coherent cache.
   */
  lemma CacheBranchSound(log: seq<HistoryItem>, cache: map<string, seq<HistoryItem>>,
                         filters: map<string, Filter>, f: Filter, searchType: SearchType,
                         queryValue: string, lastQueryValue: string)
    requires Coherent(cache, log, filters)
    requires searchType == Back && queryValue in cache ==> filters[queryValue] == f
    requires searchType == Forward && lastQueryValue in cache ==> Narrows(f, filters[lastQueryValue])
    ensures var r := CacheBranch(log, cache, Some(f), searchType, queryValue, lastQueryValue);
      && (searchType == Back && queryValue !in cache ==> r.data == log)
      && (!(searchType == Back && queryValue !in cache) ==> r.data == SearchHistory(log, f))
      && Coherent(r.cache, log, filters[queryValue := f])
  {
    if searchType == Forward && lastQueryValue in cache {
      SearchRefines(log, filters[lastQueryValue], f);
    }
  }

  /** chrome.storage.local as `resetHistory` sees it. */
  class LocalStore {
    var histories: seq<HistoryItem>
    var historiesCache: map<string, seq<HistoryItem>>

    constructor (log: seq<HistoryItem>)
      ensures histories == log && historiesCache == map[]
    {
      histories := log;
      historiesCache := map[];
    }
  }

  datatype ResetParams = ResetParams(
    initialize: bool, reFilter: Option<Filter>, searchType: SearchType,
    queryValue: string, lastQueryValue: string)

  /**
   * `resetHistory` of vscroll.ts. `rowHeight` is the stored `vscrollProps`;
   * the probe that measures it is not modelled. `threw` is the `TypeError`
   * of an initialising reset on an empty log, raised after the cache has
   * been emptied and before anything else is written.
   */
  method ResetHistory(pane: VScrollPane, store: LocalStore, p: ResetParams, rowHeight: int,
                      today: string, day: int -> string) returns (threw: bool)
    requires pane.Valid() && rowHeight > 0
    modifies pane, pane.rows, store
    ensures pane.Valid()
    ensures threw <==> old(store.histories) == [] && p.initialize
    ensures threw ==>
      && store.histories == old(store.histories) && store.historiesCache == map[]
      && pane.handler == old(pane.handler) && pane.fillerHeight == old(pane.fillerHeight)
      && pane.scrollTop == old(pane.scrollTop) && pane.rows[..] == old(pane.rows[..])
    ensures !threw ==> Some(store.histories) == WithLeadingHeader(old(store.histories), p.initialize, today, day)
    ensures !threw ==>
      var cache0 := if p.initialize then map[] else old(store.historiesCache);
      var r := CacheBranch(store.histories, cache0, p.reFilter, p.searchType, p.queryValue, p.lastQueryValue);
      && store.historiesCache == r.cache
      && pane.handler.Some? && pane.handler.value.data == r.data
      && pane.handler.value.rowHeight == rowHeight && pane.fillerHeight == rowHeight * |r.data|
    ensures !threw && (p.reFilter.Some? || !p.initialize) ==>
      (pane.scrollTop == 0
        && forall i :: 0 <= i < pane.rows.Length ==>
          pane.rows[i] == Paint(Cleared(old(pane.rows[i])), pane.handler.value.data, Window(0, 0), i))
    ensures !threw && !(p.reFilter.Some? || !p.initialize) ==>
      pane.scrollTop == old(pane.scrollTop) && pane.rows[..] == old(pane.rows[..])
  {
    if p.initialize {
      store.historiesCache := map[];
    }
    var leading := WithLeadingHeader(store.histories, p.initialize, today, day);
    if leading.None? {
      return true;
    }
    threw := false;
    var histories2 := leading.value;
    store.histories := histories2;
    var r := CacheBranch(histories2, store.historiesCache, p.reFilter, p.searchType,
                         p.queryValue, p.lastQueryValue);
    store.historiesCache := r.cache;
    pane.SetVScroll(r.data, rowHeight, true);
    if p.reFilter.Some? || !p.initialize {
      ClearRows(pane.rows);
      pane.scrollTop := 0;
      assert ScrollWindow(0, rowHeight) == Window(0, 0);
      pane.Scroll();
    }
  }
}
