// popup.ts: the tabs pane grouped by window (`setTabs`) and the user CSS
// split into rules (`setOptions`).

module Popup {
  import opened Common

  // ---------------------------------------------------------------------------
  // `setTabs`
  // ---------------------------------------------------------------------------

  /** The fields of `chrome.tabs.Tab` the tabs pane reads. */
  datatype ChromeTab = ChromeTab(id: int, windowId: nat, active: bool, title: string, url: string)

  /** One rendered tab: its id, its extra class, its tooltip and its text. */
  datatype TabRow = TabRow(id: int, className: string, tooltip: string, text: string)

  /**
   * The tooltip: the title, a newline, then the pair `extractDomain` returns,
   * which a template literal renders as `scheme,domain`.
   */
  function Tooltip(title: string, url: string): (r: string)
    ensures |r| > |title| && r[..|title| + 1] == title + "\n"
    ensures var d := ExtractDomain(url);
      r[|title| + 1..] == d.0 + "," + d.1
  {
    var d := ExtractDomain(url);
    var head := title + "\n";
    var r := head + (d.0 + "," + d.1);
    assert r[..|head|] == head;
    assert title + "\n" + d.0 + "," + d.1 == r;
    r
  }

  /** For a plain `scheme://host/path` address the tooltip shows the scheme and the host. */
  lemma TooltipShowsHost(title: string, scheme: string, host: string, path: string)
    requires |scheme| > 0 && forall c :: c in scheme ==> IsSchemeChar(c)
    requires |host| > 0 && '/' !in host
    ensures Tooltip(title, scheme + "://" + host + "/" + path) == title + "\n" + scheme + "://," + host
  {
    ExtractDomainRoundTrip(scheme, host, path);
  }

  /** A tab as the pane shows it. */
  function MakeRow(tab: ChromeTab, currentWindowId: nat): (r: TabRow)
    ensures r.id == tab.id && r.text == tab.title && r.tooltip == Tooltip(tab.title, tab.url)
    ensures r.className == "current-tab" <==> tab.active && tab.windowId == currentWindowId
    ensures r.className != "current-tab" ==> r.className == ""
  {
    TabRow(tab.id, if tab.active && tab.windowId == currentWindowId then "current-tab" else "", Tooltip(tab.title, tab.url),
           tab.title)
  }

  /** Strictly increasing, the order a JavaScript object lists its integer keys in. */
  predicate Ascending(keys: seq<nat>)
  {
    forall i, j :: 0 <= i < j < |keys| ==> keys[i] < keys[j]
  }

  /** Adding an integer key to an object: it takes its place in ascending order. */
  function InsertKey(keys: seq<nat>, k: nat): (r: seq<nat>)
    requires Ascending(keys)
    ensures Ascending(r)
    ensures forall x :: x in r <==> x in keys || x == k
  {
    if keys == [] then [k]
    else if k < keys[0] then [k] + keys
    else if k == keys[0] then keys
    else
      assert Ascending(keys[1..]);
      var r := InsertKey(keys[1..], k);
      assert forall x :: x in keys[1..] ==> keys[0] < x;
      assert forall j :: 0 <= j < |r| ==> r[j] in r;
      [keys[0]] + r
  }

  /** The windows the tabs belong to. */
  function Windows(tabs: seq<ChromeTab>): set<nat>
  {
    set t | t in tabs :: t.windowId
  }

  lemma WindowsSnoc(tabs: seq<ChromeTab>)
    requires tabs != []
    ensures Windows(tabs) == Windows(tabs[..|tabs| - 1]) + {tabs[|tabs| - 1].windowId}
  {
    assert tabs == tabs[..|tabs| - 1] + [tabs[|tabs| - 1]];
  }

  /** The object the `reduce` builds: its key order and its values. */
  datatype ByWindow = ByWindow(keys: seq<nat>, rows: map<nat, seq<TabRow>>)

  /**
   * The `reduce` of `setTabs`: each tab's row is appended to the group of its
   * window, a new window key taking its place among the integer keys.
   */
  function GroupByWindow(tabs: seq<ChromeTab>, currentWindowId: nat): (g: ByWindow)
    ensures Ascending(g.keys)
    ensures forall w :: w in g.keys <==> w in g.rows
    ensures g.rows.Keys == Windows(tabs)
  {
    if tabs == [] then ByWindow([], map[])
    else
      var g := GroupByWindow(tabs[..|tabs| - 1], currentWindowId);
      var tab := tabs[|tabs| - 1];
      WindowsSnoc(tabs);
      var prev := if tab.windowId in g.rows then g.rows[tab.windowId] else [];
      ByWindow(InsertKey(g.keys, tab.windowId), g.rows[tab.windowId := prev + [MakeRow(tab, currentWindowId)]])
  }

  /** Reference definition: the rows of the tabs of window `w`, in query order. */
  function RowsOf(tabs: seq<ChromeTab>, w: nat, currentWindowId: nat): seq<TabRow>
  {
    if tabs == [] then []
    else
      var last := tabs[|tabs| - 1];
      RowsOf(tabs[..|tabs| - 1], w, currentWindowId)
        + (if last.windowId == w then [MakeRow(last, currentWindowId)] else [])
  }

  /** A window with no tab in the list has no rows. */
  lemma {:induction false} RowsOfAbsent(tabs: seq<ChromeTab>, w: nat, currentWindowId: nat)
    requires w !in Windows(tabs)
    ensures RowsOf(tabs, w, currentWindowId) == []
  {
    if tabs != [] {
      assert tabs == tabs[..|tabs| - 1] + [tabs[|tabs| - 1]];
      assert w !in Windows(tabs[..|tabs| - 1]);
      RowsOfAbsent(tabs[..|tabs| - 1], w, currentWindowId);
    }
  }

  /** Every tab lands in exactly its window's group, in query order. */
  lemma {:induction false} GroupByWindowSpec(tabs: seq<ChromeTab>, currentWindowId: nat)
    ensures var g := GroupByWindow(tabs, currentWindowId);
      forall w :: w in g.rows ==> g.rows[w] == RowsOf(tabs, w, currentWindowId)
  {
    if tabs != [] {
      var init := tabs[..|tabs| - 1];
      var tab := tabs[|tabs| - 1];
      GroupByWindowSpec(init, currentWindowId);
      var g0 := GroupByWindow(init, currentWindowId);
      if tab.windowId !in g0.rows {
        RowsOfAbsent(init, tab.windowId, currentWindowId);
      }
    }
  }

  /** The object rest `{ [currentWindowId]: _, ...rest }`: the keys without the current window. */
  function DropKey(keys: seq<nat>, k: nat): (r: seq<nat>)
    ensures forall x :: x in r <==> x in keys && x != k
    ensures Ascending(keys) ==> Ascending(r)
  {
    if keys == [] then []
    else
      var rest := DropKey(keys[1..], k);
      assert forall x :: x in keys <==> x == keys[0] || x in keys[1..];
      assert Ascending(keys) ==> Ascending(keys[1..]) && forall j :: 0 <= j < |rest| ==> rest[j] in keys[1..];
      if keys[0] == k then rest else [keys[0]] + rest
  }

  /**
   * The pane built from the grouped rows: the current window's group first
   * (empty when it has no tab), then every other window in key order.
   */
  function Layout(g: ByWindow, currentWindowId: nat): (r: seq<(nat, seq<TabRow>)>)
    requires forall w :: w in g.keys ==> w in g.rows
    ensures |r| >= 1 && r[0].0 == currentWindowId
  {
    var current := if currentWindowId in g.rows then g.rows[currentWindowId] else [];
    var others := DropKey(g.keys, currentWindowId);
    assert forall i :: 0 <= i < |others| ==> others[i] in others;
    [(currentWindowId, current)] + seq(|others|, i requires 0 <= i < |others| => (others[i], g.rows[others[i]]))
  }

  /** `setTabs`: the tabs grouped by window, laid out in the pane. */
  function TabsPane(tabs: seq<ChromeTab>, currentWindowId: nat): (r: seq<(nat, seq<TabRow>)>)
    ensures |r| >= 1 && r[0].0 == currentWindowId
  {
    Layout(GroupByWindow(tabs, currentWindowId), currentWindowId)
  }

  lemma LayoutOrder(g: ByWindow, currentWindowId: nat)
    requires Ascending(g.keys) && forall w :: w in g.keys <==> w in g.rows
    ensures var r := Layout(g, currentWindowId);
      && (forall i :: 1 <= i < |r| ==> r[i].0 != currentWindowId && r[i].0 in g.rows)
      && (forall i, j :: 1 <= i < j < |r| ==> r[i].0 < r[j].0)
      && (forall w :: w in g.rows ==> exists i :: 0 <= i < |r| && r[i].0 == w)
      && (forall i :: 1 <= i < |r| ==> r[i].1 == g.rows[r[i].0])
      && r[0].1 == if currentWindowId in g.rows then g.rows[currentWindowId] else []
  {
    var r := Layout(g, currentWindowId);
    var others := DropKey(g.keys, currentWindowId);
    LayoutShape(g, currentWindowId);
    forall i | 1 <= i < |r|
      ensures r[i].0 != currentWindowId && r[i].0 in g.rows && r[i].1 == g.rows[r[i].0]
    {
      assert others[i - 1] in others;
    }
    forall i, j | 1 <= i < j < |r|
      ensures r[i].0 < r[j].0
    {
      assert r[i].0 == others[i - 1] && r[j].0 == others[j - 1];
    }
    forall w | w in g.rows
      ensures exists i :: 0 <= i < |r| && r[i].0 == w
    {
      if w != currentWindowId {
        var k :| 0 <= k < |others| && others[k] == w;
        assert r[k + 1].0 == w;
      }
    }
  }

  /** The layout is the current window's group, then one entry per other key, in key order. */
  lemma LayoutShape(g: ByWindow, currentWindowId: nat)
    requires forall w :: w in g.keys ==> w in g.rows
    ensures var r := Layout(g, currentWindowId);
      var others := DropKey(g.keys, currentWindowId);
      && |r| == |others| + 1
      && r[0].1 == (if currentWindowId in g.rows then g.rows[currentWindowId] else [])
      && forall i :: 1 <= i < |r| ==> r[i] == (others[i - 1], g.rows[others[i - 1]])
  {
  }

  /**
   * The pane lists every window once, the current one first and the others in
   * ascending order, and each group holds exactly that window's tabs in query
   * order.
   */
  lemma TabsPaneSpec(tabs: seq<ChromeTab>, currentWindowId: nat)
    ensures var r := TabsPane(tabs, currentWindowId);
      && r[0].0 == currentWindowId
      && (forall i :: 1 <= i < |r| ==> r[i].0 != currentWindowId && r[i].0 in Windows(tabs))
      && (forall i, j :: 1 <= i < j < |r| ==> r[i].0 < r[j].0)
      && (forall w :: w in Windows(tabs) ==> exists i :: 0 <= i < |r| && r[i].0 == w)
      && (forall i :: 0 <= i < |r| ==> r[i].1 == RowsOf(tabs, r[i].0, currentWindowId))
  {
    var g := GroupByWindow(tabs, currentWindowId);
    GroupByWindowSpec(tabs, currentWindowId);
    if currentWindowId !in g.rows {
      RowsOfAbsent(tabs, currentWindowId, currentWindowId);
    }
    PaneOfGroups(tabs, g, TabsPane(tabs, currentWindowId), currentWindowId);
  }

  lemma PaneOfGroups(tabs: seq<ChromeTab>, g: ByWindow, r: seq<(nat, seq<TabRow>)>, currentWindowId: nat)
    requires Ascending(g.keys) && (forall w :: w in g.keys <==> w in g.rows) && g.rows.Keys == Windows(tabs)
    requires forall w :: w in g.rows ==> g.rows[w] == RowsOf(tabs, w, currentWindowId)
    requires currentWindowId !in g.rows ==> RowsOf(tabs, currentWindowId, currentWindowId) == []
    requires r == Layout(g, currentWindowId)
    ensures && r[0].0 == currentWindowId
      && (forall i :: 1 <= i < |r| ==> r[i].0 != currentWindowId && r[i].0 in Windows(tabs))
      && (forall i, j :: 1 <= i < j < |r| ==> r[i].0 < r[j].0)
      && (forall w :: w in Windows(tabs) ==> exists i :: 0 <= i < |r| && r[i].0 == w)
      && (forall i :: 0 <= i < |r| ==> r[i].1 == RowsOf(tabs, r[i].0, currentWindowId))
  {
    LayoutOrder(g, currentWindowId);
    forall i | 0 <= i < |r|
      ensures r[i].1 == RowsOf(tabs, r[i].0, currentWindowId)
    {
      if i >= 1 {
        assert r[i].0 in g.rows;
      }
    }
  }

  /** Each tab is marked `current-tab` exactly when it is the active tab of the current window. */
  lemma CurrentTabMarked(tabs: seq<ChromeTab>, currentWindowId: nat, i: nat)
    requires i < |tabs|
    ensures var row := MakeRow(tabs[i], currentWindowId);
      row in RowsOf(tabs, tabs[i].windowId, currentWindowId)
      && (row.className == "current-tab" <==> tabs[i].active && tabs[i].windowId == currentWindowId)
  {
    RowsOfHas(tabs, i, currentWindowId);
  }

  lemma {:induction false} RowsOfHas(tabs: seq<ChromeTab>, i: nat, currentWindowId: nat)
    requires i < |tabs|
    ensures MakeRow(tabs[i], currentWindowId) in RowsOf(tabs, tabs[i].windowId, currentWindowId)
  {
    if i < |tabs| - 1 {
      RowsOfHas(tabs[..|tabs| - 1], i, currentWindowId);
    }
  }

  // ---------------------------------------------------------------------------
  // The user CSS (`setOptions`)
  // ---------------------------------------------------------------------------

  /** The characters `String.prototype.trim` removes. */
  predicate IsWhite(c: char)
  {
    || c == ' ' || c == '\t' || c == '\n' || c == '\r' || c == '\U{000B}' || c == '\U{000C}'
    || c == '\U{00A0}' || c == '\U{1680}' || '\U{2000}' <= c <= '\U{200A}'
    || c == '\U{2028}' || c == '\U{2029}' || c == '\U{202F}' || c == '\U{205F}'
    || c == '\U{3000}' || c == '\U{FEFF}'
  }

  /** `replaceAll('\n', '')` */
  function RemoveNewlines(s: string): (r: string)
    ensures '\n' !in r
    ensures forall c :: c in r <==> c in s && c != '\n'
    ensures |r| <= |s|
  {
    if s == [] then []
    else (if s[0] == '\n' then [] else [s[0]]) + RemoveNewlines(s[1..])
  }

  /** The number of white characters `trim` drops at the start. */
  function LeadingWhite(s: string): (n: nat)
    ensures n <= |s|
    ensures forall i :: 0 <= i < n ==> IsWhite(s[i])
    ensures n < |s| ==> !IsWhite(s[n])
  {
    if s == [] || !IsWhite(s[0]) then 0 else 1 + LeadingWhite(s[1..])
  }

  /** The number of white characters `trim` drops at the end. */
  function TrailingWhite(s: string): (n: nat)
    ensures n <= |s|
    ensures forall i :: |s| - n <= i < |s| ==> IsWhite(s[i])
    ensures n < |s| ==> !IsWhite(s[|s| - 1 - n])
  {
    if s == [] || !IsWhite(s[|s| - 1]) then 0 else 1 + TrailingWhite(s[..|s| - 1])
  }

  /** `String.prototype.trim` */
  function Trim(s: string): (r: string)
    ensures |r| <= |s|
    ensures r != [] ==> !IsWhite(r[0]) && !IsWhite(r[|r| - 1])
    ensures forall c :: c in r ==> c in s
    ensures (forall c :: c in s ==> !IsWhite(c)) ==> r == s
  {
    var a := LeadingWhite(s);
    var t := s[a..];
    assert forall c :: c in t ==> c in s;
    assert s != [] ==> s[0] in s && s[|s| - 1] in s;
    t[..|t| - TrailingWhite(t)]
  }

  /**
   * `trim` keeps the infix between a white prefix and a white suffix; it is
   * empty exactly when the text is all white, and otherwise starts and ends
   * with a non-white character, which fixes the infix.
   */
  lemma TrimSpec(s: string)
    ensures exists i, j ::
              && 0 <= i <= j <= |s| && Trim(s) == s[i..j]
              && (forall k :: 0 <= k < i ==> IsWhite(s[k])) && (forall k :: j <= k < |s| ==> IsWhite(s[k]))
    ensures Trim(s) == [] <==> forall c :: c in s ==> IsWhite(c)
  {
    var i := LeadingWhite(s);
    var t := s[i..];
    var n := TrailingWhite(t);
    var j := |s| - n;
    assert s[i..j] == t[..|t| - n];
    forall k | j <= k < |s|
      ensures IsWhite(s[k])
    {
      assert s[k] == t[k - i];
    }
    if Trim(s) == [] {
      forall c | c in s
        ensures IsWhite(c)
      {
        var k :| 0 <= k < |s| && s[k] == c;
      }
    }
    if i < |s| {
      assert s[i] in s && !IsWhite(s[i]);
    }
  }

  /** Trimming a trimmed string changes nothing. */
  lemma TrimIdempotent(s: string)
    ensures Trim(Trim(s)) == Trim(s)
  {
    var r := Trim(s);
    assert LeadingWhite(r) == 0;
    assert TrailingWhite(r) == 0;
  }

  /** `split(sep)`: the pieces between the separators, one more than there are separators. */
  function Split(s: string, sep: char): (r: seq<string>)
    ensures |r| >= 1
    ensures forall i :: 0 <= i < |r| ==> sep !in r[i] && forall c :: c in r[i] ==> c in s
  {
    if s == [] then [[]]
    else
      var rest := Split(s[1..], sep);
      if s[0] == sep then [[]] + rest else [[s[0]] + rest[0]] + rest[1..]
  }

  /** Joining the pieces with the separator, the inverse of `Split`. */
  function Join(parts: seq<string>, sep: char): string
  {
    if parts == [] then []
    else if |parts| == 1 then parts[0]
    else parts[0] + [sep] + Join(parts[1..], sep)
  }

  lemma {:induction false} SplitJoin(s: string, sep: char)
    ensures Join(Split(s, sep), sep) == s
  {
    if s != [] {
      SplitJoin(s[1..], sep);
      var rest := Split(s[1..], sep);
      if s[0] != sep {
        if |rest| > 1 {
          assert ([s[0]] + rest[0]) + [sep] + Join(rest[1..], sep) == [s[0]] + (rest[0] + [sep] + Join(rest[1..], sep));
        }
      } else {
        assert ([[]] + rest)[1..] == rest;
      }
    }
  }

  /** Splitting pieces joined by a separator they do not contain gives the pieces back. */
  lemma {:induction false} JoinSplit(parts: seq<string>, sep: char)
    requires |parts| >= 1 && forall i :: 0 <= i < |parts| ==> sep !in parts[i]
    ensures Split(Join(parts, sep), sep) == parts
    decreases |parts|, |parts[0]|
  {
    if |parts| == 1 {
      SplitOfPiece(parts[0], sep, []);
      assert parts[0] + [] == parts[0];
    } else {
      var tail := Join(parts[1..], sep);
      JoinSplit(parts[1..], sep);
      SplitOfPiece(parts[0], sep, [sep] + tail);
      assert Split([sep] + tail, sep) == [[]] + parts[1..] by {
        assert ([sep] + tail)[1..] == tail;
      }
      assert parts[0] + [sep] + tail == parts[0] + ([sep] + tail);
      assert ([[]] + parts[1..])[1..] == parts[1..];
      assert parts[0] + [] == parts[0];
      assert [parts[0]] + parts[1..] == parts;
    }
  }

  /** A piece without the separator, followed by the rest of a string, opens the first piece. */
  lemma {:induction false} SplitOfPiece(p: string, sep: char, rest: string)
    requires sep !in p
    ensures var q := Split(rest, sep);
      Split(p + rest, sep) == [p + q[0]] + q[1..]
  {
    var q := Split(rest, sep);
    if p != [] {
      SplitOfPiece(p[1..], sep, rest);
      assert (p + rest)[1..] == p[1..] + rest;
      var r := Split(p[1..] + rest, sep);
      assert r[0] == p[1..] + q[0] && r[1..] == q[1..];
      assert [p[0]] + (p[1..] + q[0]) == p + q[0];
    } else {
      assert p + rest == rest && p + q[0] == q[0];
      assert q == [q[0]] + q[1..];
    }
  }

  /** `filter(Boolean)` on strings: the empty ones go. */
  function NonEmpty(parts: seq<string>): (r: seq<string>)
    ensures forall i :: 0 <= i < |r| ==> r[i] != [] && r[i] in parts
    ensures forall p :: p in parts && p != [] ==> p in r
  {
    if parts == [] then []
    else (if parts[0] == [] then [] else [parts[0]]) + NonEmpty(parts[1..])
  }

  /** Each piece trimmed and closed again, and trimmed once more on insertion. */
  function CloseRules(parts: seq<string>): (r: seq<string>)
    ensures |r| == |parts|
  {
    if parts == [] then [] else [Trim(Trim(parts[0]) + "}")] + CloseRules(parts[1..])
  }

  /** The rules `setOptions` inserts into the style sheet, in order. */
  function CssRules(css: string): (r: seq<string>)
  {
    CloseRules(NonEmpty(Split(Trim(RemoveNewlines(css)), '}')))
  }

  /** A trimmed text followed by `}` is already trimmed. */
  lemma TrimClosed(s: string)
    ensures Trim(Trim(s) + "}") == Trim(s) + "}"
  {
    var t := Trim(s) + "}";
    assert t[0] != ' ' && !IsWhite(t[0]);
    assert LeadingWhite(t) == 0;
    assert TrailingWhite(t) == 0;
  }

  /** A rule as `insertRule` receives it: trimmed, its one `}` closes it, and it has no newline. */
  predicate ClosedRule(rule: string)
  {
    |rule| >= 1 && rule[|rule| - 1] == '}' && '}' !in rule[..|rule| - 1] && '\n' !in rule && Trim(rule) == rule
  }

  /**
   * Every inserted rule is trimmed, ends with its only `}` and holds no
   * newline, and there is one rule per non-empty piece between the braces.
   */
  lemma CssRulesShape(css: string)
    ensures var r := CssRules(css);
      && |r| == |NonEmpty(Split(Trim(RemoveNewlines(css)), '}'))|
      && forall i :: 0 <= i < |r| ==> ClosedRule(r[i])
  {
    PiecesClean(css);
    CloseRulesShape(NonEmpty(Split(Trim(RemoveNewlines(css)), '}')));
  }

  /** The pieces between the braces hold neither a brace nor a newline. */
  lemma PiecesClean(css: string)
    ensures var parts := NonEmpty(Split(Trim(RemoveNewlines(css)), '}'));
      forall i :: 0 <= i < |parts| ==> '}' !in parts[i] && '\n' !in parts[i]
  {
    var text := Trim(RemoveNewlines(css));
    assert '\n' !in text;
    var pieces := Split(text, '}');
    assert forall i :: 0 <= i < |pieces| ==> '\n' !in pieces[i];
  }

  lemma ClosedOne(p: string)
    requires '}' !in p && '\n' !in p
    ensures ClosedRule(Trim(Trim(p) + "}"))
  {
    TrimClosed(p);
    var t := Trim(p);
    assert (t + "}")[..|t + "}"| - 1] == t;
  }

  lemma {:induction false} CloseRulesShape(parts: seq<string>)
    requires forall i :: 0 <= i < |parts| ==> '}' !in parts[i] && '\n' !in parts[i]
    ensures forall i :: 0 <= i < |CloseRules(parts)| ==> ClosedRule(CloseRules(parts)[i])
  {
    if parts != [] {
      CloseRulesShape(parts[1..]);
      ClosedOne(parts[0]);
      AllClosedCons(CloseRules(parts), Trim(Trim(parts[0]) + "}"), CloseRules(parts[1..]));
    }
  }

  lemma AllClosedCons(r: seq<string>, head: string, tail: seq<string>)
    requires r == [head] + tail && ClosedRule(head)
    requires forall i :: 0 <= i < |tail| ==> ClosedRule(tail[i])
    ensures forall i :: 0 <= i < |r| ==> ClosedRule(r[i])
  {
    assert forall i :: 1 <= i < |r| ==> r[i] == tail[i - 1];
  }

  /** Without newlines there is nothing to remove. */
  lemma {:induction false} RemoveNewlinesNone(s: string)
    requires '\n' !in s
    ensures RemoveNewlines(s) == s
  {
    if s != [] {
      RemoveNewlinesNone(s[1..]);
      assert [s[0]] + s[1..] == s;
    }
  }

  /** A string with non-white ends is its own trim. */
  lemma TrimmedEnds(s: string)
    requires s != [] && !IsWhite(s[0]) && !IsWhite(s[|s| - 1])
    ensures Trim(s) == s
  {
    assert LeadingWhite(s) == 0;
    assert s[0..] == s;
    assert TrailingWhite(s) == 0;
  }

  lemma {:induction false} JoinSnoc(parts: seq<string>, p: string, sep: char)
    requires parts != []
    ensures Join(parts + [p], sep) == Join(parts, sep) + [sep] + p
    decreases |parts|
  {
    if |parts| == 1 {
      assert (parts + [p])[1..] == [p];
    } else {
      JoinSnoc(parts[1..], p, sep);
      assert (parts + [p])[1..] == parts[1..] + [p];
    }
  }

  lemma {:induction false} NonEmptyDropsLast(parts: seq<string>)
    requires forall i :: 0 <= i < |parts| ==> parts[i] != []
    ensures NonEmpty(parts + [[]]) == parts
    decreases |parts|
  {
    if parts == [] {
      assert NonEmpty([[]]) == NonEmpty([[]][1..]);
    } else {
      NonEmptyDropsLast(parts[1..]);
      assert (parts + [[]])[1..] == parts[1..] + [[]];
      assert [parts[0]] + parts[1..] == parts;
    }
  }

  lemma {:induction false} CloseTrimmed(rules: seq<string>)
    requires forall i :: 0 <= i < |rules| ==> rules[i] != [] && Trim(rules[i]) == rules[i]
    ensures CloseRules(rules) == seq(|rules|, i requires 0 <= i < |rules| => rules[i] + "}")
    decreases |rules|
  {
    if rules != [] {
      CloseTrimmed(rules[1..]);
      TrimClosed(rules[0]);
    }
  }

  /**
   * The style text written as rules closed by `}` is split back into exactly
   * those rules, each with its `}`.
   */
  lemma CssRulesRoundTrip(rules: seq<string>)
    requires |rules| >= 1
    requires forall i :: 0 <= i < |rules| ==>
      rules[i] != [] && Trim(rules[i]) == rules[i] && '}' !in rules[i] && '\n' !in rules[i]
    ensures CssRules(Join(rules, '}') + "}") == seq(|rules|, i requires 0 <= i < |rules| => rules[i] + "}")
  {
    var text := Join(rules, '}') + "}";
    var parts := rules + [[]];
    PiecesOfText(rules);
    TextClean(rules);
    NonEmptyDropsLast(rules);
    CloseTrimmed(rules);
    assert CssRules(text) == CloseRules(NonEmpty(Split(text, '}')));
  }

  /** The style text splits into the rules and a final empty piece. */
  lemma PiecesOfText(rules: seq<string>)
    requires |rules| >= 1 && forall i :: 0 <= i < |rules| ==> '}' !in rules[i]
    ensures Split(Join(rules, '}') + "}", '}') == rules + [[]]
  {
    var parts := rules + [[]];
    assert forall i :: 0 <= i < |parts| ==> '}' !in parts[i] by {
      assert forall i :: 0 <= i < |rules| ==> parts[i] == rules[i];
    }
    JoinSnoc(rules, [], '}');
    assert Join(rules, '}') + ['}'] + [] == Join(rules, '}') + "}";
    JoinSplit(parts, '}');
  }

  /** The style text has neither newlines to remove nor white ends to trim. */
  lemma TextClean(rules: seq<string>)
    requires |rules| >= 1
    requires forall i :: 0 <= i < |rules| ==>
      rules[i] != [] && Trim(rules[i]) == rules[i] && '}' !in rules[i] && '\n' !in rules[i]
    ensures Trim(RemoveNewlines(Join(rules, '}') + "}")) == Join(rules, '}') + "}"
  {
    JoinedClean(rules);
    CleanClosed(Join(rules, '}'));
  }

  /** Trimmed pieces without newlines join into a text without newlines that starts with no white. */
  lemma JoinedClean(rules: seq<string>)
    requires |rules| >= 1
    requires forall i :: 0 <= i < |rules| ==>
      rules[i] != [] && Trim(rules[i]) == rules[i] && '}' !in rules[i] && '\n' !in rules[i]
    ensures var joined := Join(rules, '}');
      joined != [] && '\n' !in joined && !IsWhite(joined[0])
  {
    SplitJoinNoNewline(rules, '}');
    JoinStarts(rules, '}');
    TrimmedStart(rules[0]);
  }

  lemma TrimmedStart(s: string)
    requires s != [] && Trim(s) == s
    ensures !IsWhite(s[0])
  {
  }

  /** A text without newlines that starts with no white, closed by `}`, comes through both clean-ups unchanged. */
  lemma CleanClosed(joined: string)
    requires joined != [] && '\n' !in joined && !IsWhite(joined[0])
    ensures Trim(RemoveNewlines(joined + "}")) == joined + "}"
  {
    var text := joined + "}";
    assert text[0] == joined[0] && text[|text| - 1] == '}';
    assert forall c :: c in text ==> c in joined || c == '}';
    RemoveNewlinesNone(text);
    TrimmedEnds(text);
  }

  /** Joined pieces without newlines hold no newline. */
  lemma {:induction false} SplitJoinNoNewline(parts: seq<string>, sep: char)
    requires sep != '\n' && forall i :: 0 <= i < |parts| ==> '\n' !in parts[i]
    ensures '\n' !in Join(parts, sep)
    decreases |parts|
  {
    if |parts| > 1 {
      SplitJoinNoNewline(parts[1..], sep);
    }
  }

  /** A join starts with its first piece. */
  lemma {:induction false} JoinStarts(parts: seq<string>, sep: char)
    requires parts != [] && parts[0] != []
    ensures |Join(parts, sep)| >= 1 && Join(parts, sep)[0] == parts[0][0]
  {
  }
}
