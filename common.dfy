// common.ts: the small pure helpers of the popup and the removal of a URL
// from the history log.

module Common {
  import opened Wrappers
  import opened Types
  import opened Seqs
  import opened VScroll

  // ---------------------------------------------------------------------------
  // `decode`
  // ---------------------------------------------------------------------------

  /** One argument after the test value: a `[key, value]` pair, or a bare default. */
  datatype Tester<K, V> = Pair(key: K, value: V) | Default(value: V)

  /** The tester that decides the scan for `v`: a default, or a pair keyed by `v`. */
  predicate Decides<K(==), V>(t: Tester<K, V>, v: K)
  {
    t.Default? || t.key == v
  }

  /**
   * `decode`: the value of the first tester that is a default or whose key is
   * strictly equal to the test value; none (`undefined`) when there is none.
   */
  method Decode<K(==), V>(testValue: K, testers: seq<Tester<K, V>>) returns (result: Option<V>)
    ensures result.None? <==> forall i :: 0 <= i < |testers| ==> !Decides(testers[i], testValue)
    ensures result.Some? ==>
      exists i :: (0 <= i < |testers| && Decides(testers[i], testValue)
        && result.value == testers[i].value
        && forall j :: 0 <= j < i ==> !Decides(testers[j], testValue))
  {
    result := None;
    var i := 0;
    while i < |testers|
      invariant 0 <= i <= |testers|
      invariant result.None?
      invariant forall j :: 0 <= j < i ==> !Decides(testers[j], testValue)
    {
      var tester := testers[i];
      if tester.Default? {
        result := Some(tester.value);
        return;
      }
      if testValue == tester.key {
        result := Some(tester.value);
        return;
      }
      i := i + 1;
    }
  }

  // ---------------------------------------------------------------------------
  // `htmlEscape`
  // ---------------------------------------------------------------------------

  /** The replacement `escapes` holds for one character. */
  function Escape(c: char): string
  {
    match c
    case '&' => "&amp;"
    case '"' => "&quot;"
    case '<' => "&lt;"
    case '>' => "&gt;"
    case _ => [c]
  }

  /** `text.replace(/[&"<>]/g, ...)`: no raw quote or angle bracket remains. */
  function HtmlEscape(text: string): (r: string)
    ensures '"' !in r && '<' !in r && '>' !in r
    ensures |r| >= |text|
  {
    if text == [] then [] else EscapeSafe(text[0]); Escape(text[0]) + HtmlEscape(text[1..])
  }

  /** One escaped character holds no raw quote or angle bracket, and is not empty. */
  lemma EscapeSafe(c: char)
    ensures '"' !in Escape(c) && '<' !in Escape(c) && '>' !in Escape(c) && |Escape(c)| >= 1
  {
  }

  /** The reading a browser gives the four entities (the inverse of `HtmlEscape`). */
  function Unescape(s: string): string
  {
    if s == [] then []
    else if |s| >= 5 && s[..5] == "&amp;" then "&" + Unescape(s[5..])
    else if |s| >= 6 && s[..6] == "&quot;" then "\"" + Unescape(s[6..])
    else if |s| >= 4 && s[..4] == "&lt;" then "<" + Unescape(s[4..])
    else if |s| >= 4 && s[..4] == "&gt;" then ">" + Unescape(s[4..])
    else [s[0]] + Unescape(s[1..])
  }

  /** Escaping loses nothing: every character comes back, the four special ones included. */
  lemma {:induction false} UnescapeHtmlEscape(text: string)
    ensures Unescape(HtmlEscape(text)) == text
  {
    if text != [] {
      UnescapeHtmlEscape(text[1..]);
      UnescapeEscape(text[0], HtmlEscape(text[1..]));
      assert text == [text[0]] + text[1..];
    }
  }

  /** Reading back one escaped character leaves what follows it to be read in turn. */
  lemma UnescapeEscape(c: char, rest: string)
    ensures Unescape(Escape(c) + rest) == [c] + Unescape(rest)
  {
    var out := Escape(c) + rest;
    assert out[|Escape(c)|..] == rest;
    if c == '&' {
      assert out[..5] == "&amp;";
    } else if c == '"' {
      assert out[..6] == "&quot;";
      assert out[..5] != "&amp;" by { assert out[1] == 'q'; }
    } else if c == '<' {
      UnescapeLt(out, rest);
    } else if c == '>' {
      UnescapeGt(out, rest);
    } else {
      UnescapePlain(c, rest);
    }
  }

  lemma UnescapeLt(out: string, rest: string)
    requires out == "&lt;" + rest
    ensures Unescape(out) == "<" + Unescape(rest)
  {
    assert out[..4] == "&lt;" && out[4..] == rest;
    assert |out| >= 5 ==> out[..5] != "&amp;" by { assert out[1] == 'l'; }
    assert |out| >= 6 ==> out[..6] != "&quot;" by { assert out[1] == 'l'; }
  }

  lemma UnescapeGt(out: string, rest: string)
    requires out == "&gt;" + rest
    ensures Unescape(out) == ">" + Unescape(rest)
  {
    assert out[..4] == "&gt;" && out[4..] == rest;
    assert |out| >= 5 ==> out[..5] != "&amp;" by { assert out[1] == 'g'; }
    assert |out| >= 6 ==> out[..6] != "&quot;" by { assert out[1] == 'g'; }
    assert out[..4] != "&lt;" by { assert out[1] == 'g'; }
  }

  lemma UnescapePlain(c: char, rest: string)
    requires c != '&' && c != '"' && c != '<' && c != '>'
    ensures Unescape([c] + rest) == [c] + Unescape(rest)
  {
    var out := [c] + rest;
    assert out[1..] == rest;
    assert |out| >= 5 ==> out[..5] != "&amp;" by {
      if |out| >= 5 { assert out[..5][0] == c; }
    }
    assert |out| >= 6 ==> out[..6] != "&quot;" by {
      if |out| >= 6 { assert out[..6][0] == c; }
    }
    assert |out| >= 4 ==> out[..4] != "&lt;" && out[..4] != "&gt;" by {
      if |out| >= 4 { assert out[..4][0] == c; }
    }
  }

  // ---------------------------------------------------------------------------
  // `camelToSnake`
  // ---------------------------------------------------------------------------

  predicate IsUpper(c: char)
  {
    'A' <= c <= 'Z'
  }

  /** `toLowerCase` on one character, for the ASCII letters `A`-`Z` only. */
  function Lower(c: char): (l: char)
    ensures IsUpper(c) ==> l != c && !IsUpper(l) && 'a' <= l <= 'z' && Upper(l) == c
    ensures !IsUpper(c) ==> l == c
  {
    if IsUpper(c) then (c as int + 32) as char else c
  }

  function Upper(c: char): char
  {
    if 'a' <= c <= 'z' then (c as int - 32) as char else c
  }

  /** Each character that lower-casing changes becomes `-` and its lower-case form. */
  function CamelToSnake(value: string): (r: string)
    ensures forall c :: c in r ==> !IsUpper(c)
    ensures |r| >= |value|
  {
    if value == [] then []
    else
      var s := value[0];
      var small := Lower(s);
      (if s == small then [s] else ['-', small]) + CamelToSnake(value[1..])
  }

  /** The reverse mapping: `-` and a letter become that letter in upper case. */
  function SnakeToCamel(s: string): string
  {
    if s == [] then []
    else if s[0] == '-' && |s| >= 2 then [Upper(s[1])] + SnakeToCamel(s[2..])
    else [s[0]] + SnakeToCamel(s[1..])
  }

  /** Without hyphens in the input, `camelToSnake` is undone by `SnakeToCamel`. */
  lemma {:induction false} SnakeToCamelRoundTrip(value: string)
    requires '-' !in value
    ensures SnakeToCamel(CamelToSnake(value)) == value
  {
    if value != [] {
      var s := value[0];
      var rest := CamelToSnake(value[1..]);
      assert value == [s] + value[1..];
      SnakeToCamelRoundTrip(value[1..]);
      if s == Lower(s) {
        assert CamelToSnake(value) == [s] + rest;
        assert ([s] + rest)[1..] == rest;
      } else {
        assert CamelToSnake(value) == ['-', Lower(s)] + rest;
        assert (['-', Lower(s)] + rest)[2..] == rest;
        assert Upper(Lower(s)) == s;
      }
    }
  }

  /**
   * `camelToSnake` works character by character: an upper-case letter becomes
   * `-` and its lower-case letter, every other character stays, and the
   * pieces are concatenated in order.
   */
  lemma CamelToSnakeAppend(a: string, b: string)
    ensures CamelToSnake(a + b) == CamelToSnake(a) + CamelToSnake(b)
    ensures |a| == 1 ==> CamelToSnake(a) == if IsUpper(a[0]) then ['-', Lower(a[0])] else a
  {
    CamelToSnakeConcat(a, b);
    if |a| == 1 {
      assert a == [a[0]];
      CamelToSnakeOne(a[0]);
    }
  }

  lemma {:induction false} CamelToSnakeConcat(a: string, b: string)
    ensures CamelToSnake(a + b) == CamelToSnake(a) + CamelToSnake(b)
    decreases |a|
  {
    if a != [] {
      var c, rest := a[0], a[1..];
      assert a == [c] + rest;
      assert a + b == [c] + (rest + b);
      CamelToSnakeConcat(rest, b);
      CamelToSnakeCons(c, rest);
      CamelToSnakeCons(c, rest + b);
      ConcatAssoc(if c == Lower(c) then [c] else ['-', Lower(c)], CamelToSnake(rest), CamelToSnake(b));
    } else {
      assert a + b == b;
    }
  }

  /** One character in front converts on its own. */
  lemma CamelToSnakeCons(c: char, s: string)
    ensures CamelToSnake([c] + s) == (if c == Lower(c) then [c] else ['-', Lower(c)]) + CamelToSnake(s)
  {
    assert ([c] + s)[0] == c && ([c] + s)[1..] == s;
  }

  lemma CamelToSnakeOne(c: char)
    ensures CamelToSnake([c]) == if IsUpper(c) then ['-', Lower(c)] else [c]
  {
    assert [c][1..] == [];
  }

  // ---------------------------------------------------------------------------
  // `getChromeId`
  // ---------------------------------------------------------------------------

  predicate IsDigit(c: char)
  {
    '0' <= c <= '9'
  }

  /** The length of the run of digits at the start of `s`. */
  function DigitRun(s: string): (n: nat)
    ensures n <= |s|
    ensures forall i :: 0 <= i < n ==> IsDigit(s[i])
    ensures n < |s| ==> !IsDigit(s[n])
  {
    if s == [] || !IsDigit(s[0]) then 0 else 1 + DigitRun(s[1..])
  }

  /** The value of a decimal numeral. */
  function DigitsValue(s: string): nat
    requires forall c :: c in s ==> IsDigit(c)
  {
    if s == [] then 0
    else
      assert s[|s| - 1] in s;
      assert IsDigit(s[|s| - 1]);
      DigitsValue(s[..|s| - 1]) * 10 + (s[|s| - 1] as int - '0' as int)
  }

  /** The index where the first digit stands, or `|s|`. */
  function FirstDigit(s: string): (i: nat)
    ensures i <= |s|
    ensures forall k :: 0 <= k < i ==> !IsDigit(s[k])
    ensures i < |s| ==> IsDigit(s[i])
  {
    if s == [] || IsDigit(s[0]) then 0 else 1 + FirstDigit(s[1..])
  }

  /** `Number(/\d+/.exec(preId))`: the first run of digits, `NaN` (none) without one. */
  function GetChromeId(preId: string): (id: Option<nat>)
    ensures id.None? <==> forall c :: c in preId ==> !IsDigit(c)
  {
    var i := FirstDigit(preId);
    if i == |preId| then None
    else
      var run := preId[i..][..DigitRun(preId[i..])];
      assert forall c :: c in run ==> IsDigit(c);
      Some(DigitsValue(run))
  }

  /** The decimal numeral of `n`, without leading zeros (`"0"` for zero). */
  function Numeral(n: nat): (s: string)
    ensures |s| > 0 && forall c :: c in s ==> IsDigit(c)
    ensures DigitsValue(s) == n
  {
    if n < 10 then [('0' as int + n) as char]
    else
      var p := Numeral(n / 10);
      var s := p + [('0' as int + n % 10) as char];
      assert s[..|s| - 1] == p;
      s
  }

  /** An id written between two digit-free parts is read back. */
  lemma GetChromeIdRoundTrip(prefix: string, n: nat, suffix: string)
    requires forall c :: c in prefix ==> !IsDigit(c)
    requires |suffix| > 0 ==> !IsDigit(suffix[0])
    ensures GetChromeId(prefix + Numeral(n) + suffix) == Some(n)
  {
    var s := prefix + Numeral(n) + suffix;
    var num := Numeral(n);
    FirstDigitSkips(prefix, num + suffix);
    assert s == prefix + (num + suffix);
    assert s[|prefix|..] == num + suffix;
    DigitRunStops(num, suffix);
    assert (num + suffix)[..|num|] == num;
  }

  lemma {:induction false} FirstDigitSkips(prefix: string, rest: string)
    requires forall c :: c in prefix ==> !IsDigit(c)
    requires |rest| > 0 && IsDigit(rest[0])
    ensures FirstDigit(prefix + rest) == |prefix|
  {
    if prefix != [] {
      assert (prefix + rest)[1..] == prefix[1..] + rest;
      assert prefix[0] in prefix;
      FirstDigitSkips(prefix[1..], rest);
    }
  }

  lemma {:induction false} DigitRunStops(num: string, suffix: string)
    requires forall c :: c in num ==> IsDigit(c)
    requires |suffix| > 0 ==> !IsDigit(suffix[0])
    ensures DigitRun(num + suffix) == |num|
  {
    if num != [] {
      assert (num + suffix)[1..] == num[1..] + suffix;
      assert num[0] in num;
      DigitRunStops(num[1..], suffix);
    }
  }

  // ---------------------------------------------------------------------------
  // `extractDomain`
  // ---------------------------------------------------------------------------

  /** `[\w-]` */
  predicate IsSchemeChar(c: char)
  {
    'a' <= c <= 'z' || 'A' <= c <= 'Z' || '0' <= c <= '9' || c == '_' || c == '-'
  }

  /** The length of the run of `[\w-]` at the start of `s`. */
  function SchemeRun(s: string): (n: nat)
    ensures n <= |s|
    ensures forall i :: 0 <= i < n ==> IsSchemeChar(s[i])
    ensures n < |s| ==> !IsSchemeChar(s[n])
  {
    if s == [] || !IsSchemeChar(s[0]) then 0 else 1 + SchemeRun(s[1..])
  }

  /** The index of the first `/` in `s`, or `|s|`. */
  function SlashAt(s: string): (i: nat)
    ensures i <= |s| && '/' !in s[..i]
    ensures i < |s| ==> s[i] == '/'
  {
    if s == [] || s[0] == '/' then 0 else 1 + SlashAt(s[1..])
  }

  /**
   * `/^([\w-]+?:\/\/)([\s\S]+?)(\/|$)/`: the scheme with its `://`, and the
   * shortest non-empty run after it that ends before a `/` or at the end;
   * `["", ""]` when the pattern does not match.
   */
  function ExtractDomain(url: string): (r: (string, string))
    ensures r.0 == "" <==> r.1 == ""
    ensures r.0 != "" ==> (|r.0| > 3 && r.0[|r.0| - 3..] == "://"
      && forall i :: 0 <= i < |r.0| - 3 ==> IsSchemeChar(r.0[i]))
    ensures r.0 != "" ==> (|r.0 + r.1| <= |url| && url[..|r.0 + r.1|] == r.0 + r.1
      && '/' !in r.1[1..]
      && (|r.0 + r.1| < |url| ==> url[|r.0 + r.1|] == '/'))
  {
    var n := SchemeRun(url);
    if n >= 1 && n + 3 < |url| && url[n..n + 3] == "://" then
      var rest := url[n + 3..];
      var k := 1 + SlashAt(rest[1..]);
      assert rest[1..][..k - 1] == rest[1..k];
      assert url[..n + 3 + k] == url[..n + 3] + rest[..k];
      (url[..n + 3], rest[..k])
    else ("", "")
  }

  /** A URL written as scheme, `://`, a slash-free host and a path yields that scheme and host. */
  lemma ExtractDomainRoundTrip(scheme: string, host: string, path: string)
    requires |scheme| > 0 && forall c :: c in scheme ==> IsSchemeChar(c)
    requires |host| > 0 && '/' !in host
    ensures ExtractDomain(scheme + "://" + host + "/" + path) == (scheme + "://", host)
  {
    var url := scheme + "://" + host + "/" + path;
    UrlPieces(scheme, host, path, url);
    SchemeRunStops(scheme, "://" + host + "/" + path);
    HostStops(host, path);
  }

  /** A URL with no path after the host (`$` ends the match) yields its scheme and the whole host. */
  lemma ExtractDomainBareHost(scheme: string, host: string)
    requires |scheme| > 0 && forall c :: c in scheme ==> IsSchemeChar(c)
    requires |host| > 0 && '/' !in host
    ensures ExtractDomain(scheme + "://" + host) == (scheme + "://", host)
  {
    var url := scheme + "://" + host;
    BareUrlPieces(scheme, host, url);
    SchemeRunStops(scheme, "://" + host);
    HostWhole(host);
  }

  /** Where the pieces of a composed url without a path sit. */
  lemma BareUrlPieces(scheme: string, host: string, url: string)
    requires |host| > 0 && url == scheme + "://" + host
    ensures url == scheme + ("://" + host)
    ensures |scheme| + 3 < |url|
    ensures url[|scheme|..|scheme| + 3] == "://" && url[..|scheme| + 3] == scheme + "://"
    ensures url[|scheme| + 3..] == host
  {
  }

  /** With no `/` in it, the host runs to the end. */
  lemma HostWhole(host: string)
    requires |host| > 0 && '/' !in host
    ensures 1 + SlashAt(host[1..]) == |host| && host[..|host|] == host
  {
    assert forall c :: c in host[1..] ==> c in host;
    SlashAtNone(host[1..]);
  }

  /** Where the pieces of a composed url sit. */
  lemma UrlPieces(scheme: string, host: string, path: string, url: string)
    requires url == scheme + "://" + host + "/" + path
    ensures url == scheme + ("://" + host + "/" + path)
    ensures |scheme| + 3 < |url + "/"|
    ensures url[|scheme|..|scheme| + 3] == "://" && url[..|scheme| + 3] == scheme + "://"
    ensures url[|scheme| + 3..] == host + "/" + path
  {
  }

  /** The host ends at the first `/` after its first character. */
  lemma HostStops(host: string, path: string)
    requires |host| > 0 && '/' !in host
    ensures 1 + SlashAt((host + "/" + path)[1..]) == |host|
    ensures (host + "/" + path)[..|host|] == host
  {
    var rest := host + "/" + path;
    assert rest[1..] == host[1..] + "/" + path;
    assert host == [host[0]] + host[1..];
    SlashAtStops(host[1..], path);
  }

  lemma {:induction false} SchemeRunStops(scheme: string, rest: string)
    requires forall c :: c in scheme ==> IsSchemeChar(c)
    requires |rest| > 0 && !IsSchemeChar(rest[0])
    ensures SchemeRun(scheme + rest) == |scheme|
  {
    if scheme != [] {
      assert (scheme + rest)[1..] == scheme[1..] + rest;
      assert scheme[0] in scheme;
      SchemeRunStops(scheme[1..], rest);
    }
  }

  lemma {:induction false} SlashAtNone(s: string)
    requires '/' !in s
    ensures SlashAt(s) == |s|
  {
    if s != [] {
      assert s[0] in s;
      SlashAtNone(s[1..]);
    }
  }

  lemma {:induction false} SlashAtStops(s: string, path: string)
    requires '/' !in s
    ensures SlashAt(s + "/" + path) == |s|
  {
    if s != [] {
      assert (s + "/" + path)[1..] == s[1..] + "/" + path;
      assert s[0] in s;
      SlashAtStops(s[1..], path);
    }
  }

  // ---------------------------------------------------------------------------
  // `removeUrlHistory`
  // ---------------------------------------------------------------------------

  /** The `findIndex` test: same url, or same visit time (a header has no url). */
  predicate Matches(x: HistoryItem, url: string, lastVisitTime: int)
  {
    (x.Entry? && x.url == url) || x.lastVisitTime == lastVisitTime
  }

  /** The first matching index, or -1. */
  function FindMatch(s: seq<HistoryItem>, url: string, lastVisitTime: int): (i: int)
    ensures -1 <= i < |s|
    ensures i == -1 <==> forall k :: 0 <= k < |s| ==> !Matches(s[k], url, lastVisitTime)
    ensures 0 <= i ==> Matches(s[i], url, lastVisitTime)
    ensures forall k :: 0 <= k < i ==> !Matches(s[k], url, lastVisitTime)
  {
    if s == [] then -1
    else if Matches(s[0], url, lastVisitTime) then 0
    else
      var j := FindMatch(s[1..], url, lastVisitTime);
      if j == -1 then -1 else j + 1
  }

  /** `k` is the first match after position `f`. */
  predicate IsNextMatch(histories: seq<HistoryItem>, f: int, k: int, url: string, lastVisitTime: int)
  {
    0 <= f < k < |histories| && Matches(histories[k], url, lastVisitTime)
    && forall j :: f < j < k ==> !Matches(histories[j], url, lastVisitTime)
  }

  /**
   * Searching the rest of the log after `f` finds the first match after `f`,
   * and finds nothing exactly when there is none.
   */
  lemma NextMatchFound(histories: seq<HistoryItem>, f: nat, url: string, lastVisitTime: int)
    requires f < |histories|
    ensures var f2 := FindMatch(histories[f + 1..], url, lastVisitTime);
      && (f2 >= 0 ==> f + 1 + f2 < |histories| && Matches(histories[f + 1 + f2], url, lastVisitTime))
      && forall k :: f < k < |histories| ==>
           (IsNextMatch(histories, f, k, url, lastVisitTime) <==> f2 >= 0 && k == f + 1 + f2)
  {
    var t := histories[f + 1..];
    var f2 := FindMatch(t, url, lastVisitTime);
    forall k | f < k < |histories|
      ensures IsNextMatch(histories, f, k, url, lastVisitTime) <==> f2 >= 0 && k == f + 1 + f2
    {
      assert t[k - f - 1] == histories[k];
      if f2 >= 0 {
        assert t[f2] == histories[f + 1 + f2];
        if k == f + 1 + f2 {
          forall j | f < j < k
            ensures !Matches(histories[j], url, lastVisitTime)
          {
            assert t[j - f - 1] == histories[j];
          }
        }
      } else {
        assert !Matches(t[k - f - 1], url, lastVisitTime);
      }
    }
  }

  /**
   * `removeUrlHistory(url, lastVisitTime)` as written: remove the first match
   * and the next match after it; when the first match sits between a header
   * and a header (or the end), remove that header too. The second fix-up
   * returns the same sequence as the fall-through.
   */
  function RemoveUrlHistory(histories: seq<HistoryItem>, url: string, lastVisitTime: int)
    : seq<HistoryItem>
  {
    var f := FindMatch(histories, url, lastVisitTime);
    if f == -1 then histories
    else Splice(histories, f, FindMatch(histories[f + 1..], url, lastVisitTime))
  }

  /** Whether the first fix-up fires: a header before the match, and a header or the end after it. */
  predicate HeaderOrphaned(histories: seq<HistoryItem>, f: nat)
    requires f < |histories|
  {
    f >= 1 && histories[f - 1].Header? && (f + 1 >= |histories| || histories[f + 1].Header?)
  }

  /** The rest of `removeUrlHistory`, given the first match `f` and the next one `f2` after it. */
  function Splice(histories: seq<HistoryItem>, f: nat, f2: int): seq<HistoryItem>
    requires f < |histories| && -1 <= f2 < |histories| - f - 1
  {
    var t := histories[f + 1..];
    var tails := if f2 >= 0 then t[..f2] + t[f2 + 1..] else t;
    if HeaderOrphaned(histories, f) then
      histories[..f - 1] + tails
    else if f2 >= 1 && tails[f2 - 1].Header? && (f2 >= |tails| || tails[f2].Header?) then
      histories[..f] + tails[..f2] + tails[f2..]
    else
      histories[..f] + tails
  }

  /** The positions `Splice` takes out. */
  function SplicedPositions(histories: seq<HistoryItem>, f: nat, f2: int): set<int>
    requires f < |histories|
  {
    {f} + (if f2 >= 0 then {f + 1 + f2} else {}) + (if HeaderOrphaned(histories, f) then {f - 1} else {})
  }

  lemma SpliceErases(h: seq<HistoryItem>, f: nat, f2: int)
    requires f < |h| && -1 <= f2 < |h| - f - 1
    ensures Splice(h, f, f2) == Erase(h, SplicedPositions(h, f, f2), 0)
  {
    var p := SplicedPositions(h, f, f2);
    SpliceShape(h, f, f2);
    EraseAround(h, p, f);
    FrontErased(h, f, f2);
    TailErased(h, f, f2);
  }

  /** The second fix-up and the fall-through build the same sequence. */
  lemma SpliceShape(h: seq<HistoryItem>, f: nat, f2: int)
    requires f < |h| && -1 <= f2 < |h| - f - 1
    ensures var t := h[f + 1..];
      var tails := if f2 >= 0 then t[..f2] + t[f2 + 1..] else t;
      Splice(h, f, f2) == (if HeaderOrphaned(h, f) then h[..f - 1] else h[..f]) + tails
  {
    var t := h[f + 1..];
    var tails := if f2 >= 0 then t[..f2] + t[f2 + 1..] else t;
    if !HeaderOrphaned(h, f) && f2 >= 1 && tails[f2 - 1].Header? && (f2 >= |tails| || tails[f2].Header?) {
      assert tails[..f2] + tails[f2..] == tails;
    }
  }

  lemma FrontErased(h: seq<HistoryItem>, f: nat, f2: int)
    requires f < |h| && -1 <= f2 < |h| - f - 1
    ensures Erase(h[..f], SplicedPositions(h, f, f2), 0) == if HeaderOrphaned(h, f) then h[..f - 1] else h[..f]
  {
    var p := SplicedPositions(h, f, f2);
    var fix1 := HeaderOrphaned(h, f);
    assert forall k :: k in p && 0 <= k < |h[..f]| ==> fix1 && k == |h[..f]| - 1;
    EraseHead(h[..f], p, fix1);
    if fix1 {
      assert h[..f][..f - 1] == h[..f - 1];
    }
  }

  lemma TailErased(h: seq<HistoryItem>, f: nat, f2: int)
    requires f < |h| && -1 <= f2 < |h| - f - 1
    ensures var t := h[f + 1..];
      Erase(t, SplicedPositions(h, f, f2), f + 1) == if f2 >= 0 then t[..f2] + t[f2 + 1..] else t
  {
    var p := SplicedPositions(h, f, f2);
    var t := h[f + 1..];
    assert forall k :: k in p && f + 1 <= k < f + 1 + |t| ==> k == f + 1 + f2;
    EraseTail(t, p, f + 1, f2);
  }

  lemma EraseAround(h: seq<HistoryItem>, p: set<int>, f: nat)
    requires f < |h| && f in p
    ensures Erase(h, p, 0) == Erase(h[..f], p, 0) + Erase(h[f + 1..], p, f + 1)
  {
    EraseSplit(h, p, 0, f);
  }

  /** `s`, whose first element stands at position `off`, without the positions in `p`. */
  function Erase(s: seq<HistoryItem>, p: set<int>, off: int): seq<HistoryItem>
  {
    if s == [] then []
    else (if off in p then [] else [s[0]]) + Erase(s[1..], p, off + 1)
  }

  lemma {:induction false} EraseAppend(a: seq<HistoryItem>, b: seq<HistoryItem>, p: set<int>, off: int)
    ensures Erase(a + b, p, off) == Erase(a, p, off) + Erase(b, p, off + |a|)
  {
    if a != [] {
      assert (a + b)[1..] == a[1..] + b;
      assert (a + b)[0] == a[0];
      EraseAppend(a[1..], b, p, off + 1);
      var x := if off in p then [] else [a[0]];
      calc {
        Erase(a + b, p, off);
        x + Erase(a[1..] + b, p, off + 1);
        x + (Erase(a[1..], p, off + 1) + Erase(b, p, off + 1 + |a[1..]|));
        (x + Erase(a[1..], p, off + 1)) + Erase(b, p, off + |a|);
      }
    } else {
      assert a + b == b;
    }
  }

  lemma {:induction false} EraseNone(s: seq<HistoryItem>, p: set<int>, off: int)
    requires forall k :: k in p ==> !(off <= k < off + |s|)
    ensures Erase(s, p, off) == s
  {
    if s != [] {
      EraseNone(s[1..], p, off + 1);
    }
  }

  /** Erasing around the element at index `k` of `s`. */
  lemma EraseSplit(s: seq<HistoryItem>, p: set<int>, off: int, k: nat)
    requires k < |s|
    ensures Erase(s, p, off)
      == Erase(s[..k], p, off) + (if off + k in p then [] else [s[k]]) + Erase(s[k + 1..], p, off + k + 1)
  {
    var front, back := s[..k], s[k + 1..];
    assert s == front + ([s[k]] + back);
    EraseAppend(front, [s[k]] + back, p, off);
    EraseAppend([s[k]], back, p, off + k);
    EraseOne(s[k], p, off + k);
    JoinThree(Erase(front, p, off), Erase([s[k]], p, off + k), Erase(back, p, off + k + 1));
  }

  lemma EraseOne(x: HistoryItem, p: set<int>, off: int)
    ensures Erase([x], p, off) == if off in p then [] else [x]
  {
    assert [x][1..] == [];
  }

  lemma JoinThree<T>(a: seq<T>, b: seq<T>, c: seq<T>)
    ensures a + (b + c) == a + b + c
  {
  }

  /**
   * The positions `removeUrlHistory` takes out: the first match, the next
   * match after it, and the header in front of the first match when nothing
   * but a header or the end follows that match.
   */
  function RemovedPositions(histories: seq<HistoryItem>, url: string, lastVisitTime: int): (p: set<int>)
    ensures forall k :: k in p ==> 0 <= k < |histories|
    ensures var f := FindMatch(histories, url, lastVisitTime);
      && (f == -1 <==> p == {})
      && (f >= 0 ==> f in p)
      && (forall k :: k in p && k != f ==>
           ((Matches(histories[k], url, lastVisitTime) && k > f) || (k == f - 1 && histories[k].Header?)))
      && (f >= 0 ==> forall k :: f < k < |histories| ==> (k in p <==> IsNextMatch(histories, f, k, url, lastVisitTime)))
      && (f >= 0 ==> (f - 1 in p <==> HeaderOrphaned(histories, f)))
  {
    var f := FindMatch(histories, url, lastVisitTime);
    if f == -1 then {}
    else
      var f2 := FindMatch(histories[f + 1..], url, lastVisitTime);
      SplicedPositionsNext(histories, f, url, lastVisitTime);
      SplicedPositionsMatch(histories, f, f2, url, lastVisitTime);
      SplicedPositions(histories, f, f2)
  }

  /** After the first match, exactly the next match is spliced out; before it, exactly an orphaned header. */
  lemma SplicedPositionsNext(h: seq<HistoryItem>, f: nat, url: string, lastVisitTime: int)
    requires f < |h|
    ensures var p := SplicedPositions(h, f, FindMatch(h[f + 1..], url, lastVisitTime));
      && (forall k :: f < k < |h| ==> (k in p <==> IsNextMatch(h, f, k, url, lastVisitTime)))
      && (f - 1 in p <==> HeaderOrphaned(h, f))
  {
    NextMatchFound(h, f, url, lastVisitTime);
  }

  /** Every spliced position is the first match, a later match, or the header just before the first. */
  lemma SplicedPositionsMatch(h: seq<HistoryItem>, f: nat, f2: int, url: string, lastVisitTime: int)
    requires f < |h| && -1 <= f2 < |h| - f - 1
    requires f2 >= 0 ==> Matches(h[f + 1 + f2], url, lastVisitTime)
    ensures var p := SplicedPositions(h, f, f2);
      && f in p
      && (forall k :: k in p ==> 0 <= k < |h|)
      && forall k :: k in p && k != f ==>
           ((Matches(h[k], url, lastVisitTime) && k > f) || (k == f - 1 && h[k].Header?))
  {
  }

  /** `removeUrlHistory` keeps every other item, in order. */
  lemma RemoveUrlHistoryErases(histories: seq<HistoryItem>, url: string, lastVisitTime: int)
    ensures RemoveUrlHistory(histories, url, lastVisitTime)
      == Erase(histories, RemovedPositions(histories, url, lastVisitTime), 0)
  {
    var f := FindMatch(histories, url, lastVisitTime);
    if f == -1 {
      EraseNone(histories, {}, 0);
    } else {
      SpliceErases(histories, f, FindMatch(histories[f + 1..], url, lastVisitTime));
    }
  }

  /** Erasing from the part after the first match leaves out just the second match. */
  lemma EraseTail(t: seq<HistoryItem>, p: set<int>, off: int, f2: int)
    requires -1 <= f2 < |t|
    requires forall k :: k in p && off <= k < off + |t| ==> k == off + f2
    requires f2 >= 0 ==> off + f2 in p
    ensures Erase(t, p, off) == if f2 >= 0 then t[..f2] + t[f2 + 1..] else t
  {
    if f2 >= 0 {
      EraseOnly(t, p, off, f2);
    } else {
      EraseNone(t, p, off);
    }
  }

  /** Erasing exactly one position of `t` takes out just that element. */
  lemma {:induction false} EraseOnly(t: seq<HistoryItem>, p: set<int>, off: int, f2: nat)
    requires f2 < |t| && off + f2 in p
    requires forall k :: k in p && off <= k < off + |t| ==> k == off + f2
    ensures Erase(t, p, off) == t[..f2] + t[f2 + 1..]
    decreases f2
  {
    if f2 == 0 {
      EraseNone(t[1..], p, off + 1);
      assert t[..0] + t[1..] == t[1..];
    } else {
      EraseOnly(t[1..], p, off + 1, f2 - 1);
      var u := t[1..];
      assert u[..f2 - 1] + u[f2..] == t[1..f2] + t[f2 + 1..];
      assert [t[0]] + (t[1..f2] + t[f2 + 1..]) == t[..f2] + t[f2 + 1..];
    }
  }

  /** Erasing from the part before the first match leaves out at most the header just before it. */
  lemma EraseHead(front: seq<HistoryItem>, p: set<int>, fix1: bool)
    requires forall k :: k in p && 0 <= k < |front| ==> fix1 && k == |front| - 1
    requires fix1 ==> |front| >= 1 && |front| - 1 in p
    ensures Erase(front, p, 0) == if fix1 then front[..|front| - 1] else front
  {
    if fix1 {
      var k := |front| - 1;
      EraseSplit(front, p, 0, k);
      EraseNone(front[..k], p, 0);
      assert front[k + 1..] == [];
    } else {
      EraseNone(front, p, 0);
    }
  }

  /** Every header is directly followed by an entry. */
  ghost predicate NoOrphan(r: seq<HistoryItem>)
  {
    forall i {:trigger r[i]} :: 0 <= i < |r| && r[i].Header? ==> i + 1 < |r| && r[i + 1].Entry?
  }

  /**
   * As written, removing the second match can leave the header in front of it
   * with nothing under it: the second fix-up detects that case but returns the
   * same sequence as the fall-through.
   */
  lemma RemoveUrlHistoryKeepsOrphan()
    ensures var u := "https://a.example/";
      var h := [Entry("1", u, "", 1, NoSession), Header(2), Entry("2", u, "", 2, NoSession)];
      && NoOrphan(h)
      && RemoveUrlHistory(h, u, -1) == [Header(2)]
      && !NoOrphan(RemoveUrlHistory(h, u, -1))
  {
    var u := "https://a.example/";
    var h := [Entry("1", u, "", 1, NoSession), Header(2), Entry("2", u, "", 2, NoSession)];
    forall i | 0 <= i < |h| && h[i].Header?
      ensures i + 1 < |h| && h[i + 1].Entry?
    {
      assert i == 1;
    }
    KeepsOrphanRemoval(h, u);
    LoneHeaderOrphan(2);
  }

  lemma KeepsOrphanRemoval(h: seq<HistoryItem>, u: string)
    requires u == "https://a.example/"
    requires h == [Entry("1", u, "", 1, NoSession), Header(2), Entry("2", u, "", 2, NoSession)]
    ensures RemoveUrlHistory(h, u, -1) == [Header(2)]
  {
    assert FindMatch(h, u, -1) == 0;
    assert h[1..][1..] == [h[2]];
    assert FindMatch(h[1..], u, -1) == 1;
  }

  /** A header alone is an orphan. */
  lemma LoneHeaderOrphan(d: int)
    ensures !NoOrphan([Header(d)])
  {
    assert [Header(d)][0].Header?;
  }

  /**
   * The same on a newest-first log, the order `addHeadersHistory` builds:
   * removing a url visited on two days leaves the older day's header alone.
   */
  lemma RemoveUrlHistoryKeepsOrphanNewestFirst()
    ensures var u := "https://a.example/";
      var h := [Header(20), Entry("2", u, "", 25, NoSession), Header(10), Entry("1", u, "", 15, NoSession)];
      && NoOrphan(h)
      && RemoveUrlHistory(h, u, -1) == [Header(10)]
      && !NoOrphan(RemoveUrlHistory(h, u, -1))
  {
    var u := "https://a.example/";
    var h := [Header(20), Entry("2", u, "", 25, NoSession), Header(10), Entry("1", u, "", 15, NoSession)];
    forall i | 0 <= i < |h| && h[i].Header?
      ensures i + 1 < |h| && h[i + 1].Entry?
    {
      assert i == 0 || i == 2;
    }
    NewestFirstRemoval(h, u);
    LoneHeaderOrphan(10);
  }

  lemma NewestFirstRemoval(h: seq<HistoryItem>, u: string)
    requires u == "https://a.example/"
    requires h == [Header(20), Entry("2", u, "", 25, NoSession), Header(10), Entry("1", u, "", 15, NoSession)]
    ensures RemoveUrlHistory(h, u, -1) == [Header(10)]
  {
    assert FindMatch(h, u, -1) == 1;
    var t := h[2..];
    assert t[1..] == [h[3]];
    assert FindMatch(t, u, -1) == 1;
    assert HeaderOrphaned(h, 1);
    assert t[..1] + t[2..] == [Header(10)];
  }

  /** The same with both visits under one header: the header is left alone. */
  lemma RemoveUrlHistoryKeepsOrphanSameDay()
    ensures var u := "https://a.example/";
      var h := [Header(10), Entry("2", u, "", 25, NoSession), Entry("1", u, "", 15, NoSession)];
      && NoOrphan(h)
      && RemoveUrlHistory(h, u, -1) == [Header(10)]
      && !NoOrphan(RemoveUrlHistory(h, u, -1))
  {
    var u := "https://a.example/";
    var h := [Header(10), Entry("2", u, "", 25, NoSession), Entry("1", u, "", 15, NoSession)];
    forall i | 0 <= i < |h| && h[i].Header?
      ensures i + 1 < |h| && h[i + 1].Entry?
    {
      assert i == 0;
    }
    SameDayRemoval(h, u);
    LoneHeaderOrphan(10);
  }

  lemma SameDayRemoval(h: seq<HistoryItem>, u: string)
    requires u == "https://a.example/"
    requires h == [Header(10), Entry("2", u, "", 25, NoSession), Entry("1", u, "", 15, NoSession)]
    ensures RemoveUrlHistory(h, u, -1) == [Header(10)]
  {
    assert FindMatch(h, u, -1) == 1;
    var t := h[2..];
    assert FindMatch(t, u, -1) == 0;
  }

  /** Drop every header that has no entry before the next header or the end. */
  function DropOrphans(s: seq<HistoryItem>): (r: seq<HistoryItem>)
    ensures |r| <= |s|
  {
    if s == [] then []
    else
      var r := DropOrphans(s[1..]);
      if s[0].Header? && (r == [] || r[0].Header?) then r else [s[0]] + r
  }

  /** The positions of the headers that no entry directly follows. */
  function Orphans(s: seq<HistoryItem>): set<int>
  {
    set i | 0 <= i < |s| && s[i].Header? && !(i + 1 < |s| && s[i + 1].Entry?)
  }

  /**
   * Dropping orphans takes out exactly the headers that no entry directly
   * follows, and every other item stays in order; a log without orphans is
   * left as it is.
   */
  lemma DropOrphansErases(s: seq<HistoryItem>)
    ensures DropOrphans(s) == Erase(s, Orphans(s), 0)
    ensures NoOrphan(s) ==> DropOrphans(s) == s
  {
    DropOrphansErase(s);
    if NoOrphan(s) {
      assert Orphans(s) == {};
      EraseNone(s, Orphans(s), 0);
    }
  }

  lemma {:induction false} DropOrphansErase(s: seq<HistoryItem>)
    ensures DropOrphans(s) == Erase(s, Orphans(s), 0)
  {
    if s != [] {
      var t := s[1..];
      DropOrphansErase(t);
      forall k | 0 <= k < |t|
        ensures k in Orphans(t) <==> k + 1 in Orphans(s)
      {
        assert t[k] == s[k + 1];
        if k + 1 < |t| {
          assert t[k + 1] == s[k + 2];
        }
      }
      EraseShift(t, Orphans(t), Orphans(s), 0, 1);
      DropOrphansStep(s);
    }
  }

  /** The first item is dropped exactly when it is an orphan. */
  lemma DropOrphansStep(s: seq<HistoryItem>)
    requires s != [] && DropOrphans(s[1..]) == Erase(s[1..], Orphans(s), 1)
    ensures DropOrphans(s) == Erase(s, Orphans(s), 0)
  {
    DropOrphansHead(s[1..]);
  }

  /** The first item left is an entry exactly when the log starts with one. */
  lemma DropOrphansHead(t: seq<HistoryItem>)
    ensures var r := DropOrphans(t);
      r != [] && r[0].Entry? <==> t != [] && t[0].Entry?
  {
  }

  /** Erasing depends only on which of the item positions are named: `q` names them shifted by `d`. */
  lemma {:induction false} EraseShift(t: seq<HistoryItem>, p: set<int>, q: set<int>, off: int, d: int)
    requires forall k :: off <= k < off + |t| ==> (k in p <==> k + d in q)
    ensures Erase(t, p, off) == Erase(t, q, off + d)
  {
    if t != [] {
      EraseShift(t[1..], p, q, off + 1, d);
    }
  }

  lemma DropOrphansSpec(s: seq<HistoryItem>)
    ensures NoOrphan(DropOrphans(s))
    ensures Entries(DropOrphans(s)) == Entries(s)
    ensures Subseq(DropOrphans(s), s)
  {
    DropOrphansNoOrphan(s);
    DropOrphansEntries(s);
    DropOrphansSubseq(s);
  }

  lemma {:induction false} DropOrphansNoOrphan(s: seq<HistoryItem>)
    ensures NoOrphan(DropOrphans(s))
  {
    if s != [] {
      var r := DropOrphans(s[1..]);
      DropOrphansNoOrphan(s[1..]);
      if !(s[0].Header? && (r == [] || r[0].Header?)) {
        var c := [s[0]] + r;
        assert DropOrphans(s) == c;
        forall i | 0 <= i < |c| && c[i].Header?
          ensures i + 1 < |c| && c[i + 1].Entry?
        {
          if i > 0 {
            assert c[i] == r[i - 1];
          }
        }
      }
    }
  }

  lemma {:induction false} DropOrphansEntries(s: seq<HistoryItem>)
    ensures Entries(DropOrphans(s)) == Entries(s)
  {
    if s != [] {
      var r := DropOrphans(s[1..]);
      DropOrphansEntries(s[1..]);
      assert s == [s[0]] + s[1..];
      EntriesAppend([s[0]], s[1..]);
      if s[0].Header? && (r == [] || r[0].Header?) {
        assert Entries([s[0]]) == Entries([]) + [];
      } else {
        EntriesAppend([s[0]], r);
      }
    }
  }

  lemma {:induction false} DropOrphansSubseq(s: seq<HistoryItem>)
    ensures Subseq(DropOrphans(s), s)
  {
    if s != [] {
      var r := DropOrphans(s[1..]);
      DropOrphansSubseq(s[1..]);
      assert s == [s[0]] + s[1..];
      if s[0].Header? && (r == [] || r[0].Header?) {
        SubseqCons(r, s[1..], s[0]);
      } else {
        SubseqPrepend(r, s[1..], s[0]);
      }
    }
  }

  lemma {:induction false} SubseqCons<T>(a: seq<T>, b: seq<T>, x: T)
    requires Subseq(a, b)
    ensures Subseq(a, [x] + b)
    decreases |a| + |b|
  {
    if a != [] && b != [] {
      var c := [x] + b;
      assert c[..|c| - 1] == [x] + b[..|b| - 1];
      if a[|a| - 1] == b[|b| - 1] && Subseq(a[..|a| - 1], b[..|b| - 1]) {
        SubseqCons(a[..|a| - 1], b[..|b| - 1], x);
      } else {
        SubseqCons(a, b[..|b| - 1], x);
      }
    }
  }

  lemma {:induction false} SubseqPrepend<T>(a: seq<T>, b: seq<T>, x: T)
    requires Subseq(a, b)
    ensures Subseq([x] + a, [x] + b)
    decreases |a| + |b|
  {
    var a' := [x] + a;
    var b' := [x] + b;
    if a == [] {
      assert a' == [x];
      SubseqNil(b, x);
    } else {
      assert b != [];
      assert a'[..|a'| - 1] == [x] + a[..|a| - 1];
      assert b'[..|b'| - 1] == [x] + b[..|b| - 1];
      if a[|a| - 1] == b[|b| - 1] && Subseq(a[..|a| - 1], b[..|b| - 1]) {
        SubseqPrepend(a[..|a| - 1], b[..|b| - 1], x);
      } else {
        SubseqPrepend(a, b[..|b| - 1], x);
      }
    }
  }

  lemma {:induction false} SubseqNil<T>(b: seq<T>, x: T)
    ensures Subseq([x], [x] + b)
    decreases |b|
  {
    if b != [] {
      assert ([x] + b)[..|b|] == [x] + b[..|b| - 1];
      SubseqNil(b[..|b| - 1], x);
    } else {
      assert Subseq([x][..0], ([x] + b)[..0]);
    }
  }

  /**
   * What the two fix-ups evidently mean: remove the first match and the next
   * match, then drop every header the removal leaves without an entry.
   */
  function RemoveUrlHistoryIntended(histories: seq<HistoryItem>, url: string, lastVisitTime: int)
    : seq<HistoryItem>
  {
    var f := FindMatch(histories, url, lastVisitTime);
    if f == -1 then histories
    else
      var f2 := FindMatch(histories[f + 1..], url, lastVisitTime);
      var second: set<int> := if f2 >= 0 then {f + 1 + f2} else {};
      DropOrphans(Erase(histories, {f} + second, 0))
  }

  /**
   * The intended removal never leaves an orphaned header in a log that had
   * none, keeps exactly the entries other than the (at most two) matches
   * removed, and keeps the log's order. Of the headers, it takes out exactly
   * those that the removal of the matches leaves without an entry directly
   * after them.
   */
  lemma RemoveUrlHistoryIntendedSpec(histories: seq<HistoryItem>, url: string, lastVisitTime: int)
    requires NoOrphan(histories)
    ensures var r := RemoveUrlHistoryIntended(histories, url, lastVisitTime);
      var f := FindMatch(histories, url, lastVisitTime);
      && NoOrphan(r)
      && (f == -1 ==> r == histories)
      && (f >= 0 ==> Entries(r) == Entries(Erase(histories, RemovedMatches(histories, url, lastVisitTime), 0)))
      && (f >= 0 ==> var e := Erase(histories, RemovedMatches(histories, url, lastVisitTime), 0);
                     r == Erase(e, Orphans(e), 0))
      && Subseq(r, histories)
  {
    var f := FindMatch(histories, url, lastVisitTime);
    if f == -1 {
      SubseqRefl(histories);
    } else {
      var e := Erase(histories, RemovedMatches(histories, url, lastVisitTime), 0);
      DropOrphansSpec(e);
      DropOrphansErases(e);
      EraseSubseq(histories, RemovedMatches(histories, url, lastVisitTime), 0);
      SubseqTrans(DropOrphans(e), e, histories);
    }
  }

  /** The first match and the next match after it. */
  function RemovedMatches(histories: seq<HistoryItem>, url: string, lastVisitTime: int): (p: set<int>)
    ensures forall k :: k in p ==> 0 <= k < |histories| && Matches(histories[k], url, lastVisitTime)
    ensures var f := FindMatch(histories, url, lastVisitTime);
      && (f == -1 <==> p == {})
      && (f >= 0 ==> f in p && forall k :: k in p ==> f <= k)
      && (f >= 0 ==> forall k :: f < k < |histories| ==> (k in p <==> IsNextMatch(histories, f, k, url, lastVisitTime)))
  {
    var f := FindMatch(histories, url, lastVisitTime);
    if f == -1 then {}
    else
      var f2 := FindMatch(histories[f + 1..], url, lastVisitTime);
      MatchedPositionsNext(histories, f, url, lastVisitTime);
      MatchedPositions(f, f2)
  }

  /** The first match `f` and, when the rest has one, the next match `f + 1 + f2`. */
  function MatchedPositions(f: nat, f2: int): set<int>
  {
    {f} + (if f2 >= 0 then {f + 1 + f2} else {})
  }

  lemma MatchedPositionsNext(h: seq<HistoryItem>, f: nat, url: string, lastVisitTime: int)
    requires f < |h| && Matches(h[f], url, lastVisitTime)
    ensures var p := MatchedPositions(f, FindMatch(h[f + 1..], url, lastVisitTime));
      && (forall k :: k in p ==> f <= k < |h| && Matches(h[k], url, lastVisitTime))
      && (forall k :: f < k < |h| ==> (k in p <==> IsNextMatch(h, f, k, url, lastVisitTime)))
  {
    NextMatchFound(h, f, url, lastVisitTime);
  }

  /** On the input that shows the finding, the intended removal leaves nothing. */
  lemma RemoveUrlHistoryIntendedDropsOrphan()
    ensures var u := "https://a.example/";
      var h := [Entry("1", u, "", 1, NoSession), Header(2), Entry("2", u, "", 2, NoSession)];
      RemoveUrlHistoryIntended(h, u, -1) == []
  {
    var u := "https://a.example/";
    var h := [Entry("1", u, "", 1, NoSession), Header(2), Entry("2", u, "", 2, NoSession)];
    assert FindMatch(h, u, -1) == 0;
    assert h[1..][1..] == [h[2]];
    assert FindMatch(h[1..], u, -1) == 1;
    var p: set<int> := {0, 2};
    assert {0} + {1 + 1} == p;
    assert Erase([], p, 3) == [];
    assert Erase(h[1..][1..], p, 2) == [];
    assert Erase(h[1..], p, 1) == [Header(2)];
    assert Erase(h, p, 0) == [Header(2)];
    assert DropOrphans([]) == [];
    assert [Header(2)][1..] == [];
    assert DropOrphans([Header(2)]) == [];
  }

  lemma {:induction false} SubseqRefl<T>(s: seq<T>)
    ensures Subseq(s, s)
    decreases |s|
  {
    if s != [] {
      SubseqRefl(s[..|s| - 1]);
    }
  }

  lemma {:induction false} EraseSubseq(s: seq<HistoryItem>, p: set<int>, off: int)
    ensures Subseq(Erase(s, p, off), s)
  {
    if s != [] {
      EraseSubseq(s[1..], p, off + 1);
      assert s == [s[0]] + s[1..];
      if off in p {
        assert Erase(s, p, off) == Erase(s[1..], p, off + 1);
        SubseqCons(Erase(s[1..], p, off + 1), s[1..], s[0]);
      } else {
        SubseqPrepend(Erase(s[1..], p, off + 1), s[1..], s[0]);
      }
    }
  }

  lemma {:induction false} SubseqTrans<T>(a: seq<T>, b: seq<T>, c: seq<T>)
    requires Subseq(a, b) && Subseq(b, c)
    ensures Subseq(a, c)
    decreases |c|
  {
    if a != [] {
      assert b != [] && c != [];
      var a', b', c' := a[..|a| - 1], b[..|b| - 1], c[..|c| - 1];
      if b[|b| - 1] == c[|c| - 1] && Subseq(b', c') {
        if a[|a| - 1] == b[|b| - 1] && Subseq(a', b') {
          SubseqTrans(a', b', c');
        } else {
          SubseqTrans(a, b', c');
        }
      } else {
        SubseqTrans(a, b, c');
      }
    }
  }
}
