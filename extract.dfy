/**
 * The two reference extractors: card queries written `[[...]]` and spell
 * queries written `<...>`, the latter arriving HTML-escaped as `&lt;...&gt;`.
 *
 * Both patterns are an opening delimiter, one or more characters of an
 * interior class, and a closing delimiter whose first character is outside
 * that class. So a match is fixed by where it starts, and a scan from left to
 * right that skips past each match finds exactly the leftmost,
 * non-overlapping matches the regular expression engine reports.
 */
module Extract {
  import opened Wrappers
  import opened Text

  /** `\[\[[\w ,.!?:\-\|\(\)\/'"]+\]\]` or `\&lt;[\w ']+\&gt;`. */
  datatype Pattern = CardRef | SpellRef

  function Open(p: Pattern): string {
    match p
    case CardRef => "[["
    case SpellRef => "&lt;"
  }

  function Close(p: Pattern): string {
    match p
    case CardRef => "]]"
    case SpellRef => "&gt;"
  }

  /** `\w`: ASCII letters, digits and the underscore. */
  predicate IsWordChar(c: char) {
    '0' <= c <= '9' || 'A' <= c <= 'Z' || 'a' <= c <= 'z' || c == '_'
  }

  /** The character class between the delimiters. */
  predicate InInterior(p: Pattern, c: char) {
    IsWordChar(c) ||
    match p
    case CardRef =>
      c == ' ' || c == ',' || c == '.' || c == '!' || c == '?' || c == ':' || c == '-' ||
      c == '|' || c == '(' || c == ')' || c == '/' || c == '\'' || c == '"'
    case SpellRef => c == ' ' || c == '\''
  }

  /** `s[start..end]` is a whole match of the pattern. */
  ghost predicate IsMatch(p: Pattern, s: string, start: nat, end: nat) {
    && start + |Open(p)| + 1 + |Close(p)| <= end <= |s|
    && s[start..start + |Open(p)|] == Open(p)
    && s[end - |Close(p)|..end] == Close(p)
    && forall k :: start + |Open(p)| <= k < end - |Close(p)| ==> InInterior(p, s[k])
  }

  /** Length of the longest run of interior characters starting at `i`. */
  function Run(p: Pattern, s: string, i: nat): (n: nat)
    requires i <= |s|
    ensures i + n <= |s|
    ensures i + n == |s| || !InInterior(p, s[i + n])
    decreases |s| - i
  {
    if i == |s| || !InInterior(p, s[i]) then 0 else 1 + Run(p, s, i + 1)
  }

  /** Every character of the run is in the interior class. */
  lemma {:induction false} RunInterior(p: Pattern, s: string, i: nat)
    requires i <= |s|
    ensures forall k :: i <= k < i + Run(p, s, i) ==> InInterior(p, s[k])
    decreases |s| - i
  {
    if i < |s| && InInterior(p, s[i]) {
      RunInterior(p, s, i + 1);
    }
  }

  /** The opening delimiter occurs at `i`, tested character by character. */
  predicate OpenAt(p: Pattern, s: string, i: nat) {
    match p
    case CardRef => i + 2 <= |s| && s[i] == '[' && s[i + 1] == '['
    case SpellRef => i + 4 <= |s| && s[i] == '&' && s[i + 1] == 'l' && s[i + 2] == 't' && s[i + 3] == ';'
  }

  /** The closing delimiter occurs at `i`, tested character by character. */
  predicate CloseAt(p: Pattern, s: string, i: nat) {
    match p
    case CardRef => i + 2 <= |s| && s[i] == ']' && s[i + 1] == ']'
    case SpellRef => i + 4 <= |s| && s[i] == '&' && s[i + 1] == 'g' && s[i + 2] == 't' && s[i + 3] == ';'
  }

  lemma OpenAtIsSlice(p: Pattern, s: string, i: nat)
    ensures OpenAt(p, s, i) <==> i + |Open(p)| <= |s| && s[i..i + |Open(p)|] == Open(p)
  {
    if i + |Open(p)| <= |s| {
      var w := s[i..i + |Open(p)|];
      if p == CardRef {
        assert w == [s[i], s[i + 1]];
      } else {
        assert w == [s[i], s[i + 1], s[i + 2], s[i + 3]];
      }
    }
  }

  lemma CloseAtIsSlice(p: Pattern, s: string, i: nat)
    ensures CloseAt(p, s, i) <==> i + |Close(p)| <= |s| && s[i..i + |Close(p)|] == Close(p)
  {
    if i + |Close(p)| <= |s| {
      var w := s[i..i + |Close(p)|];
      if p == CardRef {
        assert w == [s[i], s[i + 1]];
      } else {
        assert w == [s[i], s[i + 1], s[i + 2], s[i + 3]];
      }
    }
  }

  /** The end of the match starting at `i`, if there is one: the interior is
      the maximal run after the opening delimiter, and the closing delimiter
      must follow it directly. */
  function MatchAt(p: Pattern, s: string, i: nat): (m: Option<nat>)
    requires i <= |s|
    ensures m.Some? ==> i + |Open(p)| + |Close(p)| < m.value <= |s|
  {
    var o, c := |Open(p)|, |Close(p)|;
    if OpenAt(p, s, i) then
      var n := Run(p, s, i + o);
      if n > 0 && CloseAt(p, s, i + o + n) then Some(i + o + n + c) else None
    else None
  }

  /** A run of interior characters ends at the first character outside the class. */
  lemma {:induction false} RunStopsAt(p: Pattern, s: string, a: nat, b: nat)
    requires a <= b < |s|
    requires forall k :: a <= k < b ==> InInterior(p, s[k])
    requires !InInterior(p, s[b])
    ensures Run(p, s, a) == b - a
    decreases b - a
  {
    if a < b {
      RunStopsAt(p, s, a + 1, b);
    }
  }

  /** The scan finds the match made of an opening delimiter, a run of
      interior characters up to a closing delimiter, and that delimiter. */
  lemma ScanFinds(p: Pattern, s: string, i: nat, e: nat)
    requires i + |Open(p)| < e - |Close(p)| && e <= |s|
    requires OpenAt(p, s, i) && CloseAt(p, s, e - |Close(p)|)
    requires forall k :: i + |Open(p)| <= k < e - |Close(p)| ==> InInterior(p, s[k])
    ensures MatchAt(p, s, i) == Some(e)
  {
    var b := e - |Close(p)|;
    CloseNotInterior(p, s, b);
    RunStopsAt(p, s, i + |Open(p)|, b);
  }

  /** Where the pattern matches, MatchAt finds that very match. */
  lemma MatchFound(p: Pattern, s: string, i: nat, e: nat)
    requires IsMatch(p, s, i, e)
    ensures MatchAt(p, s, i) == Some(e)
  {
    OpenAtIsSlice(p, s, i);
    CloseAtIsSlice(p, s, e - |Close(p)|);
    ScanFinds(p, s, i, e);
  }

  /** The closing delimiter starts with a character outside the interior class. */
  lemma CloseNotInterior(p: Pattern, s: string, b: nat)
    requires CloseAt(p, s, b)
    ensures !InInterior(p, s[b])
  {
  }

  /** What MatchAt finds is a match of the pattern. */
  lemma MatchSound(p: Pattern, s: string, i: nat)
    requires i <= |s| && MatchAt(p, s, i).Some?
    ensures IsMatch(p, s, i, MatchAt(p, s, i).value)
  {
    ScanSound(p, s, i);
    OpenAtIsSlice(p, s, i);
    CloseAtIsSlice(p, s, MatchAt(p, s, i).value - |Close(p)|);
  }

  /** What the scan finds is an opening delimiter, a run of interior
      characters and a closing delimiter. */
  lemma ScanSound(p: Pattern, s: string, i: nat)
    requires i <= |s| && MatchAt(p, s, i).Some?
    ensures var e := MatchAt(p, s, i).value;
      && OpenAt(p, s, i) && CloseAt(p, s, e - |Close(p)|)
      && forall k :: i + |Open(p)| <= k < e - |Close(p)| ==> InInterior(p, s[k])
  {
    RunInterior(p, s, i + |Open(p)|);
  }

  /** MatchAt finds a match exactly when the pattern matches there, so a
      match is determined by where it starts. */
  lemma MatchAtIsMatch(p: Pattern, s: string, i: nat, e: nat)
    requires i <= |s|
    ensures MatchAt(p, s, i) == Some(e) <==> IsMatch(p, s, i, e)
  {
    if MatchAt(p, s, i) == Some(e) {
      MatchSound(p, s, i);
    }
    if IsMatch(p, s, i, e) {
      MatchFound(p, s, i, e);
    }
  }

  datatype Span = Span(start: nat, end: nat)

  /** A table of match ends by start position in which every match ends
      after it starts and within the text. */
  predicate Progress(ms: seq<Option<nat>>) {
    forall q :: 0 <= q < |ms| && ms[q].Some? ==> q < ms[q].value < |ms|
  }

  /** What MatchAt finds at each start position `q..|s|`. */
  function MatchTable(p: Pattern, s: string, q: nat): (ms: seq<Option<nat>>)
    requires q <= |s| + 1
    ensures |ms| == |s| + 1 - q
    decreases |s| + 1 - q
  {
    if q == |s| + 1 then [] else [MatchAt(p, s, q)] + MatchTable(p, s, q + 1)
  }

  lemma {:induction false} MatchTableAt(p: Pattern, s: string, q: nat, k: nat)
    requires q + k <= |s|
    ensures MatchTable(p, s, q)[k] == MatchAt(p, s, q + k)
    decreases k
  {
    if k > 0 {
      MatchTableAt(p, s, q + 1, k - 1);
    }
  }

  /** The table entry at a start position is what MatchAt finds there. */
  lemma MatchesAt(p: Pattern, s: string, q: nat)
    requires q <= |s|
    ensures MatchTable(p, s, 0)[q] == MatchAt(p, s, q)
  {
    MatchTableAt(p, s, 0, q);
  }

  lemma MatchesProgress(p: Pattern, s: string)
    ensures Progress(MatchTable(p, s, 0))
  {
    var ms := MatchTable(p, s, 0);
    forall q | 0 <= q < |ms| && ms[q].Some? ensures q < ms[q].value < |ms| {
      MatchesAt(p, s, q);
    }
  }

  /** What MatchAt finds at each start position `0..|s|`. */
  function Matches(p: Pattern, s: string): (ms: seq<Option<nat>>)
    ensures |ms| == |s| + 1 && Progress(ms)
  {
    MatchesProgress(p, s);
    MatchTable(p, s, 0)
  }

  /** No match starts in `[a, b)`. */
  ghost predicate NoMatchIn(ms: seq<Option<nat>>, a: nat, b: nat) {
    forall q :: a <= q < b && q < |ms| ==> ms[q].None?
  }

  /** The leftmost match starting at or after `from`. */
  function NextMatch(ms: seq<Option<nat>>, from: nat): (r: Option<Span>)
    requires from <= |ms| && Progress(ms)
    ensures r.Some? ==> from <= r.value.start < r.value.end < |ms| && ms[r.value.start] == Some(r.value.end)
    ensures r.Some? ==> NoMatchIn(ms, from, r.value.start)
    ensures r.None? ==> NoMatchIn(ms, from, |ms|)
    decreases |ms| - from
  {
    if from == |ms| then None
    else
      match ms[from]
      case Some(e) => Some(Span(from, e))
      case None => NextMatch(ms, from + 1)
  }

  /** `r` is the leftmost-first scan of the table from `from`: its first
      span is the first match at or after `from`, and the rest is the scan
      resumed where that match ends; an empty scan means no match is left. */
  ghost predicate Scan(ms: seq<Option<nat>>, from: nat, r: seq<Span>)
    decreases r
  {
    if r == [] then NoMatchIn(ms, from, |ms|)
    else
      && from <= r[0].start < |ms| && ms[r[0].start] == Some(r[0].end)
      && NoMatchIn(ms, from, r[0].start)
      && Scan(ms, r[0].end, r[1..])
  }

  /** `FindAllStringSubmatch(s, -1)` from position `from`: take the leftmost
      match, then resume the search where it ends. */
  function FindAll(ms: seq<Option<nat>>, from: nat): (r: seq<Span>)
    requires from <= |ms| && Progress(ms)
    ensures Scan(ms, from, r)
    decreases |ms| - from
  {
    match NextMatch(ms, from)
    case None => []
    case Some(m) =>
      var rest := FindAll(ms, m.end);
      assert ([m] + rest)[1..] == rest;
      [m] + rest
  }

  /** The spans of a scan are matches, in order and disjoint. */
  lemma {:induction false} ScanSpans(ms: seq<Option<nat>>, from: nat, r: seq<Span>)
    requires Progress(ms) && Scan(ms, from, r)
    ensures forall k :: 0 <= k < |r| ==>
      from <= r[k].start < r[k].end < |ms| && ms[r[k].start] == Some(r[k].end)
    ensures forall k :: 0 < k < |r| ==> r[k - 1].end <= r[k].start
    decreases r
  {
    if r != [] {
      ScanSpans(ms, r[0].end, r[1..]);
    }
  }

  /** A scan skips no match: none starts before its first span, between two
      of its spans, or after its last span. */
  lemma {:induction false} ScanGaps(ms: seq<Option<nat>>, from: nat, r: seq<Span>)
    requires Scan(ms, from, r)
    ensures r == [] ==> NoMatchIn(ms, from, |ms|)
    ensures r != [] ==> NoMatchIn(ms, from, r[0].start) && NoMatchIn(ms, r[|r| - 1].end, |ms|)
    ensures forall k :: 0 < k < |r| ==> NoMatchIn(ms, r[k - 1].end, r[k].start)
    decreases r
  {
    if r != [] {
      var rest := r[1..];
      ScanGaps(ms, r[0].end, rest);
      forall k | 0 < k < |r| ensures NoMatchIn(ms, r[k - 1].end, r[k].start) {
        if k > 1 {
          assert r[k - 1] == rest[k - 2] && r[k] == rest[k - 1];
        }
      }
    }
  }

  /** Spans read off the table have room for both delimiters and a
      non-empty interior. */
  lemma TableBounds(p: Pattern, s: string, r: seq<Span>)
    requires forall k :: 0 <= k < |r| ==>
      r[k].start <= |s| && Matches(p, s)[r[k].start] == Some(r[k].end)
    ensures forall k :: 0 <= k < |r| ==>
      r[k].start + |Open(p)| < r[k].end - |Close(p)| && r[k].end <= |s|
  {
    forall k | 0 <= k < |r| ensures r[k].start + |Open(p)| < r[k].end - |Close(p)| && r[k].end <= |s| {
      MatchesAt(p, s, r[k].start);
    }
  }

  /** The matches of the pattern in a message, left to right. */
  function Spans(p: Pattern, s: string): (r: seq<Span>)
    ensures forall k :: 0 <= k < |r| ==>
      && r[k].start + |Open(p)| < r[k].end - |Close(p)| && r[k].end <= |s|
      && Matches(p, s)[r[k].start] == Some(r[k].end)
    ensures forall k :: 0 < k < |r| ==> r[k - 1].end <= r[k].start
  {
    var r := FindAll(Matches(p, s), 0);
    ScanSpans(Matches(p, s), 0, r);
    TableBounds(p, s, r);
    r
  }

  /** No match of the pattern, in the sense of IsMatch, starts in `[a, b)`. */
  ghost predicate NoRegexMatchIn(p: Pattern, s: string, a: nat, b: nat) {
    forall q: nat, e: nat :: a <= q < b ==> !IsMatch(p, s, q, e)
  }

  lemma NoMatchInIsNoRegexMatch(p: Pattern, s: string, a: nat, b: nat)
    requires b <= |s| + 1 && NoMatchIn(Matches(p, s), a, b)
    ensures NoRegexMatchIn(p, s, a, b)
  {
    forall q: nat, e: nat | a <= q < b ensures !IsMatch(p, s, q, e) {
      MatchesAt(p, s, q);
      MatchAtIsMatch(p, s, q, e);
    }
  }

  lemma SpanIsMatch(p: Pattern, s: string, m: Span)
    requires m.start <= |s| && Matches(p, s)[m.start] == Some(m.end)
    ensures IsMatch(p, s, m.start, m.end)
  {
    MatchesAt(p, s, m.start);
    MatchAtIsMatch(p, s, m.start, m.end);
  }

  /** Every span the scan finds is a match of the pattern, and the spans are
      in order and disjoint. */
  lemma SpansAreMatches(p: Pattern, s: string)
    ensures var r := Spans(p, s);
      && (forall k :: 0 <= k < |r| ==> IsMatch(p, s, r[k].start, r[k].end))
      && (forall k :: 0 < k < |r| ==> r[k - 1].end <= r[k].start)
  {
    var r := Spans(p, s);
    forall k | 0 <= k < |r| ensures IsMatch(p, s, r[k].start, r[k].end) {
      SpanIsMatch(p, s, r[k]);
    }
  }

  /** The scan skips no match: none starts before the first span, between
      two spans, or after the last span (so none at all when no span is found). */
  lemma SpansLeftmost(p: Pattern, s: string)
    ensures var r := Spans(p, s);
      && (r == [] ==> NoRegexMatchIn(p, s, 0, |s| + 1))
      && (r != [] ==> NoRegexMatchIn(p, s, 0, r[0].start) && NoRegexMatchIn(p, s, r[|r| - 1].end, |s| + 1))
      && (forall k :: 0 < k < |r| ==> NoRegexMatchIn(p, s, r[k - 1].end, r[k].start))
  {
    SpansOuterGaps(p, s);
    SpansInnerGaps(p, s);
  }

  lemma SpansOuterGaps(p: Pattern, s: string)
    ensures var r := Spans(p, s);
      && (r == [] ==> NoRegexMatchIn(p, s, 0, |s| + 1))
      && (r != [] ==> NoRegexMatchIn(p, s, 0, r[0].start) && NoRegexMatchIn(p, s, r[|r| - 1].end, |s| + 1))
  {
    var ms := Matches(p, s);
    var r := Spans(p, s);
    ScanGaps(ms, 0, r);
    if r == [] {
      NoMatchInIsNoRegexMatch(p, s, 0, |s| + 1);
    } else {
      NoMatchInIsNoRegexMatch(p, s, 0, r[0].start);
      NoMatchInIsNoRegexMatch(p, s, r[|r| - 1].end, |s| + 1);
    }
  }

  lemma SpansInnerGaps(p: Pattern, s: string)
    ensures var r := Spans(p, s);
      forall k :: 0 < k < |r| ==> NoRegexMatchIn(p, s, r[k - 1].end, r[k].start)
  {
    var ms := Matches(p, s);
    var r := Spans(p, s);
    ScanGaps(ms, 0, r);
    forall k | 0 < k < |r| ensures NoRegexMatchIn(p, s, r[k - 1].end, r[k].start) {
      assert NoMatchIn(ms, r[k - 1].end, r[k].start);
      NoMatchInIsNoRegexMatch(p, s, r[k - 1].end, r[k].start);
    }
  }

  /** A match is its opening delimiter, a non-empty run of interior
      characters, and its closing delimiter. */
  lemma MatchShape(p: Pattern, s: string, start: nat, end: nat)
    requires IsMatch(p, s, start, end)
    ensures var inner := s[start + |Open(p)|..end - |Close(p)|];
      && inner != []
      && s[start..end] == Open(p) + inner + Close(p)
      && forall i :: 0 <= i < |inner| ==> InInterior(p, inner[i])
  {
    var a, b := start + |Open(p)|, end - |Close(p)|;
    var inner := s[a..b];
    assert s[start..end] == s[start..a] + inner + s[b..end];
    forall i | 0 <= i < |inner| ensures InInterior(p, inner[i]) {
      assert inner[i] == s[a + i];
    }
  }

  /** The text between the delimiters of a match. */
  function Inner(p: Pattern, s: string, m: Span): string
    requires m.start + |Open(p)| <= m.end - |Close(p)| && m.end <= |s|
  {
    s[m.start + |Open(p)|..m.end - |Close(p)|]
  }

  /** The references in a message: `None` when the pattern never matches
      (Go's nil slice), otherwise the text between the delimiters of each
      match, left to right. */
  function References(p: Pattern, s: string): (r: Option<seq<string>>)
    ensures r.None? <==> Spans(p, s) == []
    ensures r.Some? ==> |r.value| == |Spans(p, s)| > 0
  {
    var ms := Spans(p, s);
    if ms == [] then None
    else
      Some(seq(|ms|, k requires 0 <= k < |ms| => Inner(p, s, ms[k])))
  }

  /** The references are determined by their interiors, one per span. */
  lemma ReferencesFromInners(p: Pattern, s: string, rs: seq<string>)
    requires |rs| == |Spans(p, s)| > 0
    requires forall k :: 0 <= k < |rs| ==> rs[k] == Inner(p, s, Spans(p, s)[k])
    ensures References(p, s) == Some(rs)
  {
    var ms := Spans(p, s);
    var r := seq(|ms|, k requires 0 <= k < |ms| => Inner(p, s, ms[k]));
    assert References(p, s) == Some(r);
    assert r == rs;
  }

  /** The text inside one span found by the scan: non-empty, made only of
      interior characters, and exactly the span without its delimiters. */
  lemma InnerShape(p: Pattern, s: string, m: Span)
    requires m.start <= |s| && Matches(p, s)[m.start] == Some(m.end)
    ensures m.start + |Open(p)| < m.end - |Close(p)| && m.end <= |s|
    ensures var inner := Inner(p, s, m);
      && (forall i :: 0 <= i < |inner| ==> InInterior(p, inner[i]))
      && s[m.start..m.end] == Open(p) + inner + Close(p)
  {
    SpanIsMatch(p, s, m);
    MatchShape(p, s, m.start, m.end);
  }

  /** Every extracted query is non-empty, made only of interior characters
      (so it contains no delimiter character), and is exactly its match
      with the delimiters taken off. */
  lemma ReferencesShape(p: Pattern, s: string)
    ensures var r := References(p, s);
      r.Some? ==>
        forall k :: 0 <= k < |r.value| ==>
          && r.value[k] != ""
          && (forall i :: 0 <= i < |r.value[k]| ==> InInterior(p, r.value[k][i]))
          && s[Spans(p, s)[k].start..Spans(p, s)[k].end] == Open(p) + r.value[k] + Close(p)
  {
    var ms := Spans(p, s);
    if ms != [] {
      var r := References(p, s).value;
      forall k | 0 <= k < |r|
        ensures r[k] != ""
        ensures forall i :: 0 <= i < |r[k]| ==> InInterior(p, r[k][i])
        ensures s[ms[k].start..ms[k].end] == Open(p) + r[k] + Close(p)
      {
        InnerShape(p, s, ms[k]);
      }
    }
  }

  /** The interior classes exclude the delimiter characters. */
  lemma InteriorExcludesDelimiters(p: Pattern, c: char)
    requires InInterior(p, c)
    ensures p == CardRef ==> c != '[' && c != ']'
    ensures p == SpellRef ==> c != '&' && c != '<' && c != '>'
  {
  }

  // ---------------------------------------------------------------------
  // The extractors

  /** `strings.Trim(match, "[]")` removes exactly the two brackets on each side. */
  lemma TrimBrackets(inner: string)
    requires inner != [] && '[' !in inner && ']' !in inner
    ensures Trim("[[" + inner + "]]", {'[', ']'}) == inner
  {
    var cut := {'[', ']'};
    var m := "[[" + inner + "]]";
    assert m[1..] == "[" + inner + "]]";
    assert m[2..] == inner + "]]";
    assert TrimLeft(m[2..], cut) == inner + "]]";
    assert TrimLeft(m, cut) == TrimLeft(m[1..], cut) == TrimLeft(m[2..], cut);
    var t := inner + "]]";
    assert t[..|t| - 1] == inner + "]";
    assert (inner + "]")[..|inner|] == inner;
    assert inner[|inner| - 1] !in cut;
    assert TrimRight(inner, cut) == inner;
    assert TrimRight(t, cut) == TrimRight(inner + "]", cut) == TrimRight(inner, cut);
  }

  /** `TrimPrefix(match, "&lt;")` then `TrimSuffix(_, "&gt;")` removes the
      two entities once each. */
  lemma TrimEntities(inner: string)
    ensures TrimSuffix(TrimPrefix("&lt;" + inner + "&gt;", "&lt;"), "&gt;") == inner
  {
    var m := "&lt;" + inner + "&gt;";
    assert m[..4] == "&lt;";
    assert m[4..] == inner + "&gt;";
    var t := inner + "&gt;";
    assert t[|t| - 4..] == "&gt;";
    assert t[..|t| - 4] == inner;
  }

  /** The card reference `matches[index]` with its brackets trimmed. */
  lemma TrimmedCardRef(message: string, m: Span)
    requires m.start <= |message| && Matches(CardRef, message)[m.start] == Some(m.end)
    ensures m.start + 2 < m.end - 2 <= |message|
    ensures Trim(message[m.start..m.end], {'[', ']'}) == Inner(CardRef, message, m)
  {
    SpanIsMatch(CardRef, message, m);
    MatchShape(CardRef, message, m.start, m.end);
    var inner := Inner(CardRef, message, m);
    forall i | 0 <= i < |inner| ensures inner[i] != '[' && inner[i] != ']' {
      InteriorExcludesDelimiters(CardRef, inner[i]);
    }
    TrimBrackets(inner);
  }

  /** The spell reference `matches[index]` with its entities trimmed. */
  lemma TrimmedSpellRef(message: string, m: Span)
    requires m.start <= |message| && Matches(SpellRef, message)[m.start] == Some(m.end)
    ensures m.start + 4 < m.end - 4 <= |message|
    ensures TrimSuffix(TrimPrefix(message[m.start..m.end], "&lt;"), "&gt;") == Inner(SpellRef, message, m)
  {
    SpanIsMatch(SpellRef, message, m);
    MatchShape(SpellRef, message, m.start, m.end);
    TrimEntities(Inner(SpellRef, message, m));
  }

  /** getMTGStringsFromMessage: one query per `[[...]]` match, in order. */
  method GetMTGStringsFromMessage(message: string) returns (r: Option<seq<string>>)
    ensures r == References(CardRef, message)
  {
    var matches := Spans(CardRef, message);
    if |matches| == 0 {
      return None;
    }
    var ret := new string[|matches|];
    for index := 0 to |matches|
      invariant forall k :: 0 <= k < index ==> ret[k] == Inner(CardRef, message, matches[k])
    {
      var m := matches[index];
      TrimmedCardRef(message, m);
      ret[index] := Trim(message[m.start..m.end], {'[', ']'});
    }
    ReferencesFromInners(CardRef, message, ret[..]);
    return Some(ret[..]);
  }

  /** getDNDStringsFromMessage: one query per `&lt;...&gt;` match, in order. */
  method GetDNDStringsFromMessage(message: string) returns (r: Option<seq<string>>)
    ensures r == References(SpellRef, message)
  {
    var matches := Spans(SpellRef, message);
    if |matches| == 0 {
      return None;
    }
    var ret := new string[|matches|];
    for index := 0 to |matches|
      invariant forall k :: 0 <= k < index ==> ret[k] == Inner(SpellRef, message, matches[k])
    {
      var m := matches[index];
      TrimmedSpellRef(message, m);
      var trimmed := TrimPrefix(message[m.start..m.end], "&lt;");
      trimmed := TrimSuffix(trimmed, "&gt;");
      ret[index] := trimmed;
    }
    ReferencesFromInners(SpellRef, message, ret[..]);
    return Some(ret[..]);
  }
}
