/** The header loop of `GetDeckHeaders` in poller.go: every non-overlapping match of
    `<heading>(\S+) \((.+)\)</heading>` in the event page, left to right, gives one deck
    whose pilot and result are the two groups. */
module DeckHeaders {
  import opened Text
  import opened Data

  const Open: string := "<heading>"
  const Close: string := ")</heading>"

  /** `lit` occurs in `s` at `i`. */
  predicate LiteralAt(s: string, i: int, lit: string) {
    0 <= i && i + |lit| <= |s| && forall x :: 0 <= x < |lit| ==> s[i + x] == lit[x]
  }

  predicate OpenAt(s: string, i: int) {
    LiteralAt(s, i, Open)
  }

  predicate CloseAt(s: string, e: int) {
    LiteralAt(s, e, Close)
  }

  /** Regular-expression semantics: the pattern matches `s[i..e + |Close|]` with the pilot
      group `s[i + |Open|..q]` and the result group `s[q + 2..e]`. */
  ghost predicate HeaderSpan(s: string, i: int, q: int, e: int) {
    OpenAt(s, i) && i + |Open| < q && q + 1 < |s| &&
    (forall x :: i + |Open| <= x < q ==> InClass(s[x], NotSpace)) &&
    s[q] == ' ' && s[q + 1] == '(' &&
    q + 2 < e && CloseAt(s, e) &&
    (forall x :: q + 2 <= x < e ==> InClass(s[x], NotNewline))
  }

  /** The greatest `e` with `lo < e <= hi` at which `Close` starts. */
  function LastCloseAt(s: string, lo: nat, hi: int): (r: Option<nat>)
    ensures r.Some? ==> lo < r.value <= hi && CloseAt(s, r.value)
    ensures forall e :: (if r.Some? then r.value else lo) < e <= hi ==> !CloseAt(s, e)
    decreases hi - lo
  {
    if hi <= lo then None
    else if CloseAt(s, hi) then Some(hi)
    else LastCloseAt(s, lo, hi - 1)
  }

  /** Where a match lies: it starts at `start`, the pilot ends at `pilotEnd` and the
      closing `)</heading>` starts at `close`. */
  datatype Span = Span(start: nat, pilotEnd: nat, close: nat)

  /** The match that starts at `i`, if any: the pilot is the longest run of non-space
      characters after `<heading>`, and the result reaches the last `)</heading>` before
      the next newline. */
  function HeaderAt(s: string, i: nat): (r: Option<Span>)
    ensures r.Some? ==>
              r.value.start == i && i + |Open| < r.value.pilotEnd &&
              r.value.pilotEnd + 2 < r.value.close && r.value.close + |Close| <= |s|
  {
    if !OpenAt(s, i) then None
    else
      var q := RunEnd(s, i + |Open|, NotSpace);
      if q == i + |Open| || q + 1 >= |s| || s[q] != ' ' || s[q + 1] != '(' then None
      else
        match LastCloseAt(s, q + 2, RunEnd(s, q + 2, NotNewline))
        case None => None
        case Some(e) => Some(Span(i, q, e))
  }

  /** What `HeaderAt` reports is a match. */
  lemma HeaderAtIsSpan(s: string, i: nat)
    requires HeaderAt(s, i).Some?
    ensures HeaderSpan(s, i, HeaderAt(s, i).value.pilotEnd, HeaderAt(s, i).value.close)
  {
    var q := RunEnd(s, i + |Open|, NotSpace);
    RunEndSpec(s, i + |Open|, NotSpace);
    RunEndSpec(s, q + 2, NotNewline);
  }

  /** Every match that starts at `i` is seen by `HeaderAt`, which picks the only possible
      pilot and the longest possible result. */
  lemma HeaderAtIsGreedy(s: string, i: nat, q: nat, e: nat)
    requires HeaderSpan(s, i, q, e)
    ensures HeaderAt(s, i).Some?
    ensures HeaderAt(s, i).value.pilotEnd == q && e <= HeaderAt(s, i).value.close
  {
    RunEndIsFirstOutside(s, i + |Open|, q, NotSpace);
    RunEndSpec(s, q + 2, NotNewline);
  }

  /** Where the pattern matches: `table[p]` is the match that starts at `p`, if any. */
  predicate SpanTable(table: seq<Option<Span>>) {
    forall p :: 0 <= p < |table| && table[p].Some? ==>
      table[p].value.start == p && p + |Open| < table[p].value.pilotEnd &&
      table[p].value.pilotEnd + 2 < table[p].value.close && table[p].value.close + |Close| <= |table|
  }

  /** The match `HeaderAt` finds at every position of `s`. */
  function Matches(s: string): (table: seq<Option<Span>>)
    ensures |table| == |s| && SpanTable(table)
  {
    seq(|s|, p requires 0 <= p < |s| => HeaderAt(s, p))
  }

  /** The first match that starts at or after `from`. */
  function FindHeader(table: seq<Option<Span>>, from: nat): (r: Option<Span>)
    requires SpanTable(table) && from <= |table|
    ensures r.Some? ==> from <= r.value.start < |table| && table[r.value.start] == r
    ensures forall p :: from <= p < (if r.Some? then r.value.start else |table|) ==> table[p].None?
    decreases |table| - from
  {
    if from == |table| then None
    else if table[from].Some? then table[from]
    else FindHeader(table, from + 1)
  }

  /** `FindAllStringSubmatch(body, -1)` from `from` on, as the bounds of each match:
      successive leftmost matches, each search starting where the previous match ended. */
  function HeaderSpans(table: seq<Option<Span>>, from: nat): (spans: seq<Span>)
    requires SpanTable(table) && from <= |table|
    ensures forall n :: 0 <= n < |spans| ==>
      from <= spans[n].start < |table| && table[spans[n].start] == Some(spans[n])
    ensures forall n :: 0 < n < |spans| ==> spans[n - 1].close + |Close| <= spans[n].start
    decreases |table| - from
  {
    match FindHeader(table, from)
    case None => []
    case Some(m) => [m] + HeaderSpans(table, m.close + |Close|)
  }

  /** All matches in `body`, left to right. */
  function AllHeaders(body: string): (spans: seq<Span>)
    ensures forall n :: 0 <= n < |spans| ==> HeaderAt(body, spans[n].start) == Some(spans[n])
    ensures forall n :: 0 < n < |spans| ==> spans[n - 1].close + |Close| <= spans[n].start
  {
    HeaderSpans(Matches(body), 0)
  }

  /** Position `p` is the start of one of `spans` or lies inside it. */
  predicate Covers(spans: seq<Span>, p: nat) {
    exists n :: 0 <= n < |spans| && spans[n].start <= p < spans[n].close + |Close|
  }

  /** Every position at or after `from` where a match starts is covered by a reported one. */
  lemma {:induction false} HeaderSpansCoverTable(table: seq<Option<Span>>, from: nat, p: nat)
    requires SpanTable(table) && from <= p < |table| && table[p].Some?
    ensures Covers(HeaderSpans(table, from), p)
    decreases |table| - from
  {
    var m := FindHeader(table, from).value;
    var next := m.close + |Close|;
    var spans := [m] + HeaderSpans(table, next);
    assert HeaderSpans(table, from) == spans;
    if next <= p {
      HeaderSpansCoverTable(table, next, p);
      CoversShift(m, HeaderSpans(table, next), p);
    } else {
      assert spans[0] == m;
    }
  }

  /** Covering a position survives putting one more span in front. */
  lemma CoversShift(m: Span, rest: seq<Span>, p: nat)
    requires Covers(rest, p)
    ensures Covers([m] + rest, p)
  {
    var n :| 0 <= n < |rest| && rest[n].start <= p < rest[n].close + |Close|;
    assert ([m] + rest)[n + 1] == rest[n];
  }

  /** The matches are the leftmost-first ones: every place where the pattern matches is
      the start of a reported match or lies inside one. */
  lemma HeaderSpansCoverAllMatches(s: string, p: nat, q: nat, e: nat)
    requires HeaderSpan(s, p, q, e)
    ensures Covers(AllHeaders(s), p)
  {
    HeaderAtIsGreedy(s, p, q, e);
    assert Matches(s)[p] == HeaderAt(s, p);
    HeaderSpansCoverTable(Matches(s), 0, p);
  }

  /** The pilot group of a match: the characters between `<heading>` and the space. */
  function Pilot(s: string, span: Span): (pilot: string)
    requires span.start + |Open| <= span.pilotEnd <= |s|
  {
    s[span.start + |Open|..span.pilotEnd]
  }

  /** The result group of a match: the characters between " (" and `)</heading>`. */
  function Result(s: string, span: Span): (result: string)
    requires span.pilotEnd + 2 <= span.close <= |s|
  {
    s[span.pilotEnd + 2..span.close]
  }

  /** Every reported span is a match of the header pattern. */
  lemma AllHeadersAreMatches(body: string)
    ensures forall n :: 0 <= n < |AllHeaders(body)| ==>
      HeaderSpan(body, AllHeaders(body)[n].start, AllHeaders(body)[n].pilotEnd, AllHeaders(body)[n].close)
  {
    var spans := AllHeaders(body);
    forall n | 0 <= n < |spans|
      ensures HeaderSpan(body, spans[n].start, spans[n].pilotEnd, spans[n].close)
    {
      HeaderAtIsSpan(body, spans[n].start);
    }
  }

  /** `FindAllStringSubmatch`: for every match, the whole match and its two groups. Each
      entry is a match of the header pattern: its three strings are the text from
      `<heading>` to the end of `)</heading>`, the pilot before " (" and the result
      before `)</heading>`, at positions where the pattern matches. */
  function FindAllStringSubmatch(body: string): (ms: seq<seq<string>>)
    ensures |ms| == |AllHeaders(body)|
    ensures forall n :: 0 <= n < |ms| ==>
      var span := AllHeaders(body)[n];
      HeaderSpan(body, span.start, span.pilotEnd, span.close) &&
      |ms[n]| == 3 && ms[n][0] == body[span.start..span.close + |Close|] &&
      ms[n][1] == Pilot(body, span) && ms[n][2] == Result(body, span)
  {
    var spans := AllHeaders(body);
    AllHeadersAreMatches(body);
    seq(|spans|, n requires 0 <= n < |spans| =>
      [body[spans[n].start..spans[n].close + |Close|], Pilot(body, spans[n]), Result(body, spans[n])])
  }

  /** A deck as `GetDeckHeaders` allocates it: only pilot and result are set. */
  function HeaderDeck(pilot: string, result: string): Deck {
    Deck("", Zero, "", pilot, result, [], [])
  }

  /** The header loop of `GetDeckHeaders`, on the page `body` that the fetch returned
      (the empty string when the fetch failed). One deck per match, in page order,
      carrying the two groups verbatim; the length guard never drops a match. */
  method HeaderDecks(body: string) returns (decks: seq<Deck>)
    ensures |decks| == |AllHeaders(body)|
    ensures forall n :: 0 <= n < |decks| ==>
      decks[n] == HeaderDeck(Pilot(body, AllHeaders(body)[n]), Result(body, AllHeaders(body)[n]))
  {
    var headers := FindAllStringSubmatch(body);
    decks := [];
    for n := 0 to |headers|
      invariant |decks| == n
      invariant forall m :: 0 <= m < n ==> decks[m] == HeaderDeck(headers[m][1], headers[m][2])
    {
      var match_ := headers[n];
      if |match_| == 3 {
        decks := decks + [HeaderDeck(match_[1], match_[2])];
      }
    }
  }

  /** `GetDeckHeaders`: the page comes from `eventPage`, which stands for the HTTP fetch. */
  method GetDeckHeaders(eventID: string, eventPage: string -> string) returns (decks: seq<Deck>)
    ensures |decks| == |AllHeaders(eventPage(eventID))|
    ensures forall n :: 0 <= n < |decks| ==>
      var body := eventPage(eventID);
      decks[n] == HeaderDeck(Pilot(body, AllHeaders(body)[n]), Result(body, AllHeaders(body)[n]))
  {
    decks := HeaderDecks(eventPage(eventID));
  }

  /** No pilot contains whitespace, and neither pilot nor result is empty. */
  lemma PilotHasNoSpace(s: string, n: nat, x: nat)
    requires n < |AllHeaders(s)|
    requires x < |Pilot(s, AllHeaders(s)[n])|
    ensures !IsSpace(Pilot(s, AllHeaders(s)[n])[x])
    ensures Pilot(s, AllHeaders(s)[n]) != [] && Result(s, AllHeaders(s)[n]) != []
  {
    var span := AllHeaders(s)[n];
    HeaderAtIsSpan(s, span.start);
    assert Pilot(s, span)[x] == s[span.start + |Open| + x];
  }

  /** Greediness of the result group: a match's result runs up to the last `)</heading>`
      before the next newline, so two headings on one line make a single deck. */
  lemma ResultReachesLastCloseOnLine(s: string, n: nat, e2: nat)
    requires n < |AllHeaders(s)|
    requires AllHeaders(s)[n].pilotEnd + 2 < e2 && CloseAt(s, e2)
    requires forall x :: AllHeaders(s)[n].pilotEnd + 2 <= x < e2 ==> s[x] != '\n'
    ensures e2 <= AllHeaders(s)[n].close
  {
    var span := AllHeaders(s)[n];
    HeaderAtIsSpan(s, span.start);
    assert HeaderSpan(s, span.start, span.pilotEnd, e2);
    HeaderAtIsGreedy(s, span.start, span.pilotEnd, e2);
  }
}
