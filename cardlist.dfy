/** `ParseDeckList` of poller.go: a deck list is split into lines at "\r\n"; the first
    empty line moves the parser into the sideboard for good, and every line that the
    pattern `(\d+) (.+)` matches becomes a card of the current section. */
module CardList {
  import opened Text
  import opened Data

  /** `CardListReg.FindStringSubmatch(line)` read as a card: the count is the first
      maximal digit run followed by a space and one more character other than a newline,
      and the name is the rest of the line up to its first newline (a stray '\r' stays). */
  function CardOf(line: string): (card: Option<Card>)
    ensures card.Some? ==> card.value.name != [] && Contains(line, card.value.name)
    ensures card.Some? ==> forall x :: 0 <= x < |card.value.name| ==> card.value.name[x] != '\n'
  {
    match LeftmostRun(line, ' ', NotNewline)
    case None => None
    case Some((i, j, k)) =>
      LeftmostRunSome(line, ' ', NotNewline);
      assert line[j + 1..k] <= line[j + 1..];
      Some(Card(DecimalValue(line[i..j]), line[j + 1..k]))
  }

  /** `CardOf` follows the regular expression: no card exactly when the pattern matches
      nowhere in the line, otherwise the groups of the leftmost-first, greedy match. */
  lemma CardOfIsRegexMatch(line: string)
    ensures CardOf(line).None? <==> forall i, j, k :: !RunSpan(line, ' ', NotNewline, i, j, k)
    ensures CardOf(line).Some? ==> exists i, j, k ::
      IsLeftmostGreedy(line, ' ', NotNewline, i, j, k) &&
      CardOf(line).value == Card(DecimalValue(line[i..j]), line[j + 1..k])
  {
    LeftmostRunNone(line, ' ', NotNewline);
    if CardOf(line).Some? {
      LeftmostRunSome(line, ' ', NotNewline);
      var m := LeftmostRun(line, ' ', NotNewline).value;
      assert IsLeftmostGreedy(line, ' ', NotNewline, m.0, m.1, m.2);
    }
  }

  /** The match of every line, in order. */
  function LineMatches(lines: seq<string>): (ms: seq<Option<Card>>)
    ensures |ms| == |lines|
  {
    seq(|lines|, n requires 0 <= n < |lines| => CardOf(lines[n]))
  }

  /** An empty line never holds a card. */
  lemma CardOfEmpty()
    ensures CardOf("").None?
  {
    assert FindRun("", 0, ' ', NotNewline).None?;
  }

  /** The cards of the matches `ms[lo..hi]`, in order; lines that did not match are
      dropped. */
  function CardsIn(ms: seq<Option<Card>>, lo: nat, hi: nat): seq<Card>
    requires lo <= hi <= |ms|
    decreases hi
  {
    if hi == lo then []
    else CardsIn(ms, lo, hi - 1) + (if ms[hi - 1].Some? then [ms[hi - 1].value] else [])
  }

  /** Index of the first empty line, or `|lines|` when there is none. */
  function FirstBlank(lines: seq<string>): (f: nat)
    ensures f <= |lines|
    ensures forall n :: 0 <= n < f ==> lines[n] != []
    ensures f < |lines| ==> lines[f] == []
  {
    if lines == [] then 0
    else if lines[0] == [] then 0
    else 1 + FirstBlank(lines[1..])
  }

  /** What a deck list holds: the cards of the lines before the first empty line form the
      main deck, those of the lines after it the sideboard, which is empty when no line
      is empty. */
  function DeckListSpec(listText: string): (seq<Card>, seq<Card>)
  {
    var lines := SplitCrlf(listText);
    var ms := LineMatches(lines);
    var f := FirstBlank(lines);
    (CardsIn(ms, 0, f), if f < |lines| then CardsIn(ms, f + 1, |lines|) else [])
  }

  /** `ParseDeckList`. */
  method ParseDeckList(listText: string) returns (maindeck: seq<Card>, sideboard: seq<Card>)
    ensures (maindeck, sideboard) == DeckListSpec(listText)
  {
    maindeck, sideboard := [], [];
    var inSideboard := false;
    var lines := SplitCrlf(listText);
    ghost var f := FirstBlank(lines);
    ghost var ms := LineMatches(lines);
    for n := 0 to |lines|
      invariant inSideboard <==> f < n
      invariant !inSideboard ==> maindeck == CardsIn(ms, 0, n) && sideboard == []
      invariant inSideboard ==> maindeck == CardsIn(ms, 0, f) && sideboard == CardsIn(ms, f + 1, n)
    {
      var line := lines[n];
      if |line| == 0 {
        CardOfEmpty();
        inSideboard := true;
        continue;
      }
      var m := CardOf(line);
      assert m == ms[n];
      if m.Some? {
        if inSideboard {
          sideboard := sideboard + [m.value];
        } else {
          maindeck := maindeck + [m.value];
        }
      }
    }
  }

  lemma {:induction false} CardsInSplit(ms: seq<Option<Card>>, lo: nat, mid: nat, hi: nat)
    requires lo <= mid <= hi <= |ms|
    ensures CardsIn(ms, lo, hi) == CardsIn(ms, lo, mid) + CardsIn(ms, mid, hi)
    decreases hi
  {
    if hi > mid {
      CardsInSplit(ms, lo, mid, hi - 1);
    }
  }

  /** Dropping an entry that did not match loses no card. */
  lemma CardsAroundGap(ms: seq<Option<Card>>, f: nat)
    requires f < |ms| && ms[f].None?
    ensures CardsIn(ms, 0, f) + CardsIn(ms, f + 1, |ms|) == CardsIn(ms, 0, |ms|)
  {
    CardsInSplit(ms, 0, f + 1, |ms|);
  }

  /** The main deck followed by the sideboard is exactly the cards of all matching lines,
      in input order: the empty line that switches sections contributes nothing. */
  lemma DeckListIsAllCards(listText: string)
    ensures DeckListSpec(listText).0 + DeckListSpec(listText).1
         == CardsIn(LineMatches(SplitCrlf(listText)), 0, |SplitCrlf(listText)|)
  {
    var lines := SplitCrlf(listText);
    var ms := LineMatches(lines);
    var f := FirstBlank(lines);
    if f < |lines| {
      CardOfEmpty();
      assert ms[f] == CardOf("");
      CardsAroundGap(ms, f);
    }
  }

  /** Without an empty line everything that matches goes to the main deck. */
  lemma DeckListWithoutBlank(listText: string)
    requires forall n :: 0 <= n < |SplitCrlf(listText)| ==> SplitCrlf(listText)[n] != []
    ensures DeckListSpec(listText).1 == []
    ensures DeckListSpec(listText).0 == CardsIn(LineMatches(SplitCrlf(listText)), 0, |SplitCrlf(listText)|)
  {
  }

  /** A leading empty line leaves the main deck empty; so does empty input, which splits
      into one empty line. */
  lemma DeckListLeadingBlank(listText: string)
    requires listText == [] || SplitCrlf(listText)[0] == []
    ensures DeckListSpec(listText).0 == []
  {
    if listText == [] {
      assert FirstCrlf(listText, 0).None?;
      assert SplitCrlf(listText) == [""];
    }
  }

  /** A count without a name is not a card; a zero count is. */
  lemma CardOfEdgeCases()
    ensures CardOf("4 ").None?
    ensures CardOf("0 X") == Some(Card(0, "X"))
  {
    assert !RunMatchAt("4 ", 0, ' ', NotNewline);
    assert FindRun("4 ", 0, ' ', NotNewline).None?;
    var s := "0 X";
    assert RunEnd(s, 1, Digit) == 1;
    assert RunEnd(s, 2, NotNewline) == 3;
    assert RunMatchAt(s, 0, ' ', NotNewline);
    assert s[0..1] == "0" && s[2..3] == "X";
    assert DecimalValue("0") == 10 * DecimalValue("") + DigitValue('0');
  }
}
