# MTG-meta poller, modelled in Dafny

MTG-meta collects Magic Online tournament results. Its poller reads the remote event listing and skips the events it already knows. For every new event it:

- derives a format label from the event's name;
- derives a date from the listing's `M/D` text;
- scrapes the results page for one `<heading>PILOT (RESULT)</heading>` per deck;
- downloads each deck's card list and splits it into a main deck and a sideboard at the first empty line.

This project models that core: the records of `data.go` and the parsing and assembly functions of `poller.go`. Each is stated in Dafny and proved. Modules:

- `Text`: the pieces of Go's `regexp`, `strings` and `strconv` the poller relies on.
  - The character classes `\d`, `.` and `\S`.
  - Scanners for the two patterns of the shape `(\d+)SEP(T+)`. These are the card pattern `(\d+) (.+)` and the date pattern `(\d+)/(\d+)`. They are proved to return the leftmost-first, greedy match that Go reports.
  - `strings.Contains`.
  - `strings.Split(s, "\r\n")`, proved to be the inverse of joining lines with `"\r\n"`.
- `Data`: `Event`, `Deck`, `Card`, `WotcEvent` and `WotcEventList`.
  - Each `time.Time` is a `Timestamp`, which is one of three values:
    - `Zero`: a fresh record;
    - `Clock`: the reading of `time.Now()`;
    - `Ymd`: the raw year, month and day handed to `time.Date`.
- `CardList`: `ParseDeckList`, a loop over the split lines, proved against `DeckListSpec`.
- `EventInfo`: `ParseEventFormat` and `ParseEventDate`.
  - The six substring rules are kept in their order, and the format is proved to be the label of the first rule that applies.
  - The date function receives the current year as a parameter.
- `DeckHeaders`: the header pattern `<heading>(\S+) \((.+)\)</heading>`.
  - `HeaderAt` finds the match at one position: the longest pilot and the result that reaches the last `)</heading>` before the next newline.
  - `HeaderSpans` is `FindAllStringSubmatch`: successive leftmost matches, each search resuming where the previous match ended.
  - The header loop of `GetDeckHeaders` keeps the `len(match) == 3` guard and is proved never to drop a match.
- `Poller`: `GetEventDecks` and `GetNewEvents`, as loops proved against the predicates `AssembledDecks` and `IsNewEvent`, plus lemmas about the filter `Unseen`.

The HTTP fetches are parameters:

- `eventList: int -> WotcEventList` stands for `GetEventList`. A listing that fails to download or decode is the empty list.
- `eventPage: string -> string` stands for `GetPageContent` of an event's results page.
- `deckList: (string, nat) -> string` stands for `GetDeckList`.
- A failed fetch is the empty string, because the source converts a nil body to `""`.

The clock becomes the `year` parameter and the `Clock` value.

Behaviour worth noting:

- **Two headings on one line.** The greedy `(.+)` makes them one match, so they give one deck, not two. The lemma `ResultReachesLastCloseOnLine` proves this.
- **Date without `digits/digits`.** The code falls back to the current time, modelled as `Clock`. It does not return an error.
- **Failures are not errors.** A page or listing that fails to download gives an event with no decks or no events at all, not an error.

## Model

| member | source | states |
|---|---|---|
| Text.LeftmostRunNone | poller.go:21-22 | the scanner for `(\d+)SEP(T+)` reports no match exactly when no substring matches the pattern |
| Text.LeftmostRunSome | poller.go:21-22 | the match reported is the leftmost one; at that start the digit group is the only possible one and the second group is the longest possible |
| Text.SplitCrlf | poller.go:112 | `strings.Split(s, "\r\n")` always returns at least one piece, so empty input gives one empty line |
| Text.SplitCrlfIsSplit | poller.go:112 | the pieces of `strings.Split(s, "\r\n")`, joined with `"\r\n"`, give `s` back, and no piece holds `"\r\n"` |
| Text.SplitJoinCrlf | poller.go:112 | splitting a join of one or more `"\r\n"`-free lines gives the lines back, so the split is the unique such cutting |
| Text.DecimalValueBound | poller.go:120 | the `strconv.Atoi` value of a run of n digits is below 10^n |
| Text.DecimalValueLeadingZero | poller.go:120 | leading zeros do not change the `strconv.Atoi` value |
| Text.ContainsChars | poller.go:134 | `strings.Contains(s, sub)` implies that every character of `sub` occurs in `s` |
| CardList.CardOf | poller.go:118-121 | a line's card, when there is one, has a non-empty name without newlines that occurs in the line |
| CardList.CardOfIsRegexMatch | poller.go:118-121 | a line yields no card exactly when `(\d+) (.+)` does not match it; otherwise the card holds the decimal value of the first group and the text of the second group of the leftmost-first greedy match |
| CardList.CardOfEdgeCases | poller.go:118-121 | `"4 "` yields no card (the name needs one character), and `"0 X"` yields a card of count 0 named `"X"`, so a `Card.Number` (a `nat`, never negative) can be zero |
| CardList.ParseDeckList | poller.go:107-130 | the loop returns exactly `DeckListSpec`: the cards of the lines before the first empty line, and the cards of the lines after it |
| CardList.DeckListIsAllCards | poller.go:111-127 | main deck followed by sideboard is exactly the cards of all matching lines, in input order; the switching empty line and non-matching lines add nothing |
| CardList.DeckListWithoutBlank | poller.go:113-116 | with no empty line, the sideboard is empty and the main deck holds every matching line's card |
| CardList.DeckListLeadingBlank | poller.go:112-116 | empty input (which splits into one empty line) or a leading empty line leaves the main deck empty |
| EventInfo.FormatIsFirstRule | poller.go:133-146 | `ParseEventFormat`: when rule k is the first of Standard, Modern, Pauper, Classic, Sealed RTR Block, RTR Block whose pattern the name contains, the format is rule k's label |
| EventInfo.FormatFallsBack | poller.go:147-148 | `ParseEventFormat`: a name that no rule matches is returned unchanged |
| EventInfo.FormatRange | poller.go:132-149 | `ParseEventFormat`: every format is one of the six labels or the unchanged name |
| EventInfo.ReclassifyFormat | poller.go:142-145 | classifying a format again gives it back, except that "RTR Block Sealed" becomes "RTR Block" |
| EventInfo.SealedBlockExample | poller.go:142-143 | the name "Sealed RTR Block", which also holds "RTR Block", is labelled "RTR Block Sealed", not "RTR Block", because the more specific rule is tried first |
| EventInfo.ParseEventDate | poller.go:151-161 | the date is either the clock fallback or a date in the given year, never a zero time |
| EventInfo.ParseEventDateIsRegexMatch | poller.go:151-159 | the result is the clock exactly when the text holds no `digits/digits`. Otherwise it is (given year, first group, second group) of the leftmost-first greedy match |
| EventInfo.ParseEventDateExample | poller.go:152-156 | "3/15" in 2023 gives year 2023, month 3, day 15 |
| DeckHeaders.HeaderAt | poller.go:20 | a match found at i starts at i, has a non-empty pilot and a non-empty result, and its closing `)</heading>` lies inside the page |
| DeckHeaders.HeaderAtIsSpan | poller.go:20 | what `HeaderAt` reports matches the header pattern, with the pilot free of whitespace and the result free of newlines |
| DeckHeaders.HeaderAtIsGreedy | poller.go:20 | `HeaderAt` sees every match at a position and picks its only possible pilot and its longest possible result |
| DeckHeaders.FindHeader | poller.go:87 | the match found is at or after the search start, and no match starts between the search start and it |
| DeckHeaders.HeaderSpans | poller.go:87 | every reported span is the match at its start, and each begins at or after the end of the previous one (non-overlapping, in document order) |
| DeckHeaders.AllHeaders | poller.go:87 | every match of the whole page is the match at its start, and the matches do not overlap and follow document order |
| DeckHeaders.HeaderSpansCoverAllMatches | poller.go:20 | every position where the header pattern matches is the start of a reported match or lies inside one, so the reported matches are the leftmost-first ones |
| DeckHeaders.AllHeadersAreMatches | poller.go:20 | every span reported for the page is a match of the header pattern |
| DeckHeaders.FindAllStringSubmatch | poller.go:87 | one entry per reported match; each entry has length 3, lies where the header pattern matches, and holds the whole match, the text between `<heading>` and " (" and the text between " (" and `)</heading>` |
| DeckHeaders.HeaderDecks | poller.go:89-97 | one deck per match, in page order; each deck holds the two groups verbatim, so the length guard drops nothing |
| DeckHeaders.GetDeckHeaders | poller.go:84-100 | the same, on the page fetched for the event |
| DeckHeaders.PilotHasNoSpace | poller.go:20 | no pilot contains whitespace, and neither pilot nor result is empty |
| DeckHeaders.ResultReachesLastCloseOnLine | poller.go:87-97 | a result runs to the last `)</heading>` before the next newline, so two headings on one line make a single deck |
| Poller.GetEventDecks | poller.go:72-82 | the decks correspond one-to-one and in order to the header matches. Deck i keeps match i's pilot and result, gets the event's format, date and identifier, and gets as `MainDeck` and `Sideboard` the pair `ParseDeckList` returns for the list fetched as deck number i+1 |
| Poller.GetNewEvents | poller.go:55-70 | one event for each listing entry whose hyperlink is not mapped to true, in listing order. Each event's format is `ParseEventFormat` of the name, its date is `ParseEventDate` of the date text, its identifier is the hyperlink, and its `Decks` are assembled as `GetEventDecks` promises, one per header match of its page |
| Poller.Unseen | poller.go:58-61 | the reported entries are no more than the listed ones, and none has a hyperlink mapped to true |
| Poller.UnseenAppend | poller.go:58-68 | the filter commutes with concatenation, so listing order is kept |
| Poller.UnseenCount | poller.go:58-61 | each entry occurs in the output as many times as in the listing, or not at all when its hyperlink is mapped to true |
| Poller.UnseenMembers | poller.go:58-61 | an entry is reported if and only if it is listed and its hyperlink is not mapped to true (a missing key reads as false) |
| Poller.AllKnownUnseen | poller.go:58-61 | a listing whose every hyperlink is known yields no event |
| Poller.NoRediscovery | poller.go:58-61 | once the reported events are recorded as known, the same listing yields no event |
| Poller.DecksCarryListingEntry | data.go:7-35 | an `Event` built from a `WotcEvent` has one `Deck` per header match. Every deck's `EventID` is the entry's `Hyperlink`, its `Format` is classified from the entry's `Name`, and its `Date` is read from the entry's `Date` |

## Left out

- The HTTP client, the JSON decoding of the listing, logging, the files written per event and the program entry point are not modelled.
  - The fetches are function parameters.
  - A failed fetch or decode reads as the empty string or the empty listing, which is what the source then works on.
- `Poller.GetNewEvents`: `knownEvents` is a value parameter, so leaving it unchanged holds by construction. The source never writes to the map either.
- `Poller.GetEventDecks`: the source updates `*Deck` records in place through pointers. The model rebuilds each deck value at its position in the sequence.
  - Aliasing is not modelled.
  - No deck is shared outside its event, so the resulting contents are the same.
- `EventInfo.ParseEventDate`: `Ymd` keeps the raw month and day. The calendar normalisation of `time.Date` (month 13, day 40, …) is not modelled.
  - The current year and the fallback to `time.Now()` are the `year` parameter and the value `Clock`.
- `CardList.CardOfIsRegexMatch`: the count is the unbounded decimal value. The clamping of `strconv.Atoi` on counts beyond 64 bits is not modelled.
- Text is a sequence of characters. The UTF-8 decoding Go's `regexp` does on byte strings is not modelled.
- The general regular-expression engine is not modelled. Only the three patterns the poller compiles are written as scanners.
