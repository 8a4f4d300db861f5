/** `GetEventDecks` and `GetNewEvents` of poller.go: the listing is filtered against the
    events already known, and every new event is classified, dated and filled with the
    decks of its results page. The HTTP fetches are parameters: `eventList` stands for
    `GetEventList` (an undecodable listing reads as the empty list), `eventPage` for the
    fetch of an event's results page and `deckList` for `GetDeckList`; a failed fetch
    reads as the empty string. */
module Poller {
  import opened Text
  import opened Data
  import opened CardList
  import opened EventInfo
  import opened DeckHeaders

  /** `knownEvents[h]` of a Go `map[string]bool`: a missing key reads as false. */
  predicate IsKnown(known: map<string, bool>, hyperlink: string) {
    hyperlink in known && known[hyperlink]
  }

  /** The listing entries whose hyperlink is not known, in listing order. */
  function Unseen(known: map<string, bool>, listing: WotcEventList): (unseen: WotcEventList)
    ensures |unseen| <= |listing|
    ensures forall n :: 0 <= n < |unseen| ==> !IsKnown(known, unseen[n].hyperlink)
    decreases |listing|
  {
    if listing == [] then []
    else
      var last := listing[|listing| - 1];
      Unseen(known, listing[..|listing| - 1]) + (if IsKnown(known, last.hyperlink) then [] else [last])
  }

  /** What `GetEventDecks` promises of `decks` for the event `ev`: one deck per header
      match of its results page, in page order; deck `n` carries the event's format, date
      and identifier, the pilot and result of match `n`, and the parsed list fetched as
      deck number `n + 1`. */
  predicate AssembledDecks(ev: Event, decks: seq<Deck>, eventPage: string -> string,
                           deckList: (string, nat) -> string)
  {
    var body := eventPage(ev.eventID);
    var spans := AllHeaders(body);
    |decks| == |spans| &&
    forall n :: 0 <= n < |decks| ==>
      decks[n].format == ev.format && decks[n].date == ev.date && decks[n].eventID == ev.eventID &&
      decks[n].pilot == Pilot(body, spans[n]) && decks[n].result == Result(body, spans[n]) &&
      (decks[n].mainDeck, decks[n].sideboard) == DeckListSpec(deckList(ev.eventID, n + 1))
  }

  /** `GetEventDecks`: the headers come first, then every deck in turn gets the event's
      fields and its own list. Only `format`, `date` and `eventID` of `ev` are read. */
  method GetEventDecks(ev: Event, eventPage: string -> string, deckList: (string, nat) -> string)
    returns (decks: seq<Deck>)
    ensures AssembledDecks(ev, decks, eventPage, deckList)
  {
    decks := GetDeckHeaders(ev.eventID, eventPage);
    ghost var headers := decks;
    ghost var parsed: seq<(seq<Card>, seq<Card>)> := [];
    for i := 0 to |decks|
      invariant |decks| == |headers| && |parsed| == i
      invariant forall n :: 0 <= n < i ==> parsed[n] == DeckListSpec(deckList(ev.eventID, n + 1))
      invariant forall n :: 0 <= n < i ==> decks[n] == Completed(ev, headers[n], parsed[n])
      invariant forall n :: i <= n < |decks| ==> decks[n] == headers[n]
    {
      var deck := decks[i].(format := ev.format, date := ev.date, eventID := ev.eventID);
      var listText := deckList(ev.eventID, i + 1);
      var mainDeck, sideboard := ParseDeckList(listText);
      decks := decks[i := deck.(mainDeck := mainDeck, sideboard := sideboard)];
      parsed := parsed + [(mainDeck, sideboard)];
    }
    CompletedHeadersAreAssembled(ev, headers, parsed, decks, eventPage, deckList);
  }

  /** A header deck after the loop of `GetEventDecks` has filled it in. */
  ghost function Completed(ev: Event, header: Deck, lists: (seq<Card>, seq<Card>)): Deck {
    header.(format := ev.format, date := ev.date, eventID := ev.eventID,
            mainDeck := lists.0, sideboard := lists.1)
  }

  /** Filling in every header deck of the page with the event's fields and its parsed
      list gives the assembled decks. */
  lemma CompletedHeadersAreAssembled(ev: Event, headers: seq<Deck>, parsed: seq<(seq<Card>, seq<Card>)>,
                                     decks: seq<Deck>, eventPage: string -> string,
                                     deckList: (string, nat) -> string)
    requires |headers| == |AllHeaders(eventPage(ev.eventID))|
    requires forall n :: 0 <= n < |headers| ==>
      var body := eventPage(ev.eventID);
      headers[n] == HeaderDeck(Pilot(body, AllHeaders(body)[n]), Result(body, AllHeaders(body)[n]))
    requires |parsed| == |decks| == |headers|
    requires forall n :: 0 <= n < |parsed| ==> parsed[n] == DeckListSpec(deckList(ev.eventID, n + 1))
    requires forall n :: 0 <= n < |decks| ==> decks[n] == Completed(ev, headers[n], parsed[n])
    ensures AssembledDecks(ev, decks, eventPage, deckList)
  {
  }

  /** What `GetNewEvents` promises of the event built from the listing entry `link`. */
  predicate IsNewEvent(ev: Event, link: WotcEvent, year: int, eventPage: string -> string,
                       deckList: (string, nat) -> string)
  {
    ev.format == ParseEventFormat(link.name) &&
    ev.date == ParseEventDate(link.date, year) &&
    ev.eventID == link.hyperlink &&
    AssembledDecks(ev, ev.decks, eventPage, deckList)
  }

  /** `GetNewEvents`: one event per unseen listing entry, in listing order. `year` is the
      current year that `ParseEventDate` reads from the clock. */
  method GetNewEvents(known: map<string, bool>, daysToRetrieve: int, eventList: int -> WotcEventList,
                      year: int, eventPage: string -> string, deckList: (string, nat) -> string)
    returns (newEvents: seq<Event>)
    ensures |newEvents| == |Unseen(known, eventList(daysToRetrieve))|
    ensures forall n :: 0 <= n < |newEvents| ==>
      IsNewEvent(newEvents[n], Unseen(known, eventList(daysToRetrieve))[n], year, eventPage, deckList)
  {
    var evList := eventList(daysToRetrieve);
    newEvents := [];
    ghost var unseen: WotcEventList := [];
    for i := 0 to |evList|
      invariant unseen == Unseen(known, evList[..i])
      invariant |newEvents| == |unseen|
      invariant forall n :: 0 <= n < |newEvents| ==> IsNewEvent(newEvents[n], unseen[n], year, eventPage, deckList)
    {
      var evLink := evList[i];
      UnseenStep(known, evList, i);
      if IsKnown(known, evLink.hyperlink) {
        continue;
      }
      var ev := Event(ParseEventFormat(evLink.name), ParseEventDate(evLink.date, year), evLink.hyperlink, []);
      var decks := GetEventDecks(ev, eventPage, deckList);
      newEvents := newEvents + [ev.(decks := decks)];
      unseen := unseen + [evLink];
    }
    assert evList[..|evList|] == evList;
  }

  /** One more listing entry adds itself to the unseen ones unless it is known. */
  lemma UnseenStep(known: map<string, bool>, listing: WotcEventList, i: nat)
    requires i < |listing|
    ensures Unseen(known, listing[..i + 1]) ==
            Unseen(known, listing[..i]) + (if IsKnown(known, listing[i].hyperlink) then [] else [listing[i]])
  {
    assert listing[..i + 1][..i] == listing[..i];
  }

  /** Filtering respects concatenation, so the order of the listing is kept. */
  lemma {:induction false} UnseenAppend(known: map<string, bool>, a: WotcEventList, b: WotcEventList)
    ensures Unseen(known, a + b) == Unseen(known, a) + Unseen(known, b)
    decreases |b|
  {
    if b != [] {
      var b' := b[..|b| - 1];
      assert (a + b)[..|a + b| - 1] == a + b';
      UnseenAppend(known, a, b');
    } else {
      assert a + b == a;
    }
  }

  /** An entry is reported exactly when it is listed and its hyperlink is not known, and
      every copy of a listed entry is reported as often as it is listed. */
  lemma {:induction false} UnseenCount(known: map<string, bool>, listing: WotcEventList, e: WotcEvent)
    ensures multiset(Unseen(known, listing))[e] ==
            if IsKnown(known, e.hyperlink) then 0 else multiset(listing)[e]
    decreases |listing|
  {
    if listing != [] {
      var init := listing[..|listing| - 1];
      assert listing == init + [listing[|listing| - 1]];
      UnseenCount(known, init, e);
    }
  }

  /** Membership, both ways. */
  lemma UnseenMembers(known: map<string, bool>, listing: WotcEventList, e: WotcEvent)
    ensures e in Unseen(known, listing) <==> e in listing && !IsKnown(known, e.hyperlink)
  {
    UnseenCount(known, listing, e);
    assert e in Unseen(known, listing) <==> multiset(Unseen(known, listing))[e] > 0;
    assert e in listing <==> multiset(listing)[e] > 0;
  }

  /** `known` extended by the hyperlinks of `events`, all mapped to true, which is what
      recording the new events as known does. */
  function MarkKnown(known: map<string, bool>, events: WotcEventList): (marked: map<string, bool>)
    ensures forall e :: e in events ==> IsKnown(marked, e.hyperlink)
    ensures forall h :: IsKnown(known, h) ==> IsKnown(marked, h)
    decreases |events|
  {
    if events == [] then known
    else MarkKnown(known, events[1..])[events[0].hyperlink := true]
  }

  /** Once the reported entries are recorded as known, the same listing yields nothing. */
  lemma {:induction false} NoRediscovery(known: map<string, bool>, listing: WotcEventList)
    ensures Unseen(MarkKnown(known, Unseen(known, listing)), listing) == []
  {
    var marked := MarkKnown(known, Unseen(known, listing));
    forall e | e in listing
      ensures IsKnown(marked, e.hyperlink)
    {
      UnseenMembers(known, listing, e);
    }
    AllKnownUnseen(marked, listing);
  }

  /** A listing whose every hyperlink is known yields nothing. */
  lemma {:induction false} AllKnownUnseen(known: map<string, bool>, listing: WotcEventList)
    requires forall e :: e in listing ==> IsKnown(known, e.hyperlink)
    ensures Unseen(known, listing) == []
    decreases |listing|
  {
    if listing != [] {
      var init := listing[..|listing| - 1];
      assert forall e :: e in init ==> e in listing;
      assert listing[|listing| - 1] in listing;
      AllKnownUnseen(known, init);
    }
  }

  /** Every deck of a new event carries the listing entry it came from: the entry's
      hyperlink as its event identifier, the format classified from the entry's name and
      the date read from the entry's date text; the event has one deck per header match. */
  lemma DecksCarryListingEntry(ev: Event, link: WotcEvent, year: int, eventPage: string -> string,
                               deckList: (string, nat) -> string)
    requires IsNewEvent(ev, link, year, eventPage, deckList)
    ensures |ev.decks| == |AllHeaders(eventPage(link.hyperlink))|
    ensures forall d :: d in ev.decks ==>
      d.eventID == link.hyperlink && d.format == ParseEventFormat(link.name) &&
      d.date == ParseEventDate(link.date, year)
  {
  }
}
