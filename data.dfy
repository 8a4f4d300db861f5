/** The records of data.go. Slices become sequences; `[]*Deck` becomes a sequence of
    deck values, which the assembly fills in position by position. */
module Data {

  /** The `time.Time` values the poller stores: `Zero` is the field of a freshly allocated
      record, `Clock` the reading of `time.Now()` that the date parser falls back to (the
      clock is not modelled), and `Ymd` the raw (year, month, day) triple handed to
      `time.Date`, before any normalisation of out-of-range months or days. */
  datatype Timestamp = Zero | Clock | Ymd(year: int, month: nat, day: nat)

  /** One line of a deck list: how many copies, and the card's name. */
  datatype Card = Card(number: nat, name: string)

  /** One participant's deck; format, date and eventID are copies of the event's. */
  datatype Deck = Deck(
    format: string,
    date: Timestamp,
    eventID: string,
    pilot: string,
    result: string,
    mainDeck: seq<Card>,
    sideboard: seq<Card>)

  /** One tournament and its decks, in the order of its results page. */
  datatype Event = Event(format: string, date: Timestamp, eventID: string, decks: seq<Deck>)

  /** One entry of the remote event listing, as decoded from its JSON. */
  datatype WotcEvent = WotcEvent(date: string, hyperlink: string, name: string)

  type WotcEventList = seq<WotcEvent>
}
