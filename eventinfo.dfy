/** `ParseEventFormat` and `ParseEventDate` of poller.go: the format label and the date
    taken from one entry of the event listing. */
module EventInfo {
  import opened Text
  import opened Data

  /** The substring tests of `ParseEventFormat`, in the order they are tried, each with
      the label it yields. "Sealed RTR Block" comes before "RTR Block", which it contains. */
  const FormatRules: seq<(string, string)> := [
    ("Standard", "Standard"),
    ("Modern", "Modern"),
    ("Pauper", "Pauper"),
    ("Classic", "Classic"),
    ("Sealed RTR Block", "RTR Block Sealed"),
    ("RTR Block", "RTR Block")
  ]

  /** `ParseEventFormat`. */
  function ParseEventFormat(eventName: string): string
  {
    if Contains(eventName, "Standard") then "Standard"
    else if Contains(eventName, "Modern") then "Modern"
    else if Contains(eventName, "Pauper") then "Pauper"
    else if Contains(eventName, "Classic") then "Classic"
    else if Contains(eventName, "Sealed RTR Block") then "RTR Block Sealed"
    else if Contains(eventName, "RTR Block") then "RTR Block"
    else eventName
  }

  /** No earlier rule than `k` applies to `eventName`. */
  ghost predicate NoEarlierRule(eventName: string, k: nat)
    requires k <= |FormatRules|
  {
    forall k' :: 0 <= k' < k ==> !Contains(eventName, FormatRules[k'].0)
  }

  /** The format is the label of the first rule whose pattern occurs in the name. */
  lemma FormatIsFirstRule(eventName: string, k: nat)
    requires k < |FormatRules|
    requires Contains(eventName, FormatRules[k].0) && NoEarlierRule(eventName, k)
    ensures ParseEventFormat(eventName) == FormatRules[k].1
  {
    if k > 0 { assert !Contains(eventName, FormatRules[0].0); }
    if k > 1 { assert !Contains(eventName, FormatRules[1].0); }
    if k > 2 { assert !Contains(eventName, FormatRules[2].0); }
    if k > 3 { assert !Contains(eventName, FormatRules[3].0); }
    if k > 4 { assert !Contains(eventName, FormatRules[4].0); }
    if k == 0 {
    } else if k == 1 {
    } else if k == 2 {
    } else if k == 3 {
    } else if k == 4 {
    } else {
      assert k == 5;
    }
  }

  /** A name that no rule recognises is its own format. */
  lemma FormatFallsBack(eventName: string)
    requires NoEarlierRule(eventName, |FormatRules|)
    ensures ParseEventFormat(eventName) == eventName
  {
    assert !Contains(eventName, FormatRules[0].0);
    assert !Contains(eventName, FormatRules[1].0);
    assert !Contains(eventName, FormatRules[2].0);
    assert !Contains(eventName, FormatRules[3].0);
    assert !Contains(eventName, FormatRules[4].0);
    assert !Contains(eventName, FormatRules[5].0);
  }

  /** Every format is one of the six labels or the unchanged name. */
  lemma FormatRange(eventName: string)
    ensures var format := ParseEventFormat(eventName);
      format == eventName || exists k :: 0 <= k < |FormatRules| && format == FormatRules[k].1
  {
    var format := ParseEventFormat(eventName);
    if format != eventName {
      var ls := seq(6, n requires 0 <= n < 6 => FormatRules[n].1);
      assert ls == ["Standard", "Modern", "Pauper", "Classic", "RTR Block Sealed", "RTR Block"];
      assert format in ls;
    }
  }

  lemma ContainsItself(s: string)
    ensures Contains(s, s)
  {
    assert s <= s[0..];
  }

  lemma {:induction false} Lacks(s: string, sub: string, c: char)
    requires c in sub && c !in s
    ensures !Contains(s, sub)
  {
    if Contains(s, sub) {
      ContainsChars(s, sub, c);
    }
  }

  lemma StandardIsFixed() ensures ParseEventFormat("Standard") == "Standard" {
    ContainsItself("Standard");
  }

  lemma ModernIsFixed() ensures ParseEventFormat("Modern") == "Modern" {
    Lacks("Modern", "Standard", 'S');
    ContainsItself("Modern");
  }

  lemma PauperIsFixed() ensures ParseEventFormat("Pauper") == "Pauper" {
    Lacks("Pauper", "Standard", 'S');
    Lacks("Pauper", "Modern", 'M');
    ContainsItself("Pauper");
  }

  lemma ClassicIsFixed() ensures ParseEventFormat("Classic") == "Classic" {
    Lacks("Classic", "Standard", 'S');
    Lacks("Classic", "Modern", 'M');
    Lacks("Classic", "Pauper", 'P');
    ContainsItself("Classic");
  }

  lemma BlockIsFixed() ensures ParseEventFormat("RTR Block") == "RTR Block" {
    var s := "RTR Block";
    Lacks(s, "Standard", 'S');
    Lacks(s, "Modern", 'M');
    Lacks(s, "Pauper", 'P');
    Lacks(s, "Classic", 'C');
    Lacks(s, "Sealed RTR Block", 'S');
    ContainsItself(s);
  }

  lemma SealedLacksEarlierRules()
    ensures !Contains("RTR Block Sealed", "Standard") && !Contains("RTR Block Sealed", "Modern")
    ensures !Contains("RTR Block Sealed", "Pauper") && !Contains("RTR Block Sealed", "Classic")
  {
    SealedLacks("Standard", 'n');
    SealedLacks("Modern", 'M');
    SealedLacks("Pauper", 'P');
    SealedLacks("Classic", 'C');
  }

  lemma SealedLacks(sub: string, c: char)
    requires c in sub && c !in "RTR Block Sealed"
    ensures !Contains("RTR Block Sealed", sub)
  {
    Lacks("RTR Block Sealed", sub, c);
  }

  lemma SealedLacksSealedRule()
    ensures !Contains("RTR Block Sealed", "Sealed RTR Block")
  {
    var s := "RTR Block Sealed";
    forall i | 0 <= i <= |s| ensures !("Sealed RTR Block" <= s[i..]) {
      if i == 0 {
        assert s[0..][0] == 'R';
      }
    }
  }

  lemma SealedBecomesBlock() ensures ParseEventFormat("RTR Block Sealed") == "RTR Block" {
    SealedLacksEarlierRules();
    SealedLacksSealedRule();
    var s := "RTR Block Sealed";
    assert "RTR Block" <= s[0..];
  }

  /** Classifying a format again gives it back, with one exception: "RTR Block Sealed"
      holds "RTR Block" but not "Sealed RTR Block", so it becomes "RTR Block". */
  lemma ReclassifyFormat(eventName: string)
    ensures var format := ParseEventFormat(eventName);
      ParseEventFormat(format) == if format == "RTR Block Sealed" then "RTR Block" else format
  {
    var format := ParseEventFormat(eventName);
    if format == "Standard" {
      StandardIsFixed();
    } else if format == "Modern" {
      ModernIsFixed();
    } else if format == "Pauper" {
      PauperIsFixed();
    } else if format == "Classic" {
      ClassicIsFixed();
    } else if format == "RTR Block" {
      BlockIsFixed();
    } else if format == "RTR Block Sealed" {
      SealedBecomesBlock();
    }
  }

  /** The example name holds none of the patterns of the first four rules. */
  lemma ExampleLacksEarlierRules()
    ensures !Contains("Sealed RTR Block", "Standard") && !Contains("Sealed RTR Block", "Modern")
    ensures !Contains("Sealed RTR Block", "Pauper") && !Contains("Sealed RTR Block", "Classic")
  {
    var s := "Sealed RTR Block";
    Lacks(s, "Standard", 'n');
    Lacks(s, "Modern", 'M');
    Lacks(s, "Pauper", 'P');
    Lacks(s, "Classic", 'C');
  }

  /** The more specific Sealed rule wins over the bare "RTR Block" rule, which the name
      also contains. */
  lemma SealedBlockExample()
    ensures ParseEventFormat("Sealed RTR Block") == "RTR Block Sealed"
  {
    ExampleLacksEarlierRules();
    ContainsItself("Sealed RTR Block");
  }

  /** `ParseEventDate`, with the current year passed in as `year`: the first two digit
      runs of the leftmost `(\d+)/(\d+)` match give the month and the day; without a
      match the source falls back to the clock, modelled as `Clock`. */
  function ParseEventDate(eventDate: string, year: int): (date: Timestamp)
    ensures date.Clock? || (date.Ymd? && date.year == year)
  {
    match LeftmostRun(eventDate, '/', Digit)
    case None => Clock
    case Some((i, j, k)) => Ymd(year, DecimalValue(eventDate[i..j]), DecimalValue(eventDate[j + 1..k]))
  }

  /** The date is the clock exactly when the text holds no `digits/digits`; otherwise it
      carries the given year and the two groups of the leftmost-first, greedy match. */
  lemma ParseEventDateIsRegexMatch(eventDate: string, year: int)
    ensures ParseEventDate(eventDate, year).Clock? <==>
      forall i, j, k :: !RunSpan(eventDate, '/', Digit, i, j, k)
    ensures ParseEventDate(eventDate, year).Ymd? ==> exists i, j, k ::
      IsLeftmostGreedy(eventDate, '/', Digit, i, j, k) &&
      ParseEventDate(eventDate, year) == Ymd(year, DecimalValue(eventDate[i..j]), DecimalValue(eventDate[j + 1..k]))
  {
    LeftmostRunNone(eventDate, '/', Digit);
    if ParseEventDate(eventDate, year).Ymd? {
      LeftmostRunSome(eventDate, '/', Digit);
      var m := LeftmostRun(eventDate, '/', Digit).value;
      assert IsLeftmostGreedy(eventDate, '/', Digit, m.0, m.1, m.2);
    }
  }

  /** A listing date such as "3/15" is read with the given year. */
  lemma ParseEventDateExample()
    ensures ParseEventDate("3/15", 2023) == Ymd(2023, 3, 15)
  {
    var s := "3/15";
    assert RunEnd(s, 1, Digit) == 1;
    assert RunEnd(s, 2, Digit) == 4;
    assert RunMatchAt(s, 0, '/', Digit);
    assert s[0..1] == "3" && s[2..4] == "15";
    assert DecimalValue("3") == 3;
    assert DecimalValue("15") == 10 * DecimalValue("1") + 5;
  }
}
