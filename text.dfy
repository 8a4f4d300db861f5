/** The parts of Go's `regexp`, `strings` and `strconv` packages that the poller relies on,
    written as small matchers over strings (`seq<char>`, one element per character; UTF-8
    decoding is not modelled). */
module Text {

  datatype Option<T> = None | Some(value: T)

  /** The character classes the poller's patterns use: `\d` (ASCII digits), `.` (every
      character but a newline, Go's default) and `\S` (everything outside Go's `\s`). */
  datatype CharClass = Digit | NotNewline | NotSpace

  /** Go's `\s`: tab, newline, form feed, carriage return and space (no vertical tab). */
  predicate IsSpace(c: char) {
    c == '\t' || c == '\n' || c == '\U{C}' || c == '\r' || c == ' '
  }

  predicate InClass(c: char, cls: CharClass) {
    match cls
    case Digit => '0' <= c <= '9'
    case NotNewline => c != '\n'
    case NotSpace => !IsSpace(c)
  }

  /** Where the longest run of `cls` characters that starts at `i` ends. */
  function RunEnd(s: string, i: nat, cls: CharClass): (j: nat)
    requires i <= |s|
    ensures i <= j <= |s|
    decreases |s| - i
  {
    if i == |s| || !InClass(s[i], cls) then i else RunEnd(s, i + 1, cls)
  }

  /** Every character of the run is in the class, and the one after it is not. */
  lemma {:induction false} RunEndSpec(s: string, i: nat, cls: CharClass)
    requires i <= |s|
    ensures forall x :: i <= x < RunEnd(s, i, cls) ==> InClass(s[x], cls)
    ensures RunEnd(s, i, cls) == |s| || !InClass(s[RunEnd(s, i, cls)], cls)
    decreases |s| - i
  {
    if i < |s| && InClass(s[i], cls) {
      RunEndSpec(s, i + 1, cls);
    }
  }

  /** A run that ends at `j` is the longest one: `RunEnd` is determined by its contract. */
  lemma RunEndIsFirstOutside(s: string, i: nat, j: nat, cls: CharClass)
    requires i <= j <= |s|
    requires forall x :: i <= x < j ==> InClass(s[x], cls)
    requires j == |s| || !InClass(s[j], cls)
    ensures RunEnd(s, i, cls) == j
  {
    RunEndSpec(s, i, cls);
  }

  // ---------------------------------------------------------------------------
  // Patterns of the shape `(\d+)` SEP `(T+)`: poller.go's card pattern `(\d+) (.+)`
  // (SEP is a space, T is `.`) and date pattern `(\d+)/(\d+)` (SEP is '/', T is `\d`).
  // ---------------------------------------------------------------------------

  /** Regular-expression semantics: the pattern matches `s[i..k]`, the first group being
      `s[i..j]`, the separator `s[j]` and the second group `s[j + 1..k]`. */
  ghost predicate RunSpan(s: string, sep: char, t: CharClass, i: int, j: int, k: int) {
    0 <= i < j && j + 1 < k <= |s| &&
    (forall x :: i <= x < j ==> InClass(s[x], Digit)) &&
    s[j] == sep &&
    (forall x :: j < x < k ==> InClass(s[x], t))
  }

  /** Among all matches, the one Go's leftmost-first, greedy engine reports: no match
      starts earlier, and at the same start the first group cannot be chosen otherwise
      and the second group is as long as possible. */
  ghost predicate IsLeftmostGreedy(s: string, sep: char, t: CharClass, i: int, j: int, k: int) {
    RunSpan(s, sep, t, i, j, k) &&
    forall i', j', k' :: RunSpan(s, sep, t, i', j', k') ==> i < i' || (i == i' && j == j' && k' <= k)
  }

  /** The scanner's test whether some match starts at `i`. */
  predicate RunMatchAt(s: string, i: nat, sep: char, t: CharClass) {
    i < |s| && InClass(s[i], Digit) &&
    var j := RunEnd(s, i + 1, Digit);
    j + 1 < |s| && s[j] == sep && InClass(s[j + 1], t)
  }

  /** The first position at or after `from` where a match starts. */
  function FindRun(s: string, from: nat, sep: char, t: CharClass): (r: Option<nat>)
    requires from <= |s|
    ensures r.Some? ==> from <= r.value && RunMatchAt(s, r.value, sep, t)
    ensures forall p :: from <= p < (if r.Some? then r.value else |s|) ==> !RunMatchAt(s, p, sep, t)
    decreases |s| - from
  {
    if from == |s| then None
    else if RunMatchAt(s, from, sep, t) then Some(from)
    else FindRun(s, from + 1, sep, t)
  }

  /** `FindStringSubmatch` for `(\d+)` SEP `(T+)`: `Some((i, j, k))` when the groups are
      `s[i..j]` and `s[j + 1..k]`, `None` when the pattern does not match. */
  function LeftmostRun(s: string, sep: char, t: CharClass): Option<(nat, nat, nat)>
  {
    match FindRun(s, 0, sep, t)
    case None => None
    case Some(i) =>
      var j := RunEnd(s, i + 1, Digit);
      Some((i, j, RunEnd(s, j + 1, t)))
  }

  /** Every match starting at `i` is seen by the scanner, and its first group and the
      bound of its second group are the ones the scanner computes. */
  lemma RunSpanIsFound(s: string, sep: char, t: CharClass, i: nat, j: nat, k: nat)
    requires !InClass(sep, Digit)
    requires RunSpan(s, sep, t, i, j, k)
    ensures RunMatchAt(s, i, sep, t)
    ensures j == RunEnd(s, i + 1, Digit) && k <= RunEnd(s, j + 1, t)
  {
    RunEndIsFirstOutside(s, i + 1, j, Digit);
    RunEndSpec(s, j + 1, t);
  }

  /** `LeftmostRun` reports `None` exactly when the pattern matches nowhere. */
  lemma LeftmostRunNone(s: string, sep: char, t: CharClass)
    requires !InClass(sep, Digit)
    ensures LeftmostRun(s, sep, t).None? <==> forall i, j, k :: !RunSpan(s, sep, t, i, j, k)
  {
    if LeftmostRun(s, sep, t).None? {
      forall i, j, k | RunSpan(s, sep, t, i, j, k)
        ensures false
      {
        RunSpanIsFound(s, sep, t, i, j, k);
      }
    } else {
      LeftmostRunSome(s, sep, t);
    }
  }

  /** What `LeftmostRun` reports is the leftmost-first, greedy match. */
  lemma LeftmostRunSome(s: string, sep: char, t: CharClass)
    requires !InClass(sep, Digit)
    requires LeftmostRun(s, sep, t).Some?
    ensures IsLeftmostGreedy(s, sep, t, LeftmostRun(s, sep, t).value.0,
                             LeftmostRun(s, sep, t).value.1, LeftmostRun(s, sep, t).value.2)
  {
    var i := FindRun(s, 0, sep, t).value;
    var j := RunEnd(s, i + 1, Digit);
    var k := RunEnd(s, j + 1, t);
    RunEndSpec(s, i + 1, Digit);
    RunEndSpec(s, j + 1, t);
    assert RunSpan(s, sep, t, i, j, k);
    forall i', j', k' | RunSpan(s, sep, t, i', j', k')
      ensures i < i' || (i == i' && j == j' && k' <= k)
    {
      RunSpanIsFound(s, sep, t, i', j', k');
    }
  }

  /** `strconv.Atoi` on a string of ASCII digits, without the clamping of huge values. */
  function DecimalValue(ds: string): nat
    decreases |ds|
  {
    if ds == [] then 0 else 10 * DecimalValue(ds[..|ds| - 1]) + DigitValue(ds[|ds| - 1])
  }

  function DigitValue(c: char): nat {
    if '0' <= c <= '9' then c as int - '0' as int else 0
  }

  function Pow10(n: nat): nat {
    if n == 0 then 1 else 10 * Pow10(n - 1)
  }

  /** A run of `n` digits stands for a number below `10^n`. */
  lemma {:induction false} DecimalValueBound(ds: string)
    ensures DecimalValue(ds) < Pow10(|ds|)
    decreases |ds|
  {
    if ds != [] {
      DecimalValueBound(ds[..|ds| - 1]);
    }
  }

  /** Leading zeros do not change the value, as with `strconv.Atoi`. */
  lemma {:induction false} DecimalValueLeadingZero(ds: string)
    ensures DecimalValue("0" + ds) == DecimalValue(ds)
    decreases |ds|
  {
    if ds == [] {
      assert DecimalValue("0") == 10 * DecimalValue("") + DigitValue('0');
    } else {
      var init := ds[..|ds| - 1];
      assert ("0" + ds)[..|"0" + ds| - 1] == "0" + init;
      DecimalValueLeadingZero(init);
    }
  }

  // ---------------------------------------------------------------------------
  // strings.Contains and strings.Split(s, "\r\n")
  // ---------------------------------------------------------------------------

  /** `strings.Contains`. */
  predicate Contains(s: string, sub: string) {
    exists i | 0 <= i <= |s| :: sub <= s[i..]
  }

  /** A string contains only characters of the strings it contains. */
  lemma {:induction false} ContainsChars(s: string, sub: string, c: char)
    requires Contains(s, sub) && c in sub
    ensures c in s
  {
    var i :| 0 <= i <= |s| && sub <= s[i..];
    var x :| 0 <= x < |sub| && sub[x] == c;
    assert s[i + x] == s[i..][x];
  }

  predicate CrlfAt(s: string, p: int) {
    0 <= p && p + 1 < |s| && s[p] == '\r' && s[p + 1] == '\n'
  }

  predicate HasCrlf(s: string) {
    exists p | 0 <= p < |s| :: CrlfAt(s, p)
  }

  /** The first "\r\n" at or after `from`. */
  function FirstCrlf(s: string, from: nat): (r: Option<nat>)
    requires from <= |s|
    ensures r.Some? ==> from <= r.value && CrlfAt(s, r.value)
    ensures forall p :: from <= p < (if r.Some? then r.value else |s|) ==> !CrlfAt(s, p)
    decreases |s| - from
  {
    if from == |s| then None
    else if CrlfAt(s, from) then Some(from)
    else FirstCrlf(s, from + 1)
  }

  /** `strings.Join(lines, "\r\n")`. */
  function JoinCrlf(lines: seq<string>): string
  {
    if |lines| == 0 then ""
    else if |lines| == 1 then lines[0]
    else lines[0] + "\r\n" + JoinCrlf(lines[1..])
  }

  /** `strings.Split(s, "\r\n")`: the pieces between the separators, found left to right;
      there is always at least one (an empty `s` gives `[""]`). */
  function SplitCrlf(s: string): (lines: seq<string>)
    ensures |lines| >= 1
    decreases |s|
  {
    match FirstCrlf(s, 0)
    case None => [s]
    case Some(p) => [s[..p]] + SplitCrlf(s[p + 2..])
  }

  /** The pieces joined back give `s`, and no piece holds the separator. */
  lemma {:induction false} SplitCrlfIsSplit(s: string)
    ensures JoinCrlf(SplitCrlf(s)) == s
    ensures forall n :: 0 <= n < |SplitCrlf(s)| ==> !HasCrlf(SplitCrlf(s)[n])
    decreases |s|
  {
    match FirstCrlf(s, 0)
    case None =>
    case Some(p) =>
      var rest := SplitCrlf(s[p + 2..]);
      SplitCrlfIsSplit(s[p + 2..]);
      assert SplitCrlf(s) == [s[..p]] + rest;
      assert ([s[..p]] + rest)[1..] == rest;
      assert !HasCrlf(s[..p]) by {
        forall q | 0 <= q < p ensures !CrlfAt(s[..p], q) {
          assert !CrlfAt(s, q);
        }
      }
  }

  /** Splitting undoes joining: the pieces are determined by the string, so `SplitCrlf`
      is the only way to cut `s` into separator-free lines. */
  lemma {:induction false} SplitJoinCrlf(lines: seq<string>)
    requires |lines| >= 1
    requires forall n :: 0 <= n < |lines| ==> !HasCrlf(lines[n])
    ensures SplitCrlf(JoinCrlf(lines)) == lines
  {
    var s := JoinCrlf(lines);
    if |lines| == 1 {
      var r := FirstCrlf(s, 0);
      assert r.Some? ==> CrlfAt(lines[0], r.value);
    } else {
      var l0 := lines[0];
      var rest := JoinCrlf(lines[1..]);
      assert s == l0 + "\r\n" + rest;
      assert CrlfAt(s, |l0|);
      forall p | 0 <= p < |l0| ensures !CrlfAt(s, p) {
        if p + 1 < |l0| {
          if CrlfAt(s, p) { assert CrlfAt(l0, p); }
        } else {
          assert s[p + 1] == '\r';
        }
      }
      var r := FirstCrlf(s, 0);
      assert r == Some(|l0|);
      assert s[..|l0|] == l0;
      assert s[|l0| + 2..] == rest;
      SplitJoinCrlf(lines[1..]);
    }
  }
}
