/** Worked examples of the two classifiers on concrete timestamps. */
module ClassifierExamples {
  import opened Options
  import opened Text
  import opened Patterns
  import opened Classifier

  /** A string that is its own `strip()`: it neither starts nor ends with whitespace. */
  lemma StripUnchanged(s: string)
    requires s != [] && !IsSpace(s[0]) && !IsSpace(s[|s| - 1])
    ensures Strip(s) == s
  {
  }

  /** The dash pattern needs a `-`: a text without one has no match. */
  lemma NoDashNoShortYear(s: string)
    requires forall k :: 0 <= k < |s| ==> s[k] != '-'
    ensures Search(ShortYearDash, s).None?
  {
    forall i | 0 <= i <= |s| ensures MatchAt(ShortYearDash, s, i).None? {
      assert !CharAt(s, DayEnd(s, i), '-');
    }
  }

  /** A match at index 0 is the leftmost one. */
  lemma SearchAtStart(p: Pattern, s: string)
    requires MatchAt(p, s, 0).Some?
    ensures Search(p, s) == MatchAt(p, s, 0)
  {
    assert LeftmostFrom(p, s, 0) == 0;
  }

  /** `(\d{1,2})-(\w+)-(\d{2})` on `15-Jan-2023` reads the two digits after the second hyphen. */
  lemma DashMatchExample()
    ensures Search(ShortYearDash, "15-Jan-2023") == Some("20")
  {
    var s := "15-Jan-2023";
    assert DigitsAt(s, 0, 2) && DayEnd(s, 0) == 2;
    RunEndIs(s, 3, 6, Word);
    assert DigitsAt(s, 7, 2) && CharAt(s, 2, '-') && CharAt(s, 6, '-') && s[7..9] == "20";
    SearchAtStart(ShortYearDash, s);
  }

  /** `15-Jan-2023`: the dash pattern reads `20`, so the year is 2020. */
  lemma DashTimestampExample()
    ensures GroupYear(MessageRecord("<div>", [Span("15-Jan-2023", None)])) == Some("2020")
  {
    var s := "15-Jan-2023";
    StripUnchanged(s);
    DashMatchExample();
    TwoDigitYearExamples();
    var r := MessageRecord("<div>", [Span(s, None)]);
    assert FirstTimestampText(r) == s;
  }

  /** `(\d{1,2})/(\d{2})/(\d{4})` on `03/15/2023` reads the four-digit year. */
  lemma SlashMatchExample()
    ensures Search(SlashDate, "03/15/2023") == Some("2023")
  {
    var s := "03/15/2023";
    assert DigitsAt(s, 0, 2) && DayEnd(s, 0) == 2;
    assert CharAt(s, 2, '/') && DigitsAt(s, 3, 2) && CharAt(s, 5, '/') && DigitsAt(s, 6, 4);
    assert s[6..10] == "2023";
    SearchAtStart(SlashDate, s);
  }

  /** `03/15/2023`: no dash match, so the slash pattern gives the four-digit year unchanged. */
  lemma SlashTimestampExample()
    ensures GroupYear(MessageRecord("<div>", [Span("03/15/2023", None)])) == Some("2023")
  {
    var s := "03/15/2023";
    StripUnchanged(s);
    NoDashNoShortYear(s);
    SlashMatchExample();
    var r := MessageRecord("<div>", [Span(s, None)]);
    assert FirstTimestampText(r) == s;
  }

  /** A group without a timestamp span is dropped. */
  lemma NoSpanExample()
    ensures GroupYear(MessageRecord("<div>", [])) == None
    ensures ContainerYear(MessageRecord("<div>", [])) == None
  {
  }

  /** `(\d{1,2}) (\w+) (\d{4})` on `15 Jan 2023` reads the four-digit year. */
  lemma TitleMatchExample()
    ensures Search(DayMonthYear, "15 Jan 2023") == Some("2023")
  {
    var s := "15 Jan 2023";
    assert DigitsAt(s, 0, 2) && DayEnd(s, 0) == 2 && CharAt(s, 2, ' ');
    RunEndIs(s, 3, 6, Word);
    assert CharAt(s, 6, ' ') && DigitsAt(s, 7, 4) && s[7..11] == "2023";
    SearchAtStart(DayMonthYear, s);
  }

  /** A title `15 Jan 2023` gives 2023; the same text without a title attribute is dropped. */
  lemma TitleExample()
    ensures ContainerYear(MessageRecord("<div>", [Span("", Some("15 Jan 2023"))])) == Some("2023")
    ensures ContainerYear(MessageRecord("<div>", [Span("15 Jan 2023", None)])) == None
  {
    TitleMatchExample();
  }
}
