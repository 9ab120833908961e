/**
 * Message records and the year classifiers of the two splitter variants.
 *
 * The HTML parser is not modelled: a batch reaches `process_messages_batch`
 * as a sequence of records, each holding the markup the writer copies out
 * (`str(group)`) and the timestamp spans found inside it, in document order,
 * with their text and their `title` attribute if present.
 */
module Classifier {
  import opened Options
  import opened Text
  import opened Patterns

  /** A `<span class="chatlog__timestamp">`: its text and its `title` attribute, if any. */
  datatype Span = Span(text: string, title: Option<string>)

  /** A message group (or message container): its markup and its timestamp spans. */
  datatype MessageRecord = MessageRecord(markup: string, timestamps: seq<Span>)

  /** `int(s)` for two ASCII digits is below 100, and a two-character prefix scales by 100. */
  lemma {:induction false} DecimalTwo(p: string, yy: string)
    requires AllDigits(p) && |yy| == 2 && AllDigits(yy)
    ensures AllDigits(p + yy)
    ensures DecimalValue(yy) < 100
    ensures DecimalValue(p + yy) == DecimalValue(p) * 100 + DecimalValue(yy)
  {
    var s := p + yy;
    assert s[..|s| - 1] == p + yy[..1];
    assert (p + yy[..1])[..|p + yy[..1]| - 1] == p;
    TwoDigits(yy);
    assert s[|s| - 1] == yy[1] && (p + yy[..1])[|p|] == yy[0];
  }

  /** The value of two ASCII digits. */
  lemma TwoDigits(d: string)
    requires |d| == 2 && AllDigits(d)
    ensures DecimalValue(d) == DigitValue(d[0]) * 10 + DigitValue(d[1])
  {
    assert d[..1][..0] == [];
    assert DecimalValue(d[..1]) == DigitValue(d[0]);
  }

  /**
   * The two-digit year rule: `"20" + yy` when `int(yy) < 50`, else `"19" + yy`.
   * The result is the one four-digit year ending in `yy` in 1950..2049.
   */
  function TwoDigitYear(yy: string): (y: string)
    requires |yy| == 2 && AllDigits(yy)
    ensures |y| == 4 && AllDigits(y) && y[2..] == yy
    ensures 1950 <= DecimalValue(y) <= 2049
  {
    var prefix := if DecimalValue(yy) < 50 then "20" else "19";
    DecimalTwo(prefix, yy);
    assert DecimalValue(prefix) == if DecimalValue(yy) < 50 then 20 else 19 by {
      assert prefix[..1][..0] == [];
    }
    assert (prefix + yy)[2..] == yy;
    prefix + yy
  }

  /** The four-digit string with value 19 or 20. */
  lemma {:induction false} CenturyDigits(p: string)
    requires |p| == 2 && AllDigits(p)
    ensures DecimalValue(p) == 19 ==> p == "19"
    ensures DecimalValue(p) == 20 ==> p == "20"
  {
    TwoDigits(p);
  }

  /** No other four-digit year ending in `yy` lies in 1950..2049. */
  lemma TwoDigitYearUnique(yy: string, y: string)
    requires |yy| == 2 && AllDigits(yy)
    requires |y| == 4 && AllDigits(y) && y[2..] == yy
    requires 1950 <= DecimalValue(y) <= 2049
    ensures y == TwoDigitYear(yy)
  {
    var p := y[..2];
    assert y == p + yy;
    DecimalTwo(p, yy);
    CenturyDigits(p);
    DecimalTwo(TwoDigitYear(yy)[..2], yy);
    assert TwoDigitYear(yy) == TwoDigitYear(yy)[..2] + yy;
  }

  lemma TwoDigitYearExamples()
    ensures TwoDigitYear("49") == "2049"
    ensures TwoDigitYear("50") == "1950"
    ensures TwoDigitYear("00") == "2000"
    ensures TwoDigitYear("99") == "1999"
    ensures TwoDigitYear("20") == "2020"
  {
    assert DecimalValue("49") == 49 by { assert "49"[..1] == "4"; assert "4"[..0] == []; }
    assert DecimalValue("50") == 50 by { assert "50"[..1] == "5"; assert "5"[..0] == []; }
    assert DecimalValue("00") == 0 by { assert "00"[..1] == "0"; assert "0"[..0] == []; }
    assert DecimalValue("99") == 99 by { assert "99"[..1] == "9"; assert "9"[..0] == []; }
    assert DecimalValue("20") == 20 by { assert "20"[..1] == "2"; assert "2"[..0] == []; }
  }

  /** A matched year group: two digits go through the two-digit rule, any other length is kept. */
  function NormalizeYear(g: string): (y: string)
    requires |g| == 2 ==> AllDigits(g)
    ensures |g| == 2 ==> |y| == 4 && AllDigits(y) && y[2..] == g && 1950 <= DecimalValue(y) <= 2049
    ensures |g| != 2 ==> y == g
  {
    if |g| == 2 then TwoDigitYear(g) else g
  }

  /** The stripped text of the first timestamp span of a group. */
  function FirstTimestampText(r: MessageRecord): string
    requires r.timestamps != []
  {
    Strip(r.timestamps[0].text)
  }

  /**
   * The year of a message group in the package variant: the stripped text
   * of its first timestamp span, searched for `DD-Mon-YY` first and
   * `DD/MM/YYYY` second. None means the group is dropped.
   */
  function GroupYear(r: MessageRecord): (y: Option<string>)
    ensures y.Some? ==> |y.value| == 4 && AllDigits(y.value)
  {
    if r.timestamps == [] then None
    else
      var t := FirstTimestampText(r);
      var m := if Search(ShortYearDash, t).Some? then Search(ShortYearDash, t) else Search(SlashDate, t);
      if m.Some? then Some(NormalizeYear(m.value)) else None
  }

  /**
   * A group is kept exactly when it has a timestamp span whose stripped
   * text matches one of the two patterns somewhere; the dash pattern wins
   * and its two-digit group goes through the two-digit rule; otherwise the
   * four-digit group of the slash pattern is the year as it stands.
   */
  lemma GroupYearCases(r: MessageRecord)
    ensures r.timestamps == [] ==> GroupYear(r).None?
    ensures r.timestamps != [] ==>
              var t := FirstTimestampText(r);
              (GroupYear(r).Some? <==>
                 (exists i :: 0 <= i <= |t| && MatchAt(ShortYearDash, t, i).Some?) ||
                 (exists i :: 0 <= i <= |t| && MatchAt(SlashDate, t, i).Some?))
    ensures r.timestamps != [] && Search(ShortYearDash, FirstTimestampText(r)).Some? ==>
              GroupYear(r) == Some(TwoDigitYear(Search(ShortYearDash, FirstTimestampText(r)).value))
    ensures r.timestamps != [] && Search(ShortYearDash, FirstTimestampText(r)).None? ==>
              GroupYear(r) == Search(SlashDate, FirstTimestampText(r))
  {
  }

  /**
   * The year of a message container in the script variant: the `title` of
   * its first timestamp span, searched for `D Month YYYY`; the four-digit
   * group is the year, with no two-digit rule. None means the message is dropped.
   */
  function ContainerYear(r: MessageRecord): (y: Option<string>)
    ensures y.Some? ==> |y.value| == 4 && AllDigits(y.value)
  {
    if r.timestamps == [] || r.timestamps[0].title.None? then None
    else Search(DayMonthYear, r.timestamps[0].title.value)
  }

  /**
   * A message is dropped exactly when it has no timestamp span, its first
   * span has no `title`, or the title has no `D Month YYYY` match; otherwise
   * the year is the group of the leftmost match.
   */
  lemma ContainerYearCases(r: MessageRecord)
    ensures ContainerYear(r).Some? <==>
              r.timestamps != [] && r.timestamps[0].title.Some? &&
              exists i :: 0 <= i <= |r.timestamps[0].title.value| &&
                          MatchAt(DayMonthYear, r.timestamps[0].title.value, i).Some?
    ensures ContainerYear(r).Some? ==>
              var t := r.timestamps[0].title.value;
              exists i :: 0 <= i <= |t| && MatchAt(DayMonthYear, t, i) == ContainerYear(r) &&
                          forall j :: 0 <= j < i ==> MatchAt(DayMonthYear, t, j).None?
  {
  }
}
