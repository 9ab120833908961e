/**
 * The helpers for Discord HTML exports: the header and footer that frame
 * every output file, and `parse_message_date`, the five-branch search for
 * the year of one message's markup.
 */
module HtmlHelpers {
  import opened Options
  import opened Text
  import opened Patterns
  import opened Classifier

  /** The element that opens the message log. */
  const ChatlogOpen: string := "<div class=\"chatlog\">"

  /** The header used when the message log element is not found. */
  const DefaultHeader: string :=
    "<!DOCTYPE html><html><head><title>Discord Messages</title><meta charset='utf-8'></head><body>"

  /** Closes the message log, the body and the document. */
  const Footer: string := "</div></body></html>"

  /** How many characters of the export are read to find the header: 100 * 1024. */
  const HeaderWindow: nat := 102400

  /** The framing of an output file. */
  datatype Frame = Frame(header: string, footer: string)

  /**
   * `extract_html_header_footer`: the header is everything before the first
   * message log element, or the default header when there is none; the
   * footer is always the same.
   */
  function ExtractHeaderFooter(content: string): (f: Frame)
    ensures f.footer == Footer
    ensures Contains(content, ChatlogOpen) ==>
              OccursAt(content, ChatlogOpen, |f.header|) && f.header == content[..|f.header|] &&
              forall j :: 0 <= j < |f.header| ==> !OccursAt(content, ChatlogOpen, j)
    ensures !Contains(content, ChatlogOpen) ==> f.header == DefaultHeader
  {
    var start := Find(content, ChatlogOpen);
    var header := if start != -1 then content[..start] else DefaultHeader;
    Frame(header, Footer)
  }

  /** A header cut before the first marker holds no copy of the marker. */
  lemma HeaderHasNoMarker(content: string)
    requires Contains(content, ChatlogOpen)
    ensures !Contains(ExtractHeaderFooter(content).header, ChatlogOpen)
  {
    var h := ExtractHeaderFooter(content).header;
    forall j | 0 <= j <= |h| ensures !OccursAt(h, ChatlogOpen, j) {
      if j + |ChatlogOpen| <= |h| {
        assert h[j..j + |ChatlogOpen|] == content[j..j + |ChatlogOpen|];
        assert !OccursAt(content, ChatlogOpen, j);
      }
    }
  }

  /** `extract_html_parts`: the frame taken from the first 100 KB characters of the export. */
  function ExtractHtmlParts(text: string): (f: Frame)
    ensures f.footer == Footer
    ensures f.header == DefaultHeader ||
            (|f.header| + |ChatlogOpen| <= HeaderWindow && OccursAt(text, ChatlogOpen, |f.header|) &&
             f.header == text[..|f.header|])
  {
    ExtractHeaderFooter(text[..if |text| < HeaderWindow then |text| else HeaderWindow])
  }

  /** The marker occurs in a prefix exactly where it occurs in the text and fits in the prefix. */
  lemma PrefixOccurs(text: string, w: nat, j: int)
    requires w <= |text|
    ensures OccursAt(text[..w], ChatlogOpen, j) <==> OccursAt(text, ChatlogOpen, j) && j + |ChatlogOpen| <= w
  {
    if 0 <= j && j + |ChatlogOpen| <= w {
      assert text[..w][j..j + |ChatlogOpen|] == text[j..j + |ChatlogOpen|];
    }
  }

  /**
   * Reading only the first 100 KB changes nothing when the first marker
   * ends inside that window; when no marker starts early enough to fit in
   * the window, the default header is used even if the export has one later.
   */
  lemma HeaderWindowEffect(text: string)
    ensures Contains(text, ChatlogOpen) && Find(text, ChatlogOpen) + |ChatlogOpen| <= HeaderWindow ==>
              ExtractHtmlParts(text) == ExtractHeaderFooter(text)
    ensures (forall j :: 0 <= j && j + |ChatlogOpen| <= HeaderWindow ==> !OccursAt(text, ChatlogOpen, j)) ==>
              ExtractHtmlParts(text).header == DefaultHeader
  {
    var w := if |text| < HeaderWindow then |text| else HeaderWindow;
    var prefix := text[..w];
    if Contains(text, ChatlogOpen) && Find(text, ChatlogOpen) + |ChatlogOpen| <= HeaderWindow {
      var p := Find(text, ChatlogOpen);
      PrefixOccurs(text, w, p);
      var q := Find(prefix, ChatlogOpen);
      PrefixOccurs(text, w, q);
      assert q == p;
      assert prefix[..p] == text[..p];
    }
    if forall j :: 0 <= j && j + |ChatlogOpen| <= HeaderWindow ==> !OccursAt(text, ChatlogOpen, j) {
      forall j | 0 <= j <= |prefix| ensures !OccursAt(prefix, ChatlogOpen, j) {
        PrefixOccurs(text, w, j);
      }
    }
  }

  /** The first branch: the `title` of a timestamp span, searched for `D Month YYYY`. */
  function TitleBranch(html: string): (y: Option<string>)
    ensures y.Some? ==> |y.value| == 4 && AllDigits(y.value)
  {
    match Search(TimestampTitle, html)
    case None => None
    case Some(date) => Search(DayMonthYear, date)
  }

  /** The second branch: a `Message sent:` title, searched for `DD-Mon-YY`, through the two-digit rule. */
  function SentBranch(html: string): (y: Option<string>)
    ensures y.Some? ==> |y.value| == 4 && AllDigits(y.value) && 1950 <= DecimalValue(y.value) <= 2049
  {
    match Search(MessageSentTitle, html)
    case None => None
    case Some(date) =>
      match Search(ShortYearDash, date)
      case None => None
      case Some(yy) => Some(TwoDigitYear(yy))
  }

  /**
   * The date patterns tried on a timestamp's stripped text, in order:
   * `DD-Mon-YY` through the two-digit rule, then `D Month YYYY` with any
   * whitespace, then `Month D, YYYY`.
   */
  function TextDate(date: string): (y: Option<string>)
    ensures y.Some? ==> |y.value| == 4 && AllDigits(y.value)
  {
    match Search(ShortYearDash, date)
    case Some(yy) => Some(TwoDigitYear(yy))
    case None =>
      match Search(DayMonthYearSpaced, date)
      case Some(year) => Some(year)
      case None => Search(MonthDayYear, date)
  }

  /** The third branch: the text of a timestamp span, stripped, through `TextDate`. */
  function ContentBranch(html: string): (y: Option<string>)
    ensures y.Some? ==> |y.value| == 4 && AllDigits(y.value)
  {
    match Search(TimestampText, html)
    case None => None
    case Some(text) => TextDate(Strip(text))
  }

  /**
   * `parse_message_date`: the first branch that yields a year. A branch
   * whose outer match succeeds but whose date search fails falls through.
   */
  function ParseMessageDate(html: string): (y: Option<string>)
    ensures y.Some? ==> |y.value| == 4 && AllDigits(y.value)
  {
    if TitleBranch(html).Some? then TitleBranch(html)
    else if SentBranch(html).Some? then SentBranch(html)
    else ContentBranch(html)
  }

  /**
   * The cascade: a title date wins over everything; a title that has no
   * `D Month YYYY` date does not stop the search; the result is None only
   * when no branch yields a year; a year from a two-digit branch lies in
   * 1950..2049 and ends with the matched digits.
   */
  lemma ParseMessageDateCascade(html: string)
    ensures TitleBranch(html).Some? ==> ParseMessageDate(html) == TitleBranch(html)
    ensures Search(TimestampTitle, html).Some? && Search(DayMonthYear, Search(TimestampTitle, html).value).None? ==>
              ParseMessageDate(html) == (if SentBranch(html).Some? then SentBranch(html) else ContentBranch(html))
    ensures ParseMessageDate(html).None? <==>
              TitleBranch(html).None? && SentBranch(html).None? && ContentBranch(html).None?
    ensures TitleBranch(html).None? && SentBranch(html).Some? ==>
              var m := Search(ShortYearDash, Search(MessageSentTitle, html).value).value;
              ParseMessageDate(html).value[2..] == m && 1950 <= DecimalValue(ParseMessageDate(html).value) <= 2049
  {
  }

  /**
   * The order inside a timestamp's text: `DD-Mon-YY` wins over both
   * four-digit patterns, and `D Month YYYY` over `Month D, YYYY`.
   */
  lemma TextDateOrder(date: string)
    ensures Search(ShortYearDash, date).Some? ==>
              TextDate(date) == Some(TwoDigitYear(Search(ShortYearDash, date).value))
    ensures Search(ShortYearDash, date).None? && Search(DayMonthYearSpaced, date).Some? ==>
              TextDate(date) == Search(DayMonthYearSpaced, date)
    ensures TextDate(date).None? <==>
              (forall i :: 0 <= i <= |date| ==> MatchAt(ShortYearDash, date, i).None?) &&
              (forall i :: 0 <= i <= |date| ==> MatchAt(DayMonthYearSpaced, date, i).None?) &&
              (forall i :: 0 <= i <= |date| ==> MatchAt(MonthDayYear, date, i).None?)
  {
  }
}
