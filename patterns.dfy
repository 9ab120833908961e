/**
 * The regular expressions of the splitter, each written out as an explicit
 * matcher over ASCII character classes instead of a regex engine.
 *
 * `MatchAt(p, s, i)` is the group the program reads from a match of `p`
 * that starts exactly at index `i` (None when no match starts there), and
 * `Search(p, s)` is `re.search(p, s)`: the group of the leftmost match.
 *
 * Python's matcher is greedy with backtracking. For these patterns the
 * backtracking never changes the outcome, because every greedy run is
 * followed by a character outside its own class: `\d{1,2}` is always
 * followed by a non-digit (`-`, `/`, a space or a comma), `\w+` by `-`, a
 * space or whitespace, `\s+` by a digit or a word character, `[^"]+` by `"`,
 * `[^<]+` by `<`, and `[^>]*` by `>`. A shorter run would leave a character
 * of its own class where the next element needs one outside it, so only the
 * longest run can succeed. Two places differ and are written out below:
 * - `[^>]*title="([^"]+)"` gives back characters until `title="` follows
 *   with a non-empty value closed by `"`, so the match uses the LAST such
 *   `title="` that starts before the first `>`;
 * - `\s*([^"]+)"` gives back one whitespace character to `[^"]+` when the
 *   whitespace run is followed directly by `"`.
 */
module Patterns {
  import opened Options
  import opened Text

  /** The character classes the patterns use. */
  datatype CharClass = Digit | Word | Space | NotQuote | NotGreater | NotLess

  predicate InClass(c: char, cls: CharClass) {
    match cls
    case Digit => IsDigit(c)
    case Word => IsWordChar(c)
    case Space => IsSpace(c)
    case NotQuote => c != '"'
    case NotGreater => c != '>'
    case NotLess => c != '<'
  }

  /** The end of the longest run of `cls` characters that starts at `i`. */
  function RunEnd(s: string, i: nat, cls: CharClass): (e: nat)
    requires i <= |s|
    ensures i <= e <= |s|
    ensures forall k :: i <= k < e ==> InClass(s[k], cls)
    ensures e < |s| ==> !InClass(s[e], cls)
    decreases |s| - i
  {
    if i < |s| && InClass(s[i], cls) then RunEnd(s, i + 1, cls) else i
  }

  /** A run of `cls` from `i` that stops at `e` is the one `RunEnd` finds. */
  lemma RunEndIs(s: string, i: nat, e: nat, cls: CharClass)
    requires i <= e <= |s|
    requires forall k :: i <= k < e ==> InClass(s[k], cls)
    requires e < |s| ==> !InClass(s[e], cls)
    ensures RunEnd(s, i, cls) == e
  {
  }

  /** `s[a..b]` is a run of `cls` characters (possibly empty). */
  ghost predicate ClassRun(s: string, a: int, b: int, cls: CharClass) {
    0 <= a <= b <= |s| && forall k :: a <= k < b ==> InClass(s[k], cls)
  }

  predicate CharAt(s: string, i: int, c: char) {
    0 <= i < |s| && s[i] == c
  }

  predicate DigitsAt(s: string, i: int, n: nat) {
    0 <= i && i + n <= |s| && AllDigits(s[i..i + n])
  }

  /**
   * The end of `\d{1,2}` at `i`, or -1. In every pattern the next element
   * needs a non-digit, so the two-digit choice is the only one that can
   * succeed when two digits are present.
   */
  function DayEnd(s: string, i: nat): (e: int)
    ensures e == -1 || (i < e <= |s| && e <= i + 2)
  {
    if DigitsAt(s, i, 2) then i + 2 else if DigitsAt(s, i, 1) then i + 1 else -1
  }

  /** `\d{1,2}` matches `s[i..d]`. */
  ghost predicate DayRun(s: string, i: int, d: int) {
    i < d <= i + 2 && DigitsAt(s, i, d - i)
  }

  /** A `\d{1,2}` match followed by a non-digit is the one `DayEnd` finds. */
  lemma DayEndIs(s: string, i: nat, d: int)
    requires DayRun(s, i, d) && d < |s| && !IsDigit(s[d])
    ensures DayEnd(s, i) == d
  {
    if d == i + 1 {
      assert !DigitsAt(s, i, 2) by {
        assert s[i..i + 2][1] == s[i + 1];
      }
    }
  }

  const TimestampSpanOpen: string := "<span class=\"chatlog__timestamp\""
  const TitleOpen: string := "title=\""
  const MessageSentOpen: string := "title=\"Message sent:"
  const SpanClose: string := "</span>"

  /** The regular expressions, with the group the program reads from each. */
  datatype Pattern =
    | ShortYearDash       // (\d{1,2})-(\w+)-(\d{2})                                -> group 3
    | SlashDate           // (\d{1,2})/(\d{2})/(\d{4})                              -> group 3
    | DayMonthYear        // (\d{1,2}) (\w+) (\d{4})                                -> group 3
    | DayMonthYearSpaced  // (\d{1,2})\s+(\w+)\s+(\d{4})                            -> group 3
    | MonthDayYear        // (\w+)\s+(\d{1,2}),\s+(\d{4})                           -> group 3
    | TimestampTitle      // <span class="chatlog__timestamp"[^>]*title="([^"]+)"   -> group 1
    | MessageSentTitle    // title="Message sent:\s*([^"]+)"                        -> group 1
    | TimestampText       // <span class="chatlog__timestamp"[^>]*>([^<]+)</span>   -> group 1
  {
    /** The five date patterns, whose group is the year. */
    predicate IsDatePattern() {
      !(TimestampTitle? || MessageSentTitle? || TimestampText?)
    }

    /** How many digits the year group of a date pattern has. */
    function YearDigits(): nat {
      if ShortYearDash? then 2 else 4
    }
  }

  /** `(\d{1,2})-(\w+)-(\d{2})` at `i`: group 3. */
  function ShortYearDashAt(s: string, i: nat): (g: Option<string>)
    ensures g.Some? ==> |g.value| == 2 && AllDigits(g.value)
  {
    var d := DayEnd(s, i);
    if d < 0 || !CharAt(s, d, '-') then None
    else
      var e := RunEnd(s, d + 1, Word);
      if e > d + 1 && CharAt(s, e, '-') && DigitsAt(s, e + 1, 2) then Some(s[e + 1..e + 3]) else None
  }

  /** `(\d{1,2})-(\w+)-(\d{2})` read as a language: day `s[i..d]`, month `s[d + 1..e]`, year `s[e + 1..e + 3]`. */
  ghost predicate ShortYearDashSplit(s: string, i: int, d: int, e: int) {
    DayRun(s, i, d) && CharAt(s, d, '-') && d + 1 < e && ClassRun(s, d + 1, e, Word) &&
    CharAt(s, e, '-') && DigitsAt(s, e + 1, 2)
  }

  lemma ShortYearDashGroup(s: string, i: nat, d: int, e: int)
    requires ShortYearDashSplit(s, i, d, e)
    ensures ShortYearDashAt(s, i) == Some(s[e + 1..e + 3])
  {
    DayEndIs(s, i, d);
    RunEndIs(s, d + 1, e, Word);
  }

  /**
   * The matcher agrees with the pattern read as a language: it matches at
   * `i` exactly when the text splits as the pattern says, and then group 3
   * is the year of every such split.
   */
  lemma ShortYearDashRegex(s: string, i: nat)
    ensures ShortYearDashAt(s, i).Some? <==> exists d, e :: ShortYearDashSplit(s, i, d, e)
    ensures forall d, e :: ShortYearDashSplit(s, i, d, e) ==> ShortYearDashAt(s, i) == Some(s[e + 1..e + 3])
  {
    forall d, e | ShortYearDashSplit(s, i, d, e) ensures ShortYearDashAt(s, i) == Some(s[e + 1..e + 3]) {
      ShortYearDashGroup(s, i, d, e);
    }
    if ShortYearDashAt(s, i).Some? {
      var d := DayEnd(s, i);
      assert ShortYearDashSplit(s, i, d, RunEnd(s, d + 1, Word));
    }
  }

  /** `(\d{1,2})/(\d{2})/(\d{4})` at `i`: group 3. */
  function SlashDateAt(s: string, i: nat): (g: Option<string>)
    ensures g.Some? ==> |g.value| == 4 && AllDigits(g.value)
  {
    var d := DayEnd(s, i);
    if d < 0 || !CharAt(s, d, '/') || !DigitsAt(s, d + 1, 2) || !CharAt(s, d + 3, '/') || !DigitsAt(s, d + 4, 4)
    then None
    else Some(s[d + 4..d + 8])
  }

  /** `(\d{1,2})/(\d{2})/(\d{4})` read as a language: day `s[i..d]`, month `s[d + 1..d + 3]`, year `s[d + 4..d + 8]`. */
  ghost predicate SlashDateSplit(s: string, i: int, d: int) {
    DayRun(s, i, d) && CharAt(s, d, '/') && DigitsAt(s, d + 1, 2) && CharAt(s, d + 3, '/') && DigitsAt(s, d + 4, 4)
  }

  /** The slash matcher agrees with the pattern read as a language, with the same group 3 for every split. */
  lemma SlashDateRegex(s: string, i: nat)
    ensures SlashDateAt(s, i).Some? <==> exists d :: SlashDateSplit(s, i, d)
    ensures forall d :: SlashDateSplit(s, i, d) ==> SlashDateAt(s, i) == Some(s[d + 4..d + 8])
  {
    forall d | SlashDateSplit(s, i, d) ensures SlashDateAt(s, i) == Some(s[d + 4..d + 8]) {
      DayEndIs(s, i, d);
    }
    if SlashDateAt(s, i).Some? {
      assert SlashDateSplit(s, i, DayEnd(s, i));
    }
  }

  /** `(\d{1,2}) (\w+) (\d{4})` at `i`: group 3. */
  function DayMonthYearAt(s: string, i: nat): (g: Option<string>)
    ensures g.Some? ==> |g.value| == 4 && AllDigits(g.value)
  {
    var d := DayEnd(s, i);
    if d < 0 || !CharAt(s, d, ' ') then None
    else
      var e := RunEnd(s, d + 1, Word);
      if e > d + 1 && CharAt(s, e, ' ') && DigitsAt(s, e + 1, 4) then Some(s[e + 1..e + 5]) else None
  }

  /** `(\d{1,2}) (\w+) (\d{4})` read as a language: day `s[i..d]`, month `s[d + 1..e]`, year `s[e + 1..e + 5]`. */
  ghost predicate DayMonthYearSplit(s: string, i: int, d: int, e: int) {
    DayRun(s, i, d) && CharAt(s, d, ' ') && d + 1 < e && ClassRun(s, d + 1, e, Word) &&
    CharAt(s, e, ' ') && DigitsAt(s, e + 1, 4)
  }

  lemma DayMonthYearGroup(s: string, i: nat, d: int, e: int)
    requires DayMonthYearSplit(s, i, d, e)
    ensures DayMonthYearAt(s, i) == Some(s[e + 1..e + 5])
  {
    DayEndIs(s, i, d);
    RunEndIs(s, d + 1, e, Word);
  }

  /** The `D Month YYYY` matcher agrees with the pattern read as a language, with the same group 3 for every split. */
  lemma DayMonthYearRegex(s: string, i: nat)
    ensures DayMonthYearAt(s, i).Some? <==> exists d, e :: DayMonthYearSplit(s, i, d, e)
    ensures forall d, e :: DayMonthYearSplit(s, i, d, e) ==> DayMonthYearAt(s, i) == Some(s[e + 1..e + 5])
  {
    forall d, e | DayMonthYearSplit(s, i, d, e) ensures DayMonthYearAt(s, i) == Some(s[e + 1..e + 5]) {
      DayMonthYearGroup(s, i, d, e);
    }
    if DayMonthYearAt(s, i).Some? {
      var d := DayEnd(s, i);
      assert DayMonthYearSplit(s, i, d, RunEnd(s, d + 1, Word));
    }
  }

  /** `(\d{1,2})\s+(\w+)\s+(\d{4})` at `i`: group 3. */
  function DayMonthYearSpacedAt(s: string, i: nat): (g: Option<string>)
    ensures g.Some? ==> |g.value| == 4 && AllDigits(g.value)
  {
    var d := DayEnd(s, i);
    if d < 0 then None
    else
      var w1 := RunEnd(s, d, Space);
      var e := RunEnd(s, w1, Word);
      var w2 := RunEnd(s, e, Space);
      if w1 > d && e > w1 && w2 > e && DigitsAt(s, w2, 4) then Some(s[w2..w2 + 4]) else None
  }

  /**
   * `(\d{1,2})\s+(\w+)\s+(\d{4})` read as a language: day `s[i..d]`,
   * whitespace `s[d..w1]`, month `s[w1..e]`, whitespace `s[e..w2]`, year `s[w2..w2 + 4]`.
   */
  ghost predicate DayMonthYearSpacedSplit(s: string, i: int, d: int, w1: int, e: int, w2: int) {
    DayRun(s, i, d) && d < w1 && ClassRun(s, d, w1, Space) && w1 < e && ClassRun(s, w1, e, Word) &&
    e < w2 && ClassRun(s, e, w2, Space) && DigitsAt(s, w2, 4)
  }

  lemma DayMonthYearSpacedGroup(s: string, i: nat, d: int, w1: int, e: int, w2: int)
    requires DayMonthYearSpacedSplit(s, i, d, w1, e, w2)
    ensures DayMonthYearSpacedAt(s, i) == Some(s[w2..w2 + 4])
  {
    DayEndIs(s, i, d);
    RunEndIs(s, d, w1, Space);
    RunEndIs(s, w1, e, Word);
    assert IsDigit(s[w2..w2 + 4][0]);
    RunEndIs(s, e, w2, Space);
  }

  /** The spaced `D Month YYYY` matcher agrees with the pattern read as a language, with the same group 3 for every split. */
  lemma DayMonthYearSpacedRegex(s: string, i: nat)
    ensures DayMonthYearSpacedAt(s, i).Some? <==> exists d, w1, e, w2 :: DayMonthYearSpacedSplit(s, i, d, w1, e, w2)
    ensures forall d, w1, e, w2 :: DayMonthYearSpacedSplit(s, i, d, w1, e, w2) ==>
              DayMonthYearSpacedAt(s, i) == Some(s[w2..w2 + 4])
  {
    forall d, w1, e, w2 | DayMonthYearSpacedSplit(s, i, d, w1, e, w2)
      ensures DayMonthYearSpacedAt(s, i) == Some(s[w2..w2 + 4])
    {
      DayMonthYearSpacedGroup(s, i, d, w1, e, w2);
    }
    if DayMonthYearSpacedAt(s, i).Some? {
      var d := DayEnd(s, i);
      var w1 := RunEnd(s, d, Space);
      var e := RunEnd(s, w1, Word);
      assert DayMonthYearSpacedSplit(s, i, d, w1, e, RunEnd(s, e, Space));
    }
  }

  /** `(\w+)\s+(\d{1,2}),\s+(\d{4})` at `i`: group 3. */
  function MonthDayYearAt(s: string, i: nat): (g: Option<string>)
    ensures g.Some? ==> |g.value| == 4 && AllDigits(g.value)
  {
    if i > |s| then None
    else
      var e := RunEnd(s, i, Word);
      var w1 := RunEnd(s, e, Space);
      var d := DayEnd(s, w1);
      if e == i || w1 == e || d < 0 || !CharAt(s, d, ',') then None
      else
        var w2 := RunEnd(s, d + 1, Space);
        if w2 > d + 1 && DigitsAt(s, w2, 4) then Some(s[w2..w2 + 4]) else None
  }

  /**
   * `(\w+)\s+(\d{1,2}),\s+(\d{4})` read as a language: month `s[i..e]`,
   * whitespace `s[e..w1]`, day `s[w1..d]`, a comma, whitespace `s[d + 1..w2]`, year `s[w2..w2 + 4]`.
   */
  ghost predicate MonthDayYearSplit(s: string, i: int, e: int, w1: int, d: int, w2: int) {
    i < e && ClassRun(s, i, e, Word) && e < w1 && ClassRun(s, e, w1, Space) && DayRun(s, w1, d) &&
    CharAt(s, d, ',') && d + 1 < w2 && ClassRun(s, d + 1, w2, Space) && DigitsAt(s, w2, 4)
  }

  lemma MonthDayYearGroup(s: string, i: nat, e: int, w1: int, d: int, w2: int)
    requires MonthDayYearSplit(s, i, e, w1, d, w2)
    ensures MonthDayYearAt(s, i) == Some(s[w2..w2 + 4])
  {
    RunEndIs(s, i, e, Word);
    assert IsDigit(s[w1..d][0]);
    RunEndIs(s, e, w1, Space);
    DayEndIs(s, w1, d);
    assert IsDigit(s[w2..w2 + 4][0]);
    RunEndIs(s, d + 1, w2, Space);
  }

  /** The `Month D, YYYY` matcher agrees with the pattern read as a language, with the same group 3 for every split. */
  lemma MonthDayYearRegex(s: string, i: nat)
    ensures MonthDayYearAt(s, i).Some? <==> exists e, w1, d, w2 :: MonthDayYearSplit(s, i, e, w1, d, w2)
    ensures forall e, w1, d, w2 :: MonthDayYearSplit(s, i, e, w1, d, w2) ==> MonthDayYearAt(s, i) == Some(s[w2..w2 + 4])
  {
    forall e, w1, d, w2 | MonthDayYearSplit(s, i, e, w1, d, w2) ensures MonthDayYearAt(s, i) == Some(s[w2..w2 + 4]) {
      MonthDayYearGroup(s, i, e, w1, d, w2);
    }
    if MonthDayYearAt(s, i).Some? {
      var e := RunEnd(s, i, Word);
      var w1 := RunEnd(s, e, Space);
      var d := DayEnd(s, w1);
      assert MonthDayYearSplit(s, i, e, w1, d, RunEnd(s, d + 1, Space));
    }
  }

  /** `([^"]+)"` at `a`: the non-empty run of non-quote characters, which must be closed by `"`. */
  function QuotedValueAt(s: string, a: nat): (g: Option<string>)
    requires a <= |s|
    ensures g.Some? ==> g.value != [] && OccursAt(s, g.value + "\"", a)
  {
    var q := RunEnd(s, a, NotQuote);
    if a < q < |s| then
      assert s[a..q + 1] == s[a..q] + "\"";
      Some(s[a..q])
    else None
  }

  /** `title="([^"]+)"` at `p`. */
  function TitleValueAt(s: string, p: nat): Option<string> {
    if OccursAt(s, TitleOpen, p) then QuotedValueAt(s, p + |TitleOpen|) else None
  }

  /**
   * `[^>]*` greedily followed by `title="([^"]+)"`: the run of non-`>`
   * characters from `lo` ends at `hi`, and the matcher gives characters back
   * from `hi` down to `lo` until a title value follows.
   */
  function LastTitleValue(s: string, lo: nat, hi: nat): (g: Option<string>)
    requires lo <= hi <= |s|
    ensures g.Some? <==> exists p :: lo <= p <= hi && TitleValueAt(s, p).Some?
    ensures g.Some? ==> exists p :: lo <= p <= hi && TitleValueAt(s, p) == g &&
                                    forall q :: p < q <= hi ==> TitleValueAt(s, q).None?
    decreases hi
  {
    if TitleValueAt(s, hi).Some? then TitleValueAt(s, hi)
    else if hi == lo then None
    else LastTitleValue(s, lo, hi - 1)
  }

  /** `<span class="chatlog__timestamp"[^>]*title="([^"]+)"` at `i`: group 1. */
  function TimestampTitleAt(s: string, i: nat): (g: Option<string>)
    ensures g.Some? ==> g.value != []
  {
    if !OccursAt(s, TimestampSpanOpen, i) then None
    else
      var a := i + |TimestampSpanOpen|;
      LastTitleValue(s, a, RunEnd(s, a, NotGreater))
  }

  /**
   * `<span class="chatlog__timestamp"[^>]*title="([^"]+)"` read as a
   * language: `[^>]*` is `s[i + |TimestampSpanOpen|..p]`, `title="` starts
   * at `p`, and the value runs up to the closing quote at `q`.
   */
  ghost predicate TimestampTitleSplit(s: string, i: int, p: int, q: int) {
    OccursAt(s, TimestampSpanOpen, i) && ClassRun(s, i + |TimestampSpanOpen|, p, NotGreater) &&
    OccursAt(s, TitleOpen, p) && p + |TitleOpen| < q && ClassRun(s, p + |TitleOpen|, q, NotQuote) && CharAt(s, q, '"')
  }

  /** A title value closed by its first quote is the one `TitleValueAt` reads. */
  lemma TitleValueIs(s: string, p: nat, q: int)
    requires OccursAt(s, TitleOpen, p) && p + |TitleOpen| < q && ClassRun(s, p + |TitleOpen|, q, NotQuote) && CharAt(s, q, '"')
    ensures TitleValueAt(s, p) == Some(s[p + |TitleOpen|..q])
  {
    RunEndIs(s, p + |TitleOpen|, q, NotQuote);
  }

  /** Every split of the title pattern lies inside the `[^>]*` run, and the matcher reads some value there. */
  lemma TimestampTitleSplitGives(s: string, i: nat, p: int, q: int)
    requires TimestampTitleSplit(s, i, p, q)
    ensures p <= RunEnd(s, i + |TimestampSpanOpen|, NotGreater)
    ensures TitleValueAt(s, p) == Some(s[p + |TitleOpen|..q])
    ensures TimestampTitleAt(s, i).Some?
  {
    TitleValueIs(s, p, q);
  }

  /**
   * The title matcher agrees with the pattern read as a language: it
   * matches exactly when some split exists, and its group is the value of
   * the split whose `[^>]*` is longest, the one greedy backtracking finds first.
   */
  lemma TimestampTitleRegex(s: string, i: nat)
    ensures TimestampTitleAt(s, i).Some? <==> exists p, q :: TimestampTitleSplit(s, i, p, q)
    ensures TimestampTitleAt(s, i).Some? ==>
              exists p, q :: TimestampTitleSplit(s, i, p, q) && TimestampTitleAt(s, i) == Some(s[p + |TitleOpen|..q]) &&
                             forall p2, q2 :: TimestampTitleSplit(s, i, p2, q2) ==> p2 <= p
  {
    forall p, q | TimestampTitleSplit(s, i, p, q) ensures TimestampTitleAt(s, i).Some? {
      TimestampTitleSplitGives(s, i, p, q);
    }
    var g := TimestampTitleAt(s, i);
    if g.Some? {
      var a := i + |TimestampSpanOpen|;
      var hi := RunEnd(s, a, NotGreater);
      var p :| a <= p <= hi && TitleValueAt(s, p) == g && forall r :: p < r <= hi ==> TitleValueAt(s, r).None?;
      TimestampTitleLatest(s, i, p);
    }
  }

  /**
   * The value the matcher reads at `p`, the last title in the `[^>]*` run,
   * comes from a split, and no split puts `title="` later.
   */
  lemma TimestampTitleLatest(s: string, i: nat, p: nat)
    requires OccursAt(s, TimestampSpanOpen, i)
    requires i + |TimestampSpanOpen| <= p <= RunEnd(s, i + |TimestampSpanOpen|, NotGreater)
    requires TitleValueAt(s, p).Some?
    requires forall r :: p < r <= RunEnd(s, i + |TimestampSpanOpen|, NotGreater) ==> TitleValueAt(s, r).None?
    ensures var q := RunEnd(s, p + |TitleOpen|, NotQuote);
            TimestampTitleSplit(s, i, p, q) && TitleValueAt(s, p) == Some(s[p + |TitleOpen|..q])
    ensures forall p2, q2 :: TimestampTitleSplit(s, i, p2, q2) ==> p2 <= p
  {
    forall p2, q2 | TimestampTitleSplit(s, i, p2, q2) ensures p2 <= p {
      TimestampTitleSplitGives(s, i, p2, q2);
    }
  }

  /** `title="Message sent:\s*([^"]+)"` at `i`: group 1. */
  function MessageSentTitleAt(s: string, i: nat): (g: Option<string>)
    ensures g.Some? ==> g.value != []
  {
    if !OccursAt(s, MessageSentOpen, i) then None
    else
      var a := i + |MessageSentOpen|;
      var w := RunEnd(s, a, Space);
      if w < |s| && s[w] != '"' then QuotedValueAt(s, w)
      // the whitespace run is followed by `"`: `\s*` gives its last character to `[^"]+`
      else if w < |s| && w > a then Some(s[w - 1..w])
      else None
  }

  /**
   * `title="Message sent:\s*([^"]+)"` read as a language: `\s*` is
   * `s[i + |MessageSentOpen|..w]` and the value `s[w..q]` is closed by the quote at `q`.
   */
  ghost predicate MessageSentSplit(s: string, i: int, w: int, q: int) {
    OccursAt(s, MessageSentOpen, i) && ClassRun(s, i + |MessageSentOpen|, w, Space) &&
    w < q && ClassRun(s, w, q, NotQuote) && CharAt(s, q, '"')
  }

  /** Every split's `\s*` ends inside the whitespace run, and short of its end when a quote ends it. */
  lemma MessageSentSplitBound(s: string, i: nat, w: int, q: int)
    requires MessageSentSplit(s, i, w, q)
    ensures w <= RunEnd(s, i + |MessageSentOpen|, Space)
    ensures w == RunEnd(s, i + |MessageSentOpen|, Space) ==> s[w] != '"'
  {
  }

  /** A split makes the matcher succeed. */
  lemma MessageSentSplitGives(s: string, i: nat, w: int, q: int)
    requires MessageSentSplit(s, i, w, q)
    ensures MessageSentTitleAt(s, i).Some?
  {
    var a := i + |MessageSentOpen|;
    var ws := RunEnd(s, a, Space);
    MessageSentSplitBound(s, i, w, q);
    assert q >= ws;
    if ws < |s| && s[ws] != '"' {
      RunEndIs(s, ws, q, NotQuote);
    }
  }

  /**
   * The `Message sent:` matcher agrees with the pattern read as a language:
   * it matches exactly when some split exists, and its group is the value of
   * the split whose `\s*` is longest, as greedy backtracking gives back
   * whitespace one character at a time.
   */
  lemma MessageSentTitleRegex(s: string, i: nat)
    ensures MessageSentTitleAt(s, i).Some? <==> exists w, q :: MessageSentSplit(s, i, w, q)
    ensures MessageSentTitleAt(s, i).Some? ==>
              exists w, q :: MessageSentSplit(s, i, w, q) && MessageSentTitleAt(s, i) == Some(s[w..q]) &&
                             forall w2, q2 :: MessageSentSplit(s, i, w2, q2) ==> w2 <= w
  {
    forall w, q | MessageSentSplit(s, i, w, q) ensures MessageSentTitleAt(s, i).Some? {
      MessageSentSplitGives(s, i, w, q);
    }
    if MessageSentTitleAt(s, i).Some? {
      var a := i + |MessageSentOpen|;
      var ws := RunEnd(s, a, Space);
      var w, q := ws, RunEnd(s, ws, NotQuote);
      if !(ws < |s| && s[ws] != '"') {
        w, q := ws - 1, ws;
      }
      assert MessageSentSplit(s, i, w, q);
      forall w2, q2 | MessageSentSplit(s, i, w2, q2) ensures w2 <= w {
        MessageSentSplitBound(s, i, w2, q2);
      }
    }
  }

  /** `<span class="chatlog__timestamp"[^>]*>([^<]+)</span>` read as a language: the tag ends at `m`, the text is `s[m + 1..q]`. */
  ghost predicate TimestampTextSplit(s: string, i: int, m: int, q: int) {
    OccursAt(s, TimestampSpanOpen, i) && ClassRun(s, i + |TimestampSpanOpen|, m, NotGreater) && CharAt(s, m, '>') &&
    m + 1 < q && ClassRun(s, m + 1, q, NotLess) && OccursAt(s, SpanClose, q)
  }

  lemma TimestampTextGroup(s: string, i: nat, m: int, q: int)
    requires TimestampTextSplit(s, i, m, q)
    ensures TimestampTextAt(s, i) == Some(s[m + 1..q])
  {
    RunEndIs(s, i + |TimestampSpanOpen|, m, NotGreater);
    assert s[q] == s[q..q + |SpanClose|][0];
    RunEndIs(s, m + 1, q, NotLess);
  }

  /** The timestamp-text matcher agrees with the pattern read as a language, with the same group for every split. */
  lemma TimestampTextRegex(s: string, i: nat)
    ensures TimestampTextAt(s, i).Some? <==> exists m, q :: TimestampTextSplit(s, i, m, q)
    ensures forall m, q :: TimestampTextSplit(s, i, m, q) ==> TimestampTextAt(s, i) == Some(s[m + 1..q])
  {
    forall m, q | TimestampTextSplit(s, i, m, q) ensures TimestampTextAt(s, i) == Some(s[m + 1..q]) {
      TimestampTextGroup(s, i, m, q);
    }
    if TimestampTextAt(s, i).Some? {
      var m := RunEnd(s, i + |TimestampSpanOpen|, NotGreater);
      assert TimestampTextSplit(s, i, m, RunEnd(s, m + 1, NotLess));
    }
  }

  /** `<span class="chatlog__timestamp"[^>]*>([^<]+)</span>` at `i`: group 1. */
  function TimestampTextAt(s: string, i: nat): (g: Option<string>)
    ensures g.Some? ==> g.value != []
  {
    if !OccursAt(s, TimestampSpanOpen, i) then None
    else
      var m := RunEnd(s, i + |TimestampSpanOpen|, NotGreater);
      if m == |s| then None
      else
        var q := RunEnd(s, m + 1, NotLess);
        if q > m + 1 && OccursAt(s, SpanClose, q) then Some(s[m + 1..q]) else None
  }

  /** The group read from a match of `p` that starts at `i`, or None. */
  function MatchAt(p: Pattern, s: string, i: nat): (g: Option<string>)
    ensures p.IsDatePattern() && g.Some? ==> |g.value| == p.YearDigits() && AllDigits(g.value)
  {
    match p
    case ShortYearDash => ShortYearDashAt(s, i)
    case SlashDate => SlashDateAt(s, i)
    case DayMonthYear => DayMonthYearAt(s, i)
    case DayMonthYearSpaced => DayMonthYearSpacedAt(s, i)
    case MonthDayYear => MonthDayYearAt(s, i)
    case TimestampTitle => TimestampTitleAt(s, i)
    case MessageSentTitle => MessageSentTitleAt(s, i)
    case TimestampText => TimestampTextAt(s, i)
  }

  /** The leftmost start `k` or later where `p` matches, or -1. */
  function LeftmostFrom(p: Pattern, s: string, k: nat): (r: int)
    ensures r == -1 || (k <= r <= |s| && MatchAt(p, s, r).Some?)
    ensures r == -1 ==> forall j :: k <= j <= |s| ==> MatchAt(p, s, j).None?
    ensures r != -1 ==> forall j :: k <= j < r ==> MatchAt(p, s, j).None?
    decreases |s| + 1 - k
  {
    if k > |s| then -1
    else if MatchAt(p, s, k).Some? then k
    else LeftmostFrom(p, s, k + 1)
  }

  /** `re.search(p, s)`, reduced to the group the program reads. */
  function Search(p: Pattern, s: string): (g: Option<string>)
    ensures g.Some? <==> exists i :: 0 <= i <= |s| && MatchAt(p, s, i).Some?
    ensures g.Some? ==> exists i :: 0 <= i <= |s| && MatchAt(p, s, i) == g &&
                                    forall j :: 0 <= j < i ==> MatchAt(p, s, j).None?
    ensures p.IsDatePattern() && g.Some? ==> |g.value| == p.YearDigits() && AllDigits(g.value)
  {
    var k := LeftmostFrom(p, s, 0);
    if k == -1 then None else MatchAt(p, s, k)
  }
}
