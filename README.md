# dsparser by-year splitter, modelled in Dafny

dsparser splits a Discord chat export, one large HTML file, into one HTML
file per year. This project models its sequential data path and proves
properties of it.

- **Reading.** The driver `parse_discord_html` reads the export in chunks of
  `chunk_size_mb` MB and appends each chunk to a pending buffer.
- **Batching.** Whenever the last `</div>` of the buffer starts after index 0,
  everything up to and including it becomes a batch. A non-empty leftover
  becomes the last batch.
- **Classifying.** `process_messages_batch` finds the year of every message
  in a batch.
- **Routing.** Each message with a year goes at the end of that year's queue.
- **Writing.** At shutdown every year gets one writer and every queue one
  sentinel. Each writer produces the export's header, the opening line of the
  message log, the messages of its year in queue order, and a fixed footer.

The repository has two copies of this pipeline.

| Variant | File | Message elements | Year source |
|---|---|---|---|
| Package | `src/dsparser/parser.py` | message *groups* | text of the first timestamp span: `DD-Mon-YY`, else `DD/MM/YYYY`, with a two-digit-year rule |
| Script | `parese_discord_by_year_html.py` | message *containers* | `title` of the first timestamp span: `D Month YYYY` only |

Apart from the year source, the two copies are the same line for line: the
header logic, the read-and-split loop, routing, the shutdown sequence and the
writer. Those parts are modelled once. `Pipeline.Variant` picks the
classifier.

`src/dsparser/utils/html_helpers.py` has two functions, and both are modelled:

- `extract_html_header_footer`, which the package uses;
- `parse_message_date`, a five-branch date search that is imported but never
  called.

## Modules

- **Text** (`text.dfy`): `str.find`, `str.rfind`, `str.strip`, `"".join`, and the ASCII classes behind
  `\d`, `\w` and `\s`.
- **Patterns** (`patterns.dfy`): every regular expression of the core, written as an explicit matcher
  at one start index (`MatchAt`), with `Search` as `re.search`, the leftmost match. The module comment
  explains why greedy backtracking never changes the outcome of these patterns, and it covers the two
  places where it does matter:
  - `[^>]*title="([^"]+)"` uses the last `title="` that starts before the first `>` and is followed
    by a non-empty value closed by `"`;
  - `\s*([^"]+)"` can give one whitespace character to the group.
- **Splitter** (`splitter.dfy`):
  - the split at the last `</div>`;
  - `file.read(size)` as a sequence of chunks;
  - the read loop as a method, proved equal to a recursive specification `SplitFrom`.
- **Classifier** (`classifier.dfy`), with worked examples in `classifier_examples.dfy`: message records,
  the two-digit-year rule, and the year of a record in each variant.
- **HtmlHelpers** (`html_helpers.dfy`): the header and footer, and `parse_message_date`.
- **YearRouter** (`year_router.dfy`): the year-queue dictionary as a class, with routing, sentinels,
  starting the writers, and the writer's drain loop.
- **Pipeline** (`pipeline.dfy`):
  - `process_messages_batch`;
  - the driver, which ends in one file per year;
  - the proof that the order in which messages are routed does not change which messages each file
    gets, only their order.

## Model

| member | source | states |
|---|---|---|
| Text.Find | src/dsparser/utils/html_helpers.py:19 | `find` is -1 exactly when the pattern does not occur; otherwise the pattern occurs at the result and at no earlier index |
| Text.RFind | src/dsparser/parser.py:66 | `rfind` is -1 exactly when the pattern does not occur; otherwise no occurrence starts after the result |
| Text.StripBounds | src/dsparser/parser.py:143 | `strip` keeps a slice with only whitespace outside it and no whitespace at either of its ends |
| Text.Strip | src/dsparser/parser.py:143 | `strip` leaves no whitespace at either end, is empty exactly when the text is all whitespace, and is a slice of the text with only whitespace before and after it |
| Text.DecimalValue | src/dsparser/parser.py:152 | `int` of a string of n ASCII digits is below 10 to the power n |
| Patterns.ShortYearDashAt | src/dsparser/parser.py:145 | `(\d{1,2})-(\w+)-(\d{2})` at one start: its group 3 is two digits |
| Patterns.ShortYearDashRegex | src/dsparser/parser.py:145 | `(\d{1,2})-(\w+)-(\d{2})` read as a language: the matcher succeeds at a start exactly when the text there splits into one or two digits, `-`, a word run, `-` and two digits, and every such split gives the same group 3, the two digits after the second hyphen |
| Patterns.SlashDateAt | src/dsparser/parser.py:145 | `(\d{1,2})/(\d{2})/(\d{4})` at one start: its group 3 is four digits |
| Patterns.SlashDateRegex | src/dsparser/parser.py:145 | `(\d{1,2})/(\d{2})/(\d{4})` read as a language: the matcher succeeds exactly when such a split exists, and every split gives the same group 3 |
| Patterns.DayMonthYearAt | parese_discord_by_year_html.py:175 | `(\d{1,2}) (\w+) (\d{4})` at one start: its group 3 is four digits |
| Patterns.DayMonthYearRegex | parese_discord_by_year_html.py:175 | `(\d{1,2}) (\w+) (\d{4})` read as a language: the matcher succeeds exactly when such a split exists, and every split gives the same group 3 |
| Patterns.DayMonthYearSpacedAt | src/dsparser/utils/html_helpers.py:72 | `(\d{1,2})\s+(\w+)\s+(\d{4})` at one start: its group 3 is four digits |
| Patterns.DayMonthYearSpacedRegex | src/dsparser/utils/html_helpers.py:72 | `(\d{1,2})\s+(\w+)\s+(\d{4})` read as a language: the matcher succeeds exactly when such a split exists, and every split gives the same group 3 |
| Patterns.MonthDayYearAt | src/dsparser/utils/html_helpers.py:77 | `(\w+)\s+(\d{1,2}),\s+(\d{4})` at one start: its group 3 is four digits |
| Patterns.MonthDayYearRegex | src/dsparser/utils/html_helpers.py:77 | `(\w+)\s+(\d{1,2}),\s+(\d{4})` read as a language: the matcher succeeds exactly when such a split exists, and every split gives the same group 3 |
| Patterns.LastTitleValue | src/dsparser/utils/html_helpers.py:43 | `[^>]*title="([^"]+)"` finds a value exactly when one starts inside the run, and then takes the last one |
| Patterns.TimestampTitleAt | src/dsparser/utils/html_helpers.py:43 | the group of `<span class="chatlog__timestamp"[^>]*title="([^"]+)"` is never empty |
| Patterns.TimestampTitleRegex | src/dsparser/utils/html_helpers.py:43 | read as a language, the pattern matches at a start exactly when the matcher succeeds; the group is the value of a split whose `[^>]*` is the longest of all splits, as backtracking from the greedy run finds it |
| Patterns.MessageSentTitleAt | src/dsparser/utils/html_helpers.py:52 | the group of `title="Message sent:\s*([^"]+)"` is never empty |
| Patterns.MessageSentTitleRegex | src/dsparser/utils/html_helpers.py:52 | read as a language, `title="Message sent:\s*([^"]+)"` matches at a start exactly when the matcher succeeds; the group is that of the split whose `\s*` is the longest, as the greedy run backtracks |
| Patterns.TimestampTextAt | src/dsparser/utils/html_helpers.py:62 | the group of `<span class="chatlog__timestamp"[^>]*>([^<]+)</span>` is never empty |
| Patterns.TimestampTextRegex | src/dsparser/utils/html_helpers.py:62 | read as a language, `<span class="chatlog__timestamp"[^>]*>([^<]+)</span>` matches at a start exactly when the matcher succeeds, and every split gives the same group |
| Patterns.RunEndIs | src/dsparser/parser.py:145 | a greedy run of one class ends exactly where the class first stops |
| Patterns.Search | src/dsparser/parser.py:145 | `re.search` matches exactly when some start index matches; the result is the group of the leftmost match; a date pattern's year group has the pattern's digit count |
| Splitter.SplitAtLastDiv | src/dsparser/parser.py:64-74 | after a split, the submitted part followed by the new buffer is the old buffer; without a split, the buffer is kept whole (the same code is at parese_discord_by_year_html.py:83-99) |
| Splitter.CutAtLastClose | src/dsparser/parser.py:66-74 | a split happens exactly when some `</div>` starts after index 0; the submitted part then ends with `</div>`, and the kept part contains none |
| Splitter.ReadPrefix | src/dsparser/parser.py:51-53 | the loop consumes the chunks before the first empty read, and only those |
| Splitter.ReadPrefixEnds | src/dsparser/parser.py:52-53 | the loop stops at the first empty chunk |
| Splitter.SplitFrom | src/dsparser/parser.py:51-74 | the read loop submits at most one batch per non-empty read, plus the final leftover |
| Splitter.SplitFromConcat | src/dsparser/parser.py:51-74 | the submitted batches, joined in order, are the initial buffer followed by every chunk read, including a final leftover |
| Splitter.SplitFromShape | src/dsparser/parser.py:53-74 | no batch is empty; every batch but the last ends with `</div>`; the last ends with `</div>` or has no `</div>` after index 0 (the same loop is at parese_discord_by_year_html.py:67-99) |
| Splitter.ReadChunks | src/dsparser/parser.py:39-52 | successive `file.read(size)` calls return non-empty chunks of at most `size` characters that join to the file; with size 0 they return nothing |
| Splitter.FragmentsCoverText | src/dsparser/parser.py:39-74 | for every chunk size except 0, the batches join to the whole file wherever the chunk boundaries fall, and every batch but the last ends at a `</div>` |
| Splitter.SplitChunks | src/dsparser/parser.py:51-74 | the read loop submits exactly the batches of `SplitFrom`, and they join to everything read (the same loop is at parese_discord_by_year_html.py:67-99) |
| Classifier.DecimalTwo | src/dsparser/parser.py:152 | `int` of two digits is below 100; a two-digit suffix adds to 100 times the prefix |
| Classifier.TwoDigitYear | src/dsparser/parser.py:151-153 | the two-digit rule gives four digits ending in the matched two, with a value in 1950..2049 |
| Classifier.TwoDigitYearUnique | src/dsparser/parser.py:151-153 | no other four-digit year ending in the matched two lies in 1950..2049, so "below 50 → 20, else 19" is that window |
| Classifier.TwoDigitYearExamples | src/dsparser/parser.py:151-153 | `49` → `2049`, `50` → `1950`, `00` → `2000`, `99` → `1999`, `20` → `2020` |
| Classifier.NormalizeYear | src/dsparser/parser.py:151-155 | a two-digit group goes through the rule; a group of any other length is kept unchanged |
| Classifier.GroupYear | src/dsparser/parser.py:137-155 | a package-variant year is always four ASCII digits |
| Classifier.GroupYearCases | src/dsparser/parser.py:139-155 | a group is kept exactly when it has a timestamp span whose stripped text matches the dash or the slash pattern; the dash pattern wins; a slash year is used as it stands |
| Classifier.ContainerYear | parese_discord_by_year_html.py:171-179 | a script-variant year is always four ASCII digits, with no two-digit rule |
| Classifier.ContainerYearCases | parese_discord_by_year_html.py:171-179 | a message is dropped exactly when it has no timestamp span, its span has no `title`, or the title has no `D Month YYYY` match; the year otherwise comes from the leftmost match |
| ClassifierExamples.StripUnchanged | src/dsparser/parser.py:143 | a text with no whitespace at either end is its own `strip()` |
| ClassifierExamples.NoDashNoShortYear | src/dsparser/parser.py:145 | a text without `-` has no dash-pattern match |
| ClassifierExamples.SearchAtStart | src/dsparser/parser.py:145 | a match at index 0 is the one `re.search` returns |
| ClassifierExamples.DashMatchExample | src/dsparser/parser.py:145 | the dash pattern on `15-Jan-2023` reads `20`, the two digits after the second hyphen |
| ClassifierExamples.DashTimestampExample | src/dsparser/parser.py:143-153 | `15-Jan-2023` is filed under 2020 |
| ClassifierExamples.SlashMatchExample | src/dsparser/parser.py:145 | the slash pattern on `03/15/2023` reads `2023` |
| ClassifierExamples.SlashTimestampExample | src/dsparser/parser.py:145-155 | `03/15/2023` is filed under 2023 |
| ClassifierExamples.NoSpanExample | src/dsparser/parser.py:139-140 | a record with no timestamp span is dropped by both variants |
| ClassifierExamples.TitleMatchExample | parese_discord_by_year_html.py:175 | `D Month YYYY` on `15 Jan 2023` reads `2023` |
| ClassifierExamples.TitleExample | parese_discord_by_year_html.py:171-179 | the title `15 Jan 2023` is filed under 2023; the same text without a title attribute is dropped |
| HtmlHelpers.ExtractHeaderFooter | src/dsparser/utils/html_helpers.py:9-28 | if the log marker occurs, the header is the prefix before its first occurrence; otherwise it is the default doctype string; the footer is always `</div></body></html>` (the same code is at parese_discord_by_year_html.py:27-35) |
| HtmlHelpers.HeaderHasNoMarker | src/dsparser/utils/html_helpers.py:19-21 | a header cut before the marker holds no copy of the marker |
| HtmlHelpers.ExtractHtmlParts | src/dsparser/parser.py:19-26 | the footer is the fixed one; the header is the default one, or a prefix of the export followed by the log marker with the marker ending inside the first 102400 characters (the same code is at parese_discord_by_year_html.py:18-35) |
| HtmlHelpers.HeaderWindowEffect | src/dsparser/parser.py:19-26 | reading only the first 102400 characters changes nothing when the first marker ends inside them; when no marker fits in them, the default header is used |
| HtmlHelpers.TitleBranch | src/dsparser/utils/html_helpers.py:43-50 | the title branch yields four digits or nothing |
| HtmlHelpers.SentBranch | src/dsparser/utils/html_helpers.py:52-60 | the `Message sent:` branch yields four digits in 1950..2049 or nothing |
| HtmlHelpers.TextDate | src/dsparser/utils/html_helpers.py:64-80 | the date search on timestamp text yields four digits or nothing |
| HtmlHelpers.ContentBranch | src/dsparser/utils/html_helpers.py:62-80 | the timestamp-text branch yields four digits or nothing |
| HtmlHelpers.ParseMessageDate | src/dsparser/utils/html_helpers.py:31-82 | every result that is not None is exactly four ASCII digits |
| HtmlHelpers.ParseMessageDateCascade | src/dsparser/utils/html_helpers.py:43-82 | a title date wins over every other branch; a title with no date falls through; None comes only when no branch yields a year; a `Message sent:` year ends with the matched two digits and lies in 1950..2049 |
| HtmlHelpers.TextDateOrder | src/dsparser/utils/html_helpers.py:64-80 | `DD-Mon-YY` comes first, then `D Month YYYY`, then `Month D, YYYY`; None comes exactly when none of the three matches anywhere |
| YearRouter.FirstSentinel | src/dsparser/parser.py:123-127 | the first sentinel sits right after the messages the writer takes; what is left is everything after it |
| YearRouter.DrainQueued | src/dsparser/parser.py:123-127 | a queue of messages closed by a sentinel drains to exactly those messages, in order |
| YearRouter.Enqueue | src/dsparser/parser.py:160-163 | routing adds the year's key if it is new and puts the message at the end of its queue; the other queues and keys are unchanged |
| YearRouter.FileNameInjective | src/dsparser/parser.py:85 | different years get different file names |
| YearRouter.YearQueues.constructor | src/dsparser/parser.py:12 | the dictionary starts empty |
| YearRouter.YearQueues.Route | src/dsparser/parser.py:160-163 | check, create and put as one step (the same code is at parese_discord_by_year_html.py:183-186) |
| YearRouter.YearQueues.Get | src/dsparser/parser.py:124 | `get` removes and returns the front item of a year's queue; nothing else changes |
| YearRouter.YearQueues.SignalDone | src/dsparser/parser.py:88-90 | every queue gets exactly one sentinel at its end; the set of years is unchanged |
| YearRouter.YearQueues.StartWriters | src/dsparser/parser.py:82-86 | every year with a queue gets a writer unless it already has one, and a new writer goes to that year's file |
| YearRouter.YearQueues.Drain | src/dsparser/parser.py:123-127 | the writer's loop joins, in order, exactly the messages before the first sentinel of its year's queue, and takes the sentinel too; the other queues are untouched |
| YearRouter.YearQueues.YearFileWriter | src/dsparser/parser.py:115-129 | the output is the header, `<div class="chatlog">` and a newline, the queued messages before the first sentinel in order, then the footer; the queue keeps what followed the sentinel (the same code is at parese_discord_by_year_html.py:146-164) |
| Pipeline.SelectedAppend | src/dsparser/parser.py:136 | a year's messages from two record sequences in a row are the first sequence's followed by the second's |
| Pipeline.Selected | src/dsparser/parser.py:136-163 | a year gets at most one message per record, and every message it gets is the markup of a record filed under that year |
| Pipeline.RouteAllKeys | src/dsparser/parser.py:160-162 | after routing, the years with a queue are the old ones plus exactly the years found |
| Pipeline.RouteAll | src/dsparser/parser.py:158-163 | routing keeps every existing year and only appends to its queue |
| Pipeline.RouteAllLookup | src/dsparser/parser.py:158-163 | after routing, each year's queue is its old contents followed by that year's messages, in record order |
| Pipeline.RouteAllAppend | src/dsparser/parser.py:136-163 | routing two record sequences in a row is routing their concatenation |
| Pipeline.YearsOfSameRecords | src/dsparser/parser.py:136 | record sequences with the same elements give the same years |
| Pipeline.SelectedRemove | src/dsparser/parser.py:136 | a year's messages with one record taken out, plus that record's own, are the whole multiset |
| Pipeline.SelectedOfPermutation | src/dsparser/parser.py:76-80 | the messages a year gets are the same multiset whatever order the records are routed in |
| Pipeline.RoutingOrderIrrelevant | src/dsparser/parser.py:46-80 | any reordering of the records, such as worker threads interleaving batches, yields the same years and the same messages per year; only their order can change |
| Pipeline.ProcessMessagesBatch | src/dsparser/parser.py:131-165 | the batch's records are routed in order; a record without a year changes nothing (the script's version is parese_discord_by_year_html.py:166-186) |
| Pipeline.RouteBatches | src/dsparser/parser.py:56-80 | routing batch after batch means routing all their records in order |
| Pipeline.FileNamesAdd | src/dsparser/parser.py:85 | one more year adds its file name to the set of names |
| Pipeline.AwaitWriters | src/dsparser/parser.py:92-96 | every writer's file holds the header, the opening line, its year's messages before the sentinel, and the footer; no other files exist; each year's queue keeps only what came after its sentinel, and no year is added or removed |
| Pipeline.ParseDiscordHtml | src/dsparser/parser.py:28-113 | there is one file per year found in the batches cut from the file, and each holds the header from the first 100 KB, the opening line, that year's messages in batch and record order, and the footer (the script's driver is parese_discord_by_year_html.py:37-144) |

## Left out

- HTML parsing (BeautifulSoup and SoupStrainer) is a foreign library. The driver takes it as a
  function `soup` from a batch to its message records. A record holds the element's markup
  (`str(group)`) and its timestamp spans, each with its text and optional `title`. The variants'
  different element classes are part of that function.
- Concurrency is not modelled: the thread pools, `as_completed`, the lock and the blocking
  `Queue.get`.
  - Batches are routed one after another, in the order they were cut. `RoutingOrderIrrelevant`
    covers any interleaving the threads could produce.
  - `Get` requires a non-empty queue, and the writer requires a sentinel in its queue. The program
    would block instead.
  - The writers run one after another, after the sentinels have been pushed.
- File I/O is left out: `open`, `os.makedirs`, `os.path.getsize` and the real output directory.
  - The file's contents are a parameter. They are the text after UTF-8 decoding and text-mode
    newline translation, and `read(n)` returns `n` characters of it.
  - Output files are a map from the file name `<year>.html` to their contents. The join with the
    output directory is left out.
- The `tqdm` progress bars and the UTF-8 byte counts that feed them are left out, and so is the
  printing of errors from failed futures.
- The `finally` block's second round of sentinels and its joins with a 5-second timeout are left out.
  They are a teardown path, and writers that have already finished ignore the extra sentinel.
- Module-level state that outlives a call is not modelled. `year_queues` keeps its keys across
  calls; the model routes every call into a fresh dictionary.
- The `day` and `month` groups (`src/dsparser/parser.py:147-148`) are computed but never used.
- Unicode classes are restricted to ASCII:
  - `\d` is the ASCII digits;
  - `\w` is ASCII letters, digits and `_`;
  - `\s` and `str.strip` cover the ASCII characters Python counts as whitespace.

  Python's Unicode digits, letters and whitespace beyond ASCII are not modelled.
- Batches are cut at the last `</div>` of the buffer, and that `</div>` may close an element nested
  inside a message. The model keeps this heuristic: a message can then be split across two batches,
  and each batch's parser sees only its part. `SplitFromShape` and `FragmentsCoverText` are about
  `</div>` boundaries and the joined text, not about whole messages per batch.
- The model keeps two behaviours of the source as written:
  - the dash pattern reads only two digits after the second hyphen, so `15-Jan-2023` becomes 2020;
  - an occurrence of `</div>` at index 0 never causes a split.
- Classifier.GroupYear: the contract states the format of the year (four digits). What the year is
  for a given text is stated by `GroupYearCases` and the examples.
