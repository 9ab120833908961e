/**
 * `process_messages_batch` and the driver `parse_discord_html`, for both
 * variants of the splitter.
 *
 * The driver reads the export in chunks, cuts it into batches at `</div>`
 * boundaries, parses each batch into message records, routes every record
 * that has a year onto that year's queue, and at the end writes one file
 * per year. Batches are routed one after another, in the order they were
 * cut; `RoutingOrderIrrelevant` shows the contents of every year's file do
 * not depend on that order, only the order of messages inside it does.
 */
module Pipeline {
  import opened Options
  import opened Text
  import opened Classifier
  import opened HtmlHelpers
  import opened Splitter
  import opened YearRouter

  /** The package (`src/dsparser/parser.py`) or the standalone script (`parese_discord_by_year_html.py`). */
  datatype Variant = Package | Script

  /** A classifier: the year of a record, or None when the record is dropped. */
  type Classify = MessageRecord -> Option<string>

  /** The classifier of a variant. */
  function ClassifierOf(v: Variant): Classify {
    match v
    case Package => GroupYear
    case Script => ContainerYear
  }

  /** The markup of the records a classifier files under `year`, in order. */
  function Selected(records: seq<MessageRecord>, c: Classify, year: string): (r: seq<string>)
    ensures |r| <= |records|
    ensures forall i :: 0 <= i < |r| ==>
              exists k :: 0 <= k < |records| && records[k].markup == r[i] && c(records[k]) == Some(year)
  {
    if records == [] then []
    else
      var last := records[|records| - 1];
      Selected(records[..|records| - 1], c, year) + (if c(last) == Some(year) then [last.markup] else [])
  }

  /** The years a classifier finds among the records. */
  function Years(records: seq<MessageRecord>, c: Classify): set<string> {
    set r | r in records && c(r).Some? :: c(r).value
  }

  /** The queues after routing the records one after another onto `q`. */
  function RouteAll(q: map<string, seq<Item>>, records: seq<MessageRecord>, c: Classify): (r: map<string, seq<Item>>)
    ensures q.Keys <= r.Keys
    ensures forall y :: y in q ==> |q[y]| <= |r[y]| && r[y][..|q[y]|] == q[y]
  {
    if records == [] then q
    else
      var last := records[|records| - 1];
      var before := RouteAll(q, records[..|records| - 1], c);
      match c(last)
      case None => before
      case Some(year) => Enqueue(before, year, last.markup)
  }

  lemma {:induction false} SelectedAppend(a: seq<MessageRecord>, b: seq<MessageRecord>, c: Classify, year: string)
    ensures Selected(a + b, c, year) == Selected(a, c, year) + Selected(b, c, year)
    decreases |b|
  {
    if b == [] {
      assert a + b == a;
    } else {
      var last := b[|b| - 1];
      assert (a + b)[..|a + b| - 1] == a + b[..|b| - 1];
      SelectedAppend(a, b[..|b| - 1], c, year);
    }
  }

  /** Routing creates a queue for exactly the years found, and never removes one. */
  lemma {:induction false} RouteAllKeys(q: map<string, seq<Item>>, records: seq<MessageRecord>, c: Classify)
    ensures RouteAll(q, records, c).Keys == q.Keys + Years(records, c)
  {
    if records != [] {
      var init, last := records[..|records| - 1], records[|records| - 1];
      RouteAllKeys(q, init, c);
      assert records == init + [last];
      assert Years(records, c) == Years(init, c) + (if c(last).Some? then {c(last).value} else {});
    }
  }

  lemma AsItemsPush(ms: seq<string>, m: string)
    ensures AsItems(ms + [m]) == AsItems(ms) + [Message(m)]
  {
    assert AsItems(ms + [m])[|ms|] == Message(m);
  }

  /** Routing one message changes the queue of its own year only. */
  lemma LookupEnqueue(q: map<string, seq<Item>>, y: string, text: string, year: string)
    ensures Lookup(Enqueue(q, y, text), year) ==
              if y == year then Lookup(q, year) + [Message(text)] else Lookup(q, year)
  {
    if y == year {
      var r := Enqueue(q, y, text);
      assert r[year] == r[year][..|Lookup(q, year)|] + [r[year][|Lookup(q, year)|]];
    }
  }

  /** Routing the last record: the step behind `RouteAllLookup`. */
  lemma RouteLastLookup(q: map<string, seq<Item>>, records: seq<MessageRecord>, c: Classify, year: string)
    requires records != []
    ensures var init, last := records[..|records| - 1], records[|records| - 1];
            Lookup(RouteAll(q, records, c), year) ==
              Lookup(RouteAll(q, init, c), year) + (if c(last) == Some(year) then [Message(last.markup)] else [])
  {
    var init, last := records[..|records| - 1], records[|records| - 1];
    if c(last).Some? {
      LookupEnqueue(RouteAll(q, init, c), c(last).value, last.markup, year);
    }
  }

  /**
   * Every year's queue after routing is its old contents followed by the
   * markup of that year's records, in order.
   */
  lemma {:induction false} RouteAllLookup(q: map<string, seq<Item>>, records: seq<MessageRecord>, c: Classify, year: string)
    ensures Lookup(RouteAll(q, records, c), year) == Lookup(q, year) + AsItems(Selected(records, c, year))
  {
    if records == [] {
      assert AsItems(Selected(records, c, year)) == [];
    } else {
      var init, last := records[..|records| - 1], records[|records| - 1];
      RouteAllLookup(q, init, c, year);
      RouteLastLookup(q, records, c, year);
      var sel := Selected(init, c, year);
      if c(last) == Some(year) {
        assert Selected(records, c, year) == sel + [last.markup];
        AsItemsPush(sel, last.markup);
        Assoc(Lookup(q, year), AsItems(sel), [Message(last.markup)]);
      } else {
        assert Selected(records, c, year) == sel + [];
        assert sel + [] == sel;
      }
    }
  }

  lemma {:induction false} RouteAllAppend(q: map<string, seq<Item>>, a: seq<MessageRecord>, b: seq<MessageRecord>, c: Classify)
    ensures RouteAll(q, a + b, c) == RouteAll(RouteAll(q, a, c), b, c)
    decreases |b|
  {
    if b == [] {
      assert a + b == a;
    } else {
      assert (a + b)[..|a + b| - 1] == a + b[..|b| - 1];
      assert (a + b)[|a + b| - 1] == b[|b| - 1];
      RouteAllAppend(q, a, b[..|b| - 1], c);
    }
  }

  /** Records with the same elements give the same years. */
  lemma YearsOfSameRecords(a: seq<MessageRecord>, b: seq<MessageRecord>, c: Classify)
    requires forall r :: r in a <==> r in b
    ensures Years(a, c) == Years(b, c)
  {
  }

  /**
   * However the records are reordered (the worker threads may interleave
   * them), the same years get a file and every year's file gets the same
   * messages; only their order can change.
   */
  lemma RoutingOrderIrrelevant(a: seq<MessageRecord>, b: seq<MessageRecord>, c: Classify, year: string)
    requires multiset(a) == multiset(b)
    ensures Years(a, c) == Years(b, c)
    ensures multiset(Selected(a, c, year)) == multiset(Selected(b, c, year))
  {
    assert forall r :: r in a <==> r in multiset(a);
    assert forall r :: r in b <==> r in multiset(b);
    YearsOfSameRecords(a, b, c);
    SelectedOfPermutation(a, b, c, year);
  }

  /** Taking the same record out of two permutations of each other leaves permutations. */
  lemma RemoveMatching(a: seq<MessageRecord>, b: seq<MessageRecord>, j: nat)
    requires multiset(a) == multiset(b) && a != [] && j < |b| && b[j] == a[|a| - 1]
    ensures multiset(a[..|a| - 1]) == multiset(b[..j] + b[j + 1..])
  {
    var init, last, rest := a[..|a| - 1], a[|a| - 1], b[..j] + b[j + 1..];
    assert a == init + [last];
    assert multiset(a) == multiset(init) + multiset{last};
    assert multiset(b) == multiset(rest) + multiset{last} by {
      assert b == b[..j] + [last] + b[j + 1..];
      assert multiset(b) == multiset(b[..j]) + multiset{last} + multiset(b[j + 1..]);
    }
    assert multiset(init) == multiset(a) - multiset{last};
    assert multiset(rest) == multiset(b) - multiset{last};
  }

  /** The messages selected from a sequence, with one record taken out and counted apart. */
  lemma SelectedRemove(b: seq<MessageRecord>, j: nat, c: Classify, year: string)
    requires j < |b|
    ensures multiset(Selected(b, c, year)) ==
            multiset(Selected(b[..j] + b[j + 1..], c, year)) + multiset(Selected([b[j]], c, year))
  {
    var left, right := b[..j], b[j + 1..];
    assert b == left + [b[j]] + right;
    SelectedAppend(left + [b[j]], right, c, year);
    SelectedAppend(left, [b[j]], c, year);
    SelectedAppend(left, right, c, year);
  }

  lemma {:induction false} SelectedOfPermutation(a: seq<MessageRecord>, b: seq<MessageRecord>, c: Classify, year: string)
    requires multiset(a) == multiset(b)
    ensures multiset(Selected(a, c, year)) == multiset(Selected(b, c, year))
    decreases |a|
  {
    if a == [] {
      assert b == [] by { assert |b| == |multiset(b)|; }
    } else {
      var init, last := a[..|a| - 1], a[|a| - 1];
      assert last in multiset(b) by { assert a == init + [last]; }
      var j :| 0 <= j < |b| && b[j] == last;
      RemoveMatching(a, b, j);
      SelectedOfPermutation(init, b[..j] + b[j + 1..], c, year);
      SelectedRemove(b, j, c, year);
      assert a == init + [last];
      SelectedAppend(init, [last], c, year);
    }
  }

  /** `process_messages_batch`: routes every record of a batch that has a year, in order. */
  method ProcessMessagesBatch(registry: YearQueues, batch: seq<MessageRecord>, c: Classify)
    modifies registry
    ensures registry.queues == RouteAll(old(registry.queues), batch, c)
  {
    var i := 0;
    while i < |batch|
      invariant i <= |batch|
      invariant registry.queues == RouteAll(old(registry.queues), batch[..i], c)
    {
      var r := batch[i];
      assert batch[..i + 1][..i] == batch[..i];
      var year := c(r);
      if year.Some? {
        registry.Route(year.value, r.markup);
      }
      i := i + 1;
    }
    assert batch[..i] == batch;
  }

  /** The records of the batches, in order, as the HTML parser `soup` turns each batch into records. */
  function Records(batches: seq<string>, soup: string -> seq<MessageRecord>): seq<MessageRecord> {
    if batches == [] then [] else Records(batches[..|batches| - 1], soup) + soup(batches[|batches| - 1])
  }

  /** Routes the batches one after another, each through `process_messages_batch`. */
  method RouteBatches(registry: YearQueues, batches: seq<string>, soup: string -> seq<MessageRecord>, c: Classify)
    modifies registry
    ensures registry.queues == RouteAll(old(registry.queues), Records(batches, soup), c)
  {
    var i := 0;
    while i < |batches|
      invariant i <= |batches|
      invariant registry.queues == RouteAll(old(registry.queues), Records(batches[..i], soup), c)
    {
      assert batches[..i + 1][..i] == batches[..i];
      RouteAllAppend(old(registry.queues), Records(batches[..i], soup), soup(batches[i]), c);
      ProcessMessagesBatch(registry, soup(batches[i]), c);
      i := i + 1;
    }
    assert batches[..i] == batches;
  }

  /** The names of the files of a set of years. */
  function FileNames(years: set<string>): set<string> {
    set y | y in years :: FileName(y)
  }

  lemma FileNamesAdd(years: set<string>, year: string)
    ensures FileNames(years + {year}) == FileNames(years) + {FileName(year)}
  {
  }

  /** Output files keyed by name: one per year found, header, opening line, that year's messages, footer. */
  ghost predicate FilesByYear(files: map<string, string>, records: seq<MessageRecord>, c: Classify, frame: Frame) {
    && files.Keys == FileNames(Years(records, c))
    && forall y :: y in Years(records, c) ==>
         files[FileName(y)] == frame.header + ChatlogLine + Concat(Selected(records, c, y)) + frame.footer
  }

  /** Writers for `done` have drained their queues up to the sentinel; queues for `remaining` are untouched. */
  ghost predicate Draining(q0: map<string, seq<Item>>, cur: map<string, seq<Item>>, remaining: set<string>, done: set<string>) {
    && cur.Keys == q0.Keys && remaining + done <= q0.Keys
    && (forall z :: z in remaining ==> cur[z] == q0[z])
    && (forall z :: z in done ==> cur[z] == AfterSentinel(q0[z]))
  }

  /** One more writer done: its queue has lost what came up to its sentinel, the others are as they were. */
  lemma DrainedStep(q0: map<string, seq<Item>>, before: map<string, seq<Item>>, after: map<string, seq<Item>>,
                    y: string, remaining: set<string>, done: set<string>)
    requires y in remaining && remaining !! done && Draining(q0, before, remaining, done)
    requires after == before[y := AfterSentinel(before[y])]
    ensures Draining(q0, after, remaining - {y}, done + {y})
  {
  }

  /**
   * Waits for every writer: each year's file holds the header, the opening
   * line, the messages queued for that year before its sentinel, and the footer.
   */
  method AwaitWriters(registry: YearQueues, writers: map<string, string>, frame: Frame)
    returns (files: map<string, string>)
    requires writers.Keys == registry.queues.Keys
    requires forall y :: y in writers ==> writers[y] == FileName(y)
    requires forall y :: y in registry.queues ==> Sentinel in registry.queues[y]
    modifies registry
    ensures files.Keys == FileNames(writers.Keys)
    ensures forall y :: y in writers ==>
              files[FileName(y)] == frame.header + ChatlogLine + Concat(TakeMessages(old(registry.queues)[y])) + frame.footer
    ensures registry.queues.Keys == old(registry.queues).Keys
    ensures forall y :: y in writers ==> registry.queues[y] == AfterSentinel(old(registry.queues)[y])
  {
    ghost var q0 := registry.queues;
    files := map[];
    var remaining := writers.Keys;
    ghost var done: set<string> := {};
    while remaining != {}
      invariant remaining + done == writers.Keys && remaining !! done
      invariant Draining(q0, registry.queues, remaining, done)
      invariant files.Keys == FileNames(done)
      invariant forall y :: y in done ==>
                  files[FileName(y)] == frame.header + ChatlogLine + Concat(TakeMessages(q0[y])) + frame.footer
      decreases remaining
    {
      var y :| y in remaining;
      ghost var before := registry.queues;
      var file := registry.YearFileWriter(y, frame.header, frame.footer);
      DrainedStep(q0, before, registry.queues, y, remaining, done);
      forall z | z in done ensures FileName(z) != FileName(y) {
        FileNameInjective(z, y);
      }
      FileNamesAdd(done, y);
      files := files[writers[y] := file];
      remaining := remaining - {y};
      done := done + {y};
    }
  }

  /**
   * `parse_discord_html`: the frame from the first 100 KB, the batches cut
   * from chunks of `chunkSizeMb` MB, every record routed, one writer and one
   * sentinel per year, and the files the writers produce.
   */
  method ParseDiscordHtml(text: string, chunkSizeMb: int, v: Variant, soup: string -> seq<MessageRecord>)
    returns (files: map<string, string>)
    ensures FilesByYear(files, Records(Fragments(text, chunkSizeMb * 1024 * 1024), soup), ClassifierOf(v), ExtractHtmlParts(text))
  {
    var c := ClassifierOf(v);
    var frame := ExtractHtmlParts(text);
    var chunks := ReadChunks(text, chunkSizeMb * 1024 * 1024);
    var batches := SplitChunks(chunks);
    ghost var all := Records(batches, soup);
    var registry := new YearQueues();
    RouteBatches(registry, batches, soup, c);
    RouteAllKeys(map[], all, c);
    forall y | y in Years(all, c) ensures registry.queues[y] == AsItems(Selected(all, c, y)) {
      RouteAllLookup(map[], all, c, y);
    }
    var writers := registry.StartWriters(map[]);
    registry.SignalDone();
    ghost var ys := Years(all, c);
    assert registry.queues.Keys == ys;
    assert forall y :: y in ys ==> registry.queues[y] == AsItems(Selected(all, c, y)) + [Sentinel];
    forall y | y in ys ensures TakeMessages(registry.queues[y]) == Selected(all, c, y) {
      DrainQueued(Selected(all, c, y), []);
      assert AsItems(Selected(all, c, y)) + [Sentinel] + [] == registry.queues[y];
    }
    files := AwaitWriters(registry, writers, frame);
  }
}
