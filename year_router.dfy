/**
 * The per-year queues and their writers.
 *
 * The program keeps one FIFO queue per year in a module-level dictionary.
 * Routing a message creates the year's queue on first use and puts the
 * message at its end, under a lock that makes "check, create, put" one
 * step; here that step is one method of a class. At shutdown every year
 * gets a writer and every queue one `None` sentinel; a writer copies the
 * messages it takes from its queue, up to the first sentinel, between the
 * header and the footer.
 */
module YearRouter {
  import opened Text
  import opened HtmlHelpers

  /** What a queue holds: a message's markup, or the `None` that tells the writer to stop. */
  datatype Item = Message(text: string) | Sentinel

  /** Messages as queue items, in order. */
  function AsItems(ms: seq<string>): (items: seq<Item>)
    ensures |items| == |ms| && forall i :: 0 <= i < |ms| ==> items[i] == Message(ms[i])
  {
    seq(|ms|, i requires 0 <= i < |ms| => Message(ms[i]))
  }

  /** The messages a writer takes before it meets the first sentinel. */
  function TakeMessages(q: seq<Item>): seq<string> {
    if q == [] || q[0] == Sentinel then [] else [q[0].text] + TakeMessages(q[1..])
  }

  /** What is left in a queue once the writer has taken its first sentinel. */
  function AfterSentinel(q: seq<Item>): seq<Item> {
    if q == [] then [] else if q[0] == Sentinel then q[1..] else AfterSentinel(q[1..])
  }

  /**
   * The first sentinel sits right after the messages the writer takes, and
   * what is left is everything after it.
   */
  lemma {:induction false} FirstSentinel(q: seq<Item>)
    requires Sentinel in q
    ensures |TakeMessages(q)| < |q| && q[|TakeMessages(q)|] == Sentinel
    ensures forall i :: 0 <= i < |TakeMessages(q)| ==> q[i] == Message(TakeMessages(q)[i])
    ensures AfterSentinel(q) == q[|TakeMessages(q)| + 1..]
  {
    if q[0] != Sentinel {
      assert Sentinel in q[1..] by {
        var k :| 0 <= k < |q| && q[k] == Sentinel;
        assert q[1..][k - 1] == Sentinel;
      }
      FirstSentinel(q[1..]);
      var ms := TakeMessages(q);
      assert ms == [q[0].text] + TakeMessages(q[1..]);
      forall i | 0 <= i < |ms| ensures q[i] == Message(ms[i]) {
        if i > 0 { assert q[i] == q[1..][i - 1]; }
      }
    }
  }

  /** The `k`-th `get` of a writer: a message while `k` is below the count taken, the sentinel at it. */
  lemma DrainStep(q: seq<Item>, k: nat)
    requires Sentinel in q && k <= |TakeMessages(q)|
    ensures k < |q| && q[k..][0] == q[k] && q[k..][1..] == q[k + 1..]
    ensures q[k] == Sentinel <==> k == |TakeMessages(q)|
    ensures q[k] != Sentinel ==> q[k] == Message(TakeMessages(q)[k])
  {
    FirstSentinel(q);
  }

  /** Writing one more message extends the written text by it. */
  lemma ConcatTake(ms: seq<string>, k: nat)
    requires k < |ms|
    ensures Concat(ms[..k + 1]) == Concat(ms[..k]) + ms[k]
  {
    assert ms[..k + 1] == ms[..k] + [ms[k]];
    ConcatPush(ms[..k], ms[k]);
  }

  /** A queue of messages closed by a sentinel drains back to exactly those messages. */
  lemma {:induction false} DrainQueued(ms: seq<string>, rest: seq<Item>)
    ensures TakeMessages(AsItems(ms) + [Sentinel] + rest) == ms
    ensures AfterSentinel(AsItems(ms) + [Sentinel] + rest) == rest
  {
    var q := AsItems(ms) + [Sentinel] + rest;
    if ms != [] {
      assert q[1..] == AsItems(ms[1..]) + [Sentinel] + rest;
      DrainQueued(ms[1..], rest);
      assert ms == [ms[0]] + ms[1..];
    }
  }

  /** The queue of `year`, or an empty one when the year has none yet. */
  function Lookup(q: map<string, seq<Item>>, year: string): seq<Item> {
    if year in q then q[year] else []
  }

  /**
   * Routing one message: the year's queue is created if it is new and the
   * message goes at its end; every other queue and every other key stays.
   */
  function Enqueue(q: map<string, seq<Item>>, year: string, text: string): (r: map<string, seq<Item>>)
    ensures r.Keys == q.Keys + {year}
    ensures forall y :: y in q && y != year ==> r[y] == q[y]
    ensures |r[year]| == |Lookup(q, year)| + 1 && r[year][..|Lookup(q, year)|] == Lookup(q, year)
    ensures r[year][|Lookup(q, year)|] == Message(text)
  {
    q[year := Lookup(q, year) + [Message(text)]]
  }

  /** The line the writer puts after the header. */
  const ChatlogLine: string := ChatlogOpen + "\n"

  /** The output file name of a year. */
  function FileName(year: string): string {
    year + ".html"
  }

  lemma FileNameInjective(a: string, b: string)
    ensures FileName(a) == FileName(b) ==> a == b
  {
    if FileName(a) == FileName(b) {
      assert a == FileName(a)[..|a|] && b == FileName(b)[..|b|];
    }
  }

  /** The dictionary of year queues. */
  class YearQueues {
    var queues: map<string, seq<Item>>

    constructor()
      ensures queues == map[]
    {
      queues := map[];
    }

    /** Puts a message on its year's queue, creating the queue first if the year is new. */
    method Route(year: string, text: string)
      modifies this
      ensures queues == Enqueue(old(queues), year, text)
    {
      if year !in queues {
        queues := queues[year := []];
      }
      queues := queues[year := queues[year] + [Message(text)]];
    }

    /** Takes the item at the front of a year's queue (the model never waits: the queue is not empty). */
    method Get(year: string) returns (item: Item)
      requires year in queues && queues[year] != []
      modifies this
      ensures item == old(queues[year][0])
      ensures queues == old(queues)[year := old(queues[year][1..])]
    {
      item := queues[year][0];
      queues := queues[year := queues[year][1..]];
    }

    /** Puts one sentinel at the end of every queue. */
    method SignalDone()
      modifies this
      ensures queues.Keys == old(queues).Keys
      ensures forall y :: y in queues ==> queues[y] == old(queues)[y] + [Sentinel]
    {
      var todo := queues.Keys;
      ghost var q0 := queues;
      while todo != {}
        invariant todo <= q0.Keys && queues.Keys == q0.Keys
        invariant forall y :: y in q0 ==> queues[y] == if y in todo then q0[y] else q0[y] + [Sentinel]
        decreases todo
      {
        var y :| y in todo;
        queues := queues[y := queues[y] + [Sentinel]];
        todo := todo - {y};
      }
    }

    /**
     * Gives every year that has a queue a writer, unless it has one already:
     * the writers end up covering exactly the years already served and the
     * years with a queue, and a new writer goes to the year's own file.
     */
    method StartWriters(writers: map<string, string>) returns (started: map<string, string>)
      ensures started.Keys == writers.Keys + queues.Keys
      ensures forall y :: y in writers ==> started[y] == writers[y]
      ensures forall y :: y in started && y !in writers ==> started[y] == FileName(y)
    {
      started := writers;
      var todo := queues.Keys;
      while todo != {}
        invariant todo <= queues.Keys
        invariant started.Keys == writers.Keys + (queues.Keys - todo)
        invariant forall y :: y in writers ==> started[y] == writers[y]
        invariant forall y :: y in started && y !in writers ==> started[y] == FileName(y)
        decreases todo
      {
        var y :| y in todo;
        if y !in started {
          started := started[y := FileName(y)];
        }
        todo := todo - {y};
      }
    }

    /**
     * The writer's loop: `get` until the first sentinel, joining the
     * messages taken, in order. The queue is left with what followed the
     * sentinel.
     */
    method Drain(year: string) returns (body: string)
      requires year in queues && Sentinel in queues[year]
      modifies this
      ensures body == Concat(TakeMessages(old(queues[year])))
      ensures queues == old(queues)[year := AfterSentinel(old(queues[year]))]
    {
      ghost var q0, all := queues[year], queues;
      ghost var ms := TakeMessages(q0);
      FirstSentinel(q0);
      body := "";
      ghost var k := 0;
      while true
        invariant 0 <= k <= |ms|
        invariant queues == all[year := q0[k..]]
        invariant body == Concat(ms[..k])
        decreases |q0| - k
      {
        DrainStep(q0, k);
        var item := Get(year);
        if item == Sentinel {
          assert ms[..k] == ms;
          break;
        }
        ConcatTake(ms, k);
        body := body + item.text;
        k := k + 1;
      }
    }

    /**
     * The writer of one year: the header, the opening line of the message
     * log, every message taken from the queue before the first sentinel, in
     * order, and the footer.
     */
    method YearFileWriter(year: string, header: string, footer: string) returns (file: string)
      requires year in queues && Sentinel in queues[year]
      modifies this
      ensures file == header + ChatlogLine + Concat(TakeMessages(old(queues[year]))) + footer
      ensures queues == old(queues)[year := AfterSentinel(old(queues[year]))]
    {
      file := header + ChatlogLine;
      var body := Drain(year);
      file := file + body + footer;
    }
  }
}
