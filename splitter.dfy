/**
 * The boundary splitter and the read loop of `parse_discord_html`.
 *
 * Each chunk read from the file is appended to a pending buffer; when the
 * last `</div>` of the buffer starts after index 0, everything up to and
 * including it is submitted as one batch and the rest is kept. At end of
 * input a non-empty leftover is submitted as the last batch.
 */
module Splitter {
  import opened Options
  import opened Text

  const CloseDiv: string := "</div>"

  /** The outcome of one split attempt: the part handed off, if any, and the part kept. */
  datatype Cut = Cut(submitted: Option<string>, kept: string)

  /** No `</div>` starts after index 0: the pending buffer is in this state between reads. */
  ghost predicate NoLaterClose(b: string) {
    forall j :: 0 < j ==> !OccursAt(b, CloseDiv, j)
  }

  /** One split of the pending buffer at its last `</div>` (`rfind`, then the `> 0` test). */
  function SplitAtLastDiv(buffer: string): (c: Cut)
    ensures c.submitted.Some? ==> c.submitted.value + c.kept == buffer
    ensures c.submitted.None? ==> c.kept == buffer
  {
    var p := RFind(buffer, CloseDiv);
    if p > 0 then Cut(Some(buffer[..p + |CloseDiv|]), buffer[p + |CloseDiv|..]) else Cut(None, buffer)
  }

  /**
   * A split happens exactly when some `</div>` starts after index 0; the
   * part handed off then ends with `</div>` and the part kept has none, and
   * in every case the kept part has no `</div>` after index 0.
   */
  lemma CutAtLastClose(buffer: string)
    ensures SplitAtLastDiv(buffer).submitted.Some? <==> !NoLaterClose(buffer)
    ensures SplitAtLastDiv(buffer).submitted.Some? ==>
              EndsWith(SplitAtLastDiv(buffer).submitted.value, CloseDiv) &&
              !Contains(SplitAtLastDiv(buffer).kept, CloseDiv)
    ensures NoLaterClose(SplitAtLastDiv(buffer).kept)
  {
    var p := RFind(buffer, CloseDiv);
    if p > 0 {
      var kept := buffer[p + |CloseDiv|..];
      forall j | OccursAt(kept, CloseDiv, j) ensures OccursAt(buffer, CloseDiv, p + |CloseDiv| + j) {
        assert kept[j..j + |CloseDiv|] == buffer[p + |CloseDiv| + j..p + |CloseDiv| + j + |CloseDiv|];
      }
    }
  }

  /** The chunks the loop consumes: those before the first empty read (end of input). */
  function ReadPrefix(chunks: seq<string>): (r: seq<string>)
    ensures |r| <= |chunks| && r == chunks[..|r|]
    ensures forall i :: 0 <= i < |r| ==> r[i] != ""
    ensures |r| < |chunks| ==> chunks[|r|] == ""
  {
    if chunks == [] || chunks[0] == "" then [] else [chunks[0]] + ReadPrefix(chunks[1..])
  }

  /** The read prefix ends at the first empty chunk (or at the end). */
  lemma {:induction false} ReadPrefixEnds(chunks: seq<string>, i: nat)
    requires i <= |chunks| && (i == |chunks| || chunks[i] == "")
    requires forall k :: 0 <= k < i ==> chunks[k] != ""
    ensures ReadPrefix(chunks) == chunks[..i]
  {
    if i > 0 {
      ReadPrefixEnds(chunks[1..], i - 1);
      assert chunks[..i] == [chunks[0]] + chunks[1..][..i - 1];
    }
  }

  /** The batch a cut hands off: one string, or none. */
  function Handed(c: Cut): seq<string> {
    if c.submitted.Some? then [c.submitted.value] else []
  }

  lemma CutConcat(buffer: string)
    ensures Concat(Handed(SplitAtLastDiv(buffer))) + SplitAtLastDiv(buffer).kept == buffer
  {
    var c := SplitAtLastDiv(buffer);
    if c.submitted.Some? {
      assert Concat(Handed(c)) == c.submitted.value + Concat([]);
    }
  }

  /**
   * The batches the read loop submits when its pending buffer is `buffer`
   * and the reads still to come are `chunks`.
   */
  function SplitFrom(buffer: string, chunks: seq<string>): (r: seq<string>)
    ensures |r| <= |ReadPrefix(chunks)| + 1
    decreases |chunks|
  {
    if chunks == [] || chunks[0] == "" then
      if buffer == "" then [] else [buffer]
    else
      var c := SplitAtLastDiv(buffer + chunks[0]);
      Handed(c) + SplitFrom(c.kept, chunks[1..])
  }

  /** Reassembly: the submitted batches, joined in order, are the buffer followed by everything read. */
  lemma {:induction false} SplitFromConcat(buffer: string, chunks: seq<string>)
    ensures Concat(SplitFrom(buffer, chunks)) == buffer + Concat(ReadPrefix(chunks))
    decreases |chunks|
  {
    if chunks == [] || chunks[0] == "" {
      assert ReadPrefix(chunks) == [];
      assert buffer != "" ==> Concat([buffer]) == buffer + Concat([]);
    } else {
      var c := SplitAtLastDiv(buffer + chunks[0]);
      var head, kept, rest := Concat(Handed(c)), c.kept, Concat(ReadPrefix(chunks[1..]));
      assert Concat(SplitFrom(buffer, chunks)) == head + (kept + rest) by {
        SplitFromConcat(c.kept, chunks[1..]);
        ConcatAppend(Handed(c), SplitFrom(c.kept, chunks[1..]));
      }
      assert Concat(ReadPrefix(chunks)) == chunks[0] + rest by {
        assert ReadPrefix(chunks) == [chunks[0]] + ReadPrefix(chunks[1..]);
      }
      assert head + kept == buffer + chunks[0] by {
        CutConcat(buffer + chunks[0]);
      }
      Assoc(head, kept, rest);
      Assoc(buffer, chunks[0], rest);
    }
  }

  /**
   * Shape of a sequence of batches: none is empty, every batch but the last
   * ends with `</div>`, and the last either ends with `</div>` or is a
   * leftover with no `</div>` after index 0.
   */
  ghost predicate WellCut(bs: seq<string>) {
    && (forall i :: 0 <= i < |bs| ==> bs[i] != "")
    && (forall i :: 0 <= i < |bs| - 1 ==> EndsWith(bs[i], CloseDiv))
    && (bs != [] ==> EndsWith(bs[|bs| - 1], CloseDiv) || NoLaterClose(bs[|bs| - 1]))
  }

  lemma WellCutPrepend(x: string, bs: seq<string>)
    requires EndsWith(x, CloseDiv) && WellCut(bs)
    ensures WellCut([x] + bs)
  {
    var r := [x] + bs;
    forall i | 0 <= i < |r| ensures r[i] != "" {
      if i > 0 { assert r[i] == bs[i - 1]; }
    }
    forall i | 0 <= i < |r| - 1 ensures EndsWith(r[i], CloseDiv) {
      if i > 0 { assert r[i] == bs[i - 1]; }
    }
  }

  /** The batches submitted from a buffer with no `</div>` after index 0 are well cut. */
  lemma {:induction false} SplitFromShape(buffer: string, chunks: seq<string>)
    requires NoLaterClose(buffer)
    ensures WellCut(SplitFrom(buffer, chunks))
    decreases |chunks|
  {
    if chunks == [] || chunks[0] == "" {
    } else {
      var c := SplitAtLastDiv(buffer + chunks[0]);
      CutAtLastClose(buffer + chunks[0]);
      SplitFromShape(c.kept, chunks[1..]);
      if c.submitted.Some? {
        WellCutPrepend(c.submitted.value, SplitFrom(c.kept, chunks[1..]));
      }
    }
  }

  /** The strings that successive `file.read(size)` calls return before the empty read at end of input. */
  function ReadChunks(text: string, size: int): (chunks: seq<string>)
    ensures forall i :: 0 <= i < |chunks| ==> chunks[i] != ""
    ensures size > 0 ==> forall i :: 0 <= i < |chunks| ==> |chunks[i]| <= size
    ensures Concat(chunks) == if size == 0 then "" else text
    decreases |text|
  {
    if text == "" || size == 0 then []
    else if size < 0 || |text| <= size then [text]
    else
      var rest := ReadChunks(text[size..], size);
      assert text == text[..size] + text[size..];
      [text[..size]] + rest
  }

  /** The batches the read loop submits for a file read `size` characters at a time. */
  function Fragments(text: string, size: int): seq<string> {
    SplitFrom("", ReadChunks(text, size))
  }

  /**
   * Whole-file reassembly: the batches joined in order are the file, for any
   * chunk size except 0 (a read of size 0 returns "" and the loop stops at once),
   * and the batches are well cut. This holds however the messages fall across
   * chunk boundaries.
   */
  lemma FragmentsCoverText(text: string, size: int)
    ensures Concat(Fragments(text, size)) == if size == 0 then "" else text
    ensures WellCut(Fragments(text, size))
  {
    var chunks := ReadChunks(text, size);
    assert ReadPrefix(chunks) == chunks;
    SplitFromConcat("", chunks);
    SplitFromShape("", chunks);
  }

  /** One turn of the read loop, on the batches: the split at a non-empty chunk is the next step of `SplitFrom`. */
  lemma BatchStep(before: seq<string>, pending: string, chunks: seq<string>, i: nat)
    requires i < |chunks| && chunks[i] != ""
    ensures var c := SplitAtLastDiv(pending + chunks[i]);
            (before + Handed(c)) + SplitFrom(c.kept, chunks[i + 1..]) == before + SplitFrom(pending, chunks[i..])
  {
    var c := SplitAtLastDiv(pending + chunks[i]);
    assert SplitFrom(pending, chunks[i..]) == Handed(c) + SplitFrom(c.kept, chunks[i + 1..]) by {
      assert chunks[i..][0] == chunks[i] && chunks[i..][1..] == chunks[i + 1..];
    }
    Assoc(before, Handed(c), SplitFrom(c.kept, chunks[i + 1..]));
  }

  /** At end of input the pending buffer is submitted if it is not empty. */
  lemma SplitFromEnd(buffer: string, rest: seq<string>)
    requires rest == [] || rest[0] == ""
    ensures SplitFrom(buffer, rest) == if buffer == "" then [] else [buffer]
  {
  }

  /** One turn of the read loop, on the text: what is submitted and kept is what was read. */
  lemma ConcatStep(before: seq<string>, pending: string, chunks: seq<string>, i: nat)
    requires i < |chunks|
    requires Concat(before) + pending == Concat(chunks[..i])
    ensures var c := SplitAtLastDiv(pending + chunks[i]);
            Concat(before + Handed(c)) + c.kept == Concat(chunks[..i + 1])
  {
    var c := SplitAtLastDiv(pending + chunks[i]);
    calc {
      Concat(before + Handed(c)) + c.kept;
    == { ConcatAppend(before, Handed(c)); }
      (Concat(before) + Concat(Handed(c))) + c.kept;
    == { Assoc(Concat(before), Concat(Handed(c)), c.kept); }
      Concat(before) + (Concat(Handed(c)) + c.kept);
    == { CutConcat(pending + chunks[i]); }
      Concat(before) + (pending + chunks[i]);
    == { Assoc(Concat(before), pending, chunks[i]); }
      Concat(chunks[..i]) + chunks[i];
    == { assert chunks[..i + 1] == chunks[..i] + [chunks[i]]; ConcatPush(chunks[..i], chunks[i]); }
      Concat(chunks[..i + 1]);
    }
  }

  /** One turn of the read loop keeps both of its invariants. */
  lemma LoopStep(before: seq<string>, pending: string, chunks: seq<string>, i: nat)
    requires i < |chunks| && chunks[i] != ""
    requires before + SplitFrom(pending, chunks[i..]) == SplitFrom("", chunks)
    requires Concat(before) + pending == Concat(chunks[..i])
    ensures var c := SplitAtLastDiv(pending + chunks[i]);
            (before + Handed(c)) + SplitFrom(c.kept, chunks[i + 1..]) == SplitFrom("", chunks) &&
            Concat(before + Handed(c)) + c.kept == Concat(chunks[..i + 1])
  {
    BatchStep(before, pending, chunks, i);
    ConcatStep(before, pending, chunks, i);
  }

  /** At end of input, submitting a non-empty leftover completes the batches. */
  lemma LoopExit(before: seq<string>, pending: string, chunks: seq<string>, i: nat)
    requires i <= |chunks| && (i == |chunks| || chunks[i] == "")
    requires forall k :: 0 <= k < i ==> chunks[k] != ""
    requires before + SplitFrom(pending, chunks[i..]) == SplitFrom("", chunks)
    requires Concat(before) + pending == Concat(chunks[..i])
    ensures var out := if pending == "" then before else before + [pending];
            out == SplitFrom("", chunks) && Concat(out) == Concat(ReadPrefix(chunks))
  {
    ReadPrefixEnds(chunks, i);
    SplitFromEnd(pending, chunks[i..]);
    if pending != "" {
      ConcatPush(before, pending);
    } else {
      assert before + [] == before;
    }
  }

  /**
   * The read loop of `parse_discord_html`: append a chunk, split at the
   * last `</div>` when it starts after index 0, and at end of input submit a
   * non-empty leftover.
   */
  method SplitChunks(chunks: seq<string>) returns (batches: seq<string>)
    ensures batches == SplitFrom("", chunks)
    ensures Concat(batches) == Concat(ReadPrefix(chunks))
  {
    var buffer := "";
    var i := 0;
    batches := [];
    while true
      invariant 0 <= i <= |chunks|
      invariant forall k :: 0 <= k < i ==> chunks[k] != ""
      invariant batches + SplitFrom(buffer, chunks[i..]) == SplitFrom("", chunks)
      invariant Concat(batches) + buffer == Concat(chunks[..i])
      decreases |chunks| - i
    {
      var chunk := if i < |chunks| then chunks[i] else "";
      if chunk == "" {
        LoopExit(batches, buffer, chunks, i);
        if buffer != "" {
          batches := batches + [buffer];
        }
        break;
      }
      var c := SplitAtLastDiv(buffer + chunk);
      LoopStep(batches, buffer, chunks, i);
      batches := batches + Handed(c);
      buffer := c.kept;
      i := i + 1;
    }
  }
}
