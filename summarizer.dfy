/**
 * The two-pass, size-bounded summariser of document_utils.py:
 * `summarize_changes` (pass 1 and the overflow check) and
 * `second_pass_summary` (pass 2). The two calls to the summarisation
 * service are gateways passed in as functions; each method also returns the
 * chunks it handed to a gateway, in call order, so that the number and order
 * of calls can be stated.
 */
module Summarizer {
  import opened Text
  import opened Chunker

  datatype Option<T> = None | Some(value: T)

  /** A summarisation service: given the 0-based number of the call within
      its pass and the chunk text, the content it answers with, or None when
      the call fails. The call number lets two calls with equal text get
      different answers. */
  type Gateway = (nat, string) -> Option<string>

  /** Characters per pass-1 chunk (line 50). */
  const Pass1Size: nat := 200
  /** Characters per pass-2 chunk (line 91). */
  const Pass2Size: nat := 16000
  /** Pass 2 runs when the combined summary has more words than this (line 57). */
  const WordLimit: nat := 16000
  /** What a failed pass-2 call contributes instead of a summary (line 106). */
  const FinalFailure: string := "Final summary process failed."

  /** `if summary:` at line 54: a failed call (None) and an empty answer are
      both dropped. */
  predicate Useful(answer: Option<string>) {
    answer.Some? && answer.value != ""
  }

  /** The pass-1 chunks: the change lines, markers included, joined with one
      space and cut every 200 characters. */
  function Pass1Chunks(changes: seq<string>): seq<string> {
    Chunk(JoinWith(changes, " "), Pass1Size)
  }

  /** The `summaries` list after the first n pass-1 calls. */
  function Kept(chunks: seq<string>, g1: Gateway, n: nat): seq<string>
    requires n <= |chunks|
  {
    if n == 0 then []
    else
      var answer := g1(n - 1, chunks[n - 1]);
      Kept(chunks, g1, n - 1) + (if Useful(answer) then [answer.value] else [])
  }

  /** The call numbers below n whose pass-1 answer is kept, in increasing order. */
  ghost function KeptCalls(chunks: seq<string>, g1: Gateway, n: nat): seq<nat>
    requires n <= |chunks|
  {
    if n == 0 then []
    else KeptCalls(chunks, g1, n - 1) + (if Useful(g1(n - 1, chunks[n - 1])) then [n - 1] else [])
  }

  /** `combined_summary` before the overflow check (line 56). */
  function Combined(changes: seq<string>, g1: Gateway): string {
    var chunks := Pass1Chunks(changes);
    JoinWith(Kept(chunks, g1, |chunks|), " ")
  }

  /** One pass-2 entry: the answer's content, even when empty, or the
      failure marker. */
  function Entry(answer: Option<string>): string {
    match answer
    case Some(content) => content
    case None => FinalFailure
  }

  /** The `final_summaries` list: one entry per pass-2 chunk, in order. */
  function Pass2Entries(chunks: seq<string>, g2: Gateway): seq<string> {
    seq(|chunks|, i requires 0 <= i < |chunks| => Entry(g2(i, chunks[i])))
  }

  /** What `second_pass_summary(text)` returns. */
  function SecondPass(text: string, g2: Gateway): string {
    JoinWith(Pass2Entries(Chunk(text, Pass2Size), g2), " ")
  }

  /** What `summarize_changes(changes)` returns. */
  function Summary(changes: seq<string>, g1: Gateway, g2: Gateway): string {
    var combined := Combined(changes, g1);
    if WordCount(combined) > WordLimit then SecondPass(combined, g2) else combined
  }

  /** `second_pass_summary`: one gateway call per 16000-character chunk, in
      order; a failed call contributes the failure marker. */
  method SecondPassSummary(text: string, g2: Gateway) returns (summary: string, sent: seq<string>)
    ensures sent == Chunk(text, Pass2Size)
    ensures summary == SecondPass(text, g2)
  {
    var chunks := Chunk(text, Pass2Size);
    var finalSummaries: seq<string> := [];
    sent := [];
    for i := 0 to |chunks|
      invariant sent == chunks[..i]
      invariant finalSummaries == Pass2Entries(chunks, g2)[..i]
    {
      var answer := g2(i, chunks[i]);
      sent := sent + [chunks[i]];
      match answer {
        case Some(content) =>
          finalSummaries := finalSummaries + [content];
        case None =>
          finalSummaries := finalSummaries + [FinalFailure];
      }
    }
    assert chunks[..|chunks|] == chunks;
    assert Pass2Entries(chunks, g2)[..|chunks|] == Pass2Entries(chunks, g2);
    summary := JoinWith(finalSummaries, " ");
  }

  /** `summarize_changes`: pass 1 calls `g1` once per 200-character chunk, in
      order, and keeps the useful answers; pass 2 runs, and `g2` is called at
      all, exactly when the kept answers joined hold more than 16000 words. */
  method SummarizeChanges(changes: seq<string>, g1: Gateway, g2: Gateway)
    returns (summary: string, sent1: seq<string>, sent2: seq<string>)
    ensures sent1 == Pass1Chunks(changes)
    ensures sent2 != [] <==> WordCount(Combined(changes, g1)) > WordLimit
    ensures sent2 != [] ==> sent2 == Chunk(Combined(changes, g1), Pass2Size)
    ensures sent2 == [] ==> summary == Combined(changes, g1)
    ensures sent2 != [] ==> summary == SecondPass(Combined(changes, g1), g2)
    ensures summary == Summary(changes, g1, g2)
  {
    var changesText := JoinWith(changes, " ");
    var chunks := Chunk(changesText, Pass1Size);
    var summaries: seq<string> := [];
    sent1 := [];
    for i := 0 to |chunks|
      invariant sent1 == chunks[..i]
      invariant summaries == Kept(chunks, g1, i)
    {
      var answer := g1(i, chunks[i]);
      sent1 := sent1 + [chunks[i]];
      if answer.Some? && answer.value != "" {
        summaries := summaries + [answer.value];
      }
    }
    assert chunks[..|chunks|] == chunks;
    var combinedSummary := JoinWith(summaries, " ");
    summary, sent2 := combinedSummary, [];
    if WordCount(combinedSummary) > WordLimit {
      summary, sent2 := SecondPassSummary(combinedSummary, g2);
      Pass2ChunkCount(combinedSummary);
    }
  }

  // ---------------------------------------------------------------------
  // Pass 1

  /** The kept answers are exactly the non-empty contents of the successful
      calls, in call order: answer j comes from call KeptCalls[j], the calls
      are increasing, and every call with a useful answer is among them. */
  lemma {:induction false} KeptExactly(chunks: seq<string>, g1: Gateway, n: nat)
    requires n <= |chunks|
    ensures |Kept(chunks, g1, n)| == |KeptCalls(chunks, g1, n)|
    ensures forall j :: 0 <= j < |KeptCalls(chunks, g1, n)| ==>
              KeptCalls(chunks, g1, n)[j] < n &&
              Useful(g1(KeptCalls(chunks, g1, n)[j], chunks[KeptCalls(chunks, g1, n)[j]])) &&
              Kept(chunks, g1, n)[j] == g1(KeptCalls(chunks, g1, n)[j], chunks[KeptCalls(chunks, g1, n)[j]]).value
    ensures forall j, j' :: 0 <= j < j' < |KeptCalls(chunks, g1, n)| ==>
              KeptCalls(chunks, g1, n)[j] < KeptCalls(chunks, g1, n)[j']
    ensures forall i :: 0 <= i < n && Useful(g1(i, chunks[i])) ==> i in KeptCalls(chunks, g1, n)
  {
    if n > 0 {
      KeptExactly(chunks, g1, n - 1);
    }
  }

  /** A kept answer is never empty. */
  lemma KeptNonEmpty(chunks: seq<string>, g1: Gateway, n: nat)
    requires n <= |chunks|
    ensures forall j :: 0 <= j < |Kept(chunks, g1, n)| ==> Kept(chunks, g1, n)[j] != ""
  {
    KeptExactly(chunks, g1, n);
  }

  /** Nothing is kept exactly when no call gave a useful answer. */
  lemma {:induction false} KeptEmptyIff(chunks: seq<string>, g1: Gateway, n: nat)
    requires n <= |chunks|
    ensures Kept(chunks, g1, n) == [] <==> forall i :: 0 <= i < n ==> !Useful(g1(i, chunks[i]))
  {
    if n > 0 {
      KeptEmptyIff(chunks, g1, n - 1);
    }
  }

  /** Pass 1 makes ceil(|text| / 200) calls, where text is the change lines
      joined with single spaces; each call gets between 1 and 200 characters. */
  lemma Pass1CallCount(changes: seq<string>)
    ensures var n := |Pass1Chunks(changes)|;
            var len := |JoinWith(changes, " ")|;
            len <= n * Pass1Size && (n == 0 || (n - 1) * Pass1Size < len)
    ensures forall i :: 0 <= i < |Pass1Chunks(changes)| ==> 0 < |Pass1Chunks(changes)[i]| <= Pass1Size
    ensures changes != [] ==> |JoinWith(changes, " ")| == TotalLength(changes) + |changes| - 1
  {
    ChunkCount(JoinWith(changes, " "), Pass1Size);
    ChunkSizes(JoinWith(changes, " "), Pass1Size);
  }

  /** A change text of 500 characters is summarised in exactly three calls. */
  lemma Pass1ThreeCalls(changes: seq<string>)
    requires |JoinWith(changes, " ")| == 500
    ensures |Pass1Chunks(changes)| == 3
  {
    Pass1CallCount(changes);
  }

  /** No call is made exactly when the joined change text is empty: no change
      lines, or a single empty one. */
  lemma NoCallsIff(changes: seq<string>)
    ensures Pass1Chunks(changes) == [] <==> (changes == [] || changes == [""])
  {
    JoinWithEmpty(changes, " ");
    Pass1CallCount(changes);
  }

  /** When no pass-1 call gives a useful answer (in particular when no call
      is made), the summary is empty and pass 2 does not run. */
  lemma AllFailEmpty(changes: seq<string>, g1: Gateway, g2: Gateway)
    requires forall i :: 0 <= i < |Pass1Chunks(changes)| ==> !Useful(g1(i, Pass1Chunks(changes)[i]))
    ensures Combined(changes, g1) == "" && WordCount(Combined(changes, g1)) == 0
    ensures Summary(changes, g1, g2) == ""
  {
    var chunks := Pass1Chunks(changes);
    KeptEmptyIff(chunks, g1, |chunks|);
  }

  /** Every kept pass-1 answer occurs in the combined summary. */
  lemma CombinedKeepsAnswers(changes: seq<string>, g1: Gateway, i: nat)
    requires i < |Pass1Chunks(changes)| && Useful(g1(i, Pass1Chunks(changes)[i]))
    ensures IsInfix(g1(i, Pass1Chunks(changes)[i]).value, Combined(changes, g1))
  {
    var chunks := Pass1Chunks(changes);
    var kept := Kept(chunks, g1, |chunks|);
    KeptExactly(chunks, g1, |chunks|);
    var calls := KeptCalls(chunks, g1, |chunks|);
    var j :| 0 <= j < |calls| && calls[j] == i;
    JoinWithKeepsParts(kept, " ", j);
  }

  /** The combined summary is empty exactly when no pass-1 call gave a useful
      answer. */
  lemma CombinedEmptyIff(changes: seq<string>, g1: Gateway)
    ensures Combined(changes, g1) == "" <==>
            forall i :: 0 <= i < |Pass1Chunks(changes)| ==> !Useful(g1(i, Pass1Chunks(changes)[i]))
  {
    var chunks := Pass1Chunks(changes);
    var kept := Kept(chunks, g1, |chunks|);
    KeptEmptyIff(chunks, g1, |chunks|);
    KeptNonEmpty(chunks, g1, |chunks|);
    JoinWithEmpty(kept, " ");
  }

  // ---------------------------------------------------------------------
  // Pass 2

  /** Text with more than 16000 words is over 16000 characters long, so pass 2
      always cuts it into at least two chunks. */
  lemma Pass2ChunkCount(text: string)
    requires WordCount(text) > WordLimit
    ensures |Chunk(text, Pass2Size)| >= 2
  {
    WordCountBound(text);
    ChunkCount(text, Pass2Size);
  }

  /** Pass 2 has one entry per chunk, in order: the answer's content when the
      call succeeds (even an empty one) and the failure marker when it fails. */
  lemma Pass2EntriesShape(chunks: seq<string>, g2: Gateway)
    ensures |Pass2Entries(chunks, g2)| == |chunks|
    ensures forall i :: 0 <= i < |chunks| && g2(i, chunks[i]).Some? ==>
              Pass2Entries(chunks, g2)[i] == g2(i, chunks[i]).value
    ensures forall i :: 0 <= i < |chunks| && g2(i, chunks[i]).None? ==>
              Pass2Entries(chunks, g2)[i] == FinalFailure
  {
  }

  /** No pass-2 chunk is silently lost: a failed call leaves the failure
      marker in the result, a successful one its content. */
  lemma SecondPassKeepsEntries(text: string, g2: Gateway, i: nat)
    requires i < |Chunk(text, Pass2Size)|
    ensures var answer := g2(i, Chunk(text, Pass2Size)[i]);
            IsInfix(if answer.Some? then answer.value else FinalFailure, SecondPass(text, g2))
  {
    JoinWithKeepsParts(Pass2Entries(Chunk(text, Pass2Size), g2), " ", i);
  }

  // ---------------------------------------------------------------------
  // The whole summariser

  /** The summary is empty exactly when every pass-1 call failed or answered
      with an empty string: a non-empty combined summary either is returned
      as it is or goes to pass 2, whose two or more entries are joined with a
      space. */
  lemma SummaryEmptyIff(changes: seq<string>, g1: Gateway, g2: Gateway)
    ensures Summary(changes, g1, g2) == "" <==>
            forall i :: 0 <= i < |Pass1Chunks(changes)| ==> !Useful(g1(i, Pass1Chunks(changes)[i]))
  {
    var combined := Combined(changes, g1);
    CombinedEmptyIff(changes, g1);
    if WordCount(combined) > WordLimit {
      Pass2ChunkCount(combined);
      var entries := Pass2Entries(Chunk(combined, Pass2Size), g2);
      JoinWithEmpty(entries, " ");
      WordCountZero(combined);
    }
  }

  /** A change text of at most 200 characters is summarised in one call, and
      an answer of at most 16000 words is returned as it is. */
  lemma SingleChunkSummary(changes: seq<string>, g1: Gateway, g2: Gateway)
    requires 0 < |JoinWith(changes, " ")| <= Pass1Size
    requires g1(0, JoinWith(changes, " ")).Some? ==> WordCount(g1(0, JoinWith(changes, " ")).value) <= WordLimit
    ensures Pass1Chunks(changes) == [JoinWith(changes, " ")]
    ensures var answer := g1(0, JoinWith(changes, " "));
            Summary(changes, g1, g2) == if Useful(answer) then answer.value else ""
  {
    var chunks := Pass1Chunks(changes);
    assert chunks == [JoinWith(changes, " ")];
    assert Kept(chunks, g1, 0) == [];
  }
}
