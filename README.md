# Document comparison and change summarisation — a Dafny model

This project models the parts of `src/document_utils.py` that do not depend
on a library. `src/document_utils.py` compares two Word documents and
summarises their differences as bullet points. The model has four parts, each
in its own module:

- **DiffFilter** (`diff_filter.dfy`). This is the filter that ends
  `compare_documents`. It keeps the unified-diff lines whose first character
  is `+` or `-`. The diff itself is an input.
- **Chunker** (`chunker.dfy`). It cuts a string into slices at character
  offsets 0, k, 2k, …. Pass 1 uses it with k = 200 and pass 2 with k = 16000.
- **Summarizer** (`summarizer.dfy`). `summarize_changes` and
  `second_pass_summary` become methods with loops, proved against
  specification functions (`Kept`, `Combined`, `SecondPass`, `Summary`).
  - The two calls to the summarisation service are *gateways*. A gateway is
    a function from the call's number within its pass and the chunk text to
    `Some(content)` or `None`, where `None` means the call failed.
  - Each method also returns the chunks it handed to its gateway, in call
    order, so that the number and order of calls can be stated.
- **BulletFormatter** (`bullets.dfy`). It covers `format_summary_as_points`:
  - the split at `". "` / `".\n"`;
  - the set of distinct non-empty fragments;
  - the `"- " + strip()` rendering of fragments longer than three characters.

  Python iterates a set in an order it does not promise. The model therefore
  takes that order as an argument, which may be any enumeration of the set,
  and proves its results for every such order.
- **Text** (`text.dfy`) holds the string primitives the others share:
  `sep.join`, `strip` and the word count `len(s.split())`.

Line 49 joins the change lines as they are, so the text sent to the gateway
includes the `+`/`-` markers (`Summarizer.Pass1Chunks`).

Where the tests and the code differ, the model follows the code:

- The expectation at `tests/test_document_utils.py:28` (`'+ New line here.'`
  alone) is not what the filter returns on a real unified diff. The
  `---`/`+++` headers pass the filter, and added lines carry no space after
  the `+`; `DiffFilter.HeadersKept` states this.
- The expectation at `tests/test_document_utils.py:53` assumes a fixed bullet
  order and a dropped final period. The split at line 117 keeps that period,
  and the set fixes no order. `BulletFormatter.TwoSentenceExample` states what
  the code gives.

## Model

| member | source | states |
|---|---|---|
| DiffFilter.IsChange | src/document_utils.py:39 | `line.startswith('+') or line.startswith('-')`; its use is stated by `FilterChanges`, `FilterChangesCounts` and `FilterChangesMembers` |
| DiffFilter.FilterChanges | src/document_utils.py:39 | every kept line starts with `+` or `-`, and the result is no longer than the diff |
| DiffFilter.FilterChangesCounts | src/document_utils.py:39 | each marked line is kept exactly as often as it occurs in the diff; an unmarked line is never kept |
| DiffFilter.FilterChangesMembers | src/document_utils.py:39 | a line is in the result if and only if it is in the diff and starts with `+` or `-` |
| DiffFilter.FilterChangesAppend | src/document_utils.py:39 | filtering a concatenation concatenates the filtered parts, so the relative order of kept lines is preserved |
| DiffFilter.FilterChangesIdempotent | src/document_utils.py:39 | filtering a filtered list changes nothing |
| DiffFilter.HeadersKept | src/document_utils.py:38-39 | on the unified diff of the test's two documents, the `---`/`+++` headers and `+New line here.` are kept, and the hunk header and context line are dropped |
| Chunker.Chunk | src/document_utils.py:50 | the slices at offsets 0, k, 2k, …; `ChunkRoundTrip`, `ChunkSizes`, `ChunkCount` and `ChunkAt` state its properties |
| Chunker.ChunkSizes | src/document_utils.py:50 | every chunk has between 1 and k characters, and every chunk but the last has exactly k |
| Chunker.ChunkRoundTrip | src/document_utils.py:50 | the chunks concatenated in order give back the input |
| Chunker.ChunkCount | src/document_utils.py:50 | the number n of chunks is ceil(\|s\|/k): n*k >= \|s\| and (n-1)*k < \|s\| |
| Chunker.OffsetIsProduct | src/document_utils.py:50 | the offset reached after i steps of `range(0, len, k)` is i*k |
| Chunker.ChunkAt | src/document_utils.py:91 | chunk i is the slice `s[i*k : min(i*k+k, len(s))]`, and its offset i*k is inside `s` |
| Text.JoinWith | src/document_utils.py:49 | `sep.join`: empty for no parts; otherwise its length is the parts' lengths plus one separator between each pair, and it begins with the first part |
| Text.JoinWithEmpty | src/document_utils.py:56 | a join with a one-character separator is empty if and only if there are no parts or a single empty part |
| Text.JoinWithKeepsParts | src/document_utils.py:107 | every part occurs as a substring of the join |
| Text.StripLeft | src/document_utils.py:119 | `lstrip`; `StripLeftSpec` characterises it |
| Text.StripRight | src/document_utils.py:119 | `rstrip`; `StripRightSpec` characterises it |
| Text.Strip | src/document_utils.py:119 | `strip`; `StripSpec` characterises it |
| Text.StripLeftSpec | src/document_utils.py:119 | `lstrip` removes a whitespace prefix and stops at a non-whitespace character |
| Text.StripRightSpec | src/document_utils.py:119 | `rstrip` removes a whitespace suffix and stops at a non-whitespace character |
| Text.StripSpec | src/document_utils.py:119 | `strip` returns a slice of the input with only whitespace outside it, and the slice is empty or neither begins nor ends with whitespace |
| Text.WordCount | src/document_utils.py:57 | `len(s.split())`; `WordCountSplit`, `WordCountOne` and `WordCountZero` fix its value on every string, and `WordCountJoin` and `WordCountBound` follow |
| Text.WordCountBound | src/document_utils.py:57 | a string of n characters holds at most (n+1)/2 whitespace-separated words |
| Text.WordCountZero | src/document_utils.py:57 | the word count is 0 if and only if the string is all whitespace |
| Text.WordCountSplit | src/document_utils.py:57 | a whitespace character splits the count: the words before it and the words after it are counted separately |
| Text.WordCountOne | src/document_utils.py:57 | a non-empty string without whitespace is one word |
| Text.WordCountJoin | src/document_utils.py:56-57 | non-empty whitespace-free words joined with single spaces count as exactly that many words |
| Summarizer.Useful | src/document_utils.py:54 | `if summary:`, true for a successful non-empty answer; used by `KeptExactly` and `KeptEmptyIff` |
| Summarizer.Pass1Chunks | src/document_utils.py:49-50 | the 200-character chunks of the change lines joined with a space, markers included; `Pass1CallCount` and `NoCallsIff` state its size |
| Summarizer.Kept | src/document_utils.py:51-55 | the `summaries` list after n calls; `KeptExactly`, `KeptNonEmpty` and `KeptEmptyIff` characterise it |
| Summarizer.Combined | src/document_utils.py:56 | `combined_summary` before the overflow check; `CombinedKeepsAnswers` and `CombinedEmptyIff` state its properties |
| Summarizer.Pass2Entries | src/document_utils.py:92-106 | the `final_summaries` list; `Pass2EntriesShape` states it entry by entry |
| Summarizer.SecondPass | src/document_utils.py:83-107 | what `second_pass_summary` returns; `SecondPassSummary` is proved equal to it and `SecondPassKeepsEntries` states that no chunk is lost |
| Summarizer.Summary | src/document_utils.py:41-59 | what `summarize_changes` returns; `SummarizeChanges` is proved equal to it, and `SummaryEmptyIff` and `AllFailEmpty` state its properties |
| Summarizer.SummarizeChanges | src/document_utils.py:41-59 | pass 1 sends the 200-character chunks of the space-joined change lines, in order. Pass 2 runs (its gateway receives a chunk) if and only if the combined summary has more than 16000 words, and then receives its 16000-character chunks. Otherwise the combined summary is returned unchanged |
| Summarizer.SecondPassSummary | src/document_utils.py:83-107 | sends the 16000-character chunks in order, and returns the space-join of one entry per chunk: the content, or the failure marker |
| Summarizer.KeptExactly | src/document_utils.py:51-55 | the kept answers are the non-empty successful answers, in increasing call order, and every such answer is kept |
| Summarizer.KeptNonEmpty | src/document_utils.py:54 | no kept answer is empty |
| Summarizer.KeptEmptyIff | src/document_utils.py:52-55 | nothing is kept if and only if every call failed or answered with an empty string |
| Summarizer.Pass1CallCount | src/document_utils.py:49-53 | pass 1 makes ceil(\|text\|/200) calls, where text is the lines joined with single spaces (its length is their total length plus one per gap), and each call gets 1 to 200 characters |
| Summarizer.Pass1ThreeCalls | src/document_utils.py:50 | a 500-character change text takes exactly three calls |
| Summarizer.NoCallsIff | src/document_utils.py:49-53 | no call is made if and only if there are no change lines or a single empty one |
| Summarizer.AllFailEmpty | src/document_utils.py:52-59 | when no call gives a useful answer, the combined summary is empty with zero words, and the result is `""` |
| Summarizer.CombinedKeepsAnswers | src/document_utils.py:55-56 | every useful pass-1 answer occurs in the combined summary |
| Summarizer.CombinedEmptyIff | src/document_utils.py:54-56 | the combined summary is empty if and only if no call gave a useful answer |
| Summarizer.Pass2ChunkCount | src/document_utils.py:57-58 | text with more than 16000 words is cut into at least two 16000-character chunks |
| Summarizer.Pass2EntriesShape | src/document_utils.py:93-106 | one entry per chunk, in order: the content even when empty, or `"Final summary process failed."` |
| Summarizer.SecondPassKeepsEntries | src/document_utils.py:103-107 | no chunk is silently lost: each chunk's content or failure marker occurs in the pass-2 result |
| Summarizer.SummaryEmptyIff | src/document_utils.py:54-59 | the final summary is empty if and only if every pass-1 call failed or answered with `""` |
| Summarizer.SingleChunkSummary | tests/test_document_utils.py:34-46 | a change text of 1 to 200 characters takes one call. An answer of at most 16000 words is returned as it is, and a failed or empty answer gives `""` |
| BulletFormatter.SplitSentences | src/document_utils.py:117 | the split yields at least one fragment, and the first is a prefix of the input |
| BulletFormatter.SplitHasNoBreaks | src/document_utils.py:117 | no fragment contains `". "` or `".\n"` |
| BulletFormatter.SplitLength | src/document_utils.py:117 | the fragments and the two-character breaks between them account for every input character |
| BulletFormatter.SplitAfterFragment | src/document_utils.py:117 | a break-free fragment followed by `". "` or `".\n"` splits off as the first fragment |
| BulletFormatter.SplitSingleIff | src/document_utils.py:117 | a string is its own single fragment if and only if it contains no break |
| BulletFormatter.SplitJoinRoundTrip | src/document_utils.py:117 | splitting break-free fragments joined with `". "` gives them back |
| BulletFormatter.Interleave | src/document_utils.py:117 | the fragments with a separator between each two neighbours; `SplitInterleaveRoundTrip` and `SplitReconstruct` make it the inverse of the split |
| BulletFormatter.SplitInterleaveRoundTrip | src/document_utils.py:117 | break-free fragments laid out with any mix of `". "` and `".\n"` separators split back into the same fragments |
| BulletFormatter.SplitBreaks | src/document_utils.py:117 | gives the separators of the split in order, one fewer than the fragments, each `". "` or `".\n"`; interleaved with the fragments they rebuild the input |
| BulletFormatter.SplitReconstruct | src/document_utils.py:117 | every string is its fragments interleaved with `". "`/`".\n"` separators, one fewer than the fragments |
| BulletFormatter.Fragments | src/document_utils.py:118 | the set holds only non-empty fragments of the split |
| BulletFormatter.FragmentsHaveNoBreaks | src/document_utils.py:117-118 | no fragment in the set contains a break |
| BulletFormatter.Keep | src/document_utils.py:119 | `len(sentence.strip()) > 3`; used by `RenderMembers` and `RenderCount` |
| BulletFormatter.Bullet | src/document_utils.py:119 | `"- " + sentence.strip()`; `BulletShape` states its shape |
| BulletFormatter.Render | src/document_utils.py:119 | the bullets in iteration order, noise dropped; `BulletShape`, `RenderMembers`, `RenderCount` and `RenderOrderIndependent` state its properties |
| BulletFormatter.FormatSummaryAsPoints | src/document_utils.py:109-120 | the result is empty if and only if no fragment is longer than three characters after stripping |
| BulletFormatter.EnumerationExists | src/document_utils.py:118-119 | every set of fragments has an iteration order, so every summary can be formatted |
| BulletFormatter.BulletShape | src/document_utils.py:119 | every bullet is `"- "` followed by more than three characters, with no whitespace at either end |
| BulletFormatter.RenderMembers | src/document_utils.py:119 | a bullet is rendered for a fragment if and only if the fragment passes the length filter |
| BulletFormatter.RenderEmptyIff | src/document_utils.py:119 | no bullet is rendered if and only if no fragment passes the length filter |
| BulletFormatter.JoinedBulletsEmptyIff | src/document_utils.py:119 | the newline-joined bullets are empty if and only if no fragment passes the length filter |
| BulletFormatter.RenderAppend | src/document_utils.py:119 | rendering a concatenation concatenates the renderings |
| BulletFormatter.RenderRemove | src/document_utils.py:119 | removing one fragment from the order removes its bullet, if it has one, from the multiset of bullets |
| BulletFormatter.RenderPermutation | src/document_utils.py:118-119 | rendering a permutation of the fragments gives a permutation of the bullets |
| BulletFormatter.RenderOrderIndependent | src/document_utils.py:118-119 | any two iteration orders of the set give the same multiset of bullets |
| BulletFormatter.RenderCount | src/document_utils.py:118-119 | there is one bullet per distinct fragment that passes the length filter, so a repeated fragment gives one bullet |
| BulletFormatter.SplitTwo | src/document_utils.py:117 | `a + ". " + b` splits into `[a, b]` when neither contains a break |
| BulletFormatter.FragmentsTwo | src/document_utils.py:117-118 | for non-empty break-free a and b, the fragment set of `a + ". " + b` is `{a, b}` |
| BulletFormatter.RenderTwoSentences | src/document_utils.py:117-119 | two distinct break-free sentences that pass the filter give exactly their two bullets, in any order |
| BulletFormatter.TwoSentenceExample | tests/test_document_utils.py:48-59 | `"Line one. Line two."` gives the bullets `"- Line one"` and `"- Line two."`, in either order |
| BulletFormatter.DuplicateAfterStrip | src/document_utils.py:118-119 | deduplication happens before stripping: `"abcd.  abcd"` gives the bullet `"- abcd"` twice |

## Left out

- `read_docx` (src/document_utils.py:16-25) and `src/main.py`: file reading, fixed paths and printing.
- The unified diff itself (`difflib.unified_diff`, line 38). It is a foreign library, so its output lines are the input of `DiffFilter.FilterChanges`.
- The `'\n'.join` / `splitlines()` round trip at lines 36-38: it only prepares the diff's input.
- The OpenAI calls: model name, prompts, `max_tokens`, response parsing and the error `print`s (lines 69-81 and 94-106). Each call is a gateway answer, `Some(content)` or `None`. `process_chunk` is that gateway for pass 1.
- Gateway state: a gateway is a fixed function of the call number and the chunk. A service whose answer depends on anything else is covered only in as much as the call number distinguishes the calls.
- Module setup (lines 5-14): warning filters, the API key and the unused import.
- Unicode whitespace: `strip()` and `split()` are modelled on ASCII whitespace only (tab, line feed, vertical tab, form feed, carriage return, 0x1C-0x1F and space).
- Python's set iteration order (lines 118-119) is an argument of `BulletFormatter.FormatSummaryAsPoints`. The bullets are stated as a multiset, not a sequence.
