# Deep-research agent script: citation summary and progress log

`query.py` drives a hosted deep-research agent. It posts a question to a
thread, then polls the run while it is queued or in progress. On every poll
it appends the agent's latest intermediate reasoning to a progress file.
Once the run has finished, it writes a summary file: the answer text, then
a numbered list of the cited sources with duplicates removed.

This project models the logic inside that workflow and proves what it
guarantees:

- `Summary` models `DeepResearcher.create_summary`. The answer body is each
  text segment stripped of surrounding whitespace, joined by one blank line.
  The citation registry loop keeps a set of seen URLs, a table from citation
  key to a 1-based ordinal, and a list of rendered `[title](url)` entries.
  The numbered list is written from that list. `RegisterCitations` and
  `WriteNumberedList` are methods whose loops are proved against the
  declarative definitions `Admitted`, `Ordinals`, `Rendered` and
  `NumberedList`. The lemmas state what those definitions guarantee.
- `Progress` models `DeepResearcher.fetch_response`, the filter, the
  watermark and the progress block. The progress file is the string of
  blocks appended to it. `Progress` also models the polling loop of
  `send_message` as a method over a finite sequence of polls, and models
  what happens once polling stops.
- `Text` models the Python string built-ins these use:
  - `str.strip`, with Python's whitespace set;
  - `str.join` and `str.startswith`;
  - `str.replace`, which rewrites every occurrence;
  - the decimal rendering of an `int`.
- `Messages` holds the data the service returns: messages with text segments
  and URL-citation annotations.

## Model

| member | source | states |
|---|---|---|
| Summary.CreateSummary | query.py:104-136 | The summary text is the body, then the citations header and the numbered list of admitted entries only when the message has annotations |
| Summary.RegisterCitations | query.py:111-132 | After the loop, the seen set is every annotation's URL, the ordinal table is that of the admitted annotations, and the entry list renders exactly the admitted annotations in order |
| Summary.CitationKeyFacts | query.py:123 | A non-empty span is the key; an empty span gives `fallback_` followed by the URL; two empty-span annotations share a key iff they share a URL |
| Summary.DisplayTitle | query.py:119 | `title or url`: a missing title and an empty title are each shown as the URL; a non-empty title is shown as is |
| Summary.Render | query.py:118-130 | The entry is `[title](url)`, or `[url](url)` when the title is missing or empty |
| Summary.Admitted | query.py:117-130 | Defines which annotations get an entry: the last one does exactly when its URL is new among all earlier annotations and its key is new among the earlier entries; there are never more entries than annotations |
| Summary.AdmittedIsSubsequence | query.py:117-130 | The entries are a subsequence of the annotations, in the same order, so there are never more entries than annotations |
| Summary.SeenUrlAddsNothing | query.py:121 | An annotation whose URL has already occurred adds no entry |
| Summary.RegisteredKeyAddsNothing | query.py:126-132 | An annotation with a new URL but an already registered key adds no entry; its URL still joins the URLs so far, which `RegisterCitations` proves is its seen set |
| Summary.AdmittedUrlsDistinct | query.py:121-132 | The URLs of the entries are pairwise distinct |
| Summary.AdmittedKeysDistinct | query.py:123-129 | The citation keys of the entries are pairwise distinct |
| Summary.OrdinalsPointAtEntries | query.py:128-129 | Every key in the ordinal table maps into 1..n, to the position of an entry carrying that key |
| Summary.OrdinalsFollowOrder | query.py:128-129 | With distinct keys, the j-th entry's key maps to j + 1 |
| Summary.OrdinalsContiguous | query.py:126-130 | The ordinal table of the registered citations numbers the entries 1..n contiguously, in registration order |
| Summary.ExampleAdmitted | query.py:117-132 | On a worked example, a repeated URL under a new key and a new URL under a registered key add no entry, while all three URLs become seen |
| Summary.ExampleEntries | query.py:119-130 | On the worked example, the entries are `[T](u1)` and `[u3](u3)`; the empty title is replaced by the URL |
| Summary.WriteNumberedList | query.py:135-136 | The loop writes the numbered list: one line `<i>. <entry>` per entry, i counting from 1 |
| Summary.NumberedListAppend | query.py:135-136 | Appending an entry appends exactly its line, numbered one past the list |
| Summary.NumberedListAt | query.py:135-136 | The j-th entry appears on its own line numbered j + 1, after the lines of the entries before it |
| Summary.LinesFromConcat | query.py:135-136 | Numbering a concatenation continues where the first part stopped |
| Summary.SummaryBodyAppend | query.py:106 | Each further segment is joined to the body by exactly one blank line, stripped |
| Summary.CitationsSectionIff | query.py:109-110 | The citations header appears iff the message has annotations |
| Text.Strip | query.py:106 | The stripped text neither starts nor ends with whitespace |
| Text.StripIsTrimmedSlice | query.py:106 | The stripped text is a slice of the input with only whitespace before and after it |
| Text.TrimStart | query.py:106 | Leading whitespace is dropped: the rest is a suffix not starting with whitespace |
| Text.TrimEnd | query.py:106 | Trailing whitespace is dropped: the rest is a prefix not ending with whitespace |
| Text.JoinAppend | query.py:106 | Joining one more part puts exactly one separator before it |
| Text.NatToString | query.py:136 | The ordinal is rendered as a non-empty run of decimal digits with no leading zero |
| Text.DecimalRoundTrip | query.py:136 | Reading the rendered ordinal back gives the number, so distinct ordinals render differently |
| Text.ReplaceAll | query.py:93 | A text shorter than the pattern is unchanged, a text starting with the pattern starts with the replacement, and a replacement no longer (no shorter) than the pattern never lengthens (never shortens) the text |
| Text.ReplaceAllLeftmost | query.py:93 | `str.replace` scans from the left: the leftmost occurrence is rewritten, the text before it is kept, and the scan resumes after it, so matches never overlap; with `ReplaceAllWithoutPattern` this fixes the result on every input |
| Text.ReplaceAllKeepsPrefix | query.py:93 | Positions before the first occurrence of the pattern are copied unchanged, one character at a time |
| Text.ReplaceAllWithoutPattern | query.py:93 | A segment without the sentinel is left unchanged by the replacement |
| Text.JoinWithoutPattern | query.py:93 | Joining with a newline creates no sentinel across segments |
| Progress.FetchResponse | query.py:82-102 | Nothing is written and the watermark is kept iff there is no message, the id equals the watermark, or no segment starts with `cot_summary:`; otherwise exactly one block is written and the watermark becomes the message id |
| Progress.ShowTitle | query.py:100 | The f-string prints a missing title as `None` and a present one as is |
| Progress.CitationLine | query.py:99-100 | `Citation: [title](url)` on one line: the prefix `Citation: [`, the shown title, `](`, the URL, then `)` and a newline |
| Progress.CitationLinesAppend | query.py:99-100 | One citation line per annotation, in annotation order |
| Progress.BlockLayout | query.py:93-100 | A block is the `AGENT>` header, the reasoning text (with no `cot_summary:` left in it), a newline, then the citation lines |
| Progress.FetchIsIdempotent | query.py:89-102 | Calling again with the returned watermark on the same message writes nothing and keeps the watermark |
| Progress.RelabelRemovesMarker | query.py:93 | Once every `cot_summary:` is replaced by `Reasoning:`, no `cot_summary:` is left in the segment |
| Progress.AgentTextHasNoMarker | query.py:93 | The reasoning text of a progress block contains no `cot_summary:` |
| Progress.RelabelOfSegment | query.py:93 | A segment starting with the sentinel starts with `Reasoning:` after the rewrite; one without it is unchanged |
| Progress.RepeatedObservationAddsNothing | query.py:56-60 | Seeing the same last message on two consecutive polls writes at most one block for it |
| Progress.SameIdWrittenOnce | query.py:89 | On the next poll, a message with the id just written adds no block |
| Progress.NewUpdateWritten | query.py:89-102 | A reasoning update whose id differs from the watermark is written once and becomes the watermark |
| Progress.ReturningIdWrittenAgain | query.py:89-102 | Only the last id is remembered: an update whose id comes back after a different update is written again, so the trace A, B, A writes three blocks |
| Progress.Track | query.py:56-60 | Threads the watermark through `fetch_response` over the polls from `None`; at most one block per poll, and once a block is written the watermark is set |
| Progress.WatermarkWasObserved | query.py:56-60 | The watermark is None or the id of a message seen on some poll |
| Progress.BlocksComeFromUpdates | query.py:56-60 | At most one block per poll; every block is the block of an observed reasoning update |
| Progress.PollRun | query.py:56-60 | The loop polls while the status is queued or in progress and stops at the first other status; the watermark and the progress text are those of the polls made |
| Progress.AfterRun | query.py:63-79 | A failed run stops the workflow and leaves the agent; a missing final message writes no summary; otherwise the summary is written; the agent is deleted exactly when the run neither failed nor is still active |
| Progress.SendMessage | query.py:55-80 | The progress text and the outcome are those of some number of polls during which the run was active, ending at a non-active status or at the last poll given |

## Left out

- Azure SDK calls are not modelled: creating the client, the connection, the tool, the agent, the thread and the messages, getting runs and messages, and deleting the agent. The messages and run statuses they return are parameters instead. Deleting the agent is modelled only as the `DeletesAgent` predicate on the outcome.
- Credentials and environment variables are configuration, not logic.
- `time.sleep` and polling without end are not modelled. The polls are a given finite sequence. If they run out while the run is still active, the model stops with the `StillRunning` outcome, where the script would go on polling.
- Opening and writing files, reading the prompt and input files, and `argparse` are not modelled. Each file is the string that would be written to it. Appends to the progress file are concatenation.
- `_vprint` and the console messages for a failed run and a missing final message are not modelled, because they are console output only.
- Annotation span text is a string, and the service's missing text is modelled as the empty string. Both take the fallback key, because `ann.text if ann.text else ...` treats them alike.
- Strings are sequences of code points. No Unicode normalisation takes place, and none takes place in the script either.
- Progress.AfterRun: the final message is a parameter fetched once polling has stopped, so the model does not capture a race between the last poll and that fetch.
- The script does not promise one progress block per distinct message id. It remembers only the last id, so an id that returns after a different update is written again (`Progress.ReturningIdWrittenAgain`).

## Behaviour worth noting

- The comment at query.py:114 calls `text_citation_list` a list of citation URLs. It actually holds rendered `[title](url)` strings, and the model follows the code (`Summary.Rendered`).
- The comments at query.py:122 and query.py:125 present the citation key as the deduplication criterion. The code checks the URL first: an annotation whose URL was already seen never gets an entry, even under a new key (`Summary.ExampleAdmitted`).
- `str.replace` rewrites every `cot_summary:` in a segment, including any after the start, not only a leading one.
- A URL is marked seen only inside the not-yet-seen branch, which has the same effect as marking it on every annotation.
- The progress block prints `None` for a missing title, while the summary falls back to the URL.
