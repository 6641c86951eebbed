# Sentence streaming for the voice assistant

This project models, in Dafny, the part of the voice assistant that turns
the language model's streamed reply into sentences for the avatar service:

- `SentenceStreamProcessor` (src/module/sentence_processor.py) keeps a text
  buffer. `process(chunk)` appends the chunk, scans the whole buffer, and
  emits a stripped sentence for every terminator character it meets
  (`.?!` by default). It then keeps only the text after the last
  terminator. `flush()` returns the stripped buffer and empties it.
- `FxAssistant.llm_node` (src/agent.py:38-62) passes every upstream chat
  chunk on unchanged. It feeds each non-empty `delta.content` to a fresh
  processor, schedules one `send_task` per sentence returned, and at the
  end flushes and schedules the rest when it is not empty.

Files:

- `text.dfy` (module `Text`): Python's `str.strip()` with no argument,
  over the exact set of characters for which `str.isspace()` holds.
- `sentence_processor.dfy` (module `SentenceProcessor`): the specification
  functions (`Sentences`, `Remainder`, `LastEnder`, `EnderCount`) and
  their lemmas, plus the class `SentenceStreamProcessor`. Its `buffer`
  field is updated in place by `Process` and `Flush`, and `Process` keeps
  the source's scanning loop.
- `agent.dfy` (module `Agent`): `LlmNode` as a sequential loop that
  records the chunks it yields (`output`) and the texts it schedules for
  sending (`scheduled`). It is proved against the specification function
  `Scheduled`.
- `scenarios.dfy` (module `Scenarios`): worked inputs. Each is proved,
  not run.

## How the code splits sentences

Line 17 of sentence_processor.py cuts each candidate sentence from the
start of the buffer (`self._buffer[:i+1]`), not from the previous
terminator. So a call whose accumulated text holds several terminators
returns a growing list of overlapping prefixes:

- `process("Hi. Bye.")` returns `["Hi.", "Hi. Bye."]` (`Scenarios.HiBye`).
- `process("Really?!")` returns `["Really?", "Really?!"]`
  (`Scenarios.Really`).

A description of the splitter that says "Really?!" gives the single
sentence "Really?" does not match this code. Neither does one that says
results are the same however the input is chunked. The model follows the
code. `SentencesArePrefixes` states the general rule when no terminator is
whitespace, as with the default `.?!`: each sentence of a call is a strict
prefix of every later one.

When each call completes at most one sentence, the split is the intuitive
one. The stream "Hel", "lo. Wo", "rld!" sends "Hello." and then "World!",
and leaves nothing to flush (`Scenarios.HelloWorld`,
`Scenarios.HelloWorldProcessor`).

With whitespace terminators, a terminator can close a prefix that is all
whitespace. The `if sentence:` test (line 18) then drops it. With the
default `.?!` this never happens: each terminator yields exactly one
sentence (`EnderEmits`, `SentenceCount`).

## Model

| member | source | states |
|---|---|---|
| Text.IsSpace | src/module/sentence_processor.py:17 | definition: the characters Python's `str.isspace()` accepts, which `strip()` removes; the proofs use it only through `DefaultEndersNotSpace` and `EnderNotSpace` |
| Text.Strip | src/module/sentence_processor.py:17 | definition of `str.strip()` with no argument, characterised by `StripEmpty`, `StripEnds` and `StripWindow` |
| Text.LeadingSpacesSpec | src/module/sentence_processor.py:17 | the whitespace `strip()` removes at the front is the longest all-whitespace prefix: every character in it is whitespace, and the next one is not |
| Text.TrailingSpacesSpec | src/module/sentence_processor.py:17 | the same for the whitespace removed at the back |
| Text.StripEmpty | src/module/sentence_processor.py:17-18 | a stripped text is empty exactly when the input is all whitespace, which is the case the `if sentence:` test discards |
| Text.StripEnds | src/module/sentence_processor.py:17 | a non-empty stripped text neither starts nor ends with whitespace |
| Text.StripWindow | src/module/sentence_processor.py:17 | a non-empty stripped text is the contiguous window of the input that starts after the leading whitespace; only whitespace follows it |
| Text.LeadingSpacesOfPrefix | src/module/sentence_processor.py:17 | a prefix that reaches a non-whitespace character has the same leading whitespace as the whole buffer |
| Text.StripKeepsEnd | src/module/sentence_processor.py:17 | a text that ends in a non-whitespace character strips to its suffix from the first non-whitespace character |
| Text.StripPrefixKeepsEnd | src/module/sentence_processor.py:17 | a buffer prefix `[:n]` that ends in a non-whitespace character strips to the buffer's window from its first non-whitespace character up to `n` |
| Text.StripUnchanged | src/module/sentence_processor.py:17 | a text with non-whitespace first and last characters is returned unchanged by `strip()` |
| Text.StripIdempotent | src/module/sentence_processor.py:29 | stripping twice is stripping once, so every emitted or flushed text is already stripped |
| SentenceProcessor.LastEnder | src/module/sentence_processor.py:14-20 | definition of `last_end_index` after the scan, characterised by `LastEnderBefore` and `LastEnderIsLast` |
| SentenceProcessor.Remainder | src/module/sentence_processor.py:22-23 | definition of the buffer kept after a call, characterised by `RemainderSpec` |
| SentenceProcessor.SentencesUpTo | src/module/sentence_processor.py:12-19 | definition of the list `process` has built after scanning the first `n` characters, characterised by `SentenceAt` and `SentencesLength` |
| SentenceProcessor.Sentences | src/module/sentence_processor.py:12-19 | definition of the list `process` returns, characterised by `SentenceShape`, `SentenceEndsComplete` and `SentenceAt` |
| SentenceProcessor.LastEnderBefore | src/module/sentence_processor.py:14-20 | the tracked `last_end_index` is -1 or the index of a terminator, below the scan position |
| SentenceProcessor.LastEnderIsLast | src/module/sentence_processor.py:15-20 | no terminator follows `last_end_index` in the scanned text |
| SentenceProcessor.EnderCount | src/module/sentence_processor.py:15-16 | the number of terminators is at most the length, and zero exactly when the text holds no terminator |
| SentenceProcessor.RemainderSpec | src/module/sentence_processor.py:11-23 | the kept buffer is a terminator-free suffix of `old_buffer + chunk`; the text before it ends with a terminator unless nothing was cut; the two parts put back together give the whole text, so nothing is lost or duplicated; with no terminator the whole text is kept |
| SentenceProcessor.SentenceEnds | src/module/sentence_processor.py:15-19 | the positions at which a sentence is appended are strictly increasing, and each holds a terminator whose prefix is not all whitespace |
| SentenceProcessor.SentenceEndsComplete | src/module/sentence_processor.py:15-19 | every terminator whose prefix is not all whitespace appends a sentence |
| SentenceProcessor.SentencesLength | src/module/sentence_processor.py:18-19 | one sentence is appended per emitting terminator |
| SentenceProcessor.SentenceAt | src/module/sentence_processor.py:17-19 | the k-th sentence is the stripped buffer prefix up to and including the k-th emitting terminator |
| SentenceProcessor.SentenceEndsCount | src/module/sentence_processor.py:15-19 | at most one sentence per terminator, and exactly one per terminator when no terminator is whitespace |
| SentenceProcessor.EnderNotSpace | src/module/sentence_processor.py:5 | a terminator drawn from a whitespace-free terminator set is not whitespace |
| SentenceProcessor.EnderEmits | src/module/sentence_processor.py:16-19 | with whitespace-free terminators, every terminator yields a non-empty sentence |
| SentenceProcessor.SentenceSpan | src/module/sentence_processor.py:17 | with whitespace-free terminators, a sentence runs from the first non-whitespace character of the buffer up to and including its terminator |
| SentenceProcessor.SentenceShape | src/module/sentence_processor.py:15-19 | every returned sentence is non-empty, has no leading or trailing whitespace, equals the stripped prefix ending at some terminator, and ends with a terminator when no terminator is whitespace |
| SentenceProcessor.SentenceOrder | src/module/sentence_processor.py:15-19 | sentences come in increasing order of their terminator positions |
| SentenceProcessor.SentencesArePrefixes | src/module/sentence_processor.py:17 | with whitespace-free terminators, each sentence of a call is a strict prefix of every later sentence of the same call |
| SentenceProcessor.LastEnderEmitsLast | src/module/sentence_processor.py:15-20 | when the last terminator emits, it is the last emitting position |
| SentenceProcessor.LastSentence | src/module/sentence_processor.py:17-23 | when a non-whitespace character stands at or before the last terminator, the last sentence is the stripped prefix that ends at the last terminator, the same cut the buffer is truncated at |
| SentenceProcessor.SentencesSkip | src/module/sentence_processor.py:15-16 | a stretch of the buffer without terminators adds no sentence |
| SentenceProcessor.SentencesNext | src/module/sentence_processor.py:16-19 | once a non-whitespace character has been seen, each terminator appends the stripped prefix ending at it |
| SentenceProcessor.RemainderAtEnd | src/module/sentence_processor.py:22-23 | text that ends with a terminator leaves the buffer empty |
| SentenceProcessor.EmptyChunk | src/module/sentence_processor.py:11-25 | given the buffer invariant, `process("")` returns no sentence and leaves the buffer unchanged |
| SentenceProcessor.DefaultEndersNotSpace | src/module/sentence_processor.py:5 | the default terminators `.?!` are not whitespace |
| SentenceProcessor.SentenceCount | src/module/sentence_processor.py:15-19 | no terminator means no sentence; there are never more sentences than terminators; with whitespace-free terminators there are exactly as many |
| SentenceProcessor.EnderCountAppend | src/module/sentence_processor.py:11 | the terminators of `buffer + chunk` are those of the buffer plus those of the chunk |
| SentenceProcessor.LastEnderOfPrefix | src/module/sentence_processor.py:11 | appending a chunk does not change where the last terminator of the old text is |
| SentenceProcessor.LastEnderAppend | src/module/sentence_processor.py:11-20 | the last terminator of `buffer + chunk` is in the chunk when the chunk has one, and is otherwise the buffer's |
| SentenceProcessor.RemainderInChunk | src/module/sentence_processor.py:11-23 | when the chunk holds a terminator, the kept buffer is the chunk's text after its last terminator |
| SentenceProcessor.LastEnderNoCut | src/module/sentence_processor.py:11-20 | a chunk without terminators leaves the last terminator where it was |
| SentenceProcessor.KeepTail | src/module/sentence_processor.py:22-23 | when the last terminator does not move, the kept text grows by exactly the appended chunk |
| SentenceProcessor.RemainderNoCut | src/module/sentence_processor.py:11-23 | a chunk without terminators is kept whole after what was kept before |
| SentenceProcessor.RemainderAppend | src/module/sentence_processor.py:11-23 | truncating the buffer after each call does not change what is kept later: the kept text after `remainder(x) + c` equals that after `x + c` |
| SentenceProcessor.SentenceStreamProcessor.constructor | src/module/sentence_processor.py:5-7 | a new processor has an empty buffer and the given terminators (default `.?!`) |
| SentenceProcessor.SentenceStreamProcessor.Process | src/module/sentence_processor.py:9-25 | returns the sentences of `old_buffer + chunk` and keeps its remainder; the buffer never holds a terminator afterwards; with no terminator it returns `[]` and keeps the whole text; given the invariant, `process("")` returns `[]` and leaves the buffer unchanged |
| SentenceProcessor.SentenceStreamProcessor.Flush | src/module/sentence_processor.py:27-31 | returns the stripped buffer, which is empty exactly when the buffer was all whitespace, and empties the buffer even then, so a second flush returns `""` |
| Agent.Fed | src/agent.py:53 | definition of the texts handed to `process`: the non-empty contents in stream order, characterised by `FedText` |
| Agent.Step | src/agent.py:54-57 | definition of one `process` call with every returned sentence sent after the earlier ones, in terms of `Sentences` and `Remainder`; `Relay` is proved to carry it out on the class |
| Agent.Feed | src/agent.py:50-57 | definition of the state after feeding texts in order to a fresh processor, characterised by `FeedBuffer`, `FeedCount` and `FeedSent` |
| Agent.Scheduled | src/agent.py:50-62 | definition of the texts one turn sends, characterised by `ScheduledNonEmpty` and `ScheduledCount` |
| Agent.FedNext | src/agent.py:53-54 | one more chunk adds its content to what reaches `process` exactly when that content is non-empty |
| Agent.FeedNext | src/agent.py:53-57 | feeding one more text is one more `process` call whose sentences are sent after the earlier ones |
| Agent.FedText | src/agent.py:53-54 | only non-empty contents reach `process`, and skipping the empty ones loses none of the streamed text |
| Agent.FeedBuffer | src/agent.py:53-54 | after any number of `process` calls the buffer is what a single scan of the concatenated texts would keep, and it holds no terminator |
| Agent.FeedCount | src/agent.py:53-57 | one sentence is sent per terminator in the texts fed |
| Agent.FeedSent | src/agent.py:54-57 | every sent sentence is non-empty, already stripped, and ends with one of `.?!` |
| Agent.ScheduledNonEmpty | src/agent.py:53-62 | no scheduled send text is empty, and each is already stripped |
| Agent.ScheduledCount | src/agent.py:50-62 | a turn schedules one text per terminator of the whole streamed text, plus one for the stripped text after the last terminator when that is not empty; the flushed text is exactly that stripped rest |
| Agent.Relay | src/agent.py:54-57 | hands a text to the processor and schedules the returned sentences in order after those already scheduled |
| Agent.LlmNode | src/agent.py:38-62 | yields every upstream chunk once, unchanged and in order; passes exactly the non-empty contents to a fresh processor, in order; schedules the sentences of every call in order, then the flushed rest when it is not empty |
| Scenarios.HiFirst | src/module/sentence_processor.py:15-19 | the scan of "Hi. Bye." has emitted "Hi." when it passes the first terminator |
| Scenarios.HiBye | src/module/sentence_processor.py:15-23 | `process("Hi. Bye.")` on an empty buffer returns `["Hi.", "Hi. Bye."]` and leaves the buffer empty |
| Scenarios.ReallyFirst | src/module/sentence_processor.py:15-19 | the scan of "Really?!" has emitted "Really?" when it passes the `?` |
| Scenarios.Really | src/module/sentence_processor.py:15-23 | `process("Really?!")` on an empty buffer returns `["Really?", "Really?!"]` and leaves the buffer empty |
| Scenarios.HelStep | src/module/sentence_processor.py:11-25 | `process("Hel")` on an empty buffer returns `[]` and buffers "Hel" |
| Scenarios.HelloCut | src/module/sentence_processor.py:22-23 | after "lo. Wo" the buffer is cut to " Wo" |
| Scenarios.HelloFirst | src/module/sentence_processor.py:15-19 | the scan of "Hello. Wo" emits "Hello." at its terminator |
| Scenarios.HelloSentences | src/module/sentence_processor.py:15-19 | "Hello. Wo" yields exactly `["Hello."]` |
| Scenarios.HelloStep | src/module/sentence_processor.py:11-25 | `process("lo. Wo")` after "Hel" returns `["Hello."]` and buffers " Wo" |
| Scenarios.WorldStep | src/module/sentence_processor.py:11-25 | `process("rld!")` after " Wo" returns `["World!"]` with the leading space stripped, and empties the buffer |
| Scenarios.HelloWorldFed | src/agent.py:53-54 | a chunk without content in the stream is skipped |
| Scenarios.HelFeed | src/agent.py:53-57 | the first chunk is only buffered |
| Scenarios.HelloFeed | src/agent.py:53-57 | the second chunk sends "Hello." |
| Scenarios.HelloWorldFeed | src/agent.py:53-57 | the third chunk sends "World!" and leaves nothing buffered |
| Scenarios.HelloWorld | src/agent.py:50-62 | the turn over "Hel", (no content), "lo. Wo", "rld!" schedules exactly "Hello." then "World!" |
| Scenarios.HelloWorldProcessor | src/module/sentence_processor.py:9-31 | a processor fed "Hel", "lo. Wo", "rld!" returns `[]`, `["Hello."]`, `["World!"]`; its flush returns `""`, and so does a second flush |

## Left out

- Concurrency of `asyncio.create_task` (src/agent.py:57, 62): a send is modelled as an append to `scheduled`. When sends run, the order they finish in, and whether they fail are not modelled.
- The send itself (`send_task` of the API client) is network I/O in code that is not part of this model. src/module/firstx_human.py and src/module/api_client.py are not part of this model.
- Agent.LlmNode: only a stream consumed to its end is modelled. The consumer may close or cancel the generator at `yield chunk` (src/agent.py:51), for example when a voice turn is interrupted. A chunk whose `delta` is `None` may make line 53 raise. In these two cases the source skips line 54 for the chunk just yielded and never reaches the flush (lines 59-62). The upstream may also raise while the next chunk is fetched (line 50); the previous chunk has then been processed in full, and only the flush is lost. In every case the buffered rest is not sent. `LlmNode` always processes every chunk and always flushes.
- The upstream stream `super().llm_node(chat_ctx, tool_ctx, model_settings)` (src/agent.py:47) comes from the voice framework. It is a parameter, a finite sequence of chunks. The chat context, tool context and model settings are not modelled.
- A chat chunk is reduced to its `delta.content`. Absent content (`None`) and empty content are both the empty string, since both are falsy and both are skipped.
- Logging (src/agent.py:56, 61) has no effect on the modelled state and is left out.
- Everything else in src/agent.py (`prewarm`, `entrypoint`, session set-up) is framework wiring and is left out.
- Agent.FeedSent, Agent.FeedCount and Agent.ScheduledCount are stated for the default terminators `.?!`, the only ones `llm_node` uses (src/agent.py:48). The processor-level lemmas hold for any terminator set, with the non-whitespace condition stated where it is needed.
- Whitespace follows Python's `str.isspace()` code point by code point. Strings are sequences of Unicode scalar values (Dafny's `char`), so a Python string holding a lone surrogate (U+D800 to U+DFFF) cannot be represented. No proof depends on this. No normalisation is involved, since `strip()` does none.
- The model does not claim that the output is the same however the input is chunked. The code does not have that property (see "How the code splits sentences").
