/** The assistant's LLM hook: it passes the model's chunk stream through
    unchanged while cutting the streamed text into sentences and scheduling
    one send per sentence, plus one for what is left at the end. */
module Agent {
  import opened Text
  import opened SentenceProcessor

  /** One streamed chat chunk; only its text delta matters here. A chunk
      whose delta carries no content is modelled with the empty string:
      both are falsy and both are skipped. */
  datatype ChatChunk = ChatChunk(content: string)

  /** The texts of `chunks` that reach the processor: the non-empty
      contents, in stream order. */
  function Fed(chunks: seq<ChatChunk>): (texts: seq<string>)
  {
    if chunks == [] then []
    else
      var last := chunks[|chunks| - 1].content;
      Fed(chunks[..|chunks| - 1]) + (if last != [] then [last] else [])
  }

  /** The whole streamed text: every content, in stream order. */
  function StreamText(chunks: seq<ChatChunk>): (text: string)
  {
    if chunks == [] then [] else StreamText(chunks[..|chunks| - 1]) + chunks[|chunks| - 1].content
  }

  /** Concatenation of `texts`. */
  function Join(texts: seq<string>): (text: string)
  {
    if texts == [] then [] else Join(texts[..|texts| - 1]) + texts[|texts| - 1]
  }

  /** A processor's buffer together with the sentences sent so far. */
  datatype Turn = Turn(buffer: string, sent: seq<string>)

  /** One `process` call on `text` by a processor with the default
      terminators in state `t`, with every sentence it returns sent. */
  function Step(t: Turn, text: string): (after: Turn)
  {
    var acc := t.buffer + text;
    Turn(Remainder(acc, DefaultEnders), t.sent + Sentences(acc, DefaultEnders))
  }

  /** The state reached by feeding `texts`, one `process` call each, to a
      fresh processor with the default terminators. */
  function Feed(texts: seq<string>): (t: Turn)
  {
    if texts == [] then Turn([], []) else Step(Feed(texts[..|texts| - 1]), texts[|texts| - 1])
  }

  /** The texts sent during one turn over `chunks`: the sentences of every
      `process` call in order, then the flushed rest when it is not empty. */
  function Scheduled(chunks: seq<ChatChunk>): (sends: seq<string>)
  {
    var end := Feed(Fed(chunks));
    var rest := Strip(end.buffer);
    end.sent + (if rest != [] then [rest] else [])
  }

  /** Taking one more chunk feeds its content when it is not empty. */
  lemma FedNext(chunks: seq<ChatChunk>, i: nat)
    requires i < |chunks|
    ensures Fed(chunks[..i + 1]) ==
      Fed(chunks[..i]) + (if chunks[i].content != [] then [chunks[i].content] else [])
  {
    assert chunks[..i + 1][..i] == chunks[..i];
  }

  /** Feeding one more text is one more `process` call. */
  lemma FeedNext(texts: seq<string>, t: string)
    ensures Feed(texts + [t]) == Step(Feed(texts), t)
  {
    assert (texts + [t])[..|texts|] == texts;
  }

  /** Only non-empty texts are fed, and skipping the empty ones loses no
      text of the stream. */
  lemma {:induction false} FedText(chunks: seq<ChatChunk>)
    ensures forall k :: 0 <= k < |Fed(chunks)| ==> Fed(chunks)[k] != []
    ensures Join(Fed(chunks)) == StreamText(chunks)
  {
    if chunks != [] {
      var init := chunks[..|chunks| - 1];
      var last := chunks[|chunks| - 1].content;
      FedText(init);
      if last != [] {
        assert Fed(chunks)[..|Fed(chunks)| - 1] == Fed(init);
      } else {
        assert Fed(chunks) == Fed(init);
        assert StreamText(chunks) == StreamText(init) + [];
      }
    }
  }

  /** Feeding the texts one by one leaves in the buffer what a single scan of
      their concatenation would: no text is lost between calls, and the
      buffer holds no terminator. */
  lemma {:induction false} FeedBuffer(texts: seq<string>)
    ensures Feed(texts).buffer == Remainder(Join(texts), DefaultEnders)
    ensures NoEnder(Feed(texts).buffer, DefaultEnders)
  {
    if texts != [] {
      var init := texts[..|texts| - 1];
      var last := texts[|texts| - 1];
      FeedBuffer(init);
      RemainderAppend(Join(init), last, DefaultEnders);
    }
    RemainderSpec(Join(texts), DefaultEnders);
  }

  /** One sentence is sent per terminator of the texts fed. */
  lemma {:induction false} FeedCount(texts: seq<string>)
    ensures |Feed(texts).sent| == EnderCount(Join(texts), DefaultEnders)
  {
    if texts != [] {
      var init := texts[..|texts| - 1];
      var last := texts[|texts| - 1];
      var before := Feed(init);
      FeedCount(init);
      FeedBuffer(init);
      DefaultEndersNotSpace();
      SentenceCount(before.buffer + last, DefaultEnders);
      EnderCountAppend(before.buffer, last, DefaultEnders);
      EnderCountAppend(Join(init), last, DefaultEnders);
    }
  }

  /** Every sentence sent is non-empty, already stripped, and ends with one
      of the default terminators. */
  lemma {:induction false} FeedSent(texts: seq<string>)
    ensures forall k :: 0 <= k < |Feed(texts).sent| ==>
      var s := Feed(texts).sent[k];
      s != [] && Strip(s) == s && s[|s| - 1] in DefaultEnders
  {
    if texts != [] {
      var init := texts[..|texts| - 1];
      var before := Feed(init);
      var acc := before.buffer + texts[|texts| - 1];
      var batch := Sentences(acc, DefaultEnders);
      FeedSent(init);
      DefaultEndersNotSpace();
      forall k | 0 <= k < |Feed(texts).sent|
        ensures var s := Feed(texts).sent[k];
          s != [] && Strip(s) == s && s[|s| - 1] in DefaultEnders
      {
        if k >= |before.sent| {
          var m := k - |before.sent|;
          assert Feed(texts).sent[k] == batch[m];
          SentenceShape(acc, DefaultEnders, m);
          var i :| 0 <= i < |acc| && acc[i] in DefaultEnders && batch[m] == Strip(acc[..i + 1]);
          StripIdempotent(acc[..i + 1]);
        } else {
          assert Feed(texts).sent[k] == before.sent[k];
        }
      }
    }
  }

  /** No scheduled send text is empty, and each is already stripped. */
  lemma ScheduledNonEmpty(chunks: seq<ChatChunk>)
    ensures forall k :: 0 <= k < |Scheduled(chunks)| ==>
      Scheduled(chunks)[k] != [] && Strip(Scheduled(chunks)[k]) == Scheduled(chunks)[k]
  {
    var end := Feed(Fed(chunks));
    FeedSent(Fed(chunks));
    StripIdempotent(end.buffer);
  }

  /** A turn sends one text per terminator in the whole streamed text, plus
      one for the rest after the last terminator unless that rest is all
      whitespace; the rest flushed is exactly that text after the last
      terminator, stripped. */
  lemma ScheduledCount(chunks: seq<ChatChunk>)
    ensures var text := StreamText(chunks);
      var rest := Strip(Remainder(text, DefaultEnders));
      Strip(Feed(Fed(chunks)).buffer) == rest &&
      |Scheduled(chunks)| == EnderCount(text, DefaultEnders) + (if rest != [] then 1 else 0)
  {
    FedText(chunks);
    FeedBuffer(Fed(chunks));
    FeedCount(Fed(chunks));
  }

  /** Hands `text` to `processor` and schedules, in order, every sentence it
      returns after the texts already `scheduled`. */
  method Relay(processor: SentenceStreamProcessor, text: string, scheduled: seq<string>)
    returns (after: seq<string>)
    requires processor.enders == DefaultEnders
    modifies processor
    ensures Turn(processor.buffer, after) == Step(Turn(old(processor.buffer), scheduled), text)
  {
    var sentences := processor.Process(text);
    after := scheduled;
    for j := 0 to |sentences|
      invariant after == scheduled + sentences[..j]
    {
      assert sentences[..j + 1] == sentences[..j] + [sentences[j]];
      after := after + [sentences[j]];
    }
    assert sentences[..|sentences|] == sentences;
  }

  /** One run of the LLM hook over the upstream chunk stream: every chunk is
      passed on, a fresh processor receives each non-empty content, each
      sentence it returns is scheduled for sending, and the flushed rest is
      scheduled last when it is not empty. `processed` records the texts
      handed to `process`, in order. */
  method LlmNode(upstream: seq<ChatChunk>)
    returns (output: seq<ChatChunk>, scheduled: seq<string>, ghost processed: seq<string>)
    ensures output == upstream
    ensures processed == Fed(upstream)
    ensures scheduled == Scheduled(upstream)
  {
    var processor := new SentenceStreamProcessor();
    output := [];
    scheduled := [];
    processed := [];
    for i := 0 to |upstream|
      invariant output == upstream[..i]
      invariant processed == Fed(upstream[..i])
      invariant processor.enders == DefaultEnders
      invariant Turn(processor.buffer, scheduled) == Feed(processed)
    {
      var chunk := upstream[i];
      FedNext(upstream, i);
      output := output + [chunk];
      if chunk.content != [] {
        FeedNext(processed, chunk.content);
        processed := processed + [chunk.content];
        scheduled := Relay(processor, chunk.content, scheduled);
      }
      assert upstream[..i + 1] == upstream[..i] + [chunk];
    }
    assert upstream[..|upstream|] == upstream;
    var remaining := processor.Flush();
    if remaining != [] {
      scheduled := scheduled + [remaining];
    }
  }
}
