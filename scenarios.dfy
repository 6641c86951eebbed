/** Worked scenarios: concrete chunk streams and what the model says they
    produce. They pin down the overlapping-prefix behaviour of a call that
    meets several terminators, and the clean split obtained when every call
    meets at most one. */
module Scenarios {
  import opened Text
  import opened SentenceProcessor
  import opened Agent

  /** Up to its first terminator, "Hi. Bye." gives one sentence. */
  lemma HiFirst()
    ensures SentencesUpTo("Hi. Bye.", DefaultEnders, 3) == ["Hi."]
  {
    var acc := "Hi. Bye.";
    SentencesSkip(acc, DefaultEnders, 0, 2);
    SentencesNext(acc, DefaultEnders, 0, 2);
    assert acc[..3] == "Hi.";
    StripUnchanged(acc[..3]);
  }

  /** One call meeting two terminators emits both stripped prefixes of the
      buffer; the second repeats the first. */
  lemma HiBye()
    ensures Sentences("Hi. Bye.", DefaultEnders) == ["Hi.", "Hi. Bye."]
    ensures Remainder("Hi. Bye.", DefaultEnders) == []
  {
    var acc := "Hi. Bye.";
    HiFirst();
    assert SentencesUpTo(acc, DefaultEnders, 7) == ["Hi."] by {
      SentencesSkip(acc, DefaultEnders, 3, 7);
    }
    SentencesNext(acc, DefaultEnders, 0, 7);
    assert acc[..8] == acc;
    StripUnchanged(acc);
    RemainderAtEnd(acc, DefaultEnders);
  }

  /** Up to its first terminator, "Really?!" gives one sentence. */
  lemma ReallyFirst()
    ensures SentencesUpTo("Really?!", DefaultEnders, 7) == ["Really?"]
  {
    var acc := "Really?!";
    SentencesSkip(acc, DefaultEnders, 0, 6);
    SentencesNext(acc, DefaultEnders, 0, 6);
    assert acc[..7] == "Really?";
    StripUnchanged(acc[..7]);
  }

  /** Two adjacent terminators: the first sentence is repeated inside the
      second. */
  lemma Really()
    ensures Sentences("Really?!", DefaultEnders) == ["Really?", "Really?!"]
    ensures Remainder("Really?!", DefaultEnders) == []
  {
    var acc := "Really?!";
    ReallyFirst();
    SentencesNext(acc, DefaultEnders, 0, 7);
    assert acc[..8] == acc;
    StripUnchanged(acc);
    RemainderAtEnd(acc, DefaultEnders);
  }

  /** First call of the "Hel" / "lo. Wo" / "rld!" stream: no terminator, the
      text is only buffered. */
  lemma HelStep()
    ensures Remainder([] + "Hel", DefaultEnders) == "Hel" && Sentences([] + "Hel", DefaultEnders) == []
  {
    var acc := [] + "Hel";
    assert acc == "Hel";
    assert NoEnder(acc, DefaultEnders);
    RemainderSpec(acc, DefaultEnders);
    SentenceCount(acc, DefaultEnders);
  }

  /** The second call cuts the buffer after its one terminator. */
  lemma HelloCut()
    ensures Remainder("Hello. Wo", DefaultEnders) == " Wo"
  {
    var acc := "Hello. Wo";
    assert LastEnderBefore(acc, DefaultEnders, 6) == 5;
    assert LastEnderBefore(acc, DefaultEnders, 8) == 5;
  }

  /** The second call emits the one sentence it completes. */
  lemma HelloSentences()
    ensures Sentences("Hello. Wo", DefaultEnders) == ["Hello."]
  {
    HelloFirst();
    SentencesSkip("Hello. Wo", DefaultEnders, 6, 9);
  }

  /** Up to its terminator, "Hello. Wo" gives one sentence. */
  lemma HelloFirst()
    ensures SentencesUpTo("Hello. Wo", DefaultEnders, 6) == ["Hello."]
  {
    var acc := "Hello. Wo";
    SentencesSkip(acc, DefaultEnders, 0, 5);
    SentencesNext(acc, DefaultEnders, 0, 5);
    assert acc[..6] == "Hello.";
    StripUnchanged(acc[..6]);
  }

  /** Second call: one terminator, one sentence, the text after it kept. */
  lemma HelloStep()
    ensures Remainder("Hel" + "lo. Wo", DefaultEnders) == " Wo"
    ensures Sentences("Hel" + "lo. Wo", DefaultEnders) == ["Hello."]
  {
    assert "Hel" + "lo. Wo" == "Hello. Wo";
    HelloCut();
    HelloSentences();
  }

  /** Third call: the buffered " Wo" joins "rld!"; the leading space is
      stripped from the sentence and nothing is kept. */
  lemma WorldStep()
    ensures Remainder(" Wo" + "rld!", DefaultEnders) == []
    ensures Sentences(" Wo" + "rld!", DefaultEnders) == ["World!"]
  {
    var acc := " Wo" + "rld!";
    assert acc == " World!";
    SentencesSkip(acc, DefaultEnders, 0, 6);
    SentencesNext(acc, DefaultEnders, 1, 6);
    assert acc[..7] == acc;
    StripKeepsEnd(acc);
    assert LeadingSpaces(acc) == 1;
    assert acc[1..] == "World!";
    RemainderAtEnd(acc, DefaultEnders);
  }

  /** A chunk without content between the others is skipped. */
  lemma HelloWorldFed()
    ensures Fed([ChatChunk("Hel"), ChatChunk(""), ChatChunk("lo. Wo"), ChatChunk("rld!")]) == ["Hel", "lo. Wo", "rld!"]
  {
    var chunks := [ChatChunk("Hel"), ChatChunk(""), ChatChunk("lo. Wo"), ChatChunk("rld!")];
    assert chunks[..0] == [];
    FedNext(chunks, 0);
    FedNext(chunks, 1);
    FedNext(chunks, 2);
    FedNext(chunks, 3);
    assert chunks[..4] == chunks;
  }

  /** When each call meets at most one terminator the turn sends the
      sentences one by one, each once, and nothing is left to flush. */
  lemma HelloWorld()
    ensures Scheduled([ChatChunk("Hel"), ChatChunk(""), ChatChunk("lo. Wo"), ChatChunk("rld!")]) == ["Hello.", "World!"]
  {
    HelloWorldFed();
    HelloWorldFeed();
    assert Strip([]) == [];
  }

  /** Feeding the three texts in turn sends both sentences and leaves the
      buffer empty. */
  lemma HelloWorldFeed()
    ensures Feed(["Hel", "lo. Wo", "rld!"]) == Turn([], ["Hello.", "World!"])
  {
    HelloFeed();
    WorldStep();
    assert Step(Turn(" Wo", ["Hello."]), "rld!") == Turn([], ["Hello.", "World!"]);
    FeedNext(["Hel", "lo. Wo"], "rld!");
    assert ["Hel", "lo. Wo"] + ["rld!"] == ["Hel", "lo. Wo", "rld!"];
  }

  /** Feeding the first two texts sends the first sentence. */
  lemma HelloFeed()
    ensures Feed(["Hel", "lo. Wo"]) == Turn(" Wo", ["Hello."])
  {
    HelFeed();
    HelloStep();
    assert Step(Turn("Hel", []), "lo. Wo") == Turn(" Wo", ["Hello."]);
    FeedNext(["Hel"], "lo. Wo");
    assert ["Hel"] + ["lo. Wo"] == ["Hel", "lo. Wo"];
  }

  /** Feeding the first text only buffers it. */
  lemma HelFeed()
    ensures Feed(["Hel"]) == Turn("Hel", [])
  {
    HelStep();
    assert Step(Turn([], []), "Hel") == Turn("Hel", []);
    FeedNext([], "Hel");
    assert [] + ["Hel"] == ["Hel"];
  }

  /** A processor driven through the same stream, then flushed twice: the
      first flush finds nothing left and the second returns the empty
      string too. */
  method HelloWorldProcessor() returns (first: seq<string>, second: seq<string>, third: seq<string>, rest: string, again: string)
    ensures first == [] && second == ["Hello."] && third == ["World!"]
    ensures rest == [] && again == []
  {
    var processor := new SentenceStreamProcessor();
    HelStep();
    first := processor.Process("Hel");
    assert processor.buffer == "Hel" && first == [];
    HelloStep();
    second := processor.Process("lo. Wo");
    assert processor.buffer == " Wo" && second == ["Hello."];
    WorldStep();
    third := processor.Process("rld!");
    assert processor.buffer == [] && third == ["World!"];
    rest := processor.Flush();
    again := processor.Flush();
  }
}
