/** Two parses worked through end to end, with the tokenizer's answers
    written out as Expat gives them. */
module Scenarios {
  import opened RetsErrors
  import opened XmlEvents
  import opened ByteSource
  import opened Tokenizer
  import opened PullModel
  import opened TextRuns
  import opened PullTheorems

  /** "<r>A" then "B</r>": the text of r arrives in two pieces, one per
      chunk. */
  function SplitTokenizer(): Tokenizer
  {
    (fed: seq<Chunk>, chunk: Chunk, isLast: bool) =>
      if fed == [] then FeedResult([StartTag("r", [], 1, 0), Chars("A", 1, 3)], Ok)
      else FeedResult([Chars("B", 1, 4), EndTag("r", 1, 5)], Ok)
  }

  function SplitStart(): (s: Snapshot)
    ensures SourceValid(s)
  {
    Snapshot(false, [], [], [Read(ChunkOne, false), Read(ChunkTwo, true)], false)
  }

  const ChunkOne: Chunk := [60, 114, 62, 65]
  const ChunkTwo: Chunk := [66, 60, 47, 114, 62]

  /** The raw fetches hand out the two pieces of text separately. */
  lemma SplitRawEvents()
    ensures RawEvents(SplitTokenizer(), SplitStart())
            == ([Event.StartElement("r", [], 1, 0), Text("A", 1, 3), Text("B", 1, 4),
                 Event.EndElement("r", 1, 5), EndDocument], PastEndOfDocument)
  {
    var tok, s := SplitTokenizer(), SplitStart();
    RawEventsProduced(tok, s);
    var one := [StartTag("r", [], 1, 0), Chars("A", 1, 3)];
    var two := [Chars("B", 1, 4), EndTag("r", 1, 5)];
    assert Pairs([]) == [];
    assert EventsOf(one) == [Event.StartElement("r", [], 1, 0), Text("A", 1, 3)];
    assert EventsOf(two) == [Text("B", 1, 4), Event.EndElement("r", 1, 5)];
    var rest := Produced(tok, [ChunkOne], [Read(ChunkTwo, true)]);
    assert rest == (EventsOf(two) + [EndDocument], PastEndOfDocument);
    assert s.pending[1..] == [Read(ChunkTwo, true)];
    var all := Produced(tok, [], s.pending);
    assert all == (EventsOf(one) + rest.0, rest.1);
    assert Upcoming(tok, s) == all && s.events + all.0 == all.0;
    assert all.0 == [Event.StartElement("r", [], 1, 0), Text("A", 1, 3), Text("B", 1, 4),
                     Event.EndElement("r", 1, 5), EndDocument];
  }

  /** Text split across a chunk boundary is delivered as one Text event, at
      the position of its first piece, and the parse finishes. */
  lemma SplitTextDeliveredWhole()
    ensures Deliver(SplitTokenizer(), SplitStart())
            == ([Event.StartElement("r", [], 1, 0), Text("AB", 1, 3),
                 Event.EndElement("r", 1, 5), EndDocument], Finished)
  {
    SplitRawEvents();
    SplitMerged();
    DeliveredIsMerged(SplitTokenizer(), SplitStart());
  }

  lemma SplitMerged()
    ensures Merge([Event.StartElement("r", [], 1, 0), Text("A", 1, 3), Text("B", 1, 4),
                   Event.EndElement("r", 1, 5), EndDocument])
            == [Event.StartElement("r", [], 1, 0), Text("AB", 1, 3),
                Event.EndElement("r", 1, 5), EndDocument]
  {
    var raw := [Event.StartElement("r", [], 1, 0), Text("A", 1, 3), Text("B", 1, 4),
                Event.EndElement("r", 1, 5), EndDocument];
    assert raw[1..][1..] == raw[2..] && raw[2..][1..] == raw[3..];
    assert LeadingText(raw[3..]) == "" && TextRun(raw[3..]) == 0;
    assert LeadingText(raw[2..]) == "B";
    assert LeadingText(raw[1..]) == "A" + "B" == "AB";
    assert TextRun(raw[1..]) == 2;
    assert raw[1..][2..] == raw[3..] == [Event.EndElement("r", 1, 5), EndDocument];
    assert [EndDocument][1..] == [] && Merge([EndDocument]) == [EndDocument];
    assert raw[3..][1..] == [EndDocument];
    assert Merge(raw[3..]) == raw[3..];
    assert Merge(raw) == [raw[0]] + Merge(raw[1..]);
  }

  /** "<r>A" and then the connection drops: the final chunk fails with
      NO_ELEMENTS. */
  function TruncatedTokenizer(): Tokenizer
  {
    (fed: seq<Chunk>, chunk: Chunk, isLast: bool) =>
      FeedResult([StartTag("r", [], 1, 0), Chars("A", 1, 3)],
                 if isLast then Failed(NoElements, 1, 4, "no element found") else Ok)
  }

  function TruncatedStart(): (s: Snapshot)
    ensures SourceValid(s)
  {
    Snapshot(false, [], [], [Read([60, 114, 62, 65], true)], false)
  }

  /** A stream cut short is reported as a 408 timeout, not as a malformed
      document, and the parser is not finished. The events the handlers
      produced before the failure stay queued: later fetches deliver the
      start tag, then lose the trailing text to the end of the stream. */
  lemma TruncatedStreamTimesOut()
    ensures var first := Next(TruncatedTokenizer(), TruncatedStart());
            && first.result == Failure(HttpError(RequestTimeout))
            && !first.after.isDone
            && first.after.events == [Event.StartElement("r", [], 1, 0), Text("A", 1, 3)]
            && Deliver(TruncatedTokenizer(), first.after)
               == ([Event.StartElement("r", [], 1, 0)], Stopped(PastEndOfDocument))
  {
    var tok, s := TruncatedTokenizer(), TruncatedStart();
    var first := Next(tok, s);
    assert Fetch(tok, s).result == Failure(HttpError(RequestTimeout));
    var t := first.after;
    var raw := [Event.StartElement("r", [], 1, 0), Text("A", 1, 3)];
    var t1 := Fetch(tok, t).after;
    var t2 := Fetch(tok, t1).after;
    assert Fetch(tok, t) == Step(Success(raw[0]), t1);
    assert Fetch(tok, t1) == Step(Success(raw[1]), t2);
    assert Fetch(tok, t2).result == Failure(PastEndOfDocument);
    assert RawEvents(tok, t2) == ([], PastEndOfDocument);
    assert RawEvents(tok, t1).0 == raw[1..] && RawEvents(tok, t1).1 == PastEndOfDocument;
    assert RawEvents(tok, t).0 == raw && RawEvents(tok, t).1 == PastEndOfDocument;
    DeliveredIsMerged(tok, t);
    assert raw[1..] == [Text("A", 1, 3)] && TextRun(raw[1..]) == 1 && Merge(raw[1..]) == [];
    assert Merge(raw) == [raw[0]];
  }
}
