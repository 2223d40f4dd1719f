/** The pull parser over Expat: a class holding mIsDone and the mEvents
    deque, whose methods are proved to behave as the functions of PullModel
    say. The Expat instance is the `tokenize` oracle together with `fed`,
    the input it has consumed. */
module ExpatParser {
  import opened RetsErrors
  import opened XmlEvents
  import opened ByteSource
  import opened Tokenizer
  import opened PullModel
  import opened TextRuns
  import opened PullTheorems

  class ExpatXmlParser {
    const source: Stream
    const tokenize: Tokenizer
    var fed: seq<Chunk>
    var isDone: bool
    var events: seq<Event>

    /** The stream will report end-of-file, and EndDocument is queued only
        last and only after end-of-file. */
    ghost predicate Valid()
      reads this, source
    {
      source.Valid() && EndDocumentLast(State())
    }

    ghost function State(): (s: Snapshot)
      reads this, source
    {
      Snapshot(isDone, events, fed, source.pending, source.eof)
    }

    /** init: a fresh Expat instance bound to the stream, not finished,
        nothing queued. */
    constructor (source: Stream, tokenize: Tokenizer)
      requires source.Valid()
      ensures Valid()
      ensures this.source == source && this.tokenize == tokenize
      ensures !isDone && events == [] && fed == []
    {
      this.source := source;
      this.tokenize := tokenize;
      fed := [];
      isDone := false;
      events := [];
    }

    /** True until EndDocument has been delivered. */
    method HasNext() returns (b: bool)
      ensures b == !isDone
    {
      b := !isDone;
    }

    method GetNextEvent() returns (r: Result<Event>)
      requires Valid()
      modifies this, source
      ensures Valid()
      ensures Step(r, State()) == Next(tokenize, old(State()))
      ensures old(isDone) ==> r == Failure(ParserFinished) && State() == old(State())
      ensures !old(isDone) ==> (isDone <==> r == Success(EndDocument))
    {
      r := GetNextEventWithoutCoalescing();
      if r.Success? && r.value.Text? {
        r := CoalesceTextEvents(r.value);
      }
      if r == Success(EndDocument) {
        isDone := true;
      }
    }

    /** Appends every text that follows to `text`, and puts the first other
        event back at the front of the queue. */
    method CoalesceTextEvents(text: Event) returns (r: Result<Event>)
      requires Valid() && text.Text?
      modifies this, source
      ensures Valid()
      ensures Step(r, State()) == Coalesce(tokenize, text, old(State()))
    {
      var merged := text;
      while true
        invariant Valid() && merged.Text?
        invariant Coalesce(tokenize, merged, State()) == Coalesce(tokenize, text, old(State()))
        decreases |source.pending|, |events|
      {
        var next := GetNextEventWithoutCoalescing();
        if next.Failure? {
          return Failure(next.error);
        }
        if !next.value.Text? {
          events := [next.value] + events;
          return Success(merged);
        }
        merged := merged.(content := merged.content + next.value.content);
      }
    }

    method GetNextEventWithoutCoalescing() returns (r: Result<Event>)
      requires Valid()
      modifies this, source
      ensures Valid()
      ensures Step(r, State()) == Fetch(tokenize, old(State()))
      ensures isDone == old(isDone)
      ensures old(isDone) ==> r == Failure(ParserFinished) && State() == old(State())
      ensures !old(isDone) && old(events) != [] ==>
                r == Success(old(events)[0])
                && State() == old(State()).(events := old(events)[1..])
      ensures !old(isDone) && old(events) == [] && old(source.eof) ==>
                r == Failure(PastEndOfDocument) && State() == old(State())
    {
      if isDone {
        return Failure(ParserFinished);
      }
      while events == []
        invariant Valid() && !isDone
        invariant Fetch(tokenize, State()) == Fetch(tokenize, old(State()))
        decreases |source.pending|
      {
        ghost var before := State();
        var atEof := source.Eof();
        if atEof {
          return Failure(PastEndOfDocument);
        }
        var chunk := source.Read();
        var isLast := source.Eof();
        var status := Parse(chunk, isLast);
        if status.Failed? {
          return Failure(Classify(status.code, status.line, status.column,
                                  status.description, isLast));
        }
        if isLast {
          events := events + [EndDocument];
        }
        assert State() == AfterChunk(tokenize, before);
        FetchAfterChunk(tokenize, before);
      }
      r := Success(events[0]);
      events := events[1..];
    }

    /** XML_Parse: the Expat instance consumes the chunk and calls the
        handlers back, in document order, before returning its status. */
    method Parse(chunk: Chunk, isLast: bool) returns (status: FeedStatus)
      modifies this
      ensures status == tokenize(old(fed), chunk, isLast).status
      ensures events == old(events) + EventsOf(tokenize(old(fed), chunk, isLast).callbacks)
      ensures fed == old(fed) + [chunk] && isDone == old(isDone)
    {
      var answer := tokenize(fed, chunk, isLast);
      var i := 0;
      while i < |answer.callbacks|
        invariant 0 <= i <= |answer.callbacks|
        invariant events == old(events) + EventsOf(answer.callbacks[..i])
        invariant fed == old(fed) && isDone == old(isDone)
      {
        var cb := answer.callbacks[i];
        Dispatch(cb);
        assert answer.callbacks[..i + 1] == answer.callbacks[..i] + [cb];
        EventsOfAppend(answer.callbacks[..i], cb);
        i := i + 1;
      }
      assert answer.callbacks[..i] == answer.callbacks;
      fed := fed + [chunk];
      status := answer.status;
    }

    /** Expat calling back the handler registered for one callback. */
    method Dispatch(cb: Callback)
      modifies this
      ensures events == old(events) + [EventOf(cb)]
      ensures fed == old(fed) && isDone == old(isDone)
    {
      match cb {
        case StartTag(name, atts, line, column) => StartElement(name, atts, line, column);
        case EndTag(name, line, column) => EndElement(name, line, column);
        case Chars(text, line, column) => CharacterData(text, line, column);
      }
    }

    /** The start-element handler: one StartElement event, stamped with the
        tokenizer's position, its attributes paired in the order given. */
    method StartElement(name: string, atts: AttributeList, line: nat, column: nat)
      modifies this
      ensures events == old(events) + [Event.StartElement(name, Pairs(atts), line, column)]
      ensures fed == old(fed) && isDone == old(isDone)
    {
      var attributes: seq<Attribute> := [];
      var i := 0;
      while i < |atts|
        invariant 0 <= i <= |atts| && i % 2 == 0
        invariant |attributes| == i / 2
        invariant forall j :: 0 <= j < |attributes| ==>
                    attributes[j] == Attribute(atts[2 * j], atts[2 * j + 1])
      {
        attributes := attributes + [Attribute(atts[i], atts[i + 1])];
        i := i + 2;
      }
      assert attributes == Pairs(atts);
      events := events + [Event.StartElement(name, attributes, line, column)];
    }

    /** The end-element handler: one EndElement event. */
    method EndElement(name: string, line: nat, column: nat)
      modifies this
      ensures events == old(events) + [Event.EndElement(name, line, column)]
      ensures fed == old(fed) && isDone == old(isDone)
    {
      events := events + [Event.EndElement(name, line, column)];
    }

    /** The character-data handler: one Text event holding this fragment. */
    method CharacterData(text: string, line: nat, column: nat)
      modifies this
      ensures events == old(events) + [Text(text, line, column)]
      ensures fed == old(fed) && isDone == old(isDone)
    {
      events := events + [Text(text, line, column)];
    }
  }

  /** A live parser delivers, through GetNextEvent while HasNext holds, its
      queued events followed by what the handlers produce for the rest of
      the stream, with text runs merged. */
  lemma ParserDeliversHandlerEvents(p: ExpatXmlParser)
    requires p.Valid() && !p.isDone
    ensures Deliver(p.tokenize, p.State()).0
            == Merge(p.events + Upcoming(p.tokenize, p.State()).0)
  {
    DeliveredIsMerged(p.tokenize, p.State());
    RawEventsProduced(p.tokenize, p.State());
  }
}
