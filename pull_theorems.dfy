/** What the pull parser promises, proved about the functions of PullModel:
    each fetch reads and feeds the stream in order, failures are classified
    from the tokenizer's last answer, and the events a caller receives are
    exactly the raw events with their text runs merged. */
module PullTheorems {
  import opened RetsErrors
  import opened XmlEvents
  import opened ByteSource
  import opened Tokenizer
  import opened PullModel
  import opened TextRuns

  /** From `s` to `a` the stream gave a prefix of its remaining reads, and
      exactly those chunks were fed to the tokenizer, in order. */
  ghost predicate FedInOrder(s: Snapshot, a: Snapshot)
  {
    && |a.pending| <= |s.pending|
    && var n := |s.pending| - |a.pending|;
       a.pending == s.pending[n..] && a.fed == s.fed + Data(s.pending[..n])
  }

  /** A raw fetch reads a prefix of the stream's remaining reads and feeds
      exactly those chunks to the tokenizer, in order. */
  lemma {:induction false} FetchFeedsWhatItReads(tok: Tokenizer, s: Snapshot)
    requires SourceValid(s)
    ensures FedInOrder(s, Fetch(tok, s).after)
    decreases |s.pending|
  {
    var r := Fetch(tok, s);
    if !s.isDone && s.events == [] && !s.atEof {
      var read := s.pending[0];
      if tok(s.fed, read.data, read.eofAfter).status.Ok? {
        FetchAfterChunk(tok, s);
        var u := AfterChunk(tok, s);
        FetchFeedsWhatItReads(tok, u);
        FedInOrderCons(s, u, r.after);
      } else {
        FetchFailedChunk(tok, s);
        FedOne(s, r.after);
      }
    } else {
      if s.isDone {
        assert r.after == s;
      } else if s.events != [] {
        assert r.after == s.(events := s.events[1..]);
      } else {
        assert r.after == s;
      }
      NothingFed(s, r.after);
    }
  }

  /** With nothing queued and a chunk that parses cleanly, a raw fetch
      continues from the state the chunk leaves. */
  lemma FetchAfterChunk(tok: Tokenizer, s: Snapshot)
    requires SourceValid(s) && !s.isDone && s.events == [] && !s.atEof
    requires tok(s.fed, s.pending[0].data, s.pending[0].eofAfter).status.Ok?
    ensures SourceValid(AfterChunk(tok, s))
    ensures Fetch(tok, s) == Fetch(tok, AfterChunk(tok, s))
  {
    AfterChunkValid(tok, s);
  }

  /** Consuming one read keeps the stream one that reports end-of-file. */
  lemma AfterChunkValid(tok: Tokenizer, s: Snapshot)
    requires SourceValid(s) && !s.atEof
    ensures s.pending != [] && SourceValid(AfterChunk(tok, s))
  {
    var u := AfterChunk(tok, s);
    assert forall i :: 0 <= i < |u.pending| ==> u.pending[i] == s.pending[i + 1];
  }

  /** With nothing queued and a chunk that fails, a raw fetch has consumed
      that one read and fed that one chunk. */
  lemma FetchFailedChunk(tok: Tokenizer, s: Snapshot)
    requires SourceValid(s) && !s.isDone && s.events == [] && !s.atEof
    requires tok(s.fed, s.pending[0].data, s.pending[0].eofAfter).status.Failed?
    ensures var a := Fetch(tok, s).after;
            a.pending == s.pending[1..] && a.fed == s.fed + [s.pending[0].data]
  {
  }

  /** Reading and feeding one chunk is reading and feeding in order. */
  lemma FedOne(s: Snapshot, a: Snapshot)
    requires s.pending != [] && a.pending == s.pending[1..]
    requires a.fed == s.fed + [s.pending[0].data]
    ensures FedInOrder(s, a)
  {
    assert s.pending[..1] == [s.pending[0]];
    assert Data([s.pending[0]]) == [s.pending[0].data];
  }

  lemma NothingFed(s: Snapshot, a: Snapshot)
    requires a.pending == s.pending && a.fed == s.fed
    ensures FedInOrder(s, a)
  {
  }

  /** Reading and feeding one chunk, then more in order, is reading and
      feeding all of them in order. */
  lemma FedInOrderCons(s: Snapshot, u: Snapshot, a: Snapshot)
    requires s.pending != [] && u.pending == s.pending[1..]
    requires u.fed == s.fed + [s.pending[0].data]
    requires FedInOrder(u, a)
    ensures FedInOrder(s, a)
  {
    var n := |s.pending| - |a.pending|;
    var front := u.pending[..n - 1];
    assert u.pending[n - 1..] == s.pending[n..];
    assert s.pending[..n] == [s.pending[0]] + front;
    DataCons(s.pending[0], front);
  }

  lemma DataCons(read: Read, answers: seq<Read>)
    ensures Data([read] + answers) == [read.data] + Data(answers)
  {
  }

  /** The answer the tokenizer gave to the last chunk fed. */
  function LastAnswer(tok: Tokenizer, s: Snapshot): FeedResult
    requires s.fed != []
  {
    tok(s.fed[..|s.fed| - 1], s.fed[|s.fed| - 1], s.atEof)
  }

  /** How a raw fetch on an unfinished parser fails: past the end only when
      nothing was queued and the stream had ended, touching nothing; with
      408 exactly when the last chunk failed with NO_ELEMENTS; otherwise as
      a malformed document at the tokenizer's position. A failure never
      finishes the parser, and leaves queued just the events the failing
      chunk's handlers produced, never EndDocument. */
  lemma {:induction false} FetchFailureClassified(tok: Tokenizer, s: Snapshot)
    requires SourceValid(s) && !s.isDone
    ensures var r := Fetch(tok, s);
            r.result.Failure? ==>
              && !r.after.isDone
              && r.result.error != ParserFinished
              && (r.result.error == PastEndOfDocument <==> s.events == [] && s.atEof)
              && (r.result.error == PastEndOfDocument ==> r.after == s)
              && (r.result.error != PastEndOfDocument ==>
                    && r.after.fed != []
                    && var answer := LastAnswer(tok, r.after);
                    && answer.status.Failed?
                    && r.after.events == EventsOf(answer.callbacks)
                    && r.result.error
                       == Classify(answer.status.code, answer.status.line,
                                   answer.status.column, answer.status.description,
                                   r.after.atEof))
    decreases |s.pending|
  {
    if s.events == [] && !s.atEof {
      var read := s.pending[0];
      if tok(s.fed, read.data, read.eofAfter).status.Ok? {
        AfterChunkValid(tok, s);
        var u := AfterChunk(tok, s);
        FetchFailureClassified(tok, u);
        if u.events != [] {
        } else {
          assert !u.atEof;
        }
      } else {
        var fed := s.fed + [read.data];
        assert fed[..|fed| - 1] == s.fed;
      }
    }
  }

  /** The coalescer consumes the run of texts at the head of the raw event
      stream: if something other than text ends the run, it returns one text
      holding the run's contents after its own, at its own position, and the
      raw stream resumes at the event that ended the run; if the stream
      fails first, it fails with that error. */
  lemma {:induction false} CoalesceConsumesRun(tok: Tokenizer, text: Event, s: Snapshot)
    requires text.Text? && SourceValid(s)
    ensures CoalescedRun(tok, text, s)
    decreases |s.pending|, |s.events|
  {
    var step := Fetch(tok, s);
    if step.result.Success? && step.result.value.Text? {
      CoalesceConsumesRun(tok, text.(content := text.content + step.result.value.content), step.after);
      CoalesceTextStep(tok, text, s);
    } else if step.result.Success? {
      CoalesceOtherStep(tok, text, s);
    }
  }

  /** The coalescer's result from `s`, against the raw events from `s`. */
  ghost predicate CoalescedRun(tok: Tokenizer, text: Event, s: Snapshot)
    requires text.Text? && SourceValid(s)
  {
    var r := Coalesce(tok, text, s);
    RunOutcome(text, RawEvents(tok, s), r.result, RawEvents(tok, r.after))
  }

  /** What coalescing `text` with the run at the head of `raw` yields: the
      stream's error when nothing but text is left, otherwise one text and
      the events after the run. */
  predicate RunOutcome(text: Event, raw: (seq<Event>, ParseError), result: Result<Event>,
                       rawAfter: (seq<Event>, ParseError))
    requires text.Text?
  {
    var k := TextRun(raw.0);
    if k == |raw.0| then result == Failure(raw.1)
    else
      && result == Success(Text(text.content + LeadingText(raw.0), text.line, text.column))
      && rawAfter == (raw.0[k..], raw.1)
  }

  /** A further text extends the run the coalescer consumes. */
  lemma CoalesceTextStep(tok: Tokenizer, text: Event, s: Snapshot)
    requires text.Text? && SourceValid(s)
    requires Fetch(tok, s).result.Success? && Fetch(tok, s).result.value.Text?
    requires var step := Fetch(tok, s);
             CoalescedRun(tok, text.(content := text.content + step.result.value.content), step.after)
    ensures CoalescedRun(tok, text, s)
  {
    var step := Fetch(tok, s);
    var event := step.result.value;
    var text' := text.(content := text.content + event.content);
    RawEventsCons(tok, s);
    var r := Coalesce(tok, text, s);
    assert r == Coalesce(tok, text', step.after);
    RunOutcomeText(text, event, RawEvents(tok, step.after), r.result, RawEvents(tok, r.after));
  }

  lemma RunOutcomeText(text: Event, event: Event, rest: (seq<Event>, ParseError),
                       result: Result<Event>, rawAfter: (seq<Event>, ParseError))
    requires text.Text? && event.Text?
    requires RunOutcome(text.(content := text.content + event.content), rest, result, rawAfter)
    ensures RunOutcome(text, ([event] + rest.0, rest.1), result, rawAfter)
  {
    RunCons(event, rest.0);
    assert text.content + (event.content + LeadingText(rest.0))
        == (text.content + event.content) + LeadingText(rest.0);
  }

  /** Another event ends the run: it is put back, and the raw events resume
      with it. */
  lemma CoalesceOtherStep(tok: Tokenizer, text: Event, s: Snapshot)
    requires text.Text? && SourceValid(s)
    requires Fetch(tok, s).result.Success? && !Fetch(tok, s).result.value.Text?
    ensures CoalescedRun(tok, text, s)
  {
    var step := Fetch(tok, s);
    var event := step.result.value;
    RawEventsCons(tok, s);
    var back := step.after.(events := [event] + step.after.events);
    assert Coalesce(tok, text, s) == Step(Success(text), back);
    assert Fetch(tok, back) == Step(Success(event), step.after);
    RawEventsCons(tok, back);
    RunOutcomeOther(text, RawEvents(tok, s));
  }

  lemma RunOutcomeOther(text: Event, raw: (seq<Event>, ParseError))
    requires text.Text? && raw.0 != [] && !raw.0[0].Text?
    ensures RunOutcome(text, raw, Success(text), raw)
  {
    assert TextRun(raw.0) == 0 && LeadingText(raw.0) == "";
    assert raw.0[0..] == raw.0;
    assert text == Text(text.content + "", text.line, text.column);
  }

  /** One public fetch against the raw event stream: an event other than
      text is delivered as it is; a run of texts is delivered as one text
      once something else ends it; the raw stream then resumes where the
      fetch stopped. EndDocument is the last raw event. */
  lemma NextMatchesRawEvents(tok: Tokenizer, s: Snapshot)
    requires SourceValid(s) && EndDocumentLast(s) && !s.isDone
    ensures var raw := RawEvents(tok, s);
            var r := Next(tok, s);
            if raw.0 == [] then r.result == Failure(raw.1)
            else if raw.0[0] == EndDocument then
              r.result == Success(EndDocument) && raw.0 == [EndDocument]
            else if !raw.0[0].Text? then
              r.result == Success(raw.0[0]) && RawEvents(tok, r.after) == (raw.0[1..], raw.1)
            else
              var k := TextRun(raw.0);
              if k == |raw.0| then r.result == Failure(raw.1)
              else
                && r.result == Success(Text(LeadingText(raw.0), raw.0[0].line, raw.0[0].column))
                && RawEvents(tok, r.after) == (raw.0[k..], raw.1)
  {
    var first := Fetch(tok, s);
    var raw := RawEvents(tok, s);
    match first.result
    case Failure(e) =>
    case Success(event) =>
      var rest := RawEvents(tok, first.after);
      RawEventsCons(tok, s);
      assert raw.0[1..] == rest.0;
      if event == EndDocument {
        assert first.after.events == [] && first.after.atEof;
        assert rest.0 == [];
      } else if event.Text? {
        assert Next(tok, s) == Coalesce(tok, event, first.after);
        CoalesceConsumesRun(tok, event, first.after);
        RunCons(event, rest.0);
      } else {
        assert Next(tok, s) == first;
      }
  }

  /** The events a caller receives are the raw events with their text runs
      merged; the caller's loop ends with the parser finished exactly when
      the raw events end with EndDocument, and otherwise with the error that
      ended them. */
  lemma {:induction false} DeliveredIsMerged(tok: Tokenizer, s: Snapshot)
    requires SourceValid(s) && EndDocumentLast(s) && !s.isDone
    ensures MergedDelivery(tok, s)
    decreases |s.pending|, |s.events|
  {
    var r := Next(tok, s);
    if r.result.Success? && !r.after.isDone {
      DeliveredIsMerged(tok, r.after);
      DeliveredStep(tok, s);
    } else {
      DeliveredLast(tok, s);
    }
  }

  /** What a caller receives from `s` is the merge of the raw events, and
      the loop finishes exactly when they end with EndDocument. */
  ghost predicate MergedDelivery(tok: Tokenizer, s: Snapshot)
    requires SourceValid(s)
  {
    var raw := RawEvents(tok, s);
    var d := Deliver(tok, s);
    && d.0 == Merge(raw.0)
    && d.1 == if raw.0 != [] && raw.0[|raw.0| - 1] == EndDocument then Finished else Stopped(raw.1)
  }

  /** A delivery that goes on after this fetch is merged if the rest is. */
  lemma DeliveredStep(tok: Tokenizer, s: Snapshot)
    requires SourceValid(s) && EndDocumentLast(s) && !s.isDone
    requires Next(tok, s).result.Success? && !Next(tok, s).after.isDone
    requires MergedDelivery(tok, Next(tok, s).after)
    ensures MergedDelivery(tok, s)
  {
    var r := Next(tok, s);
    NextStepShape(tok, s);
    MergeStep(RawEvents(tok, s).0, r.result.value, RawEvents(tok, r.after).0);
    DeliverUnfold(tok, s);
  }

  /** A public fetch that delivers an event and does not finish delivers
      the next raw event, or the merge of the run of texts at their head. */
  lemma NextStepShape(tok: Tokenizer, s: Snapshot)
    requires SourceValid(s) && EndDocumentLast(s) && !s.isDone
    requires Next(tok, s).result.Success? && !Next(tok, s).after.isDone
    ensures var r := Next(tok, s);
            var raw, later := RawEvents(tok, s), RawEvents(tok, r.after);
            StepShape(raw.0, r.result.value, later.0) && later.1 == raw.1
  {
    var r := Next(tok, s);
    var raw := RawEvents(tok, s);
    NextMatchesRawEvents(tok, s);
    assert raw.0 != [] && raw.0[0] != EndDocument;
    if raw.0[0].Text? {
      assert TextRun(raw.0) < |raw.0|;
    } else {
      assert r.result.value == raw.0[0];
    }
  }

  /** A delivery that ends at this fetch, with a failure or EndDocument. */
  lemma DeliveredLast(tok: Tokenizer, s: Snapshot)
    requires SourceValid(s) && EndDocumentLast(s) && !s.isDone
    requires Next(tok, s).result.Failure? || Next(tok, s).after.isDone
    ensures MergedDelivery(tok, s)
  {
    NextMatchesRawEvents(tok, s);
    DeliverUnfold(tok, s);
    if Next(tok, s).result.Failure? {
      MergeUnendedRun(RawEvents(tok, s).0);
    } else {
      assert Merge([EndDocument]) == [EndDocument] + Merge([]);
    }
  }

  /** Raw events that are one run of texts that nothing ends merge to
      nothing, and do not end with EndDocument. */
  lemma MergeUnendedRun(raw: seq<Event>)
    requires raw != [] ==> raw[0].Text? && TextRun(raw) == |raw|
    ensures Merge(raw) == []
    ensures raw != [] ==> raw[|raw| - 1].Text?
  {
  }

  /** `value` is the event delivered from the head of `raw`, other than
      EndDocument: the first raw event when it is not text, otherwise the
      merge of the run of texts at the head, which something ends; `later`
      is what follows. */
  ghost predicate StepShape(raw: seq<Event>, value: Event, later: seq<Event>)
  {
    && raw != [] && value != EndDocument
    && (!raw[0].Text? ==> value == raw[0] && later == raw[1..])
    && (raw[0].Text? ==>
          && TextRun(raw) < |raw|
          && value == Text(LeadingText(raw), raw[0].line, raw[0].column)
          && later == raw[TextRun(raw)..])
  }

  /** Merging raw events that start with one delivered event (a non-text
      event, or a run of texts that something ends) gives that event
      followed by the merge of the rest, and the rest ends where the raw
      events end. */
  lemma MergeStep(raw: seq<Event>, value: Event, later: seq<Event>)
    requires StepShape(raw, value, later)
    ensures Merge(raw) == [value] + Merge(later)
    ensures (later != [] && later[|later| - 1] == EndDocument) <==> raw[|raw| - 1] == EndDocument
  {
    if raw[0].Text? {
      var k := TextRun(raw);
      assert later[|later| - 1] == raw[|raw| - 1];
    } else if later != [] {
      assert later[|later| - 1] == raw[|raw| - 1];
    }
  }

  /** One public fetch, then the rest of the caller's loop. */
  lemma DeliverUnfold(tok: Tokenizer, s: Snapshot)
    requires SourceValid(s) && !s.isDone
    ensures var r := Next(tok, s);
            Deliver(tok, s)
            == if r.result.Failure? then ([], Stopped(r.result.error))
               else ([r.result.value] + Deliver(tok, r.after).0, Deliver(tok, r.after).1)
  {
  }

  /** No caller ever receives two Text events in a row, nor a Text event
      last; no text is lost when the parse ends with EndDocument. */
  lemma DeliveredTextIsWhole(tok: Tokenizer, s: Snapshot)
    requires SourceValid(s) && EndDocumentLast(s) && !s.isDone
    ensures TextSeparated(Deliver(tok, s).0)
    ensures Structure(Deliver(tok, s).0) == Structure(RawEvents(tok, s).0)
    ensures Deliver(tok, s).1 == Finished ==>
              AllText(Deliver(tok, s).0) == AllText(RawEvents(tok, s).0)
  {
    var raw := RawEvents(tok, s).0;
    DeliveredIsMerged(tok, s);
    MergeSeparatesText(raw);
    MergeKeepsStructure(raw);
    if Deliver(tok, s).1 == Finished {
      MergeKeepsText(raw);
    }
  }

  /** What the handlers produce from the reads still to come, independently
      of the queue: the events of each chunk's handler calls, chunk after
      chunk, up to the chunk that sets end-of-file, followed by EndDocument
      when that chunk parses cleanly. The first chunk that fails ends the
      events (its own handler events are not among them) with the
      classified error; a clean parse ends with "past the end". */
  function Produced(tok: Tokenizer, fed: seq<Chunk>, answers: seq<Read>): (seq<Event>, ParseError)
    decreases |answers|
  {
    if answers == [] then ([], PastEndOfDocument)
    else
      var answer := tok(fed, answers[0].data, answers[0].eofAfter);
      match answer.status
      case Failed(code, line, column, description) =>
        ([], Classify(code, line, column, description, answers[0].eofAfter))
      case Ok =>
        if answers[0].eofAfter then (EventsOf(answer.callbacks) + [EndDocument], PastEndOfDocument)
        else
          var rest := Produced(tok, fed + [answers[0].data], answers[1..]);
          (EventsOf(answer.callbacks) + rest.0, rest.1)
  }

  /** Every chunk up to the one that sets end-of-file parses cleanly. */
  predicate CleanParse(tok: Tokenizer, fed: seq<Chunk>, answers: seq<Read>)
    decreases |answers|
  {
    && answers != []
    && tok(fed, answers[0].data, answers[0].eofAfter).status.Ok?
    && (answers[0].eofAfter || CleanParse(tok, fed + [answers[0].data], answers[1..]))
  }

  /** What is still to come from the stream: nothing once it has ended,
      otherwise what the handlers produce for its remaining reads. */
  function Upcoming(tok: Tokenizer, s: Snapshot): (seq<Event>, ParseError)
  {
    if s.atEof then ([], PastEndOfDocument) else Produced(tok, s.fed, s.pending)
  }

  /** The raw events from `s` are its queued events followed by what is
      still to come from the stream, ending with the stream's error. */
  ghost predicate RawMatches(tok: Tokenizer, s: Snapshot)
  {
    SourceValid(s) && RawEvents(tok, s) == (s.events + Upcoming(tok, s).0, Upcoming(tok, s).1)
  }

  /** The events raw fetches return are the queued events followed by what
      is still to come from the stream, and they end with its error. */
  lemma {:induction false} RawEventsProduced(tok: Tokenizer, s: Snapshot)
    requires SourceValid(s) && !s.isDone
    ensures RawEvents(tok, s) == (s.events + Upcoming(tok, s).0, Upcoming(tok, s).1)
    decreases |s.pending|, |s.events|
  {
    if s.events != [] {
      RawEventsProduced(tok, s.(events := s.events[1..]));
      PopMatches(tok, s);
    } else if !s.atEof && tok(s.fed, s.pending[0].data, s.pending[0].eofAfter).status.Ok? {
      RawEventsFeed(tok, s);
      RawEventsProduced(tok, AfterChunk(tok, s));
      FeedMatches(tok, s);
    } else if !s.atEof {
      var read := s.pending[0];
      var status := tok(s.fed, read.data, read.eofAfter).status;
      var e := Classify(status.code, status.line, status.column, status.description, read.eofAfter);
      assert Fetch(tok, s).result == Failure(e);
      assert RawEvents(tok, s) == ([], e);
      assert Upcoming(tok, s) == ([], e);
      assert s.events + Upcoming(tok, s).0 == [];
    }
  }

  /** Popping the front of the queue keeps the raw events matched. */
  lemma PopMatches(tok: Tokenizer, s: Snapshot)
    requires SourceValid(s) && !s.isDone && s.events != []
    requires RawMatches(tok, s.(events := s.events[1..]))
    ensures RawMatches(tok, s)
  {
    var after := s.(events := s.events[1..]);
    RawEventsPop(tok, s);
    UpcomingIgnoresQueue(tok, s, after.events);
    QueueFront(RawEvents(tok, s), RawEvents(tok, after), s.events, Upcoming(tok, s));
  }

  /** Events returned from the front of a queue, then the queue's rest and
      what follows it, are the whole queue and what follows it. */
  lemma QueueFront(raw: (seq<Event>, ParseError), rest: (seq<Event>, ParseError),
                   queue: seq<Event>, more: (seq<Event>, ParseError))
    requires queue != []
    requires raw == ([queue[0]] + rest.0, rest.1)
    requires rest == (queue[1..] + more.0, more.1)
    ensures raw == (queue + more.0, more.1)
  {
    assert queue + more.0 == [queue[0]] + (queue[1..] + more.0);
  }

  /** What is still to come from the stream does not depend on the queue. */
  lemma UpcomingIgnoresQueue(tok: Tokenizer, s: Snapshot, events: seq<Event>)
    ensures Upcoming(tok, s.(events := events)) == Upcoming(tok, s)
  {
  }

  /** Feeding a chunk that parses cleanly keeps the raw events matched. */
  lemma FeedMatches(tok: Tokenizer, s: Snapshot)
    requires SourceValid(s) && !s.isDone && s.events == [] && !s.atEof
    requires tok(s.fed, s.pending[0].data, s.pending[0].eofAfter).status.Ok?
    requires RawEvents(tok, s) == RawEvents(tok, AfterChunk(tok, s))
    requires RawMatches(tok, AfterChunk(tok, s))
    ensures RawMatches(tok, s)
  {
    var a := AfterChunk(tok, s);
    var u := Upcoming(tok, s);
    UpcomingFeed(tok, s);
    assert u == (a.events + Upcoming(tok, a).0, Upcoming(tok, a).1);
    assert RawEvents(tok, a) == u;
    assert s.events + u.0 == u.0;
  }

  /** A raw fetch that succeeds, followed by the rest of the raw events. */
  lemma RawEventsCons(tok: Tokenizer, s: Snapshot)
    requires SourceValid(s) && Fetch(tok, s).result.Success?
    ensures var step := Fetch(tok, s);
            var rest := RawEvents(tok, step.after);
            RawEvents(tok, s) == ([step.result.value] + rest.0, rest.1)
  {
  }

  /** A text in front of some events extends the run of texts at their head. */
  lemma RunCons(text: Event, rest: seq<Event>)
    requires text.Text?
    ensures var raw := [text] + rest;
            && raw[1..] == rest
            && TextRun(raw) == 1 + TextRun(rest)
            && LeadingText(raw) == text.content + LeadingText(rest)
            && raw[TextRun(raw)..] == rest[TextRun(rest)..]
  {
    var raw := [text] + rest;
    assert raw[1..] == rest;
  }

  /** One raw fetch on an unfinished parser returns the next of the queued
      events followed by what is to come from the stream, in order, and
      leaves the rest of them to come; when there is none it fails with the
      stream's error. */
  lemma FetchReturnsNextProduced(tok: Tokenizer, s: Snapshot)
    requires SourceValid(s) && !s.isDone
    ensures var q := s.events + Upcoming(tok, s).0;
            var r := Fetch(tok, s);
            if q == [] then r.result == Failure(Upcoming(tok, s).1)
            else r.result == Success(q[0])
                 && RawEvents(tok, r.after) == (q[1..], Upcoming(tok, s).1)
  {
    RawEventsProduced(tok, s);
  }

  /** With events queued, the raw events start with the front of the queue. */
  lemma RawEventsPop(tok: Tokenizer, s: Snapshot)
    requires SourceValid(s) && !s.isDone && s.events != []
    ensures var rest := RawEvents(tok, s.(events := s.events[1..]));
            RawEvents(tok, s) == ([s.events[0]] + rest.0, rest.1)
  {
  }

  /** With nothing queued and a chunk that parses cleanly, the raw events
      are those from the state the chunk leaves. */
  lemma RawEventsFeed(tok: Tokenizer, s: Snapshot)
    requires SourceValid(s) && !s.isDone && s.events == [] && !s.atEof
    requires tok(s.fed, s.pending[0].data, s.pending[0].eofAfter).status.Ok?
    ensures SourceValid(AfterChunk(tok, s))
    ensures RawEvents(tok, s) == RawEvents(tok, AfterChunk(tok, s))
  {
    FetchAfterChunk(tok, s);
  }

  /** What is to come from a cleanly parsed chunk onwards is its events,
      then what is to come after it. */
  lemma UpcomingFeed(tok: Tokenizer, s: Snapshot)
    requires !s.atEof && s.pending != []
    requires tok(s.fed, s.pending[0].data, s.pending[0].eofAfter).status.Ok?
    ensures var u := AfterChunk(tok, s);
            Upcoming(tok, s) == (u.events + Upcoming(tok, u).0, Upcoming(tok, u).1)
  {
    var u := AfterChunk(tok, s);
    var events := EventsOf(tok(s.fed, s.pending[0].data, s.pending[0].eofAfter).callbacks);
    if s.pending[0].eofAfter {
      assert Upcoming(tok, s) == (events + [EndDocument], PastEndOfDocument);
      assert Upcoming(tok, u) == ([], PastEndOfDocument);
      assert u.events + [] == u.events;
    } else {
      assert Upcoming(tok, s) == (events + Upcoming(tok, u).0, Upcoming(tok, u).1);
    }
  }

  /** The handlers' events end with EndDocument exactly when every chunk up
      to the one that sets end-of-file parses cleanly; EndDocument appears
      nowhere else. */
  lemma {:induction false} ProducedEndsIffClean(tok: Tokenizer, fed: seq<Chunk>, answers: seq<Read>)
    ensures var p := Produced(tok, fed, answers).0;
            && (CleanParse(tok, fed, answers) <==> p != [] && p[|p| - 1] == EndDocument)
            && forall i :: 0 <= i < |p| - 1 ==> p[i] != EndDocument
    ensures !CleanParse(tok, fed, answers) ==> EndDocument !in Produced(tok, fed, answers).0
    decreases |answers|
  {
    if answers != [] {
      var answer := tok(fed, answers[0].data, answers[0].eofAfter);
      var events := EventsOf(answer.callbacks);
      if answer.status.Ok? {
        if answers[0].eofAfter {
          assert EndDocument !in events;
        } else {
          var rest := Produced(tok, fed + [answers[0].data], answers[1..]);
          ProducedEndsIffClean(tok, fed + [answers[0].data], answers[1..]);
          assert Produced(tok, fed, answers).0 == events + rest.0;
          assert EndDocument !in events;
        }
      }
    }
  }

  /** From a parser that has queued nothing and whose stream has not ended
      (a fresh one, in particular), a caller receives the handlers' events
      for the whole stream, chunk after chunk, with text runs merged, and
      finishes exactly when every chunk parses cleanly; otherwise it stops
      with the first failing chunk's error. */
  lemma DeliveredFromReads(tok: Tokenizer, s: Snapshot)
    requires SourceValid(s) && !s.isDone && s.events == [] && !s.atEof
    ensures var p := Produced(tok, s.fed, s.pending);
            && Deliver(tok, s).0 == Merge(p.0)
            && (Deliver(tok, s).1 == Finished <==> CleanParse(tok, s.fed, s.pending))
            && (!CleanParse(tok, s.fed, s.pending) ==> Deliver(tok, s).1 == Stopped(p.1))
  {
    RawEventsProduced(tok, s);
    assert s.events + Upcoming(tok, s).0 == Produced(tok, s.fed, s.pending).0;
    DeliveredIsMerged(tok, s);
    ProducedEndsIffClean(tok, s.fed, s.pending);
  }

  /** A stream that has failed without reaching end-of-file (a read error)
      answers every further read with no bytes and leaves end-of-file
      unset. Expat, fed an empty chunk that is not the last, calls no
      handler and succeeds. However many such reads come, the raw fetch
      consumes them all without returning: on a stream that keeps failing
      it never returns. */
  lemma {:induction false} FailedReadsDoNotReturn(tok: Tokenizer, s: Snapshot, n: nat)
    requires SourceValid(s) && !s.isDone && s.events == [] && !s.atEof
    requires n <= |s.pending|
    requires forall i :: 0 <= i < n ==> s.pending[i] == Read([], false)
    requires forall fed: seq<Chunk> :: tok(fed, [], false) == FeedResult([], Ok)
    ensures var failed := s.(fed := s.fed + seq(n, i => []), pending := s.pending[n..]);
            SourceValid(failed) && Fetch(tok, s) == Fetch(tok, failed)
    decreases n
  {
    if n == 0 {
      assert s.fed + seq(0, i => []) == s.fed;
      assert s.pending[0..] == s.pending;
    } else {
      var t := s.(fed := s.fed + [[]], pending := s.pending[1..]);
      FailedReadStep(tok, s);
      EmptyReadsTail(s.pending, n);
      FailedReadsDoNotReturn(tok, t, n - 1);
      EmptyChunksCons(s.fed, n);
    }
  }

  /** One read that yields nothing, without end-of-file, fed to a tokenizer
      that reports nothing for it: the raw fetch goes on past it. */
  lemma FailedReadStep(tok: Tokenizer, s: Snapshot)
    requires SourceValid(s) && !s.isDone && s.events == [] && !s.atEof
    requires s.pending[0] == Read([], false)
    requires tok(s.fed, [], false) == FeedResult([], Ok)
    ensures var t := s.(fed := s.fed + [[]], pending := s.pending[1..]);
            SourceValid(t) && Fetch(tok, s) == Fetch(tok, t)
  {
    assert EventsOf([]) == [];
    FetchAfterChunk(tok, s);
    assert AfterChunk(tok, s) == s.(fed := s.fed + [[]], pending := s.pending[1..]);
  }

  lemma EmptyReadsTail(pending: seq<Read>, n: nat)
    requires 0 < n <= |pending|
    requires forall i :: 0 <= i < n ==> pending[i] == Read([], false)
    ensures forall i :: 0 <= i < n - 1 ==> pending[1..][i] == Read([], false)
    ensures pending[1..][n - 1..] == pending[n..]
  {
    assert forall i :: 0 <= i < n - 1 ==> pending[1..][i] == pending[i + 1];
  }

  lemma EmptyChunksCons(fed: seq<Chunk>, n: nat)
    requires n > 0
    ensures (fed + [[]]) + seq(n - 1, i => []) == fed + seq(n, i => [])
  {
    assert seq(n, i => []) == [[]] + seq<Chunk>(n - 1, i => []);
  }
}
