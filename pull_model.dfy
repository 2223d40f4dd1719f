/** The parser's behaviour as functions of its state: the raw fetch with its
    feed loop and error classification (GetNextEventWithoutCoalescing), the
    text coalescer (CoalesceTextEvents) and the public fetch (GetNextEvent).
    A Snapshot holds the parser's fields together with the stream's. */
module PullModel {
  import opened RetsErrors
  import opened XmlEvents
  import opened ByteSource
  import opened Tokenizer

  /** isDone and events are mIsDone and mEvents; fed is what the Expat
      instance has consumed; pending and atEof are the stream's state. */
  datatype Snapshot = Snapshot(
    isDone: bool,
    events: seq<Event>,
    fed: seq<Chunk>,
    pending: seq<Read>,
    atEof: bool)

  /** What a fetch returns, and the state it leaves. */
  datatype Step = Step(result: Result<Event>, after: Snapshot)

  ghost predicate SourceValid(s: Snapshot)
  {
    WellFormed(s.pending, s.atEof)
  }

  /** EndDocument is queued only at the back, and only once the stream has
      reported end-of-file. */
  ghost predicate EndDocumentLast(s: Snapshot)
  {
    forall i :: 0 <= i < |s.events| && s.events[i] == EndDocument ==>
      i == |s.events| - 1 && s.atEof
  }

  /** The error a failed XML_Parse is reported as. */
  function Classify(code: XmlErrorCode, line: nat, column: nat, description: string,
                    isLast: bool): (e: ParseError)
    ensures e.HttpError? <==> code == NoElements && isLast
    ensures e.HttpError? ==> e.status == RequestTimeout
    ensures !e.HttpError? ==> e == MalformedDocument(line, column, description)
  {
    if code == NoElements && isLast then HttpError(RequestTimeout)
    else MalformedDocument(line, column, description)
  }

  /** The state a cleanly parsed chunk leaves when nothing was queued: its
      handlers' events queued, followed by EndDocument when it was the
      last; the chunk fed and the read consumed. */
  function AfterChunk(tok: Tokenizer, s: Snapshot): Snapshot
    requires s.pending != []
  {
    var read := s.pending[0];
    var events := EventsOf(tok(s.fed, read.data, read.eofAfter).callbacks);
    s.(events := if read.eofAfter then events + [EndDocument] else events,
       fed := s.fed + [read.data],
       pending := s.pending[1..],
       atEof := read.eofAfter)
  }

  /** The raw fetch: refuse once finished; otherwise, while the queue is
      empty, read a chunk and feed it (a clean last chunk is followed by
      EndDocument); then pop the front of the queue. */
  function Fetch(tok: Tokenizer, s: Snapshot): (r: Step)
    requires SourceValid(s)
    ensures SourceValid(r.after)
    ensures r.after.isDone == s.isDone
    ensures |r.after.pending| <= |s.pending|
    ensures r.result.Success? && |r.after.pending| == |s.pending| ==>
              |r.after.events| + 1 == |s.events|
    ensures EndDocumentLast(s) ==> EndDocumentLast(r.after)
    ensures EndDocumentLast(s) && r.result == Success(EndDocument) ==>
              r.after.events == [] && r.after.atEof
    decreases |s.pending|
  {
    if s.isDone then Step(Failure(ParserFinished), s)
    else if s.events != [] then Step(Success(s.events[0]), s.(events := s.events[1..]))
    else if s.atEof then Step(Failure(PastEndOfDocument), s)
    else
      var read := s.pending[0];
      var fr := tok(s.fed, read.data, read.eofAfter);
      var t := s.(events := s.events + EventsOf(fr.callbacks),
                  fed := s.fed + [read.data],
                  pending := s.pending[1..],
                  atEof := read.eofAfter);
      match fr.status
      case Failed(code, line, column, description) =>
        Step(Failure(Classify(code, line, column, description, read.eofAfter)), t)
      case Ok => Fetch(tok, AfterChunk(tok, s))
  }

  /** The coalescer: keep fetching; append each further text to `text`; put
      the first other event back at the front and return the merged text.
      A failed fetch is passed on and the text gathered so far is lost. */
  function Coalesce(tok: Tokenizer, text: Event, s: Snapshot): (r: Step)
    requires text.Text? && SourceValid(s)
    ensures SourceValid(r.after)
    ensures r.after.isDone == s.isDone
    ensures r.result.Success? ==>
              r.result.value.Text? && r.result.value.line == text.line
              && r.result.value.column == text.column
    ensures |r.after.pending| <= |s.pending|
    ensures |r.after.pending| == |s.pending| ==> |r.after.events| <= |s.events|
    ensures EndDocumentLast(s) ==> EndDocumentLast(r.after)
    decreases |s.pending|, |s.events|
  {
    var step := Fetch(tok, s);
    match step.result
    case Failure(e) => Step(Failure(e), step.after)
    case Success(event) =>
      if event.Text? then
        Coalesce(tok, text.(content := text.content + event.content), step.after)
      else
        Step(Success(text), step.after.(events := [event] + step.after.events))
  }

  /** The public fetch: a raw fetch, coalesced when it is text; delivering
      EndDocument finishes the parser. */
  function Next(tok: Tokenizer, s: Snapshot): (r: Step)
    requires SourceValid(s)
    ensures SourceValid(r.after)
    ensures s.isDone ==> r == Step(Failure(ParserFinished), s)
    ensures !s.isDone ==> (r.after.isDone <==> r.result == Success(EndDocument))
    ensures r.result.Success? ==>
              |r.after.pending| < |s.pending|
              || (|r.after.pending| == |s.pending| && |r.after.events| < |s.events|)
    ensures EndDocumentLast(s) ==> EndDocumentLast(r.after)
  {
    var first := Fetch(tok, s);
    var step := if first.result.Success? && first.result.value.Text?
                then Coalesce(tok, first.result.value, first.after)
                else first;
    if step.result == Success(EndDocument) then step.(after := step.after.(isDone := true))
    else step
  }

  /** The events successive raw fetches return, up to the error that ends
      them. */
  function RawEvents(tok: Tokenizer, s: Snapshot): (r: (seq<Event>, ParseError))
    requires SourceValid(s)
    decreases |s.pending|, |s.events|
  {
    var step := Fetch(tok, s);
    match step.result
    case Failure(e) => ([], e)
    case Success(event) =>
      var rest := RawEvents(tok, step.after);
      ([event] + rest.0, rest.1)
  }

  /** How a caller's loop of public fetches ends: the parser finished, or a
      fetch failed. */
  datatype Ending = Finished | Stopped(error: ParseError)

  /** The events a caller sees calling GetNextEvent while HasNext holds. */
  function Deliver(tok: Tokenizer, s: Snapshot): (r: (seq<Event>, Ending))
    requires SourceValid(s)
    ensures forall i :: 0 <= i < |r.0| - 1 ==> r.0[i] != EndDocument
    ensures !s.isDone ==>
              (r.1 == Finished <==> r.0 != [] && r.0[|r.0| - 1] == EndDocument)
    decreases |s.pending|, |s.events|
  {
    if s.isDone then ([], Finished)
    else
      var step := Next(tok, s);
      match step.result
      case Failure(e) => ([], Stopped(e))
      case Success(event) =>
        var rest := Deliver(tok, step.after);
        ([event] + rest.0, rest.1)
  }
}
