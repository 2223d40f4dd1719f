/** The Expat tokenizer, seen from the parser: handed a chunk (and whether it
    is the last), it calls the handlers back zero or more times, in document
    order, and then reports success or an error with its position. What it
    answers may depend on everything it was fed before. */
module Tokenizer {
  import opened XmlEvents
  import opened ByteSource

  /** One handler call, with the tokenizer's line and column at that moment. */
  datatype Callback =
    | StartTag(name: string, atts: AttributeList, line: nat, column: nat)
    | EndTag(name: string, line: nat, column: nat)
    | Chars(text: string, line: nat, column: nat)

  /** XML_ERROR_NO_ELEMENTS, or any other Expat error code. */
  datatype XmlErrorCode = NoElements | OtherError(code: nat)

  /** The status XML_Parse returns; on error, the position and the text of
      XML_ErrorString for the code. */
  datatype FeedStatus =
    | Ok
    | Failed(code: XmlErrorCode, line: nat, column: nat, description: string)

  datatype FeedResult = FeedResult(callbacks: seq<Callback>, status: FeedStatus)

  /** The tokenizer: (chunks fed so far, this chunk, isLast) to its answer. */
  type Tokenizer = (seq<Chunk>, Chunk, bool) -> FeedResult

  /** The event a handler call appends to the queue. */
  function EventOf(cb: Callback): (e: Event)
    ensures !e.EndDocument?
    ensures e.line == cb.line && e.column == cb.column
  {
    match cb
    case StartTag(name, atts, line, column) => StartElement(name, Pairs(atts), line, column)
    case EndTag(name, line, column) => EndElement(name, line, column)
    case Chars(text, line, column) => Text(text, line, column)
  }

  /** The events a run of handler calls appends, one per call, in order. */
  function EventsOf(cbs: seq<Callback>): (r: seq<Event>)
    ensures |r| == |cbs|
    ensures forall i :: 0 <= i < |cbs| ==> r[i] == EventOf(cbs[i])
    ensures forall i :: 0 <= i < |r| ==> r[i] != EndDocument
  {
    if cbs == [] then [] else [EventOf(cbs[0])] + EventsOf(cbs[1..])
  }

  /** A further handler call appends its event after the earlier ones. */
  lemma EventsOfAppend(cbs: seq<Callback>, cb: Callback)
    ensures EventsOf(cbs + [cb]) == EventsOf(cbs) + [EventOf(cb)]
  {
  }
}
