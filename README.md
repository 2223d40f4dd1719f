# Pull-style XML event parser over Expat (libRETS `ExpatXmlParser`)

This project models the core of libRETS's `ExpatXmlParser`. The class turns
Expat's push callbacks (start element, end element, character data) into a
demand-driven sequence of events: `StartElement`, `EndElement`, `Text` and a
final `EndDocument`. Callers drive it with `HasNext` and `GetNextEvent`.
It keeps two pieces of state: the `mIsDone` flag and the `mEvents` deque.

- **Feed loop.** `GetNextEventWithoutCoalescing` reads 512-byte chunks from
  the borrowed stream while the queue is empty. It hands each chunk to Expat.
  After the last chunk parses cleanly it appends `EndDocument`.
- **Callbacks.** Each of the three handlers appends one event, stamped with
  Expat's current line and column.
- **Coalescer.** `CoalesceTextEvents` merges consecutive text events. It
  pushes the first other event back onto the front of the queue.
- **Error classifier.** A last chunk that fails with `XML_ERROR_NO_ELEMENTS`
  becomes an HTTP 408 error (Request Timeout, section 6.5.7 of RFC 7231).
  Any other failure is a parse error carrying Expat's line, column and
  message.

Layout (one module per file):

- `rets_errors.dfy` (`RetsErrors`): the error kinds, and the `Result` that
  stands in for C++ exceptions.
- `xml_events.dfy` (`XmlEvents`): events, attributes, and the pairing of
  Expat's flat attribute list.
- `byte_source.dfy` (`ByteSource`): the borrowed stream. It is a class whose
  answers are fixed in advance: a list of reads, each a chunk of at most 512
  bytes with the end-of-file flag it leaves set.
- `tokenizer.dfy` (`Tokenizer`): Expat as an oracle. It maps (chunks fed so
  far, this chunk, isLast) to the handler calls it makes and its status.
- `pull_model.dfy` (`PullModel`): the parser's behaviour as functions of a
  snapshot of its state. `Fetch` is the raw fetch, `Coalesce` the
  coalescer, `Next` the public fetch. `RawEvents` lists what successive raw
  fetches return; `Deliver` lists what a caller's `HasNext`/`GetNextEvent`
  loop receives.
- `text_runs.dfy` (`TextRuns`): `Merge`, an independent definition of
  coalescing over an event list, and its properties.
- `pull_theorems.dfy` (`PullTheorems`): how the parser's functions relate to
  the stream, the tokenizer and `Merge`. `Produced` is a reference definition
  written without the queue: the handlers' events for each chunk, chunk after
  chunk, up to the first failing chunk, then EndDocument after a clean last
  chunk.
- `expat_parser.dfy` (`ExpatParser`): the class `ExpatXmlParser`. Its fields
  are `isDone`, `events` (the deque as a `seq`) and `fed` (the input the
  Expat instance has consumed). `GetNextEvent`, `CoalesceTextEvents` and
  `GetNextEventWithoutCoalescing` are proved to give the results and new
  states of `Next`, `Coalesce` and `Fetch`. `Parse` hands each tokenizer
  callback to `Dispatch`, which calls the registered handler; `Parse`, it
  and the three handlers state their effect on the queue directly.
- `scenarios.dfy` (`Scenarios`): two parses worked through end to end.

## Model

| member | source | states |
|---|---|---|
| `ExpatParser.ExpatXmlParser.constructor` | project/librets/src/ExpatXmlParser.cpp:49-64 | a new parser is bound to its stream and tokenizer, not finished, with an empty queue and nothing fed, and satisfies the class invariant |
| `ExpatParser.ParserDeliversHandlerEvents` | project/librets/src/ExpatXmlParser.cpp:71-249 | a live parser object delivers, through `GetNextEvent` while `HasNext` holds, its queued events followed by the handlers' events for the rest of the stream, with text runs merged |
| `ExpatParser.ExpatXmlParser.HasNext` | project/librets/src/ExpatXmlParser.cpp:71-74 | returns exactly `!isDone` and changes nothing |
| `ExpatParser.ExpatXmlParser.GetNextEvent` | project/librets/src/ExpatXmlParser.cpp:76-92 | result and new state are those of `Next`; once finished it fails with ParserFinished and changes nothing; otherwise `isDone` becomes true exactly when the result is EndDocument |
| `ExpatParser.ExpatXmlParser.CoalesceTextEvents` | project/librets/src/ExpatXmlParser.cpp:94-112 | result and new state are those of `Coalesce` |
| `ExpatParser.ExpatXmlParser.GetNextEventWithoutCoalescing` | project/librets/src/ExpatXmlParser.cpp:114-188 | result and new state are those of `Fetch`; `isDone` never changes; once finished it fails with ParserFinished and touches nothing; with a non-empty queue it returns the front and removes only it, touching nothing else; with an empty queue and an ended stream it fails with PastEndOfDocument and touches nothing. What it returns after reading follows from `Fetch` by `FetchReturnsNextProduced` |
| `ExpatParser.ExpatXmlParser.Parse` | project/librets/src/ExpatXmlParser.cpp:146 | the handlers append one event per tokenizer callback, in callback order, and the chunk is added to what the tokenizer has consumed; returns the tokenizer's status |
| `ExpatParser.ExpatXmlParser.Dispatch` | project/librets/src/ExpatXmlParser.cpp:57-60 | each tokenizer callback reaches the handler registered for its kind, which appends that callback's event at the back and changes nothing else |
| `ExpatParser.ExpatXmlParser.StartElement` | project/librets/src/ExpatXmlParser.cpp:200-219 | appends exactly one StartElement at the back, with the tokenizer's line and column and the attributes paired in order |
| `ExpatParser.ExpatXmlParser.EndElement` | project/librets/src/ExpatXmlParser.cpp:221-233 | appends exactly one EndElement at the back, with the tokenizer's line and column |
| `ExpatParser.ExpatXmlParser.CharacterData` | project/librets/src/ExpatXmlParser.cpp:235-249 | appends exactly one Text at the back holding the fragment, with the tokenizer's line and column |
| `ByteSource.Stream.Read` | project/librets/src/ExpatXmlParser.cpp:141-143 | returns the next read's bytes (at most 512), consumes that read, and sets end-of-file as that read leaves it |
| `ByteSource.Stream.Eof` | project/librets/src/ExpatXmlParser.cpp:128 | returns the stream's end-of-file flag and changes nothing |
| `XmlEvents.Pairs` | project/librets/src/ExpatXmlParser.cpp:209-214 | the i-th attribute is the (name, value) pair at positions 2i and 2i+1 of Expat's list, so there are half as many attributes as list entries, in the list's order |
| `XmlEvents.FlattenPairs` | project/librets/src/ExpatXmlParser.cpp:209-214 | pairing loses nothing: flattening the pairs gives back Expat's list |
| `XmlEvents.PairsFlatten` | project/librets/src/ExpatXmlParser.cpp:209-214 | pairing invents nothing: every attribute sequence is the pairing of its flat form |
| `Tokenizer.EventOf` | project/librets/src/ExpatXmlParser.cpp:200-249 | a handler call never produces EndDocument, and its event carries the tokenizer's line and column at the call |
| `Tokenizer.EventsOf` | project/librets/src/ExpatXmlParser.cpp:200-249 | one event per handler call, in call order, none of them EndDocument |
| `PullModel.Classify` | project/librets/src/ExpatXmlParser.cpp:146-171 | the HTTP error arises exactly for NO_ELEMENTS on a last chunk, with status 408; every other failure is a malformed-document error with the tokenizer's line, column and message |
| `PullModel.Fetch` | project/librets/src/ExpatXmlParser.cpp:114-188 | never changes `isDone`; consumes no more reads than the stream has; if it reads nothing, a success removes exactly one queued event; keeps EndDocument last in the queue and only after end-of-file; after returning EndDocument the queue is empty and the stream has ended. Its result after reading is given by `FetchReturnsNextProduced` against the reference `Produced` |
| `PullModel.Coalesce` | project/librets/src/ExpatXmlParser.cpp:94-112 | a success is a Text with the line and column of the first fragment; never changes `isDone`; never grows the queue unless it reads, whether it succeeds or fails; keeps EndDocument last |
| `PullModel.Next` | project/librets/src/ExpatXmlParser.cpp:76-92 | once finished it fails with ParserFinished and changes nothing; otherwise the parser becomes finished exactly when EndDocument is returned; every success makes progress on the stream or the queue |
| `PullModel.Deliver` | project/librets/src/ExpatXmlParser.cpp:71-92 | a caller never receives anything after EndDocument; its loop ends with the parser finished exactly when the last event received is EndDocument |
| `PullTheorems.RawEventsProduced` | project/librets/src/ExpatXmlParser.cpp:114-249 | on an unfinished parser the raw fetches return the queued events, then (unless the stream has ended) the `Produced` events of the remaining reads, and end with `Produced`'s error |
| `PullTheorems.FetchReturnsNextProduced` | project/librets/src/ExpatXmlParser.cpp:114-188 | one raw fetch returns the first of the queued events followed by the events still to come from the stream, and leaves the rest of them to come; with none left it fails with the stream's error |
| `PullTheorems.ProducedEndsIffClean` | project/librets/src/ExpatXmlParser.cpp:146-177 | the handlers' events end with EndDocument exactly when every chunk up to the one that sets end-of-file parses cleanly; EndDocument appears nowhere else, and not at all when a chunk fails |
| `PullTheorems.DeliveredFromReads` | project/librets/src/ExpatXmlParser.cpp:76-249 | from a parser with nothing queued and a live stream, a caller receives `Merge` of the handlers' events for the whole stream. It finishes exactly when every chunk parses cleanly, and otherwise stops with the first failing chunk's error |
| `PullTheorems.FailedReadsDoNotReturn` | project/librets/src/ExpatXmlParser.cpp:126-183 | if Expat answers every empty non-final chunk with no handler calls and Ok, then on reads that return no bytes and leave end-of-file unset, as a failed stream gives, the raw fetch consumes every one of them without returning, however many there are |
| `PullTheorems.FetchFeedsWhatItReads` | project/librets/src/ExpatXmlParser.cpp:126-146 | a raw fetch consumes a prefix of the stream's remaining reads and feeds exactly those chunks to the tokenizer, in order |
| `PullTheorems.FetchFailureClassified` | project/librets/src/ExpatXmlParser.cpp:146-182 | on an unfinished parser a raw fetch fails with PastEndOfDocument exactly when the queue was empty and the stream had ended, and then touches nothing. Any other failure is the classification of the tokenizer's answer to the last chunk, with 408 only for NO_ELEMENTS on the final chunk. A failure never finishes the parser. It leaves queued exactly the events the failing chunk's handlers produced, never EndDocument |
| `PullTheorems.CoalesceConsumesRun` | project/librets/src/ExpatXmlParser.cpp:94-112 | if something other than text ends the run of texts at the head of the raw stream, the coalescer returns one text: its own content followed by the run's contents, at its own position. The raw stream then resumes with the event that ended the run. If the stream fails first, the coalescer fails with that error and the text is lost |
| `PullTheorems.NextMatchesRawEvents` | project/librets/src/ExpatXmlParser.cpp:76-112 | one public fetch delivers the next raw event unchanged when it is not text. A run of texts is delivered as a single text, at the first fragment's position, once another event ends the run. EndDocument is the last raw event. The raw stream resumes right after what was consumed |
| `PullTheorems.DeliveredIsMerged` | project/librets/src/ExpatXmlParser.cpp:76-112 | the events a caller receives are exactly `Merge` of the raw events. The caller's loop ends finished exactly when the raw events end with EndDocument; otherwise it ends with the raw stream's error |
| `PullTheorems.DeliveredTextIsWhole` | project/librets/src/ExpatXmlParser.cpp:94-112 | a caller never receives two Text events in a row, nor a Text last. It receives every non-text event of the raw stream, in order. When the parse finishes it receives all the text, in order |
| `TextRuns.MergeSeparatesText` | project/librets/src/ExpatXmlParser.cpp:96-104 | after merging, every Text event is followed by a non-text event |
| `TextRuns.MergeKeepsStructure` | project/librets/src/ExpatXmlParser.cpp:99-103 | merging keeps every non-text event, in order |
| `TextRuns.MergeKeepsText` | project/librets/src/ExpatXmlParser.cpp:105-110 | merging keeps all text content, in order, unless the events end inside a run of text |
| `TextRuns.MergeIdempotent` | project/librets/src/ExpatXmlParser.cpp:94-112 | merging already merged events changes nothing |
| `Scenarios.SplitRawEvents` | project/librets/src/ExpatXmlParser.cpp:126-187 | for `<r>A` then `B</r>` in two reads, the raw fetches give StartElement, Text "A", Text "B", EndElement, EndDocument, then PastEndOfDocument |
| `Scenarios.SplitTextDeliveredWhole` | project/librets/src/ExpatXmlParser.cpp:76-112 | the same document is delivered as StartElement, one Text "AB" at the first fragment's position, EndElement, EndDocument, and the parser finishes |
| `Scenarios.SplitMerged` | project/librets/src/ExpatXmlParser.cpp:94-112 | merging those raw events joins the two text fragments into "AB" and keeps the other events |
| `Scenarios.TruncatedStreamTimesOut` | project/librets/src/ExpatXmlParser.cpp:146-166 | `<r>A` with the stream ending there fails with HTTP 408 and does not finish the parser. The handler events stay queued, so later fetches deliver the start tag. The trailing text is then lost to PastEndOfDocument |

## Left out

- The Expat tokenizer itself (`XML_Parse`'s lexing, `XML_GetErrorCode`, `XML_ErrorString`, `XML_GetCurrentLineNumber`/`ColumnNumber`, XML 1.0 well-formedness): a foreign C library. It is an oracle that may depend on everything fed before; it supplies the handler calls, their positions, and an ok or error status with position and message.
- The `typeid(CurlStream)` branching: the `CurlStream` branch makes the same `eof`/`read`/`gcount` calls on the same stream, through a `CurlStream` pointer, so that `CurlStream`'s own versions of them run. One stream class stands for both, because the end-of-file flag after each read is left free (`Read.eofAfter` is unconstrained). A failed read appears only as a read that yields no bytes and leaves end-of-file unset.
- Streams that never report end-of-file, such as one in a failed state: the source's feed loop does not terminate on them (`FailedReadsDoNotReturn`). `Stream.Valid` requires that the stream eventually reports end-of-file, and the constructor and every parser operation that may read (`GetNextEvent`, `GetNextEventWithoutCoalescing`, `CoalesceTextEvents`) require it; `HasNext` does not.
- The string constructor (wrapping text in a `stringstream`), the encoding argument, `XML_ParserCreate` allocation failure, handler registration and `XML_ParserFree`: construction and destruction plumbing around a foreign library.
- Message text: the exception messages built with `ostringstream` are reduced to the error kind, the 408 status, and line, column and Expat's description.
- Expat's line and column numbers are taken as natural numbers; their conversion to `int` and `unsigned int` (32-bit truncation) is not modelled.
- The `#if 0` debug printing, and `dynamic_pointer_cast` (events are values here; the coalescer's in-place `AppendText` on the shared event becomes building a new text value).
- Concurrency: there is none. The only suspension, the blocking read, is a step of the stream model.
- project/librets/test/src/RetsMetadataTest.cpp tests the metadata-by-level collector, which is not part of this model.

## Behaviour worth knowing

- When Expat fails part-way through a chunk, the handlers have already appended their events. These stay queued and are delivered by later fetches; the queue is not restored to its state before the chunk. `FetchFailureClassified` and `TruncatedStreamTimesOut` state this.
- "Parsing past end of XML document" is reachable. It is what the next fetch reports after the final chunk failed, once the queue is drained. It is also what the first fetch reports on a stream that has already ended.
- When a fetch fails inside the coalescer, the text fragments it has already popped are lost (`CoalesceConsumesRun`). Fragments that the failing chunk's handlers queued stay in the queue, and a later `GetNextEvent` delivers them. `Deliver` and `Merge` describe a caller that stops at the first error.
- A stream that fails without reaching end-of-file makes the feed loop run forever. Each read then yields no bytes and leaves `eof()` false, so the queue stays empty and the loop at lines 126-183 of `project/librets/src/ExpatXmlParser.cpp` never exits. `FailedReadsDoNotReturn` states this for any number of such reads. The rest of the model only admits streams that reach end-of-file.
- An empty input reads zero bytes, hits end-of-file on that read, and Expat fails with NO_ELEMENTS on a last chunk. It is therefore reported as the 408 timeout, not as a malformed document.
