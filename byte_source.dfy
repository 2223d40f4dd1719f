/** The byte stream the parser borrows. What it will answer is fixed in
    advance: the reads it still has to give, each a chunk of at most
    ChunkSize bytes together with whether end-of-file is set after it. */
module ByteSource {

  newtype byte = b: int | 0 <= b < 256

  type Chunk = seq<byte>

  /** The size of the parser's read buffer. */
  const ChunkSize: nat := 512

  datatype Read = Read(data: Chunk, eofAfter: bool)

  /** A stream that will report end-of-file: it already does, or its last
      remaining read sets the flag. No read answers more than a buffer. */
  ghost predicate WellFormed(pending: seq<Read>, eof: bool)
  {
    && (eof || (pending != [] && pending[|pending| - 1].eofAfter))
    && forall i :: 0 <= i < |pending| ==> |pending[i].data| <= ChunkSize
  }

  /** The chunks a sequence of reads delivers, in order. */
  function Data(answers: seq<Read>): seq<Chunk>
  {
    seq(|answers|, i requires 0 <= i < |answers| => answers[i].data)
  }

  class Stream {
    var pending: seq<Read>
    var eof: bool

    ghost predicate Valid()
      reads this
    {
      WellFormed(pending, eof)
    }

    constructor (answers: seq<Read>, eof: bool)
      requires WellFormed(answers, eof)
      ensures Valid()
      ensures pending == answers && this.eof == eof
    {
      pending := answers;
      this.eof := eof;
    }

    /** eof(): whether the last read reached the end of the data. */
    method Eof() returns (b: bool)
      ensures b == eof
    {
      b := eof;
    }

    /** read(buf, 512) followed by gcount(): the bytes of the next read. */
    method Read() returns (data: Chunk)
      requires Valid() && !eof
      modifies this
      ensures Valid()
      ensures data == old(pending)[0].data && |data| <= ChunkSize
      ensures pending == old(pending)[1..] && eof == old(pending)[0].eofAfter
    {
      data := pending[0].data;
      eof := pending[0].eofAfter;
      pending := pending[1..];
    }
  }
}
