/** What coalescing does to a stream of raw events: every maximal run of
    Text events that some other event ends becomes one Text event holding
    the run's contents, at the position of its first fragment. A run that
    nothing ends (the stream failed first) is dropped, as the coalescer
    loses it. */
module TextRuns {
  import opened XmlEvents

  /** The number of Text events at the head of `raw`. */
  function TextRun(raw: seq<Event>): (k: nat)
    ensures k <= |raw|
    ensures forall i :: 0 <= i < k ==> raw[i].Text?
    ensures k < |raw| ==> !raw[k].Text?
  {
    if raw != [] && raw[0].Text? then 1 + TextRun(raw[1..]) else 0
  }

  /** The contents of that run, in order. */
  function LeadingText(raw: seq<Event>): string
  {
    if raw != [] && raw[0].Text? then raw[0].content + LeadingText(raw[1..]) else ""
  }

  function Merge(raw: seq<Event>): seq<Event>
    decreases |raw|
  {
    if raw == [] then []
    else if !raw[0].Text? then [raw[0]] + Merge(raw[1..])
    else
      var k := TextRun(raw);
      if k == |raw| then []
      else [Text(LeadingText(raw), raw[0].line, raw[0].column)] + Merge(raw[k..])
  }

  /** The events other than Text, in order. */
  function Structure(raw: seq<Event>): seq<Event>
  {
    if raw == [] then []
    else if raw[0].Text? then Structure(raw[1..])
    else [raw[0]] + Structure(raw[1..])
  }

  /** All text contents, concatenated in order. */
  function AllText(raw: seq<Event>): string
  {
    if raw == [] then []
    else if raw[0].Text? then raw[0].content + AllText(raw[1..])
    else AllText(raw[1..])
  }

  /** Every Text event is followed by some other event: no two Text events
      are adjacent and none comes last. */
  ghost predicate TextSeparated(events: seq<Event>)
  {
    forall i :: 0 <= i < |events| && events[i].Text? ==>
      i + 1 < |events| && !events[i + 1].Text?
  }

  lemma {:induction false} MergeSeparatesText(raw: seq<Event>)
    ensures TextSeparated(Merge(raw))
    decreases |raw|
  {
    if raw == [] {
    } else if !raw[0].Text? {
      MergeSeparatesText(raw[1..]);
      var m, rest := Merge(raw), Merge(raw[1..]);
      assert m == [raw[0]] + rest;
      forall i | 1 <= i < |m| && m[i].Text?
        ensures i + 1 < |m| && !m[i + 1].Text?
      {
        assert m[i] == rest[i - 1] && rest[i - 1].Text?;
        assert i < |rest| && !rest[i].Text?;
        assert m[i + 1] == rest[i];
      }
    } else {
      var k := TextRun(raw);
      if k < |raw| {
        MergeSeparatesText(raw[k..]);
        assert Merge(raw[k..])[0] == raw[k];
      }
    }
  }

  lemma {:induction false} StructureSkipsRun(raw: seq<Event>)
    ensures Structure(raw) == Structure(raw[TextRun(raw)..])
    decreases |raw|
  {
    if raw != [] && raw[0].Text? {
      StructureSkipsRun(raw[1..]);
      assert raw[1..][TextRun(raw[1..])..] == raw[TextRun(raw)..];
    }
  }

  lemma {:induction false} AllTextSplitsAtRun(raw: seq<Event>)
    ensures AllText(raw) == LeadingText(raw) + AllText(raw[TextRun(raw)..])
    decreases |raw|
  {
    if raw != [] && raw[0].Text? {
      AllTextSplitsAtRun(raw[1..]);
      assert raw[1..][TextRun(raw[1..])..] == raw[TextRun(raw)..];
    }
  }

  /** Merging keeps every other event, in order. */
  lemma {:induction false} MergeKeepsStructure(raw: seq<Event>)
    ensures Structure(Merge(raw)) == Structure(raw)
    decreases |raw|
  {
    if raw == [] {
    } else if !raw[0].Text? {
      MergeKeepsStructure(raw[1..]);
      assert Merge(raw)[1..] == Merge(raw[1..]);
    } else {
      var k := TextRun(raw);
      StructureSkipsRun(raw);
      if k < |raw| {
        MergeKeepsStructure(raw[k..]);
        assert Merge(raw)[1..] == Merge(raw[k..]);
      } else {
        assert raw[k..] == [];
      }
    }
  }

  /** Merging keeps every piece of text, in order, when the stream does not
      end inside a run of text. */
  lemma {:induction false} MergeKeepsText(raw: seq<Event>)
    requires raw == [] || !raw[|raw| - 1].Text?
    ensures AllText(Merge(raw)) == AllText(raw)
    decreases |raw|
  {
    if raw == [] {
    } else if !raw[0].Text? {
      if |raw| > 1 {
        MergeKeepsText(raw[1..]);
      }
      assert Merge(raw)[1..] == Merge(raw[1..]);
    } else {
      var k := TextRun(raw);
      AllTextSplitsAtRun(raw);
      MergeKeepsText(raw[k..]);
      var m := Merge(raw);
      assert m[1..] == Merge(raw[k..]);
      assert AllText(m) == LeadingText(raw) + AllText(m[1..]);
    }
  }

  /** Merging merged events changes nothing. */
  lemma {:induction false} MergeIdempotent(raw: seq<Event>)
    ensures Merge(Merge(raw)) == Merge(raw)
    decreases |raw|
  {
    if raw == [] {
    } else if !raw[0].Text? {
      MergeIdempotent(raw[1..]);
      assert Merge(raw)[1..] == Merge(raw[1..]);
    } else {
      var k := TextRun(raw);
      if k < |raw| {
        var m := Merge(raw);
        var rest := Merge(raw[k..]);
        MergeIdempotent(raw[k..]);
        assert rest[0] == raw[k];
        assert m[1..] == rest;
        assert TextRun(m[1..]) == 0;
        assert TextRun(m) == 1;
        assert LeadingText(m) == m[0].content;
        assert m[TextRun(m)..] == rest;
      }
    }
  }
}
