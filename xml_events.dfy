/** The events the pull parser hands out, and the pairing of the flat
    attribute list Expat passes to the start-element handler. */
module XmlEvents {

  datatype Attribute = Attribute(name: string, value: string)

  datatype Event =
    | StartElement(name: string, attributes: seq<Attribute>, line: nat, column: nat)
    | EndElement(name: string, line: nat, column: nat)
    | Text(content: string, line: nat, column: nat)
    | EndDocument

  /** Expat hands attributes over as name, value, name, value, ...; it never
      passes a name without its value. */
  type AttributeList = a: seq<string> | |a| % 2 == 0

  /** The attributes of a flat list, pair by pair, in the order given. */
  function Pairs(atts: AttributeList): (r: seq<Attribute>)
    ensures |r| == |atts| / 2
    ensures forall i :: 0 <= i < |r| ==> r[i] == Attribute(atts[2 * i], atts[2 * i + 1])
  {
    if atts == [] then [] else [Attribute(atts[0], atts[1])] + Pairs(atts[2..])
  }

  /** The flat list that a sequence of attributes is passed as. */
  function Flatten(attributes: seq<Attribute>): (r: AttributeList)
    ensures |r| == 2 * |attributes|
  {
    if attributes == [] then []
    else [attributes[0].name, attributes[0].value] + Flatten(attributes[1..])
  }

  /** Pairing loses nothing: flattening the pairs gives back the list. */
  lemma {:induction false} FlattenPairs(atts: AttributeList)
    ensures Flatten(Pairs(atts)) == atts
    decreases |atts|
  {
    if atts != [] {
      FlattenPairs(atts[2..]);
      assert Pairs(atts)[1..] == Pairs(atts[2..]);
      assert atts == [atts[0], atts[1]] + atts[2..];
    }
  }

  /** Pairing invents nothing: every attribute sequence is the pairing of its
      flat form. */
  lemma {:induction false} PairsFlatten(attributes: seq<Attribute>)
    ensures Pairs(Flatten(attributes)) == attributes
    decreases |attributes|
  {
    if attributes != [] {
      PairsFlatten(attributes[1..]);
      assert Flatten(attributes)[2..] == Flatten(attributes[1..]);
    }
  }
}
