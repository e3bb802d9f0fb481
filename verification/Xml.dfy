/** The document tree as a value, and the error a document records. */
module Xml {
  import opened Bytes

  datatype Attr = Attr(name: bytes, value: bytes)

  datatype Node =
    | Element(name: bytes, attrs: seq<Attr>, children: seq<Node>)
    | Text(value: bytes, cdata: bool)
    | Comment(value: bytes)
    | Declaration(version: bytes, encoding: bytes, standalone: bytes)
    | Unrecognized(value: bytes)
  {
    predicate IsPlainText() {
      Text? && !cdata
    }
  }

  datatype ErrorId =
    | ParsingElement
    | FailedToReadElementName
    | ReadingElementValue
    | ReadingAttributes
    | ParsingEmpty
    | ReadingEndTag
    | ParsingUnknown
    | ParsingComment
    | ParsingDeclaration
    | DocumentEmpty
    | ParsingCdata
    | DocumentTopOnly

  /** The error state of a document. The place is the number of bytes ahead of the pointer given
      to SetError, none when that pointer is null. */
  datatype Err = NoError | Error(id: ErrorId, left: Place)

  datatype Place = Nowhere | Place(left: nat)

  function PlaceOf(p: Ptr): Place {
    if p.At? then Place(|p.s|) else Nowhere
  }

  /** `TiXmlDocument::SetError`: the first error in a chain is kept. */
  function SetError(err: Err, id: ErrorId, p: Ptr): Err {
    if err.Error? then err else Error(id, PlaceOf(p))
  }

  function AttrNames(attrs: seq<Attr>): set<bytes> {
    set i | 0 <= i < |attrs| :: attrs[i].name
  }

  predicate DistinctNames(attrs: seq<Attr>) {
    forall i, j :: 0 <= i < j < |attrs| ==> attrs[i].name != attrs[j].name
  }

  /** The attributes a walk from First() by Next() visits: Next takes an attribute whose name and
      value are both empty for the sentinel. */
  function Reached(attrs: seq<Attr>): seq<Attr> {
    if attrs == [] then [] else [attrs[0]] + UntilBlank(attrs[1..])
  }

  function UntilBlank(attrs: seq<Attr>): seq<Attr> {
    if attrs == [] || attrs[0] == Attr([], []) then [] else [attrs[0]] + UntilBlank(attrs[1..])
  }

  lemma {:induction false} UntilBlankIsAll(attrs: seq<Attr>)
    ensures UntilBlank(attrs) == attrs <==> Attr([], []) !in attrs
  {
    if attrs != [] && attrs[0] != Attr([], []) {
      UntilBlankIsAll(attrs[1..]);
      assert attrs == [attrs[0]] + attrs[1..];
    }
  }

  /** The walk visits every attribute exactly when none behind the first is blank. */
  lemma ReachedIsAll(attrs: seq<Attr>)
    ensures Reached(attrs) == attrs <==> attrs == [] || Attr([], []) !in attrs[1..]
  {
    if attrs != [] {
      UntilBlankIsAll(attrs[1..]);
      assert attrs == [attrs[0]] + attrs[1..];
    }
  }

  /** A blank attribute hides those behind it from the walk. */
  lemma BlankEndsTheWalk()
    ensures Reached([Attr([97], [49]), Attr([], []), Attr([98], [50])]) == [Attr([97], [49])]
  {
    var more := [Attr([], []), Attr([98], [50])];
    assert [Attr([97], [49]), Attr([], []), Attr([98], [50])][1..] == more;
    assert UntilBlank(more) == [];
  }
}
