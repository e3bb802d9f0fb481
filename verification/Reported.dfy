/** Which places a parse stamps first and last: a node at its start, an error where it happens. */
module Reported {
  import opened Bytes
  import opened Codec
  import opened Xml
  import opened Parser
  import opened ErrorLaws
  import opened Stamps

  /** A node is stamped where it starts, before anything in it. */
  lemma NodeIsStampedFirst(kind: Kind, p: Ptr, condense: bool, enc: Encoding, err: Err)
    requires p.Live() && AfterWhiteSpace(p, enc) == p && Identify(p, enc) == Is(kind)
    ensures var places := NodeStamps(kind, p, condense, enc, err); places != [] && places[0] == |p.s|
  {
    hide AfterWhiteSpace, OpenStamps, DeclarationBodyStamps, CommentAt, CdataAt, UnrecognizedAt;
  }

  /** So is an attribute, and a text: behind white space that is condensed, in front of white space that
      is kept. */
  lemma AttributeIsStampedFirst(attrs: seq<Attr>, p: Ptr, enc: Encoding, err: Err)
    requires p.Live() && AfterWhiteSpace(p, enc) == p
    ensures var places := AttributeStamps(attrs, p, enc, err); places != [] && places[0] == |p.s|
  {
    hide AfterWhiteSpace, AttributeAt, ErrorStamps, AttrNames;
  }

  lemma TextIsStampedFirst(p: Ptr, condense: bool, enc: Encoding, err: Err)
    requires AfterWhiteSpace(p, enc).Live() && AfterWhiteSpace(p, enc).s[0] != LT
    ensures var places := ContentStamps(p, condense, enc, err);
            places != [] && places[0] == |(if condense then AfterWhiteSpace(p, enc) else p).s|
  {
    hide AfterWhiteSpace, PlainTextAt;
  }

  /** If an error with a place was set on the way, that place was stamped, and nothing after it. */
  predicate EndsWith(places: seq<nat>, before: Err, after: Err) {
    before.NoError? && after.Error? && after.left.Place? ==>
      places != [] && places[|places| - 1] == after.left.left
  }

  lemma ErrorIsLast(before: Err, after: Err)
    ensures EndsWith(ErrorStamps(before, after), before, after)
  {
  }

  lemma ThenNothing(a: seq<nat>, b: seq<nat>, before: Err, middle: Err, after: Err)
    requires EndsWith(a, before, middle) && EndsWith(b, middle, after)
    requires before.NoError? && middle.Error? ==> b == [] && after == middle
    ensures EndsWith(a + b, before, after)
  {
    if before.NoError? && middle.Error? {
      assert a + b == a;
    } else if b != [] {
      assert (a + b)[|a + b| - 1] == b[|b| - 1];
    }
  }

  lemma BehindOthers(a: seq<nat>, b: seq<nat>, before: Err, after: Err)
    requires EndsWith(b, before, after)
    ensures EndsWith(a + b, before, after)
  {
    if b != [] {
      assert (a + b)[|a + b| - 1] == b[|b| - 1];
    }
  }

  lemma {:induction false} NodeEndsWith(kind: Kind, p: Ptr, condense: bool, enc: Encoding, err: Err)
    ensures EndsWith(NodeStamps(kind, p, condense, enc, err), err, NodeAt(kind, p, condense, enc, err).err)
    decreases p.Left(), 3
  {
    if kind == ElementKind {
      ElementEndsWith(p, condense, enc, err);
    } else {
      LeafEndsWith(kind, p, condense, enc, err);
    }
  }

  lemma LeafEndsWith(kind: Kind, p: Ptr, condense: bool, enc: Encoding, err: Err)
    requires kind != ElementKind
    ensures EndsWith(NodeStamps(kind, p, condense, enc, err), err, NodeAt(kind, p, condense, enc, err).err)
  {
    hide AfterWhiteSpace, TextAt, FindTag, IndexFrom, DeclarationBodyStamps, HasPrefixIgnoringCase;
    match kind
    case CommentKind =>
      BehindOthers(PlacesOf(AfterWhiteSpace(p, enc)), ErrorStamps(err, CommentAt(p, enc, err).err), err,
                   CommentAt(p, enc, err).err);
    case CdataKind =>
      BehindOthers(PlacesOf(p), ErrorStamps(err, CdataAt(p, enc, err).err), err, CdataAt(p, enc, err).err);
    case UnrecognizedKind =>
      BehindOthers(PlacesOf(AfterWhiteSpace(p, enc)), ErrorStamps(err, UnrecognizedAt(p, enc, err).err), err,
                   UnrecognizedAt(p, enc, err).err);
    case DeclarationKind =>
  }

  /** An element that reports an error at a place has stamped that place last. */
  lemma {:induction false} ElementEndsWith(p: Ptr, condense: bool, enc: Encoding, err: Err)
    ensures EndsWith(ElementStamps(p, condense, enc, err), err, ElementAt(p, condense, enc, err).err)
    decreases p.Left(), 2
  {
    hide AfterWhiteSpace, NameAt, TagAt, TagStamps, EndsWith;
    var p0 := AfterWhiteSpace(p, enc);
    var e := ElementAt(p, condense, enc, err).err;
    ErrorIsLast(err, e);
    NoneAtAll(err);
    if p0.Live() {
      if p0.s[0] == LT {
        var nm := NameAt(AfterWhiteSpace(At(p0.s[1..]), enc));
        if nm.p.Live() {
          TagEndsWith(nm.name, [], nm.p, condense, enc, err);
        }
      }
      BehindOthers(PlacesOf(p0), OpenStamps(p0, condense, enc, err), err, e);
    } else {
      ErrorNowhere(err);
    }
  }

  lemma NoneAtAll(err: Err)
    ensures EndsWith([], err, err)
  {
  }

  lemma ErrorNowhere(err: Err)
    ensures EndsWith([], err, SetError(err, ParsingElement, Null))
  {
  }

  lemma {:induction false} TagEndsWith(name: bytes, attrs: seq<Attr>, p: Ptr, condense: bool, enc: Encoding, err: Err)
    requires p.Live()
    ensures EndsWith(TagStamps(name, attrs, p, condense, enc, err), err, TagAt(name, attrs, p, condense, enc, err).err)
    decreases p.Left(), 1
  {
    hide AfterWhiteSpace, AttributeAt, AttributeStamps, ContentAt, ContentStamps, EndTagAt, AttrNames, EndsWith;
    var p0 := AfterWhiteSpace(p, enc);
    var e := TagAt(name, attrs, p, condense, enc, err).err;
    ErrorIsLast(err, e);
    NoneAtAll(err);
    if p0.Live() && p0.s[0] == GT {
      var c := ContentAt([], At(p0.s[1..]), condense, enc, err);
      ContentEndsWith([], At(p0.s[1..]), condense, enc, err);
      EndTagIsLast(name, At(p0.s[1..]), condense, enc, err);
      ThenNothing(ContentStamps(At(p0.s[1..]), condense, enc, err), EndTagStamps(name, c.p, enc, c.err),
                  err, c.err, e);
    } else if p0.Live() && p0.s[0] != SLASH {
      var a := AttributeAt(p0, enc);
      AttributeEndsWith(attrs, p0, enc, err);
      if IsNewAttribute(a, attrs) {
        TagEndsWith(name, attrs + [a.attr], a.p, condense, enc, err);
        BehindOthers(AttributeStamps(attrs, p0, enc, err), TagStamps(name, attrs + [a.attr], a.p, condense, enc, err),
                     err, e);
      } else {
        var some := AttributeStamps(attrs, p0, enc, err);
        assert some + [] == some;
      }
    }
  }

  lemma EndTagIsLast(name: bytes, p: Ptr, condense: bool, enc: Encoding, err: Err)
    ensures var c := ContentAt([], p, condense, enc, err);
            var e := EndTagAt(name, c.p, enc, c.err);
            EndsWith(EndTagStamps(name, c.p, enc, c.err), c.err, e.err) &&
            (c.err.Error? ==> EndTagStamps(name, c.p, enc, c.err) == [] && e.err == c.err)
  {
    hide ContentAt, EndTagAt;
    var c := ContentAt([], p, condense, enc, err);
    EndTagReports(name, c.p, enc, c.err);
  }

  lemma AttributeEndsWith(attrs: seq<Attr>, p: Ptr, enc: Encoding, err: Err)
    requires p.Live()
    ensures var a := AttributeAt(p, enc);
            EndsWith(AttributeStamps(attrs, p, enc, err), err,
                     if a.p.Wild? || IsNewAttribute(a, attrs) then err
                     else SetError(Report(err, a.fault), ParsingElement, p))
  {
    hide AttributeAt, NameStamps, AttrNames;
    var a := AttributeAt(p, enc);
    FaultIsSet(p, enc);
    var e := Report(err, a.fault);
    var x, y := NameStamps(p, enc), ErrorStamps(err, e);
    if a.p.Wild? || IsNewAttribute(a, attrs) {
    } else {
      var after := SetError(e, ParsingElement, p);
      var z := ErrorStamps(e, after);
      hide EndsWith, ErrorStamps;
      ErrorIsLast(err, e);
      ErrorIsLast(e, after);
      NoErrorTwice(e, after);
      ThenNothing(y, z, err, e, after);
      BehindOthers(x, y + z, err, after);
    }
  }

  lemma NoErrorTwice(before: Err, after: Err)
    ensures before.Error? ==> ErrorStamps(before, after) == []
  {
  }

  lemma FaultIsSet(p: Ptr, enc: Encoding)
    ensures var a := AttributeAt(p, enc); !a.p.Null? ==> a.fault == NoError
  {
  }

  lemma {:induction false} ContentEndsWith(kids: seq<Node>, p: Ptr, condense: bool, enc: Encoding, err: Err)
    ensures EndsWith(ContentStamps(p, condense, enc, err), err, ContentAt(kids, p, condense, enc, err).err)
    decreases p.Left(), 4
  {
    hide AfterWhiteSpace, PlainTextAt, WithText, NodeAt, NodeStamps, Identify, EndsWith;
    var p0 := AfterWhiteSpace(p, enc);
    NoneAtAll(err);
    ContentNowhere(err);
    if p0.Live() {
      if p0.s[0] != LT {
        FirstIsNotLt(p, enc);
        var s := if condense then p0.s else p.s;
        var t := PlainTextAt(s, condense, enc);
        ContentEndsWith(WithText(kids, t.text), t.p, condense, enc, err);
        BehindOthers([|s|], ContentStamps(t.p, condense, enc, err), err, ContentAt(kids, p, condense, enc, err).err);
      } else if !(END_TAG_OPEN <= p0.s) && Identify(p0, enc).Is? {
        var kind := Identify(p0, enc).kind;
        var n := NodeAt(kind, p0, condense, enc, err);
        NodeEndsWith(kind, p0, condense, enc, err);
        NodeReports(kind, p0, condense, enc, err);
        ContentEndsWith(kids + [n.node], n.p, condense, enc, n.err);
        BehindNull(kids + [n.node], n.p, condense, enc, n.err);
        BehindNode(kids, p, condense, enc, err);
        ThenNothing(NodeStamps(kind, p0, condense, enc, err), ContentStamps(n.p, condense, enc, n.err),
                    err, n.err, ContentAt(kids, p, condense, enc, err).err);
      } else {
        NoNode(kids, p, condense, enc, err);
      }
    }
  }

  lemma NoNode(kids: seq<Node>, p: Ptr, condense: bool, enc: Encoding, err: Err)
    requires var p0 := AfterWhiteSpace(p, enc);
             p0.Live() && p0.s[0] == LT && (END_TAG_OPEN <= p0.s || Identify(p0, enc) == NoKind)
    ensures ContentStamps(p, condense, enc, err) == [] && ContentAt(kids, p, condense, enc, err).err == err
  {
    hide AfterWhiteSpace, NodeAt, NodeStamps, Identify;
  }

  lemma BehindNode(kids: seq<Node>, p: Ptr, condense: bool, enc: Encoding, err: Err)
    requires var p0 := AfterWhiteSpace(p, enc);
             p0.Live() && p0.s[0] == LT && !(END_TAG_OPEN <= p0.s) && Identify(p0, enc).Is?
    ensures var p0 := AfterWhiteSpace(p, enc);
            var kind := Identify(p0, enc).kind;
            var n := NodeAt(kind, p0, condense, enc, err);
            ContentStamps(p, condense, enc, err)
            == NodeStamps(kind, p0, condense, enc, err) + ContentStamps(n.p, condense, enc, n.err) &&
            ContentAt(kids, p, condense, enc, err) == ContentAt(kids + [n.node], n.p, condense, enc, n.err)
  {
    hide AfterWhiteSpace, NodeAt, NodeStamps, Identify;
  }

  lemma ContentNowhere(err: Err)
    ensures EndsWith([], err, SetError(err, ReadingElementValue, Null))
  {
  }

  /** Behind null there is nothing to stamp, and an error stays. */
  lemma BehindNull(kids: seq<Node>, p: Ptr, condense: bool, enc: Encoding, err: Err)
    ensures p.Null? && err.Error? ==>
              ContentStamps(p, condense, enc, err) == [] && ContentAt(kids, p, condense, enc, err).err == err
  {
  }

  /** The error of a document, if it has a place, is stamped there. */
  lemma {:induction false} NodesStampTheError(kids: seq<Node>, p: Ptr, condense: bool, enc: Encoding, err: Err)
    ensures var e := NodesAt(kids, p, condense, enc, err).err;
            var places := NodesPlaces(p, condense, enc, err);
            err.NoError? && e.Error? && e.left.Place? ==> e.left.left in places.first || e.left.left in places.second
    decreases p.Left()
  {
    if p.Live() && Identify(p, enc).Is? {
      var kind := Identify(p, enc).kind;
      var n := NodeAt(kind, p, condense, enc, err);
      var enc' := EncodingAfter(enc, n.node);
      var q := AfterWhiteSpace(n.p, enc');
      var here := NodeStamps(kind, p, condense, enc, err);
      NodeEndsWith(kind, p, condense, enc, err);
      NodeReports(kind, p, condense, enc, err);
      NodesReport(kids + [n.node], q, condense, enc', n.err);
      hide Identify, NodeAt, NodeStamps, EncodingAfter, AfterWhiteSpace;
      NodesStampTheError(kids + [n.node], q, condense, enc', n.err);
      if enc' != enc {
        KnownStays(q, condense, enc', n.err);
      }
    }
  }

  lemma DocumentStampsItsError(s: bytes, condense: bool, enc: Encoding)
    ensures var e := DocumentAt(s, condense, enc).err;
            var places := DocumentPlaces(s, condense, enc);
            e.Error? && e.left.Place? ==> e.left.left in places.first || e.left.left in places.second
  {
    if s != [] {
      var enc0 := StartEncoding(s, enc);
      NodesStampTheError([], At(SkipWs(s, enc0)), condense, enc0, NoError);
    }
    hide NodesAt, NodesPlaces, SkipWs;
  }
}
