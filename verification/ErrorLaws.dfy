/** When parsing fails, and which error the document is left with. */
module ErrorLaws {
  import opened Bytes
  import opened Codec
  import opened Xml
  import opened Parser

  /** The error state after a step: an error already there stays as it is, id and place; and a step
      that set one has returned null. */
  predicate Reported(before: Err, p: Ptr, after: Err) {
    if before.Error? then after == before else after.Error? ==> p.Null?
  }

  /** The stronger bond of an element: null and error come together. So there is no error yet when the
      pointer has run past the terminator. */
  predicate NullIffError(before: Err, p: Ptr, after: Err) {
    if before.Error? then after == before else p.Null? <==> after.Error?
  }

  lemma {:induction false} NodeReports(kind: Kind, p: Ptr, condense: bool, enc: Encoding, err: Err)
    ensures var r := NodeAt(kind, p, condense, enc, err); Reported(err, r.p, r.err)
    decreases p.Left(), 3
  {
    if kind == ElementKind {
      ElementNullIffError(p, condense, enc, err);
    }
  }

  /** `TiXmlElement::Parse` called with the error clear returns null exactly when it is set on
      return, at every depth; called with an error set, it leaves that error alone. */
  lemma {:induction false} ElementNullIffError(p: Ptr, condense: bool, enc: Encoding, err: Err)
    ensures var r := ElementAt(p, condense, enc, err); NullIffError(err, r.p, r.err)
    decreases p.Left(), 2
  {
    var p0 := AfterWhiteSpace(p, enc);
    if p0.Live() && p0.s[0] == LT {
      var nm := NameAt(AfterWhiteSpace(At(p0.s[1..]), enc));
      if nm.p.Live() {
        TagNullIffError(nm.name, [], nm.p, condense, enc, err);
      }
    }
  }

  lemma {:induction false} TagNullIffError(name: bytes, attrs: seq<Attr>, p: Ptr,
                                           condense: bool, enc: Encoding, err: Err)
    requires p.Live()
    ensures var r := TagAt(name, attrs, p, condense, enc, err); NullIffError(err, r.p, r.err)
    decreases p.Left(), 1
  {
    hide AfterWhiteSpace, AttributeAt, ContentAt, EndTagAt, AttrNames;
    var p0 := AfterWhiteSpace(p, enc);
    if p0.Live() && p0.s[0] == GT {
      var c := ContentAt([], At(p0.s[1..]), condense, enc, err);
      ContentReports([], At(p0.s[1..]), condense, enc, err);
      EndTagReports(name, c.p, enc, c.err);
    } else if p0.Live() && p0.s[0] != SLASH {
      var a := AttributeAt(p0, enc);
      if a.p.Live() && a.attr.name !in AttrNames(attrs) {
        TagNullIffError(name, attrs + [a.attr], a.p, condense, enc, err);
      }
    }
  }

  lemma EndTagReports(name: bytes, p: Ptr, enc: Encoding, err: Err)
    ensures var r := EndTagAt(name, p, enc, err); NullIffError(err, r.p, r.err)
    ensures p.Null? ==> EndTagAt(name, p, enc, err).p.Null?
  {
    hide AfterWhiteSpace;
  }

  lemma {:induction false} ContentReports(kids: seq<Node>, p: Ptr, condense: bool, enc: Encoding, err: Err)
    ensures var r := ContentAt(kids, p, condense, enc, err); Reported(err, r.p, r.err)
    decreases p.Left(), 4
  {
    var p0 := AfterWhiteSpace(p, enc);
    if p0.Live() {
      if p0.s[0] != LT {
        FirstIsNotLt(p, enc);
        var t := PlainTextAt(if condense then p0.s else p.s, condense, enc);
        ContentReports(WithText(kids, t.text), t.p, condense, enc, err);
      } else if !(END_TAG_OPEN <= p0.s) {
        match Identify(p0, enc)
        case NoKind =>
        case Is(kind) =>
          var n := NodeAt(kind, p0, condense, enc, err);
          NodeReports(kind, p0, condense, enc, err);
          ContentReports(kids + [n.node], n.p, condense, enc, n.err);
          if n.p.Null? {
            assert ContentAt(kids + [n.node], n.p, condense, enc, n.err).p.Null?;
          }
      }
    }
  }

  lemma {:induction false} NodesReport(kids: seq<Node>, p: Ptr, condense: bool, enc: Encoding, err: Err)
    ensures var r := NodesAt(kids, p, condense, enc, err);
            (err.Error? ==> r.err == err) && kids <= r.kids
    decreases p.Left()
  {
    if p.Live() && Identify(p, enc).Is? {
      var n := NodeAt(Identify(p, enc).kind, p, condense, enc, err);
      var enc' := EncodingAfter(enc, n.node);
      NodeReports(Identify(p, enc).kind, p, condense, enc, err);
      NodesReport(kids + [n.node], AfterWhiteSpace(n.p, enc'), condense, enc', n.err);
    }
  }

  /** Text in which no node starts leaves the document empty, and that is its error. */
  lemma EmptyDocumentIsAnError(s: bytes, condense: bool, enc: Encoding)
    ensures var r := DocumentAt(s, condense, enc);
            r.kids == [] ==> r == Content([], Null, Error(DocumentEmpty, Nowhere))
  {
    if s != [] {
      var enc0 := StartEncoding(s, enc);
      var p := At(SkipWs(s, enc0));
      if p.Live() && Identify(p, enc0).Is? {
        var n := NodeAt(Identify(p, enc0).kind, p, condense, enc0, NoError);
        var enc' := EncodingAfter(enc0, n.node);
        NodesReport([n.node], AfterWhiteSpace(n.p, enc'), condense, enc', n.err);
        assert [] + [n.node] == [n.node];
      }
    }
  }
}
