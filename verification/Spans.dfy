/** The texts that parsing reads character by character, and exactly when it runs past the terminator
    in one of them. */
module Spans {
  import opened Bytes
  import opened Codec
  import opened Xml
  import opened Parser
  import opened LeafRoundTrip
  import opened ErrorLaws
  import opened Overrun

  /** What `ReadText` is given: the bytes ahead, the end tag and the encoding. */
  datatype Span = Span(s: bytes, tag: bytes, enc: Encoding)

  /** Some character that is read there is cut short. */
  predicate IsCut(span: Span) {
    AnyCut(CharsRead(span.s, span.tag, span.enc), span.enc)
  }

  predicate AnyIsCut(spans: seq<Span>) {
    exists i :: 0 <= i < |spans| && IsCut(spans[i])
  }

  lemma AnyIsCutConcat(a: seq<Span>, b: seq<Span>)
    ensures AnyIsCut(a + b) <==> AnyIsCut(a) || AnyIsCut(b)
  {
    hide IsCut;
    var s := a + b;
    assert forall i :: 0 <= i < |a| ==> s[i] == a[i];
    assert forall i :: 0 <= i < |b| ==> s[|a| + i] == b[i];
  }

  lemma NoneIsCut()
    ensures !AnyIsCut([])
  {
  }

  lemma OneIsCut(span: Span)
    ensures AnyIsCut([span]) <==> IsCut(span)
  {
    hide IsCut;
    assert [span][0] == span;
  }

  // ----- the texts that are read -----

  function ValueSpans(s: bytes, enc: Encoding): seq<Span>
    requires s != []
  {
    if s[0] == APOS || s[0] == QUOT then [Span(s[1..], [s[0]], enc)] else []
  }

  function AttributeSpans(p: Ptr, enc: Encoding): seq<Span> {
    var p0 := AfterWhiteSpace(p, enc);
    var p1 := AfterWhiteSpace(NameAt(p0).p, enc);
    if !p0.Live() || !NameAt(p0).p.Live() || !p1.Live() || p1.s[0] != EQUALS then []
    else
      var p2 := AfterWhiteSpace(At(p1.s[1..]), enc);
      if p2.Live() then ValueSpans(p2.s, enc) else []
  }

  function DeclaredSpans(p: Ptr, enc: Encoding): seq<Span> {
    var p0 := AfterWhiteSpace(p, enc);
    if p0.Live() && (HasPrefixIgnoringCase(p0.s, VERSION) || HasPrefixIgnoringCase(p0.s, ENCODING)
                     || HasPrefixIgnoringCase(p0.s, STANDALONE))
    then AttributeSpans(p0, enc)
    else []
  }

  function DeclarationBodySpans(decl: Node, p: Ptr, enc: Encoding): seq<Span>
    requires decl.Declaration?
    decreases p.Left()
  {
    if !p.Live() || p.s[0] == GT then []
    else
      var r := DeclaredAt(decl, p, enc);
      DeclaredSpans(p, enc) + DeclarationBodySpans(r.decl, r.p, enc)
  }

  function DeclarationSpans(p: Ptr, enc: Encoding): seq<Span> {
    var p0 := AfterWhiteSpace(p, enc);
    if !p0.Live() || !HasPrefixIgnoringCase(p0.s, XML_HEADER) then []
    else DeclarationBodySpans(Declaration([], [], []), At(p0.s[5..]), enc)
  }

  function TextSpans(s: bytes, condense: bool, enc: Encoding): seq<Span> {
    var from := if condense then AfterWhiteSpace(At(s), enc) else At(s);
    if from.At? then [Span(from.s, LT_TAG, enc)] else []
  }

  function NodeSpans(kind: Kind, p: Ptr, condense: bool, enc: Encoding, err: Err): seq<Span>
    decreases p.Left(), 3
  {
    match kind
    case ElementKind => ElementSpans(p, condense, enc, err)
    case DeclarationKind => DeclarationSpans(p, enc)
    case _ => []
  }

  function ElementSpans(p: Ptr, condense: bool, enc: Encoding, err: Err): seq<Span>
    decreases p.Left(), 2
  {
    var p0 := AfterWhiteSpace(p, enc);
    if !p0.Live() || p0.s[0] != LT then []
    else
      var nm := NameAt(AfterWhiteSpace(At(p0.s[1..]), enc));
      if nm.p.Live() then TagSpans(nm.name, [], nm.p, condense, enc, err) else []
  }

  function TagSpans(name: bytes, attrs: seq<Attr>, p: Ptr, condense: bool, enc: Encoding, err: Err): seq<Span>
    requires p.Live()
    decreases p.Left(), 1
  {
    var p0 := AfterWhiteSpace(p, enc);
    if !p0.Live() || p0.s[0] == SLASH then []
    else if p0.s[0] == GT then ContentSpans([], At(p0.s[1..]), condense, enc, err)
    else
      var a := AttributeAt(p0, enc);
      AttributeSpans(p0, enc)
      + if a.p.Live() && a.attr.name !in AttrNames(attrs)
        then TagSpans(name, attrs + [a.attr], a.p, condense, enc, err) else []
  }

  function ContentSpans(kids: seq<Node>, p: Ptr, condense: bool, enc: Encoding, err: Err): seq<Span>
    decreases p.Left(), 4
  {
    var p0 := AfterWhiteSpace(p, enc);
    if !p0.Live() then []
    else if p0.s[0] != LT then
      FirstIsNotLt(p, enc);
      var s := if condense then p0.s else p.s;
      var t := PlainTextAt(s, condense, enc);
      TextSpans(s, condense, enc) + ContentSpans(WithText(kids, t.text), t.p, condense, enc, err)
    else if END_TAG_OPEN <= p0.s then []
    else
      match Identify(p0, enc)
      case NoKind => []
      case Is(kind) =>
        var n := NodeAt(kind, p0, condense, enc, err);
        NodeSpans(kind, p0, condense, enc, err) + ContentSpans(kids + [n.node], n.p, condense, enc, n.err)
  }

  function NodesSpans(p: Ptr, condense: bool, enc: Encoding, err: Err): seq<Span>
    decreases p.Left()
  {
    if !p.Live() then []
    else
      match Identify(p, enc)
      case NoKind => []
      case Is(kind) =>
        var n := NodeAt(kind, p, condense, enc, err);
        var enc' := EncodingAfter(enc, n.node);
        NodeSpans(kind, p, condense, enc, err) + NodesSpans(AfterWhiteSpace(n.p, enc'), condense, enc', n.err)
  }

  function DocumentSpans(s: bytes, condense: bool, enc: Encoding): seq<Span> {
    var enc0 := StartEncoding(s, enc);
    NodesSpans(At(SkipWs(s, enc0)), condense, enc0, NoError)
  }

  // ----- exactly when parsing overruns -----

  lemma AttributeOverrunsIff(p: Ptr, enc: Encoding)
    requires !p.Wild?
    ensures AttributeAt(p, enc).p.Wild? <==> AnyIsCut(AttributeSpans(p, enc))
  {
    NoneIsCut();
    var p0 := AfterWhiteSpace(p, enc);
    var nm := NameAt(p0);
    var p1 := AfterWhiteSpace(nm.p, enc);
    if p0.Live() && nm.p.Live() && p1.Live() && p1.s[0] == EQUALS {
      var p2 := AfterWhiteSpace(At(p1.s[1..]), enc);
      if p2.Live() {
        ValueOverrunsIff(nm.name, p2.s, enc);
      }
    }
    hide AfterWhiteSpace, NameAt, ValueAt, ValueSpans, AnyIsCut;
  }

  lemma ValueOverrunsIff(name: bytes, s: bytes, enc: Encoding)
    requires s != []
    ensures ValueAt(name, s, enc).p.Wild? <==> AnyIsCut(ValueSpans(s, enc))
  {
    NoneIsCut();
    if s[0] == APOS || s[0] == QUOT {
      TextOverrunsIffCut(At(s[1..]), false, [s[0]], enc);
      OneIsCut(Span(s[1..], [s[0]], enc));
    }
  }

  lemma DeclaredOverrunsIff(decl: Node, p: Ptr, enc: Encoding)
    requires decl.Declaration? && p.Live() && p.s[0] != GT
    ensures DeclaredAt(decl, p, enc).p.Wild? <==> AnyIsCut(DeclaredSpans(p, enc))
  {
    NoneIsCut();
    AttributeOverrunsIff(AfterWhiteSpace(p, enc), enc);
    hide AttributeAt, AttributeSpans, AfterWhiteSpace, AnyIsCut, HasPrefixIgnoringCase, CStr;
  }

  lemma {:induction false} DeclarationBodyOverrunsIff(decl: Node, p: Ptr, enc: Encoding, err: Err)
    requires decl.Declaration? && !p.Wild?
    ensures DeclarationBodyAt(decl, p, enc, err).p.Wild? <==> AnyIsCut(DeclarationBodySpans(decl, p, enc))
    decreases p.Left()
  {
    hide DeclaredAt, DeclaredSpans, AnyIsCut;
    NoneIsCut();
    if p.Live() && p.s[0] != GT {
      var r := DeclaredAt(decl, p, enc);
      DeclaredOverrunsIff(decl, p, enc);
      AnyIsCutConcat(DeclaredSpans(p, enc), DeclarationBodySpans(r.decl, r.p, enc));
      if !r.p.Wild? {
        DeclarationBodyOverrunsIff(r.decl, r.p, enc, err);
      }
    }
  }

  lemma DeclarationOverrunsIff(p: Ptr, enc: Encoding, err: Err)
    ensures DeclarationAt(p, enc, err).p.Wild? <==> AnyIsCut(DeclarationSpans(p, enc))
  {
    NoneIsCut();
    var p0 := AfterWhiteSpace(p, enc);
    if p0.Live() && HasPrefixIgnoringCase(p0.s, XML_HEADER) {
      DeclarationBodyOverrunsIff(Declaration([], [], []), At(p0.s[5..]), enc, err);
    }
    hide DeclarationBodyAt, DeclarationBodySpans, AfterWhiteSpace, AnyIsCut;
  }

  /** A CDATA section is copied byte by byte, and no character behind it is read. */
  lemma CdataStaysInside(p: Ptr, enc: Encoding, err: Err)
    ensures !CdataAt(p, enc, err).p.Wild?
  {
    if p.Live() && CDATA_OPEN <= p.s {
      var body := p.s[9..];
      var n := FindTag(body, CDATA_CLOSE);
      assert n == |body| ==> body[n..] == [];
      assert n < |body| ==> CDATA_CLOSE <= body[n..];
      hide FindTag;
    }
  }

  lemma TextIsCutIff(s: bytes, condense: bool, enc: Encoding)
    requires s != [] && s[0] != LT
    ensures PlainTextAt(s, condense, enc).p.Wild? <==> AnyIsCut(TextSpans(s, condense, enc))
  {
    NoneIsCut();
    TextOverrunsIffCut(At(s), condense, LT_TAG, enc);
    var from := if condense then AfterWhiteSpace(At(s), enc) else At(s);
    if from.At? {
      OneIsCut(Span(from.s, LT_TAG, enc));
    }
    hide TextAt, AfterWhiteSpace, AnyIsCut;
  }

  /** A node runs past the terminator exactly when a character of a text it reads is cut short. */
  lemma {:induction false} NodeOverrunsIff(kind: Kind, p: Ptr, condense: bool, enc: Encoding, err: Err)
    requires p.Live()
    ensures NodeAt(kind, p, condense, enc, err).p.Wild? <==> AnyIsCut(NodeSpans(kind, p, condense, enc, err))
    decreases p.Left(), 3
  {
    hide AnyIsCut;
    NoneIsCut();
    match kind
    case ElementKind => ElementOverrunsIff(p, condense, enc, err);
    case DeclarationKind => DeclarationOverrunsIff(p, enc, err);
    case CdataKind => CdataStaysInside(p, enc, err);
    case _ =>
  }

  lemma {:induction false} ElementOverrunsIff(p: Ptr, condense: bool, enc: Encoding, err: Err)
    requires p.Live()
    ensures ElementAt(p, condense, enc, err).p.Wild? <==> AnyIsCut(ElementSpans(p, condense, enc, err))
    decreases p.Left(), 2
  {
    hide AnyIsCut;
    NoneIsCut();
    var p0 := AfterWhiteSpace(p, enc);
    if p0.Live() && p0.s[0] == LT {
      var nm := NameAt(AfterWhiteSpace(At(p0.s[1..]), enc));
      if nm.p.Live() {
        TagOverrunsIff(nm.name, [], nm.p, condense, enc, err);
      }
    }
    hide AfterWhiteSpace, NameAt, TagAt, TagSpans;
  }

  lemma {:induction false} TagOverrunsIff(name: bytes, attrs: seq<Attr>, p: Ptr,
                                          condense: bool, enc: Encoding, err: Err)
    requires p.Live()
    ensures TagAt(name, attrs, p, condense, enc, err).p.Wild?
            <==> AnyIsCut(TagSpans(name, attrs, p, condense, enc, err))
    decreases p.Left(), 1
  {
    hide AnyIsCut, AfterWhiteSpace, AttributeAt, AttributeSpans, ContentAt, ContentSpans, EndTagAt, AttrNames;
    NoneIsCut();
    var p0 := AfterWhiteSpace(p, enc);
    if p0.Live() && p0.s[0] == GT {
      var c := ContentAt([], At(p0.s[1..]), condense, enc, err);
      ContentOverrunsIff([], At(p0.s[1..]), condense, enc, err);
      EndTagOverrunsIff(name, c.p, enc, c.err);
    } else if p0.Live() && p0.s[0] != SLASH {
      var a := AttributeAt(p0, enc);
      AttributeOverrunsIff(p0, enc);
      if a.p.Live() && a.attr.name !in AttrNames(attrs) {
        TagOverrunsIff(name, attrs + [a.attr], a.p, condense, enc, err);
        AnyIsCutConcat(AttributeSpans(p0, enc), TagSpans(name, attrs + [a.attr], a.p, condense, enc, err));
      } else {
        AnyIsCutConcat(AttributeSpans(p0, enc), []);
      }
    }
  }

  lemma EndTagOverrunsIff(name: bytes, p: Ptr, enc: Encoding, err: Err)
    ensures EndTagAt(name, p, enc, err).p.Wild? <==> p.Wild?
  {
  }

  lemma {:induction false} ContentOverrunsIff(kids: seq<Node>, p: Ptr, condense: bool, enc: Encoding, err: Err)
    requires !p.Wild?
    ensures ContentAt(kids, p, condense, enc, err).p.Wild? <==> AnyIsCut(ContentSpans(kids, p, condense, enc, err))
    decreases p.Left(), 4
  {
    hide AnyIsCut, AfterWhiteSpace, PlainTextAt, TextSpans, WithText, NodeAt, NodeSpans, Identify;
    hide ContentAt, ContentSpans;
    NoneIsCut();
    NoContent(kids, p, condense, enc, err);
    var p0 := AfterWhiteSpace(p, enc);
    if p0.Live() {
      if p0.s[0] != LT {
        ContentOfText(kids, p, condense, enc, err);
        var s := if condense then p0.s else p.s;
        var t := PlainTextAt(s, condense, enc);
        var kids' := WithText(kids, t.text);
        TextIsCutIff(s, condense, enc);
        WildContent(kids', condense, enc, err);
        if !t.p.Wild? {
          ContentOverrunsIff(kids', t.p, condense, enc, err);
        }
        AnyIsCutConcat(TextSpans(s, condense, enc), ContentSpans(kids', t.p, condense, enc, err));
      } else if !(END_TAG_OPEN <= p0.s) && Identify(p0, enc).Is? {
        ContentOfNode(kids, p, condense, enc, err);
        var kind := Identify(p0, enc).kind;
        var n := NodeAt(kind, p0, condense, enc, err);
        var kids' := kids + [n.node];
        NodeOverrunsIff(kind, p0, condense, enc, err);
        WildContent(kids', condense, enc, n.err);
        if !n.p.Wild? {
          ContentOverrunsIff(kids', n.p, condense, enc, n.err);
        }
        AnyIsCutConcat(NodeSpans(kind, p0, condense, enc, err), ContentSpans(kids', n.p, condense, enc, n.err));
      }
    }
  }

  lemma NoContent(kids: seq<Node>, p: Ptr, condense: bool, enc: Encoding, err: Err)
    requires !p.Wild?
    ensures var p0 := AfterWhiteSpace(p, enc);
            (!p0.Live() || (p0.s[0] == LT && (END_TAG_OPEN <= p0.s || !Identify(p0, enc).Is?))) ==>
              !ContentAt(kids, p, condense, enc, err).p.Wild? && ContentSpans(kids, p, condense, enc, err) == []
  {
    hide PlainTextAt, NodeAt, NodeSpans, Identify, SkipWs;
  }

  lemma ContentOfText(kids: seq<Node>, p: Ptr, condense: bool, enc: Encoding, err: Err)
    requires var p0 := AfterWhiteSpace(p, enc); p0.Live() && p0.s[0] != LT
    ensures var p0 := AfterWhiteSpace(p, enc);
            p.Live() && p.s[0] != LT &&
            var s := if condense then p0.s else p.s;
            var t := PlainTextAt(s, condense, enc);
            var kids' := WithText(kids, t.text);
            |s| <= |p.s| && ContentAt(kids, p, condense, enc, err) == ContentAt(kids', t.p, condense, enc, err) &&
            ContentSpans(kids, p, condense, enc, err)
            == TextSpans(s, condense, enc) + ContentSpans(kids', t.p, condense, enc, err)
  {
    FirstIsNotLt(p, enc);
    hide AfterWhiteSpace, PlainTextAt, TextSpans, WithText;
  }

  lemma ContentOfNode(kids: seq<Node>, p: Ptr, condense: bool, enc: Encoding, err: Err)
    requires var p0 := AfterWhiteSpace(p, enc);
             p0.Live() && p0.s[0] == LT && !(END_TAG_OPEN <= p0.s) && Identify(p0, enc).Is?
    ensures var p0 := AfterWhiteSpace(p, enc);
            var kind := Identify(p0, enc).kind;
            var n := NodeAt(kind, p0, condense, enc, err);
            var kids' := kids + [n.node];
            ContentAt(kids, p, condense, enc, err) == ContentAt(kids', n.p, condense, enc, n.err) &&
            ContentSpans(kids, p, condense, enc, err)
            == NodeSpans(kind, p0, condense, enc, err) + ContentSpans(kids', n.p, condense, enc, n.err)
  {
    hide AfterWhiteSpace, NodeAt, NodeSpans, Identify;
  }

  lemma WildContent(kids: seq<Node>, condense: bool, enc: Encoding, err: Err)
    ensures ContentAt(kids, Wild, condense, enc, err).p.Wild?
  {
  }

  lemma {:induction false} NodesOverrunIff(kids: seq<Node>, p: Ptr, condense: bool, enc: Encoding, err: Err)
    requires !p.Wild?
    ensures NodesAt(kids, p, condense, enc, err).p.Wild? <==> AnyIsCut(NodesSpans(p, condense, enc, err))
    decreases p.Left()
  {
    hide AnyIsCut;
    NoneIsCut();
    if p.Live() && Identify(p, enc).Is? {
      var kind := Identify(p, enc).kind;
      var n := NodeAt(kind, p, condense, enc, err);
      var enc' := EncodingAfter(enc, n.node);
      var q := AfterWhiteSpace(n.p, enc');
      NodeOverrunsIff(kind, p, condense, enc, err);
      assert q.Wild? <==> n.p.Wild?;
      hide NodeAt, Identify, EncodingAfter, NodeSpans, AfterWhiteSpace;
      if !q.Wild? {
        NodesOverrunIff(kids + [n.node], q, condense, enc', n.err);
      }
      AnyIsCutConcat(NodeSpans(kind, p, condense, enc, err), NodesSpans(q, condense, enc', n.err));
    }
  }

  /** Parsing a document runs past the terminator exactly when a character of a text it reads is cut
      short by the end of the document. */
  lemma DocumentOverrunsIff(s: bytes, condense: bool, enc: Encoding)
    requires s != []
    ensures DocumentAt(s, condense, enc).p.Wild? <==> AnyIsCut(DocumentSpans(s, condense, enc))
  {
    var enc0 := StartEncoding(s, enc);
    var p := At(SkipWs(s, enc0));
    NodesOverrunIff([], p, condense, enc0, NoError);
    var r := NodesAt([], p, condense, enc0, NoError);
    if r.kids == [] {
      NothingRead(p, condense, enc0);
    }
    hide NodesAt, NodesSpans, SkipWs, AnyIsCut;
  }

  /** A parse that finds no node is not lost. */
  lemma NothingRead(p: Ptr, condense: bool, enc: Encoding)
    requires NodesAt([], p, condense, enc, NoError).kids == [] && !p.Wild?
    ensures !NodesAt([], p, condense, enc, NoError).p.Wild?
  {
    if p.Live() && Identify(p, enc).Is? {
      var n := NodeAt(Identify(p, enc).kind, p, condense, enc, NoError);
      var enc' := EncodingAfter(enc, n.node);
      NodesReport([n.node], AfterWhiteSpace(n.p, enc'), condense, enc', n.err);
      assert [] + [n.node] == [n.node];
    }
    hide NodeAt, Identify, EncodingAfter;
  }
}
