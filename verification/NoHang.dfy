/** Parsing that reports no error never hangs in a stamp: every place it stamps has two more bytes
    ahead, so no 0xEF in front of it is cut short, or is a '<' that no 0xEF stands in front of. */
module NoHang {
  import opened Bytes
  import opened Codec
  import opened Xml
  import opened Parser
  import opened Printer
  import opened LeafRoundTrip
  import opened RoundTrip
  import opened DocumentRoundTrip
  import opened Consumed
  import opened ErrorLaws
  import opened Soundness
  import opened Cursor
  import opened Stamps

  /** Two bytes or more are ahead of every place. */
  predicate Clear(places: seq<nat>) {
    forall i :: 0 <= i < |places| ==> places[i] >= 2
  }

  lemma ClearConcat(a: seq<nat>, b: seq<nat>)
    ensures Clear(a + b) <==> Clear(a) && Clear(b)
  {
    var s := a + b;
    assert forall i :: 0 <= i < |a| ==> s[i] == a[i];
    assert forall i :: 0 <= i < |b| ==> s[|a| + i] == b[i];
  }

  // ----- the places of a parse that succeeds -----

  lemma {:induction false} DeclarationBodyPlaces(p: Ptr, enc: Encoding)
    ensures Clear(DeclarationBodyStamps(p, enc))
    decreases p.Left()
  {
    hide AttributeAt;
    if p.Live() && p.s[0] != GT {
      var p0 := AfterWhiteSpace(p, enc);
      if p0.Live() && (HasPrefixIgnoringCase(p0.s, VERSION) || HasPrefixIgnoringCase(p0.s, ENCODING)
                       || HasPrefixIgnoringCase(p0.s, STANDALONE)) {
        SkipWsTwice(p, enc);
        hide AfterWhiteSpace;
        DeclarationBodyPlaces(AttributeAt(p0, enc).p, enc);
        ClearConcat(NameStamps(p0, enc), DeclarationBodyStamps(AttributeAt(p0, enc).p, enc));
      } else {
        DeclarationBodyPlaces(At(p0.s[JunkLength(p0.s)..]), enc);
      }
    }
  }

  lemma {:induction false} NodePlaces(kind: Kind, p: Ptr, condense: bool, enc: Encoding, err: Err)
    requires p.Live() && |p.s| >= 2 && AfterWhiteSpace(p, enc) == p && Identify(p, enc) == Is(kind)
    requires kind == ElementKind ==> NodeAt(kind, p, condense, enc, err).p.At?
    ensures Clear(NodeStamps(kind, p, condense, enc, err))
    decreases p.Left(), 3
  {
    match kind
    case ElementKind => ElementPlaces(p, condense, enc, err);
    case DeclarationKind =>
      DeclarationBodyPlaces(At(p.s[5..]), enc);
      hide AfterWhiteSpace, DeclarationBodyStamps;
      ClearConcat(PlacesOf(p), DeclarationBodyStamps(At(p.s[5..]), enc));
    case _ => hide AfterWhiteSpace, TextAt, FindTag, IndexFrom;
  }

  lemma {:induction false} ElementPlaces(p: Ptr, condense: bool, enc: Encoding, err: Err)
    requires ElementAt(p, condense, enc, err).p.At?
    ensures Clear(ElementStamps(p, condense, enc, err))
    decreases p.Left(), 2
  {
    var p0 := AfterWhiteSpace(p, enc);
    var p1 := AfterWhiteSpace(At(p0.s[1..]), enc);
    var nm := NameAt(p1);
    TagPlaces(nm.name, [], nm.p, condense, enc, err);
    hide AfterWhiteSpace, NameAt, TagAt, TagStamps;
    ClearConcat(PlacesOf(p0), TagStamps(nm.name, [], nm.p, condense, enc, err));
  }

  lemma {:induction false} TagPlaces(name: bytes, attrs: seq<Attr>, p: Ptr, condense: bool, enc: Encoding, err: Err)
    requires p.Live() && TagAt(name, attrs, p, condense, enc, err).p.At?
    ensures Clear(TagStamps(name, attrs, p, condense, enc, err))
    decreases p.Left(), 1
  {
    var p0 := AfterWhiteSpace(p, enc);
    SkipWsTwice(p, enc);
    hide AfterWhiteSpace, ContentAt, ContentStamps, AttributeAt, EndTagAt, AttrNames;
    if p0.s[0] == GT {
      var c := ContentAt([], At(p0.s[1..]), condense, enc, err);
      EndTagFound(name, c.p, enc, c.err);
      ContentPlaces([], At(p0.s[1..]), condense, enc, err);
      ClearConcat(ContentStamps(At(p0.s[1..]), condense, enc, err), EndTagStamps(name, c.p, enc, c.err));
    } else if p0.s[0] != SLASH {
      var a := AttributeAt(p0, enc);
      TagPlaces(name, attrs + [a.attr], a.p, condense, enc, err);
      ClearConcat(AttributeStamps(attrs, p0, enc, err), TagStamps(name, attrs + [a.attr], a.p, condense, enc, err));
    }
  }

  lemma EndTagFound(name: bytes, p: Ptr, enc: Encoding, err: Err)
    requires EndTagAt(name, p, enc, err).p.At?
    ensures p.Live() && EndTagAt(name, p, enc, err).err == err
  {
  }

  lemma {:induction false} ContentPlaces(kids: seq<Node>, p: Ptr, condense: bool, enc: Encoding, err: Err)
    requires ContentAt(kids, p, condense, enc, err).p.Live()
    ensures Clear(ContentStamps(p, condense, enc, err))
    decreases p.Left(), 4
  {
    var p0 := AfterWhiteSpace(p, enc);
    if p0.Live() {
      if p0.s[0] != LT {
        FirstIsNotLt(p, enc);
        var s := if condense then p0.s else p.s;
        var t := PlainTextAt(s, condense, enc);
        hide AfterWhiteSpace, PlainTextAt, WithText;
        ContentPlaces(WithText(kids, t.text), t.p, condense, enc, err);
        ClearConcat([|s|], ContentStamps(t.p, condense, enc, err));
      } else if !(END_TAG_OPEN <= p0.s) {
        SkipWsTwice(p, enc);
        var kind := Identify(p0, enc).kind;
        var n := NodeAt(kind, p0, condense, enc, err);
        hide AfterWhiteSpace, NodeAt, Identify, NodeStamps;
        GoesOn(kids + [n.node], n.p, condense, enc, n.err);
        NodePlaces(kind, p0, condense, enc, err);
        ContentPlaces(kids + [n.node], n.p, condense, enc, n.err);
        ClearConcat(MarkupStamps(p0, condense, enc, err), StampsAfter(p0, condense, enc, err));
      }
    }
  }

  lemma GoesOn(kids: seq<Node>, p: Ptr, condense: bool, enc: Encoding, err: Err)
    requires ContentAt(kids, p, condense, enc, err).p.At?
    ensures p.At?
  {
  }

  // ----- what that means for the cursor -----

  lemma {:induction false} VisitedBefore(text: bytes, p: nat, now: nat, enc: Encoding)
    requires now <= |text|
    ensures forall i :: 0 <= i < |Visited(text, p, now, enc)| ==> Visited(text, p, now, enc)[i] < now
    decreases |text| - p
  {
    if p < now && Width(text, p, enc) != 0 {
      VisitedBefore(text, p + Width(text, p, enc), now, enc);
    }
  }

  lemma ClearStampEnds(text: bytes, m: Mark, now: nat, tab: int, enc: Encoding)
    requires now == 0 || now + 2 <= |text|
    requires tab >= 1
    ensures Stamped(text, m, now, tab, enc).To?
  {
    if now > 0 {
      StuckIffCutShort(text, m, now, tab, enc);
      VisitedBefore(text, m.at, now, enc);
    }
  }

  lemma {:induction false} ClearNeverHangs(text: bytes, m: Mark, places: seq<nat>, tab: int, enc: Encoding)
    requires Clear(places)
    ensures Follow(text, To(m), places, tab, enc).To?
    decreases |places|
  {
    if places == [] {
    } else {
      if tab >= 1 {
        ClearStampEnds(text, m, Spots(text, places)[0], tab, enc);
      }
      hide Stamped;
      ClearNeverHangs(text, Step1(text, To(m), places[0], tab, enc).mark, places[1..], tab, enc);
    }
  }

  // ----- what stands in front of a node -----

  /** The byte in front of the last k. */
  function InFront(s: bytes, k: nat): byte
    requires k < |s|
  {
    s[|s| - k - 1]
  }

  lemma SameInFront(s: bytes, t: bytes, k: nat)
    requires Suffix(t, s) && k < |t|
    ensures |t| <= |s| && InFront(s, k) == InFront(t, k)
  {
    assert t[|t| - k - 1] == s[|s| - |t|..][|t| - k - 1];
  }

  /** If anything is ahead of q, the byte in front of it is a '>'. */
  predicate BehindGt(q: Ptr, p: Ptr) {
    q.Live() ==> p.At? && Suffix(q.s, p.s) && |q.s| < |p.s| && InFront(p.s, |q.s|) == GT
  }

  lemma BehindAhead(r: Ptr, q: Ptr, p: Ptr)
    requires BehindGt(r, q) && Ahead(q, p)
    ensures BehindGt(r, p)
  {
    if r.Live() {
      SuffixTrans(r.s, q.s, p.s);
      SameInFront(p.s, q.s, |r.s|);
      hide Suffix, InFront;
    }
  }

  lemma BehindDrop(p: Ptr, k: nat)
    requires p.At? && 0 < k <= |p.s| && p.s[k - 1] == GT
    ensures BehindGt(At(p.s[k..]), p)
  {
    DropIsSuffix(p.s, k);
  }

  lemma CommentBehind(p: Ptr, enc: Encoding, err: Err)
    ensures BehindGt(CommentAt(p, enc, err).p, p)
  {
    var p0 := AfterWhiteSpace(p, enc);
    if p0.Live() && COMMENT_OPEN <= p0.s {
      var body := p0.s[4..];
      var n := FindTag(body, COMMENT_CLOSE);
      WhiteSpaceAhead(p, enc);
      if n < |body| {
        assert body[n..][2] == COMMENT_CLOSE[2] && p0.s[n + 7..] == body[n + 3..];
        BehindDrop(p0, n + 7);
        hide AfterWhiteSpace, FindTag;
        BehindAhead(At(p0.s[n + 7..]), p0, p);
      }
    }
  }

  lemma CdataBehind(p: Ptr, enc: Encoding, err: Err)
    ensures BehindGt(CdataAt(p, enc, err).p, p)
  {
    if p.Live() && CDATA_OPEN <= p.s {
      var body := p.s[9..];
      var n := FindTag(body, CDATA_CLOSE);
      if n < |body| {
        assert body[n..][2] == CDATA_CLOSE[2] && p.s[n + 12..] == body[n..][3..];
        BehindDrop(p, n + 12);
        AtItsTag(body[n..], CDATA_CLOSE, enc);
        hide TextAt, FindTag;
      }
    }
  }

  lemma UnrecognizedBehind(p: Ptr, enc: Encoding, err: Err)
    ensures BehindGt(UnrecognizedAt(p, enc, err).p, p)
  {
    var p0 := AfterWhiteSpace(p, enc);
    if p0.Live() && p0.s[0] == LT {
      var n := IndexFrom(p0.s, 1, GT);
      WhiteSpaceAhead(p, enc);
      hide AfterWhiteSpace;
      if n < |p0.s| {
        BehindDrop(p0, n + 1);
        BehindAhead(At(p0.s[n + 1..]), p0, p);
      }
    }
  }

  lemma {:induction false} DeclarationBodyBehind(decl: Node, p: Ptr, enc: Encoding, err: Err)
    requires decl.Declaration?
    ensures BehindGt(DeclarationBodyAt(decl, p, enc, err).p, p)
    decreases p.Left()
  {
    hide DeclaredAt;
    if p.Live() && p.s[0] != GT {
      var r := DeclaredAt(decl, p, enc);
      DeclaredAhead(decl, p, enc);
      DeclarationBodyBehind(r.decl, r.p, enc, err);
      BehindAhead(DeclarationBodyAt(decl, p, enc, err).p, r.p, p);
    } else if p.Live() {
      BehindDrop(p, 1);
    }
  }

  lemma DeclarationBehind(p: Ptr, enc: Encoding, err: Err)
    ensures BehindGt(DeclarationAt(p, enc, err).p, p)
  {
    var p0 := AfterWhiteSpace(p, enc);
    if p0.Live() && HasPrefixIgnoringCase(p0.s, XML_HEADER) {
      var r := DeclarationAt(p, enc, err).p;
      DeclarationBodyBehind(Declaration([], [], []), At(p0.s[5..]), enc, err);
      WhiteSpaceAhead(p, enc);
      hide DeclarationBodyAt, AfterWhiteSpace;
      DropIsSuffix(p0.s, 5);
      BehindAhead(r, At(p0.s[5..]), p0);
      BehindAhead(r, p0, p);
    }
  }

  lemma EndTagBehind(name: bytes, p: Ptr, enc: Encoding, err: Err)
    ensures BehindGt(EndTagAt(name, p, enc, err).p, p)
  {
    var r := EndTagAt(name, p, enc, err).p;
    if r.At? {
      var k := |END_TAG_OPEN + name|;
      var p0 := AfterWhiteSpace(At(p.s[k..]), enc);
      WhiteSpaceAhead(At(p.s[k..]), enc);
      assert r.s == p0.s[1..];
      hide AfterWhiteSpace;
      BehindDrop(p0, 1);
      BehindAhead(r, p0, At(p.s[k..]));
      DropIsSuffix(p.s, k);
      BehindAhead(r, At(p.s[k..]), p);
    }
  }

  lemma {:induction false} TagBehind(name: bytes, attrs: seq<Attr>, p: Ptr, condense: bool, enc: Encoding, err: Err)
    requires p.Live()
    ensures BehindGt(TagAt(name, attrs, p, condense, enc, err).p, p)
    decreases p.Left()
  {
    hide AfterWhiteSpace, AttributeAt, ContentAt, EndTagAt, Suffix, AttrNames;
    var r := TagAt(name, attrs, p, condense, enc, err).p;
    var p0 := AfterWhiteSpace(p, enc);
    WhiteSpaceAhead(p, enc);
    if r.At? {
      if p0.s[0] == SLASH {
        BehindDrop(p0, 2);
      } else if p0.s[0] == GT {
        var c := ContentAt([], At(p0.s[1..]), condense, enc, err);
        ContentAhead([], At(p0.s[1..]), condense, enc, err);
        EndTagBehind(name, c.p, enc, c.err);
        BehindAhead(r, c.p, At(p0.s[1..]));
        DropIsSuffix(p0.s, 1);
        BehindAhead(r, At(p0.s[1..]), p0);
      } else {
        var a := AttributeAt(p0, enc);
        AttributeAhead(p0, enc);
        TagBehind(name, attrs + [a.attr], a.p, condense, enc, err);
        BehindAhead(r, a.p, p0);
      }
      BehindAhead(r, p0, p);
    }
  }

  lemma ElementBehind(p: Ptr, condense: bool, enc: Encoding, err: Err)
    ensures BehindGt(ElementAt(p, condense, enc, err).p, p)
  {
    var r := ElementAt(p, condense, enc, err).p;
    var p0 := AfterWhiteSpace(p, enc);
    if p0.Live() && p0.s[0] == LT {
      var p1 := AfterWhiteSpace(At(p0.s[1..]), enc);
      var nm := NameAt(p1);
      if nm.p.Live() {
        TagBehind(nm.name, [], nm.p, condense, enc, err);
        WhiteSpaceAhead(p, enc);
        WhiteSpaceAhead(At(p0.s[1..]), enc);
        assert nm.p.s == p1.s[|nm.name|..];
        hide TagAt, AfterWhiteSpace, NameAt;
        DropIsSuffix(p1.s, |nm.name|);
        DropIsSuffix(p0.s, 1);
        BehindAhead(r, nm.p, p1);
        BehindAhead(r, p1, At(p0.s[1..]));
        BehindAhead(r, At(p0.s[1..]), p0);
        BehindAhead(r, p0, p);
      }
    }
  }

  lemma NodeBehind(kind: Kind, p: Ptr, condense: bool, enc: Encoding, err: Err)
    ensures BehindGt(NodeAt(kind, p, condense, enc, err).p, p)
  {
    match kind
    case ElementKind => ElementBehind(p, condense, enc, err);
    case CommentKind => CommentBehind(p, enc, err);
    case CdataKind => CdataBehind(p, enc, err);
    case DeclarationKind => DeclarationBehind(p, enc, err);
    case UnrecognizedKind => UnrecognizedBehind(p, enc, err);
  }

  /** Nothing that is skipped as white space ends in 0xEF. */
  lemma {:induction false} SkippedEnd(s: bytes, enc: Encoding)
    ensures var k := |SkipWs(s, enc)|; k == |s| || (k < |s| && InFront(s, k) != 0xEF)
    decreases |s|
  {
    if s == [] {
    } else {
      if enc == Utf8 && IsMark(s) {
        SkippedEnd(s[3..], enc);
        SkippedInFront(s, 3, |SkipWs(s[3..], enc)|);
      } else if IsSpace(s[0]) {
        SkippedEnd(s[1..], enc);
        SkippedInFront(s, 1, |SkipWs(s[1..], enc)|);
      }
    }
  }

  lemma SkippedInFront(s: bytes, n: nat, k: nat)
    requires 0 < n <= |s| && s[n - 1] != 0xEF && k <= |s| - n
    requires k == |s[n..]| || InFront(s[n..], k) != 0xEF
    ensures k < |s| && InFront(s, k) != 0xEF
  {
    if k < |s[n..]| {
      DropIsSuffix(s, n);
      SameInFront(s, s[n..], k);
    }
  }

  /** p is where the text starts, or the byte in front of it is not 0xEF. */
  predicate Reached(text: bytes, p: Ptr) {
    p.Live() ==> Suffix(p.s, text) && (|p.s| == |text| || (|p.s| < |text| && InFront(text, |p.s|) != 0xEF))
  }

  lemma ReachedNext(text: bytes, p: Ptr, r: Ptr, enc: Encoding)
    requires Reached(text, p) && p.Live() && BehindGt(r, p)
    ensures Reached(text, AfterWhiteSpace(r, enc))
  {
    var q := AfterWhiteSpace(r, enc);
    if q.Live() {
      SkippedEnd(r.s, enc);
      SkipWsAhead(r.s, enc);
      SuffixTrans(r.s, p.s, text);
      SuffixTrans(q.s, r.s, text);
      hide SkipWs, Suffix, InFront;
      SameInFront(text, p.s, |r.s|);
      if |q.s| < |r.s| {
        SameInFront(text, r.s, |q.s|);
      }
    }
  }

  /** The stamps of a node at document level, where the parse of it reports no error. */
  lemma NodeNeverHangs(text: bytes, m: Mark, kind: Kind, p: Ptr, condense: bool, enc: Encoding, tab: int)
    requires p.Live() && Reached(text, p) && AfterWhiteSpace(p, enc) == p && Identify(p, enc) == Is(kind)
    requires kind == ElementKind ==> NodeAt(kind, p, condense, enc, NoError).p.At?
    ensures Follow(text, To(m), NodeStamps(kind, p, condense, enc, NoError), tab, enc).To?
  {
    if |p.s| >= 2 {
      NodePlaces(kind, p, condense, enc, NoError);
      ClearNeverHangs(text, m, NodeStamps(kind, p, condense, enc, NoError), tab, enc);
    } else {
      LastByte(kind, p, condense, enc);
      hide NodeStamps, NodeAt, Identify, AfterWhiteSpace;
      FollowOne(text, To(m), 1, tab, enc);
      if tab >= 1 {
        LastStampEnds(text, m, tab, enc);
      }
    }
  }

  lemma LastByte(kind: Kind, p: Ptr, condense: bool, enc: Encoding)
    requires p.Live() && |p.s| == 1 && AfterWhiteSpace(p, enc) == p && Identify(p, enc) == Is(kind)
    ensures NodeStamps(kind, p, condense, enc, NoError) == [1]
  {
    hide AfterWhiteSpace;
  }

  lemma LastStampEnds(text: bytes, m: Mark, tab: int, enc: Encoding)
    requires text != [] && tab >= 1 && (|text| == 1 || text[|text| - 2] != 0xEF)
    ensures Stamped(text, m, |text| - 1, tab, enc).To?
  {
    StuckIffCutShort(text, m, |text| - 1, tab, enc);
    VisitedBefore(text, m.at, |text| - 1, enc);
  }

  // ----- documents -----

  lemma {:induction false} NodesRunEndsWithoutError(text: bytes, m: Mark, kids: seq<Node>, p: Ptr, condense: bool,
                                                    enc: Encoding, tab: int)
    requires Reached(text, p) && (p.Live() ==> AfterWhiteSpace(p, enc) == p)
    requires NodesAt(kids, p, condense, enc, NoError).err == NoError
    requires !NodesAt(kids, p, condense, enc, NoError).p.Wild?
    ensures NodesRun(text, To(m), p, condense, enc, NoError, tab).To?
    decreases p.Left()
  {
    if p.Live() && Identify(p, enc).Is? {
      var kind := Identify(p, enc).kind;
      var n := NodeAt(kind, p, condense, enc, NoError);
      var enc' := EncodingAfter(enc, n.node);
      var q := AfterWhiteSpace(n.p, enc');
      NodeDone(kids, p, condense, enc);
      SkipWsTwice(n.p, enc');
      NodeBehind(kind, p, condense, enc, NoError);
      ReachedNext(text, p, n.p, enc');
      NodeNeverHangs(text, m, kind, p, condense, enc, tab);
      hide NodeAt, Identify, EncodingAfter, NodeStamps, Follow, AfterWhiteSpace, Reached;
      var m' := Follow(text, To(m), NodeStamps(kind, p, condense, enc, NoError), tab, enc).mark;
      NodesRunEndsWithoutError(text, m', kids + [n.node], q, condense, enc', tab);
    }
  }

  /** If the loop over the nodes leaves no error, neither does its first node, and an element is complete. */
  lemma NodeDone(kids: seq<Node>, p: Ptr, condense: bool, enc: Encoding)
    requires p.Live() && Identify(p, enc).Is?
    requires NodesAt(kids, p, condense, enc, NoError).err == NoError &&
             !NodesAt(kids, p, condense, enc, NoError).p.Wild?
    ensures var kind := Identify(p, enc).kind;
            var n := NodeAt(kind, p, condense, enc, NoError);
            n.err == NoError && (kind == ElementKind ==> n.p.At?)
  {
    var kind := Identify(p, enc).kind;
    var n := NodeAt(kind, p, condense, enc, NoError);
    var enc' := EncodingAfter(enc, n.node);
    NodesReport(kids + [n.node], AfterWhiteSpace(n.p, enc'), condense, enc', n.err);
    if kind == ElementKind {
      ElementNullIffError(p, condense, enc, NoError);
    }
    hide NodeAt, Identify, EncodingAfter;
    assert n.p.Wild? ==> AfterWhiteSpace(n.p, enc') == Wild;
  }

  /** A document that is parsed without error, and without overrunning, is parsed to the end: no stamp
      hangs on the way, whatever the tab size. */
  lemma NoErrorNoHang(s: bytes, condense: bool, enc: Encoding, tab: int)
    requires DocumentAt(s, condense, enc).err == NoError && !DocumentAt(s, condense, enc).p.Wild?
    ensures DocumentRun(s, condense, enc, tab).To?
  {
    var enc0 := StartEncoding(s, enc);
    var p := At(SkipWs(s, enc0));
    SkippedEnd(s, enc0);
    SkipWsAhead(s, enc0);
    SkipWsTwice(At(s), enc0);
    hide NodesAt, NodesRun, SkipWs;
    NodesRunEndsWithoutError(s, Mark(0, 0, 0), [], p, condense, enc0, tab);
  }

  // ----- printed documents -----

  /** What was printed is parsed to the end: no stamp hangs, and the pointer stays in the text. */
  lemma PrintedDocumentIsParsed(ns: seq<Node>, style: Style, condense: bool, enc: Encoding, tab: int)
    requires GoodDocument(ns, enc) && Lays(style, condense) && ns != []
    ensures var s := CStr(PrintNodes(ns, style, 0));
            DocumentRun(s, condense, enc, tab).To? && !DocumentAt(s, condense, enc).p.Wild?
  {
    var s := PrintNodes(ns, style, 0);
    DocumentReadsBack(ns, style, condense, enc);
    DocumentIsNulFree(ns, style, condense, enc);
    CStrOf(s);
    hide PrintNodes, DocumentAt, DocumentRun, CStr, DocumentBack;
    NoErrorNoHang(s, condense, enc, tab);
  }
}
