/** Trees that come from the parser print and parse back to themselves, up to the character data
    that escaping or condensing changes. */
module Reprint {
  import opened Bytes
  import opened Codec
  import opened CodecLaws
  import opened Xml
  import opened Parser
  import opened Printer
  import opened LeafRoundTrip
  import opened RoundTrip
  import opened DocumentRoundTrip
  import opened Consumed
  import opened Soundness
  import opened ErrorLaws

  /** The part of being Good that parsing does not give by itself: values and texts without "&#x" or a
      cut character, declarations without '&' or '"' in their values. */
  predicate Reprintable(n: Node, enc: Encoding)
    decreases n, 0
  {
    match n
    case Element(_, attrs, children) =>
      (forall i :: 0 <= i < |attrs| ==> HexFree(attrs[i].value) && WholeChars(attrs[i].value, enc)) &&
      AllReprintable(children, enc)
    case Text(v, false) => GoodText(v, enc)
    case Declaration(_, _, _) => GoodDeclaration(n, enc)
    case _ => true
  }

  predicate AllReprintable(ns: seq<Node>, enc: Encoding)
    decreases ns
  {
    ns != [] ==> Reprintable(ns[0], enc) && AllReprintable(ns[1..], enc)
  }

  lemma {:induction false} SoundIsGood(n: Node, enc: Encoding)
    requires Sound(n, enc) && Reprintable(n, enc)
    ensures Good(n, enc)
    decreases n, 0
  {
    if n.Element? {
      SoundChildrenAreGood(n.children, enc);
      hide GoodChildren, AllReprintable, SoundChildren, GoodName, HexFree, WholeChars;
    }
  }

  lemma {:induction false} SoundChildrenAreGood(ns: seq<Node>, enc: Encoding)
    requires SoundChildren(ns, enc) && AllReprintable(ns, enc)
    ensures GoodChildren(ns, enc)
    decreases ns
  {
    if ns == [] {
    } else {
      SoundIsGood(ns[0], enc);
      var more := ns[1..];
      assert forall i :: 0 <= i < |more| ==> more[i] == ns[i + 1];
      assert SoundChildren(more, enc) by {
        hide Sound;
        forall i | 0 <= i < |more| - 1 && more[i].IsPlainText()
          ensures !more[i + 1].IsPlainText()
        {
          assert more[i] == ns[i + 1];
        }
      }
      SoundChildrenAreGood(more, enc);
      hide Good, Reprintable, Sound;
    }
  }

  predicate SoundDocument(ns: seq<Node>, enc: Encoding) {
    ns != [] ==>
      Sound(ns[0], enc) && !ns[0].IsPlainText() && SoundDocument(ns[1..], EncodingAfter(enc, ns[0]))
  }

  predicate ReprintableDocument(ns: seq<Node>, enc: Encoding) {
    ns != [] ==>
      Reprintable(ns[0], enc) && ReprintableDocument(ns[1..], EncodingAfter(enc, ns[0]))
  }

  lemma {:induction false} SoundDocumentIsGood(ns: seq<Node>, enc: Encoding)
    requires SoundDocument(ns, enc) && ReprintableDocument(ns, enc)
    ensures GoodDocument(ns, enc)
  {
    if ns == [] {
    } else {
      SoundIsGood(ns[0], enc);
      SoundDocumentIsGood(ns[1..], EncodingAfter(enc, ns[0]));
      hide Good, Reprintable, Sound, EncodingAfter;
    }
  }

  /** When parsing leaves no error, every node read is sound under the encoding in effect at it. */
  lemma {:induction false} NodesAreSound(kids: seq<Node>, p: Ptr, condense: bool, enc: Encoding)
    requires p.At? ==> NulFree(p.s)
    requires p.Live() ==> AfterWhiteSpace(p, enc) == p
    ensures var r := NodesAt(kids, p, condense, enc, NoError);
            r.err == NoError && !r.p.Wild? ==> kids <= r.kids && SoundDocument(r.kids[|kids|..], enc)
    decreases p.Left()
  {
    if p.Live() && Identify(p, enc).Is? {
      var kind := Identify(p, enc).kind;
      var n := NodeAt(kind, p, condense, enc, NoError);
      var enc' := EncodingAfter(enc, n.node);
      var q := AfterWhiteSpace(n.p, enc');
      NodesReport(kids + [n.node], q, condense, enc', n.err);
      if NodesAt(kids, p, condense, enc, NoError).err == NoError {
        assert n.err == NoError;
        NodeIsSound(kind, p, condense, enc, NoError);
        NodeSucceeds(kind, p, condense, enc);
        NodeAhead(kind, p, condense, enc, NoError);
        if n.p.At? {
          SuffixNulFree(n.p.s, p.s);
          SkippedNulFree(n.p, enc');
          SkipWsTwice(n.p, enc');
        }
        NodesAreSound(kids + [n.node], q, condense, enc');
        var all := NodesAt(kids, p, condense, enc, NoError).kids;
        hide NodesAt, NodeAt, Identify, AfterWhiteSpace, EncodingAfter, Sound;
        SplitHead(all, kids, n.node);
      }
    }
  }

  lemma SplitHead(all: seq<Node>, kids: seq<Node>, n: Node)
    requires kids + [n] <= all
    ensures kids <= all && all[|kids|..] == [n] + all[|kids + [n]|..]
    ensures all[|kids|..] != [] && all[|kids|..][0] == n && all[|kids|..][1..] == all[|kids + [n]|..]
  {
    assert all[|kids|] == (kids + [n])[|kids|];
  }

  /** An element read without error is complete. */
  lemma NodeSucceeds(kind: Kind, p: Ptr, condense: bool, enc: Encoding)
    ensures var r := NodeAt(kind, p, condense, enc, NoError);
            r.err == NoError && kind == ElementKind ==> r.p.At? || r.p.Wild?
  {
    ElementNullIffError(p, condense, enc, NoError);
  }

  /** A document that parses without error is sound. */
  lemma DocumentIsSound(s: bytes, condense: bool, enc: Encoding)
    requires NulFree(s)
    ensures var r := DocumentAt(s, condense, enc);
            r.err == NoError && !r.p.Wild? ==> r.kids != [] && SoundDocument(r.kids, StartEncoding(s, enc))
  {
    if s != [] {
      var enc0 := StartEncoding(s, enc);
      var p := At(s);
      SkippedNulFree(p, enc0);
      SkipWsTwice(p, enc0);
      NodesAreSound([], AfterWhiteSpace(p, enc0), condense, enc0);
      var r := NodesAt([], At(SkipWs(s, enc0)), condense, enc0, NoError);
      assert r.kids[0..] == r.kids;
    }
  }

  /** Parsing, stream printing and parsing again: the second tree is the first one, unless the first
      parse had read from references a text of which white space is condensed, or of which nothing is
      left but white space and marks. */
  lemma ParsePrintParse(s: bytes, condense: bool, enc: Encoding)
    requires NulFree(s) && DocumentAt(s, condense, enc).err == NoError && !DocumentAt(s, condense, enc).p.Wild?
    requires ReprintableDocument(DocumentAt(s, condense, enc).kids, StartEncoding(s, enc))
    ensures var ns := DocumentAt(s, condense, enc).kids;
            var enc0 := StartEncoding(s, enc);
            DocumentAt(CStr(PrintNodes(ns, STREAM, 0)), condense, enc0).kids == ns
            <==> DocumentTidy(ns, condense, enc0)
  {
    var ns, enc0 := DocumentAt(s, condense, enc).kids, StartEncoding(s, enc);
    DocumentIsSound(s, condense, enc);
    SoundDocumentIsGood(ns, enc0);
    hide DocumentAt;
    StreamRoundTrip(ns, condense, enc0);
  }

  lemma MarkupStartsWithLt(n: Node, style: Style, depth: nat)
    requires !n.IsPlainText()
    ensures PrintBare(n, style, depth) != [] && PrintBare(n, style, depth)[0] == LT
  {
    if n.Element? {
      assert PrintOpen(n) != [] && PrintOpen(n)[0] == LT;
    }
  }

  lemma StreamStartsWithLt(ns: seq<Node>)
    requires ns != [] && !ns[0].IsPlainText()
    ensures var s := CStr(PrintNodes(ns, STREAM, 0)); s != [] && s[0] == LT
  {
    MarkupStartsWithLt(ns[0], STREAM, 0);
    hide PrintBare;
  }

  /** What stream printing and parsing gives back as it was: of the documents whose character data
      survives escaping, exactly the sound ones whose texts read back as they are, neither condensed
      nor lost as blank or as marks. */
  lemma RoundTripIffSound(ns: seq<Node>, condense: bool, enc: Encoding)
    requires ns != [] && ReprintableDocument(ns, enc)
    ensures var r := DocumentAt(CStr(PrintNodes(ns, STREAM, 0)), condense, enc);
            r.kids == ns && r.err == NoError && !r.p.Wild?
            <==> SoundDocument(ns, enc) && DocumentTidy(ns, condense, enc)
  {
    var s := CStr(PrintNodes(ns, STREAM, 0));
    var r := DocumentAt(s, condense, enc);
    if r.kids == ns && r.err == NoError && !r.p.Wild? {
      DocumentIsSound(s, condense, enc);
      StreamStartsWithLt(ns);
      assert StartEncoding(s, enc) == enc;
    }
    if SoundDocument(ns, enc) {
      SoundDocumentIsGood(ns, enc);
      DocumentReadsBack(ns, STREAM, condense, enc);
      DocumentBackIsSame(ns, condense, enc);
    }
  }
}
