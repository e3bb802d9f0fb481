/** The places parsing stamps, in the order it stamps them, and the cursor that follows them. A place
    is the number of bytes that are still ahead of it. */
module Stamps {
  import opened Bytes
  import opened Codec
  import opened Xml
  import opened Parser
  import opened Consumed
  import opened Overrun
  import opened Cursor

  // ----- the places -----

  function PlacesOf(p: Ptr): seq<nat> {
    if p.At? then [|p.s|] else []
  }

  /** SetError stamps the place it is given when it sets the error. */
  function ErrorStamps(before: Err, after: Err): seq<nat> {
    if before.NoError? && after.Error? && after.left.Place? then [after.left.left] else []
  }

  /** What `TiXmlAttribute::Parse` stamps before it reads the name. */
  function NameStamps(p: Ptr, enc: Encoding): seq<nat> {
    var p0 := AfterWhiteSpace(p, enc);
    if p0.Live() then PlacesOf(p0) else []
  }

  predicate IsNewAttribute(a: AttrRead, attrs: seq<Attr>) {
    a.p.Live() && a.attr.name !in AttrNames(attrs)
  }

  /** An attribute of an element that has some already. If it cannot be read, or its name is taken,
      that is an error at its start. */
  function AttributeStamps(attrs: seq<Attr>, p: Ptr, enc: Encoding, err: Err): seq<nat> {
    var a := AttributeAt(p, enc);
    var e := Report(err, a.fault);
    NameStamps(p, enc)
    + (ErrorStamps(err, e)
       + if a.p.Wild? || IsNewAttribute(a, attrs) then [] else ErrorStamps(e, SetError(e, ParsingElement, p)))
  }

  /** The attributes of a declaration have no document to report to. */
  function DeclarationBodyStamps(p: Ptr, enc: Encoding): seq<nat>
    decreases p.Left()
  {
    if !p.Live() || p.s[0] == GT then []
    else
      var p0 := AfterWhiteSpace(p, enc);
      if p0.Live() && (HasPrefixIgnoringCase(p0.s, VERSION) || HasPrefixIgnoringCase(p0.s, ENCODING)
                       || HasPrefixIgnoringCase(p0.s, STANDALONE))
      then NameStamps(p0, enc) + DeclarationBodyStamps(AttributeAt(p0, enc).p, enc)
      else DeclarationBodyStamps(At(p0.s[JunkLength(p0.s)..]), enc)
  }

  function DeclarationStamps(p: Ptr, enc: Encoding): seq<nat> {
    var p0 := AfterWhiteSpace(p, enc);
    if !p0.Live() || !HasPrefixIgnoringCase(p0.s, XML_HEADER) then []
    else PlacesOf(p0) + DeclarationBodyStamps(At(p0.s[5..]), enc)
  }

  function CommentStamps(p: Ptr, enc: Encoding, err: Err): seq<nat> {
    PlacesOf(AfterWhiteSpace(p, enc)) + ErrorStamps(err, CommentAt(p, enc, err).err)
  }

  function CdataStamps(p: Ptr, enc: Encoding, err: Err): seq<nat> {
    PlacesOf(p) + ErrorStamps(err, CdataAt(p, enc, err).err)
  }

  function UnrecognizedStamps(p: Ptr, enc: Encoding, err: Err): seq<nat> {
    PlacesOf(AfterWhiteSpace(p, enc)) + ErrorStamps(err, UnrecognizedAt(p, enc, err).err)
  }

  function NodeStamps(kind: Kind, p: Ptr, condense: bool, enc: Encoding, err: Err): seq<nat>
    decreases p.Left(), 3
  {
    match kind
    case ElementKind => ElementStamps(p, condense, enc, err)
    case CommentKind => CommentStamps(p, enc, err)
    case CdataKind => CdataStamps(p, enc, err)
    case DeclarationKind => DeclarationStamps(p, enc)
    case UnrecognizedKind => UnrecognizedStamps(p, enc, err)
  }

  function ElementStamps(p: Ptr, condense: bool, enc: Encoding, err: Err): seq<nat>
    decreases p.Left(), 2
  {
    var p0 := AfterWhiteSpace(p, enc);
    if !p0.Live() then [] else PlacesOf(p0) + OpenStamps(p0, condense, enc, err)
  }

  function OpenStamps(p: Ptr, condense: bool, enc: Encoding, err: Err): seq<nat>
    requires p.Live()
    decreases p.Left(), 1
  {
    if p.s[0] != LT then ErrorStamps(err, SetError(err, ParsingElement, p))
    else
      var p1 := AfterWhiteSpace(At(p.s[1..]), enc);
      var nm := NameAt(p1);
      if !nm.p.Live() then ErrorStamps(err, SetError(err, FailedToReadElementName, p1))
      else TagStamps(nm.name, [], nm.p, condense, enc, err)
  }

  function TagStamps(name: bytes, attrs: seq<Attr>, p: Ptr, condense: bool, enc: Encoding, err: Err): seq<nat>
    requires p.Live()
    decreases p.Left(), 1
  {
    var p0 := AfterWhiteSpace(p, enc);
    if !p0.Live() then ErrorStamps(err, SetError(err, ReadingAttributes, p))
    else if p0.s[0] == SLASH then
      if |p0.s| > 1 && p0.s[1] == GT then []
      else ErrorStamps(err, SetError(err, ParsingEmpty, At(p0.s[1..])))
    else if p0.s[0] == GT then
      var c := ContentAt([], At(p0.s[1..]), condense, enc, err);
      ContentStamps(At(p0.s[1..]), condense, enc, err) + EndTagStamps(name, c.p, enc, c.err)
    else
      var a := AttributeAt(p0, enc);
      AttributeStamps(attrs, p0, enc, err)
      + if IsNewAttribute(a, attrs) then TagStamps(name, attrs + [a.attr], a.p, condense, enc, err) else []
  }

  function EndTagStamps(name: bytes, p: Ptr, enc: Encoding, err: Err): seq<nat> {
    ErrorStamps(err, EndTagAt(name, p, enc, err).err)
  }

  function ContentStamps(p: Ptr, condense: bool, enc: Encoding, err: Err): seq<nat>
    decreases p.Left(), 5
  {
    var p0 := AfterWhiteSpace(p, enc);
    if !p0.Live() then []
    else if p0.s[0] != LT then
      FirstIsNotLt(p, enc);
      var s := if condense then p0.s else p.s;
      [|s|] + ContentStamps(PlainTextAt(s, condense, enc).p, condense, enc, err)
    else if END_TAG_OPEN <= p0.s then []
    else MarkupStamps(p0, condense, enc, err) + StampsAfter(p0, condense, enc, err)
  }

  /** The node that starts at p. */
  function MarkupStamps(p: Ptr, condense: bool, enc: Encoding, err: Err): seq<nat>
    decreases p.Left(), 4
  {
    match Identify(p, enc)
    case NoKind => []
    case Is(kind) => NodeStamps(kind, p, condense, enc, err)
  }

  /** What comes behind it. */
  function StampsAfter(p: Ptr, condense: bool, enc: Encoding, err: Err): seq<nat>
    requires p.Live()
    decreases p.Left(), 4
  {
    match Identify(p, enc)
    case NoKind => []
    case Is(kind) =>
      var n := NodeAt(kind, p, condense, enc, err);
      ContentStamps(n.p, condense, enc, n.err)
  }

  // ----- the cursor that follows them -----

  /** The call at one place. With a tab size below 1 nothing is tracked. */
  function Step1(text: bytes, r: Run, place: nat, tab: int, enc: Encoding): Run {
    if r.Stuck? || tab < 1 then r
    else Stamped(text, r.mark, if place <= |text| then |text| - place else 0, tab, enc)
  }

  function Follow(text: bytes, r: Run, places: seq<nat>, tab: int, enc: Encoding): Run
    decreases |places|
  {
    if places == [] then r else Follow(text, Step1(text, r, places[0], tab, enc), places[1..], tab, enc)
  }

  lemma {:induction false} FollowConcat(text: bytes, r: Run, a: seq<nat>, b: seq<nat>, tab: int, enc: Encoding)
    ensures Follow(text, r, a + b, tab, enc) == Follow(text, Follow(text, r, a, tab, enc), b, tab, enc)
    decreases |a|
  {
    if a == [] {
      assert a + b == b;
    } else {
      assert (a + b)[1..] == a[1..] + b;
      FollowConcat(text, Step1(text, r, a[0], tab, enc), a[1..], b, tab, enc);
    }
  }

  /** Where the cursor of a parse gets to. */
  function RunOf(data: TiXmlParsingData, places: seq<nat>, enc: Encoding): Run
    reads data
  {
    Follow(data.text, To(data.GetMark()), places, data.tabsize, enc)
  }

  /** The pointer points into the text of the parse, or nowhere. */
  predicate Covers(data: TiXmlParsingData, p: Ptr) {
    p.Left() <= |data.text| + 1
  }

  lemma RunSplit(data: TiXmlParsingData, a: seq<nat>, b: seq<nat>, enc: Encoding)
    ensures RunOf(data, a + b, enc) == Follow(data.text, RunOf(data, a, enc), b, data.tabsize, enc)
    ensures RunOf(data, a + b, enc).To? ==> RunOf(data, a, enc).To?
  {
    FollowConcat(data.text, To(data.GetMark()), a, b, data.tabsize, enc);
    StuckStays(data.text, b, data.tabsize, enc);
  }

  lemma AttributeSplit(attrs: seq<Attr>, p: Ptr, data: TiXmlParsingData, enc: Encoding, err: Err)
    ensures var a := AttributeAt(p, enc);
            var e := Report(err, a.fault);
            var first := NameStamps(p, enc) + ErrorStamps(err, e);
            var last := if a.p.Wild? || IsNewAttribute(a, attrs) then []
                        else ErrorStamps(e, SetError(e, ParsingElement, p));
            var run := RunOf(data, AttributeStamps(attrs, p, enc, err), enc);
            run == Follow(data.text, RunOf(data, first, enc), last, data.tabsize, enc) &&
            (run.To? ==> RunOf(data, first, enc).To?)
  {
    hide AttributeAt, NameStamps, RunOf, Follow, ErrorStamps;
    var a := AttributeAt(p, enc);
    var e := Report(err, a.fault);
    var x, y := NameStamps(p, enc), ErrorStamps(err, e);
    var z := if a.p.Wild? || IsNewAttribute(a, attrs) then [] else ErrorStamps(e, SetError(e, ParsingElement, p));
    Assoc(x, y, z);
    RunSplit(data, x + y, z, enc);
  }

  lemma FollowOne(text: bytes, r: Run, place: nat, tab: int, enc: Encoding)
    ensures Follow(text, r, [place], tab, enc) == Step1(text, r, place, tab, enc)
  {
    hide Step1;
    assert [place][1..] == [];
  }

  /** `data->Stamp(p, encoding)`; with a null pointer it does nothing. */
  method StampAt(data: TiXmlParsingData, p: Ptr, enc: Encoding)
    requires Covers(data, p) && RunOf(data, PlacesOf(p), enc).To?
    modifies data
    ensures To(data.GetMark()) == old(RunOf(data, PlacesOf(p), enc))
  {
    if p.At? {
      FollowOne(data.text, To(data.GetMark()), |p.s|, data.tabsize, enc);
      data.Stamp(|data.text| - |p.s|, enc);
    }
  }

  /** A loop that does not end is not left. */
  lemma {:induction false} StuckStays(text: bytes, places: seq<nat>, tab: int, enc: Encoding)
    ensures Follow(text, Stuck, places, tab, enc) == Stuck
    decreases |places|
  {
    if places == [] {
    } else {
      StuckStays(text, places[1..], tab, enc);
    }
  }

  /** Where the places are in the text. */
  function Spots(text: bytes, places: seq<nat>): (nows: seq<nat>)
    ensures |nows| == |places| && Within(nows, |text|)
  {
    seq(|places|, i requires 0 <= i < |places| => if places[i] <= |text| then |text| - places[i] else 0)
  }

  lemma {:induction false} FollowIsStampedAll(text: bytes, m: Mark, places: seq<nat>, tab: int, enc: Encoding)
    requires tab >= 1
    ensures Follow(text, To(m), places, tab, enc) == StampedAll(text, m, Spots(text, places), tab, enc)
    decreases |places|
  {
    if places == [] {
    } else {
      var r := Step1(text, To(m), places[0], tab, enc);
      assert Spots(text, places)[1..] == Spots(text, places[1..]);
      if r.Stuck? {
        StuckStays(text, places[1..], tab, enc);
      } else {
        FollowIsStampedAll(text, r.mark, places[1..], tab, enc);
      }
    }
  }

  /** Parsing hangs in one of its stamps exactly when the loop, on its way to the furthest place that
      is stamped, visits a 0xEF that is cut short. */
  lemma HangsIffCutShort(text: bytes, m: Mark, places: seq<nat>, tab: int, enc: Encoding)
    requires tab >= 1 && places != []
    ensures Follow(text, To(m), places, tab, enc) == Stuck
            <==> AnyCutShort(text, Visited(text, m.at, Furthest(Spots(text, places)), enc), enc)
  {
    var nows := Spots(text, places);
    FollowIsStampedAll(text, m, places, tab, enc);
    PathIndependent(text, m, nows, tab, enc);
    hide Follow, Stamped, Visited, Furthest, AnyCutShort;
    FurthestIsWithin(nows, |text|);
    StuckIffCutShort(text, m, Furthest(nows), tab, enc);
  }

  lemma FurthestIsWithin(nows: seq<nat>, end: nat)
    requires nows != [] && Within(nows, end)
    ensures Furthest(nows) <= end
  {
    var i :| 0 <= i < |nows| && nows[i] == Furthest(nows);
  }

  // ----- a condition on the text -----

  /** In text into which every sequence fits, no stamp hangs, wherever it is. */
  lemma {:induction false} UncutNeverHangs(text: bytes, m: Mark, places: seq<nat>, tab: int, enc: Encoding)
    requires Uncut(text, enc)
    ensures Follow(text, To(m), places, tab, enc).To?
    decreases |places|
  {
    if places == [] {
    } else {
      if tab >= 1 {
        StampEnds(text, m, Spots(text, places)[0], tab, enc);
      }
      hide Stamped;
      UncutNeverHangs(text, Step1(text, To(m), places[0], tab, enc).mark, places[1..], tab, enc);
    }
  }

  lemma StampEnds(text: bytes, m: Mark, now: nat, tab: int, enc: Encoding)
    requires Uncut(text, enc) && now <= |text| && tab >= 1
    ensures Stamped(text, m, now, tab, enc).To?
  {
    var ps := Visited(text, m.at, now, enc);
    StuckIffCutShort(text, m, now, tab, enc);
    hide Stamped, Visited;
    forall i | 0 <= i < |ps|
      ensures !CutShort(text, ps[i], enc)
    {
    }
  }

  // ----- documents -----

  /** The cursor over the loop of `TiXmlDocument::Parse`. */
  function NodesRun(text: bytes, r: Run, p: Ptr, condense: bool, enc: Encoding, err: Err, tab: int): Run
    decreases p.Left()
  {
    if !p.Live() then r
    else
      match Identify(p, enc)
      case NoKind => r
      case Is(kind) =>
        var n := NodeAt(kind, p, condense, enc, err);
        var enc' := EncodingAfter(enc, n.node);
        NodesRun(text, Follow(text, r, NodeStamps(kind, p, condense, enc, err), tab, enc),
                 AfterWhiteSpace(n.p, enc'), condense, enc', n.err, tab)
  }

  /** The same, from where the cursor of a parse is. */
  function Reaches(data: TiXmlParsingData, p: Ptr, condense: bool, enc: Encoding, err: Err): Run
    reads data
  {
    NodesRun(data.text, To(data.GetMark()), p, condense, enc, err, data.tabsize)
  }

  lemma ReachesNext(data: TiXmlParsingData, p: Ptr, condense: bool, enc: Encoding, err: Err)
    requires p.Live()
    ensures Identify(p, enc) == NoKind ==>
              RunOf(data, MarkupStamps(p, condense, enc, err), enc) == To(data.GetMark())
              == Reaches(data, p, condense, enc, err)
    ensures Identify(p, enc) != NoKind ==>
              var n := NodeAt(Identify(p, enc).kind, p, condense, enc, err);
              var enc' := EncodingAfter(enc, n.node);
              Reaches(data, p, condense, enc, err)
              == NodesRun(data.text, RunOf(data, MarkupStamps(p, condense, enc, err), enc),
                          AfterWhiteSpace(n.p, enc'), condense, enc', n.err, data.tabsize)
    ensures Reaches(data, p, condense, enc, err).To? ==> RunOf(data, MarkupStamps(p, condense, enc, err), enc).To?
  {
    if Identify(p, enc) != NoKind {
      var n := NodeAt(Identify(p, enc).kind, p, condense, enc, err);
      var enc' := EncodingAfter(enc, n.node);
      hide NodeAt, Identify, EncodingAfter, NodeStamps, Follow, AfterWhiteSpace;
      StuckRunStays(data.text, AfterWhiteSpace(n.p, enc'), condense, enc', n.err, data.tabsize);
    }
  }

  function DocumentRun(s: bytes, condense: bool, enc: Encoding, tab: int): Run {
    var enc0 := StartEncoding(s, enc);
    NodesRun(s, To(Mark(0, 0, 0)), At(SkipWs(s, enc0)), condense, enc0, NoError, tab)
  }

  lemma {:induction false} NodesRunEnds(text: bytes, m: Mark, p: Ptr, condense: bool, enc: Encoding, err: Err, tab: int)
    requires enc == Legacy || Uncut(text, Encoding.Utf8)
    ensures NodesRun(text, To(m), p, condense, enc, err, tab).To?
    decreases p.Left()
  {
    if p.Live() && Identify(p, enc).Is? {
      var kind := Identify(p, enc).kind;
      var n := NodeAt(kind, p, condense, enc, err);
      var enc' := EncodingAfter(enc, n.node);
      var places := NodeStamps(kind, p, condense, enc, err);
      assert enc == Legacy ==> enc' == Legacy;
      assert Uncut(text, enc);
      hide NodeAt, Identify, EncodingAfter, NodeStamps, Follow, Uncut;
      UncutNeverHangs(text, m, places, tab, enc);
      var m' := Follow(text, To(m), places, tab, enc).mark;
      NodesRunEnds(text, m', AfterWhiteSpace(n.p, enc'), condense, enc', n.err, tab);
    }
  }

  /** A document whose text every UTF-8 sequence fits into is parsed to the end: no stamp hangs, and
      the pointer does not leave the text. In the legacy encoding every document is. */
  lemma DocumentIsParsed(s: bytes, condense: bool, enc: Encoding, tab: int)
    requires enc == Legacy || Uncut(s, Encoding.Utf8)
    ensures DocumentRun(s, condense, enc, tab).To? && !DocumentAt(s, condense, enc).p.Wild?
  {
    var enc0 := StartEncoding(s, enc);
    DocumentStaysInside(s, condense, enc);
    NodesRunEnds(s, Mark(0, 0, 0), At(SkipWs(s, enc0)), condense, enc0, NoError, tab);
  }

  // ----- exactly when a document hangs -----

  /** The places a document stamps, before and after a declaration settles an unknown encoding. */
  datatype Places = Places(first: seq<nat>, second: seq<nat>, enc: Encoding)

  function NodesPlaces(p: Ptr, condense: bool, enc: Encoding, err: Err): Places
    decreases p.Left()
  {
    if !p.Live() then Places([], [], enc)
    else
      match Identify(p, enc)
      case NoKind => Places([], [], enc)
      case Is(kind) =>
        var n := NodeAt(kind, p, condense, enc, err);
        var enc' := EncodingAfter(enc, n.node);
        var here := NodeStamps(kind, p, condense, enc, err);
        var more := NodesPlaces(AfterWhiteSpace(n.p, enc'), condense, enc', n.err);
        if enc' == enc then more.(first := here + more.first) else Places(here, more.first, enc')
  }

  function DocumentPlaces(s: bytes, condense: bool, enc: Encoding): Places {
    var enc0 := StartEncoding(s, enc);
    NodesPlaces(At(SkipWs(s, enc0)), condense, enc0, NoError)
  }

  /** Once it is known, the encoding stays. */
  lemma {:induction false} KnownStays(p: Ptr, condense: bool, enc: Encoding, err: Err)
    requires enc != Unknown
    ensures var places := NodesPlaces(p, condense, enc, err); places.second == [] && places.enc == enc
    decreases p.Left()
  {
    if p.Live() && Identify(p, enc).Is? {
      var n := NodeAt(Identify(p, enc).kind, p, condense, enc, err);
      assert EncodingAfter(enc, n.node) == enc;
      hide NodeAt, Identify, EncodingAfter, NodeStamps;
      KnownStays(AfterWhiteSpace(n.p, enc), condense, enc, n.err);
    }
  }

  /** The cursor of a document follows these places, under one encoding and then the other. */
  lemma {:induction false} NodesRunIs(text: bytes, r: Run, p: Ptr, condense: bool, enc: Encoding, err: Err, tab: int)
    ensures var places := NodesPlaces(p, condense, enc, err);
            NodesRun(text, r, p, condense, enc, err, tab)
            == Follow(text, Follow(text, r, places.first, tab, enc), places.second, tab, places.enc)
    decreases p.Left()
  {
    hide NodeAt, Identify, NodeStamps, Follow;
    FollowNone(text, r, tab, enc);
    if p.Live() && Identify(p, enc).Is? {
      var kind := Identify(p, enc).kind;
      var n := NodeAt(kind, p, condense, enc, err);
      var enc' := EncodingAfter(enc, n.node);
      var here := NodeStamps(kind, p, condense, enc, err);
      var q := AfterWhiteSpace(n.p, enc');
      var more := NodesPlaces(q, condense, enc', n.err);
      NodesRunIs(text, Follow(text, r, here, tab, enc), q, condense, enc', n.err, tab);
      if enc' == enc {
        FollowConcat(text, r, here, more.first, tab, enc);
      } else {
        KnownStays(q, condense, enc', n.err);
        FollowNone(text, Follow(text, Follow(text, r, here, tab, enc), more.first, tab, enc'), tab, enc');
      }
    }
  }

  lemma FollowNone(text: bytes, r: Run, tab: int, enc: Encoding)
    ensures Follow(text, r, [], tab, enc) == r
  {
  }

  /** The loop, started at a position, visits a 0xEF that is cut short before the furthest place. */
  predicate HangsFrom(text: bytes, at: nat, places: seq<nat>, enc: Encoding) {
    places != [] && AnyCutShort(text, Visited(text, at, Furthest(Spots(text, places)), enc), enc)
  }

  lemma FollowHangsIff(text: bytes, m: Mark, places: seq<nat>, tab: int, enc: Encoding)
    requires tab >= 1
    ensures Follow(text, To(m), places, tab, enc) == Stuck <==> HangsFrom(text, m.at, places, enc)
  {
    if places == [] {
      FollowNone(text, To(m), tab, enc);
    } else {
      HangsIffCutShort(text, m, places, tab, enc);
    }
    hide Follow, Visited, Furthest, AnyCutShort;
  }

  /** Parsing a document hangs in a stamp exactly when the loop visits such a 0xEF under the encoding it
      starts with, or from where it then is under the encoding that is settled. */
  lemma DocumentHangsIff(s: bytes, condense: bool, enc: Encoding, tab: int)
    requires tab >= 1
    ensures var enc0 := StartEncoding(s, enc);
            var places := DocumentPlaces(s, condense, enc);
            var middle := Follow(s, To(Mark(0, 0, 0)), places.first, tab, enc0);
            DocumentRun(s, condense, enc, tab) == Stuck
            <==> HangsFrom(s, 0, places.first, enc0)
                 || (middle.To? && HangsFrom(s, middle.mark.at, places.second, places.enc))
  {
    var enc0 := StartEncoding(s, enc);
    var places := DocumentPlaces(s, condense, enc);
    var middle := Follow(s, To(Mark(0, 0, 0)), places.first, tab, enc0);
    NodesRunIs(s, To(Mark(0, 0, 0)), At(SkipWs(s, enc0)), condense, enc0, NoError, tab);
    FollowHangsIff(s, Mark(0, 0, 0), places.first, tab, enc0);
    if middle.To? {
      FollowHangsIff(s, middle.mark, places.second, tab, places.enc);
    } else {
      StuckStays(s, places.second, tab, places.enc);
    }
    hide NodesRun, NodesPlaces, Follow, HangsFrom, SkipWs;
  }

  // ----- a text at which it hangs -----

  const HANG_TEXT: bytes := [LT, 97, SPACE, 0xEF, GT]

  /** The text "<a ", a lone 0xEF and '>', in UTF-8: the attribute is reported at the '>', and the
      stamp of that report never gets past the 0xEF. */
  lemma HangTextHangs(condense: bool, tab: int)
    requires tab >= 1
    ensures Follow(HANG_TEXT, To(Mark(0, 0, 0)), ElementStamps(At(HANG_TEXT), condense, Encoding.Utf8, NoError), tab,
                   Encoding.Utf8) == Stuck
  {
    HangTextStamps(condense);
    hide ElementStamps;
    HangTextRun(tab);
  }

  lemma HangTextStamps(condense: bool)
    ensures ElementStamps(At(HANG_TEXT), condense, Encoding.Utf8, NoError) == [5, 2, 1]
  {
    var enc := Encoding.Utf8;
    var s := HANG_TEXT;
    HangTagStamps([97], condense);
    HangName();
    NothingToSkipAt(s, enc);
    assert s[1..] == [97, SPACE, 0xEF, GT];
    NothingToSkipAt(s[1..], enc);
    hide TagStamps, AfterWhiteSpace, NameAt;
  }

  lemma HangName()
    ensures NameAt(At([97, SPACE, 0xEF, GT])) == NameRead([97], At([SPACE, 0xEF, GT]))
  {
    var s: bytes := [97, SPACE, 0xEF, GT];
    assert s[1..] == [SPACE, 0xEF, GT];
    assert NameLength(s) == 1 by { assert NameLength(s[1..]) == 0; }
  }

  lemma HangTagStamps(name: bytes, condense: bool)
    ensures TagStamps(name, [], At([SPACE, 0xEF, GT]), condense, Encoding.Utf8, NoError) == [2, 1]
  {
    var enc := Encoding.Utf8;
    var s: bytes := [SPACE, 0xEF, GT];
    assert s[1..] == [0xEF, GT];
    HangAttribute();
    assert AfterWhiteSpace(At(s), enc) == At(s[1..]) by {
      assert SkipWs(s, enc) == SkipWs(s[1..], enc);
    }
    hide AfterWhiteSpace, AttributeAt, ContentStamps, AttributeStamps;
    HangAttributeStamps();
  }

  lemma HangAttributeStamps()
    ensures AttributeStamps([], At([0xEF, GT]), Encoding.Utf8, NoError) == [2, 1]
  {
    HangAttribute();
    hide AfterWhiteSpace, AttributeAt;
    assert NameStamps(At([0xEF, GT]), Encoding.Utf8) == [2];
  }

  lemma HangAttribute()
    ensures var s := [0xEF, GT];
            AfterWhiteSpace(At(s), Encoding.Utf8) == At(s) &&
            AttributeAt(At(s), Encoding.Utf8) == AttrRead(Attr([0xEF], []), Null, Error(ReadingAttributes, Place(1)))
  {
    var s: bytes := [0xEF, GT];
    assert s[1..] == [GT];
    assert NameLength(s) == 1 by { assert NameLength(s[1..]) == 0; }
    NothingToSkipAt(s[1..], Encoding.Utf8);
  }

  lemma HangTextRun(tab: int)
    requires tab >= 1
    ensures Follow(HANG_TEXT, To(Mark(0, 0, 0)), [5, 2, 1], tab, Encoding.Utf8) == Stuck
  {
    var s, enc, m := HANG_TEXT, Encoding.Utf8, Mark(3, 0, 3);
    assert Step1(s, To(Mark(0, 0, 0)), 5, tab, enc) == To(Mark(0, 0, 0));
    assert Step1(s, To(Mark(0, 0, 0)), 2, tab, enc) == To(m) by {
      assert !IsMark(s[0..]) && !IsMark(s[1..]) && !IsMark(s[2..]);
      assert Moved(s, Mark(0, 0, 0), tab, enc) == Mark(1, 0, 1);
      assert Moved(s, Mark(1, 0, 1), tab, enc) == Mark(2, 0, 2);
      assert Moved(s, Mark(2, 0, 2), tab, enc) == m;
      assert Stamped(s, m, 3, tab, enc) == To(m);
      assert Stamped(s, Mark(2, 0, 2), 3, tab, enc) == To(m);
      assert Stamped(s, Mark(1, 0, 1), 3, tab, enc) == To(m);
    }
    assert Step1(s, To(m), 1, tab, enc) == Stuck;
    hide Step1;
    assert [5, 2, 1][1..] == [2, 1] && [2, 1][1..] == [1] && [1][1..] == [];
  }

  /** So does the parse of the document. */
  lemma HangDocumentHangs(condense: bool, tab: int)
    requires tab >= 1
    ensures DocumentRun(HANG_TEXT, condense, Encoding.Utf8, tab) == Stuck
  {
    var enc := Encoding.Utf8;
    var s := HANG_TEXT;
    HangTextHangs(condense, tab);
    NothingToSkipAt(s, enc);
    ElementStartsAt(s, enc);
    hide ElementStamps, Identify, AfterWhiteSpace, SkipWs, Follow;
    FirstNodeHangs(s, ElementKind, condense, enc, tab);
  }

  lemma FirstNodeHangs(s: bytes, kind: Kind, condense: bool, enc: Encoding, tab: int)
    requires s != [] && AfterWhiteSpace(At(s), enc) == At(s) && StartEncoding(s, enc) == enc
    requires Identify(At(s), enc) == Is(kind)
    requires Follow(s, To(Mark(0, 0, 0)), NodeStamps(kind, At(s), condense, enc, NoError), tab, enc) == Stuck
    ensures DocumentRun(s, condense, enc, tab) == Stuck
  {
    var n := NodeAt(kind, At(s), condense, enc, NoError);
    var enc' := EncodingAfter(enc, n.node);
    hide NodeStamps, NodeAt, Identify, SkipWs, Follow, EncodingAfter;
    StuckRunStays(s, AfterWhiteSpace(n.p, enc'), condense, enc', n.err, tab);
  }

  lemma {:induction false} StuckRunStays(text: bytes, p: Ptr, condense: bool, enc: Encoding, err: Err, tab: int)
    ensures NodesRun(text, Stuck, p, condense, enc, err, tab) == Stuck
    decreases p.Left()
  {
    if p.Live() && Identify(p, enc).Is? {
      var kind := Identify(p, enc).kind;
      var n := NodeAt(kind, p, condense, enc, err);
      var enc' := EncodingAfter(enc, n.node);
      StuckStays(text, NodeStamps(kind, p, condense, enc, err), tab, enc);
      hide NodeAt, Identify, EncodingAfter, NodeStamps, Follow;
      StuckRunStays(text, AfterWhiteSpace(n.p, enc'), condense, enc', n.err, tab);
    }
  }
}
