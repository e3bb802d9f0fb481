/** A document printed by the visitor and parsed into another document. */
module Reload {
  import opened Bytes
  import opened Codec
  import opened Xml
  import opened Parser
  import opened Printer
  import opened RoundTrip
  import opened DocumentRoundTrip
  import opened Overrun
  import opened Cursor
  import opened Stamps
  import opened NoHang
  import opened Store
  import opened AttributeSet
  import opened Dom
  import opened DomParser
  import opened DomPrinter

  /** The stream print of a document. */
  method StreamPrint(document: TiXmlNode, ghost forest: set<TiXmlNode>) returns (text: bytes)
    requires IsForest(forest) && Furnished(forest) && document in forest
    ensures IsForest(forest) && Furnished(forest) && View(forest) == old(View(forest))
    ensures text == CStr(PrintNodes(old(Kids(document.children, View(forest))), STREAM, 0))
  {
    hide IsForest, Furnished, View, Kids;
    ghost var all := PrintNodes(Kids(document.children, View(forest)), STREAM, 0);
    NothingInFront(all);
    var printer := new TiXmlPrinter();
    printer.SetStreamPrinting();
    SourceKept(forest);
    AcceptDocument(document, printer, forest);
    text := CStr(printer.buffer);
  }

  /** Parses the text into a document just made. */
  method ParseAfresh(text: bytes, condense: bool, enc: Encoding, tabsize: int)
    returns (document: TiXmlNode, r: Ptr, ghost grown: set<TiXmlNode>)
    requires DocumentRun(text, condense, enc, tabsize).To?
    ensures fresh(grown) && document in grown && document.kind == DocumentType && IsForest(grown) && Furnished(grown)
    ensures Content(Kids(document.children, View(grown)), r, document.error) == DocumentAt(text, condense, enc)
  {
    hide IsForest, TiXmlAttributeSet.Valid, EntriesOf, DocumentInto, DocumentRun;
    document := new TiXmlNode(DocumentType);
    assert Kids(document.children, View({document})) == [];
    hide View, Kids, Furnished;
    r, grown := ParseDocument(document, text, condense, enc, tabsize, {document});
  }

  /** Printing a document and parsing the text does neither hang nor overrun, whatever the encoding
      and the tab size. The parsed document holds the nodes of the printed one, as they read back, without error; they
      are the same exactly when every plain text reads back as it is. */
  method PrintAndParse(document: TiXmlNode, condense: bool, enc: Encoding, tabsize: int, ghost forest: set<TiXmlNode>)
    returns (copy: TiXmlNode, ghost grown: set<TiXmlNode>)
    requires IsForest(forest) && Furnished(forest) && document in forest && document.children != []
    requires GoodDocument(Kids(document.children, View(forest)), enc)
    ensures IsForest(forest) && Furnished(forest) && View(forest) == old(View(forest))
    ensures fresh(grown) && copy in grown && copy.kind == DocumentType && IsForest(grown) && Furnished(grown)
    ensures copy.error == NoError
    ensures var ns := Kids(old(document.children), old(View(forest)));
            Kids(copy.children, View(grown)) == DocumentBack(ns, condense, enc) &&
            (Kids(copy.children, View(grown)) == ns <==> DocumentTidy(ns, condense, enc))
  {
    hide IsForest, Furnished, View, Tree, GoodDocument, DocumentBack, DocumentAt, DocumentTidy, DocumentRun;
    ghost var ns := Kids(document.children, View(forest));
    assert ns != [];
    hide Kids;
    DocumentReadsBack(ns, STREAM, condense, enc) by { assert Lays(STREAM, condense); }
    DocumentBackIsSame(ns, condense, enc);
    PrintedDocumentIsParsed(ns, STREAM, condense, enc, tabsize) by { assert Lays(STREAM, condense); }
    var text := StreamPrint(document, forest);
    label Printed:
    var r;
    copy, r, grown := ParseAfresh(text, condense, enc, tabsize);
    SourceKept@Printed(forest);
  }
}
