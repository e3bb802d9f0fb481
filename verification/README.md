# TinyXML and the byte streams, proved

A Dafny model of the in-memory part of TinyXML under `libsouth_interface/`, in its build without
the standard library's strings, and of three small neighbours: `skip_trailing_space` of
`Inc/m_string.h`, and the stream pair `COutStream` and `CInStream` of `base/`.

A C string is the sequence of its bytes before the terminator. A `const char*` is null, the bytes
that are still ahead of it, or a pointer that has run past the terminator (`Wild`). Once the source
has such a pointer, what it does is undefined; the model hands the pointer back at once and does
nothing else any more. Characters are classified as in the C locale, and an `assert` of the source
does nothing.

What the code does step by step is written as methods and classes with the source's fields, loops
and pointer assignments. Each is proved to compute a function over plain sequences and trees, and the
laws are proved about these functions.

| module | what it models |
|---|---|
| Bytes, Utf8, Bits, Xml, Store | bytes, pointers and encodings; the UTF-8 conversion, and the bit operations behind it; the tree as a value; what the nodes of a forest hold |
| Codec, CodecLaws, EscapeLimits, RawText, References | `EncodeString`, `GetChar`, `GetEntity`, `ReadText` as functions, and what reading gives for escaped text, raw text and numeric references |
| Scanner, Reader, DomParser | the scanning and `Parse` methods, down to the nodes they build and the cursor they move |
| Parser | what the `Parse` methods compute: node, pointer and error |
| Consumed, Overrun, Spans, Stamps, Reported, NoHang | how far parsing gets, when it runs past the terminator, which places it stamps, and when a stamp hangs |
| ErrorLaws, Faults, Soundness | when parsing fails, with which error and where, and what its success guarantees |
| LooseSyntax, DeclaredEncoding | what is read of text that no printer writes; which encoding a declaration settles |
| Printer, Layout, DomPrinter | what `TiXmlPrinter` prints, what its lines look like, and the visitor itself |
| LeafRoundTrip, RoundTrip, DocumentRoundTrip, DeclarationLimits, Reprint, Reload | printing and parsing back, from one attribute to real documents |
| Dom, CloneSpec | `TiXmlNode`: child lists, cloning, linking, removing |
| AttributeSet, AttributeSpec | the attribute ring, as an insertion-ordered map |
| NewLines, Cursor, Columns | the newline loop of `LoadFile`; rows and columns |
| TinyString, TrailingSpace, Streams | `TiXmlString`; the word-wise blank skipper; the streams |

The main results:

- **Round trip.** Stream printing a document and parsing the text gives the same tree exactly for the
  sound documents whose texts read back as they are (Reprint.RoundTripIffSound); any layout of white
  space parses to the same tree with condensing on (DocumentRoundTrip.LayoutDoesNotMatter). For real
  documents the visitor and the parser are put together in Reload.PrintAndParse.
- **Termination.** Every parse ends at null, at a strictly later position or past the terminator. It
  runs past the terminator exactly at a character that is cut short, and hangs in a stamp exactly at
  a 0xEF that is, for whole documents too (Spans.DocumentOverrunsIff, Stamps.DocumentHangsIff).
  Neither happens in text into which every UTF-8 sequence fits (Stamps.DocumentIsParsed), nor in text
  that was printed (NoHang.PrintedDocumentIsParsed).
- **Errors.** An element returns null exactly when it leaves an error, at every depth
  (ErrorLaws.ElementNullIffError), and what is parsed without one is sound (Soundness.ElementIsSound).
- **Faults.** From the text alone: which error a broken element leaves and where, and that the document
  is left with it from any depth (Faults.DocumentReports with Faults.WrongEndTag and its kin).
- **Encoding.** Behind a declaration, the name of the encoding alone decides how the rest is read
  (DeclaredEncoding.DeclarationSettles).
- **Layout.** Printed text is lines, each behind one copy of the indent for every level above it
  (Layout.NodesPrinted, Layout.NodeIsIndented); rows and columns are those of the text that is passed
  (Columns.RowAndColumn, Columns.ColumnBehindTab).
- **Codec.** Escaped text reads back as it was exactly when it has no `&#x`
  (EscapeLimits.ReadBackIffHexFree), text that is not escaped exactly when it has no `&`
  (RawText.RawTextIsKeptIff), condensing is joining the words (CodecLaws.OnePassCondenses),
  and every way to write a number in a reference gives that number (References.HexNumberIsRead).
- **Structure.** The child lists, the attribute ring, the string buffer and the streams refine
  sequences and maps; a clone is the same tree exactly under CloneSpec.CloneIsSame.

## Findings

What the code does not keep, each with an input and the exact condition.

- **Text with `&#x` is not escaped.** `&#x0A;` comes back as a line feed
  (EscapeLimits.WrittenReferenceIsResolved). It reads back as it was if and only if it has no `&#x`
  (EscapeLimits.ReadBackIffHexFree).
- **A byte-order mark as text is lost.** In UTF-8 the text EF BB BF is printed and read as no child
  (RoundTrip.MarkAloneGetsLost). Which texts show is decided by RoundTrip.TextChildReadsBack, and
  which read back as they are by DocumentRoundTrip.TextIsSame.
- **`Parse` runs past the terminator.** The text `<a>` with a lone E2, in UTF-8: `GetChar` steps over
  the terminator (Overrun.CutTextOverruns, Overrun.CutDocumentOverruns). A document does so if and
  only if a character of a text it reads is cut short (Spans.DocumentOverrunsIff).
- **`Stamp` hangs.** The text `<a `, a lone EF and `>`, in UTF-8: the report of the broken attribute is
  never finished (Stamps.HangTextHangs, Stamps.HangDocumentHangs). A document hangs if and only if the
  stamp loop visits a 0xEF that is cut short (Stamps.DocumentHangsIff), and never if it is parsed
  without error and overrun (NoHang.NoErrorNoHang).
- **A blank attribute ends the walk.** `TiXmlAttribute::Next` takes an attribute with empty name and
  value for the sentinel, so printing and cloning stop there (Xml.BlankEndsTheWalk). The walk visits
  all if and only if none behind the first is blank (Xml.ReachedIsAll, AttributeSpec.AttributesSurvive).
- **A lead byte the table does not know.** Numbers from 0x140000 to 0x1FFFFF are converted to bytes
  whose lead is F5 to F7. The bytes of 0x140000 are not reread as one character
  (CodecLaws.UnknownLeadIsReadAlone); those of a number are if and only if it is below 0x140000
  (CodecLaws.ConvertedCharReadsBack, Utf8.LeadAnnouncesLength).
- **A declaration is not escaped.** A version that is a double quote or an `&` is lost
  (DeclarationLimits.QuoteAndAmpersandAreLost). A declaration reads back if and only if none of its
  values has either (DeclarationLimits.DeclarationReadsBackIff).
- **Comparison is blind behind a NUL.** Two strings of one length that differ behind a NUL compare as
  equal (TinyString.SameIsBlindBehindNul, TinyString.SameDecidesIff).
- **Texts of 65536 bytes and more are cut.** `COutStream` writes the length modulo 65536 and that many
  bytes; one of 65536 bytes comes back empty (Streams.LongTextIsLost). Values come back unchanged if
  and only if every text is shorter (Streams.UnchangedIffShort).
- **An unknown entity loses its `&`.** `GetEntity` sets the value for an `&` that starts no entity, but
  the line that sets its length is commented out: `&b` is read as `b` (RawText.AmpersandIsLost). An `&`
  is lost by itself if and only if no reference starts there (RawText.VanishesIff), and raw text is
  kept if and only if it has no `&` (RawText.RawTextIsKeptIff).
- **A reference starts at its last marker.** What stands between `&#x` and the last `x` in front of the
  `;` is not looked at: `&#x!x42;` is read as `B` (References.JunkIsNotLookedAt). A reference with
  a `;` is refused if and only if something behind its last marker is no digit (References.HexRefusedIff,
  References.DecimalRefusedIff).

## Model

| member | source | states |
|---|---|---|
| DocumentRoundTrip.StreamRoundTrip | libsouth_interface/tinyxml.cpp:1763-1892 | stream printing a good document and parsing the text gives the same nodes exactly when every plain text reads back as it is: not blank, and tidy if white space is condensed, more than blanks and marks if it is kept |
| Reprint.RoundTripIffSound | libsouth_interface/tinyxml.cpp:1763-1892 | of the documents whose values survive escaping, stream printing and parsing gives back exactly the sound ones with texts that read back as they are, without error and inside the text: valid names, distinct attribute names, no plain text next to plain text or blank, CDATA without `]]>`, comments without `-->` |
| DocumentRoundTrip.DocumentReadsBack | libsouth_interface/tinyxmlparser.cpp:704-796 | parsing what was printed, in any white-space layout with condensing and in stream printing without it, ends without error, inside the text and with nothing left, and gives each node with its texts as they read back |
| DocumentRoundTrip.LayoutDoesNotMatter | libsouth_interface/tinyxml.cpp:1773-1861 | with condensing on, any two white-space layouts of a document parse to the same tree without error |
| DocumentRoundTrip.DocumentBackIsSame | libsouth_interface/tinyxmlparser.cpp:574-637 | what reads back is the document itself exactly when every plain text reads back as it is |
| DocumentRoundTrip.NonBlankTextShows | libsouth_interface/tinyxmlparser.cpp:1186-1213 | outside UTF-8 a printed text becomes a node again exactly when it is not blank |
| DocumentRoundTrip.TextIsSame | libsouth_interface/tinyxmlparser.cpp:1186-1213 | a printed text becomes one node with that text exactly when it is not blank and, condensed, tidy or, kept, more than blanks and byte-order marks |
| DocumentRoundTrip.EveryStringIsWhole | libsouth_interface/tinyxml.h:327-361 | outside UTF-8 every byte is a character, so no string has a character that is cut short |
| CodecLaws.WellFormedIsWhole | libsouth_interface/tinyxml.h:327-361 | well-formed UTF-8 (section 3 of RFC 3629) has no character that is cut short |
| Reprint.ParsePrintParse | libsouth_interface/tinyxmlparser.cpp:704-796 | parsing, stream printing and parsing again gives the first nodes exactly when every plain text reads back as it is |
| Reprint.DocumentIsSound | libsouth_interface/tinyxmlparser.cpp:704-796 | a document that parses without error and without overrunning has nodes, and each is sound under the encoding in effect at it |
| Reprint.NodesAreSound | libsouth_interface/tinyxmlparser.cpp:754-786 | the loop over the nodes of a document adds sound nodes only, as long as there is no error |
| Reload.PrintAndParse | libsouth_interface/tinyxml.cpp:1763-1892 | printing a real document with the visitor and parsing the text into a new one, whatever the encoding and the tab size, neither hangs nor overruns nor reports an error; the new nodes are the old ones as they read back, and the same exactly when every plain text reads back as it is; the old document is left alone |
| Reload.StreamPrint | libsouth_interface/tinyxml.h:1772-1774 | the buffer of a printer set to stream printing holds the print of the tree without any layout |
| Reload.ParseAfresh | libsouth_interface/tinyxmlparser.cpp:704-796 | parsing into a document just made gives nodes, end pointer and error of parsing into an empty document |
| RoundTrip.NodeReadsBack | libsouth_interface/tinyxml.cpp:1773-1892 | a printed node is identified as its kind and reads back at any depth, in any layout the parser condenses, whatever follows it; the pointer ends where the print ended |
| RoundTrip.ContentReadsBack | libsouth_interface/tinyxmlparser.cpp:1179-1247 | the printed children of an element read back in order, up to the end tag and no further |
| RoundTrip.ContentReadsOn | libsouth_interface/tinyxmlparser.cpp:1179-1247 | the printed children of an element are read in order, and the markup behind them is left, whatever it is |
| RoundTrip.TextChildReadsBack | libsouth_interface/tinyxmlparser.cpp:1186-1213 | a printed text between white space is read as exactly one text child if it shows, with its text condensed if it is to be, and as none if it does not show; what follows is read the same either way |
| RoundTrip.BlankOnceRead | libsouth_interface/tinyxmlparser.cpp:1199-1213 | whether a text shows can be told before it is printed: its value read back is blank exactly when what is left of it without leading blanks and marks is |
| RoundTrip.MarkAloneGetsLost | libsouth_interface/tinyxmlparser.cpp:1184-1213 | in UTF-8 a text that is just a byte-order mark is not blank, is printed, and is read as no child at all |
| RoundTrip.AttrsReadBack | libsouth_interface/tinyxmlparser.cpp:1083-1173 | printed attributes with distinct valid names read back in order, up to the end of the start tag |
| LeafRoundTrip.AttrReadsBack | libsouth_interface/tinyxml.cpp:1217-1240 | a printed attribute reads back name and value, whichever quote the printer chose |
| LeafRoundTrip.CommentReadsBackIff | libsouth_interface/tinyxmlparser.cpp:1337-1389 | a printed comment reads back exactly when it holds no `-->` |
| LeafRoundTrip.CdataReadsBackIff | libsouth_interface/tinyxmlparser.cpp:1511-1535 | a printed CDATA section reads back exactly when it holds no `]]>`; reading ends in null when nothing follows it |
| LeafRoundTrip.UnrecognizedReadsBack | libsouth_interface/tinyxmlparser.cpp:1275-1307 | a printed construct without `>` that is not mistaken for another kind is identified as unknown and reads back |
| LeafRoundTrip.DeclarationReadsBack | libsouth_interface/tinyxmlparser.cpp:1572-1629 | a printed declaration is identified as one and reads back with each of its three values, empty ones included, where no value holds `&` or a double quote (that it does not otherwise is DeclarationLimits.DeclarationReadsBackIff) |
| DeclarationLimits.DeclarationReadsBackIff | libsouth_interface/tinyxmlparser.cpp:1572-1629 | a printed declaration reads back, up to what follows it, exactly when none of its three values holds an `&` or a double quote |
| DeclarationLimits.VersionReadsBackIff | libsouth_interface/tinyxmlparser.cpp:1594-1627 | a declaration with a version and nothing else reads back, up to what follows it, exactly when the version holds no `&` and no double quote |
| DeclarationLimits.QuoteAndAmpersandAreLost | libsouth_interface/tinyxml.cpp:1425-1444 | neither a version that is a double quote nor one that is an `&` reads back |
| RawText.CharShrinks | libsouth_interface/tinyxmlparser.cpp:438-531 | a character that is read has no more bytes than it takes of the text, and fewer if it is a reference |
| RawText.ScanShrinks | libsouth_interface/tinyxmlparser.cpp:574-637 | text read up to a tag is never longer than what it was read from |
| RawText.FullLengthIsRaw | libsouth_interface/tinyxmlparser.cpp:574-595 | text that is read up to a tag without getting shorter has no `&` and no first byte of the tag |
| RawText.RawTextIsKeptIff | libsouth_interface/tinyxmlparser.cpp:574-595 | raw text in front of any end tag it holds no start of is read as its own bytes exactly when it has no `&` |
| RawText.VanishesIff | libsouth_interface/tinyxmlparser.cpp:513-531 | an `&` is read as no byte, and nothing else with it, exactly when neither a numeric reference nor one of the five named ones starts there |
| RawText.AmpersandIsLost | libsouth_interface/tinyxmlparser.cpp:526-530 | the text `&b` in front of a `<` is read as `b` |
| DeclarationLimits.DeclarationTakes | libsouth_interface/tinyxmlparser.cpp:1594-1627 | what the rest of a declaration gives and the declaration read before does not has its price in the text that is read: each value its name, its equals sign and its bytes, two more if it holds a double quote; and there is a `>` too |
| LeafRoundTrip.NameReadsBack | libsouth_interface/tinyxmlparser.cpp:401-436 | a valid name is read whole and no further, and nothing is skipped in front of it |
| CodecLaws.KeptTextReadsBack | libsouth_interface/tinyxmlparser.cpp:574-595 | escaped text, its end tag and at least one more byte read as the text itself, for every text without `&#x` and without cut characters |
| EscapeLimits.ReadBackIffHexFree | libsouth_interface/tinyxml.cpp:60-82 | escaped text reads back as it was exactly when it has no `&#x` |
| EscapeLimits.ReadBackIsNoLonger | libsouth_interface/tinyxml.cpp:60-82 | text that reads back up to its end tag never grows, and gets shorter if it has `&#x` |
| EscapeLimits.WrittenReferenceIsResolved | libsouth_interface/tinyxml.cpp:60-82 | the reference `&#x0A;` passes through escaping and comes back as a line feed |
| EscapeLimits.EscapedTextHasNoDelimiter | libsouth_interface/tinyxml.cpp:52-133 | escaped text without `&#x` holds no raw `<`, `>`, double quote or apostrophe |
| EscapeLimits.EscapedTextHasNoControl | libsouth_interface/tinyxml.cpp:108-124 | escaped text without `&#x` holds no byte below the blank |
| EscapeLimits.EscapeIsSameIff | libsouth_interface/tinyxml.cpp:83-131 | of text without `&#x`, exactly that without `&`, `<`, `>`, quotes and bytes below the blank is left as it is |
| EscapeLimits.ReferencePassesThrough | libsouth_interface/tinyxml.cpp:60-82 | a hexadecimal reference that was written already passes through up to its `;`, whatever stands in it, and escaping goes on behind it |
| EscapeLimits.UnendedPassesThrough | libsouth_interface/tinyxml.cpp:60-82 | without a `;` all but the last byte passes through, and that is escaped |
| CodecLaws.CondensedTextReadsBack | libsouth_interface/tinyxmlparser.cpp:596-637 | with condensing, escaped text reads as the text condensed, whatever raw white space surrounds it |
| EscapeLimits.CondensedIffTidy | libsouth_interface/tinyxmlparser.cpp:596-637 | condensing leaves a text as it is exactly when it is tidy |
| CodecLaws.OnePassCondenses | libsouth_interface/tinyxmlparser.cpp:596-633 | the pass with one pending space equals the words of the text joined by single spaces; white space from references counts as part of a word |
| CodecLaws.ScanInvertsEscape | libsouth_interface/tinyxmlparser.cpp:574-637 | scanning escaped text gives its characters one by one, only raw blanks marked as white space, and then what follows |
| CodecLaws.ScanStopsAtTag | libsouth_interface/tinyxmlparser.cpp:586-611 | scanning stops inside the text nowhere but at the end tag |
| CodecLaws.EscapedCharReadsBack | libsouth_interface/tinyxml.cpp:52-133 | the first character of escaped text rereads as the first character of the text |
| CodecLaws.ControlReference | libsouth_interface/tinyxml.cpp:108-124 | a control byte, escaped in hexadecimal, reads back as that byte |
| References.ControlIsWritten | libsouth_interface/tinyxml.cpp:108-124 | a control byte is escaped as `&#x`, its two hexadecimal digits in upper case and `;` |
| CodecLaws.NamedReference | libsouth_interface/tinyxmlparser.cpp:513-524 | the five named references read back as the characters they stand for |
| CodecLaws.ConvertedCharReadsBack | libsouth_interface/tinyxml.h:327-361 | the bytes of a converted character number reread as one character exactly below 0x140000 |
| CodecLaws.UnknownLeadIsReadAlone | libsouth_interface/tinyxmlparser.cpp:66-85 | the number 0x140000 is converted to bytes that start with 0xF5, and that byte is read as a character alone |
| Utf8.EncodeThenDecode | libsouth_interface/tinyxmlparser.cpp:88-126 | up to 0x10FFFF the conversion writes a sequence of section 3 of RFC 3629, which decodes to the number; surrogates are converted like other numbers |
| Utf8.DecodeThenEncode | libsouth_interface/tinyxmlparser.cpp:88-126 | every sequence section 3 of RFC 3629 allows, surrogates included, is what the conversion writes for its number, so there is only one |
| Utf8.LeadAnnouncesLength | libsouth_interface/tinyxmlparser.cpp:66-85 | the byte table gives the length that was written exactly for numbers below 0x140000 |
| Utf8.TableKnowsChars | libsouth_interface/tinyxmlparser.cpp:66-85 | the byte table gives the length of every sequence section 3 of RFC 3629 allows |
| Utf8.TableKnowsNoOthers | libsouth_interface/tinyxmlparser.cpp:66-85 | each lead byte for which it gives more than one starts such a sequence of that length |
| Utf8.ConvertUTF32ToUTF8 | libsouth_interface/tinyxmlparser.cpp:88-126 | fills the array from the back with exactly the bytes of the conversion, none above 0x1FFFFF, and leaves the rest of the array alone |
| Bits.ConvertedAsInSource | libsouth_interface/tinyxmlparser.cpp:88-126 | the bytes of the conversion are, from the last to the first, those the masks, shifts and lead marks of the source compute from its input, for every length |
| Scanner.NumberFromTheRight | libsouth_interface/tinyxmlparser.cpp:464-499 | a digit in front adds its value times the base to the number of digits behind it, so adding from the right gives the number read from the left |
| Scanner.SumRound | libsouth_interface/tinyxmlparser.cpp:464-499 | one round of adding up, with sum and weight wrapping at 2^32, keeps the number of the digits seen modulo 2^32 |
| Scanner.SumDigits | libsouth_interface/tinyxmlparser.cpp:445-512 | digits are accepted exactly when all are of the base, and then the result is their number modulo 2^32 however long they are, so the number itself below 2^32 |
| Scanner.ReadNumber | libsouth_interface/tinyxmlparser.cpp:445-512 | a numeric reference is the digits between the last marker and the first semicolon, or fails |
| Scanner.GetEntity | libsouth_interface/tinyxmlparser.cpp:438-531 | numeric and named references are resolved as specified, an unknown `&` yields no byte, and a failed reference yields null and no byte |
| References.HexNumberIsRead | libsouth_interface/tinyxmlparser.cpp:451-484 | every number, in hexadecimal digits of either case with any leading zeros, between `&#x` and `;` is read as that number modulo 2^32: its UTF-8 sequence in UTF-8, its low byte otherwise; what stands between `&#x` and the last `x` in front of the `;` is not looked at |
| References.DecimalNumberIsRead | libsouth_interface/tinyxmlparser.cpp:480-511 | every number in decimal digits, with any leading zeros, between `&#` and `;` is read as that number modulo 2^32: its UTF-8 sequence or its low byte |
| References.CaseDoesNotMatter | libsouth_interface/tinyxmlparser.cpp:466-476 | two ways to write a number in hexadecimal digits, by case and leading zeros, are read alike |
| References.HexRefusedIff | libsouth_interface/tinyxmlparser.cpp:464-479 | a hexadecimal reference is refused exactly when one of the bytes behind its last `x` is none of 0-9, a-f and A-F |
| References.DecimalRefusedIff | libsouth_interface/tinyxmlparser.cpp:491-499 | a decimal reference is refused exactly when one of the bytes behind its last `#` is none of 0-9 |
| References.UnendedIsRefused | libsouth_interface/tinyxmlparser.cpp:456-459 | a numeric reference without a `;` is refused |
| References.LowerCaseDigits | libsouth_interface/tinyxmlparser.cpp:464-479 | `&#xe9;` and `&#xE9;` are read as E9, and as C3 A9 in UTF-8 |
| References.JunkIsNotLookedAt | libsouth_interface/tinyxmlparser.cpp:464-479 | `&#x!x42;` is read as `B` |
| Scanner.GetChar | libsouth_interface/tinyxml.h:327-361 | one character by the byte table in UTF-8, or one resolved reference; a pointer past the terminator exactly where the sequence is cut short |
| Scanner.SkipWhiteSpace | libsouth_interface/tinyxmlparser.cpp:314-362 | null or the first byte that is neither white space nor, in UTF-8, part of a byte-order mark or non-character |
| Scanner.ReadName | libsouth_interface/tinyxmlparser.cpp:401-436 | the longest name at the pointer, null where none starts |
| Scanner.StringEqual | libsouth_interface/tinyxmlparser.cpp:534-572 | true exactly when the tag is a prefix of what is ahead; false at the terminator |
| Scanner.StringEqualIgnoringCase | libsouth_interface/tinyxmlparser.cpp:534-572 | true exactly when the tag is a prefix of what is ahead, up to the case of ASCII letters |
| Scanner.ReadText | libsouth_interface/tinyxmlparser.cpp:574-637 | the text up to the end tag, condensed only if white space is to be trimmed and condensed; null unless a byte follows the end tag |
| Scanner.ReadKept | libsouth_interface/tinyxmlparser.cpp:582-595 | the loop without condensing yields the characters up to the end tag one after the other |
| Scanner.ReadCondensed | libsouth_interface/tinyxmlparser.cpp:596-633 | the loop with a pending-space flag yields the words of the text with one blank between them |
| Scanner.EncodeString | libsouth_interface/tinyxml.cpp:52-133 | the loop over the string and the inner loop over a passed-through reference write the escaped text |
| Scanner.EncodeByte | libsouth_interface/tinyxml.cpp:83-131 | every byte outside of a passed-through reference is replaced alone: five by name, those below 32 in hexadecimal, the others by themselves |
| LooseSyntax.NameIsRead | libsouth_interface/tinyxmlparser.cpp:401-436 | a name is read up to the first byte that is no ASCII letter or digit, underscore, dash, dot or colon and is below 127; null where none starts: a letter, an underscore or a byte from 127 on |
| LooseSyntax.OneIsSkipped | libsouth_interface/tinyxmlparser.cpp:314-362 | a blank, a byte from tab to carriage return and, in UTF-8, EF BB BF, EF BF BE and EF BF BF are skipped |
| LooseSyntax.NothingElseIsSkipped | libsouth_interface/tinyxmlparser.cpp:314-362 | in front of anything but white space and, in UTF-8, these three marks nothing is skipped |
| LooseSyntax.BlankTextIsLeftOut | libsouth_interface/tinyxmlparser.cpp:1206-1213 | a text that was read becomes no node exactly if all its bytes are blanks or bytes from tab to carriage return |
| LooseSyntax.SameButForCase | libsouth_interface/tinyxmlparser.cpp:534-558 | where case is ignored, two bytes pass for each other exactly if they are equal or one ASCII letter in its two cases |
| LooseSyntax.SpacedAttribute | libsouth_interface/tinyxmlparser.cpp:1416-1434 | white space around the `=` of an attribute changes nothing |
| LooseSyntax.BareValueIsRead | libsouth_interface/tinyxmlparser.cpp:1440-1461 | an unquoted value is all the bytes up to white space, `/`, `>` or the terminator; a quote in front of these is an error at the quote |
| LooseSyntax.BareAttributeInTag | libsouth_interface/tinyxmlparser.cpp:1139-1172 | in a start tag, a name, `=` and an unquoted value, with white space anywhere around the `=`, are read as that attribute |
| LooseSyntax.BareExample | libsouth_interface/tinyxmlparser.cpp:1440-1461 | `<a b=12/>` is the element with the value 12 |
| LooseSyntax.EmptyTag | libsouth_interface/tinyxmlparser.cpp:1092-1102 | an element without content ends behind its `/>`, whatever white space is in front |
| LooseSyntax.SpacedEndTag | libsouth_interface/tinyxmlparser.cpp:1117-1128 | white space in front of the `>` of an end tag changes nothing |
| LooseSyntax.KindIs | libsouth_interface/tinyxmlparser.cpp:818-899 | what starts at a `<` by its first bytes: `<?xml` in any case of its letters a declaration, `<!--` a comment, `<![CDATA[` a section, a byte that starts names an element, all else unknown |
| LooseSyntax.DeclaredInAnyCase | libsouth_interface/tinyxmlparser.cpp:1602-1620 | the names of the values of a declaration are read in any case of their letters, the values in either quote, with white space around the `=` |
| LooseSyntax.JunkIsReadOver | libsouth_interface/tinyxmlparser.cpp:1621-1626 | what starts like none of the three names is read over up to white space or `>` |
| LooseSyntax.DeclaredHasNoNul | libsouth_interface/tinyxmlparser.cpp:1602-1620 | no value a declaration is read with holds a NUL, even where a reference stands for one |
| LooseSyntax.UnclosedComment | libsouth_interface/tinyxmlparser.cpp:1378-1388 | a comment that is not closed is the rest of the text, without an error |
| LooseSyntax.UnclosedCdata | libsouth_interface/tinyxmlparser.cpp:1523-1534 | a section that is not closed is the rest of the text, without an error, and null is returned |
| LooseSyntax.UnclosedUnrecognized | libsouth_interface/tinyxmlparser.cpp:1291-1307 | an unknown construct without `>` is the rest of the text, without an error |
| LooseSyntax.UnclosedDeclaration | libsouth_interface/tinyxmlparser.cpp:1594-1629 | a declaration without `>` in which none of its values starts holds nothing, without an error, and null is returned |
| LooseSyntax.UnendedText | libsouth_interface/tinyxmlparser.cpp:582-595 | raw text without its end tag is read to the end, and null is returned |
| LooseSyntax.TextBeforeRefused | libsouth_interface/tinyxmlparser.cpp:582-595 | the text in front of a reference that is refused is read, and null is returned |
| Parser.NodeAt | libsouth_interface/tinyxmlparser.cpp:818-899 | parsing a node of any kind returns null, a pointer past the terminator or a strictly later position |
| Parser.ElementAt | libsouth_interface/tinyxmlparser.cpp:1043-1176 | an element, though its parse calls itself through its content, returns null, a pointer past the terminator or a strictly later position, and yields an element |
| Parser.TagAt | libsouth_interface/tinyxmlparser.cpp:1073-1176 | behind the name of an element, parsing returns null, a pointer past the terminator or a strictly later position |
| Parser.ContentAt | libsouth_interface/tinyxmlparser.cpp:1179-1247 | content never ends before its start; where it ends with bytes ahead, an end tag is ahead |
| Parser.AttributeAt | libsouth_interface/tinyxmlparser.cpp:1392-1463 | null, a pointer past the terminator or a strictly later position; what is read has a valid name, and only a null result reports a fault |
| Parser.DeclarationBodyAt | libsouth_interface/tinyxmlparser.cpp:1572-1629 | the loop over a declaration ends on every input and reports no error |
| Parser.TextProgress | libsouth_interface/tinyxmlparser.cpp:574-637 | character data takes at least one byte besides its end tag |
| Parser.PlainTextAt | libsouth_interface/tinyxmlparser.cpp:1538-1545 | character data ends strictly later, at its `<`, or in null |
| Consumed.ElementAhead | libsouth_interface/tinyxmlparser.cpp:1043-1176 | reading an element ends in null, past the terminator (see Overrun) or at a suffix of the buffer it was given |
| Consumed.ContentAhead | libsouth_interface/tinyxmlparser.cpp:1179-1247 | reading the content of an element ends in null, past the terminator (see Overrun) or at a suffix of the buffer it was given |
| Consumed.TagAhead | libsouth_interface/tinyxmlparser.cpp:1073-1176 | reading the rest of an element behind its name ends in null, past the terminator (see Overrun) or at a suffix of the buffer it was given |
| Consumed.EndTagAhead | libsouth_interface/tinyxmlparser.cpp:1117-1137 | reading an end tag ends in null, past the terminator (see Overrun) or at a suffix of the buffer it was given |
| Consumed.NodeAhead | libsouth_interface/tinyxmlparser.cpp:818-899 | reading a node of any kind ends in null, past the terminator (see Overrun) or at a suffix of the buffer it was given |
| Consumed.AttributeAhead | libsouth_interface/tinyxmlparser.cpp:1392-1463 | reading an attribute ends in null, past the terminator (see Overrun) or at a suffix of the buffer it was given |
| Consumed.DeclarationAhead | libsouth_interface/tinyxmlparser.cpp:1572-1629 | reading a declaration ends in null, past the terminator (see Overrun) or at a suffix of the buffer it was given |
| Consumed.CommentAhead | libsouth_interface/tinyxmlparser.cpp:1337-1389 | reading a comment ends in null, past the terminator (see Overrun) or at a suffix of the buffer it was given |
| Consumed.CdataAhead | libsouth_interface/tinyxmlparser.cpp:1511-1535 | reading a CDATA section ends in null, past the terminator (see Overrun) or at a suffix of the buffer it was given |
| Consumed.UnrecognizedAhead | libsouth_interface/tinyxmlparser.cpp:1275-1307 | reading an unknown construct ends in null, past the terminator (see Overrun) or at a suffix of the buffer it was given |
| Consumed.PlainTextAhead | libsouth_interface/tinyxmlparser.cpp:1538-1545 | reading character data ends in null, past the terminator (see Overrun) or at a suffix of the buffer it was given |
| Consumed.TextAhead | libsouth_interface/tinyxmlparser.cpp:574-637 | reading text up to an end tag ends in null, past the terminator (see Overrun) or at a suffix of the buffer it was given |
| Consumed.ScanAhead | libsouth_interface/tinyxmlparser.cpp:574-637 | reading a run of characters ends in null, past the terminator (see Overrun) or at a suffix of the buffer it was given |
| Consumed.CharAhead | libsouth_interface/tinyxml.h:327-361 | reading one character or reference ends in null, past the terminator (see Overrun) or at a suffix of the buffer it was given |
| Consumed.SkipWsAhead | libsouth_interface/tinyxmlparser.cpp:314-362 | skipping white space ends at a suffix of the buffer, at the terminator at the latest |
| Overrun.CharOverrunsIffCut | libsouth_interface/tinyxml.h:327-361 | one character runs past the terminator exactly when its lead byte announces more bytes than are left |
| Overrun.ScanOverrunsIffCut | libsouth_interface/tinyxmlparser.cpp:582-633 | reading up to a tag runs past the terminator exactly when a character it reads is cut short |
| Overrun.TextOverrunsIffCut | libsouth_interface/tinyxmlparser.cpp:574-637 | reading text runs past the terminator exactly when a character it reads, behind the white space it skips, is cut short |
| Spans.AttributeOverrunsIff | libsouth_interface/tinyxmlparser.cpp:1392-1463 | an attribute runs past the terminator exactly when a character of its quoted value is cut short |
| Spans.DeclarationOverrunsIff | libsouth_interface/tinyxmlparser.cpp:1572-1629 | a declaration runs past the terminator exactly when a character of a quoted value it reads is cut short |
| Spans.CdataStaysInside | libsouth_interface/tinyxmlparser.cpp:1511-1535 | a CDATA section never runs past the terminator, in any encoding |
| Spans.TextIsCutIff | libsouth_interface/tinyxmlparser.cpp:1538-1545 | character data runs past the terminator exactly when a character it reads is cut short |
| Spans.NodeOverrunsIff | libsouth_interface/tinyxmlparser.cpp:818-899 | a node of any kind runs past the terminator exactly when a character of a text it reads is cut short |
| Spans.ElementOverrunsIff | libsouth_interface/tinyxmlparser.cpp:1043-1176 | an element, with all it nests, runs past the terminator exactly when a character of a text it reads is cut short |
| Spans.TagOverrunsIff | libsouth_interface/tinyxmlparser.cpp:1073-1176 | behind the name, an element runs past the terminator exactly when a character of a quoted value or of a text in its content is cut short |
| Spans.ContentOverrunsIff | libsouth_interface/tinyxmlparser.cpp:1179-1247 | content runs past the terminator exactly when a character of a text it reads, at any depth, is cut short |
| Spans.DocumentOverrunsIff | libsouth_interface/tinyxmlparser.cpp:704-796 | a document runs past the terminator exactly when a character of one of the texts it reads is cut short, under the encoding in effect there |
| Overrun.ElementSturdy | libsouth_interface/tinyxmlparser.cpp:1043-1176 | in text into which every UTF-8 sequence fits, no element runs past the terminator |
| Overrun.ContentSturdy | libsouth_interface/tinyxmlparser.cpp:1179-1247 | in text into which every UTF-8 sequence fits, no content runs past the terminator, whatever it nests |
| Overrun.NodeSturdy | libsouth_interface/tinyxmlparser.cpp:818-899 | in text into which every UTF-8 sequence fits, no node runs past the terminator, and what is left is such a text again |
| Overrun.AttributeSturdy | libsouth_interface/tinyxmlparser.cpp:1392-1463 | in text into which every UTF-8 sequence fits, no attribute runs past the terminator |
| Overrun.DocumentStaysInside | libsouth_interface/tinyxmlparser.cpp:704-796 | a document whose text every UTF-8 sequence fits into stays inside its text; in the legacy encoding every document does |
| Overrun.WellFormedIsUncut | libsouth_interface/tinyxmlparser.cpp:66-85 | every UTF-8 sequence fits into well-formed UTF-8, so the condition is met there |
| Overrun.CutTextOverruns | libsouth_interface/tinyxml.h:344-354 | parsing the element `<a>` with a lone 0xE2 behind it, in UTF-8, runs past the terminator |
| Overrun.CutDocumentOverruns | libsouth_interface/tinyxmlparser.cpp:754-786 | so does parsing that text as a document |
| Stamps.HangsIffCutShort | libsouth_interface/tinyxmlparser.cpp:196-311 | the stamps of a parse hang exactly when the stamp loop, on its way to the furthest place that is stamped, visits a 0xEF that two more bytes do not follow |
| Stamps.DocumentHangsIff | libsouth_interface/tinyxmlparser.cpp:704-796 | parsing a document hangs in a stamp exactly when the stamp loop visits a 0xEF that is cut short, on its way to the furthest place stamped under the encoding it starts with or, from there, to the furthest one under the encoding a declaration settles |
| Stamps.NodesRunIs | libsouth_interface/tinyxmlparser.cpp:754-786 | the cursor of a document follows the places stamped before and then those stamped after the encoding is settled |
| Stamps.KnownStays | libsouth_interface/tinyxmlparser.cpp:767-783 | an encoding that is known is never changed, so it changes once at most |
| Reported.NodeIsStampedFirst | libsouth_interface/tinyxmlparser.cpp:818-899 | the first place a node stamps is the one where it starts |
| Reported.AttributeIsStampedFirst | libsouth_interface/tinyxmlparser.cpp:1404-1415 | the first place an attribute stamps is the one where it starts |
| Reported.TextIsStampedFirst | libsouth_interface/tinyxmlparser.cpp:1187-1204 | the first place a text stamps is where it starts: behind white space that is condensed, in front of white space that is kept |
| Reported.ElementEndsWith | libsouth_interface/tinyxmlparser.cpp:1043-1176 | if an element leaves an error with a place, it is the last place it stamps |
| Reported.DocumentStampsItsError | libsouth_interface/tinyxmlparser.cpp:798-815 | the place of the error a document is left with is stamped |
| Stamps.FollowIsStampedAll | libsouth_interface/tinyxmlparser.cpp:196-311 | following the places a parse stamps is stamping them one after the other |
| Stamps.UncutNeverHangs | libsouth_interface/tinyxmlparser.cpp:256-296 | in text into which every sequence fits no stamp hangs, wherever and in whatever order the places are |
| Stamps.DocumentIsParsed | libsouth_interface/tinyxmlparser.cpp:704-796 | a document whose text every UTF-8 sequence fits into is parsed to the end: no stamp hangs and the pointer stays inside |
| Stamps.HangTextHangs | libsouth_interface/tinyxmlparser.cpp:1411-1415 | parsing the element `<a `, a lone 0xEF and `>`, in UTF-8, reports the attribute at the `>`, and the stamp of that report hangs |
| Stamps.HangDocumentHangs | libsouth_interface/tinyxmlparser.cpp:798-815 | so does parsing that text as a document, for every tab size from 1 on |
| Stamps.StampAt | libsouth_interface/tinyxmlparser.cpp:204-209 | stamping at a pointer moves the cursor to where the stamp loop takes it |
| NoHang.NoErrorNoHang | libsouth_interface/tinyxmlparser.cpp:704-796 | a document that parses without error and without overrunning never hangs in a stamp, whatever the tab size |
| NoHang.ContentPlaces | libsouth_interface/tinyxmlparser.cpp:1179-1247 | in content that ends at its end tag every place that is stamped has two more bytes ahead |
| NoHang.TagPlaces | libsouth_interface/tinyxmlparser.cpp:1073-1176 | in an element that is complete every place that is stamped behind its name has two more bytes ahead |
| NoHang.NodeBehind | libsouth_interface/tinyxmlparser.cpp:818-899 | a node of any kind that ends with bytes ahead ends right behind a `>` |
| NoHang.NodeNeverHangs | libsouth_interface/tinyxmlparser.cpp:818-899 | no stamp hangs in a node of a document that starts where no 0xEF is in front and, if it is an element, is complete |
| NoHang.PrintedDocumentIsParsed | libsouth_interface/tinyxml.cpp:1763-1892 | what was printed of a good document is parsed without a hang and inside the text, in every layout and for every tab size |
| ErrorLaws.ElementNullIffError | libsouth_interface/tinyxmlparser.cpp:1043-1176 | with the error clear, an element returns null exactly when the error is set on return, at every depth (and if it runs past the terminator none is set); a set error keeps its id and place |
| ErrorLaws.TagNullIffError | libsouth_interface/tinyxmlparser.cpp:1073-1176 | behind the name of an element, null is returned exactly when the error is set on return; a set error keeps its id and place |
| ErrorLaws.ContentReports | libsouth_interface/tinyxmlparser.cpp:1179-1247 | content that sets an error returns null; a set error keeps its id and place |
| ErrorLaws.NodeReports | libsouth_interface/tinyxmlparser.cpp:798-815 | a node of any kind that sets an error returns null; a set error keeps its id and place |
| ErrorLaws.NodesReport | libsouth_interface/tinyxmlparser.cpp:754-786 | a set error stays as it is for the rest of the document, and nodes are only added |
| ErrorLaws.EmptyDocumentIsAnError | libsouth_interface/tinyxmlparser.cpp:788-792 | a document in which no node is recognized is left with the error for an empty one and null |
| Faults.WrongEndTag | libsouth_interface/tinyxmlparser.cpp:1130-1136 | behind good content, an end tag of another name leaves the error for reading the end tag, at its `</` |
| Faults.UnclosedEndTag | libsouth_interface/tinyxmlparser.cpp:1117-1129 | an end tag with the right name and no `>` leaves that error where the `>` should be |
| Faults.TextEndsInContent | libsouth_interface/tinyxmlparser.cpp:1103-1111 | text that ends behind a start tag leaves the error for reading the value, or, behind white space, the one for the end tag at the very end |
| Faults.TextEndsBehindChildren | libsouth_interface/tinyxmlparser.cpp:1240-1247 | text that ends behind children, the last of which is markup, leaves the same errors |
| Faults.TextEndsInText | libsouth_interface/tinyxmlparser.cpp:1240-1247 | text that ends in character data leaves the error for reading the value, without a place |
| Faults.TextEndsInTag | libsouth_interface/tinyxmlparser.cpp:1083-1091 | text that ends in white space inside a start tag leaves the error for reading attributes, where that white space starts |
| Faults.TextEndsInName | libsouth_interface/tinyxmlparser.cpp:1064-1072 | text that ends in the name of an element leaves the error for reading its name, where the name starts |
| Faults.NoElementName | libsouth_interface/tinyxmlparser.cpp:1064-1072 | an element whose `<` no name follows leaves that error where the name should be |
| Faults.NothingOfItsKind | libsouth_interface/tinyxmlparser.cpp:1275-1289 | an element, comment, section, declaration or unknown construct that does not start where it is parsed leaves the error of its kind, at that place but for a declaration |
| Faults.SlashWithoutGt | libsouth_interface/tinyxmlparser.cpp:1092-1102 | a `/` without `>` leaves the error for empty tags, behind the `/` |
| Faults.RepeatedAttribute | libsouth_interface/tinyxmlparser.cpp:1158-1170 | an attribute whose name is taken leaves the error for parsing elements, at its start |
| Faults.AttributeWithoutEquals | libsouth_interface/tinyxmlparser.cpp:1423-1428 | a name without `=` leaves the error for reading attributes, where the `=` should be |
| Faults.TextEndsInAttributeName | libsouth_interface/tinyxmlparser.cpp:1416-1422 | text that ends in the name of an attribute leaves that error where the name starts |
| Faults.NoAttributeName | libsouth_interface/tinyxmlparser.cpp:1416-1422 | what is no name, where an attribute should start, leaves that error there |
| Faults.NothingBehindEquals | libsouth_interface/tinyxmlparser.cpp:1430-1436 | text that ends behind the `=` leaves that error, at the end if white space follows the `=` and without a place if not |
| Faults.QuoteInBareValue | libsouth_interface/tinyxmlparser.cpp:1449-1455 | a quote in an unquoted value leaves that error, at the quote |
| Faults.TextEndsInValue | libsouth_interface/tinyxmlparser.cpp:1150-1156 | text that ends in a quoted value, or right behind it, leaves the error for parsing elements, where the attribute starts |
| Faults.FaultPassesAllUp | libsouth_interface/tinyxmlparser.cpp:1216-1240 | an element that fails leaves the elements around it, at any depth and behind any good children, with the same error |
| Faults.DocumentReports | libsouth_interface/tinyxmlparser.cpp:754-796 | a document is left with the error of its first element that fails, at its place, and the nodes in front are kept |
| Faults.DocumentStopsAtText | libsouth_interface/tinyxmlparser.cpp:754-765 | text that is no markup ends the parse of a document where it stands, which is no error |
| Faults.WrongEndTagExample | libsouth_interface/tinyxmlparser.cpp:1130-1136 | `<a></b>` leaves the error for reading the end tag, at its second `<` |
| Soundness.ElementIsSound | libsouth_interface/tinyxmlparser.cpp:1043-1176 | in a parsed element all names are valid, attribute names distinct, plain text is not blank and never next to plain text, CDATA has no `]]>`, comments no `-->`, all the way down |
| Soundness.ElementTextIsSound | libsouth_interface/tinyxmlparser.cpp:1043-1176 | the text an element took opens with `<` and its name and closes with `/>` or an end tag of that name |
| Soundness.TagCloses | libsouth_interface/tinyxmlparser.cpp:1083-1175 | from behind the name, the text taken ends with `/>` or the matching end tag |
| Soundness.ContentIsSound | libsouth_interface/tinyxmlparser.cpp:1179-1247 | sound children stay sound: the loop adds no blank text and no two plain texts in a row |
| Soundness.TagIsSound | libsouth_interface/tinyxmlparser.cpp:1083-1173 | the attributes read have valid and distinct names and the element is sound |
| Soundness.TagKeepsName | libsouth_interface/tinyxmlparser.cpp:1073-1176 | the element keeps the name it was read with and the attributes read before |
| Soundness.NodeIsSound | libsouth_interface/tinyxmlparser.cpp:818-899 | the node Identify chose and Parse filled is sound, not plain text, and never looks like an end tag |
| Soundness.LeafIsSound | libsouth_interface/tinyxmlparser.cpp:818-899 | a leaf that Identify chose and Parse filled is sound, whatever its kind, and neither plain text nor like an end tag |
| Soundness.CommentIsSound | libsouth_interface/tinyxmlparser.cpp:1378-1388 | a parsed comment holds no `-->` |
| Soundness.CdataIsSound | libsouth_interface/tinyxmlparser.cpp:1523-1530 | a parsed CDATA section holds no `]]>` |
| Soundness.UnrecognizedIsSound | libsouth_interface/tinyxmlparser.cpp:1275-1307 | a parsed unknown construct holds no `>` and would be identified as unknown again |
| Soundness.AttributeNameIsGood | libsouth_interface/tinyxmlparser.cpp:1404-1409 | an attribute that was read has a name that can be read back |
| DomParser.ParseDocument | libsouth_interface/tinyxmlparser.cpp:704-796 | if no stamp hangs: builds a forest in which the children of the document, the end pointer and the error are those of the document parse, behind the children there were |
| DomParser.ReadNodes | libsouth_interface/tinyxmlparser.cpp:754-786 | the loop links in the nodes of the document, under the encoding a declaration settles, and moves the cursor over every place that is stamped |
| DomParser.DocumentRound | libsouth_interface/tinyxmlparser.cpp:754-786 | one round links one node in and takes at least a byte, or ends the loop; what the loop will give stays the same |
| DomParser.ReadEncoding | libsouth_interface/tinyxmlparser.cpp:767-783 | the encoding is unchanged unless unknown; a declaration settles it by its name |
| DomParser.Complain | libsouth_interface/tinyxmlparser.cpp:788-792 | the error of an empty document leaves the nodes alone |
| DomParser.Begin | libsouth_interface/tinyxmlparser.cpp:704-752 | the error is cleared, the cursor set up at row 0 and column 0, white space skipped; the nodes are left alone |
| DomParser.ParseElement | libsouth_interface/tinyxmlparser.cpp:1043-1176 | fills the element and builds the tree, end pointer, error and cursor the element parse describes; the links are well formed and all other nodes new |
| DomParser.ParseTag | libsouth_interface/tinyxmlparser.cpp:1073-1176 | attributes are read into the ring, children linked in, and tree, end pointer, error and cursor are those described for the rest of an element |
| DomParser.FinishTag | libsouth_interface/tinyxmlparser.cpp:1087-1138 | where no attribute starts, an empty tag, the content with its end tag, or the error that is due |
| DomParser.ParseContent | libsouth_interface/tinyxmlparser.cpp:1103-1138 | the element gets the children of its content, and pointer, error and cursor are those behind its end tag |
| DomParser.ReadEndTag | libsouth_interface/tinyxmlparser.cpp:1117-1137 | past the end tag with its white space, or null with the error and its place stamped |
| DomParser.ReadValue | libsouth_interface/tinyxmlparser.cpp:1179-1247 | the children read are linked into the element in order and nothing else in it changes; pointer, error and cursor are those of the content |
| DomParser.ReadRound | libsouth_interface/tinyxmlparser.cpp:1187-1240 | one round keeps what the content parse and its cursor will give and takes at least a byte |
| DomParser.AddText | libsouth_interface/tinyxmlparser.cpp:1189-1214 | a text child is linked in unless it is blank |
| DomParser.AddNode | libsouth_interface/tinyxmlparser.cpp:1224-1236 | the node identified is parsed and linked in, whatever it is |
| DomParser.AddChild | libsouth_interface/tinyxmlparser.cpp:1226-1231 | the node is parsed and becomes the last child; the children before it stay as they were |
| DomParser.Identify | libsouth_interface/tinyxmlparser.cpp:818-899 | a new node of the kind that starts at the pointer, none if no `<` is there |
| DomParser.ReadAttribute | libsouth_interface/tinyxmlparser.cpp:1141-1172 | the attribute joins the ring unless it cannot be read or its name is taken, with the error and its place stamped in these cases |
| DomParser.MakeAttribute | libsouth_interface/tinyxmlparser.cpp:1142-1150 | a new attribute with what is read, and what goes wrong reported to the document at its place |
| DomParser.ParseLeaf | libsouth_interface/tinyxmlparser.cpp:818-899 | a node without children is filled, and pointer, error and cursor are those described for its kind; it stays a forest of its own |
| DomParser.ParseNode | libsouth_interface/tinyxmlparser.cpp:757-760 | for every kind of node, tree, pointer, error and cursor are those described for it |
| Reader.SetErrorAt | libsouth_interface/tinyxmlparser.cpp:798-815 | a first error is kept with its place, which is stamped; later ones change nothing |
| Reader.ParseAttribute | libsouth_interface/tinyxmlparser.cpp:1392-1463 | name, value, end pointer and fault of an attribute in either quote or in none; its start is stamped |
| Reader.ReadBareValue | libsouth_interface/tinyxmlparser.cpp:1445-1461 | an unquoted value ends at white space, `/` or `>`; a quote in it is an error |
| Reader.ParseComment | libsouth_interface/tinyxmlparser.cpp:1337-1389 | the value is everything before the first `-->`, read over if it is there |
| Reader.ReadUpTo | libsouth_interface/tinyxmlparser.cpp:1378-1386 | the bytes before the first closing tag, or all of them |
| Reader.ParseCdata | libsouth_interface/tinyxmlparser.cpp:1511-1535 | the value is everything before the first `]]>`, and the result is null unless a byte follows that |
| Reader.ParseText | libsouth_interface/tinyxmlparser.cpp:1536-1545 | the value is the text up to `<`, which is put back |
| Reader.ParseUnknown | libsouth_interface/tinyxmlparser.cpp:1275-1307 | the value is everything up to the first `>`, read over if it is there |
| Reader.ReadUpToGt | libsouth_interface/tinyxmlparser.cpp:1291-1297 | the bytes behind the first one up to the first `>`, and what is left |
| Reader.ParseDeclaration | libsouth_interface/tinyxmlparser.cpp:1572-1629 | the three values, by the first letters of each attribute whatever its case, with end pointer, error and cursor as described for a declaration |
| Reader.ReadDeclared | libsouth_interface/tinyxmlparser.cpp:1602-1626 | one round of the loop over a declaration: the attribute whose first letters name a value is read into it, anything else is read over |
| Reader.IsBlank | libsouth_interface/tinyxmlparser.cpp:1631-1637 | true exactly for text of white space only |
| DeclaredEncoding.DeclarationSettles | libsouth_interface/tinyxmlparser.cpp:767-783 | under an unknown encoding, what follows a declaration at the start is read as it would be alone: in UTF-8 if the declaration names no encoding or one that starts with UTF-8 or UTF8 in any case of the letters, byte by byte if it names another |
| DeclaredEncoding.KnownEncodingStays | libsouth_interface/tinyxmlparser.cpp:767-783 | under a known encoding, what follows a declaration is read as it would be alone, whatever that names |
| DeclaredEncoding.MarkSettles | libsouth_interface/tinyxmlparser.cpp:734-747 | under an unknown encoding, a byte-order mark in front makes the rest read in UTF-8 |
| DeclaredEncoding.ReferenceFollowsDeclaration | libsouth_interface/tinyxmlparser.cpp:767-783 | a decimal reference in the element behind a declaration is read as the UTF-8 sequence of its number or as its low byte, decided by the name of the encoding alone |
| DeclaredEncoding.ThreeDeclarations | libsouth_interface/tinyxmlparser.cpp:767-783 | `&#233;` is read as C3 A9 behind a declaration without an encoding or with `utf-8`, as E9 behind one with `ISO-8859-1` |
| Dom.TiXmlNode.LinkEndChild | libsouth_interface/tinyxml.cpp:186-211 | the unlinked node becomes the last child; the trees of all other nodes stay; a document is refused with one error |
| Dom.TiXmlNode.InsertEndChild | libsouth_interface/tinyxml.cpp:214-227 | a copy becomes the last child; nothing else changes; a document is refused |
| Dom.TiXmlNode.InsertBeforeChild | libsouth_interface/tinyxml.cpp:230-260 | a copy goes in front of the child, null exactly if it is not a child of this or the copy would be a document; nothing else changes |
| Dom.TiXmlNode.InsertAfterChild | libsouth_interface/tinyxml.cpp:263-293 | a copy goes behind the child, null exactly if it is not a child of this or the copy would be a document; nothing else changes |
| Dom.TiXmlNode.ReplaceChild | libsouth_interface/tinyxml.cpp:296-332 | a copy takes the place of the child, whose subtree is let go; null exactly if it is not a child of this or the copy would be a document, and then nothing changes but an error |
| Dom.TiXmlNode.RemoveChild | libsouth_interface/tinyxml.cpp:335-359 | true exactly if it was a child of this; it leaves the list with its subtree, and all other trees stay |
| Dom.TiXmlNode.GetDocument | libsouth_interface/tinyxml.cpp:512-522 | the walk up ends, and finds the nearest document if there is one |
| Dom.TiXmlNode.Clone | libsouth_interface/tinyxml.cpp:889-897 | a new forest, disjoint from the source and well linked, with the copied tree; the source is left alone |
| Dom.TiXmlNode.CloneChildren | libsouth_interface/tinyxml.cpp:868-872 | the copies of the children are linked behind one another in order; the source stays the same |
| Dom.TiXmlNode.CloneAlone | libsouth_interface/tinyxml.cpp:853-866 | a copy of the node's own fields and attributes in a ring of its own |
| Dom.TiXmlNode.CopyFields | libsouth_interface/tinyxml.cpp:1360-1364 | what CopyTo takes over for each kind: the CDATA flag, the three strings of a declaration, the error of a document |
| Dom.TiXmlNode.LinkLast | libsouth_interface/tinyxml.cpp:198-209 | the pointer assignments append to the list and keep it linked both ways |
| Dom.TiXmlNode.LinkBefore | libsouth_interface/tinyxml.cpp:244-257 | the pointer assignments insert at that place and keep the list linked both ways |
| Dom.TiXmlNode.LinkAfter | libsouth_interface/tinyxml.cpp:277-290 | the pointer assignments insert behind that child and keep the list linked both ways |
| Dom.TiXmlNode.LinkInstead | libsouth_interface/tinyxml.cpp:316-331 | the pointer assignments put the node in the place of that child and keep the list linked both ways |
| Dom.TiXmlNode.Unlink | libsouth_interface/tinyxml.cpp:347-356 | the list closes over the child and stays linked both ways |
| Dom.TiXmlNode.Link | libsouth_interface/tinyxml.cpp:186-211 | linking in the root of another forest keeps parent chains acyclic and every list linked, and changes one node's list only |
| Dom.TiXmlNode.Detach | libsouth_interface/tinyxml.cpp:335-359 | what is left of the forest is closed and linked; it is the forest without the child's subtree |
| Dom.TiXmlNode.Exchange | libsouth_interface/tinyxml.cpp:296-332 | what is left, with the new tree, is closed and linked |
| Dom.TiXmlNode.SetError | libsouth_interface/tinyxmlparser.cpp:798-815 | the first error is kept with its place |
| Dom.SubtreeIsCut | libsouth_interface/tinyxml.cpp:335-359 | without the subtree of a child no node left points into it but the list of its parent |
| Store.TreeKept | libsouth_interface/tinyxml.cpp:169-183 | the tree of a node depends on what is below it and nothing else |
| Store.LinkedKids | libsouth_interface/tinyxml.cpp:186-211 | a link adds exactly the tree of the new child, at its place, to the trees of the children |
| Store.UnlinkedKids | libsouth_interface/tinyxml.cpp:335-359 | unlinking takes exactly one tree out of the trees of the children |
| Store.SwappedKids | libsouth_interface/tinyxml.cpp:296-332 | replacing changes exactly one of the trees of the children |
| CloneSpec.CloneIsSame | libsouth_interface/tinyxml.cpp:853-897 | a clone equals its original exactly when no string has a NUL, attribute names are distinct and none behind the first is blank, all the way down |
| CloneSpec.CloneStopsAtNul | libsouth_interface/tinyxml.cpp:853-897 | a clone holds what is in front of the first NUL of a value, a name and an attribute |
| AttributeSet.TiXmlAttributeSet.Find | libsouth_interface/tinyxml.cpp:1579-1587 | the first attribute of that name in the ring, null if there is none |
| AttributeSet.TiXmlAttributeSet.FindOrCreate | libsouth_interface/tinyxml.cpp:1590-1599 | that attribute, or a new one with an empty value at the end of the ring |
| AttributeSet.TiXmlAttributeSet.Add | libsouth_interface/tinyxml.cpp:1521-1534 | the attribute joins the ring at its end, linked both ways |
| AttributeSet.TiXmlAttributeSet.Remove | libsouth_interface/tinyxml.cpp:1536-1552 | the attribute leaves the ring, which closes over it; the order of the others stays |
| AttributeSet.TiXmlAttributeSet.SetAttribute | libsouth_interface/tinyxml.cpp:780-786 | the value is replaced in its place or added at the end |
| AttributeSet.TiXmlAttributeSet.RemoveAttribute | libsouth_interface/tinyxml.cpp:437-450 | the name is gone, or nothing changes |
| AttributeSet.TiXmlAttributeSet.Attribute | libsouth_interface/tinyxml.cpp:577-583 | the value under the name, if any |
| AttributeSet.TiXmlAttributeSet.First | libsouth_interface/tinyxml.h:912-913 | null exactly if the ring holds the sentinel only |
| AttributeSet.TiXmlAttributeSet.Last | libsouth_interface/tinyxml.h:914-915 | the other end of the ring |
| AttributeSet.TiXmlAttributeSet.CopyTo | libsouth_interface/tinyxml.cpp:858-866 | sets every attribute the walk reaches in the target ring; the source ring is left alone |
| AttributeSet.TiXmlAttribute.Next | libsouth_interface/tinyxml.cpp:1187-1194 | an attribute with name and value empty passes for the sentinel |
| Xml.ReachedIsAll | libsouth_interface/tinyxml.cpp:1177-1194 | the walk by Next visits every attribute exactly when none behind the first is blank |
| Xml.BlankEndsTheWalk | libsouth_interface/tinyxml.cpp:1187-1194 | of three attributes the second of which is blank, the walk visits the first only |
| AttributeSpec.SetRefinesMapUpdate | libsouth_interface/tinyxml.cpp:780-786 | on distinct names, setting is a map update |
| AttributeSpec.RemoveRefinesMapRemoval | libsouth_interface/tinyxml.cpp:437-450 | on distinct names, removing takes the key out of the map and nothing else |
| AttributeSpec.SetKeepsNamesDistinct | libsouth_interface/tinyxml.cpp:1590-1599 | setting keeps names distinct |
| AttributeSpec.RemoveKeepsNamesDistinct | libsouth_interface/tinyxml.cpp:437-450 | removing keeps names distinct |
| AttributeSpec.LookupInSet | libsouth_interface/tinyxml.cpp:1579-1587 | after setting, the name gives the new value and every other name what it gave |
| AttributeSpec.LookupInRemoved | libsouth_interface/tinyxml.cpp:1579-1587 | after removing, the name gives nothing and every other name what it gave |
| AttributeSpec.SetKeepsOrder | libsouth_interface/tinyxml.cpp:780-786 | setting keeps every name in its place, and a new one goes behind the others |
| AttributeSpec.RemoveKeepsOrder | libsouth_interface/tinyxml.cpp:437-450 | removing leaves all other attributes in their order |
| AttributeSpec.CopyIsCanonical | libsouth_interface/tinyxml.cpp:858-866 | a copied ring has distinct names and C strings only |
| AttributeSpec.CopyAppends | libsouth_interface/tinyxml.cpp:858-866 | copying distinct C-string attributes appends them in order |
| AttributeSpec.AttributesSurvive | libsouth_interface/tinyxml.cpp:858-866 | a copy of the attributes equals them exactly when the walk reaches all, names are distinct and no string has a NUL |
| DomPrinter.PrintS | libsouth_interface/tinyxml.cpp:1155-1160 | the string is the pretty print of the document's tree, cut at its first NUL: its lines, each behind four blanks for every level above it and ended by a line feed |
| DomPrinter.AcceptDocument | libsouth_interface/tinyxml.cpp:1163-1174 | the buffer grows by the print of the document's children; the visitor is otherwise as before |
| DomPrinter.Accept | libsouth_interface/tinyxml.cpp:875-886 | for every node the buffer grows by its print, and depth and simpleTextPrint are restored |
| DomPrinter.AcceptElement | libsouth_interface/tinyxml.cpp:875-886 | the calls at the start, for the children and at the end add up to the print of the element |
| DomPrinter.AcceptChildren | libsouth_interface/tinyxml.cpp:878-883 | the walk over the siblings prints the children in order |
| DomPrinter.TiXmlPrinter.VisitEnter | libsouth_interface/tinyxml.cpp:1773-1807 | start tag and attributes, one step deeper; simple text is recognized in the child list |
| DomPrinter.TiXmlPrinter.VisitExit | libsouth_interface/tinyxml.cpp:1810-1833 | end tag of an element with children, one step up; the flag is cleared |
| DomPrinter.TiXmlPrinter.VisitText | libsouth_interface/tinyxml.cpp:1836-1861 | text as CDATA, inside its tags or on a line of its own |
| DomPrinter.TiXmlPrinter.VisitComment | libsouth_interface/tinyxml.cpp:1873-1881 | a comment on its own line |
| DomPrinter.TiXmlPrinter.VisitUnknown | libsouth_interface/tinyxml.cpp:1884-1892 | an unknown construct on its own line |
| DomPrinter.TiXmlPrinter.VisitDeclaration | libsouth_interface/tinyxml.cpp:1864-1870 | a declaration on its own line |
| DomPrinter.TiXmlPrinter.PrintAttributes | libsouth_interface/tinyxml.cpp:1779-1783 | the attributes the walk by Next reaches, in order |
| DomPrinter.TiXmlPrinter.DoIndent | libsouth_interface/tinyxml.h:1786-1789 | the buffer grows by exactly as many copies of the indent as the depth |
| DomPrinter.PrintAttribute | libsouth_interface/tinyxml.cpp:1217-1240 | name and value escaped, in double quotes unless the value shows one before its first NUL |
| DomPrinter.Find | libsouth_interface/tinystr.h:167-176 | a byte is found exactly if it comes before the first NUL |
| DomPrinter.ElementPrinted | libsouth_interface/tinyxml.cpp:1773-1833 | what the visitor prints before, in and behind an element is the print of its tree, in each of its three layouts |
| DomPrinter.SimpleTextIs | libsouth_interface/tinyxml.cpp:1793-1795 | the visitor's test on the child list is the test on the tree |
| DomPrinter.PrintNodesSnoc | libsouth_interface/tinyxml.cpp:878-883 | printing one more child appends its print |
| Layout.NodesPrinted | libsouth_interface/tinyxml.cpp:1773-1892 | what is printed of nodes is their lines one after the other, each behind one copy of the indent for every level above it and ended by one line break; a child is one level deeper than its parent, an end tag on the level of its start tag |
| Layout.NodeIsIndented | libsouth_interface/tinyxml.cpp:1773-1892 | in front of the node at the end of a path there is the start of a line and exactly one copy of the indent for each node above it, by length and byte; the same in front of its end tag; its line break is right behind it |
| Layout.IndentIsCopies | libsouth_interface/tinyxml.h:1786-1789 | the indentation at a depth is that many copies of the indent |
| Layout.NestedExample | libsouth_interface/tinyxml.cpp:1155-1160 | in `<a><b><c/></b></a>` the innermost element is printed behind eight blanks |
| Layout.QuotesAre | libsouth_interface/tinyxml.cpp:1217-1240 | a printed attribute is its escaped name, `=` and its escaped value between two quotes, single ones exactly if the value shows a double quote |
| Layout.DeclarationText | libsouth_interface/tinyxml.cpp:1425-1444 | the text of a declaration that holds all three values, byte by byte |
| Layout.EmptyDeclarationText | libsouth_interface/tinyxml.cpp:1425-1444 | the text of a declaration that holds no value, byte by byte |
| Layout.DeclarationSize | libsouth_interface/tinyxml.cpp:1425-1444 | a declaration has room for the values that are not empty and for nothing else |
| Layout.PrintStopsAtNul | libsouth_interface/tinyxml.cpp:1773-1892 | names, comments, sections and unknown constructs are printed up to their first NUL |
| NewLines.Normalize | libsouth_interface/tinyxml.cpp:1052-1075 | the loop with read and write head in one buffer leaves the translation of the text up to its first NUL |
| NewLines.NormalizedFollowsTheRule | libsouth_interface/tinyxml.cpp:1010-1018 | it is the rule of section 2.11 of XML 1.0: CR LF to LF, then every other CR to LF |
| NewLines.NormalizedHasNoCr | libsouth_interface/tinyxml.cpp:1052-1075 | the result has no CR, and no NUL if there was none |
| NewLines.NormalizedIsSame | libsouth_interface/tinyxml.cpp:1052-1075 | text is a fixed point exactly when it has no CR |
| Cursor.PathIndependent | libsouth_interface/tinyxmlparser.cpp:196-311 | after any sequence of stamps, row, column and position are those of one stamp at the furthest point |
| Cursor.StampTwice | libsouth_interface/tinyxmlparser.cpp:196-311 | two stamps are one stamp at the further place |
| Cursor.StampGoesOn | libsouth_interface/tinyxmlparser.cpp:196-311 | row and column never go back, and the position reaches the point asked for |
| Cursor.StuckIffCutShort | libsouth_interface/tinyxmlparser.cpp:256-285 | the loop fails to end exactly when it visits a 0xEF that two more bytes do not follow, in UTF-8 |
| Cursor.RowsAreLineFeeds | libsouth_interface/tinyxmlparser.cpp:212-251 | on text without CR and without cut characters the loop ends, and the row goes up by exactly the number of line feeds passed |
| Columns.TabGoesToTheNextStop | libsouth_interface/tinyxmlparser.cpp:250-256 | behind a tab the column is the multiple of the tab size that lies above the one before by at most the tab size |
| Columns.StretchCounts | libsouth_interface/tinyxmlparser.cpp:256-296 | over a stretch without tabs and newlines the column grows by exactly the characters passed that are not byte-order marks or non-characters |
| Columns.EveryByteTakesRoom | libsouth_interface/tinyxmlparser.cpp:286-296 | outside UTF-8 every byte takes a column |
| Columns.NewLineStartsALine | libsouth_interface/tinyxmlparser.cpp:222-248 | behind a newline the column is 0 and the row one more; CR and LF next to each other, in either order, are one newline |
| Columns.RowAndColumn | libsouth_interface/tinyxmlparser.cpp:196-311 | behind whole lines and a last one without tabs, the row is the number of lines in front and the column that of the characters of the last one |
| Columns.ColumnBehindTab | libsouth_interface/tinyxmlparser.cpp:196-311 | with a tab in the last line, the characters behind it are counted from the stop it goes to |
| Columns.TabInAnExample | libsouth_interface/tinyxmlparser.cpp:250-256 | behind `ab` and a tab, with a tab size of 4, the column is 4 |
| Cursor.TiXmlParsingData.Stamp | libsouth_interface/tinyxmlparser.cpp:196-311 | leaves row, column and position of the loop; nothing for a tab size below 1 |
| TinyString.TiXmlString.Reserve | libsouth_interface/tinystr.cpp:37-46 | the bytes stay; the representation is a new one exactly if the capacity was too small |
| TinyString.TiXmlString.Assign | libsouth_interface/tinystr.cpp:49-65 | holds the bytes, with a capacity of at most 3 * (length + 8) |
| TinyString.TiXmlString.Append | libsouth_interface/tinystr.cpp:68-78 | holds the bytes and those appended behind them, terminated |
| TinyString.TiXmlString.Init | libsouth_interface/tinystr.h:217-237 | the shared empty representation exactly if there is no capacity |
| TinyString.TiXmlString.SetSize | libsouth_interface/tinystr.h:207-207 | the terminator moves, the bytes before it stay |
| TinyString.Concat | libsouth_interface/tinystr.cpp:81-88 | both operands' bytes in a new string, reserved once; the operands keep theirs |
| TinyString.AppendsAreAmortised | libsouth_interface/tinystr.cpp:68-78 | in any run of appends the bytes copied stay within the capacity, and that within twice the length |
| TinyString.TwoAppends | libsouth_interface/tinystr.cpp:68-78 | a first append of n bytes to the empty string leaves a capacity of n, a second one of m bytes a capacity of 2n + m, and n bytes are copied |
| TinyString.SameIsEqual | libsouth_interface/tinystr.h:255-259 | for a string without NUL comparison is equality |
| TinyString.SameDecidesIff | libsouth_interface/tinystr.h:255-259 | comparing with a string is equality with every other string exactly when it holds no NUL before its last byte |
| TinyString.SameIsBlindBehindNul | libsouth_interface/tinystr.h:255-259 | behind a NUL it is not: two different strings compare as equal |
| TrailingSpace.SkipTrailingSpace | Inc/m_string.h:266-290 | the word-wise loops return the end the byte-wise loop returns, for every buffer, length, base address and byte order; every word read is aligned and inside the buffer |
| TrailingSpace.Trimmed | Inc/m_string.h:287-288 | what is left does not end in a blank, and all that is cut off is blank |
| TrailingSpace.TrimmedIs | Inc/m_string.h:266-290 | there is one such end only |
| TrailingSpace.WordOfSpaces | Inc/m_string.h:282-283 | a word compares equal to SPACE_INT exactly when its four bytes are blanks |
| Streams.AllReadBack | base/OutStream.cpp:10-56 | any sequence of values is read back in order by the matching reads on a host of either byte order, and reading ends where writing ended |
| Streams.UnchangedIffShort | base/OutStream.cpp:50-56 | the values come back unchanged exactly when every text is shorter than 65536 bytes |
| Streams.LongTextIsLost | base/OutStream.cpp:50-56 | a text of 65536 bytes comes back as the empty text |
| Streams.WireReadsBack | base/InStream.cpp:22-74 | one value is read back, and nothing of what follows it |
| Streams.NumberOnWire | base/OutStream.cpp:10-48 | a number is written with its highest byte first, a negative one in two's complement |
| Streams.TextOnWire | base/OutStream.cpp:50-56 | a text is written as its length in two bytes, the higher first, and its own bytes |
| Streams.Net16 | base/util.cpp:13-18 | the two bytes in memory are big-endian on either host; converting twice is the identity |
| Bits.Hton16AsInSource | base/util.cpp:13-18 | the conversion on a little-endian host is the expression of masks, shifts and or in the source |
| Streams.Net32 | base/util.cpp:20-28 | the four bytes in memory are big-endian on either host; converting twice is the identity |
| Bits.Hton32AsInSource | base/util.cpp:20-28 | the conversion on a little-endian host is the expression of masks, shifts and or in the source |
| Streams.Net64 | base/util.cpp:30-42 | the eight bytes in memory are big-endian on either host |
| Streams.Net64Twice | base/util.cpp:30-42 | converting eight bytes twice gives them back |
| Streams.Loads16 | base/InStream.cpp:30-38 | two bytes that are loaded and converted give their big-endian value on either host |
| Streams.Loads32 | base/InStream.cpp:40-48 | four bytes that are loaded and converted give their big-endian value on either host |
| Streams.COutStream.Write | base/OutStream.cpp:10-56 | the big-endian bytes of the value, for a text its length and its bytes, come behind what was written; only the bytes written over change |
| Streams.COutStream.Append | base/OutStream.cpp:107-112 | the buffer grows as far as needed; only the bytes written over change |
| Streams.COutStream.EnsureWriteableBytes | base/OutStream.cpp:100-105 | the bytes stay, zeros are added |
| Streams.COutStream.Reposition | base/OutStream.cpp:63-66 | the cursor is at the position given, whatever it is, and the bytes stay; it is a place to write exactly if it is inside the buffer |
| Streams.COutStream.Skip | base/OutStream.cpp:68-72 | the bytes skipped stay, or are zeros |
| Streams.OverwrittenAt | base/OutStream.cpp:107-112 | writing in the middle changes exactly the bytes written over |
| Streams.CInStream.Read | base/InStream.cpp:22-74 | the value at the cursor and the bytes behind it |
| Streams.CInStream.ReadBytes | base/InStream.cpp:87-94 | that many bytes, and the bytes behind them |
| Streams.CInStream.SetData | base/InStream.cpp:15-20 | all of the new data is ahead |

## Left out

- Everything over `FILE*`: opening, reading, saving and `Print` to a file; of `LoadFile` only the newline loop is modelled.
- The build with the standard library's strings: `StreamIn` and the stream operators of the nodes.
- The numeric attribute wrappers (`QueryIntAttribute`, `SetDoubleAttribute` and their kin), `TiXmlHandle` and the lookup overloads by value: they would only add walks over lists that are modelled.
- The rows and columns that nodes and errors keep: the cursor they are copied from is modelled, and an error keeps its place as the number of bytes ahead of it.
- `Parse` with the cursor of an earlier parse (`prevData`): a parse starts at row 0 and column 0.
- `useMicrosoftBOM`, the user data of nodes, document names and the text of error messages.
- The STL-free `TiXmlOutStream`, `swap`, `find` from an offset and the orderings of `TiXmlString`; appending a string to itself, which reallocates before it reads.
- The width of lengths: sizes and capacities do not overflow.
- CInStream.Skip and CInStream.Reposition; texts are read by the length and that many bytes, as their writer intends, for the source has no operator for it.
- The Windows, socket, thread and MySQL parts of the repository.
- Scanner.SumDigits: `unsigned long` has 32 bits, as in the Visual C++ projects of the repository. Where it has 64, only the weight wraps at 2^32, and the result is the number for numbers below 2^32 as stated, but not the remainder above.
- DomParser.ParseDocument: requires that no stamp hangs, because a hanging call never returns. Stamps.DocumentHangsIff is the exact condition, Stamps.DocumentIsParsed and NoHang.NoErrorNoHang are conditions a caller can check; the other `Parse` methods require the same of their part.
- Stamps.DocumentIsParsed: the condition on the text is sufficient; the exact ones are those of Stamps.DocumentHangsIff and Spans.DocumentOverrunsIff.
- Cursor.TiXmlParsingData.Stamp: requires the loop to end, for the same reason.
- Dom.TiXmlNode.LinkEndChild: the node comes from another forest and has no parent; the source also lets a node through whose parent is this one already, which is how its parser links.
- Dom.TiXmlNode.RemoveChild: deleting is modelled by leaving the subtree out of the forest; a removed node is not used any more.
- DomParser.AddChild: a node is parsed before it is linked, as in the source, but the document it reports to is handed down instead of found by the parents the source sets in advance.
- LeafRoundTrip.DeclarationReadsBack: the sufficient half; the condition is shown to be exact in DeclarationLimits.DeclarationReadsBackIff.
- Dom.TiXmlNode.CopyFields: leaves out the tab size, byte-order flag, location and user data that `CopyTo` copies as well; the model keeps none of them in a node.
- Streams.COutStream.Append: the cursor is inside the buffer. Behind it `WriteableBytes` wraps around, the buffer does not grow, and what the source then does is undefined; the same holds for `Write` and `Skip`.
- Streams.CInStream.Read: the stream has to hold a value of the kind, as the `assert` of the source demands.
- TinyString.TiXmlString.Append: the bytes are not the string's own.
