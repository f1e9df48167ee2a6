# Remaken: the XML engine and the dependency machinery

Remaken rewrites module descriptions with the bundled XML engine (`src/tinyxml2.cpp`,
`src/tinyxml2.h`) and installs packages from dependency files. This project models both and proves
what they are for. A `char` stands for one byte; most theorems hold for every character.

**The XML engine.**

* *Reading in place.* `StrPair.dfy` is the two-pointer decoding of one range of the buffer, over a
  real array, proved against the values of `Decode.dfy` and `CharacterRef.dfy`; `Tokens.dfy` says
  what a value means without the loop, character by character and reference by reference, and
  `Spelling.dfy` what a number is spelled with, by its place in the alphabet of digits. `Parser.dfy`
  has the steps of the parser on the same kind of array: they count lines and depth, back up over
  text, and write the terminators of the names they have to compare. They are proved against the
  functions of `ParserSpec.dfy`, which never write. `ParserFacts.dfy`, `ParserSound.dfy` and
  `ParserLines.dfy` prove what holds of every tree that is built.
* *What is XML.* `WrittenXml.dfy` is a grammar of texts: blanks wherever they may stand, either quote,
  sealed tags and end tags, and what each text means. `AcceptedXml.dfy` and `ParsedXml.dfy` prove that
  the parser accepts exactly these, and as what. `BrokenXml.dfy` is a grammar of texts with a flaw, and
  `RefusedXml.dfy` proves that the parser refuses exactly those and the texts with nothing in them: so
  for every text it is known, without the parser, what the document is or what the error is and on
  which line.
* *The tree in memory.* `Dom.dfy` has the five pointers of a node, `_unlinked` and the counters of
  the pools; `Forest.dfy` is the ordered forest they stand for. `DomParser.dfy` is the whole run of
  the parser, over the buffer and the tree together: on every text it ends in the specified tree,
  decoded, below the document. `LazyReading.dfy` adds that names and values read after parsing, in any
  order and any number of times, are those of the pristine text. `Attributes.dfy` and `DeepClone.dfy`
  are attribute lists and copies; `MemPool.dfy` is the slot allocator.
* *Writing.* `Printer.dfy` is the stateful printer, proved equal to `PrinterSpec.dfy`;
  `PrintedLayout.dfy` says what its text looks like, piece by piece and line by line.
  `Escaping.dfy`, `RoundTripLeaves.dfy`, `RoundTrip.dfy` (elements) and `RootNodes.dfy` (documents)
  prove that parsing inverts printing, compact or pretty, but for line ends, blank texts and what
  printing adds to texts outside the root elements; `Rereading.dfy` and `Reparse.dfy` prove that
  every document that loads can be saved, and settles after one round trip; `ReloadedValues.dfy`
  says which attribute values and texts survive the first one.

**The dependency machinery.** `Dependency.dfy` is the dependency line and its printer, and
`DependencyLines.dfy` what each line says by the words in it. `Conditions.dfy` is a conditions file, the
command line that overrides it and the filter that uses both, `ProjectConditions.dfy` the two conditions
files of a project and the commands that read and write them, and `ConditionFiles.dfy` what the commands
select for files that were written by hand. `Cache.dfy` is the persistent set of urls, `Retrieve.dfy` the
recursion over the dependency files of packages, with the order of the visits. `Text.dfy` has the string
functions they share.

Where the code is not what one would expect, the model follows the code and the exact condition is
proved:

* An unknown named entity moves the write pointer without writing (`src/tinyxml2.cpp:363-367`):
  `Decode.DecodeIsTokenText` says exactly when nothing is lost, `Decode.UnknownEntityLost` loses one.
* The digits of a character reference are looked for from its semicolon backwards
  (`src/tinyxml2.cpp:505-560`): "&#1#2;" is character 2, and "&#;" character 0. A hexadecimal number counts
  modulo 2^32. An ampersand before '#' that starts no reference stays, but that of a "&#" at the very end
  of a value is lost (`CharacterRef.CharRefMeaning`, `CharacterRef.NoCharRef`, `Tokens.TokensMeaning`).
* An end tag may have attributes, "</a/>" is an element, and an end tag that closes nothing ends the
  document, whatever follows (`ParsedXml.AcceptedTexts`).
* In a pretty printed element with a text nothing is added, but only until an element in it that has a
  text of its own has been closed (`src/tinyxml2.cpp:2811-2814`): `PrintedLayout.LayoutResumes`.
  `PrintedLayout.TextQuiet` says for which elements this never happens.
* `choco` is a type that no line names: it is read as `system` (`DependencyLines.TypeInverts`).
* `InsertAfterChild` asks for a next sibling before the inserted node leaves its place
  (`src/tinyxml2.cpp:986-993`): it dereferences null exactly when that node is the last child, right
  behind the other (`Dom.XMLDocument.InsertAfterChild`, `Dom.MoveLastBehindItsNeighbour`).
* A printed empty document does not parse (`RootNodes.EmptyDocumentLost`), nor does one that ends in a
  text, which the parser accepts in front of a stray end tag. `RootNodes.DocumentReread` says that
  every other document is read back, and as what.
* A reference to CR is saved as a raw CR, which is read as a line feed, and a text that stands for
  blanks is saved as blanks, which are skipped (`ReloadedValues.CarriageReturnLost`,
  `ReloadedValues.BlankReferenceLost`).
* The parser accepts text outside the root elements. Pretty printing puts a line feed before such a
  text if an element comes before it, and one behind it if something other than text was printed
  already and something other than text follows; each time it is saved the text grows by these
  (`ReloadedValues.RootTextReread`, `ReloadedValues.RootTextGrows`). Compact printing adds nothing.
  A text at the very start loses its leading blanks, and a byte order mark behind them.
* These are all the ways to change: `RootNodes.DocumentRoundTrip` and, for every document that was
  loaded, `Reparse.ReloadStable` say that it comes back the same if and only if it is read back at
  all, no value has a CR, no text is blank, no text stands where a line feed is added, and none at the
  start has something to lose.
* A printed dependency loses its channel, its conditions and a trailing CR
  (`Dependencies.ReadPrinted`, `Dependencies.ChannelLost`); a line without `#`, `%` and
  CR loses nothing (`Dependencies.PlainLineReread`).
* A condition that is not trimmed, or has an equals sign or a line feed in it, does not survive its
  file (`BuildConditions.WrittenRead`, `BuildConditions.EqualsSignLost`). `BuildConditions.StoredRead`
  says what does.
* A cache whose first act is to be flushed or destroyed empties its file (`Caches.Session`,
  `Caches.IdleSession`).
* `generateConfigureConditionsFile` writes below the build platform folder, while `retrieve` reads
  the folder above it (`src/managers/DependencyManager.cpp:319,352`): a second `retrieve` asks as
  often as the first (`ProjectConditions.RetrieveAgain`). `configure` reads both files
  (`src/commands/ConfigureCommand.cpp:47-49`), but the file has only conditions of what was selected:
  `ProjectConditions.ConfigureAgain` says exactly when the next `configure` does not ask, and when it
  then makes the same selection. `configure` also asks for the conditions of nested packages, which a
  `retrieve` has written to their own folders (`ProjectConditions.ConfigureAfterRetrieve`).

## Model

| member | source | states |
|---|---|---|
| CharacterRef.Utf8RoundTrip | src/tinyxml2.cpp:425-475 | every number below 0x200000 becomes the shortest sequence of section 3 of RFC 3629 that an independent decoder reads as that number, every other one becomes nothing, and a strict decoder reads back exactly the scalar values |
| CharacterRef.ScanExact | src/tinyxml2.cpp:496-560 | the backward digit loop with its 32-bit wrap computes the positional value of the digits whenever that fits |
| CharacterRef.CharRefMeaning | src/tinyxml2.cpp:478-571 | a hexadecimal reference, and a decimal one to a number below 2^32, whatever zeros lead it and whatever is skipped before its digits, is replaced by the bytes of that number modulo 2^32, and reading goes on behind the semicolon |
| CharacterRef.NoCharRef | src/tinyxml2.cpp:478-571 | where no reference starts the ampersand is left alone |
| Spelling.ValueSpelled | src/tinyxml2.cpp:505-560 | digits have the value n if and only if they spell n by their places in the literal alphabets 0-9a-f and 0-9A-F; nothing else spells a number |
| Spelling.ReferenceMeaning | src/tinyxml2.cpp:478-571 | whatever spells n, a reference to it means the bytes of n up to a NUL, and these read as n: for decimal n below 2^32, and modulo 2^32 for hexadecimal n of any length |
| Spelling.SpelledMeaning | src/tinyxml2.cpp:478-571 | so do the decimal spelling and both hexadecimal spellings of every n below 2^32 with any number of leading zeros |
| Spelling.NamedMeaning | src/tinyxml2.cpp:340-370 | the five entities by their literal names |
| CharacterRef.GetCharacterRef | src/tinyxml2.cpp:478-571 | a reference is consumed past the ampersand and never past the value, and never gets longer |
| CharacterRef.ReadDigits | src/tinyxml2.cpp:505-560 | the digit loop over the buffer computes the specified scan of the unread text |
| CharacterRef.ReadCharacterRef | src/tinyxml2.cpp:478-571 | GetCharacterRef over the buffer computes the specified reference of the unread text |
| Decode.DecodeIsTokenText | src/tinyxml2.cpp:289-387 | the decode loop, which moves its write pointer over an unknown entity without writing, agrees with one that keeps the ampersand if and only if every unknown entity is met while the character at the write offset is an ampersand |
| Decode.KnownEntitiesDecode | src/tinyxml2.cpp:340-370 | when each ampersand starts a known entity or a numeric reference that condition holds |
| Decode.UnknownEntityLost | src/tinyxml2.cpp:363-367 | a concrete text whose unknown entity loses its ampersand |
| Decode.CollapseJoinsWords | src/tinyxml2.cpp:260-286 | collapsing leaves the words of the text joined by single spaces, none at the ends |
| Decode.CollapseIdempotent | src/tinyxml2.cpp:260-286 | collapsing twice is collapsing once |
| Tokens.TokensMeaning | src/tinyxml2.cpp:289-387 | what GetStr yields for any value written as characters, named entities, references, stray ampersands before '#' and line ends: the characters, the entities' characters, the UTF-8 bytes of the numbers and one line feed a line end, in a row, up to the first NUL, collapsed where asked for |
| Tokens.ValueMeaning | src/tinyxml2.cpp:301-378 | every value whose ampersands all start a known entity or stand before '#', without decimal references beyond 32 bits, is written as such tokens, so that meaning is defined for all of them |
| Tokens.ReferenceText | src/tinyxml2.cpp:425-475 | a strict decoder reads the number back from a reference's bytes exactly if it is a Unicode scalar value |
| Tokens.CarriageReturns | src/tinyxml2.cpp:311-378 | such a value decodes to a string with a CR if and only if it refers to character 13 before any reference to 0 |
| Tokens.Blanks | src/tinyxml2.cpp:311-378 | it decodes to blanks if and only if every token before the first reference to 0 stands for blanks |
| StrPairs.StrPair.GetStr | src/tinyxml2.cpp:289-387 | decoding in place yields the meaning of the raw range, once and for all, and touches nothing outside the range and its terminator |
| StrPairs.StrPair.DecodeLoop | src/tinyxml2.cpp:304-378 | the two-pointer loop writes exactly the decoded text, and the write pointer never passes the read pointer |
| StrPairs.StrPair.DecodeStep | src/tinyxml2.cpp:304-378 | one round writes the piece its token stands for over read characters only |
| StrPairs.StrPair.CollapseWhitespace | src/tinyxml2.cpp:260-286 | in place, the C string becomes its collapsed form and nothing outside the range changes |
| StrPairs.StrPair.CopyWords | src/tinyxml2.cpp:266-284 | the copying loop never writes ahead of its read pointer and copies the collapsed text |
| XmlUtil.LinesCounted | src/tinyxml2.h:554-565 | the line of a place is one more than the number of line feeds before it |
| ParserSpec.ParseAttribute | src/tinyxml2.cpp:1418-1443 | an attribute read makes progress inside the buffer; which texts are attributes is `AcceptedXml.AttributeAccepted` and `ParsedXml.AttributeWritten` |
| ParserSpec.ParseChildren | src/tinyxml2.cpp:1050-1162 | every round consumes input (so parsing terminates on every buffer), children are only added, and a position is returned only without an error |
| ParserSpec.TextAdvances | src/tinyxml2.cpp:774-782 | text, which backs up over blanks, still ends behind its first non-blank character |
| ParserSpec.KindHeader | src/tinyxml2.cpp:739-782 | the node kind found has its header there, inside the buffer, and is text exactly when no tag starts |
| ParserFacts.DocumentRangesDisjoint | src/tinyxml2.cpp:215-257 | after any parse of any buffer the ranges of all names and values are free of NUL, inside the buffer and pairwise disjoint, terminator slots included |
| ParserFacts.ChildrenInOrder | src/tinyxml2.cpp:1050-1162 | the ranges of the children stand in document order before the read position, an end tag behind all of them |
| ParserFacts.ElementInOrder | src/tinyxml2.cpp:2051-2076 | the ranges of an element stand in document order between its start and the read position |
| ParserFacts.AttributesInOrder | src/tinyxml2.cpp:1935-1992 | so do the names and values of its attributes |
| ParserSound.DocumentSound | src/tinyxml2.cpp:2525-2539 | a parse without error built only sound nodes: open elements closed by an end tag of their name, distinct attribute names, declarations first, no nested declaration, bodies free of their end tags, nesting within the limit |
| ParserSound.ElementSound | src/tinyxml2.cpp:2051-2076 | the same for one element and its subtree |
| ParserSound.ChildrenSound | src/tinyxml2.cpp:1050-1162 | the same for a list of children, with the end tag that closed it |
| ParserSound.AttributesSound | src/tinyxml2.cpp:1935-1992 | attribute names of an accepted start tag are names and pairwise distinct |
| ParserSound.LeafSound | src/tinyxml2.cpp:1274-1282 | the body of a comment, CDATA section, declaration or unknown is free of NUL and of its end tag |
| ParserLines.DocumentLined | src/tinyxml2.cpp:718-785 | after any parse of any buffer each node has the line of its '<', or of its first non-blank character if it is text, and each attribute the line of its name: one plus the line feeds before it |
| ParserLines.ElementLined | src/tinyxml2.cpp:1935-2076 | the same for one element, its attributes and its subtree |
| AcceptedXml.AttributeAccepted | src/tinyxml2.cpp:1418-1443 | an attribute with any blanks before its name and around the equals sign, in either quote, with any value free of that quote, is read as its name and meaning |
| AcceptedXml.TagAccepted | src/tinyxml2.cpp:2051-2076 | a tag with any such attributes of distinct names, blanks at its start and before its end, sealed or not, start tag or end tag, is read with its name and attributes |
| AcceptedXml.ElementAccepted | src/tinyxml2.cpp:2051-2076 | a start tag, written children and an end tag of the same name are read as that element with these children |
| AcceptedXml.RowAccepted | src/tinyxml2.cpp:1050-1162 | written nodes in a row are read one by one to what they mean, wherever they stand |
| AcceptedXml.DocumentAccepted | src/tinyxml2.cpp:2525-2539 | every text that is written as a document is parsed without an error, to what it means |
| ParsedXml.AttributeWritten | src/tinyxml2.cpp:1418-1443 | whatever is read as an attribute is written as one |
| ParsedXml.NodeWritten | src/tinyxml2.cpp:718-785 | whatever is read as a node is written as one that ends where reading stopped |
| ParsedXml.RowWritten | src/tinyxml2.cpp:1050-1162 | whatever is read without an error as children is written as nodes in a row, with an end tag or the end of the text behind them |
| ParsedXml.AcceptedTexts | src/tinyxml2.cpp:2525-2539 | for every buffer, parsing ends without an error if and only if the text up to the first NUL is written as a document, and then gives what that document means, which is said without the parser |
| BrokenXml.FlawFound | src/tinyxml2.cpp:1050-1162 | at each of thirteen kinds of flaws, in any number of open elements, the loop over the children ends in the error with its code and line |
| BrokenXml.BrokenFails | src/tinyxml2.cpp:2393-2451 | for every text with a flaw behind nodes in order the error has the code of that kind of flaw and the line of its place, one plus the line feeds before it |
| BrokenXml.NothingFails | src/tinyxml2.cpp:2525-2539 | blanks with or without a byte order mark are an empty document, with line 0 |
| RefusedXml.RowRefused | src/tinyxml2.cpp:1050-1162 | where the loop over the children ends in an error the text is written as nodes in order and one of these flaws |
| RefusedXml.RefusedTexts | src/tinyxml2.cpp:2393-2451 | for every buffer, parsing ends in an error if and only if the text up to the first NUL has nothing in it or is written with a flaw, so that `BrokenXml.BrokenFails` and `BrokenXml.NothingFails` give every error there is |
| Parser.DocumentParser.constructor | src/tinyxml2.cpp:2434-2437 | the buffer is the text and a terminating NUL |
| Parser.DocumentParser.SkipWhiteSpace | src/tinyxml2.h:554-565 | stops at the first non-blank with the line counter right |
| Parser.DocumentParser.ParseText | src/tinyxml2.cpp:215-237 | finds the first end tag, counting exactly the line feeds passed |
| Parser.DocumentParser.ParseName | src/tinyxml2.cpp:240-257 | finds the end of the name, or returns null where no name starts |
| Parser.DocumentParser.StringEqual | src/tinyxml2.h:599-607 | comparing two C strings of the buffer decides whether the strings are equal |
| Parser.DocumentParser.ParseAttribute | src/tinyxml2.cpp:1418-1443 | computes the specified attribute with its line and end position |
| Parser.DocumentParser.ReadName | src/tinyxml2.cpp:1953-1957 | terminating the new name in place disturbs no range, no name read before and nothing unread, and the search finds exactly a repeated name |
| Parser.DocumentParser.ParseAttributes | src/tinyxml2.cpp:1935-1992 | the loop over the mutable buffer gives the attributes and the error of the pristine text, every range keeping its content |
| Parser.DocumentParser.Identify | src/tinyxml2.cpp:718-785 | the kind of the next node, the line of its first non-blank character, and for text the backed-up position and line counter |
| Parser.DocumentParser.ParseLeaf | src/tinyxml2.cpp:1209-1233 | the specified leaf, its range intact, also after an error |
| Parser.DocumentParser.StartTag | src/tinyxml2.cpp:2051-2076 | the name and the attributes of the specified element on the mutable buffer, and whether its children are read next; only characters behind its start are written, none in the content of a range, even if it fails |
| Parser.DocumentParser.PushDepth | src/tinyxml2.cpp:2541-2547 | an error exactly at level 500, with the current line |
| Parser.DocumentParser.Judge | src/tinyxml2.cpp:1084-1158 | what becomes of a child just parsed, as specified: a null from it always ends in an error, an end tag goes up, a misplaced declaration or a mismatch is an error, anything else is one more child; every range keeps its content |
| Parser.DocumentParser.Mismatch | src/tinyxml2.cpp:1138-1154 | the mismatch test on the mutable buffer decides the specified one, terminating both names without harm |
| Parser.DocumentParser.SkipToNodes | src/tinyxml2.cpp:2525-2539 | where the nodes of the specified document start, past blanks and the byte order mark, with the line counter right, and the error if nothing is there |
| Parser.TerminatorKept | src/tinyxml2.cpp:289-300 | writing the terminator of one of several disjoint ranges keeps the content of all of them |
| Parser.NamesTerminated | src/tinyxml2.cpp:1150 | flushing an end tag and the element's name leaves every range of the element and the unread text intact |
| Parser.EndTagBehind | src/tinyxml2.cpp:1126-1134 | the end tag handed up stands behind all ranges of the element it closes |
| LazyReading.CStringFrame | src/tinyxml2.cpp:289-387 | a decoded C string is fixed by the characters up to its terminator slot |
| LazyReading.ReadAll | src/tinyxml2.cpp:289-387 | any reads of any names and values in any order, repeated or not, end with every returned pointer at the meaning of its range in the pristine text |
| LazyReading.MakePairs | src/tinyxml2.h:155-161 | the ranges of a parsed document, as pairs still to be flushed, stand for their pristine meanings |
| LazyReading.Load | src/tinyxml2.cpp:2423-2451 | the specified document, without children after an error, an empty text included, and its tree in memory; parsing without error leaves pairs that can be read in that way |
| LazyReading.SaveAndLoad | src/tinyxml2.cpp:2412-2451 | printing a storable document and parsing the text, by the imperative printer and parser, fails exactly if there is nothing to read or a text at the end; otherwise the tree in memory holds the nodes of the document as storing leaves them and no others, and the names and values read as theirs |
| Escaping.EscapeHides | src/tinyxml2.cpp:2639-2691 | escaped text has no raw angle bracket in either entity set and no raw quote in the full one, and brings in no NUL or CR |
| Escaping.EscapeReread | src/tinyxml2.cpp:2639-2691 | decoding escaped text gives the text back with its line ends normalised, for every text without NUL, in both entity sets |
| Escaping.EscapeRoundTrip | src/tinyxml2.cpp:2639-2691 | so it gives it back exactly when it has no CR |
| Escaping.LineEndsNormalised | src/tinyxml2.cpp:311-338 | a text with CR LF, lone CR or LF CR for line ends reads as the text with LF |
| Escaping.BodyMeaning | src/tinyxml2.cpp:311-338 | where entities are not replaced, content reads as itself with its line ends normalised, and collapsed where asked for, for every text without NUL |
| Printer.XMLPrinter.PrintString | src/tinyxml2.cpp:2639-2691 | the run-flushing loop writes what escaping byte by byte gives |
| Printer.XMLPrinter.PrintEntity | src/tinyxml2.cpp:2658-2674 | the search of the entity table writes the entity of the character |
| Printer.XMLPrinter.PrepareForNewNode | src/tinyxml2.cpp:2705-2720 | the newline and indentation that the layout calls for, and the layout after it |
| Printer.XMLPrinter.OpenElement | src/tinyxml2.cpp:2723-2733 | the start of a tag, depth and stack one up |
| Printer.XMLPrinter.CloseElement | src/tinyxml2.cpp:2795-2820 | the end tag of the name on the stack, sealed or not, with the blanks the layout calls for |
| Printer.XMLPrinter.PushText | src/tinyxml2.cpp:2833-2846 | text or CDATA, the text depth set |
| Printer.XMLPrinter.Accept | src/tinyxml2.cpp:2945-2992 | a node with everything below it is printed as specified and the depth and stack are back |
| Printer.XMLPrinter.PrintDocument | src/tinyxml2.cpp:2454-2463 | the buffer has the specified text of the whole document appended |
| PrintedLayout.DocumentLaidOut | src/tinyxml2.cpp:2705-2846 | what is printed for every document is its start tags, end tags, leaves and texts in order, with literal escapes: compact with nothing between them, pretty with a line feed and four blanks a level before each that is no text, unless it is the first or an element with a text directly in it is still open |
| PrintedLayout.NodeLaid | src/tinyxml2.cpp:2705-2820 | the same for a node at any depth behind any pieces, with what the printer's layout state says about these |
| PrintedLayout.LinesWithoutText | src/tinyxml2.cpp:2705-2720 | without texts each start tag, end tag, empty tag and leaf is on a line of its own, with exactly four blanks a level |
| PrintedLayout.LayoutResumes | src/tinyxml2.cpp:2811-2814 | nothing is put behind the first text of an element, but a new line is behind an element with a text that was closed in it |
| PrintedLayout.TextQuiet | src/tinyxml2.cpp:2705-2820 | nothing is put behind a text of an element, up to and including its end tag, if and only if each element behind it that has a text in it is directly followed by a text, at every level |
| RootNodes.DocumentReread | src/tinyxml2.cpp:2525-2992 | printing any storable document, compact or pretty, and parsing the text is an error if and only if that leaves nothing to read or a text at the end; otherwise it gives the same nodes, names, attributes and values in the same order, line ends normalised and blank texts gone, and a text between the nodes of the document with the line feeds that were printed beside it |
| RootNodes.DocumentRoundTrip | src/tinyxml2.cpp:2525-2992 | so it gives the document back if and only if it is read back at all, no value has a CR, no text is blank, no text stands where a line feed is added, and none at the start has blanks or a mark to lose |
| RootNodes.RootsRead | src/tinyxml2.cpp:1050-1162 | the printed nodes of a document, wherever they stand, parse to what storing leaves of them with the printed line feeds in the texts; a text in last place is an error |
| RoundTrip.ChildrenRead | src/tinyxml2.cpp:1050-1162 | the printed children of an element, wherever they stand, parse to what storing leaves of them; printed whitespace never reaches their texts |
| RoundTrip.ElementWithChildrenReads | src/tinyxml2.cpp:2051-2076 | a printed element with children parses to what storing leaves of it, closed by its own end tag |
| RoundTrip.BlanksIgnored | src/tinyxml2.cpp:722-727 | blanks before a tag make no difference to the parser |
| RoundTrip.TextReads | src/tinyxml2.cpp:1209-1233 | printed text that is not blank parses to that text, line ends normalised |
| RootNodes.EmptyDocumentLost | src/tinyxml2.cpp:2534-2537 | a document without nodes prints to a text that is an error |
| RoundTripLeaves.AttributesParse | src/tinyxml2.cpp:1935-1992 | printed attributes parse to the same names in the same order, with the same values but for line ends |
| RoundTripLeaves.LeafParses | src/tinyxml2.cpp:1274-1282 | a printed body parses to that body, line ends normalised |
| Reparse.LoadedIsStorable | src/tinyxml2.cpp:2423-2539 | whatever a buffer holds, what is read from it can be stored |
| Reparse.ReloadStable | src/tinyxml2.cpp:2393-2451 | for every buffer: what was loaded is saved to a text that loads if and only if there is something to read and no text at the end; what that gives is known, and it is the same document if and only if no value has a CR, no text is blank, no text between the nodes of the document stands where a line feed is added, and none at the start has something to lose |
| Reparse.ReloadSettles | src/tinyxml2.cpp:2393-2451 | what the second load gives, if anything, is kept by every further save and load in any mode if and only if that mode adds nothing to its texts between the nodes of the document; compact mode never does |
| Reparse.NodeStorable | src/tinyxml2.cpp:1050-1162 | every node of such a parse, whatever its values refer to, is a storable tree whose nesting fits in the depth that is left |
| Reparse.SafeTextSurvives | src/tinyxml2.cpp:2393-2451 | a text whose values use known entities and valid references, none to CR, and none of whose texts stands for blanks, loads as a settled document, which saving and loading keeps if it has a node and its texts are all inside elements |
| Reparse.NamedEntitiesSafe | src/tinyxml2.cpp:340-370 | values with the five named entities only are such values, and so are such texts that are not blank as written |
| Rereading.DocumentKept | src/tinyxml2.cpp:2393-2451 | what a storable document becomes when it is written and read is storable, has no CR and no blank text, and has nothing to lose at its ends |
| ReloadedValues.AttributeReloaded | src/tinyxml2.cpp:1418-1443 | however an attribute value is written, it comes back from saving and loading with its line ends normalised, and unchanged if and only if it has no CR |
| ReloadedValues.TextReloaded | src/tinyxml2.cpp:1209-1233 | however a text is written, it comes back so, or not at all if it stands for blanks |
| ReloadedValues.CarriageReturnLost | src/tinyxml2.cpp:2639-2691 | the attribute value "&#13;" comes back as a line feed |
| ReloadedValues.BlankReferenceLost | src/tinyxml2.cpp:722-727 | the text "&#32;" does not come back |
| ReloadedValues.RootTextReread | src/tinyxml2.cpp:2705-2720 | a text between any two nodes of a document comes back, in either mode, with a line feed before it exactly after an element and one behind it exactly between two nodes that are no CDATA section, both in pretty mode only |
| ReloadedValues.RootTextGrows | src/tinyxml2.cpp:2705-2720 | a text between two root elements comes back between two more line feeds from pretty printing, one between a comment and an element before one more |
| Forest.AttachForest | src/tinyxml2.cpp:903-997 | putting a root below a node it is not above keeps a forest acyclic with one place for each node |
| Forest.DetachForest | src/tinyxml2.cpp:866-887 | taking a node out of its list keeps the forest and leaves the node listed nowhere |
| Forest.EmptiedStep | src/tinyxml2.cpp:856-863 | deleting the first child and then the others is deleting all children |
| Forest.SiblingsApart | src/tinyxml2.cpp:856-900 | the subtrees of two siblings share no node |
| Sequences.LastWithout | src/tinyxml2.cpp:986-997 | which element is last once another has left its list |
| Forest.OnlyRoot | src/tinyxml2.cpp:2200-2206 | a forest whose only parentless node has no children is that node |
| Dom.XMLNode.Unlink | src/tinyxml2.cpp:866-887 | the pointers afterwards are those of the lists with the child taken out |
| Dom.UnlinkRepresents | src/tinyxml2.cpp:866-887 | the assignments of Unlink turn the pointers of one forest into those of the other |
| Dom.XMLNode.LinkLast | src/tinyxml2.cpp:912-929 | the pointers afterwards are those of the lists with the node appended |
| Dom.XMLNode.LinkFirst | src/tinyxml2.cpp:942-960 | with the node prepended |
| Dom.XMLNode.LinkAfter | src/tinyxml2.cpp:992-997 | with the node inserted behind another |
| Dom.InsertRepresents | src/tinyxml2.cpp:903-997 | linking a node between two neighbours gives the pointers of the longer list |
| Dom.XMLDocument.CreateUnlinkedNode | src/tinyxml2.h:1984-1995 | a new node of its pool, in _unlinked, both counters one up |
| Dom.XMLDocument.MarkInUse | src/tinyxml2.cpp:2187-2198 | the search and swap remove exactly that node from _unlinked |
| Dom.XMLDocument.InsertChildPreamble | src/tinyxml2.cpp:1179-1191 | the node leaves its parent or _unlinked, and the counters stay those of the nodes |
| Dom.XMLDocument.InsertEndChild | src/tinyxml2.cpp:903-930 | moves the node to the end of the list, from _unlinked or from any parent: afterwards it is the last child, the other children are in their old order before it, and every other list has only lost it; a foreign node changes nothing; the whole state stays valid: pointers, acyclicity, _unlinked, counters |
| Dom.XMLDocument.InsertFirstChild | src/tinyxml2.cpp:933-961 | moves the node to the front of the list: afterwards it is child 0, the other children follow in their old order, and every other list has only lost it, with the same state kept |
| Dom.XMLDocument.InsertAfterChild | src/tinyxml2.cpp:964-997 | moves the node right behind the other child, the other children in their old order and every other list without it, except that it dereferences null if and only if the node is the last child right behind that one |
| Dom.MoveLastBehindItsNeighbour | src/tinyxml2.cpp:986-993 | a run that ends in that null dereference |
| Dom.XMLDocument.DestroyNode | src/tinyxml2.cpp:1164-1177 | frees the node and everything below it and nothing else, counters included |
| Dom.XMLDocument.DeleteChildren | src/tinyxml2.cpp:856-863 | everything below the node is gone, the node stays, other lists are the same |
| Dom.XMLDocument.DeleteChild | src/tinyxml2.cpp:890-900 | the child leaves its list and is freed with everything below it |
| Dom.XMLDocument.DeleteNode | src/tinyxml2.cpp:2302-2317 | the same for any node, one that was never linked being tracked first |
| Dom.XMLDocument.DeleteUnused | src/tinyxml2.cpp:2306-2316 | a node that was never linked leaves _unlinked and is freed with everything below it, the untracked counter in step |
| Dom.XMLDocument.Clear | src/tinyxml2.cpp:2200-2231 | only the document is left, _unlinked is empty and every counter is zero |
| Dom.OrphanIsRoot | src/tinyxml2.cpp:866-887 | a node without a parent pointer is in no child list and has no siblings |
| DomParsing.Parse | src/tinyxml2.cpp:2423-2451 | on every text, and whatever the document held, the one run over buffer and tree ends with the specified document and error, depth 0 again, and exactly the specified tree below the document, its names and values decoded; the whole state is valid, after an error nothing is left, and in no case is a node left that is not below the document, in _unlinked or untracked; without an error every range still has its pristine content |
| DomParsing.NextChild | src/tinyxml2.cpp:1073-1159 | one round of the loop: the node read from the buffer is linked as the last child, or deleted with everything below it as if it had never been made, as specified; the line counter and every range are intact |
| DomParsing.ParseNode | src/tinyxml2.cpp:1076-1085 | the node that Identify found gets the specified content and children, read from the mutable buffer, for every buffer; all other nodes stay where they are |
| DomParsing.ParseElement | src/tinyxml2.cpp:2051-2076 | the same for an element, also one whose parse fails halfway; nothing before its start is written and the depth is restored |
| DomParsing.ParseDeep | src/tinyxml2.cpp:1050-1070 | one level deeper unless that is 500; the depth is restored on every path |
| DomParsing.ParseChildren | src/tinyxml2.cpp:1072-1162 | the loop reads the specified children and error and builds exactly these children, the line counter equal to the line of the read position at every round |
| DomParsing.ContentKept | src/tinyxml2.cpp:289-300 | while the ranges of a node are intact, its name, attributes and value decode from the mutable buffer as from the pristine text |
| DomParsing.DiscardEndTag | src/tinyxml2.cpp:1128-1134 | the node made for an end tag is gone again, counters in step |
| DomParsing.StartTagWellNamed | src/tinyxml2.cpp:1935-1992 | the attributes of a start tag have distinct names, even if the tag is in error |
| Attributes.SetIsMapUpdate | src/tinyxml2.h:1465-1468 | setting an attribute is a map update |
| Attributes.SetNames | src/tinyxml2.cpp:1888-1913 | setting adds no name but its own, a new one at the end |
| Attributes.SetKeepsDistinct | src/tinyxml2.cpp:1888-1913 | setting keeps attribute names distinct |
| Attributes.SetInPlace | src/tinyxml2.cpp:1888-1913 | setting an attribute that is there changes the value of the first of that name where it stands, and nothing else |
| Attributes.DeleteIsMapRemove | src/tinyxml2.cpp:1916-1932 | deleting an attribute removes its name from the map and keeps names distinct |
| Attributes.DeleteInPlace | src/tinyxml2.cpp:1916-1932 | deleting takes out the first attribute of the name, the others keeping their order, or nothing |
| Attributes.CopyIsSame | src/tinyxml2.cpp:2080-2090 | setting the attributes of another list one by one copies it if and only if its names are distinct |
| Attributes.AttributeList.SetAttribute | src/tinyxml2.cpp:1888-1913 | the search loop updates the first attribute of the name or appends one |
| Attributes.AttributeList.DeleteAttribute | src/tinyxml2.cpp:1916-1932 | the search loop removes the first attribute of the name |
| DeepCloning.ShallowClone | src/tinyxml2.cpp:2080-2090 | a new unlinked node with the same content; none, and no change, for a document |
| DeepCloning.DeepClone | src/tinyxml2.cpp:843-854 | the tree below the clone equals the one below the source, consists of new nodes only, and no other node has moved; a document has no clone, and nothing changes |
| DeepCloning.CloneInto | src/tinyxml2.cpp:843-854 | the same for any node of any valid document, into another document or its own |
| DeepCloning.DeepCopy | src/tinyxml2.cpp:2234-2245 | the target's tree becomes equal to the source's without a shared node, the source unchanged; copied onto itself, a document keeps its lists, pointers, _unlinked and counters |
| DeepCloning.CopyStep | src/tinyxml2.cpp:848-852 | cloning and linking one more child extends the copied part by exactly that child's tree |
| DeepCloning.TreeFrame | src/tinyxml2.cpp:843-854 | a tree is fixed by the lists below its root |
| MemPool.MemPoolT.Alloc | src/tinyxml2.h:375-405 | never returns a slot that is handed out; the free list stays acyclic, the free and the handed out slots together are exactly the slots of the blocks, each of them once, and _maxAllocs is the high-water mark |
| MemPool.MemPoolT.Free | src/tinyxml2.h:407-419 | the slot is first on the free list and no longer live, the same invariants kept |
| MemPool.MemPoolT.NewBlock | src/tinyxml2.h:377-386 | the items of a new block are chained in order without repetition |
| MemPool.MemPoolT.Clear | src/tinyxml2.h:355-366 | no block, no slot, every counter zero |
| Text.SplitJoin | src/Dependency.cpp:157-160 | splitting inverts joining pieces without the separator |
| Text.GetLine | src/backends/QMakeGeneratorBackend.cpp:183-186 | reading line by line yields the pieces between line feeds |
| Dependencies.Dependency.constructor | src/Dependency.cpp:155-242 | the constructor sets the specified fields, with the flags for options, conditions and an identifier of its own |
| Dependencies.Dependency.ParseConditions | src/Dependency.cpp:125-138 | pushes all parts but the first, which it returns |
| Dependencies.Dependency.ReadRepository | src/Dependency.cpp:178-219 | the chain of identifier, repository type, type and base repository deductions and corrections |
| Dependencies.LinesLeave | src/Dependency.cpp:155-242 | what every line leaves in the fields: trimmed pieces without their separators, a consistent type, no correction left to make |
| Dependencies.TypeKept | src/Dependency.cpp:211-218 | correcting the repository type to github never changes the type |
| Dependencies.PrintedPieces | src/Dependency.cpp:96-100 | toString splits into the seven fields again |
| Dependencies.FieldsReread | src/Dependency.cpp:96-242 | all fields a line can give, not only those of a parsed one, are read back one by one from their printed form whatever the main mode, if they have a plain name, the default channel, no condition and a mode of their own |
| Dependencies.ReadPrinted | src/Dependency.cpp:96-242 | reading what toString printed always gives the same base repository, and an equal dependency if and only if it had the default channel, no conditions, a plain package name and no options ending in CR |
| Dependencies.EqualMeans | src/Dependency.cpp:82-94 | equal dependencies differ in their base repository at most |
| Dependencies.PlainLineReread | src/Dependency.cpp:96-242 | every line without #, % and CR is read, printed and read again as an equal dependency |
| Dependencies.ConditionsOneLine | src/Dependency.cpp:125-138 | no condition of a line has a line feed |
| DependencyLines.LineRead | src/Dependency.cpp:151-242 | every field of a line by the words in it, with the names as literals: type, implied repository type and base repository, the github correction, mode, options, channel and conditions, whatever blanks surround them, and whether the identifier is one of its own |
| DependencyLines.LineOf | src/Dependency.cpp:151-165 | every line of four pieces or more is such a line |
| DependencyLines.TypeInverts | src/Dependency.cpp:7-51 | a line that names a type as to_string does is read as that type if and only if it is not choco |
| Dependencies.ChannelLost | src/Dependency.cpp:96-100 | a line with a channel, whose printed form reads as another dependency |
| BuildConditions.GenerateConfigureConditionsFile | src/backends/QMakeGeneratorBackend.cpp:146-170 | one line a condition of the selection, no file for an empty one |
| BuildConditions.ParseConditionsFile | src/backends/QMakeGeneratorBackend.cpp:172-208 | the stream loop reads the lines between line feeds into the map |
| ConditionFiles.FileRead | src/backends/QMakeGeneratorBackend.cpp:172-208 | a file of lines written by hand, each with a sign, a condition and free blanks, the last with or without a line feed, leaves for each condition the sign of the last line about it |
| ConditionFiles.LinesOf | src/backends/QMakeGeneratorBackend.cpp:172-208 | every file is such lines and others that say nothing |
| BuildConditions.StoredRead | src/backends/QMakeGeneratorBackend.cpp:162-208 | reading what was written for any conditions of one line each adds to any map, as true, exactly the trimmed ones without an equals sign |
| BuildConditions.ReadWritten | src/backends/QMakeGeneratorBackend.cpp:162-208 | reading written plain conditions adds exactly them, as true, to any map |
| BuildConditions.KeysPlain | src/backends/QMakeGeneratorBackend.cpp:190-205 | every key a file can give is trimmed and free of equals signs and line feeds |
| BuildConditions.WrittenRead | src/backends/QMakeGeneratorBackend.cpp:146-208 | writing and reading maps exactly the selection's conditions to true if and only if all of them are plain |
| BuildConditions.EqualsSignLost | src/backends/QMakeGeneratorBackend.cpp:190-193 | a selection with the condition "A=B", whose file reads as no condition, so that the user is asked again |
| BuildConditions.ForceConditions | src/backends/IGeneratorBackend.h:52-72 | afterwards each condition has what the last argument about it says, or what it had |
| ConditionFiles.ForcedMeans | src/backends/IGeneratorBackend.h:52-72 | an argument forces a condition if and only if it is the name, an equals sign and the word true or false in any case |
| BuildConditions.FilterConditionDependencies | src/utils/DepUtils.cpp:108-137 | the nested loops with prompts compute the specified selection and number of prompts |
| BuildConditions.CheckMeans | src/utils/DepUtils.cpp:113-131 | a dependency is kept if and only if each condition is true in the map or, unknown there, was answered with yes, each unknown one asked once and in order |
| BuildConditions.FilterAsks | src/utils/DepUtils.cpp:108-137 | nothing is asked if and only if the map knows every condition, and with all of them true nothing is lost |
| BuildConditions.SelectionReproduced | src/utils/DepUtils.cpp:108-137 | a selection filtered with its own file comes back unchanged without a prompt, and without one only if its conditions are plain |
| BuildConditions.ForcedFalseDrops | src/utils/DepUtils.cpp:108-137 | a condition mapped to false drops every dependency that has it |
| ProjectConditions.Retrieve | src/managers/DependencyManager.cpp:313-353 | reads the archived file only and writes the generated one: the selection and the number of prompts, and the files afterwards |
| ConditionFiles.RetrieveSelects | src/managers/DependencyManager.cpp:313-353 | with any file written by hand: no prompt if and only if the command line or the file decides every condition; a dependency with a condition that is off is dropped, one whose conditions are all on is kept, and without a prompt that is the whole selection |
| ProjectConditions.Configure | src/commands/ConfigureCommand.cpp:44-130 | reads both files unless overridden, and writes the generated one |
| ConditionFiles.ConfigureSelects | src/commands/ConfigureCommand.cpp:44-79 | the same for configure, over the lines of the project's own file followed by those of the generated one, or over none with the override option |
| ProjectConditions.RetrieveAgain | src/managers/DependencyManager.cpp:313-353 | a second retrieve asks as often as the first, whatever was generated; it makes the same selection without asking if and only if the first did not ask, which is when the archived file or the command line decides every condition |
| ProjectConditions.NextConfigure | src/commands/ConfigureCommand.cpp:44-79 | the same question for a configure over any dependencies, not only those the selection was made from; if it does not ask, it keeps exactly the dependencies without a condition known to be false |
| ProjectConditions.ConfigureAfter | src/commands/ConfigureCommand.cpp:44-79 | after a selection was made and written, the next configure does not ask if and only if every condition is on the command line, in the archived file or stored from a selected dependency; it then makes the same selection if and only if each dependency that was dropped has a condition known to be false |
| ProjectConditions.ConfigureAgain | src/commands/ConfigureCommand.cpp:44-130 | the same for one configure after another |
| ProjectConditions.ConfigureAfterRetrieve | src/managers/DependencyManager.cpp:339-352 | a configure after a retrieve, over the project's own dependencies and those of nested packages, whose conditions the retrieve wrote elsewhere: when it does not ask, what it then keeps, and, if there are no nested ones, when that is what the retrieve selected |
| ProjectConditions.Reconfigure | src/commands/ConfigureCommand.cpp:44-51 | a selection of plain conditions, written and configured again with other arguments over any archived file: no prompt, and the result is the selection without exactly the dependencies that have a condition forced to false |
| Caches.WrittenUrls | src/Cache.cpp:50-73 | reading a written list of urls gives the list |
| Caches.TextOfUrls | src/Cache.cpp:50-56 | what is written for a list of urls is each of them on a line |
| Caches.LinesRead | src/Cache.cpp:58-73 | what is read from any lines, the last with or without a line feed, is exactly the lines that are not empty |
| Caches.Cache.Load | src/Cache.cpp:58-73 | loading does not change the set the cache stands for |
| Caches.Cache.Contains | src/Cache.cpp:17-25 | answers membership |
| Caches.Cache.Add | src/Cache.cpp:27-34 | adds to the set |
| Caches.Cache.Remove | src/Cache.cpp:42-48 | removes from the set |
| Caches.Cache.Flush | src/Cache.cpp:36-39 | the file becomes the lines of the list in memory, which loses nothing unless the file was never loaded |
| Caches.Session | src/Cache.cpp:11-73 | a session answers as a set does and its file reloads as that set, starting from the file, or from nothing if it first flushes |
| Caches.IdleSession | src/Cache.cpp:11-15 | a session without operations leaves a file that reads as the empty set, which is what was there only if that was empty |
| Retrieve.VisitsReachable | src/managers/DependencyManager.cpp:205-353 | the recursion visits exactly the dependencies listed in files that a path of the package graph reaches, with the kind of file |
| Retrieve.VisitsOrdered | src/managers/DependencyManager.cpp:205-353 | the visits below a file are those at the end of all ways down from it, each way once: what leads to a dependency first, extra-packages before packagedependencies, the common file before the platform's, and each file from its first line on |
| Retrieve.DependencyManager.RetrieveDependency | src/managers/DependencyManager.cpp:205-286 | one dependency and what it leads to, freshly installed or already there, in order; an exception if and only if something broken had to be installed, at the first such one |
| Retrieve.DependencyManager.RetrieveDependencies | src/managers/DependencyManager.cpp:313-353 | the same for everything the files of one kind list |
| Retrieve.DependencyManager.Retrieve | src/managers/DependencyManager.cpp:39-76 | on an acyclic graph it ends; it returns 0 if and only if nothing reachable that is broken had to be installed; the visits are the dependencies at the ways from the root in their order, all of them or, if it fails, those up to the first that cannot be installed, and those before it are installed |

## Left out

- Numbers and booleans (`ToInt`, `ToStr` and the typed accessors): library conversions.
- Files, streams and the XMLHandle and Query functions: I/O or thin wrappers. A file is its content.
- Error messages: only the code and the line of an error are kept. Building the message flushes the name or value it mentions, which the model does not do; that happens once the error is known, and a document with an error keeps no node.
- DomParsing.Parse: makes a node once its own text is read, not before, with its content decoded from the buffer as it is then, so that the content need not change; that reading it later in place gives the same is `LazyReading.ReadAll`. The attribute pool and the clearing of the pools after an error are not modelled (the counters are at zero by then).
- Parser.DocumentParser.constructor: a fresh buffer; the clearing of an earlier tree before parsing is part of `DomParsing.Parse`.
- LazyReading.MakePairs: makes all pairs unflushed, also the names that parsing has flushed already; flushing those again writes the same NUL.
- Dom.XMLDocument.CreateUnlinkedNode: the value of a node is fixed when it is made; SetValue, SetName and SetText are not modelled, and the pools here are their counters (the slots are in `MemPool.dfy`).
- MemPool.MemPoolT.NewBlock: a block has at least one slot, which holds for every type the engine pools.
- Attributes.AttributeList.SetAttribute: the list is a sequence; its links and the attribute pool are not modelled.
- Attributes.AttributeList.DeleteAttribute: the same; the node is not unlinked and not given back to its pool.
- Tokens.ValueMeaning: not for decimal references to numbers of more than 32 bits, each of whose digits wraps on its own; the loop itself is specified for them too (`CharacterRef.ReadDigits`).
- DynArray: sequences stand for it; its growth and its INT_MAX bounds are not modelled, nor is the splitting of very long runs in PrintString.
- Printer.XMLPrinter.constructor: prints to memory from depth 0, not to a FILE.
- RootNodes.DocumentReread: for documents with entity processing on and whitespace preserved; storable is defined in `XmlTree.dfy`.
- ProjectConditions.Configure: when it does not stop at its timestamp; the folders and the generated build files are not modelled. The files of a `retrieve` are taken in a row.
- ProjectConditions.ConfigureAfter: for conditions without a line feed, as every line of a file gives them (`Dependencies.ConditionsOneLine`).
- ProjectConditions.ConfigureAfterRetrieve: the folders of nested packages are one list of dependencies that the retrieve of the project did not filter.
- ShallowEqual: on elements it ignores attribute names; the model compares trees by structure.
- Dependencies.ReadPrinted: the main mode is one without a separator or surrounding blanks, as the command line only takes such modes.
- validate, DepUtils::parse and removeRedundantDependencies: tests and lookups on parsed lines; which lines a file keeps is taken as given in `Retrieve.dfy`.
- Retrieve.DependencyManager.Retrieve: the graph is acyclic, since the code keeps no visited set; an install is a step that succeeds or throws, by folder; alternate repositories, remote-only mode, the cache calls and threads are not modelled.
- Retrieve.DependencyManager.RetrieveDependency: the same; what is installed is known by its folder, not by the cache of urls.
- Retrieve.DependencyManager.RetrieveDependencies: the same; what a file lists once its conditions are filtered is given, and the exception for a line that fails validation is not modelled.
- BuildConditions.ForceConditions: upper and lower case are those of ASCII.
- Cache locking: the model is sequential; a file that another process writes meanwhile is not modelled.
- HTTP, archives, git, the system package tools, prompts, command-line parsing, Bazel, CMake and JSON backends: outside processes and text emission.
