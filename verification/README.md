# A verified model of the monitoring system's core

The client collects records of a machine, prints each as a JSON object with cJSON and sends the text to the server,
which parses it and hands it to its workers. This project models the code that this rests on and proves what it is
for. Four parts:

* **The JSON codec** (`common/cJSON/cJSON.cpp`).
  `JsonTree`, `Utf`, `StringCodec`, `NumberCodec`, `Layout` and `Grammar` are the specification: the trees, what
  text a tree prints as, and what tree a text reads as, with every liberty the parser takes (bytes up to 32 are
  whitespace, control characters may stand in strings, a bad hex digit makes the code unit 0, text after the value
  is ignored unless the terminator is required). `RoundTrip` proves that the two fit together.
  `StringSyntax`, `NumberSyntax` and `Syntax` say once more, without the code in view, what a text stands for, after
  RFC 8259 and with the parser's liberties marked; `Conformance` proves that exactly those texts are read.
  `PrettyText` is a second, depthless account of what is printed.
  `Memory` is the C heap: nodes and byte blocks behind addresses, any allocation may be refused, and an address
  that is not allocated cannot be read, written or freed. `ParseBuffer` (with `Scanner` and `Builder`) and
  `PrintBuffer` are the parser and the printer as they run, cursor, growing buffer and all, proved to refine the
  specification and to leave no allocation behind. `Census` counts what a tree holds. `ChildList` has the operations
  on the doubly linked lists of children, `Compare` and `CompareNodes` the comparison, `Equality`
  what its answer means, `Duplicate` the copy.
  `Reading` says what a tree of nodes says to code that only reads it.
  `Minify` and `MinifyLaws`, `MinifyPrint` and `MinifyParse` treat the in-place minifier, what it does to a text, and
  how it meets the printer and the parser.
* **The ring queue** between dispatcher and workers (`server/thread_pool/thread_poll.cpp`): `RingQueue`.
* **Store and forward** (`client/send_file.cpp`): `StoreForward`.
* **The heartbeat** (`server/server_func.cpp`): `Heartbeat`.

A tree in the heap is described by a ghost shape (`Memory.Tree`): its addresses, the strings it owns and its children
in order. `Owns` says that the heap is laid out that way, `Apart` that no address occurs twice, `PrevLinked` that
the head points back to the tail, and `Denotes` which value it stands for. Printing and comparing ask for less:
`Reads` says which value stands at an address, whoever owns the nodes and strings.

Four things the code does that its comments do not say:

* `common/cJSON/cJSON.h:162` advises 5 bytes more than the text for `cJSON_PrintPreallocated`; two are enough, and
  always needed (`PrintBuffer.PrintPreallocated`).
* `minify_string` looks only for a backslash before a quote, so it misses the end of a string that ends in a
  backslash (`MinifyPrint.MinifyCommutesWithPrint`, `MinifyParse.SpaceLostAfterBackslash`).
* `client/login.cpp:12-15` counts on every record having all its members. Where a token is missing the client leaves
  the member out, and from there on the file is cut in the wrong places (`StoreForward.FramingIsExact`).
* The comment at `server/server_func.cpp:160` speaks of five missed heartbeats; a client that has never acknowledged
  one is dropped at the eighth (`Heartbeat.CreditCountsDown`).

## Model

| member | source | states |
|---|---|---|
| `Utf.LiteralMeetsTheStandards` | common/cJSON/cJSON.cpp:648-766 | for every text of at least the six bytes of a literal: it is accepted if and only if its units are a UTF-16 character as section 2.2 of RFC 2781 has it, and then the bytes are that character in the UTF-8 of section 3 of RFC 3629; never a surrogate, never above 0x10FFFF |
| `Utf.EncodingIsTheUniqueForm` | common/cJSON/cJSON.cpp:711-758 | the 1 to 4 bytes written for a code point are the one and only well-formed sequence for it in section 3 of RFC 3629, in both directions |
| `Utf.MasksAreArithmetic` | common/cJSON/cJSON.cpp:743-758 | the shifts, ors and masks of the encoder on 32-bit words are the divisions and remainders of the model |
| `Utf.HexOfFour` | common/cJSON/cJSON.cpp:611-644 | the number built up digit by digit over four hex digits is the value of the four |
| `StringCodec.DecodedFitsTheEstimate` | common/cJSON/cJSON.cpp:782-873 | the second pass of the string decoder writes at most as many bytes as the first pass counted, on every input, also where a bad \uXXXX makes the passes disagree about where escapes start |
| `StringCodec.EscapeLength` | common/cJSON/cJSON.cpp:925-949 | the printed string is longer than the string by exactly the number that the first pass of the printer counts |
| `StringCodec.CloseAfterEscape` | common/cJSON/cJSON.cpp:782-804 | the first pass of the decoder finds the closing quote of a printed string and none before it |
| `StringCodec.UnescapeUndoesEscape` | common/cJSON/cJSON.cpp:815-870 | decoding the escaped form of any NUL-free bytes gives them back |
| `StringCodec.StringRoundTrip` | common/cJSON/cJSON.cpp:769-1017 | a printed string literal, with any text after it, is read back as the same bytes and consumed exactly |
| `StringSyntax.UnescapeIsWhatTheBodyDenotes` | common/cJSON/cJSON.cpp:815-870 | on every body the second pass of the decoder gives exactly the bytes that the body denotes in an independent reading of section 7 of RFC 8259, widened by the parser's liberties; it fails on exactly the bodies that denote nothing |
| `StringSyntax.UnescapeMeetsTheStandard` | common/cJSON/cJSON.cpp:815-870 | on every well-formed body it gives exactly what section 7 of RFC 8259 says |
| `StringSyntax.WellFormedBody` | common/cJSON/cJSON.cpp:782-804 | a well-formed body has no liberties in it, and the first pass finds its closing quote |
| `StringSyntax.StringIsWhatTheLiteralDenotes` | common/cJSON/cJSON.cpp:769-895 | a literal is read from a text if and only if it stands there, ends where section 7 of RFC 8259 lets it end, and denotes the bytes |
| `StringSyntax.EscapeDenotes` | common/cJSON/cJSON.cpp:973-1011 | the printed form of any string is well formed and denotes its bytes |
| `StringSyntax.EscapeIsShortest` | common/cJSON/cJSON.cpp:925-1011 | no well-formed body that denotes the same bytes is shorter |
| `StringSyntax.NoCapitalIsAdded` | common/cJSON/cJSON.cpp:1003-1006 | the hexadecimal codes are in lower case |
| `NumberSyntax.TokenIsRead` | common/cJSON/cJSON.cpp:305-379 | every number token, in an independent grammar, of at most 63 bytes is read whole as the number it means by the places of its digits |
| `NumberSyntax.ReadIsToken` | common/cJSON/cJSON.cpp:305-379 | and nothing else is read as a number |
| `NumberSyntax.DecimalIsShortest` | common/cJSON/cJSON.cpp:545-608 | a whole number prints as the shortest row of digits that stands for it |
| `NumberCodec.DecimalIsOneLexeme` | common/cJSON/cJSON.cpp:318-357 | the decimal text of an integer below 10^15 is one number token of at most 16 bytes that strtod takes whole, and its value is that integer |
| `NumberCodec.NumberRoundTrip` | common/cJSON/cJSON.cpp:305-379 | a printed integer is read back as itself before any text that does not go on like a number |
| `Grammar.AcceptedNesting` | common/cJSON/cJSON.cpp:1437-1446 | no accepted value is nested deeper than the limit of 1000, counting the containers around it |
| `Conformance.ValueIsRead` | common/cJSON/cJSON.cpp:1308-1360 | wherever a text of a tree stands, with any blanks between its tokens, the parser reads that tree and stops at its end |
| `Conformance.ReadIsValue` | common/cJSON/cJSON.cpp:1308-1360 | and whatever it reads as a tree is a text of that tree: no trailing comma, no missing one, no other token |
| `Conformance.ParserMeetsTheSyntax` | common/cJSON/cJSON.cpp:1091-1168 | with the terminator required, the texts read as a tree are exactly the texts of that tree in an independent grammar, byte order mark and blanks of bytes up to 32 included, for trees nested at most 1000 deep; both directions, all trees |
| `Conformance.RefusedTexts` | common/cJSON/cJSON.cpp:1091-1168 | a text is refused if and only if it is a text of no such tree |
| `Conformance.StartIsRead` | common/cJSON/cJSON.cpp:1091-1168 | without it, a text that starts with a tree is read as that tree, whatever follows, unless a number could go on |
| `Conformance.RefusedStarts` | common/cJSON/cJSON.cpp:1091-1168 | and a text is refused if and only if it starts with no tree |
| `Syntax.NestingIsTheLongestChain` | common/cJSON/cJSON.cpp:1437-1446 | the nesting of a tree is the greatest number of containers that are open at once |
| `PrettyText.PrintedText` | common/cJSON/cJSON.cpp:1535-1821 | the text that is printed is the one of a reference without any depth in it: formatted, the text of a value inside an object or an array is its own text with one tab put behind every newline |
| `RoundTrip.ValueRoundTrip` | common/cJSON/cJSON.cpp:1308-1360 | wherever the text of a printable tree stands in an input, at any indentation, the parser reads exactly that tree and stops exactly at its end |
| `RoundTrip.PrintThenParse` | common/cJSON/cJSON.cpp:1091-1168 | for every printable tree, formatted or not, parsing its text with the terminator required gives the same tree (member order, duplicate keys and all bytes of strings kept) if and only if the tree is nested at most 1000 deep |
| `RoundTrip.ParseThenPrintNormalises` | common/cJSON/cJSON.cpp:1091-1251 | for every accepted text with whole numbers, printing the result and parsing again gives the same tree; the nesting bound is derived, not asked for |
| `Minify.SkipOnelineComment` | common/cJSON/cJSON.cpp:2780-2791 | moves the read position to where the line comment ends in the specification |
| `Minify.SkipMultilineComment` | common/cJSON/cJSON.cpp:2793-2805 | the same for a block comment, closed or not |
| `Minify.MinifyString` | common/cJSON/cJSON.cpp:2807-2827 | copies a string literal down over text already read; nothing unread is touched |
| `Minify.CopyToken` | common/cJSON/cJSON.cpp:2862-2869 | one string or one other byte of a token, as the specification squeezes it |
| `Minify.MinifyInPlace` | common/cJSON/cJSON.cpp:2829-2875 | the in-place loop leaves exactly the out-of-place result and its terminator: the write position never overtakes the read position |
| `Minify.MinifyIdempotent` | common/cJSON/cJSON.cpp:2829-2875 | minifying twice is minifying once, on every byte string, well formed or not |
| `MinifyLaws.BlankVanishes` | common/cJSON/cJSON.cpp:2839-2850 | minifying a text that begins with whitespace is minifying the rest; with the laws below, every way in which a text can begin is covered, without positions |
| `MinifyLaws.ByteStays` | common/cJSON/cJSON.cpp:2866-2869 | any other byte than whitespace, a slash or a quote stays |
| `MinifyLaws.LineCommentVanishes` | common/cJSON/cJSON.cpp:2780-2791 | a line comment goes with its newline, or up to the end |
| `MinifyLaws.BlockCommentVanishes` | common/cJSON/cJSON.cpp:2793-2805 | a block comment goes up to the first closing mark, or to the end |
| `MinifyLaws.LoneSlashVanishes` | common/cJSON/cJSON.cpp:2851-2861 | a slash that begins no comment goes by itself |
| `MinifyLaws.LiteralStays` | common/cJSON/cJSON.cpp:2807-2827 | a literal stays up to the first quote without a backslash right before it, or to the end |
| `MinifyPrint.MinifyCommutesWithPrint` | common/cJSON/cJSON.cpp:2829-2875 | minifying the formatted text of a tree gives its unformatted text, byte for byte, if and only if no string or key in it ends in a backslash, a string that only closing square brackets follow excepted |
| `MinifyParse.StringsEndAlike` | common/cJSON/cJSON.cpp:2807-2827 | on a literal without a backslash right before its closing quote the minifier stops where the parser stops |
| `MinifyParse.ValueFollows` | common/cJSON/cJSON.cpp:1308-1360 | an accepted value inside a text reads the same at the matching place of the minified text |
| `MinifyParse.ThroughCopies` | common/cJSON/cJSON.cpp:2829-2875 | bytes that the minifier goes through without meeting whitespace or a slash outside what it takes for a string stand in its output as they are |
| `MinifyParse.PlainStringsAreKept` | common/cJSON/cJSON.cpp:2807-2827 | that is so for every text in which no literal has a backslash right before its closing quote |
| `MinifyParse.MinifyKeepsTheValue` | common/cJSON/cJSON.cpp:2829-2875 | a text the parser accepts whole, from whose literals the minifier drops no byte, is accepted after minifying with the same value, also where the minifier has lost track of where literals begin |
| `MinifyParse.SpaceLostAfterBackslash` | common/cJSON/cJSON.cpp:2813-2826 | a concrete text outside that condition: both texts are accepted and the values differ, a space inside a string is gone |
| `Memory.FlagsDecide` | common/cJSON/cJSON.cpp:259-269 | what a tree owns, and deleting frees, in terms of the flags of its root: no child and no value of a reference, no name that is constant |
| `Memory.CHeap.NewItem` | common/cJSON/cJSON.cpp:241-250 | an unused address with a zeroed node, or NULL and nothing changed |
| `Memory.CHeap.Delete` | common/cJSON/cJSON.cpp:253-274 | frees every node and every owned string of a list of trees exactly once, and nothing else |
| `Memory.CHeap.DeleteItem` | common/cJSON/cJSON.cpp:256-272 | one round of that loop: reference and constant-key flags decide what is owned |
| `Reading.OwnedReads` | common/cJSON/cJSON.cpp:1363-1434 | a tree that is owned, whatever it denotes, can be read as that value by the printer and the comparison |
| `Reading.ReadsOne` | common/cJSON/cJSON.cpp:2977-3100 | what stands at an address reads as one value only, whoever owns it |
| `Reading.TypeOfANode` | common/cJSON/cJSON.cpp:1308-1360 | the type field of a node tells the kind of its value |
| `ParseBuffer.ParseBuffer.BufferSkipWhitespace` | common/cJSON/cJSON.cpp:1034-1057 | stops at the first byte above 32 or at the terminator, never before where it started, despite the final step back |
| `ParseBuffer.ParseBuffer.ParseHex4` | common/cJSON/cJSON.cpp:611-644 | computes the hex value of the specification |
| `ParseBuffer.ParseBuffer.EncodeAt` | common/cJSON/cJSON.cpp:711-760 | writes the UTF-8 form of a code point into the block, last byte first |
| `ParseBuffer.ParseBuffer.Utf16LiteralToUtf8` | common/cJSON/cJSON.cpp:648-766 | consumes 6 or 12 bytes and writes what the specification of a literal says, or fails as it does |
| `ParseBuffer.ParseBuffer.FindStringEnd` | common/cJSON/cJSON.cpp:783-804 | finds the closing quote and the number of escapes stepped over, or that there is none |
| `ParseBuffer.ParseBuffer.DecodeEscape` | common/cJSON/cJSON.cpp:824-869 | one escape of the second pass, within the allocated block |
| `ParseBuffer.ParseBuffer.DecodeString` | common/cJSON/cJSON.cpp:815-873 | the second pass: its output with terminator fits the block that was allocated, and the input position never passes one byte behind the closing quote |
| `ParseBuffer.ParseBuffer.ParseString` | common/cJSON/cJSON.cpp:769-895 | refines the string reader; failure frees the block, so the heap is as before |
| `ParseBuffer.ParseBuffer.ParseNumber` | common/cJSON/cJSON.cpp:305-379 | refines the number reader, with the 63-byte buffer of the source |
| `ParseBuffer.ParseBuffer.ParseValue` | common/cJSON/cJSON.cpp:1308-1360 | refines the value reader: on success no allocation was refused, the node has exactly the new nodes and strings of the value, no array element carries a name, depth is restored and the offset has moved on; on failure the heap is as before and either memory ran out or the text is refused; never more than 1000 containers are open |
| `ParseBuffer.ParseBuffer.ParseArray` | common/cJSON/cJSON.cpp:1437-1532 | the same for arrays, with the list closed so that the head points back to the tail |
| `ParseBuffer.ParseBuffer.AttachNewItem` | common/cJSON/cJSON.cpp:1474-1493 | a zeroed node chained behind the last one, values before it kept |
| `ParseBuffer.ParseBuffer.Finish` | common/cJSON/cJSON.cpp:1511-1521 | the head pointed back to the tail, and the list hung under the item |
| `ParseBuffer.ParseBuffer.ParseElements` | common/cJSON/cJSON.cpp:1472-1509 | the loop: the chain of children built so far holds the values read so far |
| `ParseBuffer.ParseBuffer.ParseElement` | common/cJSON/cJSON.cpp:1474-1502 | one round: a new node attached before its value is parsed into it |
| `ParseBuffer.ParseBuffer.ParseObject` | common/cJSON/cJSON.cpp:1597-1707 | the same for objects, members in order, duplicate keys kept |
| `ParseBuffer.ParseBuffer.ParseEntries` | common/cJSON/cJSON.cpp:1630-1685 | the loop over members |
| `ParseBuffer.ParseBuffer.ParseEntry` | common/cJSON/cJSON.cpp:1632-1678 | one member: name, colon and value in one node |
| `ParseBuffer.ParseBuffer.FillElement` | common/cJSON/cJSON.cpp:1494-1502 | the value of an element, into the node attached for it |
| `ParseBuffer.ParseBuffer.ParseName` | common/cJSON/cJSON.cpp:1653-1664 | the string read into the node becomes its name |
| `ParseBuffer.ParseBuffer.ParseKey` | common/cJSON/cJSON.cpp:1653-1673 | the string just parsed becomes the name of the node, owned there and nowhere else |
| `ParseBuffer.ParseBuffer.SkipUtf8Bom` | common/cJSON/cJSON.cpp:1060-1073 | skips a byte order mark unless it is all there is |
| `ParseBuffer.ParseWithOpts` | common/cJSON/cJSON.cpp:1075-1168 | the entry point, on any heap and after any earlier call: NULL leaves the heap exactly as it was and means that this call was refused memory or that the text is no text of any tree in the independent grammar; otherwise the text is a text of the tree (or starts with one), nothing was refused, and the heap gained one well-linked tree that denotes it, with exactly one node per value and exactly one block per string value and per member name |
| `Census.NodesCounted` | common/cJSON/cJSON.cpp:1437-1532 | a tree holds exactly one node per value |
| `Census.BlocksCounted` | common/cJSON/cJSON.cpp:253-274 | a tree holds exactly one block per valuestring and per name that it owns |
| `Census.StringsCounted` | common/cJSON/cJSON.cpp:1437-1532 | where no array element carries a name, these are the string values and the member names of the value |
| `Census.AllocationsOfATree` | common/cJSON/cJSON.cpp:1091-1168 | the heap holds exactly so many nodes and blocks more than before; where no array element carries a name both numbers follow from the value alone |
| `PrintBuffer.PrintBuffer.Ensure` | common/cJSON/cJSON.cpp:439-522 | room for the bytes asked for and one more, the text kept over a move to a bigger block; failure means the limit is too small or memory ran out |
| `PrintBuffer.PrintBuffer.UpdateOffset` | common/cJSON/cJSON.cpp:525-535 | moves the offset from anywhere in the text just written to its end |
| `PrintBuffer.PrintBuffer.CountEscapes` | common/cJSON/cJSON.cpp:925-949 | computes the length of a string and the extra bytes its escapes need |
| `PrintBuffer.PrintBuffer.WriteEscaped` | common/cJSON/cJSON.cpp:973-1011 | one byte in its escaped form |
| `PrintBuffer.PrintBuffer.WriteAfterBackslash` | common/cJSON/cJSON.cpp:981-1008 | what follows the backslash, for every byte that needs one |
| `PrintBuffer.PrintBuffer.WriteEscapes` | common/cJSON/cJSON.cpp:969-1012 | the escaping pass writes the escaped form and ends exactly where the first pass said |
| `PrintBuffer.PrintBuffer.WriteQuoted` | common/cJSON/cJSON.cpp:957-1014 | the quoted form on either path, once there is room |
| `PrintBuffer.PrintBuffer.PrintStringPtr` | common/cJSON/cJSON.cpp:898-1017 | the quoted form behind what was printed before, on the copying and on the escaping path; NULL prints as an empty string |
| `PrintBuffer.PrintBuffer.PrintNumber` | common/cJSON/cJSON.cpp:545-608 | the decimal text of a whole number |
| `PrintBuffer.PrintBuffer.PrintValue` | common/cJSON/cJSON.cpp:1363-1434 | the terminated text of the tree behind what was printed before, whatever moves the buffer made; depth restored, the offset somewhere in the text; with success and failure decided by the exact space the text needs; references, constant keys and nodes met twice print like any others |
| `PrintBuffer.PrintBuffer.PrintArray` | common/cJSON/cJSON.cpp:1535-1594 | the same for arrays |
| `PrintBuffer.PrintBuffer.PrintItems` | common/cJSON/cJSON.cpp:1558-1582 | the loop over the elements |
| `PrintBuffer.PrintBuffer.PrintElement` | common/cJSON/cJSON.cpp:1560-1580 | one element and what separates it from the next |
| `PrintBuffer.PrintBuffer.PrintObject` | common/cJSON/cJSON.cpp:1710-1821 | the same for objects, with the indentation of the current depth |
| `PrintBuffer.PrintBuffer.PrintMembers` | common/cJSON/cJSON.cpp:1737-1801 | the loop over the members |
| `PrintBuffer.PrintBuffer.PrintMember` | common/cJSON/cJSON.cpp:1739-1800 | one member and what separates it from the next |
| `PrintBuffer.PrintBuffer.PrintPair` | common/cJSON/cJSON.cpp:1739-1779 | its key and its value |
| `PrintBuffer.PrintBuffer.PrintKey` | common/cJSON/cJSON.cpp:1739-1772 | indentation, name and colon; a NULL name prints as an empty key |
| `PrintBuffer.PrintBuffer.PrintComma` | common/cJSON/cJSON.cpp:1781-1798 | the end of a member: a comma if there is another one |
| `PrintBuffer.PrintBuffer.PrintClose` | common/cJSON/cJSON.cpp:1803-1820 | the closing brace one level further out |
| `PrintBuffer.PrintBuffer.PrintWord` | common/cJSON/cJSON.cpp:1374-1399 | null, false and true |
| `PrintBuffer.PrintBuffer.Trimmed` | common/cJSON/cJSON.cpp:1207-1231 | the text in a block of its own size |
| `PrintBuffer.Print` | common/cJSON/cJSON.cpp:1183-1256 | a block that holds exactly the text of the reference and its terminator, for every printable tree; NULL means no item, no memory, or a text of more than 2147483645 bytes |
| `PrintBuffer.PrintPreallocated` | common/cJSON/cJSON.cpp:1288-1305 | succeeds if and only if the buffer has at least two bytes more than the text of the reference; then that text and its terminator stand at its start |
| `ChildList.GetArrayItem` | common/cJSON/cJSON.cpp:1847-1864 | the child at the index, or NULL past the end |
| `ChildList.AddItemToArray` | common/cJSON/cJSON.cpp:1952-1984 | the list plus the item, well linked; only links changed; every value kept |
| `ChildList.InsertItemInArray` | common/cJSON/cJSON.cpp:2259-2286 | the item in front of the child at the index, or at the end; a NULL item and the array itself are refused past the end |
| `ChildList.DetachItemViaPointer` | common/cJSON/cJSON.cpp:2183-2217 | the list without the child, which comes out as a whole tree of its own with no links |
| `ChildList.Unlink` | common/cJSON/cJSON.cpp:2190-2214 | what detaching does to the nodes |
| `ChildList.LinkBefore` | common/cJSON/cJSON.cpp:2274-2284 | what inserting does to the nodes |
| `ChildList.Substitute` | common/cJSON/cJSON.cpp:2300-2330 | what replacing does to the nodes |
| `ChildList.ReplaceItemViaPointer` | common/cJSON/cJSON.cpp:2288-2335 | the replacement in the place of the child; exactly the nodes and blocks of the old child are freed |
| `ChildList.ChainAppend` | common/cJSON/cJSON.cpp:1952-1983 | next runs through the nodes to NULL, prev is its inverse and the head points back to the tail, after appending |
| `ChildList.ChainInsert` | common/cJSON/cJSON.cpp:2274-2284 | the same after inserting |
| `ChildList.ChainDetach` | common/cJSON/cJSON.cpp:2191-2214 | the same after detaching, at the head, in the middle, at the tail and in a list of one |
| `ChildList.ChainReplace` | common/cJSON/cJSON.cpp:2300-2329 | the same after replacing, in all these places |
| `ChildList.SplicedArray` | common/cJSON/cJSON.cpp:2183-2335 | an array whose list was changed by one of the operations denotes the changed sequence of values |
| `ChildList.SplicedObject` | common/cJSON/cJSON.cpp:2183-2335 | an object likewise, names staying with their values |
| `Compare.MatchingIsAgreement` | common/cJSON/cJSON.cpp:133-156 | two keys match if and only if they are equal or, without regard to case, of one length and at every byte equal or one ASCII letter in two cases |
| `Equality.SameIsEquality` | common/cJSON/cJSON.cpp:2977-3100 | for all values whose objects have their keys in strictly ascending order, the answer is plain equality, in both directions |
| `Equality.ScalarsCompareByEquality` | common/cJSON/cJSON.cpp:2995-3033 | for anything but arrays and objects the answer is equality of the values, in both case modes |
| `Equality.CaseIsFolded` | common/cJSON/cJSON.cpp:3059-3095 | without regard to case the answer is the one for the trees with their keys in lower case |
| `Compare.SameSymmetric` | common/cJSON/cJSON.cpp:2977-3100 | the comparison is symmetric on all values, in both case modes |
| `Compare.SameTransitive` | common/cJSON/cJSON.cpp:2977-3100 | and transitive |
| `Compare.CopyIsSame` | common/cJSON/cJSON.cpp:3059-3095 | a value is the same as a copy of it if and only if no object in it holds two members with matching keys and different values |
| `Compare.TwoValuesForOneKey` | common/cJSON/cJSON.cpp:3059-3095 | the comparison is not reflexive on copies: a concrete object |
| `Compare.ObjectsAreMaps` | common/cJSON/cJSON.cpp:3059-3095 | with distinct keys two objects are the same if and only if they are the same finite map, in any order of members |
| `CompareNodes.CaseInsensitiveStrcmp` | common/cJSON/cJSON.cpp:133-156 | zero if and only if neither is NULL and the strings agree but for the case of letters; otherwise the distance of the first bytes that differ, in lower case |
| `CompareNodes.LookUpIsFirstMatch` | common/cJSON/cJSON.cpp:1876-1906 | where every child has a name this is the first match the comparison is about |
| `CompareNodes.GetObjectItem` | common/cJSON/cJSON.cpp:1876-1906 | the item returned is the first whose name agrees with the key, byte by byte, and every earlier one disagrees; NULL if there is none; a case-sensitive search finds nothing behind a child without a name |
| `CompareNodes.CompareDoubleIsExact` | common/cJSON/cJSON.cpp:538-542 | below 10^15 the relative tolerance never takes two whole numbers for equal |
| `CompareNodes.CompareItems` | common/cJSON/cJSON.cpp:2977-3100 | decides the comparison of the two values, for trees that share no node and for trees that share any as long as one of them is consistent; where keys are in order, and for single values, that is plain equality; references and constant keys included; a node is the same as itself even where a copy of it would not be |
| `CompareNodes.CompareArrays` | common/cJSON/cJSON.cpp:3035-3057 | two lists side by side, of equal length |
| `CompareNodes.CompareMembers` | common/cJSON/cJSON.cpp:3061-3076 | every member of one object looked up in the other |
| `CompareNodes.CompareMember` | common/cJSON/cJSON.cpp:3063-3076 | one round of that loop: the member is there and the same |
| `CompareNodes.DuplicateAndCompare` | common/cJSON/cJSON.cpp:2697-2778 | duplicating a tree and comparing it with its duplicate: unless memory runs out the answer is yes if and only if no object in the tree holds two members with matching keys and different values |
| `Duplicate.Strdup` | common/cJSON/cJSON.cpp:188-207 | a new block with the same C string, or NULL and nothing changed |
| `Duplicate.DuplicateNode` | common/cJSON/cJSON.cpp:2709-2726 | the new node with its scalar fields and its string |
| `Duplicate.DuplicateName` | common/cJSON/cJSON.cpp:2727-2734 | its name: the same pointer when constant, a copy otherwise |
| `Duplicate.LinkChild` | common/cJSON/cJSON.cpp:2749-2761 | the copy behind the copies before it, or as the first child |
| `Duplicate.DuplicateChildren` | common/cJSON/cJSON.cpp:2740-2767 | the copies of the children, chained as they come and closed at the end |
| `Duplicate.Duplicate` | common/cJSON/cJSON.cpp:2697-2778 | NULL leaves the heap exactly as it was and means that this call was refused memory; otherwise the heap gained exactly one tree with the same value (without recursion, an empty container or the same single value), sharing nothing with the original but a constant name, whose names are strings again, so that it can itself be duplicated |
| `RingQueue.PushAppends` | server/thread_pool/thread_poll.cpp:26-40 | a push is refused exactly when size - 1 messages wait, and otherwise goes to the end of the queue |
| `RingQueue.PopRemovesFirst` | server/thread_pool/thread_poll.cpp:42-56 | a pop takes the oldest message |
| `RingQueue.FifoExactlyOnce` | server/thread_pool/thread_poll.cpp:15-56 | over every interleaving: the accepted messages are the popped ones followed by those waiting, and the counter is the length, below the size |
| `RingQueue.SlotStability` | server/thread_pool/thread_poll.cpp:51-55 | after a pop that leaves L messages the slot holds its message as long as fewer than size - L pushes were accepted, and becomes the next slot to be written exactly after size - L - 1 of them |
| `RingQueue.SlotOverwritten` | server/thread_pool/thread_poll.cpp:32-35 | the (size - L)-th accepted push replaces the message, read or not |
| `RingQueue.MessageLost` | server/thread_pool/thread_poll.cpp:26-56 | it does happen: a queue of two slots in which a second consumer pops and the next push overwrites what the first one has still to read |
| `RingQueue.OverwritingNeedsAPop` | server/thread_pool/thread_poll.cpp:29-32 | that push cannot be accepted before somebody pops again |
| `RingQueue.LoneConsumerReadsItsOwn` | server/thread_pool/thread_poll.cpp:42-56 | a lone consumer that reads before its next pop sees the message it was handed, after any number of pushes |
| `RingQueue.TaskQueue.constructor` | server/thread_pool/thread_poll.cpp:3-13 | an empty queue |
| `RingQueue.TaskQueue.IsEmptyNow` | server/thread_pool/thread_poll.cpp:15-18 | whether no message waits |
| `RingQueue.TaskQueue.LengthNow` | server/thread_pool/thread_poll.cpp:20-23 | how many messages wait |
| `RingQueue.TaskQueue.Push` | server/thread_pool/thread_poll.cpp:26-40 | the array, indices and counter after a push, and the queue they stand for |
| `RingQueue.TaskQueue.Pop` | server/thread_pool/thread_poll.cpp:42-56 | the same for a pop, and the slot handed out |
| `StoreForward.PersistenceFile.Append` | client/send_data_to_server.cpp:94-101 | the file after a record whose send failed |
| `StoreForward.PersistenceFile.DoWithFile` | client/send_file.cpp:7-34 | what the loop over fgets sends, when it overruns its fixed buffer, and that the file is empty afterwards |
| `StoreForward.StoredOneMore` | client/send_data_to_server.cpp:94-101 | the file of the stored records after one more record, which is what that append leaves |
| `StoreForward.RegroupAt` | client/send_file.cpp:15-23 | one round: a line, the rest of the file or 499 bytes; 500 bytes and more overrun the buffer |
| `StoreForward.MessagesAreCutInOrder` | client/send_file.cpp:7-34 | for any file: the messages are cut from it in order and without a gap, each shorter than 500 bytes, and what is lost when the file is emptied has fewer lines than a message |
| `StoreForward.RecordHolds` | client/send_data_to_server.cpp:83-90 | every token that is there makes one member, under its own key and in order, and nothing else does |
| `StoreForward.RecordLines` | client/login.cpp:12-15 | the stored text of n string members has exactly n + 2 lines, whatever the strings hold |
| `StoreForward.LinesJoin` | client/send_file.cpp:15-23 | whole lines that fit join the message, and the last missing one completes it |
| `StoreForward.LinesOverrun` | client/send_file.cpp:15-17 | lines that do not fit overrun the buffer before the message is complete |
| `StoreForward.StoredRecordsAreResent` | client/send_file.cpp:7-34 | with n + 2 lines to a message exactly the stored records are sent, in order, none cut or merged, up to the first whose text leaves less than two bytes of the 500-byte buffer free; there, and only there, the buffer is overrun |
| `StoreForward.FramingIsExact` | client/send_file.cpp:7-34 | for any records and any line count: the messages sent are the records stored and nothing is overrun if and only if every record has exactly that many lines and a text of at most 498 bytes |
| `StoreForward.RecordIsFlat` | client/send_data_to_server.cpp:83-90 | a record has all its members if and only if strtok found a token for every key |
| `StoreForward.MessageParsesBack` | server/server_func.cpp:14 | every message sent parses back to its record |
| `StoreForward.EveryKindIsResent` | client/login.cpp:12-15 | the four kinds with 5, 7, 5 and 15 keys and their line counts 7, 9, 7 and 17: the records go out as they were stored if and only if no token was missing and each text has at most 498 bytes, and each then parses back to its record |
| `Heartbeat.NextEvent` | server/server_func.cpp:147-242 | after any run: a login changes the list exactly when the right token came, could be answered, and no listed client has the address, and then gives credit 8; an ACK gives 5; a tick takes 1 from everybody and drops who has 1 |
| `Heartbeat.ListedMeansAdmitted` | server/server_func.cpp:191-242 | whoever is listed after any run showed the right token from that address when nobody was listed with it, and has been listed ever since |
| `Heartbeat.GrantedIs` | server/server_func.cpp:147-242 | which events give credit to whom, and how much |
| `Heartbeat.CreditCountsDown` | server/server_func.cpp:147-179 | after any run: credit is 8 minus the ticks since the last login or 5 minus the ticks since the last ACK, and the client is listed exactly while that is at least 1 |
| `Heartbeat.NeverGranted` | server/server_func.cpp:220-242 | a descriptor that was never given credit is not listed |
| `Heartbeat.AlwaysSound` | server/server_func.cpp:161-242 | after any run every credit is between 1 and 8 and no two listed clients share an address |
| `Heartbeat.SilentClientIsDropped` | server/server_func.cpp:161-179 | a tick drops a client exactly when it is the eighth since its login or the fifth since its last ACK |
| `Heartbeat.BrokenClientIsLockedOut` | server/server_func.cpp:181-234 | as long as an entry has credit left it is listed, and a login from its address changes nothing |
| `Heartbeat.Server.CheckOnline` | server/server_func.cpp:181-189 | 0 exactly when no listed client has the address |
| `Heartbeat.Server.DoLogin` | server/server_func.cpp:191-246 | admitted if and only if the token came and matches, the reply could be sent and the address is not listed; then, and only then, the client is listed with credit 8; the reply says yes before the token was compared |
| `Heartbeat.Server.Acknowledge` | server/server_func.cpp:147-150 | the map after an ACK: credit 5 |
| `Heartbeat.Server.HeartBeat` | server/server_func.cpp:161-179 | the map after a full sweep: everybody loses 1, and who had 1 is gone |

## Left out

- Floating point: a number is a whole number below 10^15, which "%1.15g" prints in plain decimal, or an opaque token
  (`Real`) that keeps its text; "-0" and anything with a fraction, an exponent or more digits is opaque. `strtod`,
  `sprintf`, NaN and the locale's decimal point are the C library's. Opaque numbers are left out of printing and
  comparing.
- `valueint` and its saturation.
- The error position (`global_error`), the parse end reported on failure, and NULL as the text to parse.
- `cJSON_ParseWithLength` on a buffer that does not end in NUL; with a terminator the branches "skipped to the end of
  the buffer" cannot be reached.
- Raw items are neither printed, compared nor copied here.
- References and constant keys are printed, compared and deleted but not copied or spliced into lists: under
  `Memory.Denotes` a tree with a reference stands for no value, nor does an object with a constant key.
- `cJSON_PrintBuffered`, whose first block may be empty, and the release of the print buffer itself (arrays of the
  model are garbage collected).
- PrintBuffer.PrintBuffer.PrintNumber: whole numbers only, see above.
- MinifyParse.MinifyKeepsTheValue: one direction; where a literal loses a byte some texts keep their value and some do
  not, down to whether an escaped NUL hides the lost byte.
- Duplicate.Duplicate: asks that every name in the tree is a terminated string, as `strlen` does; the source's type
  and value fields are copied, `valueint` is not modelled.
- CompareNodes.CompareItems: trees that share some of their nodes and are both inconsistent are not treated.
- ChildList.InsertItemInArray: inserting NULL, or the array itself, in front of a child is not treated; there the
  source writes through NULL or makes the array its own child.
- Utf.MasksAreArithmetic: stated on 32-bit words; the parser of the model computes with whole numbers.
- ChildList.AddItemToArray: the item has to come with no `next`, and from outside the list; `add_item_to_object` and
  the reference-making variants are wrappers around it.
- The type predicates, `cJSON_Create*`, `cJSON_Add*ToObject`, hooks and version functions.
- StoreForward.EveryKindIsResent: the first two tokens of a row make up the first value; without them the source passes
  NULL to `strcpy` or `strcat`, which is not modelled.
- RingQueue.TaskQueue.Pop: entered when the queue is not empty; waiting on the condition variable, and `clear`, are not
  modelled. The size is at least 1: with 0 the source divides by zero.
- StoreForward.PersistenceFile.DoWithFile: `temp` starts empty (the source leaves it uninitialised), the file is not
  appended to during the call, a failed send is only reported, and what happens after the buffer is overrun is not modelled.
- Heartbeat.Server.HeartBeat: one full sweep over the map (the source erases entries from the map it is iterating over).
- Heartbeat.Server.Acknowledge: only for a listed descriptor; for any other the source dereferences a null pointer.
- A client whose connection closes stays in the map until its credit is used up; `recv` errors, `epoll`, sockets, UDP
  login, message queues, signals and the two threads writing `isonline` at once are not modelled.
- The database pool, SQL building, configuration, the reconnect counter and debug printing.
