# Verified model of the device SDK microkernel

The project models the three hard parts of the microkernel and proves what they are for.

**JSON engine** (`bscJSON.c`). `JsonValue` holds the values and the text each of them prints to;
`JsonParse` says what the recursive parser computes, `JsonParseBuffer` and `JsonPrintBuffer` are the parser
and the printer as the source runs them, over a moving offset and a buffer that may or may not grow.
`JsonGrammar` says which texts denote which values without looking at the parser; `JsonNumber`, `JsonStrings`
and `JsonDecides` prove that the parser decides that grammar. `JsonRoundTrip` proves that printed text is in it,
`JsonSpelling` and `JsonLayout` which of its texts is printed. `JsonStringPass` proves that the second pass over
a string fits the size computed by the first. `JsonList` edits the doubly linked list of children in place,
`JsonCompare` gives structural comparison its meaning, and `JsonTree` compares and copies trees of nodes in
the heap.

**XML engine** (`ezxml.c`). `XmlText` is character encoding and the in-place decoder, `XmlTree` the
serializer, `XmlParse` the parser for elements, attributes and text, `XmlRun` both as loops over a buffer.
`XmlSyntax` says which texts are documents for which trees without looking at the parser; `XmlDecode` and
`XmlDecides` prove that decoder and parser decide that syntax. `XmlRoundTrip` proves that written text is in it
and with that the round trip, `XmlSpelling` which of its texts is written. `XmlIndex` threads sub tags on three
linked lists at once. `Utf` converts UTF-16 to UTF-8. `Bytes` and `Sequences` hold what the modules share.

**Connection stack**. `Access` is the state of a device towards its servers as one value, with a log of
what the servers and the application see, and `AccessTurns` says exactly what a turn comes to;
`AccessKernel` is the kernel object with its retry counters, its
DAS socket and its MQTT client. `SendQueue` and `Sender` are the retry queue, `SendOrder` and `SendLoss` say
when messages overtake each other in it and when they are lost, `Frame` and `FrameBuffer` are padding and
framing, `Topic` is topic matching, and `Mqtt` is packet identifiers and acknowledged publishing.

What the platform, the clock, the network and the servers do is a parameter of each call, so that every
statement holds for every behaviour of theirs. Bytes are integers from 0 to 255. Widths of C integers appear
where they matter: `int` saturation of JSON numbers, the `INT_MAX` limit of the print buffer, the 16-bit
length of a payload, the 16-bit packet type of the MQTT read cycle, unsigned length subtraction in the
serializer and in unframing.

Main results, for all inputs and all runs:

- JSON: `JsonDecides.ParseIff`, `JsonRoundTrip.RoundTrip`, `JsonRoundTrip.PrefixRoundTrip`,
  `JsonSpelling.Shortest`, `JsonLayout.Layout`, `JsonStringPass.StringFits`,
  `JsonPrintBuffer.PrintPreallocated`, `JsonCompare.CompareMeans`, `JsonTree.Duplicate`, `JsonList.ApplyAll`.
- XML: `XmlDecides.ParseIff`, `XmlDecode.ReadsIff`, `XmlText.TextRoundTrip`, `XmlRoundTrip.RoundTrip`,
  `XmlRoundTrip.Undoes`, `XmlSpelling.WrittenSize`, `XmlIndex.Insert`, `XmlIndex.AddAll`,
  `Utf.ConvertKeepsCodePoints`.
- Connection: `Access.RunKeeps` and the lemmas drawn from it, `Access.RedirectHeeded`, `AccessTurns.CloudIff`,
  `AccessTurns.Perseveres`, `AccessTurns.SwitchoverIff`, `AccessKernel.Session`,
  `SendQueue.EveryMessage`, `SendQueue.OrderIff`, `Frame.RoundTrip`, `Frame.Frames`, `Frame.UnpadIff`,
  `Frame.StaysInsideIff`, `Mqtt.SuccessIff`, `Topic.WalkMatches`, `Topic.WalkIff`.

Where a law does not hold of the code in general, the model keeps the code and states exactly when it holds:

- An attribute value survives XML encoding and decoding just when it has no vertical tab and no form feed
  (`XmlText.TextRoundTrip`); a whole tree survives just when it is faithful (`XmlRoundTrip.Undoes`).
- Look-up in the XML index is right after every order of insertion; the `sibling` list is that of the first
  tags just when no head of the same name was displaced (`XmlIndex.Insert`, `XmlIndex.AddAll`, with the failing
  case in `XmlIndex.Displaced`).
- Two JSON trees compare equal just when both are consistent, giving one meaning to one name, and mean the
  same; so comparison is reflexive just on consistent trees (`JsonCompare.CompareMeans`,
  `JsonCompare.ReflexiveIff`, `JsonCompare.RepeatedName`). The short cut for identical nodes makes it coarser, but
  never past equality of meanings (`JsonTree.CompareNodes`, `JsonTree.AlikeMeans`).
- Messages are sent in the order of arrival just when none was put in front of queued ones, which setting the
  keep-alive interval does (`SendQueue.OrderIff`, `SendOrder.Overtaking`).
- A message is lost without a notice in a sending just when it is put back into a queue that was filled up
  meanwhile, or is done with while the queue of events is full (`SendLoss.LostIff`); apart from that, only
  clearing the queue loses messages (`SendLoss.SilentRun`).
- A redirect command takes effect just when the turn it arrives in does not end in a successful log-in or, for
  a registered device, in a broken connection (`Access.RedirectHeeded`, `Access.RedirectLost`).
- Unframing stays inside its buffer just when the length field is refused, or the plain text has a terminator
  behind that field and the body is not moved past the end; so no ordinary message without a terminator in its
  body does, although it is received as it was sent (`Frame.StaysInsideIff`, `Frame.OrdinaryReadsBeyond`,
  `Frame.OverrunIff`, `Frame.OverrunReached`).
- Publishing succeeds just when the acknowledgement was read, or when the timer ran out right behind a packet
  of the reserved type 0 (`Mqtt.SuccessIff`, `Mqtt.ReservedPacketReadsAsSuccess`).
- The JSON parser is laxer than RFC 8259, and just so much as `JsonGrammar` says: a group behind \u that is not
  hexadecimal counts as 0, control bytes may stand in strings, and numbers have the form of `strtod`
  (`JsonDecides.ParseIff`). The XML parser is laxer than XML 1.0, and just so much as `XmlSyntax` says: an
  attribute may lack a value, and behind blanks any byte ends a closing tag (`XmlDecides.ParseIff`).
- The topic matcher reports just the matches of the standard in which every wildcard has a level that is not
  empty opposite (`Topic.StandardIff`, `Topic.WalkIff`, `Topic.NotAllOfTheStandard`).
- The counter `wait4times` of `ezdev_sdk_kernel_stop` looks like a limit on several rounds of waiting; it
  ends the loop in the first one (`AccessKernel.Kernel.Drain`).

## Model

| member | source | states |
|---|---|---|
| `JsonParse.SkipWhitespace` | src/microkernel/src/bscJSON.c:993-1011 | skipping stays inside the buffer although it may step back from its end |
| `JsonParse.ParseNumber` | src/microkernel/src/bscJSON.c:282-356 | a number consumes at least one byte and stops inside the buffer |
| `JsonParse.ScanString` | src/microkernel/src/bscJSON.c:741-763 | the first pass over a string ends at a quote inside the buffer |
| `JsonParse.Literal` | src/microkernel/src/bscJSON.c:608-725 | a \u sequence consumes 6 or 12 bytes, or fails where it stands (what it writes: `JsonStrings.StepSound`) |
| `JsonParse.UnescapeStep` | src/microkernel/src/bscJSON.c:776-829 | one turn of the second pass advances and stays within the literal |
| `JsonParse.ParseString` | src/microkernel/src/bscJSON.c:728-854 | on success the offset is behind the closing quote and inside the buffer (the string: `JsonStrings.StringSound`) |
| `JsonParse.ParseValue` | src/microkernel/src/bscJSON.c:1243-1295 | on every terminated input: strictly advanced and inside the buffer, or an error place within it |
| `JsonParse.ParseArray` | src/microkernel/src/bscJSON.c:1372-1462 | the same for an array, at any depth |
| `JsonParse.ParseElements` | src/microkernel/src/bscJSON.c:1404-1443 | the element loop advances with every element although it steps back before each |
| `JsonParse.ParseObject` | src/microkernel/src/bscJSON.c:1527-1632 | the same for an object |
| `JsonParse.ParseMember` | src/microkernel/src/bscJSON.c:1583-1608 | one name and value advance past the place before the name |
| `JsonParse.ParseMembers` | src/microkernel/src/bscJSON.c:1557-1614 | the member loop advances with every member |
| `JsonParse.ParseWithOpts` | src/microkernel/src/bscJSON.c:1030-1107 | the end lies within the text, and is its end where a terminator is required |
| `JsonParse.Parse` | src/microkernel/src/bscJSON.c:1110-1113 | success consumes something and nothing past the text (the value: `JsonDecides.ParseIff`) |
| `JsonDecides.ParseIff` | src/microkernel/src/bscJSON.c:1030-1632 | for every text, value and end: the parser gives that value and end if and only if the text starts with a text of the grammar for it, nested at most 1000 deep and, for a number, not continued by a longer one |
| `JsonDecides.ParseWholeIff` | src/microkernel/src/bscJSON.c:1030-1107 | with the check for a terminator: if and only if nothing but blanks follows |
| `JsonDecides.TakenWhole` | src/microkernel/src/bscJSON.c:1030-1107 | a text that denotes a value is taken as a whole, or refused when nested deeper |
| `JsonDecides.ValueSound` | src/microkernel/src/bscJSON.c:1243-1632 | at every offset and depth, what the parser takes denotes the value it gives |
| `JsonDecides.ValueComplete` | src/microkernel/src/bscJSON.c:1243-1632 | at every offset and depth, a text that denotes a value is taken with that value, or refused for its depth |
| `JsonNumber.NumberSound` | src/microkernel/src/bscJSON.c:282-356 | the bytes taken for a number are a decimal of that value, and none of at most 63 bytes is longer |
| `JsonNumber.NumberComplete` | src/microkernel/src/bscJSON.c:282-356 | a decimal that no longer one continues is taken with its exact value |
| `JsonNumber.StrtodReads` | src/microkernel/src/bscJSON.c:331-335 | strtod takes every decimal, with sign, point and exponent, for its value |
| `JsonStrings.StringSound` | src/microkernel/src/bscJSON.c:728-854 | what is taken for a string is a literal, and its pieces stand for that string |
| `JsonStrings.StringComplete` | src/microkernel/src/bscJSON.c:728-854 | every literal is taken for the string its pieces stand for |
| `JsonStrings.StepSound` | src/microkernel/src/bscJSON.c:776-829 | one turn of the second pass writes what a piece stands for: a raw byte, a short escape, a group, or a surrogate pair |
| `JsonStrings.StepComplete` | src/microkernel/src/bscJSON.c:776-829 | every such piece is taken whole |
| `JsonStrings.Hex4Is` | src/microkernel/src/bscJSON.c:571-604 | four digits in either case give the number they spell, anything else 0 |
| `JsonStrings.CodeIs` | src/microkernel/src/bscJSON.c:670-719 | the bytes written for a code are those that decode to it (section 4 of RFC 3629) |
| `JsonRoundTrip.RoundTrip` | src/microkernel/src/bscJSON.c:1243-1746 | parsing printed text gives the same tree back, formatted or not, if and only if containers are nested at most 1000 deep; deeper trees are refused |
| `JsonRoundTrip.PrefixRoundTrip` | src/microkernel/src/bscJSON.c:1110-1746 | a printed value that is not a number, followed by anything, parses to that value and stops right behind it |
| `JsonRoundTrip.PrintDenotes` | src/microkernel/src/bscJSON.c:1298-1746 | printed text, formatted or not, is in the grammar and denotes its value |
| `JsonRoundTrip.EscapedDenotes` | src/microkernel/src/bscJSON.c:857-976 | an escaped string is a literal for the string |
| `JsonRoundTrip.IntDenotes` | src/microkernel/src/bscJSON.c:491-568 | a printed integer is a decimal of its value |
| `JsonSpelling.EscapeIs` | src/microkernel/src/bscJSON.c:884-972 | the table of escapes |
| `JsonSpelling.PlainIff` | src/microkernel/src/bscJSON.c:884-932 | a string is printed as it is if and only if it has no control byte, quote or backslash |
| `JsonSpelling.Shortest` | src/microkernel/src/bscJSON.c:857-976 | no literal that section 7 of RFC 8259 allows for a string is shorter than the printed one |
| `JsonSpelling.DigitsIff` | src/microkernel/src/bscJSON.c:491-568 | of all digit strings of a number, the printed one is that without a leading zero |
| `JsonSpelling.IntIff` | src/microkernel/src/bscJSON.c:491-568 | the text of an integer: a minus exactly for negative ones, and those digits |
| `JsonLayout.Layout` | src/microkernel/src/bscJSON.c:1465-1746 | unformatted text has no blank outside literals; formatted text is unformatted text with a line and its tabs for each member and closing brace, a tab behind each colon and a space behind each comma of an array |
| `JsonRoundTrip.PrintNulFree` | src/microkernel/src/bscJSON.c:1298-1369 | printed text holds no terminator, so strlen measures all of it |
| `JsonStringPass.UnescapeFits` | src/microkernel/src/bscJSON.c:728-854 | from any place where the two passes are in step, what the second pass writes before it ends or fails fits the room the first pass reserved |
| `JsonStringPass.StringFits` | src/microkernel/src/bscJSON.c:741-832 | for every literal, well formed or not, the bytes written and the terminator fit the allocated size |
| `JsonStringPass.StepFits` | src/microkernel/src/bscJSON.c:608-829 | each turn keeps the two passes in step or the room ahead, even inside a bad \u sequence |
| `JsonStringPass.ScanRoom` | src/microkernel/src/bscJSON.c:741-766 | at most every other byte counts as skipped |
| `JsonParseBuffer.ParseBuffer.Skip` | src/microkernel/src/bscJSON.c:993-1011 | the loop leaves the offset where the specification puts it |
| `JsonParseBuffer.ParseBuffer.ReadNumber` | src/microkernel/src/bscJSON.c:282-356 | the number and the new offset are those of the specification |
| `JsonParseBuffer.ParseBuffer.FindClosingQuote` | src/microkernel/src/bscJSON.c:741-763 | the first pass as a loop |
| `JsonParseBuffer.ParseBuffer.UnescapeInto` | src/microkernel/src/bscJSON.c:765-854 | the second pass writes only inside the allocated array and leaves the unescaped string up to its first terminator |
| `JsonParseBuffer.ParseBuffer.Transcode` | src/microkernel/src/bscJSON.c:608-725 | decoding and re-encoding a \u sequence as the source does it |
| `JsonParseBuffer.EncodeUtf8` | src/microkernel/src/bscJSON.c:670-719 | the range-based UTF-8 encoder with its masking loop |
| `JsonParseBuffer.ParseBuffer.ReadString` | src/microkernel/src/bscJSON.c:728-854 | both passes together agree with the specification |
| `JsonParseBuffer.ParseBuffer.ReadValue` | src/microkernel/src/bscJSON.c:1243-1295 | the recursive parser agrees with the specification; success advances the offset and restores the depth |
| `JsonParseBuffer.ParseBuffer.ReadArray` | src/microkernel/src/bscJSON.c:1372-1462 | the same for arrays |
| `JsonParseBuffer.ParseBuffer.ReadElements` | src/microkernel/src/bscJSON.c:1404-1443 | the loop over the elements |
| `JsonParseBuffer.ParseBuffer.ReadObject` | src/microkernel/src/bscJSON.c:1527-1632 | the same for objects |
| `JsonParseBuffer.ParseBuffer.ReadMembers` | src/microkernel/src/bscJSON.c:1557-1614 | the loop over the members |
| `JsonParseBuffer.ParseBuffer.ReadMember` | src/microkernel/src/bscJSON.c:1583-1608 | one turn of it |
| `JsonParseBuffer.Run` | src/microkernel/src/bscJSON.c:1030-1107 | value and reported position are those of the specification |
| `JsonPrintBuffer.PrintBuffer.Ensure` | src/microkernel/src/bscJSON.c:389-475 | room for the bytes and one more with the text so far kept, or failure; without allocation, and with one that never fails, exactly when the limit allows |
| `JsonPrintBuffer.PrintBuffer.UpdateOffset` | src/microkernel/src/bscJSON.c:478-488 | the offset moves to the end of what was printed |
| `JsonPrintBuffer.PrintBuffer.PrintString` | src/microkernel/src/bscJSON.c:857-976 | writes exactly the quoted text and a terminator, and succeeds exactly when it fits |
| `JsonPrintBuffer.PrintBuffer.Print` | src/microkernel/src/bscJSON.c:1298-1369 | the buffer printer refines the pure one through any number of reallocations; succeeds exactly when text plus two fits |
| `JsonPrintBuffer.PrintBuffer.PrintArray` | src/microkernel/src/bscJSON.c:1465-1524 | the same for arrays |
| `JsonPrintBuffer.PrintBuffer.PrintObject` | src/microkernel/src/bscJSON.c:1635-1746 | the same for objects |
| `JsonPrintBuffer.PrintPreallocated` | src/microkernel/src/bscJSON.c:1223-1240 | succeeds if and only if there is a buffer and the given length is at least that of the text plus two; then the buffer holds text and terminator, and bytes past the given length are never written |
| `JsonPrintBuffer.PrintAllocated` | src/microkernel/src/bscJSON.c:1117-1181 | the result is the text, its terminator and nothing else; with memory enough there is one unless the text is too long for int |
| `JsonPrintBuffer.EscapedLength` | src/microkernel/src/bscJSON.c:884-908 | the counted extra bytes are what escaping adds |
| `JsonLookup.EqualIgnoringCase` | src/microkernel/src/bscJSON.c:110-131 | decides equality of names up to ASCII case |
| `JsonLookup.Find` | src/microkernel/src/bscJSON.c:1801-1832 | the first member of that name, or none if and only if no name matches |
| `JsonLookup.FindItem` | src/microkernel/src/bscJSON.c:1801-1832 | the walk along the children finds it |
| `JsonLookup.SameKeyIsEquivalence` | src/microkernel/src/bscJSON.c:110-131 | sameness of names is an equivalence in both case modes |
| `JsonLookup.SameKeyIff` | src/microkernel/src/bscJSON.c:110-131 | names are the same if and only if they are equal, or where case does not count, differ at most in the case of ASCII letters |
| `JsonCompare.CompareMeans` | src/microkernel/src/bscJSON.c:2874-2998 | two trees compare equal if and only if both are consistent (one name has one meaning) and they mean the same: lists in order, objects as finite maps from names |
| `JsonCompare.CoversMeans` | src/microkernel/src/bscJSON.c:2957-2993 | each of the two object loops decides that every member is found with its meaning |
| `JsonCompare.MembersMean` | src/microkernel/src/bscJSON.c:2957-2993 | both loops together decide consistency of both objects and equality of their maps |
| `JsonCompare.MembersWithin` | src/microkernel/src/bscJSON.c:2957-2993 | for consistent members, being found is inclusion of maps |
| `JsonCompare.ItemsMean` | src/microkernel/src/bscJSON.c:2932-2955 | the array loop decides equality of lists |
| `JsonCompare.ReflexiveIff` | src/microkernel/src/bscJSON.c:2874-2998 | a tree compares equal to a copy of itself if and only if it is consistent |
| `JsonCompare.CompareIsEquivalence` | src/microkernel/src/bscJSON.c:2874-2998 | on all trees, comparison is symmetric and transitive, and relates only trees that compare equal to themselves |
| `JsonCompare.CompareUnambiguous` | src/microkernel/src/bscJSON.c:2874-2998 | on trees without repeated names it decides equality of meanings |
| `JsonCompare.RepeatedName` | src/microkernel/src/bscJSON.c:2957-2993 | an object with a name twice compares equal to its copy if and only if the two values mean the same |
| `JsonTree.CompareNodes` | src/microkernel/src/bscJSON.c:2874-2998 | comparison on linked nodes, with its short cut, is true exactly on trees that are alike: identical nodes, or equal in kind and scalar with children alike, members against the first of their name both ways |
| `JsonTree.CompareArrays` | src/microkernel/src/bscJSON.c:2932-2955 | the array loop on nodes decides that the children are alike one by one |
| `JsonTree.CoversNode` | src/microkernel/src/bscJSON.c:2957-2993 | one object loop on nodes decides that every member is like the first of its name |
| `JsonTree.AlikeMeans` | src/microkernel/src/bscJSON.c:2874-2998 | alike trees mean the same, whatever nodes they share |
| `JsonTree.CompareAlike` | src/microkernel/src/bscJSON.c:2874-2998 | trees that compare equal without the short cut are alike |
| `JsonTree.AlikeCompares` | src/microkernel/src/bscJSON.c:2898-2902 | alike trees compare equal without the short cut if one of them is consistent or they share no node |
| `JsonTree.FindNode` | src/microkernel/src/bscJSON.c:1801-1832 | the lookup on nodes |
| `JsonTree.SameNode` | src/microkernel/src/bscJSON.c:2898-2902 | one node stands for one value, which justifies the short cut |
| `JsonTree.Duplicate` | src/microkernel/src/bscJSON.c:2592-2669 | a copy of new nodes only, no node twice, standing for the same value; the original is not written to |
| `JsonTree.Join` | src/microkernel/src/bscJSON.c:2644-2656 | linking the next copied child keeps the copies a list of trees |
| `JsonTree.DuplicateCompares` | src/microkernel/src/bscJSON.c:2592-2998 | a copy compares equal to its original if and only if the value is consistent |
| `JsonTree.SelfCompares` | src/microkernel/src/bscJSON.c:2898-2902 | a node compares equal to itself, consistent or not |
| `JsonList.GetItem` | src/microkernel/src/bscJSON.c:1772-1789 | the child at that place, or none |
| `JsonList.GetSize` | src/microkernel/src/bscJSON.c:1749-1770 | the number of children |
| `JsonList.Add` | src/microkernel/src/bscJSON.c:1878-1905 | appends, keeping links inverse and NULL-ended; refuses NULL |
| `JsonList.Insert` | src/microkernel/src/bscJSON.c:2180-2207 | inserts at a place, appends past the end, ignores negative places |
| `JsonList.Detach` | src/microkernel/src/bscJSON.c:2110-2138 | removes one child and leaves it without links |
| `JsonList.DetachAt` | src/microkernel/src/bscJSON.c:2140-2148 | the same by place |
| `JsonList.Replace` | src/microkernel/src/bscJSON.c:2209-2242 | puts another node in the place of a child |
| `JsonList.ReplaceAt` | src/microkernel/src/bscJSON.c:2244-2252 | the same by place |
| `JsonList.ApplyAll` | src/microkernel/src/bscJSON.c:1850-2252 | after any sequence of edits on any children, with new nodes and with detached ones put back, the list is well linked, detached nodes have no links, and both hold what the edits make of sequences |
| `JsonList.Apply` | src/microkernel/src/bscJSON.c:1850-2252 | one such edit |
| `Utf.EncodersAgree` | src/microkernel/src/ezxml.c:543-581 | the bit-counting encoder gives byte for byte what the range-based one of the JSON parser gives |
| `Utf.BitsSteps` | src/microkernel/src/ezxml.c:571-574 | the number of payload bytes follows the ranges of section 3 of RFC 3629 |
| `Utf.ConvertKeepsCodePoints` | src/microkernel/src/ezxml.c:543-581 | well-formed UTF-16 (section 2.2 of RFC 2781) becomes UTF-8 (section 3 of RFC 3629) with the same code points |
| `Utf.FirstCodeInverse` | src/microkernel/src/ezxml.c:568-578 | decoding the first code point of an encoded text gives it back |
| `Utf.DecodeUtf8Injective` | src/microkernel/src/ezxml.c:568-578 | texts that decode to the same code points are the same bytes |
| `Utf.StrToUtf8` | src/microkernel/src/ezxml.c:543-581 | converts exactly the texts that start with a byte order mark |
| `Utf.ConvertAll` | src/microkernel/src/ezxml.c:554-580 | the loop computes the conversion |
| `Utf.EncodeLoop` | src/microkernel/src/ezxml.c:568-578 | the encoder as a loop |
| `XmlText.Ampencode` | src/microkernel/src/ezxml.c:855-895 | appends the encoding of the text up to its terminator |
| `XmlText.NormalizeInPlace` | src/microkernel/src/ezxml.c:193-201 | the line-end loop that shortens the text as it goes |
| `XmlText.Rescan` | src/microkernel/src/ezxml.c:236-257 | putting the replacement of an entity in place and scanning it again yields the entity's character |
| `XmlText.DecodeStep` | src/microkernel/src/ezxml.c:203-262 | one turn keeps the decoded text and makes progress although the text may grow |
| `XmlText.Decode` | src/microkernel/src/ezxml.c:188-277 | the in-place, rescanning decoder computes the one-pass decoding |
| `XmlText.DecodedEncoded` | src/microkernel/src/ezxml.c:188-277 | decoding an encoded text gives the text, blanks of attribute values as spaces |
| `XmlText.TextRoundTrip` | src/microkernel/src/ezxml.c:188-277 | decoding undoes encoding on every text, and on an attribute value if and only if it has no vertical tab and no form feed |
| `XmlDecode.ReadsIff` | src/microkernel/src/ezxml.c:188-277 | for every text: decoding gives a string if and only if the text stands for it by the syntax of references |
| `XmlDecode.CharRefSound` | src/microkernel/src/ezxml.c:210-235 | what is taken for a character reference is one of the syntax, for those bytes |
| `XmlDecode.CharRefComplete` | src/microkernel/src/ezxml.c:210-235 | every character reference, decimal or hexadecimal, is resolved to its code |
| `XmlDecode.MultibyteIs` | src/microkernel/src/ezxml.c:224-232 | codes from 0x80 on are written in the form of section 2 of RFC 2279, and only so |
| `XmlDecode.RefersIff` | src/microkernel/src/ezxml.c:208-257 | a reference stands at the front of a text if and only if the decoder sees one there |
| `XmlDecode.LineEnds` | src/microkernel/src/ezxml.c:193-201 | each of the three line ends becomes a line feed, and nothing else changes |
| `XmlRun.FindAttr` | src/microkernel/src/ezxml.c:92-101 | the first attribute of that name |
| `XmlRun.WriteAttrs` | src/microkernel/src/ezxml.c:914-924 | the attribute loop, which skips repeated names |
| `XmlRun.WriteBody` | src/microkernel/src/ezxml.c:941-952 | text and sub tags in the order of their offsets |
| `XmlRun.WriteElem` | src/microkernel/src/ezxml.c:900-953 | appends exactly the text of the element |
| `XmlRun.Reader.ReadAttr` | src/microkernel/src/ezxml.c:644-682 | the attribute part of the tag loop agrees with the specification |
| `XmlRun.Reader.ReadOpen` | src/microkernel/src/ezxml.c:631-708 | the same for an opening tag |
| `XmlRun.Reader.ReadClose` | src/microkernel/src/ezxml.c:709-719 | the same for a closing tag |
| `XmlRun.Reader.Run` | src/microkernel/src/ezxml.c:626-782 | the loop over tags and text computes the specification |
| `XmlRun.Parse` | src/microkernel/src/ezxml.c:606-782 | the whole parser, conversion from UTF-16 included |
| `XmlDecides.ParseIff` | src/microkernel/src/ezxml.c:606-782 | for every text without NUL and every tree: the parser gives that tree if and only if the text is a document for it |
| `XmlDecides.ElementComplete` | src/microkernel/src/ezxml.c:626-782 | wherever an element stands, self-closing or not, it becomes the next child of the open tag |
| `XmlDecides.RestSound` | src/microkernel/src/ezxml.c:626-782 | from behind any tag on, what the parser takes closes the open tags, one in the other |
| `XmlDecides.AttrComplete` | src/microkernel/src/ezxml.c:644-682 | every attribute of the syntax is read: quotes of either kind, blanks around the equals sign, or no value |
| `XmlDecides.AttrSound` | src/microkernel/src/ezxml.c:644-682 | what is read as an attribute is one of the syntax |
| `XmlDecides.OpenComplete` | src/microkernel/src/ezxml.c:631-708 | an opening tag opens an element, a self-closing one opens and closes it |
| `XmlDecides.OpenSound` | src/microkernel/src/ezxml.c:631-708 | what is taken for an opening tag is one of the syntax |
| `XmlDecides.CloseComplete` | src/microkernel/src/ezxml.c:709-719 | a closing tag closes the element of its name |
| `XmlDecides.CloseSound` | src/microkernel/src/ezxml.c:709-719 | what is taken for a closing tag is one of the syntax |
| `XmlDecides.TailIff` | src/microkernel/src/ezxml.c:759-782 | behind the root element, text is passed over and markup refused |
| `XmlRoundTrip.RoundTrip` | src/microkernel/src/ezxml.c:606-953 | parsing what was written gives the canonical form of every valid tree |
| `XmlRoundTrip.RoundTripUtf16` | src/microkernel/src/ezxml.c:606-616 | the same for every UTF-16 text, in either byte order, of the code points of the written document |
| `XmlRoundTrip.Written` | src/microkernel/src/ezxml.c:900-953 | what is written for a valid tree is a document for its canonical form |
| `XmlRoundTrip.ElementWritten` | src/microkernel/src/ezxml.c:900-953 | wherever a tree is written, an element for its canonical form stands |
| `XmlRoundTrip.ContentWritten` | src/microkernel/src/ezxml.c:941-952 | written content has the sub tags and text pieces at their places |
| `XmlRoundTrip.AttrsWritten` | src/microkernel/src/ezxml.c:914-924 | the attributes written are those whose names did not occur before |
| `XmlSpelling.EncodeIs` | src/microkernel/src/ezxml.c:855-895 | the table of references written |
| `XmlSpelling.BareIff` | src/microkernel/src/ezxml.c:855-895 | text is written as it is if and only if it has none of the bytes of that table |
| `XmlSpelling.WrittenSize` | src/microkernel/src/ezxml.c:900-953 | the written text has no byte more than its names, attributes, text and marks take; text is written once wherever the sub tags stand |
| `XmlRoundTrip.CanonicalIff` | src/microkernel/src/ezxml.c:900-953 | a tree is its own canonical form if and only if it is faithful |
| `XmlRoundTrip.Undoes` | src/microkernel/src/ezxml.c:606-953 | parsing undoes writing if and only if the tree is faithful: distinct attribute names, no tab-like blanks in values, offsets within the text |
| `XmlIndex.Child` | src/microkernel/src/ezxml.c:74-80 | the first sub tag of that name in document order, whatever was inserted in whatever order |
| `XmlIndex.Idx` | src/microkernel/src/ezxml.c:84-89 | the n-th along the list |
| `XmlIndex.NthNamed` | src/microkernel/src/ezxml.c:74-89 | together, the n-th sub tag of that name in document order, whatever the order of insertion |
| `XmlIndex.Insert` | src/microkernel/src/ezxml.c:1086-1137 | from any state reached by insertions: ordered, next and the look-up along sibling index the new document order; the sibling list stays that of the first tags unless a head of the same name is displaced, and from then on it holds a name twice for good |
| `XmlIndex.InsertOrdered` | src/microkernel/src/ezxml.c:1096-1108 | the place in document order |
| `XmlIndex.InsertKind` | src/microkernel/src/ezxml.c:1110-1131 | the places in the two lists by name |
| `XmlIndex.JoinKind` | src/microkernel/src/ezxml.c:1113-1119 | joining the tags of its name |
| `XmlIndex.LeadSibling` | src/microkernel/src/ezxml.c:1120-1131 | becoming the first tag of its name |
| `XmlIndex.LeadFirsts` | src/microkernel/src/ezxml.c:1120-1131 | the new first tag of a name comes before all others of that name on the sibling list, and other names keep their first |
| `XmlIndex.LeadVerdict` | src/microkernel/src/ezxml.c:1120-1131 | when the sibling list stays that of the first tags, and when it comes to hold a name twice |
| `XmlIndex.RepeatedStays` | src/microkernel/src/ezxml.c:1120-1131 | a name that is twice on the list stays so |
| `XmlIndex.FirstsInserted` | src/microkernel/src/ezxml.c:1120-1131 | what the list of first tags must become |
| `XmlIndex.NamedInserted` | src/microkernel/src/ezxml.c:1113-1124 | what the list of one name must become |
| `XmlIndex.AddChild` | src/microkernel/src/ezxml.c:1141-1154 | a new tag, threaded like that |
| `XmlIndex.AddAll` | src/microkernel/src/ezxml.c:1086-1154 | any number of tags at any offsets in any order: sorted by offset and then arrival, all look-ups right, and the sibling list that of the first tags if and only if no arrival came before a first tag of its own name |
| `XmlIndex.DisplacingIff` | src/microkernel/src/ezxml.c:1120-1131 | an arrival displaces the head on the lists exactly when it does so in the sequence of names and offsets |
| `XmlIndex.NonDecreasingKeepsOrder` | src/microkernel/src/ezxml.c:1086-1154 | arrivals at offsets that never decrease keep their order and displace nothing |
| `XmlIndex.Displaced` | src/microkernel/src/ezxml.c:1120-1131 | two tags of one name added in reverse order: look-ups are right, the sibling list is not that of the first tags |
| `Access.NextKeeps` | src/microkernel/src/ezdev_sdk_kernel_access.c:159-497 | every call keeps the invariant on state, counters and log |
| `Access.TurnKeeps` | src/microkernel/src/ezdev_sdk_kernel_access.c:417-484 | so does every turn, with any commands delivered inside it |
| `Access.LbsKeeps` | src/microkernel/src/ezdev_sdk_kernel_access.c:184-204 | the LBS part |
| `Access.RegKeeps` | src/microkernel/src/ezdev_sdk_kernel_access.c:228-269 | the registration part |
| `Access.RetryKeeps` | src/microkernel/src/ezdev_sdk_kernel_access.c:306-331 | the reconnection part |
| `Access.ObeyFrame` | src/microkernel/src/access_domain_bus.c:193-226 | a command changes neither counters nor log, and the cloud state only to unredirected |
| `Access.RunKeeps` | src/microkernel/src/ezdev_sdk_kernel_access.c:159-497 | the invariant holds in every state of every run |
| `Access.Counters` | src/microkernel/src/ezdev_sdk_kernel_access.c:159-334 | registered: both counters 0; redirected: DAS counter at most 5; broken: at most 3; LBS counter at most 60 and 0 unless unredirected; the fast states are never entered |
| `Access.FailuresBounded` | src/microkernel/src/ezdev_sdk_kernel_access.c:209-334 | between two successes at most 6 DAS failures, at most 4 after a registration |
| `Access.ReconnectNeedsUp` | src/microkernel/src/ezdev_sdk_kernel_access.c:294-334 | between a break and a later reconnect-success there is an online or a switchover |
| `Access.UpNeedsRedirect` | src/microkernel/src/ezdev_sdk_kernel_access.c:184-257 | every online and switchover follows an LBS success of its own |
| `Access.RiskIsForGood` | src/microkernel/src/ezdev_sdk_kernel.c:260-306 | a started device under access control does nothing any more, whatever is called |
| `Access.RedirectHeeded` | src/microkernel/src/ezdev_sdk_kernel_access.c:209-334 | in every state with a DAS, a command that names another server sends the device back to the LBS if and only if its turn does not end in the one result that overwrites it |
| `Access.RedirectObeyed` | src/microkernel/src/access_domain_bus.c:193-226 | commands reset the cloud state if and only if one of them names another server |
| `Access.RedirectLost` | src/microkernel/src/ezdev_sdk_kernel_access.c:221-331 | the three ways to lose a redirect command: in a successful log-in, in a successful reconnection, and when the connection is found broken; the same command then has no effect when repeated |
| `AccessTurns.CloudIff` | src/microkernel/src/ezdev_sdk_kernel_access.c:417-484 | where every turn leads, exactly: by its result, the redirect commands read in it, and whether the failures in the log have reached 5 or 3 |
| `AccessTurns.LogIff` | src/microkernel/src/ezdev_sdk_kernel_access.c:159-334 | what every turn announces, exactly; a break just when a broken device gives up or the session is lost |
| `AccessTurns.Perseveres` | src/microkernel/src/ezdev_sdk_kernel_access.c:209-334 | however many turns fail: a device goes on trying to register until the sixth failure and to reconnect until the fourth, and not beyond |
| `AccessTurns.StaysAway` | src/microkernel/src/ezdev_sdk_kernel_access.c:159-207 | it never gives up on the LBS; the count that paces it is that of the failures, 60 at most, and starts again at a failed connection |
| `AccessTurns.SwitchoverIff` | src/microkernel/src/ezdev_sdk_kernel_access.c:228-255 | over every run: a registration is announced as a switchover if and only if a command naming another server was obeyed since the last one announced |
| `AccessTurns.EntranceIff` | src/microkernel/src/ezdev_sdk_kernel_access.c:228-255 | over every run: the entrance state says so |
| `AccessTurns.RiskIff` | src/microkernel/src/ezdev_sdk_kernel_access.c:460-465 | access control sets in exactly on a blacklisted log-in or an offline command |
| `AccessTurns.ServerObeyed` | src/microkernel/src/access_domain_bus.c:193-226 | commands read in a row leave the server last named, and clear the master key if and only if one names another server |
| `AccessTurns.KeysIff` | src/microkernel/src/ezdev_sdk_kernel_access.c:79-87 | the credentials are those the LBS has left, until a command names another server |
| `AccessTurns.LifeIff` | src/microkernel/src/ezdev_sdk_kernel.c:94-296 | which call changes the life of the kernel, and when |
| `AccessKernel.WaitsIff` | src/microkernel/src/ezdev_sdk_kernel_access.c:159-304 | a turn waits exactly under access control, or after a failure whose time has not run out |
| `AccessKernel.RegIff` | src/microkernel/src/ezdev_sdk_kernel_access.c:221-226 | a registration succeeds if and only if the new session is joined, or the old one where the DAS still has it |
| `AccessKernel.LbsIff` | src/microkernel/src/ezdev_sdk_kernel_access.c:42-118 | the second answer counts exactly where the first rejects the signature; a refused credential is cleared |
| `AccessKernel.DestroyedOnce` | src/microkernel/paho.mqtt.embedded/MQTTNet.c:83-137 | in an orderly history every socket is created once and destroyed once, but for the open one |
| `AccessKernel.Kernel.NetConnect` | src/microkernel/paho.mqtt.embedded/MQTTNet.c:83-119 | called only without a socket and unconnected; leaves one exactly on success |
| `AccessKernel.Kernel.NetDisconnect` | src/microkernel/paho.mqtt.embedded/MQTTNet.c:121-127 | keeps the history orderly |
| `AccessKernel.Kernel.NetFini` | src/microkernel/paho.mqtt.embedded/MQTTNet.c:129-137 | leaves no socket |
| `AccessKernel.Kernel.ObeyOne` | src/microkernel/src/access_domain_bus.c:193-226 | a redirect or force-offline command does what the state machine says |
| `AccessKernel.Kernel.Wait` | src/microkernel/paho.mqtt.embedded/MQTTClient.c:202-232 | commands read during a wait are obeyed in order |
| `AccessKernel.Kernel.Login` | src/microkernel/src/das_transport.c:1060-1183 | the result code, step by step; the commands read before the CONNACK are obeyed, if the log-in gets that far; connected with an open socket exactly on success, otherwise neither |
| `AccessKernel.Kernel.Logout` | src/microkernel/src/das_transport.c:1185-1196 | neither socket nor connection afterwards |
| `AccessKernel.Kernel.Subscribe` | src/microkernel/src/das_transport.c:1237-1242 | a failed subscription logs out |
| `AccessKernel.Kernel.LoginAndSubscribe` | src/microkernel/src/das_transport.c:1228-1281 | the result code and the commands obeyed, in order; connected exactly on success |
| `AccessKernel.Kernel.Unreg` | src/microkernel/src/das_transport.c:1310-1321 | waits for answers only while connected, then logs out |
| `AccessKernel.Kernel.LightReg` | src/microkernel/src/das_transport.c:1248-1258 | logs out before it logs in; result code and commands obeyed as for the log-in |
| `AccessKernel.Kernel.Work` | src/microkernel/src/das_transport.c:1531-1577 | asks for a reconnection exactly on a dead line, a missed heartbeat or a failed publish; obeys what is read before and during sending |
| `AccessKernel.Kernel.LbsRedirect` | src/microkernel/src/ezdev_sdk_kernel_access.c:42-118 | a rejected signature is retried once in lower case; result code and credentials are those of the last answer, refused ones cleared |
| `AccessKernel.Kernel.LbsDo` | src/microkernel/src/ezdev_sdk_kernel_access.c:159-207 | waits exactly while the timer says so, else takes the LBS turn |
| `AccessKernel.Kernel.RegAll` | src/microkernel/src/ezdev_sdk_kernel_access.c:221-226 | off the old session, on to the new one, or back into the old one, with the commands obeyed on all the ways |
| `AccessKernel.Kernel.RegDo` | src/microkernel/src/ezdev_sdk_kernel_access.c:209-272 | the registration turn; connected exactly on success |
| `AccessKernel.Kernel.WorkDo` | src/microkernel/src/ezdev_sdk_kernel_access.c:274-292 | the working turn |
| `AccessKernel.Kernel.RetryDo` | src/microkernel/src/ezdev_sdk_kernel_access.c:294-334 | the reconnection turn; connected exactly on success |
| `AccessKernel.Kernel.YieldOnce` | src/microkernel/src/ezdev_sdk_kernel_access.c:417-484 | one turn of the state machine, with the outcome that state, connection and outside determine; registered implies connected; a redirect command read in it takes effect if and only if the result does not overwrite it |
| `AccessKernel.Kernel.Init` | src/microkernel/src/ezdev_sdk_kernel.c:94-160 | done exactly for a new kernel with acceptable parameters; overwrites socket and client only when there is nothing to lose |
| `AccessKernel.Kernel.Fini` | src/microkernel/src/ezdev_sdk_kernel.c:162-179 | done exactly when not running; no socket afterwards |
| `AccessKernel.Kernel.Start` | src/microkernel/src/ezdev_sdk_kernel.c:248-258 | done exactly when not running |
| `AccessKernel.Kernel.Yield` | src/microkernel/src/ezdev_sdk_kernel.c:298-306 | a turn with that outcome, when started; succeeds exactly when it waits or its attempt succeeds |
| `AccessKernel.Kernel.Drain` | src/microkernel/src/ezdev_sdk_kernel.c:280-291 | at most one turn while stopping |
| `AccessKernel.Kernel.Stop` | src/microkernel/src/ezdev_sdk_kernel.c:260-296 | done exactly when running and not under access control: stopped, logged out and without a socket |
| `AccessKernel.Kernel.SetNetOption` | src/microkernel/src/ezdev_sdk_kernel.c:546-579 | option 3 breaks a registered connection and does nothing else; accepted exactly for it and for an interface name that fits |
| `AccessKernel.Drive` | src/microkernel/src/ezdev_sdk_kernel.c:94-579 | any requests in any order are a run of the state machine and keep the kernel valid |
| `AccessKernel.Session` | src/microkernel/src/das_transport.c:1060-1321 | over every run: registered implies counters 0, one open socket, connected; every other socket ever created was destroyed exactly once |
| `SendQueue.FirstInFirstOut` | src/microkernel/src/das_transport.c:928-1058 | over every run in which no message was put in front of queued ones: only the oldest message not through is published or completed, the messages through are the oldest, the rest is queued in order |
| `SendQueue.EveryMessage` | src/microkernel/src/das_transport.c:928-1058 | over every run, urgent messages or not: no message is published more often than it may be, and every accepted one is queued or was completed by exactly one entry, with a notice, without one, or dropped |
| `SendQueue.OrderIff` | src/microkernel/src/ezdev_sdk_kernel_ex.c:76-130 | over every run: what has happened and what is queued is in the order of arrival if and only if no message was put in front of queued ones; with an empty queue, that is the order of what has happened |
| `SendOrder.PatientRun` | src/microkernel/src/das_transport.c:1330-1338 | runs without urgent messages are such runs |
| `SendOrder.Overtaking` | src/microkernel/src/ezdev_sdk_kernel_ex.c:129-130 | whenever something is queued and there is room, an urgent message is published before it and breaks the order |
| `SendQueue.RunKeeps` | src/microkernel/src/das_transport.c:928-1058 | the invariant holds in every state of every run, with tail and head pushes, sendings and clearing |
| `SendQueue.TurnKeeps` | src/microkernel/src/das_transport.c:981-1041 | one sending keeps it, with others pushing at either end meanwhile |
| `SendLoss.LostIff` | src/microkernel/src/das_transport.c:1010-1037 | a sending loses an accepted message without a notice if and only if it is put back into a queue filled up meanwhile, or is done with and the queue of events takes no notice |
| `SendLoss.SilentRun` | src/microkernel/src/das_transport.c:928-1058 | over every run, the messages gone without a notice are those its sendings have lost and those that clearing found queued |
| `SendLoss.NothingLost` | src/microkernel/src/das_transport.c:928-1058 | with nobody pushing in between, room for every notice and no clearing, nothing is lost |
| `SendLoss.AckedOnce` | src/microkernel/src/das_transport.c:928-1058 | over every run that has lost nothing, every accepted message that is not queued has exactly one acknowledgement, and no other has any |
| `SendQueue.ThroughOnce` | src/microkernel/src/das_transport.c:1021-1037 | in order, the messages through are the oldest ones, each completed once |
| `Sender.Queue.Enqueue` | src/microkernel/src/ezdev_sdk_kernel_ex.c:76-157 | an ordinary message at the tail, an urgent one at the head, refused exactly when full |
| `Sender.Queue.EnqueueTail` | src/microkernel/src/ezdev_sdk_kerne_queuel.c:202-228 | at the tail, refused exactly when full |
| `Sender.Queue.EnqueueHead` | src/microkernel/src/das_transport.c:1013-1018 | at the head, refused exactly when full |
| `Sender.Queue.SendMessage` | src/microkernel/src/das_transport.c:928-1041 | takes the turn and reports an empty queue, success or the need to reconnect |
| `Sender.MessageSend` | src/microkernel/src/das_transport.c:1043-1058 | the second queue is served only when the first was empty or sent; a reconnection is asked for exactly when the message at the head of a queue served failed and may be tried again |
| `Frame.PaddedLength` | src/microkernel/src/ase_support.c:28-34 | the next multiple of 16 above the length |
| `Frame.UnpadIff` | src/microkernel/src/ase_support.c:36-105 | the unpadder gives a string if and only if the buffer is the padding of that string (section 6.3 of RFC 5652) |
| `Frame.UnpadAccepts` | src/microkernel/src/ase_support.c:76-99 | it accepts a buffer of whole blocks if and only if that is the padding of some string |
| `Frame.RoundTrip` | src/microkernel/src/das_transport.c:62-107 | for every version, sequence number in int range and body that fits: receiving what was sent gives them back, whatever lies in memory behind the buffer |
| `Frame.Frames` | src/microkernel/src/das_transport.c:62-107 | what is sent: the length of the header with the high byte first, an object with version, number and message kind under their names, the body, and fill that counts itself |
| `Frame.CommonIsHeader` | src/microkernel/src/das_transport.c:62-95 | the header denotes an object of three items: CmdVer, Seq and MsgType with the values given |
| `Frame.ReadsHeader` | src/microkernel/src/das_transport.c:348-408 | the printed header, followed by anything, is read back; a version too long for its field is cut |
| `Frame.UnframesPadded` | src/microkernel/src/das_transport.c:729-768 | length field, header and body are separated again |
| `Frame.StaysInsideIff` | src/microkernel/src/das_transport.c:720-757 | for every plain text: unframing stays inside its buffer if and only if the length field is refused, or a terminator lies behind that field and the move does not overrun |
| `Frame.TerminatorIff` | src/microkernel/src/das_transport.c:744-744 | the header string ends inside the buffer if and only if the plain text behind the length field has a terminator; the padding has none |
| `Frame.OrdinaryReadsBeyond` | src/microkernel/src/das_transport.c:744-744 | every sent message whose body has no terminator is received as it was sent, but its header string is measured past the buffer |
| `Frame.OverrunIff` | src/microkernel/src/das_transport.c:750-757 | memory is moved past the buffer exactly when the length field is one less than the length of the plain text and the header is readable; then 0xFFFFFFFF bytes are |
| `Frame.OverrunReached` | src/microkernel/src/das_transport.c:736-757 | any header without a body and with a length field one too large reaches it |
| `Frame.Short` | src/microkernel/src/das_transport.c:97-107 | two bytes that read back as the length |
| `Frame.RoomIff` | src/microkernel/src/das_transport.c:1412-1416 | the 16-bit payload length leaves room for the payload if and only if it does not wrap |
| `Frame.AcceptedFits` | src/microkernel/src/ezdev_sdk_kernel.c:346-349 | whatever the kernel accepts for sending fits |
| `FrameBuffer.PadInPlace` | src/microkernel/src/ase_support.c:131-138 | the padding loop |
| `FrameBuffer.PlainLength` | src/microkernel/src/ase_support.c:76-99 | the unpadding loop decides what the specification says |
| `FrameBuffer.Send` | src/microkernel/src/das_transport.c:1404-1438 | the buffer handed on is the encryption of such a frame, message kind included |
| `FrameBuffer.Receive` | src/microkernel/src/das_transport.c:720-768 | unframing in place computes the specification, and tells whether it stayed inside its buffer |
| `Mqtt.IdsRepeat` | src/microkernel/paho.mqtt.embedded/MQTTClient.c:28-31 | identifiers are never 0, and two are equal if and only if they are a multiple of 65535 allocations apart |
| `Mqtt.Client.GetNextPacketId` | src/microkernel/paho.mqtt.embedded/MQTTClient.c:28-31 | hands out the next identifier |
| `Mqtt.Cycle` | src/microkernel/paho.mqtt.embedded/MQTTClient.c:264-340 | the code of one read cycle, its type kept in 16 bits |
| `Mqtt.WaitFor` | src/microkernel/paho.mqtt.embedded/MQTTClient.c:392-416 | returns the wanted type, FAILURE on a dead line, or the last code when time runs out |
| `Mqtt.WaitForAck` | src/microkernel/paho.mqtt.embedded/MQTTClient.c:598-620 | the loop over waits, which goes on after undecodable and foreign acknowledgements |
| `Mqtt.Client.Publish` | src/microkernel/paho.mqtt.embedded/MQTTClient.c:569-628 | fails unless connected, serialized and sent; with an acknowledgement, waits for the one of its own fresh identifier |
| `Mqtt.SuccessIff` | src/microkernel/paho.mqtt.embedded/MQTTClient.c:392-628 | success if and only if this message was acknowledged, or time ran out right behind a packet of type 0 |
| `Mqtt.SuccessMeansAck` | src/microkernel/paho.mqtt.embedded/MQTTClient.c:569-628 | against a peer without such packets, success means an acknowledgement with this identifier was read |
| `Mqtt.ReservedPacketReadsAsSuccess` | src/microkernel/paho.mqtt.embedded/MQTTClient.c:392-416 | the other case does occur |
| `Topic.IsTopicMatched` | src/microkernel/paho.mqtt.embedded/MQTTClient.c:169-200 | the two pointers decide the walk |
| `Topic.WalkMatches` | src/microkernel/paho.mqtt.embedded/MQTTClient.c:166-200 | on well-formed filters the walk decides a match level by level: + one non-empty level, # one or more of which the first is not empty |
| `Topic.WalkLiteral` | src/microkernel/paho.mqtt.embedded/MQTTClient.c:181-197 | a level without wildcards matches exactly itself |
| `Topic.MatchesAreStandard` | src/microkernel/paho.mqtt.embedded/MQTTClient.c:166-200 | every such match is one under section 4.7.1 of MQTT 3.1.1 |
| `Topic.StandardIff` | src/microkernel/paho.mqtt.embedded/MQTTClient.c:166-200 | for every well-formed filter and every topic: a match is reported if and only if it is one of the standard in which every wildcard has a level that is not empty opposite |
| `Topic.StandardIffNoneEmpty` | src/microkernel/paho.mqtt.embedded/MQTTClient.c:166-200 | on topics without empty levels the two differ only on the parent level of # |
| `Topic.WalkIff` | src/microkernel/paho.mqtt.embedded/MQTTClient.c:166-200 | the same for the walk of the two pointers over the bytes |
| `Topic.NotAllOfTheStandard` | src/microkernel/paho.mqtt.embedded/MQTTClient.c:166-200 | a match missed for each of the two reasons |

## Left out

- JSON numbers that are not integers in C int range are not printed in the model: their text depends on `sprintf` and floating point. Parsing covers every decimal number as a real, without rounding.
- JSON raw and invalid items, references, constant keys, allocator hooks and non-recursive copying: bookkeeping.
- `bscJSON_Minify`: it does not know an escaped backslash, so it does not keep the meaning of every text.
- JSON nodes: the parser builds values, not linked nodes; nodes appear in `JsonList` and `JsonTree` only.
- XML: document types, processing instructions, CDATA and comments are errors in the model; default attributes, `ezxml_set_attr` and `ezxml_cut` are not modelled.
- XmlDecides.ParseIff: speaks of texts without NUL, which XML does not allow; the source stops at one.
- XmlText.Decode: numeric references above 0x7FFFFFFF, and a carriage return as the last byte, behind which the source looks past the terminator, follow the arithmetic of the model.
- XmlRun.Parse: a UTF-16 text that converts to nothing counts as an empty document; the source looks at the byte before its buffer.
- XmlRun.Reader.Run: the tree is built as a value, and the bytes the source overwrites with terminators are not written; `XmlIndex` models the linked lists of the tree separately.
- The LBS handshake, which of its three forms is used, the MQTT packet serializers, AES, ECDH and random numbers: results of calls.
- AccessKernel.Kernel.YieldOnce: the handlers of the two fast registration states are not modelled, since no run enters those states.
- AccessKernel.Kernel.Init: parameters are either acceptable or not; the fields copied from them are not modelled except for the server name and the presence of credentials.
- Access.UpNeedsRedirect: the log holds the events handed to the queue of events, whether or not that queue has room for them; the same goes for the other lemmas on the log.
- AccessKernel.Kernel.Stop: the queue of messages is not part of the kernel object; whether it is empty is a parameter.
- AccessKernel.Kernel.Work: what is sent and received is in `SendQueue` and `Frame`; here only whether it failed.
- Calls of the kernel interface from other threads in the middle of a turn: calls are taken one after the other, except for messages pushed while another one is being sent.
- Sender.Queue.SendMessage: queue elements are a sequence and their allocation does not fail; the initial number of tries is at least 1, as all callers set it.
- Risk control of domains and commands: a parameter of each sending.
- FrameBuffer.Receive: ends where the source would move memory past its buffer; topic scanning and the hand-over to the domains; the second protocol version frames in the same way, with a 32-bit length.
- Mqtt.Client.Publish: the packets read are given as a sequence that ends where the timer runs out; keep-alive pings and subscription handling are not modelled.
