# Verified model of the plate writer's controller

The repository is the controller of a canteen plate writer: it parses and prints JSON, fetches menus over HTTP, is
configured over Bluetooth, talks to a display process through a queue, and writes dishes to RFID plates. This project
models its algorithmic core in Dafny and proves what that core promises.

| files | what they model |
|---|---|
| `Bytes`, `Json`, `Grammar` | bytes, the value of a cJSON tree, and the concrete syntax of JSON with every choice a writer has |
| `Utf`, `Literal`, `Numeral` | escapes and UTF-8, the two passes over a string literal, numbers |
| `RfcMeaning` | what strings and numbers of RFC 8259 mean, stated without cJSON's functions |
| `Reader`, `ReaderComplete`, `ReaderSound`, `Rfc8259` | the parser as functions on a terminated text; the language it accepts, both directions; its relation to RFC 8259 |
| `Nodes`, `Parser` | linked items on the heap, and the parser on its mutable buffer |
| `PrintedText`, `RoundTrip`, `Layout`, `Printer` | the printed text, print then parse, how the text is laid out, and the printer on its growing buffer |
| `SiblingList`, `TreeEdit` | the list operations through pointers, and the editing calls on whole trees |
| `Equality`, `TreeOps` | comparison, duplication and member look-up |
| `Minify`, `MinifyLaws`, `MinifyScan`, `MinifyJson`, `MinifyValue` | in-place minifying, and its scanner as an automaton over the tokens of JSON with comments |
| `MulAdd` | the two portable multiply-accumulate kernels |
| `Crc16` | the table-driven checksum |
| `MessageQueue` | the send queue, its frames and its runs |
| `TagTable`, `PlateWriter` | the tag table and the plate-writing state machine |
| `Aes`, `Fragments` | block-wise encryption and the reassembly of Bluetooth fragments |
| `MenuNames`, `MenuWalk` | table names and the recursive menu walk |

Code that updates state in place is a method over a class or an array, proved against a function of the inputs or of
the old state; the lemmas then say what that function means. `char` is an unsigned byte, as in the ARM build, and
allocation succeeds. `Node` is `struct cJSON`; a ghost shape names the nodes of a tree, and `Rep` says that they are
linked as cJSON links them and denote a value.

## Where the code does less than its documentation

Each is stated as a theorem with its exact condition.

- Numbers: at most 63 bytes of a number are looked at. An RFC 8259 text with a longer number is refused, unless the
  whole text is that number and the terminator is not demanded: then `cJSON_Parse` accepts it with the value of its
  first 63 bytes, which is its own value only if the bytes behind do not matter and never for a plain integer
  (`Rfc8259.RfcAcceptedExactly`, `Rfc8259.RfcReadExactly`, `Rfc8259.LongIntegerWrong`, `Rfc8259.SixtyFourOnes`).
- Minifying: an escaped backslash at the end of a literal hides its closing quote, and from there on the scanner takes
  literals for what lies between them. A three-state automaton over the tokens says when that shows: the result is the
  text without white space and comments if and only if it never drops a byte of a literal nor keeps one of a gap
  (`MinifyJson.MinifiedExactly`), and the value is kept even if it keeps white space (`MinifyValue.MinifyThenParse`,
  `MinifyJson.EscapedBackslashChangesValue`).
- Comparing: an object that repeats a name with different values does not compare equal to its own duplicate
  (`Equality.ComparedExactly`, `Equality.RepeatedKeyDiffers`).
- The queue: a status query from the display acknowledges a waiting status message; that is the only way a message
  leaves on a command not its own (`MessageQueue.QueryAcknowledges`, `MessageQueue.RunAnswered`). Acknowledging command
  zero would break an empty ring (`MessageQueue.SendQueue.PopMessage`).
- The tag table: several cards on an empty table are all stored under the first card's identifier, so the second
  comparison can need more slots than there are (`TagTable.SecondComparison`, `TagTable.SixCards`). The clearing of the
  table after several empty reads is never reached, because two of them empty it (`TagTable.NeverForgotten`).
- The plate writer: the comparison with a fourth poll count compares with a count that is never stored
  (`PlateWriter.WaitingWarns`); a plate that could not be written is not remembered, so unless it was the last one
  written its removal is announced at the next visit although it is still there (`PlateWriter.WrittenIsRemembered`,
  `PlateWriter.WaitingWarns`); and a dish survives only if it fits into eighteen bits (`PlateWriter.DishIsRecovered`).

## Model

| member | source | states |
|---|---|---|
| `Bytes.Characters` | cJSON.c:1321-1365 | the bytes and words tested for are the ASCII characters meant |
| `Utf.ParseHex4` | cJSON.c:617-650 | reads four hexadecimal digits as a 16-bit number, and 0 whenever one of them is no digit |
| `Utf.MasksAreRemainders` | cJSON.c:704-768 | the encoder's masks, shifts and marks, also those of the first byte, compute the sums, quotients and remainders the UTF-8 definition speaks of |
| `Utf.ReadEscape` | cJSON.c:654-724 | an escape is accepted only for a Unicode scalar value, takes 6 or 12 bytes, and never reaches behind the closing quote |
| `Utf.Utf16LiteralToUtf8` | cJSON.c:654-772 | succeeds exactly on a unit that is no surrogate or on a high and low surrogate pair, consumes 6 or 12 bytes, and writes exactly the UTF-8 bytes of the code point into the room they need |
| `Utf.SurrogatePairs` | cJSON.c:697-715 | every code point beyond the first plane is that of exactly one surrogate pair |
| `Utf.Utf8RoundTrip` | cJSON.c:718-766 | decoding the 1 to 4 bytes (strict decoding, section 3 of RFC 3629) gives the code point back, so no surrogate is ever encoded |
| `Literal.FindLiteralEnd` | cJSON.c:787-811 | the sizing scan stops at the first quote that no escape hides, counting the escapes it skipped |
| `Literal.DecodeLiteral` | cJSON.c:813-887 | for every byte sequence, malformed escapes included, each store of the decoding loop lies inside the block the sizing scan allocated, and the read cursor ends at most one byte behind the closing quote |
| `Literal.EscapesBetween` | cJSON.c:790-814 | the scan skips at most one escape for every two bytes, which is why its block is large enough although both passes disagree on escape boundaries |
| `Literal.EscapesCounted` | cJSON.c:790-811 | of a well-formed literal the sizing scan counts exactly the escapes |
| `Literal.LiteralComplete` | cJSON.c:775-901 | every literal built from plain bytes, simple escapes, units and surrogate pairs is read, and means the concatenation of its pieces |
| `Literal.LiteralSound` | cJSON.c:775-901 | whatever is read is such a literal, so both directions characterise parse_string |
| `RfcMeaning.RfcLiteral` | cJSON.c:775-901 | every string of section 7 of RFC 8259 without U+0000 is read as exactly the bytes it means by the RFC's own table of escapes, its hexadecimal digits and UTF-8 |
| `RfcMeaning.EscapesExact` | cJSON.c:838-865 | the eight simple escapes of the RFC are known, each with its meaning, and no others |
| `RfcMeaning.HexExact` | cJSON.c:617-650 | the twenty-two hexadecimal digits are known, each with its value, and no others |
| `RfcMeaning.BadQuad` | cJSON.c:617-650 | an escape whose four bytes are not all hexadecimal digits is taken for U+0000, which ends the string |
| `RfcMeaning.NumberExact` | cJSON.c:305-379 | the value read is the number meant: digits in front of the point by their places, each digit behind it a tenth of the last, shifted by the exponent and signed |
| `Numeral.ParseDigits` | cJSON.c:305-379 | copies at most 63 number bytes and converts the longest numeral in front of them |
| `Numeral.NumberComplete` | cJSON.c:305-379 | a numeral of at most 63 bytes followed by no further number byte is read to its end with its decimal value |
| `Numeral.NumberSound` | cJSON.c:305-379 | whatever is read starts as JSON requires and is a numeral with that value |
| `Numeral.LongNumeralCut` | cJSON.c:317-342 | a numeral longer than 63 bytes is never read to its end: the parser is left standing in front of another number byte |
| `Numeral.StrtodBeyond` | cJSON.c:353-357 | the conversion reads at least as far as any numeral in front of the copy |
| `Numeral.NumberExactly` | cJSON.c:305-379 | what is read is the value and the end of the longest numeral within the next 63 bytes, and nothing is read exactly when there is none |
| `Reader.SkipBlank` | cJSON.c:1040-1063 | skipping white space moves on over bytes up to 0x20 only, and its step back stays inside the buffer and at or behind its start |
| `ReaderComplete.DocumentComplete` | cJSON.c:1097-1174 | every text of the grammar cJSON reads is accepted, and the tree is the value it denotes |
| `ReaderSound.DocumentSound` | cJSON.c:1097-1174 | whatever is accepted is a text of that grammar denoting the returned value |
| `ReaderSound.ParsesExactly` | cJSON.c:1097-1174 | with the terminator demanded the parser returns v for a terminated text if and only if the text is in the grammar and denotes v |
| `ReaderSound.ParsesPrefix` | cJSON.c:1177-1180 | without it (cJSON_Parse) the parser returns v if and only if a text of the grammar denoting v stands in front, whatever follows; if that text is a number, it is the longest there |
| `Rfc8259.ParsesRfc` | cJSON.c:1314-1366 | every RFC 8259 text without U+0000, nested at most 1000 deep and with numbers of at most 63 bytes, is accepted with exactly the value it denotes, whatever its white space and its choice of escapes |
| `Rfc8259.RfcAcceptedExactly` | cJSON.c:1097-1180 | of all RFC 8259 texts without U+0000 exactly those within these two limits are accepted, and, unless the terminator is demanded, those that are one number of any length |
| `Rfc8259.NumberAlone` | cJSON.c:317-379 | a text that is one number gets from cJSON_Parse the value of the longest numeral in its first 63 bytes |
| `Rfc8259.RfcReadExactly` | cJSON.c:1177-1180 | cJSON_Parse gives an RFC 8259 text the value it denotes if and only if it is within the limits or is a number that its first 63 bytes determine |
| `Rfc8259.LongIntegerWrong` | cJSON.c:317-342 | which no plain integer of more than 63 bytes is |
| `Rfc8259.SixtyFourOnes` | cJSON.c:1177-1180 | sixty-four ones are accepted as the number of sixty-three ones, and refused when the terminator is demanded |
| `Rfc8259.ValueRefused` | cJSON.c:1443-1447 | a value beyond the limits is refused, or leaves the parser in front of a byte of an over-long number |
| `Parser.ParseBuffer.SkipWhitespace` | cJSON.c:1040-1063 | the loop and its step back refine the skipping function |
| `Parser.ParseBuffer.SkipByteOrderMark` | cJSON.c:1066-1079 | a byte order mark is skipped only when at least one byte and the terminator follow it |
| `Parser.ParseBuffer.ParseString` | cJSON.c:775-901 | accepts exactly the literals, stores their text, and leaves the offset behind the closing quote |
| `Parser.ParseBuffer.ParseNumber` | cJSON.c:305-379 | accepts exactly the numerals and leaves the offset behind them |
| `Parser.ParseBuffer.ParseValue` | cJSON.c:1314-1366 | for every terminated text all reads lie inside it, each success strictly advances the offset, restores the depth and builds freshly allocated, well-linked items that denote the value |
| `Parser.ParseBuffer.ParseArray` | cJSON.c:1443-1538 | builds the sibling list of the elements, closes it by pointing the head's prev at the last item, and refuses the 1001st level |
| `Parser.ParseBuffer.ParseObject` | cJSON.c:1603-1713 | the same for members, whose names move from valuestring to string |
| `Parser.ParseBuffer.ParseKey` | cJSON.c:1659-1678 | reads a member's name and the colon behind it, with white space around both |
| `Parser.ParseWithOpts` | cJSON.c:1097-1174 | returns a fresh tree denoting the parsed value exactly when the text is accepted, otherwise an error position inside the text |
| `RoundTrip.CanonText` | cJSON.c:1369-1440 | the printed text is the text of one concrete syntax tree, formatted or not |
| `RoundTrip.CanonRfc` | cJSON.c:1369-1440 | that tree is RFC 8259 syntax within the parser's limits |
| `RoundTrip.CanonDenotes` | cJSON.c:904-1023 | and it denotes the value printed |
| `RoundTrip.PrintThenParse` | cJSON.c:1189-1262 | parsing what cJSON_Print or cJSON_PrintUnformatted printed gives back the same tree, member order and repeated keys included |
| `RoundTrip.RawThenParse` | cJSON.c:1408-1423 | raw items go into the text as they are: holding the text of a value in its place, they are parsed as that value |
| `RoundTrip.PrintInjective` | cJSON.c:1369-1440 | so two different trees never print alike |
| `Layout.PrintedLayout` | cJSON.c:1541-1827 | what is printed is RFC 8259 syntax that means the value, without any white space when unformatted; when formatted, members and closing braces start lines indented by their depth, a tab follows each colon and a space each comma of an array; characters stand for themselves wherever they may, otherwise by the short escape, otherwise by lower-case digits |
| `Printer.PrintBuffer.Ensure` | cJSON.c:443-528 | grants room exactly when the text so far, the request and a terminator fit into the largest block that can be had, and keeps the text on every growth path |
| `Printer.PrintBuffer.Grow` | cJSON.c:493-527 | reallocating or copying, the text counted by the offset survives in a block of the new size |
| `Printer.PrintBuffer.UpdateOffset` | cJSON.c:531-541 | folds a terminated tail into the offset |
| `Printer.PrintBuffer.PrintString` | cJSON.c:904-1023 | stores exactly the escaped literal, every store inside the room granted, and fails exactly when it does not fit |
| `Printer.PrintBuffer.PrintNumber` | cJSON.c:551-614 | stores the decimal text of an integer |
| `Printer.PrintBuffer.PrintValue` | cJSON.c:1369-1440 | stores the text of the value whatever the block's size and growth path, and fails exactly when text and two more bytes exceed what can be had |
| `Printer.PrintBuffer.PrintArray` | cJSON.c:1541-1600 | the same for arrays, with the depth restored |
| `Printer.PrintBuffer.PrintObject` | cJSON.c:1716-1827 | the same for objects, with the depth restored |
| `Printer.Print` | cJSON.c:1189-1251 | returns a block holding exactly the text and its terminator |
| `Printer.PrintBuffered` | cJSON.c:1264-1292 | the text does not depend on the first block's size |
| `Printer.PrintPreallocated` | cJSON.c:1294-1311 | succeeds exactly when the length given is at least the text's length plus 2, and then the block holds the terminated text |
| `Nodes.DenotesOne` | cJSON.h:103-123 | well-linked nodes denote one value only, so a tree that denotes a value holds all of it |
| `Nodes.KidsLinked` | cJSON.h:103-123 | children point at their neighbours, the first one's prev at the last, the last one's next nowhere, and no node stands in two places |
| `SiblingList.GetArrayItem` | cJSON.c:1853-1870 | finds the item at an index of the list, and null past its end |
| `SiblingList.AddItemToArray` | cJSON.c:1958-1989 | appends a detached item, keeping head, last and neighbour links |
| `SiblingList.DetachItemViaPointer` | cJSON.c:2189-2223 | removes the item, keeps the list's links, and leaves the item pointing nowhere |
| `SiblingList.InsertItemInArray` | cJSON.c:2265-2292 | inserts before the item at an index, and appends past the end |
| `SiblingList.ReplaceItemViaPointer` | cJSON.c:2294-2341 | puts the replacement at the item's place, also when it is first, last or alone |
| `SiblingList.InsertRemove` | cJSON.c:2189-2292 | detaching undoes inserting and inserting undoes detaching, at every index |
| `TreeEdit.AddToArray` | cJSON.c:1992-1995 | the array then denotes its old items followed by the added tree, and owns exactly both trees' nodes |
| `TreeEdit.InsertInArray` | cJSON.c:2265-2292 | the array then denotes its old items with the tree inserted at the index |
| `TreeEdit.DetachFromArray` | cJSON.c:2225-2233 | the part comes out as a tree of its own with its old value, the array denotes the rest |
| `TreeEdit.ReplaceInArray` | cJSON.c:2343-2351 | the array then denotes its old items with one replaced |
| `TreeOps.GetObjectItem` | cJSON.c:1882-1912 | the case-sensitive search finds the first item under the name unless an item without a name stops it |
| `TreeOps.Compare` | cJSON.c:2987-3110 | on separate trees, or on one item, decides the comparison of their values and terminates although the second pass swaps its arguments |
| `TreeOps.MembersIn` | cJSON.c:3073-3086 | one pass finds a matching member in the other object for each member |
| `Equality.CompareDoubleMeans` | cJSON.c:544-548 | two numbers count as equal exactly when they differ by at most a part in 2^52 of one of them |
| `Equality.CompareDoubleExact` | cJSON.c:544-548 | below 10^15 the tolerance never confuses two integers |
| `Equality.ComparedExactly` | cJSON.c:2987-3110 | the comparison is true if and only if both values mean the same, objects read as maps from names to meanings, and wherever either repeats a name it repeats it with the same meaning |
| `Equality.ComparedDistinct` | cJSON.c:2987-3110 | so with distinct names it decides equality of objects as unordered maps |
| `Equality.ComparedReflexive` | cJSON.c:3011-3015 | with distinct names a value compares equal to itself, so the shortcut for identical items changes nothing |
| `Equality.ComparedWithCopy` | cJSON.c:2707-2788 | an item compares equal to its duplicate exactly when its repeated names, if any, are consistent |
| `Equality.RepeatedKeyDiffers` | cJSON.c:3069-3105 | an object that repeats a name with different values does not compare equal to its own duplicate |
| `TreeOps.Duplicate` | cJSON.c:2707-2788 | the recursive copy is made of new nodes only, well linked, and denotes the same value; the other copy has no children |
| `TreeOps.Attach` | cJSON.c:2759-2771 | linking one finished copy behind the last keeps the list under construction |
| `Minify.MinifyInPlace` | cJSON.c:2839-2885 | over one array the write cursor never overtakes the read cursor, and the array ends up holding the minified text and its terminator |
| `Minify.SkipOnelineComment` | cJSON.c:2790-2801 | stops behind the line end or at the terminator |
| `Minify.SkipMultilineComment` | cJSON.c:2803-2815 | stops behind the comment's end or at the terminator |
| `Minify.MinifyString` | cJSON.c:2817-2837 | moves a literal down unchanged |
| `MinifyLaws.Idempotent` | cJSON.c:2839-2885 | minifying twice is minifying once, for every text |
| `MinifyLaws.GapSkipped` | cJSON.c:2850-2870 | any run of white space and comments disappears |
| `MinifyLaws.LastGapSkipped` | cJSON.c:2790-2801 | also one that ends in a line comment without a line end, at the end of the text |
| `MinifyLaws.LiteralScannedExactly` | cJSON.c:2823-2836 | the end of a literal is found if and only if its last escape is not an escaped backslash, or nothing follows it |
| `MinifyScan.FirstKept` | cJSON.c:2847-2883 | outside strings neither white space nor a slash is ever written |
| `MinifyScan.PiecesLeft` | cJSON.c:2817-2837 | in any state of the scanner a literal's pieces are kept as long as the automaton goes on, and where it stops a byte of them is missing from what is written |
| `MinifyScan.LeftExactly` | cJSON.c:2839-2885 | from any state, what is written is the text without its gaps if and only if the automaton reads all tokens |
| `MinifyScan.LeftThinned` | cJSON.c:2839-2885 | and as long as it keeps at most white space too much, what is written is the text with some gaps emptied |
| `MinifyJson.MinifiedExactly` | cJSON.c:2839-2885 | minifying JSON with comments, with or without a byte order mark and with a last comment left open, gives the text without its gaps if and only if the scanner never takes a literal for a gap or a gap for a literal |
| `MinifyJson.SyncedWithout` | cJSON.c:2831-2835 | which is so whenever no literal ends in an escaped backslash |
| `MinifyJson.EscapedBackslashChangesValue` | cJSON.c:2831-2835 | a document with such a literal is minified to one with a different value |
| `MinifyValue.SyncedHarmless` | cJSON.c:2839-2885 | a scanner that stays in step drops no byte of a literal and copies no comment |
| `MinifyValue.MinifyThenParse` | cJSON.c:2839-2885 | as long as no byte of a literal is dropped and no comment is copied, the minified text parses to the value of the document |
| `MulAdd.CoreWide` | include/mbedtls/bn_mul.h:866-876 | the low and high word hold s * b + c + d exactly: no carry is lost |
| `MulAdd.CoreHalf` | include/mbedtls/bn_mul.h:883-902 | the kernel that only multiplies half words computes the same |
| `MulAdd.AddCarry` | include/mbedtls/bn_mul.h:874-875 | comparing the wrapped sum with the addend detects the carry |
| `MulAdd.Crossed` | include/mbedtls/bn_mul.h:894-899 | the two middle products, split by shifts, add up to their place in the result without overflowing the high word |
| `MulAdd.MultiplyAddWide` | include/mbedtls/bn_mul.h:866-879 | over n limbs d_new + c_new * B^n = d_old + s * b + c_old, and limbs behind stay |
| `MulAdd.MultiplyAddHalf` | include/mbedtls/bn_mul.h:883-905 | the same for the half-word kernel |
| `MulAdd.LimbsUnique` | include/mbedtls/bn_mul.h:862-907 | that equation determines every limb and the carry |
| `MulAdd.KernelsAgree` | include/mbedtls/bn_mul.h:862-907 | so both kernels leave the same limbs and the same carry |
| `Crc16.Entry` | crc.c:4-37 | each of the 256 table entries is its index with eight bits shifted out |
| `Crc16.Crc16Calc` | crc.c:40-51 | the table-driven loop computes the reflected CRC with polynomial 0xA001 and initial value 0, bit by bit |
| `Crc16.Linear` | crc.c:40-51 | the checksum is linear over exclusive or, also from any register |
| `Crc16.BurstDetected` | crc.c:40-51 | two messages of one length that differ, and only inside two adjacent bytes, never share a checksum |
| `MessageQueue.SendQueue.PushMessage` | msgTask.c:76-101 | a push appends, dropping the oldest of fifty, and keeps wp = (rd + count) mod 50 and free slots zeroed |
| `MessageQueue.SendQueue.PopMessage` | msgTask.c:103-115 | removes the head exactly when its command is acknowledged; the ring stays sound if and only if the command is not zero or a message waits |
| `MessageQueue.SendQueue.MessageReady` | msgTask.c:118-145 | ready when the number of messages changed since the last look or the head is overdue |
| `MessageQueue.SendQueue.SendMessage` | msgTask.c:147-159 | transmits the head's frame, and nothing from a zeroed slot |
| `MessageQueue.SendQueue.SendTask` | msgTask.c:306-315 | one tick refines the tick of the abstract line |
| `MessageQueue.SendQueue.Receive` | msgTask.c:542-560 | which received commands acknowledge which waiting command |
| `MessageQueue.SendQueue.Drive` | msgTask.c:76-159 | any schedule of pushes, received commands and ticks on the ring refines the same run of the bounded line |
| `MessageQueue.RunKeeps` | msgTask.c:76-115 | over every run what has left and what waits are the messages pushed, in their order |
| `MessageQueue.WhoLeaves` | msgTask.c:76-115 | only the head leaves: by its own command, or by a push while fifty messages wait |
| `MessageQueue.RunAnswered` | msgTask.c:542-560 | over every run each departure is caused by one step: the head's own command was received, or a status query while a status message was the head, or a push found fifty waiting |
| `MessageQueue.RunJustified` | msgTask.c:553-560 | over every run a message counted as acknowledged carries the command that acknowledged it |
| `MessageQueue.RunInOrder` | msgTask.c:147-159 | over every run frames go out in the order of the pushes, each that of a message pushed |
| `MessageQueue.TickSends` | msgTask.c:118-159 | a tick transmits exactly when a message is due; a head not acknowledged is due again after more than three seconds; an empty queue transmits nothing even when it looks ready |
| `MessageQueue.ReceivedExactly` | msgTask.c:542-560 | a received command removes the head if it carries the command just answered, and does nothing otherwise |
| `MessageQueue.QueryAcknowledges` | msgTask.c:542-556 | a received command removes a message that carries another command if and only if it is the status query and a status message is the head |
| `MessageQueue.CalcCrc` | msgTask.c:53-61 | the loop computes the exclusive or of the bytes |
| `MessageQueue.BuildFrame` | msgTask.c:175-182 | length, command, body and checksum, whatever the rest of the local held |
| `MessageQueue.FrameChecks` | msgTask.c:175-182 | a frame's first byte counts what precedes the checksum, the body follows the command unchanged, and the whole frame sums to zero |
| `MessageQueue.XorSumConcat` | msgTask.c:53-61 | the sum of a message is that of its parts, so nothing sums to zero |
| `MessageQueue.OneByteShows` | msgTask.c:53-61 | one wrong byte anywhere changes the sum |
| `MessageQueue.SendQueue.QtPushDataToMsg` | msgTask.c:170-188 | pushes exactly that frame |
| `TagTable.TagReader.GetCstmTagId` | rewrCardTask.c:125-137 | hands out the lowest clear bit |
| `TagTable.TagReader.DeleteNodeIndex` | rewrCardTask.c:209-228 | frees a slot, its bit and its count |
| `TagTable.TagReader.AddNewItem` | rewrCardTask.c:264-286 | fills the first free slot with the lowest free id |
| `TagTable.TagReader.FindLoseCard` | rewrCardTask.c:297-318 | one miss marks a slot as leaving, the next frees it |
| `TagTable.TagReader.TagCompareRemark` | rewrCardTask.c:329-347 | a known tag exists, an unknown one gets a slot |
| `TagTable.TagReader.CompareAllTag` | rewrCardTask.c:358-389 | while ten slots are enough the scan refines the function of table and cards, and leaves the table sound |
| `TagTable.LowestIsSmall` | rewrCardTask.c:125-137 | the id handed out never exceeds the number of used slots, so 0x0F and its clear-all case are never reached |
| `TagTable.ScanSound` | rewrCardTask.c:358-389 | after a scan the count is that of the used slots, live ids are distinct and the bitmap holds exactly them |
| `TagTable.RunSound` | rewrCardTask.c:398-422 | over every run of the reader in which ten slots are enough the table stays sound: the stored count is right, and tags have distinct ids below ten whose bits are set |
| `TagTable.SlotAfterScan` | rewrCardTask.c:297-318 | what one scan does to a used slot: matched, missed once, or missed again |
| `TagTable.FreedAfterTwoMisses` | rewrCardTask.c:297-318 | of a slot used between two scans the second frees it if and only if its tag was there before the first and neither scan matched it |
| `TagTable.SecondComparison` | rewrCardTask.c:366-410 | the reader's second comparison needs more than ten slots only after an empty table, exactly when the cards and the distinct identifiers among them, less one, exceed ten |
| `TagTable.SixCards` | rewrCardTask.c:366-410 | six cards on an empty reader are such a case: no slot is left for the sixth |
| `TagTable.ScanSees` | rewrCardTask.c:398-410 | a scan that sees cards leaves exactly those in the table, because it compares twice |
| `TagTable.TwoEmptyScans` | rewrCardTask.c:398-422 | two scans in a row that see nothing empty the table |
| `TagTable.NeverForgotten` | rewrCardTask.c:411-421 | so over every run the clearing after several empty reads is never reached, because the count of empty reads never exceeds one |
| `TagTable.EmptyRead` | rewrCardTask.c:411-421 | what it would do: the sixth empty read in a row frees every slot |
| `TagTable.TagReader.RfidFindTag` | rewrCardTask.c:398-422 | comparing once or twice, counting empty reads and clearing after the sixth refine the run's step |
| `PlateWriter.PlateTask.NfcWritePlateTask` | rewrCardTask.c:471-732 | one visit refines the step function of the state machine |
| `PlateWriter.PlateTask.PollTags` | rewrCardTask.c:509-515 | three polls leave three counts and the first tag found |
| `PlateWriter.PlateTask.Write` | rewrCardTask.c:546-636 | reads and writes only the first tag found and always leaves the state |
| `PlateWriter.PlateTask.Wait` | rewrCardTask.c:638-708 | the multiple-tag branch does not end the visit: another tag in front still announces removal |
| `PlateWriter.PollsKept` | rewrCardTask.c:509-515 | the counts kept are those of the three polls, the tag in front is the first one of the last poll that found any |
| `PlateWriter.FoundBefore` | rewrCardTask.c:505-543 | in every run, writing starts only with three polls in a row that found one plate each, and lasts until the writing visit |
| `PlateWriter.ToldExactly` | rewrCardTask.c:505-636 | each result is told exactly when it is due, and decides whether one plate's removal is awaited, or that of several plates or a foreign one |
| `PlateWriter.WritesAreSeparated` | rewrCardTask.c:490-729 | in every run a removal was announced between any two successful writes of block 2 |
| `PlateWriter.WrittenPlateIsIdentified` | rewrCardTask.c:573-619 | in every run each write of block 2 comes directly behind a read of block 2 of the same plate that began with the identification code, and writes the dish of that visit; the status told next says whether it succeeded, block 3 is cleared if so, and the plate is waited for |
| `PlateWriter.WrittenIsRemembered` | rewrCardTask.c:620-623 | in every run the plate remembered is the one last written |
| `PlateWriter.PlateStays` | rewrCardTask.c:638-697 | so after a write, as long as the last poll of each visit finds that plate and no other, nothing is announced and the wait goes on |
| `PlateWriter.AtMostOneMoreWrite` | rewrCardTask.c:490-503 | after the stop command at most one more write is attempted until writing is allowed again, and only if a plate had been found |
| `PlateWriter.LastCountStays` | rewrCardTask.c:639-661 | the fourth count is never stored |
| `PlateWriter.WaitingWarns` | rewrCardTask.c:639-729 | so the warning depends on the last poll alone; removal is announced exactly when that poll is empty or, before a warning, shows another plate in front; waiting ends exactly then, and after a warning goes on as for several plates |
| `PlateWriter.DishIsRecovered` | rewrCardTask.c:595-598 | the bytes written give the dish back if and only if it fits into eighteen bits |
| `Aes.GenerateEcbKey` | aesEcb.go:59-68 | byte j of the block key is the exclusive or of every sixteenth byte of the key from j on |
| `Aes.ShortKey` | aesEcb.go:59-61 | a key of at most sixteen bytes is only filled up with zeros |
| `Aes.LongKey` | aesEcb.go:62-67 | every further block of a longer key is folded in by exclusive or |
| `Aes.BlocksEncrypted` | aesEcb.go:10-26 | block k of the result is block k of the padded text, encrypted under the block key |
| `Aes.DecryptedExactly` | aesEcb.go:28-57 | what a received message decrypts to, byte by byte from its own blocks decrypted, and exactly when it is which error |
| `Aes.AESEncrypt` | aesEcb.go:10-26 | pads to full blocks and encrypts each, for every length |
| `Aes.AESDecrypt` | aesEcb.go:28-57 | decrypts each block and trims, or reports which length error |
| `Aes.RoundTrip` | aesEcb.go:10-57 | decryption takes encryption back for every text and every key |
| `Aes.EncryptedApart` | aesEcb.go:10-26 | two texts never encrypt alike under one key |
| `Fragments.ScanChannel.Receive` | bluetask.go:187-218 | one advertisement: appended only if expected, and completion with the count's wrap-around |
| `Fragments.Reassembled` | bluetask.go:187-218 | under every schedule of losses, repeats and reordering the buffer holds fragments 1 to recnum - 1, and after the last one the channel holds the sender's text |
| `Fragments.ProgressExact` | bluetask.go:199-203 | progress counts exactly what has arrived as a subsequence |
| `Fragments.CompletesExactly` | bluetask.go:254-284 | a channel completes exactly when fragments 1 to n have arrived as a subsequence, for every n from 1 to 255, and then with the text sent |
| `Fragments.SpoiledIsForgotten` | bluetask.go:207-218 | a complete message that does not open is forgotten, and what follows is received as from the start |
| `Fragments.SentByPeer` | bluetask.go:207-215 | a message encrypted and encoded by the peer opens to its text |
| `MenuNames.FindCut` | httpclient.go:831-840 | the search for the cut: the position of underscore number lev, or the number of underscores |
| `MenuNames.CutAtName` | httpclient.go:831-842 | with an element's name in front the cut for its children's level leaves exactly that name |
| `MenuNames.ItoaDecimal` | httpclient.go:841-842 | the numbers in names are plain decimals without leading zeros |
| `MenuNames.NameInjective` | httpclient.go:841-842 | different index paths have different names |
| `MenuNames.LastIndexOfName` | httpclient.go:857-876 | cutting at the last underscore gives the parent's name |
| `MenuWalk.MenuWalker.JsonArrayParse` | httpclient.go:814-884 | with one global string the walk does, event by event, what the walk by index paths does |
| `MenuWalk.MenuWalker.JsonElementParse` | httpclient.go:828-879 | each element gets the name of its index path, its table if it is no dish, and its row goes into its parent's table |
| `MenuWalk.MenuWalker.JsonObjectParse` | httpclient.go:887-919 | the level counted along the members is right whenever it is used |
| `MenuWalk.Fetch` | httpclient.go:1039-1046 | whatever an earlier fetch left behind the first component does not matter |
| `MenuWalk.MenuTold` | httpclient.go:828-879 | over a whole menu, element by element in the order of the text and nothing besides: its name; its table unless it has an id; and if it has a name one row in its parent's table with that name and initial, its level, the table its parent's row stands in, and either its id and no next table or -1 and its own table |
| `MenuWalk.GetLast` | httpclient.go:1031-1046 | of several members under one key the last counts |
| `MenuWalk.MembersHoused` | httpclient.go:847-877 | over a whole menu every row goes into the table named like the element it belongs to without that element's last number, and every table created is that element's own |
| `MenuWalk.DistinctNames` | httpclient.go:814-919 | over a whole menu no two elements share a name |

## Left out

- Numeral.ParseDigits: values are real numbers, so strtod's rounding, infinities, the locale's decimal point and the saturated integer copy are not modelled.
- Printer.PrintBuffer.PrintNumber: only integers below 10^15 in absolute value, where the format prints plain decimal; other numbers, infinities and the NaN text are floating-point library behaviour.
- Literal.DecodeLiteral: a literal with an escaped U+0000 denotes the C string in front of it.
- Parser.ParseWithOpts: unterminated buffers, a null text and the reported end of the parse are not modelled.
- Printer.PrintBuffered: a first block of size 0 is not modelled, and failing allocation and its clean-up nowhere.
- SiblingList.ReplaceItemViaPointer: the item replaced is not freed; deallocation of trees is not modelled.
- SiblingList.AddItemToArray: the item added must be detached, as for the other calls; an item that is still in a list would break both lists.
- TreeEdit.AddToArray: references to items of other trees share nodes, which trees as sets of their own nodes exclude.
- TreeOps.GetObjectItem: the case-insensitive search is not modelled, nor the object calls built on it.
- TreeOps.Compare: case sensitive only; both arguments are separate trees or one and the same item.
- TreeOps.Duplicate: the reference and constant-name flags are not modelled.
- MinifyValue.MinifyThenParse: the condition is not necessary for the value alone; a comment copied behind the value does no harm when the terminator is not demanded. For the text the condition is exact (`MinifyJson.MinifiedExactly`).
- MulAdd.MultiplyAddWide: both pointers start at index 0 of their arrays; the callers in the bignum sources are not part of this model, nor are the assembly variants.
- MessageQueue.SendQueue.PushMessage: the queue's lock flag is not modelled, every operation is one atomic step; a failing system call and messages sent without the queue are not modelled.
- MessageQueue.SendQueue.QtPushDataToMsg: a length byte below 2 or above 254, for which the copied size leaves the fields, is excluded.
- TagTable.TagReader.CompareAllTag: identifiers are not shown distinct, because the empty table stores the first one for every card; update marks and block data of a slot are not modelled.
- PlateWriter.PlateTask.NfcWritePlateTask: return codes, the beeper, logging, and the command byte of status messages, which the source leaves unset outside the search, are not modelled.
- Aes.AESEncrypt: the block cipher is any permutation of blocks with its inverse; aes.go wraps other modes and is not modelled.
- Fragments.ScanChannel.Receive: classification of scan lines, the number read from the restaurant id and base64 itself are parameters or left out; the token channel resets another channel's count, so the password channel obeys the law only while no token completes.
- MenuWalk.MenuWalker.JsonArrayParse: arrays directly inside arrays and objects with more than one array, for which the level is wrong, are excluded; dish ids are integers, progress messages are not modelled.
- Sockets, MQTT, NTP, CAN, SQLite, shell commands, log files and the reporting flags of the shadow and firmware updates: effects without a law that could be stated here.
- Arrays created from C arrays, hexadecimal output, string trimming and the type tests: they would only add easy members.
