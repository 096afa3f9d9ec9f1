# Verification of the matrix weighing software

A Dafny model of the parts of this repository in which several functions have to agree with each other,
and proofs about them. `dafny verify dfyconfig.toml` verifies the whole project. Code that
works in place is modelled with arrays, linked objects, classes and loops, and each such method is proved
against a function on values; the laws are proved about those functions.

- **cJSON** (`Bytes`, `Decimals`, `JsonText`, `Utf16`, `JsonParser`, `JsonSyntax`, `ParserSteps`, `SyntaxParse`, `SyntaxSound`,
  `RoundTrip`, `ParseBuffer`, `PrintBuffer`, `Minify`, `MinifyPieces`, `MinifySyntax`, `MinifyParse`, `Siblings`).
  `JsonSyntax` is the grammar of RFC 8259 with the meaning and the layout of its texts, written down without parser and
  printer. `JsonParser` says what the recursive-descent parser computes, offset by offset, errors included; `ParseBuffer`
  is the parser with its offset and depth fields and the in-place string decoder; `PrintBuffer` is the printer over a
  growing or preallocated buffer. `SyntaxParse` and `SyntaxSound` prove the parser against the grammar, in both directions,
  `RoundTrip` the printer, and `MinifyPieces` and `MinifySyntax` the minifier.
- **uthash and utlist** (`MergeSpec`, `SortList`, `DList`, `AppOrder`, `HashChains`, `UtHash`,
  `UtHashRuns`). One mergesort pass on linked elements serves both sorts. The hash table threads every element through the application order and
  a bucket chain; its invariant contains what `HASH_FSCK` checks. The hash function is any function of the key.
- **devdrvd client pool** (`ClientPool`, `PoolInvariant`, `PoolDelivery`, `PoolTheorems`, `PoolProgress`, `PoolAdmission`). Accept
  thread, feed threads, dispatcher and connect threads as atomic steps over any number of slots, in any
  interleaving. A history of sessions, of the dispatcher's log and of stray descriptor accesses is kept beside
  the state. Assumed: thread creation and pipe and socket writes succeed.
- **libpack** (`Framing`, `Discrete`, `Crc16`, `CrcBursts`). The byte-fed packet receiver, the discrete packets, the checksum.
- **Calibration** (`Calibration`, `CalibrationRuns`). The section table of a channel under whole runs of commands.
- **Two-sided agreements** (`FormatString`, `FormatGrammar`, `RegisterImage`). `check_format` against `formatted_print`, both
  against the format language of the manual page, and the Modbus register image against the reads that fetch it (section 6.4 of MODBUS Application Protocol V1.1b3).

What the proofs show about the code beyond its own statements:

- `cJSON.h` asks for five bytes more than the text for `cJSON_PrintPreallocated`; two are enough and needed.
- `parse_hex4` returns 0 for malformed digits, so a malformed escape reads as the character 0 instead of an error.
- Beyond RFC 8259 the parser takes leading zeros, a dot without digits on one side, control characters in strings, every
  byte up to the space as a blank, and malformed escapes; nothing else.
- `minify_string` takes an escaped backslash before the closing quote for an escaped quote and can delete a blank
  of a later string.
- Behind a number at the top, which `cJSON_Parse` takes without looking at the end, minifying can join more digits.
- `cJSON_InsertItemInArray` and `cJSON_ReplaceItemViaPointer` let an array become its own child.
- Replacing the only element of a table frees the table, so that an expansion that was given up starts anew.
- Whatever a client sends is answered on the socket that carries the packets, so the answer stands
  between them or in them.
- A connection refused because the pool is full leaves both ends of its pipe open; of the text that it is sent, it gets as
  many bytes as a pointer has.
- The shutdown path of the dispatcher leaves its loop with `connect_lock` taken.
- A repeated start character shortens the next packet by its stop character; noise lengthens it by stale bytes.
- A zero correction to -1 blocks all later corrections and gain calibrations of the channel.
- `setMaximumChannel` compares raw values with the maximum weight and leaves stale slopes behind, until the next
  gain calibration.

## Model

| member | source | states |
|---|---|---|
| Utf16.Utf8RoundTrip | matrix/bessel-kiss/cjson/cJSON.c:755-808 | the bytes written for any Unicode scalar value decode to it under section 3 of RFC 3629, in the shortest form |
| Utf16.Utf8Unique | matrix/bessel-kiss/cjson/cJSON.c:755-808 | a byte string that decodes to a scalar value is the one the encoder writes for it |
| Utf16.Hex4Reads | matrix/bessel-kiss/cjson/cJSON.c:661-694 | every code unit is read from its four hexadecimal numerals, each in lower or upper case |
| Utf16.Hex4Spells | matrix/bessel-kiss/cjson/cJSON.c:661-694 | well-formed digits are the numerals of the number that is read |
| Utf16.LiteralReadsUnits | matrix/bessel-kiss/cjson/cJSON.c:698-816 | the spelling of a code point by one unit or a surrogate pair (section 7 of RFC 8259) is read as that code point and consumes 6 or 12 bytes |
| Utf16.LiteralIsSpelling | matrix/bessel-kiss/cjson/cJSON.c:698-816 | whatever follows it, a literal that is read is a spelling of the code point it is read as if and only if its first four digits are well-formed; with malformed digits it is the character 0 and consumes 6 bytes |
| Utf16.LiteralAccepted | matrix/bessel-kiss/cjson/cJSON.c:661-816 | a literal with six bytes left is accepted if and only if it spells a scalar value or its digits are malformed: lone and mismatched surrogates are refused |
| ParseBuffer.ParseHex4 | matrix/bessel-kiss/cjson/cJSON.c:661-694 | the loop over four bytes gives the value of the digits, or 0 if one is not a hexadecimal digit |
| ParseBuffer.WriteUtf8 | matrix/bessel-kiss/cjson/cJSON.c:755-808 | the encoding loop, from the last byte to the first, leaves exactly the UTF-8 bytes and advances past them |
| ParseBuffer.Utf16LiteralToUtf8 | matrix/bessel-kiss/cjson/cJSON.c:698-816 | the result length and the written bytes are those of the literal read, or 0 and nothing written |
| ParseBuffer.UnescapedFits | matrix/bessel-kiss/cjson/cJSON.c:832-923 | for every text, malformed escapes included, the second loop writes at most as many bytes as the first scan took steps |
| ParseBuffer.ConvertEscapes | matrix/bessel-kiss/cjson/cJSON.c:866-923 | every write is within the allocation with one byte to spare, and the output is the unescaped text or the place of the error is right |
| ParseBuffer.ParseBuffer.FindClosingQuote | matrix/bessel-kiss/cjson/cJSON.c:832-860 | the first scan finds the closing quote and counts the bytes that escapes skip |
| ParseBuffer.ParseBuffer.ParseString | matrix/bessel-kiss/cjson/cJSON.c:819-946 | value, success and new offset are those of the string grammar, for every buffer |
| ParseBuffer.ParseBuffer.ParseNumber | matrix/bessel-kiss/cjson/cJSON.c:307-407 | value, integer field, success and new offset are those of a strtod read over the number characters at the offset |
| JsonText.ValueIntExact | matrix/bessel-kiss/cjson/cJSON.c:387-398 | the saturated integer field equals the number exactly for the 32-bit integers, which is when the printer takes it; else it is the next 32-bit integer towards zero |
| Decimals.ValueIsNumeral | matrix/bessel-kiss/cjson/cJSON.c:374-385 | what digits are worth is the number that they are the decimal notation of, place by place |
| SyntaxParse.NumericReads | matrix/bessel-kiss/cjson/cJSON.c:307-407 | a number with or without fraction and exponent of either sign is read as its exact value: its digits as a whole number, divided by ten for each digit of the fraction, times the power of ten |
| SyntaxParse.NumericFound | matrix/bessel-kiss/cjson/cJSON.c:374-385 | what strtod takes of number bytes is a number of the grammar, with that value |
| SyntaxParse.StringReads | matrix/bessel-kiss/cjson/cJSON.c:819-946 | a string of the grammar, every escape of section 7 of RFC 8259 included, is read as its characters, wherever it stands |
| ParseBuffer.ParseBuffer.SkipWhitespace | matrix/bessel-kiss/cjson/cJSON.c:1085-1108 | skips bytes up to 32 and steps back by one at the end of the buffer |
| ParseBuffer.ParseBuffer.ParseValue | matrix/bessel-kiss/cjson/cJSON.c:1363-1415 | any buffer, any offset and depth: tree, success, offset and restored depth are those of the parser function |
| ParseBuffer.ParseBuffer.ParseArray | matrix/bessel-kiss/cjson/cJSON.c:1492-1587 | the same for arrays, with the nesting limit and every error exit |
| ParseBuffer.ParseBuffer.ParseObject | matrix/bessel-kiss/cjson/cJSON.c:1652-1767 | the same for objects, with the nesting limit and every error exit |
| ParseBuffer.ParseWithLengthOpts | matrix/bessel-kiss/cjson/cJSON.c:1142-1219 | accepted tree and end position, or the error position, for any buffer length, with and without required NUL |
| SyntaxParse.ValueReads | matrix/bessel-kiss/cjson/cJSON.c:1363-1767 | every text of the grammar is read whole as what it means, unless it nests too deep; then it is refused |
| SyntaxSound.ValueFound | matrix/bessel-kiss/cjson/cJSON.c:1363-1767 | whatever the parser accepts, with four digits behind each \u, is a text of the grammar and is read as what it means |
| SyntaxSound.AcceptedDocuments | matrix/bessel-kiss/cjson/cJSON.c:1142-1219 | with a required NUL, and four digits behind each \u, exactly the documents of the grammar are accepted that nest at most 1000 deep, behind a byte order mark or not, and with this value |
| SyntaxSound.StandardAccepted | matrix/bessel-kiss/cjson/cJSON.c:1142-1219 | every JSON text of RFC 8259 that nests at most 1000 deep is accepted and read as what it means |
| Decimals.DigitsNotation | matrix/bessel-kiss/cjson/cJSON.c:610-614 | the digits of a number are its decimal notation, with no zero in front of another digit, and the shortest text that denotes it |
| RoundTrip.NumberWritten | matrix/bessel-kiss/cjson/cJSON.c:591-655 | an int-valued number is written as a number of RFC 8259 with this value |
| RoundTrip.StringWritten | matrix/bessel-kiss/cjson/cJSON.c:949-1068 | a NUL-free string is written as a string of RFC 8259 that means it |
| RoundTrip.TextIsStandard | matrix/bessel-kiss/cjson/cJSON.c:1418-1881 | what is printed for a tree is a JSON text of RFC 8259 that means the tree; unformatted it has no blanks, formatted those of the layout: members on lines of their own with a tab for each level, a tab behind the colon, a space behind a comma in an array |
| RoundTrip.StringRoundTrip | matrix/bessel-kiss/cjson/cJSON.c:819-1068 | for all NUL-free bytes, reading what print_string_ptr writes gives the bytes back |
| RoundTrip.NumberRoundTrip | matrix/bessel-kiss/cjson/cJSON.c:307-655 | a printed 32-bit integer reads back as itself, whatever follows that is no number character |
| RoundTrip.ArrayRoundTrip | matrix/bessel-kiss/cjson/cJSON.c:1492-1649 | the text of an array reads back as the array exactly when depth and nesting stay within the limit, else it is refused |
| RoundTrip.ObjectRoundTrip | matrix/bessel-kiss/cjson/cJSON.c:1652-1881 | the same for objects, key order kept |
| RoundTrip.BufferRoundTrip | matrix/bessel-kiss/cjson/cJSON.c:1142-1219 | the root: with a NUL behind the text, also when a NUL is required, which needs the step back of the blank skipping |
| RoundTrip.DocumentRoundTrip | matrix/bessel-kiss/cjson/cJSON.c:1363-1881 | for every tree of nulls, booleans, 32-bit int-valued numbers, NUL-free strings, arrays and objects, parsing the printed text, formatted or not, gives an equal tree if and only if it nests at most 1000 deep, and is refused otherwise |
| PrintBuffer.TextNulFree | matrix/bessel-kiss/cjson/cJSON.c:1418-1489 | no printed text contains a NUL byte, so the C string is the whole text |
| PrintBuffer.PrintBuffer.Ensure | matrix/bessel-kiss/cjson/cJSON.c:485-568 | succeeds exactly when the bytes and one more fit what the buffer can become; growth keeps the prefix |
| PrintBuffer.PrintBuffer.UpdateOffset | matrix/bessel-kiss/cjson/cJSON.c:571-581 | moves the offset to the first NUL behind it |
| PrintBuffer.PrintBuffer.PrintNumber | matrix/bessel-kiss/cjson/cJSON.c:591-655 | appends the decimal text of an int-valued number and a NUL, exactly when there is room |
| PrintBuffer.PrintBuffer.PrintStringPtr | matrix/bessel-kiss/cjson/cJSON.c:949-1068 | appends the quoted text and a NUL: the length counted beforehand is the length written |
| PrintBuffer.PrintBuffer.PrintValue | matrix/bessel-kiss/cjson/cJSON.c:1418-1489 | appends exactly the text of the tree; succeeds if and only if text plus two bytes fit |
| PrintBuffer.PrintBuffer.PrintArray | matrix/bessel-kiss/cjson/cJSON.c:1590-1649 | the same for arrays, depth restored |
| PrintBuffer.PrintBuffer.PrintObject | matrix/bessel-kiss/cjson/cJSON.c:1770-1881 | the same for objects, depth restored |
| PrintBuffer.Print | matrix/bessel-kiss/cjson/cJSON.c:1234-1299 | the returned memory is exactly the text and its NUL, whether it is cut by reallocation or copied |
| PrintBuffer.PrintBuffered | matrix/bessel-kiss/cjson/cJSON.c:1312-1341 | the same whatever the initial size, a negative one refused |
| PrintBuffer.PrintPreallocated | matrix/bessel-kiss/cjson/cJSON.c:1343-1360 | true if and only if the length is at least the text and two bytes; then the buffer holds the text; bytes beyond the length are never touched |
| Minify.SkipOnelineComment | matrix/bessel-kiss/cjson/cJSON.c:2860-2871 | stops behind the line feed or at the NUL |
| Minify.SkipMultilineComment | matrix/bessel-kiss/cjson/cJSON.c:2873-2885 | stops behind the closing mark or at the NUL |
| Minify.MinifyString | matrix/bessel-kiss/cjson/cJSON.c:2887-2907 | moves the literal down unchanged; the write position never passes the read position |
| Minify.MinifyInPlace | matrix/bessel-kiss/cjson/cJSON.c:2909-2955 | in place, for every string: the result is the minified text, NUL-terminated, and memory behind the string is untouched |
| Minify.MinifyIdempotent | matrix/bessel-kiss/cjson/cJSON.c:2860-2955 | minifying twice is minifying once, for every byte string |
| MinifyPieces.MinifiedPieces | matrix/bessel-kiss/cjson/cJSON.c:2860-2955 | however a text consists of blanks, comments, literals and other bytes, the last one open or not: what is left are the literals and the other bytes, unchanged and in order |
| MinifyPieces.MinifiedIsKept | matrix/bessel-kiss/cjson/cJSON.c:2860-2955 | every text consists of such pieces, so this holds for every text |
| MinifySyntax.MinifyStrips | matrix/bessel-kiss/cjson/cJSON.c:2909-2955 | of a JSON text of RFC 8259, none of whose strings ends in an escaped backslash, exactly the blanks go: the compact text of the same value is left |
| MinifySyntax.MinifiedIsUnformatted | matrix/bessel-kiss/cjson/cJSON.c:2909-2955 | minifying what is printed formatted gives what is printed unformatted, for trees none of whose strings ends in a backslash |
| MinifyParse.SpanIsScan | matrix/bessel-kiss/cjson/cJSON.c:2887-2907 | minify and parser agree on the end of a literal if and only if its closing quote does not follow an escaped backslash |
| MinifyParse.MinifyKeepsValue | matrix/bessel-kiss/cjson/cJSON.c:2909-2955 | for every document that is accepted, with or without a required NUL, and of whose strings the minifier keeps every byte: the minified text is accepted, and its value is the same unless, without a required NUL, the value is a number and reads as another one together with the number bytes that join it |
| MinifyParse.FrontRereads | matrix/bessel-kiss/cjson/cJSON.c:1222-1225 | what the value is then: the number that strtod reads of the number bytes and those that join them |
| MinifyParse.JoinedNumber | matrix/bessel-kiss/cjson/cJSON.c:2909-2955 | the text `1 2` is read as 1 without a required NUL, and minified as 12 |
| MinifyParse.TidyUnharmed | matrix/bessel-kiss/cjson/cJSON.c:2887-2907 | a document whose literals all close with a plain quote loses no byte of a string |
| MinifyParse.UntidyLosesBlank | matrix/bessel-kiss/cjson/cJSON.c:2887-2907 | a document of two strings, the first one backslash, of which minifying drops a blank of the second and so changes the value |
| MinifyParse.UntidyMayKeepValue | matrix/bessel-kiss/cjson/cJSON.c:2887-2907 | a document with a literal that closes otherwise, of whose strings still no byte is lost |
| MinifyParse.HarmUnseen | matrix/bessel-kiss/cjson/cJSON.c:2887-2907 | a document that loses a byte of a string behind a character 0, where the parser cuts the string, and keeps its value |
| Siblings.Item.AddItemToArray | matrix/bessel-kiss/cjson/cJSON.c:2012-2043 | appends to the sequence of children; refuses null and the item itself |
| Siblings.Item.GetArrayItem | matrix/bessel-kiss/cjson/cJSON.c:1907-1924 | the child at the index, or null |
| Siblings.Item.DetachItemViaPointer | matrix/bessel-kiss/cjson/cJSON.c:2243-2277 | removes one element of the sequence, leaves it pointing nowhere, and keeps first-prev-is-last |
| Siblings.Item.InsertItemInArray | matrix/bessel-kiss/cjson/cJSON.c:2319-2351 | inserts in front of the index, or appends when there is no such child; the array itself is refused only there and else becomes its own child |
| Siblings.Item.ReplaceItemViaPointer | matrix/bessel-kiss/cjson/cJSON.c:2353-2400 | exchanges one element of the sequence, also for the array itself |
| MergeSpec.MergeSorted | matrix/mosquitto-2.0.15/deps/utlist.h:201-222 | merging sorted runs gives a sorted run |
| MergeSpec.MergeStable | matrix/mosquitto-2.0.15/deps/utlist.h:201-222 | equal elements come out in their order, first run before second |
| MergeSpec.PassDoublesRuns | matrix/mosquitto-2.0.15/deps/utlist.h:186-226 | after the pass with run length k the list consists of sorted runs of length 2k |
| MergeSpec.PassStable | matrix/mosquitto-2.0.15/deps/utlist.h:186-226 | a pass is a stable permutation |
| MergeSpec.MergesBound | matrix/mosquitto-2.0.15/deps/utlist.h:227-230 | the pass makes at most one merge exactly when one pair of runs covers the list, which is when the loop stops |
| MergeSpec.SortSorts | matrix/mosquitto-2.0.15/deps/utlist.h:175-233 | for every list and total preorder the sort gives a sorted, stable permutation |
| MergeSpec.SortPermutes | matrix/mosquitto-2.0.15/deps/uthash.h:983-1062 | for any compare function at all, no element is lost or doubled |
| MergeSpec.StableSortUnique | matrix/mosquitto-2.0.15/deps/uthash.h:983-1062 | there is only one sorted list with the same ties: the result does not depend on the algorithm |
| SortList.MergeRuns | matrix/mosquitto-2.0.15/deps/utlist.h:200-222 | the relinking loop appends the merge of the two runs to the output, prev inverse to next, the rest of the list untouched |
| SortList.StepOver | matrix/mosquitto-2.0.15/deps/utlist.h:193-199 | finds the second run and counts the first |
| SortList.SortPass | matrix/mosquitto-2.0.15/deps/uthash.h:993-1052 | relinks the whole list to the result of the pass, with head, tail, ended links and the number of merges |
| DList.Prepend | matrix/mosquitto-2.0.15/deps/utlist.h:624-634 | adds in front; head's prev stays the last element |
| DList.Append | matrix/mosquitto-2.0.15/deps/utlist.h:639-651 | adds behind |
| DList.Concat | matrix/mosquitto-2.0.15/deps/utlist.h:688-701 | concatenates two lists |
| DList.Delete | matrix/mosquitto-2.0.15/deps/utlist.h:706-722 | removes one element |
| DList.ReplaceElem | matrix/mosquitto-2.0.15/deps/utlist.h:753-777 | updates one element |
| DList.PrependElem | matrix/mosquitto-2.0.15/deps/utlist.h:782-798 | inserts in front of an element, or appends |
| DList.AppendElem | matrix/mosquitto-2.0.15/deps/utlist.h:803-819 | inserts behind an element, or prepends |
| DList.LowerBound | matrix/mosquitto-2.0.15/deps/utlist.h:672-683 | the last element of those at the front that are smaller, or null |
| DList.InsertInorder | matrix/mosquitto-2.0.15/deps/utlist.h:656-667 | inserts in front of the first element that is not smaller |
| DList.InsertedSorted | matrix/mosquitto-2.0.15/deps/utlist.h:656-667 | in-order insertion keeps a sorted list sorted and puts the new element before all equal ones |
| DList.Sort | matrix/mosquitto-2.0.15/deps/utlist.h:175-233 | relinks the list to the sorted one, head's prev the last element, whatever its length |
| AppOrder.AppendList | matrix/mosquitto-2.0.15/deps/uthash.h:286-292 | appends to the application order |
| AppOrder.Unlink | matrix/mosquitto-2.0.15/deps/uthash.h:458-485 | removes from the application order, head and tail corrected |
| AppOrder.InsertInorder | matrix/mosquitto-2.0.15/deps/uthash.h:294-384 | inserts in front of the first greater element, or at the tail |
| AppOrder.InsertedAfterTiesSorted | matrix/mosquitto-2.0.15/deps/uthash.h:294-384 | keeps a sorted order sorted and puts the new element behind all equal ones |
| AppOrder.InsertedIsSorted | matrix/mosquitto-2.0.15/deps/uthash.h:294-384 | inserting in order into a sorted table is the same as appending and sorting |
| AppOrder.Sort | matrix/mosquitto-2.0.15/deps/uthash.h:983-1062 | relinks the application order to the sorted one and sets the tail |
| HashChains.AndMask | matrix/mosquitto-2.0.15/deps/uthash.h:438-441 | masking with one less than a power of two is the remainder, shifting is the quotient |
| HashChains.FindInBkt | matrix/mosquitto-2.0.15/deps/uthash.h:835-854 | an element of the chain with hash value and key, or null if there is none |
| HashChains.PushBkt | matrix/mosquitto-2.0.15/deps/uthash.h:857-866 | the element becomes the first of its chain; count and hh_prev right; other chains untouched |
| HashChains.DelInBkt | matrix/mosquitto-2.0.15/deps/uthash.h:879-892 | the element leaves its chain; count and hh_prev right; other chains untouched |
| HashChains.MultGrows | matrix/mosquitto-2.0.15/deps/uthash.h:946-951 | expand_mult stays the bound: count at most (expand_mult + 1) times the ideal length, and never larger than needed |
| HashChains.MoveOne | matrix/mosquitto-2.0.15/deps/uthash.h:944-958 | one element moves to the bucket of its hash value; counts, nonideal count and multipliers follow |
| HashChains.Redistribute | matrix/mosquitto-2.0.15/deps/uthash.h:939-960 | all elements, each once, end in the new bucket of their hash value; the nonideal count is the sum over buckets of what exceeds the ideal length |
| UtHash.BloomAdd | matrix/mosquitto-2.0.15/deps/uthash.h:203-207 | sets one bit and changes no other answer of the filter |
| UtHash.TwoInARowGrows | matrix/mosquitto-2.0.15/deps/uthash.h:965-970 | the count of ineffective expansions exceeds one exactly when two in a row were ineffective |
| UtHash.IdealIsCeiling | matrix/mosquitto-2.0.15/deps/uthash.h:936-938 | shift and mask give the number of items over the new number of buckets, rounded up |
| UtHash.HashTable.ExpandBuckets | matrix/mosquitto-2.0.15/deps/uthash.h:923-973 | keeps elements, places and counts with twice the buckets; ideal length, nonideal items and multipliers as defined; gives up exactly after two ineffective expansions in a row |
| UtHash.HashTable.AddToBkt | matrix/mosquitto-2.0.15/deps/uthash.h:857-876 | expands exactly when the chain reaches its threshold and expansion has not been given up; the history of expansions only grows, and once given up nothing expands |
| UtHash.HashTable.Add | matrix/mosquitto-2.0.15/deps/uthash.h:404-423 | the invariant is kept, the order gains the element at its end, the map gains its key; the first element makes a table of 32 buckets, on an existing one giving up lasts |
| UtHash.HashTable.AddInorder | matrix/mosquitto-2.0.15/deps/uthash.h:358-389 | the same with the element at its sorted place |
| UtHash.HashTable.Find | matrix/mosquitto-2.0.15/deps/uthash.h:164-181 | the element the map has for the key, or null, with or without Bloom filter |
| UtHash.HashTable.Reachable | matrix/mosquitto-2.0.15/deps/uthash.h:164-174 | every element is in the bucket of its hash value and passes the filter, also after deletes |
| UtHash.HashTable.Delete | matrix/mosquitto-2.0.15/deps/uthash.h:458-485 | the invariant is kept, the order and the map lose exactly this element, buckets and history stay; the last one frees the table |
| UtHash.HashTable.FindAndDelete | matrix/mosquitto-2.0.15/deps/uthash.h:265-268 | the element of the key, if there is one, leaves order and map; the others keep their order |
| UtHash.HashTable.Replace | matrix/mosquitto-2.0.15/deps/uthash.h:262-270 | a map update, and the element it replaced, also when that is the element itself; the others keep their order, the new one comes last |
| UtHash.HashTable.ReplaceInorder | matrix/mosquitto-2.0.15/deps/uthash.h:252-260 | the same with the element at its sorted place |
| UtHash.HashTable.Sort | matrix/mosquitto-2.0.15/deps/uthash.h:983-1062 | sorted and stable order, same map, tail right, buckets untouched |
| UtHash.HashTable.Fsck | matrix/mosquitto-2.0.15/deps/uthash.h:523-570 | the integrity scan accepts every table that the operations can produce |
| UtHashRuns.Run | matrix/mosquitto-2.0.15/deps/uthash.h:252-485 | after any run of puts, in-order puts, deletes and sorts the table has the order and the contents that a sequence and a map have after the same run; a table that has given up expanding keeps its number of buckets as long as it exists |
| UtHashRuns.FoldIsMapFold | matrix/mosquitto-2.0.15/deps/uthash.h:252-485 | the two agree: the order after a run, read as a map, is the map after the run, and no key is in it twice |
| UtHashRuns.RunSorted | matrix/mosquitto-2.0.15/deps/uthash.h:294-384 | over any run of in-order puts, deletes and sorts by one order the table stays sorted |
| PoolInvariant.SlotLockedStep | matrix/devdrvd/src/control_daemon.c:42-65 | every step keeps each slot lock naming exactly the thread that is inside it |
| PoolInvariant.OwnedStep | matrix/devdrvd/src/control_daemon.c:39-67 | every step keeps a slot taken exactly as long as one thread answers for its client |
| PoolInvariant.CountsStep | matrix/devdrvd/src/devdrvd.c:257-259 | every step keeps clients_number equal to the taken slots but for the updates in flight |
| PoolDelivery.CheckedOpen | matrix/devdrvd/src/devdrvd.c:1042-1053 | between check and write of the dispatcher nobody closes the descriptors of the slot |
| PoolDelivery.FiledStep | matrix/devdrvd/src/devdrvd.c:245-265 | every step keeps the descriptors of served slots open and each client's own |
| PoolDelivery.ServedStep | matrix/devdrvd/src/devdrvd.c:1037-1062 | every step keeps what each client got a contiguous piece of the log, up to date with the round |
| PoolTheorems.GapFreeDelivery | matrix/devdrvd/src/devdrvd.c:1037-1062 | in every reachable state the chunks in a client's pipe are a contiguous piece of the log; what its socket got from the pipe is a prefix of them, and all that it got exactly as long as nothing the client sent was answered and it was not refused |
| PoolTheorems.AnswerReachable | matrix/devdrvd/src/control_daemon.c:125-150 | a run in which the socket of a client gets bytes that are in no chunk |
| PoolTheorems.UpToDate | matrix/devdrvd/src/devdrvd.c:1037-1062 | between rounds a client has every chunk since it was registered |
| PoolTheorems.NoStrayAccess | matrix/devdrvd/src/devdrvd.c:245-265 | no descriptor is read, written or closed unless it is open and is the socket or pipe end of the very session that the thread serves, although numbers are reused |
| PoolTheorems.ClientsNumber | matrix/devdrvd/src/control_daemon.c:49-51 | while no slot lock is held, clients_number is the number of taken slots; it never drops below zero |
| PoolTheorems.OneFeedPerClient | matrix/devdrvd/src/control_daemon.c:55-62 | a taken slot has exactly one feed thread, started or about to be; a free slot has none |
| PoolTheorems.UnregisteredOnce | matrix/devdrvd/src/control_daemon.c:190-192 | a thread that unregisters finds its own client in the slot with all descriptors open |
| PoolTheorems.RefusedLeak | matrix/devdrvd/src/control_daemon.c:254-267 | at rest, three descriptors per client and two per refused connection are open |
| PoolTheorems.RefusedReachable | matrix/devdrvd/src/control_daemon.c:261-267 | a run that refuses a connection: the text of the refusal is sent, and both ends of the pipe stay open |
| PoolAdmission.TakenWhenPassed | matrix/devdrvd/src/control_daemon.c:42-66 | over every run of any threads: each slot that the accept thread has passed in a scan was taken while it was inside its lock, and is taken at the end unless a feed thread has cleared it since; so with none on its way out a connection is refused only when all are taken |
| PoolAdmission.RefusesAtEnd | matrix/devdrvd/src/control_daemon.c:61-67 | only an accept thread that has been through all slots refuses |
| PoolAdmission.AcceptAlone | matrix/devdrvd/src/control_daemon.c:39-67 | while no lock is held, the steps of the accept thread alone put the connection into the first free slot, count it and start one feed thread, all locks free again; without a free slot they refuse it and change no slot |
| PoolAdmission.RefusedIffFull | matrix/devdrvd/src/control_daemon.c:39-67 | in a reachable state, these steps lead back to listening, with a refusal if and only if every slot is taken |
| PoolAdmission.LeaveAlone | matrix/devdrvd/src/devdrvd.c:245-265 | while no lock is held, the steps of a feed thread on its way out free its slot, close its three descriptors and count its client off |
| PoolProgress.LockOrder | matrix/devdrvd/src/devdrvd.c:914-938 | whoever holds a lock asks only for a lock later in the order connect_lock, slot lock, client_lock |
| PoolProgress.NoWaitCycle | matrix/devdrvd/src/devdrvd.c:914-1073 | no reachable state has a circle of waiting threads |
| PoolProgress.NoDeadlock | matrix/devdrvd/src/devdrvd.c:914-1073 | the thread at the end of any chain of waiting can step, if and only if it is not a wait for connect_lock after the shutdown path kept it |
| PoolProgress.StrandedForever | matrix/devdrvd/src/devdrvd.c:945-951 | after that path, a connect thread that waits for connect_lock waits in every continuation of the run |
| PoolProgress.StrandedReachable | matrix/devdrvd/src/devdrvd.c:945-951 | a run that takes that path while a connect thread waits |
| Framing.FeedConcat | matrix/libpack/src/devdrvd_communication.c:42-154 | a stream cut in two gives the same packets and the same final state |
| Framing.ChunkIndependence | matrix/libpack/src/devdrvd_communication.c:42-154 | the same for any cut into calls, for every stream that stays within the receive buffer |
| Framing.PacketAtStop | matrix/libpack/src/devdrvd_communication.c:57-146 | for all bytes since the last packet: number, length and content of the packet, the counters, and a clean state after it |
| Framing.PacketExact | matrix/libpack/src/devdrvd_communication.c:57-146 | the packet is exactly the frame if and only if the bytes begin with their only start character |
| Framing.ShortFits | matrix/libpack/src/devdrvd_communication.c:57-60 | fewer bytes than the buffer holds never leave it, whatever they are |
| Framing.Receiver.Take | matrix/libpack/src/devdrvd_communication.c:57-146 | one byte: new state and completed packet are those of the state machine |
| Framing.Receiver.ParseBuffer | matrix/libpack/src/devdrvd_communication.c:42-154 | one call: packets in order and new static state |
| Discrete.UnpackReads | matrix/libpack/src/devdrvd_communication.c:208-248 | unpacking a packed record reads the low 32 bits of the time, and channel and value unchanged |
| Discrete.PackedText | matrix/libpack/src/devdrvd_communication.c:208-222 | a packed record, byte by byte: start character, the two letters, seconds, microseconds with at least six digits, channel and value in decimal notation with their separators, stop character |
| Discrete.DiscreteRoundTrip | matrix/libpack/src/devdrvd_communication.c:208-248 | a record survives if and only if its seconds and microseconds fit unsigned 32-bit numbers |
| Discrete.EndToEnd | matrix/libpack/src/devdrvd_communication.c:42-248 | packed records sent in any pieces come out as the same packets, none lost, none bad, and unpack to the records, the time modulo 2^32 |
| Crc16.TableDivides | matrix/libpack/src/crc16.c:13-46 | every table entry is its index divided eight times by the reflected polynomial |
| Crc16.ByteIsBits | matrix/libpack/include/crc16.h:25-28 | one table step is eight steps of bitwise division, for every register and byte |
| Crc16.Crc | matrix/libpack/src/crc16.c:56-61 | the loop computes the bitwise checksum of the buffer from any start value |
| Crc16.CrcConcat | matrix/libpack/src/crc16.c:56-61 | the checksum of two buffers is that of the second started from that of the first |
| Crc16.CrcXor | matrix/libpack/include/crc16.h:25-28 | the checksum is linear over exclusive or |
| Crc16.CrcInjective | matrix/libpack/include/crc16.h:25-28 | the same bytes after different registers give different checksums |
| Crc16.TwoByteErrorsDetected | matrix/libpack/include/crc16.h:4-7 | messages that differ only within two adjacent bytes have different checksums |
| CrcBursts.CrcIsBits | matrix/libpack/include/crc16.h:25-28 | the checksum is what the register holds after the bits of the message, one after the other, the lowest of each byte first |
| CrcBursts.BurstErrorsDetected | matrix/libpack/include/crc16.h:4-7 | messages that differ only within sixteen bits in a row, in whatever bytes these are, have different checksums |
| CrcBursts.LongerBurstMissed | matrix/libpack/include/crc16.h:4-7 | two messages that differ in a burst of seventeen bits and have the same checksum after every register |
| Crc16.OddErrorsDetected | matrix/libpack/include/crc16.h:4-7 | messages that differ in an odd number of bits have different checksums |
| Calibration.Channel.InitLinearSections | matrix/matrixlib_cc/matrixlib.cc:147-159 | one point of weight zero at the calibrated zero |
| Calibration.Channel.CorrectionZeroLinearSections | matrix/matrixlib_cc/matrixlib.cc:162-175 | every raw value moves by the difference, nothing else changes |
| Calibration.Channel.CalcLinearRatio | matrix/matrixlib_cc/matrixlib.cc:177-195 | the loop gives every point the slope to its successor and the last one the slope before |
| Calibration.Channel.SetCalibrationGane | matrix/matrixlib_cc/matrixlib.cc:198-236 | insert or replace at the place of the weight, slopes recomputed, new size returned |
| Calibration.Channel.EraseAbove | matrix/matrixlib_cc/set_maximum_channel.cc:36-42 | the backward erase loop keeps exactly the points not above the maximum, in order |
| Calibration.Channel.Perform | matrix/matrixlib_cc/set_calibrate_gane.cc:38-48 | every command past the system checks: new channel state and return code |
| CalibrationRuns.System.GetIdxChannel | matrix/matrixlib_cc/matrixlib.cc:133-144 | the first channel with the number, or -1 |
| CalibrationRuns.System.Handle | matrix/matrixlib_cc/set_calibrate_zero_correction.cc:26-56 | checks and error codes of the four handlers, as a function of the old configuration; no channel but the one with the index found is touched |
| CalibrationRuns.RunPerChannel | matrix/matrixlib_cc/set_calibrate_gane.cc:31-36 | over every run of requests, the first channel with a number is where just the admitted commands for this number lead it, and no other channel changes |
| CalibrationRuns.HeldBack | matrix/matrixlib_cc/set_calibrate_gane.cc:24-33 | the codes of requests that do not reach a channel, each exactly when the flags or the number are so; nothing changes then |
| CalibrationRuns.ReachedCodes | matrix/matrixlib_cc/set_calibrate_gane.cc:38-48 | the codes of requests that reach their channel, each exactly when its state is so; the positive code is the size of the table |
| CalibrationRuns.ZeroStarts | matrix/matrixlib_cc/set_calibrate_zero.cc:36-43 | after a zero calibration the zero is the value measured and the table one point with this raw value and weight zero |
| CalibrationRuns.CorrectionTaken | matrix/matrixlib_cc/set_calibrate_zero_correction.cc:44-54 | an accepted zero correction leaves the value measured as the zero, and its distance from the one before |
| CalibrationRuns.RunIncreasing | matrix/matrixlib_cc/matrixlib.cc:147-236 | over every run of requests to any channels, all tables keep strictly increasing weights |
| CalibrationRuns.GainIsMapUpdate | matrix/matrixlib_cc/set_calibrate_gane.cc:38-48 | an accepted gain calibration is a map update from weight to raw value, a refused one changes nothing |
| CalibrationRuns.CorrectionsTelescope | matrix/matrixlib_cc/set_calibrate_zero_correction.cc:44-54 | over any zero corrections no point moves against the zero |
| CalibrationRuns.CorrectionsEnd | matrix/matrixlib_cc/set_calibrate_zero_correction.cc:44-54 | they end at the last value if and only if that is -1 or none before it was -1 |
| CalibrationRuns.StuckAtMinusOne | matrix/matrixlib_cc/set_calibrate_gane.cc:41-43 | once the zero is -1, no run of corrections and gain calibrations changes anything in the channel |
| CalibrationRuns.SlopeExact | matrix/matrixlib_cc/matrixlib.cc:184-187 | a slope is a number exactly between different raw values, and then leads to the next point |
| CalibrationRuns.RunFromZero | matrix/matrixlib_cc/set_calibrate_zero.cc:39-43 | after a zero calibration, over every run without a new maximum, weights increase and every slope is right |
| CalibrationRuns.MaximumFiltersRaw | matrix/matrixlib_cc/set_maximum_channel.cc:36-42 | the points that stay are those whose raw value is at most the maximum weight, once each and in their order |
| CalibrationRuns.MaximumSlopes | matrix/matrixlib_cc/set_maximum_channel.cc:32-43 | for every table with right slopes: they stay right if and only if fewer than two points stay, or kept points that become neighbours lie in line with the point behind the first, and the last kept point has the slope of the one before it |
| CalibrationRuns.MaximumLeavesStaleSlope | matrix/matrixlib_cc/set_maximum_channel.cc:32-43 | four commands, two gain calibrations with falling raw values and a maximum among them, after which both slopes are wrong |
| CalibrationRuns.GainRepairsSlopes | matrix/matrixlib_cc/matrixlib.cc:177-236 | an accepted gain calibration makes all slopes right, whatever the table was, and they stay so until the next new maximum |
| FormatString.CheckFormat | matrix/mosquitto-2.0.15/client/client_shared.c:47-183 | 0 exactly for the formats of the directive grammar |
| FormatString.FormattedPrint | matrix/mosquitto-2.0.15/client/sub_client_output.c:641-772 | the pieces printed, in order, for every format, accepted or not |
| FormatString.ScannersAgree | matrix/mosquitto-2.0.15/client/sub_client_output.c:453-772 | check_format accepts a format if and only if formatted_print drops nothing of it, and then both cut it at the same places |
| FormatString.SamePiece | matrix/mosquitto-2.0.15/client/client_shared.c:53-179 | piece by piece: in order for check_format if and only if something is printed for it, and then with the same end |
| FormatString.ConversionsAgree | matrix/mosquitto-2.0.15/client/client_shared.c:101-150 | the conversions that check_format compares with are exactly those with a case in formatted_print_percent |
| FormatString.EscapesAgree | matrix/mosquitto-2.0.15/client/client_shared.c:162-176 | the escapes that check_format accepts are exactly those with a case in formatted_print |
| FormatString.CasesDiffer | matrix/mosquitto-2.0.15/client/sub_client_output.c:465-637 | no two conversions print the same thing, no two escapes the same character |
| FormatString.DirectiveFields | matrix/mosquitto-2.0.15/client/sub_client_output.c:655-700 | in an accepted directive width and precision are the numbers its digits spell, the flags those that stand in front, and what is printed is the case of its last character |
| FormatGrammar.PartPrinted | matrix/mosquitto-2.0.15/client/sub_client_output.c:641-772 | wherever a part of the format language stands, it is printed as the manual page says: a character itself, `@@` an @, other time fields, the character of each escape, and for a directive the content of its letter with alignment, zero flag, width and precision; and the printer goes on behind it |
| FormatGrammar.PartsPrinted | matrix/mosquitto-2.0.15/client/sub_client_output.c:641-772 | a stretch of parts, or a whole format of the language, is printed part by part in order |
| FormatGrammar.PlainPrinted | matrix/mosquitto-2.0.15/client/sub_client_output.c:764-766 | a stretch without the three sequence characters is printed as it is, character by character, wherever it stands |
| FormatGrammar.PieceDropped | matrix/mosquitto-2.0.15/client/sub_client_output.c:641-772 | what is not of the language is dropped: a directive with its letter, an escape with its letter, and one that the end cuts off |
| FormatGrammar.AcceptedLanguage | matrix/mosquitto-2.0.15/client/client_shared.c:47-183 | check_format accepts exactly the formats of the language: the texts that are spelled by its parts |
| RegisterImage.PackStr | matrix/bessel-kiss/mdb/serialize.c:16-31 | length register and packed bytes over whatever the memory held, an odd byte padded with zero |
| RegisterImage.SerializeDb | matrix/bessel-kiss/mdb/serialize.c:34-54 | writes exactly the image and returns its length; memory behind it is untouched |
| RegisterImage.ImageReadsBack | matrix/bessel-kiss/mdb/serialize.c:16-54 | the image tells its own length and decodes to the database, whatever follows it |
| RegisterImage.ImageLayout | matrix/bessel-kiss/mdb/serialize.c:34-54 | the place of every field in the image, each byte of a string in its half of a register, and the length of the image |
| RegisterImage.ProcRead | matrix/bessel-kiss/mdb/mdb.c:56-97 | the reply overwrites the request in place: length fields, byte count and swapped registers, nothing else, also for no registers at all |
| RegisterImage.ReplyAnswers | matrix/bessel-kiss/mdb/mdb.c:71-84 | byte count 2n, length field 2n + 3, high byte first: the reply reads back as the registers asked for |
| RegisterImage.ReplyBytes | matrix/bessel-kiss/mdb/mdb.c:71-84 | byte by byte: length field, byte count, each register with its high byte first, and every other byte that of the request |
| RegisterImage.RequestAnswered | matrix/bessel-kiss/mdb/mdb.c:56-84 | a request of section 6.4 of MODBUS Application Protocol is taken for what was put into it, and the reply repeats transaction, unit and function code |
| RegisterImage.CoverRebuilds | matrix/bessel-kiss/mdb/mdb.c:71-84 | from the replies to any reads, whatever the buffers and the uninitialised registers held, the first registers are collected exactly if they are covered, and any number of them that includes the image reads back as the database |

## Left out

- cJSON number text: `%1.15g`, `%1.17g` and rounding in `strtod`; printed numbers are the int-valued ones, read values are exact reals.
- cJSON allocation failures, hooks, null names and null strings; lengths stay below the limits where `int` or `size_t` would wrap.
- cJSON trees as linked items: parser and printer work on tree values, only the list edits of Siblings relink items.
- cJSON references, duplicate, compare, lookup by name and the add-by-name helpers: short bodies over the edits above.
- AcceptedDocuments: says nothing of texts with a malformed `\u` escape, which are no texts of the grammar and may be accepted; string characters are bytes, and that they form UTF-8 is asked neither of the text nor by the code.
- MinifyStrips: texts with a string that ends in an escaped backslash are left to MinifyKeepsValue.
- MinifyKeepsValue: as to strings one direction; a document that loses a byte of a string can keep its value when the parser cuts that string at a character 0 before it (HarmUnseen). Bytes behind the value count as well when no NUL is required.
- ParseNumber: the value is an exact real; the rounding of `strtod` to a double is not modelled.
- ParseArray: gives the children as a sequence of trees; the sibling links that the loop sets are not modelled.
- ParseObject: the same.
- PrintNumber: takes numbers that equal their integer field; the text of fractional numbers, NaN and infinity is not modelled.
- uthash out-of-memory variants, `HASH_SELECT`, `HASH_CLEAR` and the built-in hash functions; keys are values, one handle per element, unbounded counters.
- Add: does not model a second element with a key that the table already has, which the macros leave to the caller.
- utlist `LL_` and `CDL_` lists: the same edits on single links and on closed rings.
- Client pool: failing thread creation, failing or partial writes, `emulation_loop`, which tests a slot before locking it, and the normal end of the dispatcher loop.
- FeedAnswer: what the client sent is not modelled, it is answered whatever it is.
- Calibration slopes as `float`; sums and differences do not wrap; the configuration file and the processing of measurements.
- pack_weight, unpack_weight, pack_error and unpack_error: floats, and fields that the pattern does not match.
- Framing: does not model streams that leave the 512-byte receive buffer, for which the C code has no defined result.
- Unpack: reads that would run past the end of the data give no record.
- FormattedPrint: stops at the pieces; the text of times, payloads and properties is not modelled, and widths do not wrap.
- CoverRebuilds: the database is taken to stay the same between the reads.
- ProcRead: only function 0x04 with stretches inside the 120 registers of `rt_db`; registers are those of a little-endian host, as the byte swap of the code expects. Function 0x10 always writes one register number and has no clean specification.
- Sockets, select, signals, logging, configuration, PostgreSQL and libmosquitto calls.
