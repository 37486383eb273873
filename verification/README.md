# Verified model of the JSON engine, the edge linker and the record store

This project models three parts of the satellite-image server in Dafny and proves what they
are relied on for.

* **The JSON engine** (`lib/cJSON/src/cJSON.c`). Trees are heap objects with C strings in
  arrays, linked the way the library links them; an allocator that may fail at any call keeps a
  ghost ledger of the live blocks. `Json.J` is the value a tree stands for (`Node.Denotes`).
  The parser refines the pure parser of `ParseSpec`, the printer the pure `Rendering.Render`;
  the round trip, exact buffer sizes, growth costs, conservation of blocks, minifying, list
  edits, copies and comparison are proved on top of that. What these pure functions compute is
  also stated without them: the accepted texts by a grammar (`Grammar`, `Numerals`, `Unicode`),
  the printed layout by a scanner (`Layout`), minifying by the pieces of a text (`Lexemes`),
  and the two key modes of lookups byte by byte (`Comparison.SameKey`).
* **The edge linker** (`lib/cannyEdgeFilter/src/cannyEdgeFilter.cpp`). The recursive in-place
  marking is an imperative method on two-dimensional arrays; the parallel loop is a state
  machine whose steps are single accesses to the shared matrices.
* **The record store and the supplies** (`src/server/server.cpp`, `include/utils.hpp`,
  `lib/myRocksDbWrapper`, `lib/suppliesData`). RocksDB is a map from byte strings to byte
  strings. Alert ids and stock levels are followed over the same runs, with restarts and
  failures at any put; the stock goes through the JSON printer and parser each time.

Modules, from the bottom up:

| file | contents |
|---|---|
| `Bytes`, `Json`, `Numbers`, `Strings`, `Unicode` | bytes and C strings; trees as values; numbers as text; string literals and the two scans over them; UTF-8 |
| `Rendering`, `ParseSpec`, `RoundTrip` | the printed text, the parser as pure functions, and parsing what was printed |
| `Numerals`, `Grammar` | the numbers and the texts the parser accepts, by positions in the text |
| `Layout` | the layout of printed trees |
| `Nodes`, `LiteralParser`, `TreeParser` | heap trees, allocator and deletion; the parser |
| `PrintBuffers`, `TreePrinter` | the growing or fixed output buffer; the printer |
| `ChildList`, `TreeCopy` | edits of child lists; duplication |
| `Comparison`, `TreeCompare` | what comparing decides; comparing on the heap |
| `Minify` (module `Minifying`), `Lexemes`, `MinifyPrinted` | minifying in place; what it keeps; minifying printed trees |
| `TreeRoundTrip` | what these operations on trees come to one after the other |
| `Canny`, `CannyInterleaving` | linking by one thread and by many |
| `KeyValueStore`, `AlertRecords` | the database wrapper; record keys, ids and the REST lookup |
| `Supplies`, `SuppliesStore`, `StockTexts` | supplies as stored text; updates of the stock; the stored texts letter by letter |
| `AlertRuns`, `ServerRuns` | the ids of alerts over runs of events; the server's handlers and whole runs |

Conventions. `byte` is an integer below 256, so shifts and masks are written as arithmetic.
`J.Num(n)` is a number whose double equals the 32-bit integer `n`; `J.Inexact(n)` is any other
number, of which the model keeps the saturated `valueint`. Doubles are exact reals. A loop of
the source that would be too large for one proof is split into a method per turn. Where a check
of the source cannot fire under the stated preconditions, a comment says so.

Findings that differ from what the code's own documentation suggests; the model follows the code:

* `cJSON_PrintPreallocated` needs exactly two bytes more than the text, so the advice to allow
  five (`lib/cJSON/include/cJSON.h:162`) is sufficient but not tight.
* `\u` followed by characters that are not all hexadecimal digits counts as code point 0, and is
  accepted, if six bytes are left before the closing quote; only the second half of a surrogate
  pair must be hexadecimal (`Unicode.NotHexadecimal`, `Unicode.AcceptedExactly`).
* Minifying a formatted print does not give the unformatted print for every tree:
  `MinifyPrinted.MinifyFormatted` has the exact condition.
* Edge linking keeps every pixel that reaches the low threshold, whether or not it is connected
  to a strong one (compare `lib/cannyEdgeFilter/include/cannyEdgeFilter.hpp`): the loop visits
  and promotes every weak pixel.
* Comparing a tree with its own copy can fail when an object has two members under one key:
  `Comparison.ReflexiveIffConsistent`.
* Alert ids are not always distinct. An alert of which only the first or the first two of its
  three puts take effect is on record with an id above the stored last one
  (`AlertRecords.CutShortExactly`). If the process ends there, the next one counts on from the
  stored last id and reaches the id again after as many alerts as the first process had handed
  out ids since (`AlertRuns.IdReused`); the two are then two records under one id, or the later
  replaces the earlier, depending on their time stamps (`AlertRuns.ReuseOnRecord`).
  `AlertRuns.IncreasingExactly` and `AlertRuns.DistinctExactly` have the exact conditions for
  the ids of a run to be distinct and increasing, and to be distinct.

## Model

| member | source | states |
|---|---|---|
| Numbers.DecFits | lib/cJSON/src/cJSON.c:550-617 | the text of a 32-bit integer has at most 11 characters, well within the 25 of the number buffer |
| Numbers.StrtodReadsDec | lib/cJSON/src/cJSON.c:305-379 | strtod consumes the whole of a printed integer and yields that integer |
| Numerals.StrtodExact | lib/cJSON/src/cJSON.c:348-359 | strtod reads a sign or none, digits, a fraction and an exponent, each as long as possible, with their positional value, and nothing if there is no digit |
| Numerals.SaturateExact | lib/cJSON/src/cJSON.c:361-373 | the conversion to valueint truncates toward zero between the limits of 32 bits and saturates at both ends |
| Numerals.NumberExact | lib/cJSON/src/cJSON.c:305-379 | a number is parsed exactly if a numeral stands there within the first 63 of its possible characters, and is that numeral's value, exact if it is an integer of 32 bits |
| Numerals.DecExact | lib/cJSON/src/cJSON.c:550-617 | an integer is printed with a minus exactly if it is negative, without zeros in front, and with its positional value |
| Numbers.SaturateOfInt | lib/cJSON/src/cJSON.c:361-373 | saturation leaves 32-bit integers as they are |
| Strings.LiteralEndExact | lib/cJSON/src/cJSON.c:795-813 | the end of a literal is the first quote with an even number of backslashes right before it, or there is none |
| Strings.EscapeByteExact | lib/cJSON/src/cJSON.c:977-1023 | quote, backslash and five control characters print as their escapes of two characters, other bytes below 32 as a code in lower-case digits, all others as they are |
| Strings.Hex4Exact | lib/cJSON/src/cJSON.c:620-652 | parse_hex4 yields the code that four bytes spell, each a digit by its place in 0123456789abcdef or 0123456789ABCDEF, and 0 if one is none |
| Strings.TwoScanBound | lib/cJSON/src/cJSON.c:791-882 | whatever the input, the bytes the second scan writes and the final NUL stay within the size the first scan allocates, with a byte to spare |
| Strings.BudgetStep | lib/cJSON/src/cJSON.c:826-882 | one turn of the second scan writes no more than the first scan allowed for the bytes it consumes, also where the scans disagree on which backslashes are escapes |
| Strings.UnescapeReadsEscape | lib/cJSON/src/cJSON.c:778-904 | both scans take an escaped string back to the string it was printed from |
| Unicode.SpelledLiteralIsUtf8 | lib/cJSON/src/cJSON.c:657-775 | any sequence of scalar values spelled as escapes and surrogate pairs becomes UTF-8 that a reference decoder reads back |
| Unicode.EncodeOfDecode | lib/cJSON/src/cJSON.c:720-769 | the encoding is the shortest form: whatever the decoder of section 4 of RFC 3629 accepts is the encoding of what it decodes to |
| Unicode.LoneSurrogateRejected | lib/cJSON/src/cJSON.c:667-718 | the escape of a lone or mispaired surrogate, in digits of either case, makes the literal fail |
| Unicode.NotHexadecimal | lib/cJSON/src/cJSON.c:620-775 | digits that are not hexadecimal count as code point 0, but are rejected in the second half of a surrogate pair |
| Unicode.PiecesAccepted | lib/cJSON/src/cJSON.c:826-882 | a literal of plain bytes, simple escapes, codes that are no surrogates, and hexadecimal surrogate pairs is accepted, and yields what its pieces stand for |
| Unicode.AcceptedExactly | lib/cJSON/src/cJSON.c:826-882 | the accepted literals are exactly those that consist of such pieces |
| Rendering.RenderHasNoNul | lib/cJSON/src/cJSON.c:1372-1443 | the printed text of any tree is one C string |
| RoundTrip.ParseLiteral | lib/cJSON/src/cJSON.c:907-1026 | a printed string literal parses to its string, and to its end |
| RoundTrip.ParseDec | lib/cJSON/src/cJSON.c:305-379 | a printed integer parses to itself, if no number character follows |
| RoundTrip.ParseRendered | lib/cJSON/src/cJSON.c:1317-1830 | wherever a printed value stands, in either layout, the parser gives it back with order and repeated keys kept if the nesting allows it, and fails otherwise |
| RoundTrip.ParseRenderedItems | lib/cJSON/src/cJSON.c:1446-1603 | the same for the elements of an array |
| RoundTrip.ParseRenderedMembers | lib/cJSON/src/cJSON.c:1606-1830 | the same for the members of an object |
| RoundTrip.ParsePrinted | lib/cJSON/src/cJSON.c:1100-1177 | the whole printed text of any tree parses to that tree, its strings and keys cut at their first NUL, exactly if the tree is nested at most 1000 deep, whatever stands behind the NUL |
| Layout.RenderIsLaid | lib/cJSON/src/cJSON.c:1544-1830 | in a formatted tree every opening brace and every member ends its line, each line has as many tabs as brackets and braces are open, one fewer before a closing brace, one tab follows each colon, one space each comma between elements, and there is no other blank outside string literals; in any surroundings laid out this way |
| Layout.RenderIsUnspaced | lib/cJSON/src/cJSON.c:1544-1830 | an unformatted tree has no blank outside string literals |
| Layout.PrintIsLaid | lib/cJSON/src/cJSON.c:1192-1265 | whole prints of either kind |
| Grammar.QuotedExact | lib/cJSON/src/cJSON.c:778-904 | a string is parsed exactly if a literal stands there: from a quote to the first one with an even number of backslashes before it, made of the pieces of Unicode.AcceptedExactly, with their meanings |
| Grammar.ParsesExactly | lib/cJSON/src/cJSON.c:1317-1716 | at any offset and depth the parser yields exactly the values the grammar derives there, with bytes of at most 32 around every bracket, brace, comma, colon, key and value, nested at most 1000 deep |
| Grammar.AcceptsExactly | lib/cJSON/src/cJSON.c:1068-1177 | a whole text is parsed to a value and an end exactly if it is that value between blanks, behind a byte order mark or none, and, if termination is required, with blanks only up to the end of the buffer |
| Grammar.RefusesExactly | lib/cJSON/src/cJSON.c:1100-1177 | and it is refused exactly if it is no value in this grammar |
| Grammar.StopsExactly | lib/cJSON/src/cJSON.c:1158-1177 | an error is reported at or behind the first byte that is no blank, and if only text behind the value is wrong at exactly the first such byte there |
| Nodes.Allocator.NewItem | lib/cJSON/src/cJSON.c:241-250 | a zeroed node enters the ledger, or the ledger stays as it is |
| Nodes.Allocator.Reallocate | lib/cJSON/src/cJSON.c:494-524 | a new block replaces the old one and keeps the bytes that fit, or nothing changes |
| Nodes.Allocator.Free | lib/cJSON/src/cJSON.c:253-274 | a block is freed only while it is live, and leaves the ledger |
| Nodes.Delete | lib/cJSON/src/cJSON.c:253-274 | deleting a list of trees frees each of their blocks exactly once and no other |
| LiteralParser.ParseBuffer.SkipWhitespace | lib/cJSON/src/cJSON.c:1043-1066 | the offset moves past blanks, but never past the last byte |
| LiteralParser.ParseBuffer.ParseNumber | lib/cJSON/src/cJSON.c:305-379 | succeeds exactly when a numeral stands at the offset; valuedouble is its value, valueint that value truncated and saturated, and the offset moves behind it; a failure changes nothing |
| LiteralParser.ParseBuffer.ParseHex4 | lib/cJSON/src/cJSON.c:620-652 | the code four bytes spell in hexadecimal digits of either case, or 0 when they spell none |
| LiteralParser.ParseBuffer.Utf16LiteralToUtf8 | lib/cJSON/src/cJSON.c:657-775 | writes exactly the specified bytes behind the output and reports the input length, 0 for a bad sequence |
| LiteralParser.ParseBuffer.MeasureLiteral | lib/cJSON/src/cJSON.c:795-813 | finds the end of the literal and counts its escapes |
| LiteralParser.ParseBuffer.UnescapeInto | lib/cJSON/src/cJSON.c:826-882 | writes the unescaped string without leaving the block, and fails exactly when the specification does |
| LiteralParser.ParseBuffer.ParseString | lib/cJSON/src/cJSON.c:778-904 | on success the item owns one new block with the string; on failure the item and the ledger are unchanged |
| TreeParser.ParseValue | lib/cJSON/src/cJSON.c:1317-1369 | refines the specification from any offset and depth; the item becomes a tree for the value, the offset its end; a failure frees all but the item |
| TreeParser.ParseElements | lib/cJSON/src/cJSON.c:1478-1513 | the loop over elements builds a well-linked list for exactly the specified values, and releases it when it fails |
| TreeParser.ParseArray | lib/cJSON/src/cJSON.c:1446-1541 | an array item for the specified elements, or nothing left allocated |
| TreeParser.ParseMembers | lib/cJSON/src/cJSON.c:1636-1689 | the loop over members builds a named, well-linked list for the specified members, and releases it when it fails |
| TreeParser.ParseObject | lib/cJSON/src/cJSON.c:1606-1716 | an object item for the specified members, or nothing left allocated |
| TreeParser.Parse | lib/cJSON/src/cJSON.c:1100-1177 | for every input and pattern of allocation failures: a tree for the value the grammar accepts the text as, with its end, owning exactly the newly live blocks; its root in no list; or null, for a text the grammar refuses or without memory, with the ledger as it was and the error position of Grammar.StopsExactly |
| PrintBuffers.PrintBuffer.Ensure | lib/cJSON/src/cJSON.c:444-527 | room for the request and one byte more, the text so far kept; it fails only at the limit or without memory, never in a fixed buffer that is large enough; the buffer at most doubles what is needed |
| PrintBuffers.PrintBuffer.UpdateOffset | lib/cJSON/src/cJSON.c:530-540 | the offset moves to the end of the C string it is at |
| PrintBuffers.PrintBuffer.PrintNumber | lib/cJSON/src/cJSON.c:550-617 | appends the decimal text of an integer |
| PrintBuffers.PrintBuffer.MeasureEscapes | lib/cJSON/src/cJSON.c:934-958 | computes the length of the escaped string |
| PrintBuffers.PrintBuffer.CopyEscaped | lib/cJSON/src/cJSON.c:977-1023 | writes the escaped string behind the opening quote |
| PrintBuffers.PrintBuffer.PrintStringPtr | lib/cJSON/src/cJSON.c:907-1026 | what print_string_ptr leaves at the offset is the literal of the C string |
| TreePrinter.PrintValue | lib/cJSON/src/cJSON.c:1372-1443 | whichever branch advances the offset, the text before it and at it is the old text and the rendering; it fails only if rendering and two bytes exceed the limit, or memory runs out |
| TreePrinter.PrintArray | lib/cJSON/src/cJSON.c:1544-1603 | the same for arrays, depth restored |
| TreePrinter.PrintObject | lib/cJSON/src/cJSON.c:1719-1830 | the same for objects, depth restored |
| TreePrinter.Print | lib/cJSON/src/cJSON.c:1192-1265 | a block of exactly the text and its NUL; regrowths copy at most twice the final buffer, which is at most max(256, 2 * (text + 2)); the text is laid out as in Layout.PrintIsLaid; nothing else stays allocated |
| TreePrinter.PrintBuffered | lib/cJSON/src/cJSON.c:1267-1295 | the same text in the working buffer, for every size to start with |
| TreePrinter.PrintPreallocated | lib/cJSON/src/cJSON.c:1297-1314 | succeeds if and only if the buffer has two bytes more than the text, and then holds it |
| ChildList.AddItemToArray | lib/cJSON/src/cJSON.c:1961-1992 | appends to the sequence of children, and to the array or object the parent stands for, and keeps all links; refuses null and adding a node to itself |
| ChildList.GetArrayItem | lib/cJSON/src/cJSON.c:1856-1883 | the child at an index, null outside the list |
| ChildList.InsertItemInArray | lib/cJSON/src/cJSON.c:2268-2300 | inserts at the index, or at the end if there is no such index, among the children and in the value the parent stands for |
| ChildList.InsertPlaces | lib/cJSON/src/cJSON.c:2268-2300 | inserting at an index keeps what stands before it, moves the rest by one, and is undone by removing there |
| ChildList.DetachItemViaPointer | lib/cJSON/src/cJSON.c:2192-2226 | removes a child, also from the value the parent stands for; it becomes a tree of its own that stands for what it did and may be added again |
| ChildList.DetachItemFromArray | lib/cJSON/src/cJSON.c:2228-2236 | the same by index |
| ChildList.DeleteItemFromArray | lib/cJSON/src/cJSON.c:2238-2241 | removes a child and frees exactly its blocks |
| ChildList.ReplaceItemViaPointer | lib/cJSON/src/cJSON.c:2302-2349 | puts another tree in the place of a child, also in the value the parent stands for, and frees the child's blocks; replacing an item by itself changes nothing |
| ChildList.ReplaceItemInArray | lib/cJSON/src/cJSON.c:2351-2359 | the same by index |
| ChildList.BlocksOfInsert | lib/cJSON/src/cJSON.c:2268-2300 | a list with a separate tree put in owns the blocks of both, still pairwise disjoint |
| ChildList.BlocksOfRemove | lib/cJSON/src/cJSON.c:2192-2226 | taking a tree out of a list leaves the blocks of the others, apart from those of the tree |
| TreeCopy.Strdup | lib/cJSON/src/cJSON.c:188-206 | a new block with the C string |
| TreeCopy.Duplicate | lib/cJSON/src/cJSON.c:2716-2797 | a separate tree that stands for the same value, strings and keys cut at NULs, or, if not recursive, a node with the same number, string and name but no children; without memory nothing stays allocated |
| TreeCopy.MeansOfCut | lib/cJSON/src/cJSON.c:2716-2797 | the cut changes neither the meaning nor the consistency of a tree |
| TreeCopy.CopyComparesEqual | lib/cJSON/src/cJSON.c:2996-3119 | a copy compares equal to its original exactly if the original is consistent |
| Comparison.SameKeyExact | lib/cJSON/src/cJSON.c:133-156 | keys fold to the same text exactly if they are equal as C strings or, when case is ignored, equally long and at each index the same byte or the two cases of one ASCII letter |
| Comparison.FindsFirst | lib/cJSON/src/cJSON.c:1885-1915 | a lookup finds the first member under the same key in this sense, in either mode, and none if there is none |
| Comparison.FirstAtIsFirst | lib/cJSON/src/cJSON.c:1885-1915 | a lookup finds the first member under the folded key, or there is none |
| Comparison.CmpDecides | lib/cJSON/src/cJSON.c:2996-3119 | comparing equal means: both trees are consistent and have the same meaning, in which the order of members is lost |
| Comparison.Symmetric | lib/cJSON/src/cJSON.c:2996-3119 | comparing is symmetric on all trees, in either key mode |
| Comparison.Transitive | lib/cJSON/src/cJSON.c:2996-3119 | comparing is transitive on all trees, in either key mode |
| Comparison.ReflexiveIffConsistent | lib/cJSON/src/cJSON.c:3020-3024 | the shortcut for identical pointers agrees with the comparison exactly on consistent trees |
| Comparison.CmpOnUnambiguous | lib/cJSON/src/cJSON.c:2996-3119 | with distinct keys comparing decides equality of meaning, and is reflexive |
| Comparison.OrderIrrelevant | lib/cJSON/src/cJSON.c:3078-3112 | reordering the members of an object with distinct keys keeps its meaning |
| Comparison.CmpIffReordered | lib/cJSON/src/cJSON.c:2996-3119 | on trees with distinct keys comparing decides whether one tree is the other with members reordered, at any depth, their keys being the same in the mode of the lookup |
| TreeCompare.CompareDoubleOfInts | lib/cJSON/src/cJSON.c:543-547 | on 32-bit integers the comparison with tolerance is equality |
| TreeCompare.CaseInsensitiveStrcmp | lib/cJSON/src/cJSON.c:133-156 | the order of two strings in lower case, that is, the difference of the first bytes in which they differ; 0 exactly if they are the same there |
| TreeCompare.GetObjectItem | lib/cJSON/src/cJSON.c:1885-1915 | the first child whose name is the same key in the mode of the lookup, at the index that the lookup on values finds, or null |
| TreeCompare.CompareArrays | lib/cJSON/src/cJSON.c:3054-3076 | computes the comparison of two arrays |
| TreeCompare.CompareEach | lib/cJSON/src/cJSON.c:3078-3112 | each of the two loops over objects decides whether one object covers the other |
| TreeCompare.Compare | lib/cJSON/src/cJSON.c:2996-3119 | on separate trees, or a tree and itself, computes exactly the comparison of their values |
| TreeRoundTrip.ParseAndDelete | lib/cJSON/src/cJSON.c:1100-1177 | whatever the text and the failures, parsing it and deleting the tree once leaves the live blocks as they were |
| TreeRoundTrip.PrintAndParse | lib/cJSON/src/cJSON.c:1192-1265 | printing a tree and parsing the text gives a separate tree for the same value, strings and keys cut at NULs; only memory, size and nesting get in the way |
| TreeRoundTrip.CopyAndCompare | lib/cJSON/src/cJSON.c:2716-2797 | a tree and its duplicate compare equal exactly if the tree is consistent; deleting the duplicate leaves the live blocks as they were |
| TreeRoundTrip.PrintAndMinify | lib/cJSON/src/cJSON.c:2848-2894 | minifying the formatted print in place leaves the unformatted print exactly on the trees of MinifyFormatted |
| Minifying.MinIsClean | lib/cJSON/src/cJSON.c:2799-2894 | what minifying leaves has no blank and no slash outside what its scanner takes for strings |
| Minifying.FixedIffClean | lib/cJSON/src/cJSON.c:2799-2894 | minifying leaves exactly the clean texts alone |
| Minifying.Idempotent | lib/cJSON/src/cJSON.c:2848-2894 | minifying twice is minifying once |
| Minifying.SkipOnelineComment | lib/cJSON/src/cJSON.c:2799-2810 | stops behind the first newline, or at the NUL if there is none |
| Minifying.SkipMultilineComment | lib/cJSON/src/cJSON.c:2812-2824 | stops behind the first closing mark, or at the NUL if there is none |
| Minifying.MinifyString | lib/cJSON/src/cJSON.c:2826-2846 | moves a string, up to the first quote that no backslash directly precedes or to the NUL, down to the write cursor, never ahead of the read cursor, and touches nothing else |
| Minifying.Minify | lib/cJSON/src/cJSON.c:2848-2894 | the array holds the minified text as a C string, and behind its NUL what it held before |
| Lexemes.MinExactly | lib/cJSON/src/cJSON.c:2848-2894 | minifying leaves exactly what is kept of the pieces of the text: strings and other bytes stay; blanks, comments and lone slashes go; every text is made of such pieces |
| Lexemes.LineComment | lib/cJSON/src/cJSON.c:2799-2810 | behind any pieces, a one-line comment goes with its newline and what follows stays; one without a newline goes with all the rest |
| Lexemes.BlockComment | lib/cJSON/src/cJSON.c:2812-2824 | the same for a comment of many lines and its first closing mark |
| MinifyPrinted.SpanOfEscape | lib/cJSON/src/cJSON.c:2826-2846 | the scanner finds the closing quote of a printed string that does not end in a backslash |
| MinifyPrinted.SpanOfOpen | lib/cJSON/src/cJSON.c:2826-2846 | after a printed string that ends in a backslash it runs on to the next quote |
| MinifyPrinted.MinRender | lib/cJSON/src/cJSON.c:1719-1830 | in any surroundings, minifying a safe formatted value gives the unformatted one |
| MinifyPrinted.MinifyFormatted | lib/cJSON/src/cJSON.c:2848-2894 | minifying the formatted print gives the unformatted print if and only if no key ends in a backslash, nor any string but a last one below arrays only |
| Canny.EdgeDetection.ZeroBorder | lib/cannyEdgeFilter/src/cannyEdgeFilter.cpp:236-240 | the border becomes zero, all else stays |
| Canny.EdgeDetection.CheckContours | lib/cannyEdgeFilter/src/cannyEdgeFilter.cpp:245-272 | terminates inside the grid for every image without unmarked weak pixels at its border; clears only pixels that are neither weak nor strong, settles the pixel it is called for, and marks exactly that pixel and the straight diagonal runs of unmarked weak pixels the guard lets through |
| Canny.FirstMarks | lib/cannyEdgeFilter/src/cannyEdgeFilter.cpp:261-271 | a call from the loop over all pixels marks its pixel and one run in each of the four diagonal directions |
| Canny.RecursiveMarks | lib/cannyEdgeFilter/src/cannyEdgeFilter.cpp:267-269 | a recursive call only goes on in the direction it came in |
| Canny.EdgeDetection.Classify | lib/cannyEdgeFilter/src/cannyEdgeFilter.cpp:283-294 | the two matrices say which pixels reach which threshold |
| Canny.EdgeDetection.ApplyLinkingAndHysteresis | lib/cannyEdgeFilter/src/cannyEdgeFilter.cpp:274-312 | exactly the pixels that reach a threshold keep their value, all others become 0 |
| CannyInterleaving.CallsAreSides | lib/cannyEdgeFilter/src/cannyEdgeFilter.cpp:261-271 | the recursive calls are the neighbours the guard of the nested loops lets through |
| CannyInterleaving.StepInv | lib/cannyEdgeFilter/src/cannyEdgeFilter.cpp:245-272 | every step of every thread keeps the invariant |
| CannyInterleaving.StepDecreases | lib/cannyEdgeFilter/src/cannyEdgeFilter.cpp:245-272 | every step lowers the unmarked weak pixels, the late marks and the work left, in this order |
| CannyInterleaving.RunStaysInside | lib/cannyEdgeFilter/src/cannyEdgeFilter.cpp:299-312 | no interleaving accesses a pixel outside the grid |
| CannyInterleaving.RunComputesLinked | lib/cannyEdgeFilter/src/cannyEdgeFilter.cpp:299-312 | every interleaving that has ended has computed the sequential image |
| CannyInterleaving.Schedule | lib/cannyEdgeFilter/src/cannyEdgeFilter.cpp:299-312 | every schedule ends, and with that image |
| CannyInterleaving.UnsafeThresholdsLeaveTheGrid | lib/cannyEdgeFilter/src/cannyEdgeFilter.cpp:261-271 | with a low threshold of at most 0 below a positive high one, the first corner leads outside after three steps, so the condition on the thresholds is exact |
| CannyInterleaving.InsideIffSafe | lib/cannyEdgeFilter/src/cannyEdgeFilter.cpp:299-312 | on any image with a zero border, a run that ends has stayed inside the grid if and only if the thresholds are safe, whatever the threads and the schedule |
| KeyValueStore.Find | lib/myRocksDbWrapper/src/myRocksDbWrapper.cpp:116-121 | whether one string contains another |
| KeyValueStore.MatchingExact | lib/myRocksDbWrapper/src/myRocksDbWrapper.cpp:104-138 | the search results are exactly the entries whose keys contain all substrings |
| KeyValueStore.RocksDbWrapper.Put | lib/myRocksDbWrapper/src/myRocksDbWrapper.cpp:35-42 | the entry is set, all others stay |
| KeyValueStore.RocksDbWrapper.PutNext | lib/myRocksDbWrapper/src/myRocksDbWrapper.cpp:35-42 | the puts of a handler take effect in order, up to the first that fails |
| KeyValueStore.RocksDbWrapper.GetValueByKey | lib/myRocksDbWrapper/src/myRocksDbWrapper.cpp:67-80 | the value, or none for a missing key |
| KeyValueStore.RocksDbWrapper.GetJsonByKeySubstrings | lib/myRocksDbWrapper/src/myRocksDbWrapper.cpp:104-138 | the matching entries, in the order of the iterator |
| AlertRecords.SearchHits | src/server/server.cpp:1219-1219 | the key of an alert contains the searched parts exactly if the searched text is its id |
| AlertRecords.OtherRecordsAreNoAlerts | include/server.hpp:133-171 | no key of another kind of record contains the alert prefix |
| AlertRecords.FixedKeysAreNoAlerts | include/server.hpp:133-171 | nor do the fixed keys |
| AlertRecords.StoiOfId | src/server/server.cpp:1354-1370 | an id reads back as the number it was printed from |
| AlertRecords.IdGen.SetId | include/utils.hpp:179-182 | the next id is one more than the one given |
| AlertRecords.IdGen.GetNextId | include/utils.hpp:191-196 | hands out the counter as text and advances it |
| AlertRecords.HoldsAfterAlert | src/server/server.cpp:941-941 | the put of an alert adds it to those on record, under a new key or in the place of an alert with the same one |
| AlertRecords.HoldsAfterPuts | src/server/server.cpp:941-943 | any number of the puts of an alert keep the records right; only all three move the last id |
| AlertRecords.CutShortExactly | src/server/server.cpp:941-943 | a new alert is on record above the stored last id if and only if exactly one or two of its puts took effect |
| AlertRecords.TwoAlertsOneId | src/server/server.cpp:936-941 | two alerts under one id are two records exactly if their time stamps differ; otherwise the later has replaced the earlier |
| AlertRecords.AlertByIdFound | src/server/server.cpp:1218-1219 | a search by any id text finds exactly the alerts with this id; at most one record if and only if all of them have one time stamp, as when ids are distinct |
| AlertRecords.AllAlertsFound | src/server/server.cpp:1202-1205 | a search without id finds exactly the alerts |
| AlertRecords.HandleRestAlerts | src/server/server.cpp:1184-1238 | bad requests, all alerts, the alerts with an id, or not found, each exactly when due |
| AlertRuns.IncreasingExactly | src/server/server.cpp:34-38 | the ids a run puts on record are distinct and increasing if and only if no alert goes on record while ids beyond the next one are there, counted in ids lost and ids owed |
| AlertRuns.DistinctExactly | src/server/server.cpp:34-38 | the ids a run puts on record are distinct if and only if none is taken, counted from the stored last id, when it goes on record |
| AlertRuns.WholeAlertsPaid | src/server/server.cpp:935-950 | that is so whenever of each alert all puts take effect or none, whatever restarts there are |
| AlertRuns.OneProcessPaid | src/server/server.cpp:935-950 | and as long as the process goes on, whichever puts fail |
| AlertRuns.IdReused | src/server/server.cpp:935-950 | after one or two puts of an alert and a restart, as many recorded alerts as the old process had handed out ids since the stored one end with the same id |
| AlertRuns.ReuseOnRecord | src/server/server.cpp:1218-1219 | the two alerts under one id are two records that a search by the id finds, or the later has replaced the earlier, depending on their time stamps |
| AlertRecords.StoiExact | src/server/server.cpp:1354-1370 | an id is read from blanks, a sign or none, and digits as long as possible, whatever follows, if their value fits 32 bits, and from nothing else |
| ServerRuns.Server.GetLastId | src/server/server.cpp:1354-1370 | the stored id, or 0, which is then stored; no other entry changes |
| ServerRuns.Server.Start | src/server/server.cpp:34-64 | key by key, the database after a start: ids that cannot be read are 0, missing stocks have their initial texts, the start is the last event if its put takes effect, and nothing else changes; generators just past the stored ids |
| ServerRuns.Server.CheckAlerts | src/server/server.cpp:935-950 | the alert gets the next id and goes on record with the first put; for any number of puts, what stands under the record key, lastEvent and last_alert, all else being as before; the stock is left alone |
| ServerRuns.Server.RecordTcpUpdate | src/server/server.cpp:335-353 | for any number of puts, what stands under the record key, latestSupplies, last_supplies and lastEvent afterwards; no other entry changes, and so neither the alerts on record nor the stock |
| ServerRuns.Server.RecordUdpUpdate | src/server/server.cpp:502-519 | for any number of puts, what stands under last_supplies, the record key and lastEvent afterwards; no other entry changes, the latest supplies included, and neither do the alerts on record nor the stock |
| ServerRuns.Server.RecordNotification | src/server/server.cpp:1003-1017 | for any number of puts, what stands under the record key and lastEvent afterwards; no other entry changes, and so neither the alerts on record nor the stock |
| ServerRuns.StockKeepsAlerts | lib/suppliesData/src/supplies_module.c:200-272 | writing the stock leaves the alert records in the shared database alone |
| ServerRuns.AlertKeepsStock | src/server/server.cpp:941-943 | writing an alert leaves the stock alone |
| ServerRuns.Serve | src/server/server.cpp:92-136 | over any run of events, restarts and failures at any put: the alerts on record are exactly those put there, with the ids of the run, which are distinct and increasing, or just distinct, exactly under the two conditions of AlertRuns; and the stock read back at the end is, item by item, the clamped level of the changes that were written |
| Supplies.FieldFound | lib/suppliesData/src/supplies_module.c:100-104 | each name finds its own number in the stored object |
| Supplies.PrintedReads | lib/suppliesData/src/supplies_module.c:200-237 | the text written for any stock parses back to it, whatever bytes stand behind it in memory |
| Supplies.InitialReads | lib/suppliesData/src/supplies_module.c:34-70 | the initial texts, which are not in the printer's layout, read as a stock of nothing |
| StockTexts.FoodText | lib/suppliesData/src/supplies_module.c:200-237 | the text written for the food, name by name and number by number |
| StockTexts.MedicineText | lib/suppliesData/src/supplies_module.c:239-272 | the text written for the medicine |
| StockTexts.InitialTexts | lib/suppliesData/src/supplies_module.c:34-70 | the two initial texts |
| StockTexts.DeltaExact | lib/suppliesData/src/supplies_module.c:150-201 | the change of an item is the number under its name in the object under its section, the first members whose names are the same but for case, and 0 if there is none |
| SuppliesStore.InitSupplies | lib/suppliesData/src/supplies_module.c:7-71 | missing entries are initialised, present ones kept |
| SuppliesStore.InitialStock | lib/suppliesData/src/supplies_module.c:34-70 | after that the database holds the stock it had, or one of nothing |
| SuppliesStore.GetFoodSupply | lib/suppliesData/src/supplies_module.c:73-110 | yields the stored stock, or null if the database does not open |
| SuppliesStore.GetMedicineSupply | lib/suppliesData/src/supplies_module.c:112-148 | yields the stored stock, or null if the database does not open |
| SuppliesStore.UpdateFoodSupplyInDb | lib/suppliesData/src/supplies_module.c:200-237 | the stored stock becomes the given one, if the write succeeds; no other entry changes |
| SuppliesStore.UpdateMedicineSupplyInDb | lib/suppliesData/src/supplies_module.c:239-272 | the stored stock becomes the given one, if the write succeeds; no other entry changes |
| SuppliesStore.UpdateSuppliesFromJson | lib/suppliesData/src/supplies_module.c:150-201 | each item changes by its delta, clamped at zero, in memory and, where the write succeeds, in the database |
| SuppliesStore.LevelIsReflected | lib/suppliesData/src/supplies_module.c:150-201 | the clamped level after n changes is S_n - min(0, S_0, ..., S_n) for the unclamped sums S_k, hence never negative |
| SuppliesStore.Serve | src/server/server.cpp:298-333 | one request reads the stock through the parser, whatever stands behind each value in memory, and writes it back changed by the clamped deltas; if a value is not read nothing happens |

## Left out

- TreeParser.Parse: takes the content of the buffer as a sequence that ends in a NUL; a buffer without one, as cJSON_ParseWithLength allows, is not modelled, because parse_object reads a key without checking the bounds there. The error position inside a value that is wrong itself is bounded only, from the first byte that is no blank to the last byte of the buffer.
- LiteralParser.ParseBuffer.ParseNumber: strtod is a function on exact reals in the "C" locale; rounding to doubles and locale decimal points are not modelled. Numbers of more than 63 characters are cut as in the code.
- PrintBuffers.PrintBuffer.PrintNumber: only numbers that are 32-bit integers are printed; "%1.15g", NaN and infinities are floating point.
- TreePrinter.PrintValue: prints trees without raw items whose numbers are 32-bit integers; so do PrintArray, PrintObject, Print, PrintBuffered and PrintPreallocated.
- PrintBuffers.PrintBuffer.Ensure: models the path through realloc; custom hooks without a realloc are not modelled.
- TreePrinter.PrintPreallocated: the length passed is the length of the array.
- ChildList.DetachItemViaPointer: takes the position of the item as a ghost argument; an item that is no child of the parent is a misuse the code does not detect.
- TreeCopy.Duplicate: the list of copied children is attached to the copy when it is complete, not at its first element, and the copy made so far is released in two steps when memory runs out.
- TreeCompare.Compare: numbers are 32-bit integers and the trees share no node unless they are the same; compare_double on other numbers is floating point.
- TreeCompare.GetObjectItem: lookup in an item that is no object, whose children have no names, is modelled on values only (Supplies.GetItem).
- ServerRuns.Server.Start: a failure to open the database while seeding the ids ends the process, and one while initialising the stock leads to null pointers later; neither is modelled.
- ServerRuns.Serve: counters stay below INT_MAX. An update over UDP that cannot read the stock dereferences a null pointer and is left out; one over TCP is dropped, as in the code.
- SuppliesStore.InitSupplies: the database opens and takes both values; otherwise the stock may be missing, and reading it dereferences a null pointer.
- SuppliesStore.GetFoodSupply: expects the entry to exist and to have been written by this module; the code dereferences a null pointer otherwise.
- SuppliesStore.UpdateSuppliesFromJson: stock is not negative and no sum exceeds INT_MAX; beyond that the cast to int is undefined in C.
- Raw items, reference items, constant keys, item creation functions, cJSON_AddItemToObject and lookup wrappers of cJSON.
- Gaussian blur, Sobel gradients and the interior of non-maximum suppression: floating point. The suppressed image is an arbitrary grid of bytes with a zero border.
- Atomicity below one access to a matrix, and the scheduling of OpenMP itself.
- Uniqueness of ids of emergency notifications, whose generator starts anew with each process, and lookup of supplies by id, whose search key has a doubled underscore.
- Sockets, processes, logging, REST plumbing, JSON of the C++ side, image files and compression.
