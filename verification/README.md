# Verified models of the vendored cores

This project models three vendored libraries of the repository and proves what they promise.

**OffsetAllocator** hands out offsets inside a storage range. `Machine.dfy` describes it as an abstract machine: a row of
regions in address order that tiles the storage, one list of free regions per size class, and the stack of spare node
slots. `Allocator.dfy` is the class with its arrays (nodes, free-node stack, bin heads, two-level bitmap, free-byte
counter), updated in place; `allocate`, `free` and `reset` are proved to make exactly the machine's steps, and to keep the
neighbour links, the bin lists, the bitmaps and the counter in agreement with the machine (`Layout.dfy`, `Bitmap.dfy`).
`AllocatorLaws.dfy` proves what clients rely on, for every state that satisfies the invariant and for every run of calls.
`SmallFloat.dfy` is the encoding of sizes as bins, `Bits.dfy` words and their bitwise operators, `Regions.dfy` tilings.

**cgltf**: the jsmn tokenizer in strict mode with parent links (`Jsmn.dfy` the state machine, `JsmnParser.dfy` the parser
object over a token array, with both its passes, `JsmnStack.dfy` the bracket stack hidden in the parent links,
`JsmnBrackets.dfy` what that says of the brackets of an accepted text, `JsmnAccepted.dfy` what else an accepted text looks
like, `JsmnVerdicts.dfy` what the error codes mean, `JsmnCount.dfy` what the counting pass promises the other).
`JsonSyntax.dfy` describes JSON text with its white space, and the tokens a reader expects for it; `JsonTokens.dfy` and
`JsonFaults.dfy` prove when tokenizing gives exactly those, and `JsonGrammar.dfy` that it does for JSON as RFC 8259 defines
it. On this rest skipping a value in the flat tokens (`JsonSkip.dfy`), the writer's comma and indentation state
(`JsonWriter.dfy`) and the round trip writer, tokenizer, reader (`JsonDocument.dfy`). Node fixup and the cycle check are in
`NodeForest.dfy`, string unescaping in place in `Unescape.dfy` and `UnescapeLaws.dfy`, base64 in `Base64.dfy`, the GLB
container in `Glb.dfy`.

**fzy** `match.c`: the affine-gap dynamic program. Scores are integers in units of 1/200, with explicit infinities.
`FzyMeaning.dfy` says in character codes and numbers what a score is, `FzyScore.dfy` holds the recurrences, the worth of a
match defined directly on its positions, and the laws that connect the two; `FzyMatch.dfy` holds the buffers, the rolling two-row search, the full-table search and the backtrace;
`FzyLosses.dfy` says for which needles the reported positions always earn the score; `FzyFilter.dfy` is the greedy filter.

## Where the code does less than one might expect

* The backtrace of fzy tests `M[i][j]` where the cell's own score `D[i][j]` would be needed, so the positions it reports
  need not earn the score it returns: for `aab` in `aaab` the score is 399 (positions 1, 2, 3), the positions reported are
  0, 2, 3, worth 378. `FzyScore.ReportedCanLose` proves the example, `FzyScore.ReportedSound` exactly when it happens.
  Judged by the needle alone, letters and digits are safe on every haystack if and only if there are at most two of them
  (`FzyLosses.ExactIffShort`).
* A line of the writer that opens and closes a container on the line of its key (`"...": {}`) does not set `needs_comma`,
  and the tokenizer files a member that follows no comma under the key before it. A written document comes back if and
  only if no such line is followed by another member of its object (`JsonDocument.DocumentRoundTrip`); an unlit material
  with emissive strength is one that does not (`JsonDocument.UnlitEmissiveLost`).
* A closing bracket with nothing open is accepted after a colon when the kinds agree (`JsmnStack.StrayCloser`), as in `{}:}`
  (`JsmnStack.StrayCloserAccepted`).
* The filter of fzy lets an upper-case letter of the needle match only itself, the score ignores case: `A` is refused in
  `ab`, which scores (`FzyFilter.FilterCanRefuse`); `FzyFilter.FilterExact` says what it accepts.
* A number, `true`, `false` or `null` as the whole text is taken for incomplete unless white space follows
  (`JsonGrammar.JsonTokenized`).
* The unescaper does not join the two halves of a surrogate pair (`UnescapeLaws.DecodesToUtf8`).
* The GLB reader compares the total length in the header with the input size but does not use it as a limit: enough bytes
  after a container without binary chunk are taken for one (`Glb.Trailing`).

## Model

| member | source | states |
|---|---|---|
| `SmallFloat.RoundDownGreatest` | external/OffsetAllocator/offsetAllocator.cpp:86-108 | rounding down yields the greatest bin whose size does not exceed the given size, always below 240 |
| `SmallFloat.RoundUpLeast` | external/OffsetAllocator/offsetAllocator.cpp:56-84 | rounding up yields the least bin whose size is at least the given size, the mantissa carrying into the exponent |
| `SmallFloat.RoundUpOverhead` | external/OffsetAllocator/offsetAllocator.cpp:54-84 | rounding up adds at most an eighth of the size |
| `SmallFloat.RoundExact` | external/OffsetAllocator/offsetAllocator.cpp:56-123 | a bin's own size is a fixed point of both roundings |
| `SmallFloat.BinFits` | external/OffsetAllocator/offsetAllocator.cpp:212-214 | a free region fits a request whenever its bin is at or above the one the search starts from |
| `SmallFloat.BinUnique` | external/OffsetAllocator/offsetAllocator.cpp:86-123 | no two bins bracket the same size |
| `SmallFloat.BinSizeFits` | external/OffsetAllocator/offsetAllocator.cpp:110-123 | sizes of bins below 240 are 32-bit words, equal to what `floatToUint` computes |
| `SmallFloat.BinSizeMonotone` | external/OffsetAllocator/offsetAllocator.cpp:54-123 | greater bins have strictly greater sizes |
| `SmallFloat.BinSizeTable` | external/OffsetAllocator/offsetAllocator.cpp:110-123 | bins below 16 are their own size, and eight bins on the size is doubled |
| `Bits.FindLowestSetBitAfter` | external/OffsetAllocator/offsetAllocator.cpp:127-134 | the result is the lowest set bit at or above the start, or all ones exactly when there is none |
| `Bits.SetBit` | external/OffsetAllocator/offsetAllocator.cpp:369-370 | or-ing in a power of two sets that bit and changes no other |
| `Bits.ClearBit` | external/OffsetAllocator/offsetAllocator.cpp:418-424 | and-ing with the complement clears that bit and changes no other |
| `Bitmap.FindBinSpec` | external/OffsetAllocator/offsetAllocator.cpp:216-244 | the two-level search finds the least non-empty bin from the start up, and fails exactly when there is none |
| `Bitmap.Mark` | external/OffsetAllocator/offsetAllocator.cpp:365-371 | after filing in an empty bin a leaf bit is set iff its bin is non-empty and a top bit iff its byte is non-zero |
| `Bitmap.Clear` | external/OffsetAllocator/offsetAllocator.cpp:414-426 | the same agreement after a bin ran empty |
| `Regions.TakeTiles` | external/OffsetAllocator/offsetAllocator.cpp:273-285 | splitting a free region keeps the regions a tiling without two free neighbours |
| `Regions.ReleaseTiles` | external/OffsetAllocator/offsetAllocator.cpp:301-354 | releasing a region with both merges keeps the regions a tiling without two free neighbours |
| `Regions.Disjoint` | external/OffsetAllocator/offsetAllocator.cpp:204-355 | two different regions of a tiling do not overlap and lie inside the storage |
| `Machine.CarveKeeps` | external/OffsetAllocator/offsetAllocator.cpp:246-287 | serving a request keeps tiling, filing and slot sharing; exactly one live block is added, with the size asked for |
| `Machine.FreeKeeps` | external/OffsetAllocator/offsetAllocator.cpp:290-355 | releasing a live block keeps all of these and removes exactly that block |
| `Machine.CarveFiled` | external/OffsetAllocator/offsetAllocator.cpp:246-285 | after serving, every free region is listed once, in the bin of its size, and nothing else is listed |
| `Machine.FreeFiled` | external/OffsetAllocator/offsetAllocator.cpp:305-342 | the same after a release |
| `Machine.CarveShared` | external/OffsetAllocator/offsetAllocator.cpp:207-211 | listed and spare slots share out all slots without overlap and one slot stays spare, after serving |
| `Machine.FreeShared` | external/OffsetAllocator/offsetAllocator.cpp:339-342 | the same after a release, whose result keeps the freed block's own slot |
| `Machine.HeadFits` | external/OffsetAllocator/offsetAllocator.cpp:212-249 | the region a found bin offers first is large enough |
| `AllocatorLaws.AllocKeeps` | external/OffsetAllocator/offsetAllocator.cpp:204-288 | a request either changes nothing or adds one live block of exactly the requested size in a slot that was not live |
| `AllocatorLaws.LeastBinFinds` | external/OffsetAllocator/offsetAllocator.cpp:212-242 | a bin is found iff some free region is at least as large as the request rounded up |
| `AllocatorLaws.AllocFailsIff` | external/OffsetAllocator/offsetAllocator.cpp:206-237 | a request fails iff only the reserve slot is left or every free region is smaller than the request rounded up |
| `AllocatorLaws.AllocServesWithSlack` | external/OffsetAllocator/offsetAllocator.cpp:54-84 | with a slot left, a request never fails while a free region of size + size/8 exists |
| `AllocatorLaws.AllocThenFree` | external/OffsetAllocator/offsetAllocator.cpp:204-355 | freeing a block right after its allocation restores regions, lists and spare stack exactly |
| `AllocatorLaws.AllocPlaces` | external/OffsetAllocator/offsetAllocator.cpp:212-285 | a block is the front of a free region of the smallest size class sure to hold it, under that region's slot, and the rest stays free |
| `AllocatorLaws.InitialInv` | external/OffsetAllocator/offsetAllocator.cpp:169-196 | the state after construction satisfies the invariant and has nothing live |
| `AllocatorLaws.RunLedger` | external/OffsetAllocator/offsetAllocator.cpp:204-355 | after any legal run the live blocks are the ones the caller was given and has not returned |
| `AllocatorLaws.HeldBlocksDisjoint` | external/OffsetAllocator/offsetAllocator.cpp:204-355 | after any legal run from construction, blocks held together are inside the storage and do not overlap |
| `AllocatorLaws.NothingLive` | external/OffsetAllocator/offsetAllocator.cpp:301-354 | with nothing live the storage is one free region of full size at offset 0 |
| `AllocatorLaws.Drain` | external/OffsetAllocator/offsetAllocator.cpp:290-355 | freeing all live blocks in any order is legal and leaves one free region |
| `AllocatorLaws.BytesConserved` | external/OffsetAllocator/offsetAllocator.cpp:246-285 | live bytes and free bytes always add up to the storage size |
| `AllocatorLaws.SlotsConserved` | external/OffsetAllocator/offsetAllocator.cpp:187-195 | every node slot is either spare or describes a region, never both |
| `AllocatorLaws.SlotsSuffice` | external/OffsetAllocator/offsetAllocator.cpp:206-210 | while twice the number of live blocks is below the number of slots less two, a slot beyond the reserve is left |
| `AllocatorLaws.RunServes` | external/OffsetAllocator/offsetAllocator.cpp:204-242 | for a caller who holds so few blocks after any legal run, a request fails iff every free region is smaller than the request rounded up |
| `AllocatorLaws.ReportHonest` | external/OffsetAllocator/offsetAllocator.cpp:449-468 | a positive reported largest region can be allocated, does not exceed the reported total, and no free region reaches the next bin |
| `AllocatorLaws.ReportedTotal` | external/OffsetAllocator/offsetAllocator.cpp:449-468 | the reported total is the storage size less the sizes of the live blocks, 0 when only the reserve slot is left |
| `AllocatorLaws.ReportedLargest` | external/OffsetAllocator/offsetAllocator.cpp:449-468 | the reported largest region is 0 iff only the reserve slot is left or no free region has any bytes; otherwise it is the greatest bin size some free region reaches |
| `AllocatorLaws.RunReport` | external/OffsetAllocator/offsetAllocator.cpp:449-468 | after any legal run the reported total is what the caller's own books leave of the storage |
| `AllocatorLaws.ListsCountFreeRegions` | external/OffsetAllocator/offsetAllocator.cpp:470-485 | the bin counts add up to the number of free regions |
| `Layout.DescribedTake` | external/OffsetAllocator/offsetAllocator.cpp:277-284 | after a split the nodes' extents and neighbour links describe the new row of regions |
| `Layout.DescribedRelease` | external/OffsetAllocator/offsetAllocator.cpp:332-354 | after a release and merge they describe the new row of regions |
| `Layout.PushFrontLists` | external/OffsetAllocator/offsetAllocator.cpp:374-381 | pushing a slot keeps every bin list acyclic, with inverse links and an unused link before its head |
| `Layout.UnlinkLists` | external/OffsetAllocator/offsetAllocator.cpp:395-412 | so does taking a slot out anywhere, which removes that slot and no other |
| `Layout.FindBinLeast` | external/OffsetAllocator/offsetAllocator.cpp:216-244 | the bitmap search picks the bin the abstract machine serves from |
| `Layout.HighestBinSpec` | external/OffsetAllocator/offsetAllocator.cpp:458-462 | the highest set bits name the greatest non-empty bin |
| `OffsetAllocator.Allocator.constructor` | external/OffsetAllocator/offsetAllocator.cpp:137-148 | a new allocator represents the initial machine state |
| `OffsetAllocator.Allocator.Reset` | external/OffsetAllocator/offsetAllocator.cpp:169-196 | after a reset the arrays represent the initial machine state again |
| `OffsetAllocator.Allocator.Allocate` | external/OffsetAllocator/offsetAllocator.cpp:204-288 | the arrays make exactly the machine's allocation step and stay consistent; the result is the step's outcome |
| `OffsetAllocator.Allocator.TakeFirst` | external/OffsetAllocator/offsetAllocator.cpp:246-285 | popping a head and filing the rest changes lists, stack, counter and nodes as the machine's split does |
| `OffsetAllocator.Allocator.Free` | external/OffsetAllocator/offsetAllocator.cpp:290-355 | the arrays make exactly the machine's release step and stay consistent |
| `OffsetAllocator.Allocator.Unite` | external/OffsetAllocator/offsetAllocator.cpp:301-333 | merging takes exactly the free neighbours out of their lists and leaves offset, size and links of the union |
| `OffsetAllocator.Allocator.InsertNodeIntoBin` | external/OffsetAllocator/offsetAllocator.cpp:357-389 | one region is filed first in its bin, in the slot on top of the stack; lists, bitmap and stack stay consistent |
| `OffsetAllocator.Allocator.RemoveNodeFromBin` | external/OffsetAllocator/offsetAllocator.cpp:391-439 | one slot leaves its list, wherever it is, and becomes spare; lists, bitmap and stack stay consistent |
| `OffsetAllocator.Allocator.AllocationSize` | external/OffsetAllocator/offsetAllocator.cpp:441-447 | the size recorded is the size of the live block, 0 for the failed allocation |
| `OffsetAllocator.Allocator.StorageReport` | external/OffsetAllocator/offsetAllocator.cpp:449-468 | the report is the total of the free regions and the size of the greatest non-empty bin |
| `OffsetAllocator.Allocator.StorageReportFull` | external/OffsetAllocator/offsetAllocator.cpp:470-485 | ends, and gives for every bin its size and the length of its list |
| `Jsmn.Step` | external/cgltf-1.15/cgltf.h:6992-7125 | one character moves the read position forward inside the text, drops no token and keeps parents before children |
| `JsmnParser.Parser.Parse` | external/cgltf-1.15/cgltf.h:6985-7137 | the parser fills the token array with the tokens, or returns the error, of the state machine |
| `JsmnParser.Parser.CountTokens` | external/cgltf-1.15/cgltf.h:6985-7125 | the pass without token array returns the number of tokens the second pass needs, or the error, of the abstract count |
| `JsmnParser.Parser.ParseString` | external/cgltf-1.15/cgltf.h:6920-6980 | scanning a string ends at its closing quote or fails with the state machine's error, read position restored |
| `JsmnParser.Parser.CloseBracket` | external/cgltf-1.15/cgltf.h:7016-7041 | the walk along parent links ends and has the effect of the state machine's close |
| `JsmnStack.StepKeeps` | external/cgltf-1.15/cgltf.h:6998-7093 | every step keeps the invariant and pushes, pops or leaves the stack of open containers as its character says |
| `JsmnStack.WalkIsTop` | external/cgltf-1.15/cgltf.h:7024-7041 | the closing walk stops at the most recently opened container, if any is open |
| `JsmnStack.MismatchRefused` | external/cgltf-1.15/cgltf.h:7026-7029 | a closer of the wrong kind is always refused |
| `JsmnStack.StrayCloser` | external/cgltf-1.15/cgltf.h:7034-7039 | with nothing open a closer is accepted, without effect, exactly under the stated condition |
| `JsmnStack.StrayCloserAccepted` | external/cgltf-1.15/cgltf.h:7034-7039 | the text `{}:}` is accepted |
| `JsmnStack.ParsedShape` | external/cgltf-1.15/cgltf.h:7127-7136 | on success all containers are closed and span a pair of brackets of their kind, sizes count children, parents come first, and any two tokens are nested or apart |
| `JsmnBrackets.ParsedBrackets` | external/cgltf-1.15/cgltf.h:6996-7042 | in an accepted text every opening bracket outside strings and primitives starts a container token of its kind; a closing one ends a container token of its kind iff some bracket is open before it |
| `JsmnBrackets.ParsedBalanced` | external/cgltf-1.15/cgltf.h:7127-7136 | in an accepted text no bracket is left open |
| `JsmnAccepted.ParsedCharacters` | external/cgltf-1.15/cgltf.h:6996-7123 | outside strings and primitives an accepted text has only brackets, colons, commas, quotes, the four white-space characters and the characters a literal may begin with |
| `JsmnAccepted.ParsedBodies` | external/cgltf-1.15/cgltf.h:6868-6980 | on success every string token is an escaped body between quotes, every primitive a printable literal up to the character that ends it |
| `JsmnAccepted.ParsedPrimitives` | external/cgltf-1.15/cgltf.h:7098-7107 | on success no primitive is a member of an object, and below a key only as its first child |
| `JsmnVerdicts.Verdicts` | external/cgltf-1.15/cgltf.h:953-961 | with an array as large as the text, INVAL is returned iff no continuation makes the text acceptable, PART iff it is not accepted but can be completed, NOMEM never |
| `JsmnVerdicts.Capacity` | external/cgltf-1.15/cgltf.h:6841-6855 | a text that is accepted with some array gives the same tokens with any array that holds them and NOMEM with any smaller one |
| `JsmnVerdicts.NulEnds` | external/cgltf-1.15/cgltf.h:6992-6992 | an accepted text ends at the first NUL, whatever follows |
| `JsmnCount.CountSuffices` | external/cgltf-1.15/cgltf.h:6547-6574 | an array of the size the first pass counted never runs out, and a parse that succeeds fills it exactly |
| `JsmnCount.LoopCounts` | external/cgltf-1.15/cgltf.h:6985-7137 | a parse that succeeds used as many tokens as the first pass counts |
| `JsonSkip.SkipJson` | external/cgltf-1.15/cgltf.h:2748-2776 | the loop ends and never reads past the guard token |
| `JsonSkip.SkipIsTraversal` | external/cgltf-1.15/cgltf.h:2748-2776 | on every guarded token array flat counting finds the end that recursive traversal finds, or fails with it |
| `JsonSkip.ValueSkipped` | external/cgltf-1.15/cgltf.h:2748-2776 | on guarded tokens with the kinds, parents and sizes of a tree, the loop started at any value ends just past its last token |
| `JsonDocument.TextSkipped` | external/cgltf-1.15/cgltf.h:2748-2776 | in the tokens of any text whose members are separated, followed by the guard, this holds for every value in it |
| `JsonDocument.DocumentSkipped` | external/cgltf-1.15/cgltf.h:2748-2776 | and so for every value of a document the writer wrote |
| `JsonWriter.Context.WriteIndent` | external/cgltf-1.15/cgltf_write.h:193-208 | a comma is written iff one is due, then a line break and one indent per level; no comma is due afterwards |
| `JsonWriter.BreakText` | external/cgltf-1.15/cgltf_write.h:193-208 | a break is a comma if one is due, a line feed and two blanks for each level |
| `JsonWriter.Context.WriteLine` | external/cgltf-1.15/cgltf_write.h:210-229 | closing lines leave a comma due and go out one level, opening lines clear it and go in one level |
| `JsonWriter.Context.WriteStrProp` | external/cgltf-1.15/cgltf_write.h:231-239 | a string property is written as a member and leaves a comma due; an absent one writes nothing and changes nothing |
| `JsonWriter.Context.WriteStrItem` | external/cgltf-1.15/cgltf_write.h:263-268 | a string item is written with its break and leaves a comma due |
| `JsonWriter.Context.WriteOneLineObject` | external/cgltf-1.15/cgltf_write.h:778-781 | an empty object on the line of its key is written with its break and leaves no comma due |
| `JsonWriter.Context.WriteMembers` | external/cgltf-1.15/cgltf_write.h:210-239 | nested calls produce the text of all members, with a comma after each but one-line objects, whatever was due before |
| `JsonWriter.WriteDocument` | external/cgltf-1.15/cgltf_write.h:1350-1535 | the calls from the opening to the closing brace produce the text of the document |
| `JsonTokens.LoopValue` | external/cgltf-1.15/cgltf.h:6992-7125 | tokenizing across any value, with any white space in it, appends its preorder tokens and counts one child for its owner |
| `JsonTokens.ScanEscaped` | external/cgltf-1.15/cgltf.h:6926-6977 | an escaped string is scanned to its closing quote |
| `JsonFaults.Tokenized` | external/cgltf-1.15/cgltf.h:6985-7137 | text with separated members, white space anywhere, is parsed to exactly its preorder flattening, and the first pass counts as many tokens |
| `JsonFaults.TokenizedIff` | external/cgltf-1.15/cgltf.h:7069-7084 | for text whose commas may be missing, the tokens have the kinds, parents and sizes of its tree iff the members of all objects are separated by commas |
| `JsonFaults.Misfiled` | external/cgltf-1.15/cgltf.h:7065-7083 | otherwise the first key whose member lacks the comma after it ends up with more than one child |
| `JsonGrammar.JsonTokenized` | external/cgltf-1.15/cgltf.h:6985-7137 | every JSON text of RFC 8259, its numbers, literal names, strings and white space spelled out, is parsed to exactly its preorder flattening; only a number or literal name with nothing after it gives PART |
| `JsonGrammar.WrittenIsJson` | external/cgltf-1.15/cgltf_write.h:193-239 | the writer writes JSON text iff no one-line object is followed by another member of its object |
| `JsonDocument.SpelledSeparated` | external/cgltf-1.15/cgltf_write.h:193-229 | the writer separates the members of all objects iff no one-line object is followed by another member |
| `JsonDocument.DocumentRoundTrip` | external/cgltf-1.15/cgltf_write.h:193-239 | tokenizing a written document gives tokens that tell its whole tree (kinds, parents, sizes, string bodies) iff no one-line object is followed by another member; then both passes agree |
| `JsonDocument.UnlitEmissiveLost` | external/cgltf-1.15/cgltf_write.h:778-788 | an unlit material with emissive strength 1 is a document that does not come back |
| `JsonDocument.TokensTell` | external/cgltf-1.15/cgltf.h:6992-7125 | tokens that match the preorder flattening tell every key, string, number and nesting of the value |
| `JsonDocument.DecimalRead` | external/cgltf-1.15/cgltf_write.h:270-277 | every integer is written as a decimal that reads as itself |
| `JsonDocument.TellsUnique` | external/cgltf-1.15/cgltf.h:6992-7125 | the same tokens never tell two different values |
| `JsonDocument.SameTextSameDocument` | external/cgltf-1.15/cgltf_write.h:1350-1535 | two documents that come back and have the same text are equal |
| `NodeForest.Nodes.FixupParents` | external/cgltf-1.15/cgltf.h:6750-6762 | succeeds iff every entry names a node and no node is named twice; then the parent of c is n iff n lists c |
| `NodeForest.CursorsMeet` | external/cgltf-1.15/cgltf.h:1752-1758 | on a chain longer than the number of nodes the two cursors meet within as many turns |
| `NodeForest.MeetingNeverEnds` | external/cgltf-1.15/cgltf.h:1752-1758 | where the cursors meet the chain is cyclic |
| `NodeForest.EndsInTime` | external/cgltf-1.15/cgltf.h:1752-1758 | a chain ends within as many steps as there are nodes or never |
| `NodeForest.WalkEnds` | external/cgltf-1.15/cgltf.h:1749-1758 | for one node the loop ends and accepts iff the chain upwards ends |
| `NodeForest.CheckCycles` | external/cgltf-1.15/cgltf.h:1747-1759 | the cycle check accepts iff the chain upwards from every node ends |
| `NodeForest.EndsIffAcyclic` | external/cgltf-1.15/cgltf.h:1747-1759 | after fixup every walk up ends iff no way down the child lists leads back to its start |
| `NodeForest.Accept` | external/cgltf-1.15/cgltf.h:1747-1759 | fixup followed by the cycle check accepts iff entries are in range, no node is listed twice, and the child lists have no cycle |
| `NodeForest.DescentEnds` | external/cgltf-1.15/cgltf.h:1747-1759 | without cycles a way down the child lists visits no node twice |
| `NodeForest.Forest` | external/cgltf-1.15/cgltf.h:2184-2209 | after fixup and cycle check every upward walk reaches a root without visiting a node twice |
| `Unescape.DecodeString` | external/cgltf-1.15/cgltf.h:1376-1445 | the buffer holds what its string means, terminated; nothing behind the old terminator changes |
| `Unescape.CopyRun` | external/cgltf-1.15/cgltf.h:1388-1396 | after a run has moved down the write cursor is not past the read cursor, and everything unread is as it was |
| `Unescape.NextRun` | external/cgltf-1.15/cgltf.h:1398-1440 | the same after an escape sequence, and reading goes on to the next one or to the end |
| `Unescape.PutEscape` | external/cgltf-1.15/cgltf.h:1397-1436 | one escape sequence is replaced by what it means without touching what follows |
| `Unescape.PutUtf8` | external/cgltf-1.15/cgltf.h:1418-1433 | the masked bytes are the UTF-8 of the code point |
| `Unescape.Masked` | external/cgltf-1.15/cgltf.h:1418-1433 | the bit operations agree with the arithmetic of section 3 of RFC 3629 |
| `UnescapeLaws.ScannedComplete` | external/cgltf-1.15/cgltf.h:6947-6975 | every string the tokenizer accepts has complete escape sequences, as the decoder relies on |
| `UnescapeLaws.SpelledValue` | external/cgltf-1.15/cgltf.h:1367-1374 | four hexadecimal digits spelled for a number, in either case, are read as that number |
| `UnescapeLaws.EverySpelled` | external/cgltf-1.15/cgltf.h:1367-1374 | and every four hexadecimal digits are such a spelling |
| `UnescapeLaws.Utf8Standard` | external/cgltf-1.15/cgltf.h:1418-1433 | the bytes of a code point are well formed under section 4 of RFC 3629 and carry that code point |
| `UnescapeLaws.DecodesToUtf8` | external/cgltf-1.15/cgltf.h:1396-1436 | any legal mix of raw characters, short escapes and code points spelled in hexadecimal decodes to the UTF-8 of its code points iff it holds no surrogate pair |
| `UnescapeLaws.PairsAreNotJoined` | external/cgltf-1.15/cgltf.h:1411-1433 | the smallest surrogate pair decodes to something else than the four bytes it stands for |
| `UnescapeLaws.NulOnlyFromEscape` | external/cgltf-1.15/cgltf.h:1443-1444 | the decoded text holds a NUL iff a NUL was escaped, so only then is it cut short when read as a C string |
| `Base64.Decode` | external/cgltf-1.15/cgltf.h:1331-1365 | succeeds iff the characters needed are there and in the alphabet; the bytes are the leading bits of those characters |
| `Base64.IndexTable` | external/cgltf-1.15/cgltf.h:1343-1349 | a character has value v iff it is the character at place v of the alphabet of section 4 of RFC 4648 |
| `Base64.ShiftIn` | external/cgltf-1.15/cgltf.h:1356-1357 | the low bits of the wrapping buffer stay the bits read and not yet written |
| `Base64.TakeByte` | external/cgltf-1.15/cgltf.h:1360-1361 | the byte written is the oldest eight pending bits, and the rest stay pending |
| `Base64.EncodeValue` | external/cgltf-1.15/cgltf.h:1331-1365 | the encoding of section 4 of RFC 4648 carries the bytes in front of slack bits and padding |
| `Base64.RoundTrip` | external/cgltf-1.15/cgltf.h:1331-1365 | decoding the encoding of any byte string with its length gives it back |
| `Glb.Parse` | external/cgltf-1.15/cgltf.h:1111-1241 | a container is returned iff the input is framed as one; each failure has exactly its cause |
| `Glb.File.WriteGlb` | external/cgltf-1.15/cgltf_write.h:1204-1243 | the steps append the layout of section 4.4 of the glTF 2.0 specification |
| `Glb.LayoutBytes` | external/cgltf-1.15/cgltf_write.h:1204-1243 | every container has the bytes of `glTF`, version 2, `JSON` and, with a binary, `BIN` and NUL in their places |
| `Glb.WordBytes` | external/cgltf-1.15/cgltf.h:1124-1228 | the words that are looked for when reading are these bytes, least significant first |
| `Glb.RoundTrip` | external/cgltf-1.15/cgltf_write.h:1204-1243 | reading back gives the JSON padded with spaces and the binary padded with zeros iff both padded lengths fit 32 bits |
| `Glb.WrittenFramed` | external/cgltf-1.15/cgltf.h:1161-1228 | with fitting lengths the written chunks are found again, with a binary chunk whatever follows it |
| `Glb.Truncated` | external/cgltf-1.15/cgltf.h:1170-1191 | a container cut anywhere has a length that runs past the end |
| `Glb.Trailing` | external/cgltf-1.15/cgltf.h:1204-1222 | bytes after a container without binary chunk are ignored iff they are fewer than a chunk header |
| `Glb.Aligned` | external/cgltf-1.15/cgltf_write.h:1211-1216 | the size of every container is a multiple of four |
| `FzyScore.WorthBounded` | external/fzy/match.c:86-104 | no choice of positions is worth more than the table entry of its last position |
| `FzyScore.DAttained` | external/fzy/match.c:86-104 | every finite table entry is the worth of some choice of positions |
| `FzyScore.BestIsMaximum` | external/fzy/match.c:132-153 | the result is the maximum over all case-folded increasing embeddings, and minus infinity iff there is none |
| `FzyMeaning.BonusTable` | external/fzy/bonus.h:74-102 | the reward of every character after every other, in numbers |
| `FzyMeaning.BestIsScore` | external/fzy/config.h:3-10 | the best score of the recurrences is the greatest value over all fits, with gaps, rewards and case folding written out in numbers |
| `FzyScore.ReportedSound` | external/fzy/match.c:205-234 | the reported positions match and earn at most the result, and exactly the result iff no chosen cell inside is lossy |
| `FzyScore.ReportedExact` | external/fzy/match.c:218-226 | they earn the result whenever every chosen inner cell has equal scores in both tables |
| `FzyScore.ReportedExactDistinct` | external/fzy/match.c:205-234 | they earn it whenever, of any two neighbouring needle characters before the last, one matches at most one position of the haystack |
| `FzyScore.ReportedExactShort` | external/fzy/match.c:205-234 | they always earn it for needles of at most two characters |
| `FzyLosses.DecoyLoses` | external/fzy/match.c:205-234 | for every needle of three or more letters and digits, a haystack three characters longer on which the reported positions match but earn less than the result |
| `FzyLosses.ExactIffShort` | external/fzy/match.c:205-234 | for needles of letters and digits the reported positions earn the result on all haystacks iff the needle has at most two characters |
| `FzyScore.ReportedCanLose` | external/fzy/match.c:224-226 | a needle and haystack for which they earn less |
| `FzyMatch.MatchRow` | external/fzy/match.c:74-105 | a row computed from the row before holds the scores of the recurrences |
| `FzyMatch.Match` | external/fzy/match.c:107-154 | the result is minus infinity for an empty needle or arguments too long, infinity for equal lengths, and otherwise the greatest value, in numbers, of any way the needle fits |
| `FzyMatch.MatchPositions` | external/fzy/match.c:156-240 | the full-table search returns the same result as the two-row search and writes the backtrace's positions and nothing else |
| `FzyMatch.Backtrace` | external/fzy/match.c:205-232 | the nested loops write the positions of the row-by-row trace, and nothing when there is no match |
| `FzyMatch.MatchStruct.Setup` | external/fzy/match.c:57-72 | lengths, lowered strings and bonuses are recorded for arguments that are scored |
| `FzyFilter.HasMatch` | external/fzy/match.c:21-31 | the greedy search succeeds iff the needle occurs as a subsequence under its own relation of characters |
| `FzyFilter.TakeFirst` | external/fzy/match.c:25-28 | taking the first acceptable position never loses an occurrence |
| `FzyFilter.FilterImpliesScore` | external/fzy/match.c:21-31 | a candidate that passes is at least as long, scores finitely when longer, and equals the needle up to case when as long |
| `FzyFilter.FilterExact` | external/fzy/match.c:16-31 | a candidate passes iff some match meets every upper-case letter of the needle by itself |
| `FzyFilter.FilterIsScore` | external/fzy/match.c:16-31 | for needles without upper-case letters a candidate passes iff its score is finite |
| `FzyFilter.FilterCanRefuse` | external/fzy/match.c:16-19 | with an upper-case letter a candidate that scores can be refused |

## Left out

* OffsetAllocator: `maxAllocs` of 0 or 1 (with 1 the constructor's own insert takes the free offset below zero, with 0 it reads outside the stack), moving and destroying allocators, the 16-bit node index build, and the assertions and printing of debug builds.
* OffsetAllocator: freeing something that is not a live block, which the code answers with an assertion only.
* Machine words are natural numbers below 2^32 with the bitwise operators spelled out digit by digit; the compiler intrinsics for leading and trailing zeros are specified as highest and lowest set bit.
* Allocation of memory always succeeds; files are byte sequences in memory.
* fzy: rounding of floating-point scores (the scores are exact multiples of 1/200 here), characters outside ASCII, the one-time allocation of both full tables (one array per row here), and inputs longer than an `int` can count.
* jsmn: positions and token counts are unbounded; the build without strict mode or parent links. jsmn is no validator, and nothing here says that an accepted text is JSON.
* jsmn: the tokens of texts without gap between two items of an array (`["a""b"]`); the laws of accepted texts and of the steps cover these too.
* Writer: the output buffer, its remaining size and the character count; numbers other than integers, and numbers inside arrays; escaping of strings, which the writer leaves to its caller; the emitters of the individual glTF entities.
- JsonDocument.DocumentRoundTrip: covers documents of objects, arrays, strings and integers, with numbers and one-line objects as members only.
- Unescape.DecodeString: is stated for strings whose escape sequences are complete, which is what the tokenizer guarantees (UnescapeLaws.ScannedComplete); on other strings the code reads past the terminator.
* Base64: a character string shorter than needed is read as if NUL followed it; that is where a C string ends and the decoder gives up.
* GLB: lengths above the range of `size_t`, the JSON parser that the chunks are handed to, and big-endian hosts.
* cgltf: the parsers of the individual glTF entities, data URIs, buffer loading, accessors, extensions and the other checks of `cgltf_validate`.
* Node transforms: only that the upward walk of `cgltf_node_transform_world` ends and visits distinct nodes.
