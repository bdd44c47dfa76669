# zedis in Dafny

zedis is a small in-memory server that speaks RESP. This project models the parts of it that keep state and
proves what they promise.

| part | modules |
|---|---|
| sorted sets: a B-tree in a node pool beside a member table | `BTreeShape`, `BTreeLaws`, `BTreeNodes`, `BTreeSplits`, `BTreeGrowth`, `BTreeTable`, `BTreeTies`, `BTree` |
| the streaming RESP decoder, its recycled nodes and the dispatch loop | `RespSpec`, `RespLaws`, `RespInline`, `RespGrammar`, `RespStream`, `RespNodes`, `RespSteps`, `RespParser`, `Dispatch` |
| the reply formatters and the texts of ZRANGE and LRANGE | `Replies`, `Decimal` |
| the Robin Hood hash table | `RobinHood`, `HashTable` |
| the key registry, sorted sets and lists by key | `KeyIndex`, `SortedSets`, `Lists` |
| the append log that holds all lists | `LogSpec`, `AppendLog` |
| the single-publisher, single-poller ring | `Bits`, `Ring` |
| the connection's write buffer | `Conn` |
| the arena and the slab pools | `Arena`, `Slab` |
| shared by the others | `ByteStrings` (with `Options`), `Cells` |

Code that updates arrays and fields in place is a class whose methods do the same. Each class has a value it
stands for (a tree, a map, a byte stream, a list of messages), its methods are proved against functions on that
value, and the theorems are about those functions. Nodes that C reaches by pointer are cells of an array or a
sequence, and a bag of cell numbers says who owns them.

## What the code does not promise

Where a natural claim is false of the code, the code is modelled as it is and the exact condition is proved:

- Deleting from the hash table can make another key unreachable: the tombstone has psl 0 and nothing is shifted
  back, although the project's own README speaks of backward shift. `RobinHood.DelExact` says exactly when.
- SET reuses a tombstone at once, so a key whose home slot is one can come to be stored twice
  (`HashTable.Table.Set` says exactly when; `HashTable.RunExact` says which runs stay a map).
- SET is refused at 70 percent load even when the key is already stored (`HashTable.Table.Set`).
- A key of more than 256 bytes uses up a registry index each time it is offered (`KeyIndex.Exhausted`).
- Equal scores are in member order only inside a leaf (`BTreeTies.TiesCrossLeaves`). `BTreeTies.InsertSortedExactly`
  says exactly when an insertion keeps the order, `BTree.SortedSet.MemberOrderExactly` which states have it, and
  distinct scores always do.
- ZRANGE leaves out an element that does not fit but has already announced it
  (`Replies.CollectedReplyExact`); LRANGE refuses instead (`AppendLog.Log.LRange`).
- LRANGE sees only the newest 1024 elements; LLEN counts all of them.
- An element with a NUL byte is printed shorter than its announced length (`Replies.ItemTextMisses`).
- INT64_MIN cannot be read: its digits overflow before the sign is applied (`Decimal.ParseIntText`).
- A slab block holds 8 bytes fewer than its class size (`Slab.UsableExact`); the write buffer of a connection asks
  for exactly a class size, so its block is 8 bytes short (`Conn.WriteBufferBlock`).
- Rounding a ring capacity above 2^63 gives 0 (`Bits.NextPowerOfTwo`).

`dafny verify dfyconfig.toml` checks the whole project.

## Model

| member | source | states |
|---|---|---|
| `BTreeShape.LeafPos` | src/btree.c:103-114 | the slot before which a new entry goes: everything before it is smaller by (score, member), the entry at it is not |
| `BTreeShape.Pick` | src/btree.c:186-189 | the child an insertion descends into: the first whose separator is not below the score |
| `BTreeShape.Split` | src/btree.c:116-167 | a split keeps the left half's cell, gives the right half the new cell, and makes neither half higher |
| `BTreeLaws.CmpFlips` | src/btree.c:39-57 | the comparison of entries is antisymmetric |
| `BTreeLaws.CmpChains` | src/btree.c:39-57 | the comparison of entries is transitive |
| `ByteStrings.BytesCmpIsDictionary` | src/btree.c:45-56 | members compare in dictionary order of unsigned bytes: a smaller byte at the first difference, or a proper prefix, comes first; in both directions |
| `BTreeShape.ScoreThenMember` | src/btree.c:39-57 | an entry comes first exactly if its score is lower, or equal and its member first in dictionary order |
| `BTreeLaws.LeafHalves` | src/btree.c:116-140 | a full leaf keeps its first two entries and promotes the score of the third, which goes right |
| `BTreeLaws.InnerHalves` | src/btree.c:142-167 | a full inner node keeps two children, promotes the middle separator and gives the other two away |
| `BTreeLaws.SplitShaped` | src/btree.c:116-167 | both halves of a split are well-shaped (leaves non-empty, inner nodes with at least two children) and not full |
| `BTreeLaws.SplitLevel` | src/btree.c:116-167 | a split keeps every leaf at its depth |
| `BTreeLaws.SplitEntries` | src/btree.c:116-167 | the listings of the halves, concatenated, are the listing of the whole: no entry is lost, doubled or moved |
| `BTreeLaws.SplitIds` | src/btree.c:116-167 | the halves use exactly the cells of the whole and the new one, each once |
| `BTreeLaws.SplitOrdered` | src/btree.c:116-167 | the promoted score bounds both halves and both halves keep their order |
| `BTreeLaws.InsertShaped` | src/btree.c:178-220 | insertion keeps the shape: no empty leaf, no inner node with one child, no overfull node |
| `BTreeLaws.InsertLevel` | src/btree.c:178-220 | insertion below the root keeps all leaves at one depth |
| `BTreeLaws.InsertIds` | src/btree.c:178-220 | the tree after insertion uses its old cells and the freshly allocated ones, each exactly once: no sharing, no cycle |
| `BTreeLaws.InsertOrdered` | src/btree.c:178-220 | every separator still weakly bounds the scores on both sides and every leaf stays sorted by (score, member) |
| `BTreeLaws.InsertListing` | src/btree.c:178-220 | the listing afterwards is the listing before with the new entry at one place, whatever splits happened on the way |
| `BTreeLaws.ListingAscends` | src/btree.c:281-305 | the in-order listing of an ordered tree is non-decreasing in score |
| `BTreeLaws.CellsBounded` | src/btree.c:319-319 | a well-shaped tree over n entries uses at most 2n - 1 cells, so the pool of 2 * max_members + 4 cannot run out |
| `BTreeLaws.InsertRootGood` | src/btree.c:222-266 | insertion at the root, with or without a root split, keeps shape, single leaf depth, order and unshared cells together |
| `BTreeLaws.InsertRootListing` | src/btree.c:222-266 | insertion at the root adds the entry at one place of the listing and changes nothing else |
| `BTreeTable.RoomForOneMore` | src/btree.c:222-266 | inserting the next of fewer than max_members members fits in 2(n + 1) - 1 cells and again lists exactly the member table |
| `BTreeTable.ScoreUpdated` | src/btree.c:359-360 | changing one member's score changes one binding of the member-to-score map |
| `BTreeTable.MemberCountIsSize` | src/btree.c:18-32 | the member count is the size of the member-to-score map |
| `BTreeGrowth.GrowGood` | src/btree.c:222-266 | the tree that any run of insertions into an empty set builds is good |
| `BTreeGrowth.GrowEntries` | src/btree.c:222-266 | it lists exactly the inserted entries, each as often as it was inserted |
| `BTreeGrowth.GrowSame` | src/btree.c:103-114 | members that join the table later do not change the tree of those before them |
| `BTreeTable.PickedSlice` | src/btree.c:281-305 | picking the entries whose running index lies in [lo, hi] gives the slice lo..hi of the ranking |
| `BTreeTies.InsertSortedExactly` | src/btree.c:186-216 | after an insertion the listing is in (score, member) order if and only if it was before and the member fits: where the descent entered the right half of a split whose promoted score equals the new one, the last entry before the reached leaf does not belong after it; and where it passed below a separator equal to the new score, the first entry after the leaf does not belong before it. Ties inside the leaf never matter |
| `BTreeTies.GrowSortedExactly` | src/btree.c:222-266 | over every run of insertions into an empty set: the listing ends in (score, member) order if and only if every entry fitted into the tree built before it |
| `BTreeTies.MemberFits` | src/btree.c:222-266 | a table with one member more is listed in order if and only if it was before and the new member fits |
| `BTreeTies.ReachChildLands` | src/btree.c:178-266 | the leaf reached by the guards (above the separator, not below the promoted score) splits the listing into what stands before it, its entries and what stands after it, and the new entry lands inside it |
| `BTreeTies.ReachChildSided` | src/btree.c:186-216 | what stands before the leaf is below the new score, or equal to it only after a split at that very score; what stands after is above it, or equal only under a separator of that score |
| `BTreeTies.NewScoreInOrder` | src/btree.c:222-266 | a new member with a score that no member has never breaks the (score, member) order |
| `BTreeTies.DistinctScoresSorted` | src/btree.c:178-266 | however it was built, a tree over members with pairwise distinct scores lists them in (score, member) order |
| `BTreeTies.TiesCrossLeaves` | src/btree.c:187-262 | any five members of equal score added to an empty set in byte order are listed out of byte order |
| `BTree.SortedSet.constructor` | src/btree.c:307-331 | an initialised tree is valid and empty, with the member bound clamped to 4096 |
| `BTree.SortedSet.AllocNode` | src/btree.c:11-16 | hands out consecutive cells until the pool is used up, then refuses and changes nothing |
| `BTree.SortedSet.LeafFindPos` | src/btree.c:103-114 | the scan finds exactly LeafPos |
| `BTree.SortedSet.SplitLeaf` | src/btree.c:116-140 | the node array afterwards stands for the two halves of the split leaf; no other node is touched; refused only without a free cell |
| `BTree.SortedSet.SplitInternal` | src/btree.c:142-167 | the node array afterwards stands for the two halves of the split inner node; no other node is touched; refused only without a free cell |
| `BTree.SortedSet.ShiftIn` | src/btree.c:206-212 | shifting keys and children in place inserts the separator at i and the sibling at i + 1 and keeps the rest in order |
| `BTree.SortedSet.LeafInsertAt` | src/btree.c:92-101 | shifting a leaf in place inserts one entry at its position |
| `BTree.SortedSet.InsertNonfull` | src/btree.c:178-220 | the recursive in-place insertion leaves the node array standing for Insert of the tree it stood for, and touches no cell outside it |
| `BTree.SortedSet.PickChild` | src/btree.c:186-189 | the scan over the separators finds exactly Pick |
| `BTree.SortedSet.SplitChild` | src/btree.c:194-212 | splits a full child and links its new sibling into the parent node |
| `BTree.SortedSet.InsertSplit` | src/btree.c:194-219 | a full child is split first and the insertion goes on in the half that takes the score; the result is Insert of the tree |
| `BTree.SortedSet.InsertAtRoot` | src/btree.c:237-265 | a full root is split under a new root; the array stands for InsertRoot and the root field points at it |
| `BTree.SortedSet.SplitRoot` | src/btree.c:242-260 | splitting the root takes two cells or fails; on success the new root stands over both halves |
| `BTree.SortedSet.InsertEntry` | src/btree.c:222-266 | the n-th insertion always succeeds, uses at most 2(n + 1) - 1 cells and leaves a good tree over the first n + 1 members |
| `BTree.SortedSet.Rebuild` | src/btree.c:340-348 | after clearing, the tree is again the one that adding the members in table order to an empty set builds |
| `BTree.SortedSet.FindMember` | src/btree.c:74-90 | the whole-tree search returns a matching member, or none only if no listed entry has that name |
| `BTree.SortedSet.Lookup` | src/btree.c:74-90 | finds a member exactly when it is in the member-to-score map |
| `BTree.SortedSet.Add` | src/btree.c:350-370 | refines map update: refused exactly when the member is empty, 48 bytes or longer, or new to a full set; otherwise one binding changes, for new members and for rebuilds alike; the member table changes in place or at its end, and decides the tree; a new member with a new score keeps the listing in (score, member) order |
| `BTree.SortedSet.Score` | src/btree.c:372-387 | refines map lookup |
| `BTree.SortedSet.CountEntries` | src/btree.c:268-279 | counts the entries of the listing |
| `BTree.SortedSet.CollectInorder` | src/btree.c:281-305 | the recursive walk appends, in listing order, each picked entry that fits the reply and skips each that does not |
| `BTree.SortedSet.RangeReply` | src/btree.c:389-428 | ZRANGE: refused only if the header does not fit; otherwise the header for the clamped slice of the ranking followed by the entries of the slice that fit |
| `BTree.AnswerDecodes` | src/btree.c:389-428 | a client decodes a NUL-free ZRANGE reply to exactly the selected elements if all of them fit, and otherwise waits for the rest of an array that never comes |
| `BTree.SortedSet.Laws` | src/btree.c:103-266 | in every valid state: unshared cells 0..free_node-1, one leaf depth, weakly bounding separators, sorted leaves, non-decreasing listing, entries a permutation of the member table, at most 2n - 1 cells in use |
| `BTree.SortedSet.MemberOrderExactly` | src/btree.c:103-266 | in every valid state: the listing is in (score, member) order if and only if, adding the members in table order, each one fits where the ones before it put it |
| `BTree.SortedSet.DistinctScoresInOrder` | src/btree.c:103-266 | in every valid state: members with pairwise distinct scores are listed in (score, member) order |
| `BTree.RunAdds` | src/btree.c:350-370 | every run of ZADDs leaves the map and the member table that the same run leaves on a plain map and a plain table; the listing is in (score, member) order if and only if every member of that table fits, in particular if the scores are distinct |
| `Decimal.AccumulateDigits` | src/resp_scan.c:17-33 | accumulating the decimal digits of n gives n, or overflows exactly when n exceeds INT64_MAX |
| `Decimal.ParseIntText` | src/resp_scan.c:17-33 | the text of an int64 reads back as itself if and only if it is not INT64_MIN, whose digits overflow before the sign is applied |
| `Decimal.DigitsExact` | src/resp_format.c:31-34 | the printed digits of n have n as their positional value and no leading zero |
| `Decimal.AccumulateExact` | src/resp_scan.c:26-30 | the accumulation loop computes the positional value of the digits, or overflows exactly when that exceeds INT64_MAX |
| `Decimal.ParseIntExact` | src/resp_scan.c:17-33 | accepts exactly an optional minus and one or more digits whose value fits, with that value; rejects exactly if no digit comes first or a byte that is none follows digits that fit; overflows exactly if leading digits exceed INT64_MAX |
| `RespSpec.Parse` | src/resp_decode.c:45-109 | a decoded value consumes at least one byte and no more than there are |
| `RespSpec.ParseItems` | src/resp_decode.c:9-43 | decoded elements are as many as announced and consume at least one byte each |
| `RespSpec.FindCrlf` | src/resp_scan.c:6-16 | the first CR LF at or after a position, or none if there is none |
| `RespSpec.SkipBlanks` | src/resp_scan.c:52-53 | skips exactly the blanks before the next token |
| `RespSpec.TokenEnd` | src/resp_scan.c:54-55 | the end of the token: no blank inside it, a blank or the line's end after it |
| `RespLaws.ParseStable` | src/resp_decode.c:45-109 | once a prefix is decided, appending bytes never changes the verdict, the value or the bytes consumed, at any nesting depth |
| `RespLaws.PrefixVerdict` | src/resp_decode.c:45-109 | the verdict on any prefix that is decided is the verdict on the whole stream |
| `RespLaws.DecodeEncode` | src/resp_decode.c:45-109 | decoding undoes printing: a printable value's encoding followed by any bytes decodes to it and consumes exactly the encoding |
| `RespLaws.ShortArrayWaits` | src/resp_decode.c:9-43 | an array text with fewer elements than its header announces decodes to nothing yet |
| `RespLaws.RoundTripExactly` | src/resp_decode.c:45-109 | the round trip holds if and only if the value is printable: CRLF-free texts, integers strictly above INT64_MIN, lengths that fit |
| `RespLaws.DecodedIsPrintable` | src/resp_decode.c:45-109 | every value the decoder can produce is printable, so the decoder and the printer have the same range |
| `RespLaws.EncodingIsPrefixFree` | src/resp_format.c:7-53 | no two printable values' encodings can be confused, whatever follows them |
| `RespLaws.DecodingIsBounded` | src/resp_decode.c:13-37 | the number of nodes and the nesting depth of a decoded value are at most the bytes consumed, whatever count a header announces |
| `RespInline.TokensLaid` | src/resp_scan.c:50-55 | the words of a line are its words, whatever spaces and tabs stand before, between and after them |
| `RespInline.InlineDecodes` | src/resp_scan.c:35-74 | words in any spacing, ended by CR LF or by LF alone, decode to the array of exactly those words and consume exactly that line |
| `RespInline.LineIsLaid` | src/resp_scan.c:48-55 | every line without a line feed is words in gaps, and the scanner finds those words |
| `RespGrammar.DecoderIsGrammar` | src/resp_decode.c:45-114 | the decoder accepts a value of n bytes if and only if the first n bytes are a text of that value, by a grammar that does not mention the decoder |
| `RespGrammar.RefusalIsBroken` | src/resp_decode.c:45-114 | the decoder refuses exactly the broken inputs (a line that is no number, bytes without their CR LF, a broken item after complete ones), and waits exactly if the bytes are neither broken nor start with a text |
| `RespGrammar.TextDecodes` | src/resp_decode.c:45-114 | every text of a value decodes to that value, whatever follows it |
| `RespGrammar.DecodedIsText` | src/resp_decode.c:45-114 | whatever is decoded is a text of the decoded value: negative counts of $ and * are null, a bulk string is the announced bytes and CR LF, an array is its items one after the other |
| `RespGrammar.BrokenStops` | src/resp_decode.c:71-104 | an input broken in its line, after its bytes or in one of its items is refused |
| `RespGrammar.PrintedIsText` | src/resp_format.c:14-53 | what the formatters print is a text of the value in the grammar, and no shorter part of it is a text of anything |
| `RespStream.DecodeMore` | src/resp_decode.c:111-118 | decoding all of s + t gives the values of s followed by the values of what s left over plus t |
| `RespStream.WholeStream` | src/resp_decode.c:111-118 | for every run of feeds and decodes: values handed out so far, then everything the unread bytes decode to, are what the whole stream decodes to at once |
| `RespStream.DrainedRunsAgree` | src/resp_decode.c:111-118 | two drained runs over the same bytes, however chunked, hand out the same values and keep the same unread bytes |
| `RespStream.OutputIsBounded` | src/resp_decode.c:111-118 | a run hands out at most one value per byte fed |
| `RespStream.FragmentationIndependence` | src/resp_decode.c:45-118 | for RESP itself: any chunking and any interleaving of feeds with decodes yields the values of the whole stream decoded at once |
| `RespNodes.AppendRep` | src/resp_nodes.c:41-51 | linking a cell behind the tail extends the represented list by one element and keeps all back links |
| `RespNodes.MovedSound` | src/resp_nodes.c:7-29 | if cells only moved between free list and one owner, no cell is both free and held and none is free twice |
| `RespParser.Parser.constructor` | src/resp_buf.c:7-21 | a new parser is valid and empty; capacity 0 means 64 KiB |
| `RespParser.Parser.NodeAlloc` | src/resp_nodes.c:7-24 | hands out a zeroed cell that was free or is new, and moves nothing else |
| `RespParser.Parser.NodeFree` | src/resp_nodes.c:25-29 | the cell becomes the head of the free list; every other cell is as it was |
| `RespParser.Parser.NodeListRelease` | src/resp_nodes.c:30-40 | every cell of the list, at every depth, goes to the free list exactly once; other cells are as they were |
| `RespParser.Parser.NodeAppend` | src/resp_nodes.c:41-51 | the list grows by the cell at its end; head, tail and count stay right |
| `RespParser.Parser.FindCrlfFrom` | src/resp_scan.c:6-16 | finds the first CR LF at or after a position in the buffer |
| `RespParser.Parser.ScanInt` | src/resp_scan.c:17-33 | reads what ParseInt reads, overflow included |
| `RespParser.Parser.ParseValue` | src/resp_decode.c:45-109 | agrees with the specification's verdict on the unread bytes; the cells taken are exactly those of the value, and none if there is no value |
| `RespParser.Parser.ParseLine` | src/resp_decode.c:62-108 | the same for a typed line once its CR LF is found |
| `RespParser.Parser.ParseBulkBody` | src/resp_decode.c:83-95 | a bulk string is complete, waiting, null or malformed exactly as specified |
| `RespParser.Parser.ParseArray` | src/resp_decode.c:9-43 | the element loop agrees with ParseItems; a failure at any element gives every cell back |
| `RespParser.Parser.ParseElement` | src/resp_decode.c:14-36 | one element more, or every cell of the array so far returned |
| `RespParser.Parser.ParseInlineLine` | src/resp_scan.c:35-74 | agrees with the specification's inline verdict, one cell for each token |
| `RespParser.Parser.Compact` | src/resp_buf.c:41-47 | shifts the unread bytes to the front and keeps them |
| `RespParser.Parser.Commit` | src/resp_buf.c:51-54 | bytes written at the write pointer join the unread bytes |
| `RespParser.Parser.Feed` | src/resp_buf.c:55-68 | accepted exactly when unread and new bytes fit together; then they are concatenated, otherwise nothing changes |
| `RespParser.Parser.Next` | src/resp_decode.c:111-118 | decodes the unread bytes as specified and drops exactly what was consumed; unless it yields a value the read position is at most half the buffer |
| `RespParser.Parser.ValueRelease` | src/resp_decode.c:120-129 | every cell of the value goes back to the free list exactly once |
| `RespParser.Parser.ReadValue` | src/server.c:59-65 | following the links of a decoded value reads back exactly that value |
| `RespParser.Parser.ReadList` | src/server.c:59-65 | following next from the first cell, and the children of each cell, reads back the list |
| `RespParser.Parser.NextAndRelease` | src/resp_decode.c:111-129 | whatever the verdict, free list and live cells together are again all cells ever allocated, each once |
| `Dispatch.RunEvents` | src/resp_decode.c:111-129 | the parser object, over every run of feeds and decodes up to the first chunk that does not fit, hands out the values, read back from their cells, and keeps the bytes of the abstract run, and loses no cell |
| `Dispatch.DispatchCommands` | src/server.c:500-530 | the loop handles a prefix of what the unread bytes decode to, in order, and leaves the rest; it goes on exactly while handlers let it: it ends the connection only after a handler said so or at a malformed message, and waits only when everything is handled; then zero space means at least cap - cap/2 bytes are pending; no cell is lost unless the handler destroyed the connection or the message was malformed |
| `Dispatch.DispatchOne` | src/server.c:503-528 | one round: the verdict of the specification, the command read back from its cells, and its cells released unless the handler destroyed the connection |
| `Dispatch.ReleaseCommand` | src/server.c:528-528 | releasing a handled command leaves the free list holding every cell and the unread bytes unchanged |
| `Replies.Snprintf` | src/resp_format.c:30-33 | returns the full length; writes the text, or as much of it as fits, and a terminator, and changes no other byte |
| `Replies.AppendStr` | src/resp_format.c:7-13 | appends exactly when the text and a terminator fit, otherwise changes nothing |
| `Replies.FormatLine` | src/resp_format.c:14-29 | the encoding of the simple or error string, or a refusal when it does not fit |
| `Replies.FormatInteger` | src/resp_format.c:30-33 | the encoding of the integer, or a refusal when it does not fit |
| `Replies.FormatBulk` | src/resp_format.c:34-45 | the encoding of the bulk string, or a refusal when it does not fit |
| `Replies.FormatNull` | src/resp_format.c:46-53 | the encoding of null, or a refusal when it does not fit |
| `Replies.FormattedDecodes` | src/resp_format.c:14-53 | what a formatter wrote decodes to the value it was given, consuming all of it, if and only if the value is printable |
| `Replies.ItemTextIs` | src/btree.c:290-291 | the printed element is the bulk encoding if and only if it holds no NUL; otherwise it is shorter than announced |
| `Replies.ArrayReplyDecodes` | src/btree.c:389-428 | the full reply text for a slice decodes to exactly that slice |
| `Replies.SliceIsWanted` | src/btree.c:402-407 | the elements selected are one run of the listing, and an element is in it if and only if its index is at least start and, unless stop is negative, at most stop |
| `Replies.ItemTextMisses` | src/btree.c:290-291 | an element with a NUL is announced with its full length and printed only up to the NUL |
| `Replies.CollectExact` | src/btree.c:286-298 | skipping what does not fit never overruns, and skips nothing when the whole slice fits |
| `Replies.CollectedReplyExact` | src/btree.c:389-428 | a ZRANGE reply is the encoding of the slice if and only if it all fits and no member holds NUL; otherwise it is too short for its own header |
| `Replies.CollectedReplyDecodes` | src/btree.c:286-298 | the collected text of NUL-free elements decodes to all of them if they fit, else to an unfinished array |
| `RobinHood.NoGaps` | src/hash_table.c:43-169 | in every ordered table, tombstones included: before a key at probe distance d stand, at each distance j < d, entries with psl at least j; only its home slot may be a tombstone |
| `RobinHood.ProbeFinds` | src/hash_table.c:104-141 | the early exit never misses a stored key |
| `RobinHood.ProbeExact` | src/hash_table.c:104-141 | probing an ordered table finds a key if and only if some slot holds it, and then that slot |
| `RobinHood.ReachableIsOrdered` | src/hash_table.c:104-169 | in any table with exact psl, deletions or not: every stored key can be found if and only if the psl never rises by more than one from slot to slot and no key is stored twice |
| `RobinHood.FullTurn` | src/hash_table.c:65-101 | only a full table lets a probe go once around without meeting a free slot |
| `RobinHood.Lands` | src/hash_table.c:68-78 | placing the carried entry in a free slot keeps the order and completes the map update |
| `RobinHood.LandsTwice` | src/hash_table.c:68-78 | set takes the tombstone in the home slot of a stored key, which then is stored twice |
| `RobinHood.Meets` | src/hash_table.c:80-84 | meeting the key keeps the order and replaces its value only; the key's home slot was no tombstone |
| `RobinHood.Passes` | src/hash_table.c:99-100 | stepping past a richer slot keeps the insertion invariant |
| `RobinHood.Displaces` | src/hash_table.c:86-97 | swapping with a poorer entry keeps the insertion invariant: nothing is lost while an entry is carried |
| `RobinHood.PlaceSettles` | src/hash_table.c:65-101 | if everybody on the way is at least as far from home, an entry takes the first free seat and moves nobody, and where it meets its key only the value there changes |
| `RobinHood.PlaceDisplaces` | src/hash_table.c:86-101 | an entry takes the seat of the first resident that is nearer to home than it would be there, and that resident goes on from one place further |
| `RobinHood.BucketRepeats` | src/hash_table.c:54-54 | the home of a hash is its remainder by the capacity |
| `RobinHood.DelExact` | src/hash_table.c:143-169 | in any table in which every key can be found, whatever was deleted before: after a deletion every other key can still be found if and only if the next slot does not hold an entry with psl 2 or more |
| `RobinHood.FoundAfterDel` | src/hash_table.c:143-169 | unless the next slot is crossed, every other stored key is found in its own slot from every probe distance up to its own |
| `RobinHood.LostAfterDel` | src/hash_table.c:143-169 | the entry after the tombstone with psl 2 or more cannot be found any more |
| `RobinHood.DelRunExact` | src/hash_table.c:143-169 | over every run of deletions: all remaining keys can be found at the end if and only if no deletion of the run buried a crossed slot; what is cut off stays cut off |
| `RobinHood.DelLosesAKey` | src/hash_table.c:143-169 | there is a table in which deleting one key makes another unreachable |
| `RobinHood.SetStoresTwice` | src/hash_table.c:68-78 | there is a table without tombstones in which deleting one key and setting another stores that other key twice |
| `HashTable.Table.constructor` | src/hash_table.c:14-28 | an initialised table is valid and holds the empty map |
| `HashTable.Table.Set` | src/hash_table.c:43-102 | accepted exactly when the key has at most 256 bytes, the value at most 4096, and count * 10 < capacity * 7, even for a stored key; at most capacity probes; psl and count stay exact in every run. From an ordered table, tombstones included, the table stays ordered, and stores no key twice, if and only if the key is not stored with a tombstone in its home slot; then it refines map update |
| `HashTable.Table.Insert` | src/hash_table.c:53-101 | the displacement loop ends within capacity probes and leaves what Place leaves, in every table; from an ordered one it refines map update unless it takes the home tombstone of a stored key |
| `HashTable.Table.Find` | src/hash_table.c:114-140 | the probe loop agrees with Probe and stops within capacity + 1 probes, in every run |
| `HashTable.Table.Get` | src/hash_table.c:104-141 | refines map lookup in every ordered table, tombstones included |
| `HashTable.Table.GetInto` | src/hash_table.c:121-131 | the caller's buffer gets the value that the probe finds, cut off to leave room for a terminator, and the full length is reported |
| `HashTable.CopiedMeans` | src/hash_table.c:123-130 | a buffer longer than the value gets the value, a terminator and nothing else; a shorter one gets what fits before its last byte, and the terminator |
| `HashTable.Table.Del` | src/hash_table.c:143-169 | clears exactly the slot that probing finds; count and psl stay exact; from an ordered table, tombstones included, the map loses exactly that binding, and the other keys stay reachable if and only if the slot is not crossed |
| `HashTable.RunSets` | src/hash_table.c:43-102 | every run of SETs on a table without tombstones leaves the map that the same run leaves on a plain map with the same refusals |
| `HashTable.RunExact` | src/hash_table.c:43-169 | every run of SETs and DELs in any order: all states of the run are maps if and only if no SET takes the home tombstone of a stored key and no DEL buries a crossed slot, and then the last state is the map that the run leaves on a plain map |
| `HashTable.PlaceFinishes` | src/hash_table.c:65-101 | wherever the displacement loop stands, it ends with exact psl and, from an ordered table, with the updated map if and only if no home tombstone of a stored key was taken |
| `HashTable.RunOps` | src/hash_table.c:43-169 | every run of SETs and DELs on the table object leaves exactly the slots of RunAll, so every state of the run is a map if and only if no command does harm, and then the run leaves the map that it leaves on a plain map |
| `HashTable.RunDels` | src/hash_table.c:143-169 | a run of deletions through the table leaves every remaining key reachable if and only if none of them buried a crossed slot |
| `HashTable.CountIsSize` | src/hash_table.c:43-102 | count is the size of the represented map |
| `KeyIndex.IndexText` | src/key_registry.c:18-26 | the decimal text of an index has at most ten digits and reads back as the index |
| `KeyIndex.ReadsBack` | src/key_registry.c:7-16 | read back through a 32-byte buffer as strtoul reads it, the text of an index gives the index: nothing is cut off |
| `KeyIndex.Registry.constructor` | src/key_registry.c:123-147 | a new registry has no keys and a table of twice as many slots as keys |
| `KeyIndex.Registry.Lookup` | src/key_registry.c:7-16 | returns the key's index exactly when it is registered |
| `KeyIndex.Registry.IndexFor` | src/key_registry.c:62-85 | a known key keeps its index; a new one gets the next index, injectively; refused exactly when the indices are used up or the key exceeds 256 bytes, in which case an index is lost |
| `KeyIndex.RunAsks` | src/key_registry.c:62-85 | every run of requests, for keys of any length, hands out the indices and loses the indices that the same run does on a plain map; each request is refused exactly when its key is new and no index is left or it is too long to store |
| `KeyIndex.NoIndexLost` | src/key_registry.c:62-85 | if all keys have at most 256 bytes no index is lost, and a new key is refused exactly when the maximum number of keys is registered |
| `KeyIndex.Exhausted` | src/key_registry.c:62-85 | each offer of an oversized key loses an index, until none is left and no key can be registered any more |
| `SortedSets.ZsetRegistry.constructor` | src/key_registry.c:28-53 | every key starts with an empty sorted set, and all memory of the registry is its own |
| `SortedSets.ZsetRegistry.NewTrees` | src/key_registry.c:42-46 | one valid, empty tree for each index, no two sharing memory |
| `SortedSets.ZsetRegistry.AddAt` | src/key_registry.c:87-95 | adding to one tree leaves every other tree as it was |
| `SortedSets.ZsetRegistry.Add` | src/key_registry.c:87-95 | ZADD changes one binding of its own key's sorted set and no other sorted set; refused exactly when the member, its set or the registry has no room |
| `SortedSets.ZsetRegistry.Score` | src/key_registry.c:97-105 | ZSCORE is lookup in the key's own map |
| `SortedSets.ZsetRegistry.Range` | src/key_registry.c:107-121 | ZRANGE answers from the key's own ranking; an unknown key has the empty one |
| `Lists.ListRegistry.constructor` | src/key_registry.c:123-147 | every key starts with the empty list, and all memory of the registry is its own |
| `Lists.ListRegistry.LPush` | src/key_registry.c:181-189 | LPUSH puts the element at the head of its own list and changes no other; refused exactly when a bound, the log or the registry is exhausted |
| `Lists.ListRegistry.LRange` | src/key_registry.c:191-206 | LRANGE answers from the newest 1024 elements of the key's own list |
| `Lists.ListRegistry.LLen` | src/key_registry.c:208-221 | LLEN is the length of the key's own list |
| `Lists.PushKeepsAll` | src/key_registry.c:181-189 | a push to one list keeps the agreement of every list head with the log |
| `LogSpec.RecordReads` | src/append_log.c:96-104 | a record reads back with the fields it was written with |
| `LogSpec.RecordLayout` | src/append_log.c:11-19 | a record is four bytes of previous offset, two of key length and two of value length, low byte first, then the key and the value |
| `LogSpec.ScanAppend` | src/append_log.c:91-106 | appending a record appends one item to the linear scan |
| `LogSpec.ChainDescends` | src/append_log.c:147-160 | offsets strictly decrease along a chain, so the walk ends |
| `LogSpec.PushAgrees` | src/append_log.c:80-114 | after a push the chain from the new head is again the reverse of the linear scan filtered by the key, and count is its length |
| `LogSpec.PushSpares` | src/append_log.c:80-114 | a push to one key leaves every other key's chain and scan as they were |
| `AppendLog.Log.constructor` | src/append_log.c:21-59 | a new log is empty and whole |
| `AppendLog.Log.LPush` | src/append_log.c:80-114 | refused exactly when a length is out of bounds or the log is full; otherwise the record heads its list, and every other list agrees as before |
| `AppendLog.Log.CollectOffsets` | src/append_log.c:147-160 | the walk collects the offsets of the newest 1024 records of the list that the linear scan finds |
| `AppendLog.Log.LRange` | src/append_log.c:131-200 | the reply is the array of the clamped slice of the newest 1024 elements, refused exactly when it does not fit |
| `AppendLog.Log.WriteItems` | src/append_log.c:184-197 | writes all elements of the slice or refuses, exactly when they do not fit |
| `AppendLog.AnswerExact` | src/append_log.c:131-200 | a successful reply is the encoding of the slice if and only if no element holds NUL |
| `AppendLog.AnswerDecodes` | src/append_log.c:131-200 | a client decodes a successful NUL-free LRANGE reply to exactly the selected elements, consuming all of it |
| `Bits.MaskIsModulo` | src/ring_buffer.c:62-62 | masking with a power of two less one is taking the remainder |
| `Bits.BitsAre` | src/ring_buffer.c:11-16 | a bit of the conjunction is set exactly if it is in both operands, of the disjunction if in one of them |
| `Bits.ShiftedBits` | src/ring_buffer.c:11-16 | bit i of a number shifted right by k is bit i + k of the number |
| `Bits.SmearStep` | src/ring_buffer.c:11-16 | one or-with-shift doubles the run of ones below the top bit |
| `Bits.NextPowerOfTwo` | src/ring_buffer.c:6-19 | the least power of two that is at least 2 and at least the request, up to 2^63; beyond that it wraps to 0 |
| `Ring.RingBuffer.constructor` | src/ring_buffer.c:21-37 | a new ring is empty and its capacity is the rounded one |
| `Ring.RingBuffer.Init` | src/ring_buffer.c:21-37 | on an arena of less than 2^58 bytes: refused exactly for capacity 0, above 2^63, where the rounding wraps to 0, and when the arena has no room for the slots; a byte count that wraps in 64 bits is never granted |
| `Ring.RingBuffer.Publish` | src/ring_buffer.c:46-79 | refused exactly when the payload has more than 512 bytes or the ring is full; otherwise the message, with the first 63 bytes of its channel, joins the end of the queue |
| `Ring.Truncated` | src/ring_buffer.c:65-71 | a slot keeps the first 63 bytes of a channel name, or all of a shorter one |
| `Ring.RingBuffer.Poll` | src/ring_buffer.c:81-95 | takes the oldest message, or none from an empty ring |
| `Ring.PublisherKeeps` | src/ring_buffer.c:46-79 | every atomic step of the publisher, even mid-copy, keeps the invariant |
| `Ring.PollerKeeps` | src/ring_buffer.c:81-95 | every atomic step of the poller keeps the invariant |
| `Ring.EveryInterleavingIsSafe` | src/ring_buffer.c:46-95 | in every state of every interleaving: polled messages are a prefix of the published ones, at most capacity are unread, and every unread slot holds its message |
| `Conn.Connection.Append` | src/conn.c:10-20 | accepted exactly when open and the bytes fit; then the stream grows by them |
| `Conn.WriteBufferBlock` | src/conn.c:78-78 | the slab block taken for the write buffer has 8 usable bytes fewer than the buffer is given |
| `Conn.TakenIsSum` | src/conn.c:33-53 | the bytes the socket takes are the sum of what the writes before the first refusal report, or all if that is fewer; the flush fails exactly if bytes are left when a write fails |
| `Conn.Successes` | src/conn.c:33-53 | every sequence of write results is such a run of successful writes and a rest |
| `Conn.Connection.Reclaim` | src/conn.c:41-46 | shifting the unsent bytes to the front keeps them |
| `Conn.Connection.Flush` | src/conn.c:32-59 | for every pattern of partial writes and refusals: the socket gets exactly as many bytes as it took, the first of those pending; bytes sent followed by bytes pending are unchanged; it fails exactly if the socket fails before it has everything |
| `Conn.Connection.QueueWrite` | src/conn.c:109-122 | a reply that fits joins the stream and the socket takes what it takes of all pending bytes; one that does not fit closes the connection and changes nothing else |
| `Conn.OpenAcceptsAll` | src/conn.c:109-122 | an open connection has accepted every reply; a closed one an initial part of them |
| `Conn.RunEvents` | src/conn.c:109-176 | for every run of queued replies and writable events: the socket has exactly the bytes it took, the first of the accepted replies; while the connection is open these followed by the pending bytes are all replies in order; it is closed exactly if a reply did not fit or the socket failed |
| `Arena.AlignUpExact` | src/arena.c:9-11 | the bit trick yields the least multiple of the alignment at or above the value |
| `Arena.ProductWraps` | src/arena.c:73-73 | the product of count and size differs from the true one by a multiple of 2^64 and is below it |
| `Arena.BumpArena.Alloc` | src/arena.c:53-69 | refused exactly for size 0 or when the aligned block does not fit; otherwise a new block that is aligned and in bounds |
| `Arena.BumpArena.Calloc` | src/arena.c:71-79 | for the product as 64-bit arithmetic gives it: refused exactly when it is 0 or does not fit; otherwise the new block is zeroed and no byte outside it changes |
| `Arena.RunAllocs` | src/arena.c:53-69 | a run of allocations gets exactly the blocks of Grants |
| `Arena.GrantsApart` | src/arena.c:53-69 | over every run of allocations the granted blocks are aligned, in bounds and pairwise disjoint |
| `Slab.Pool.constructor` | src/slab.c:7-28 | every block of a new pool is free, once its memory has been carved out |
| `Slab.Pool.Alloc` | src/slab.c:83-92 | takes the first free block, refused exactly when none is free; free and held blocks still partition the pool |
| `Slab.Pool.Free` | src/slab.c:105-110 | the block handed out under this address becomes free again; free and held blocks still partition the pool |
| `Slab.ClassOf` | src/slab.c:61-75 | the smallest size class that holds the request, none above 4096 |
| `Slab.UsableExact` | src/slab.c:61-93 | the bytes after the link are enough for the request if and only if it is not within 8 bytes below a class size |
| `Slab.DataApart` | src/slab.c:13-24 | the data areas of different blocks never overlap |
| `Slab.Slabs.constructor` | src/slab.c:30-52 | four valid pools with every block free |
| `Slab.Slabs.Init` | src/slab.c:30-52 | refused exactly when the arena cannot give each class its blocks, one class after the other, or a class has none; otherwise four valid pools with every block free |
| `Slab.Slabs.Alloc` | src/slab.c:77-93 | serves the request from its class, refused exactly when there is no class or its pool is empty; other pools are untouched |
| `Slab.Slabs.Free` | src/slab.c:95-111 | returns the block to the pool of its size class; other pools are untouched |

## Left out

- src/resp.c: an unbuilt copy of the five resp_*.c files.
- Event loop, CPU affinity, argument parsing, accepting and configuring sockets: foreign calls with no logic of their own.
- Metrics, monitoring, deployment and benchmarks.
- mmap, ftruncate and msync of the log: foreign calls; the log always starts empty, so there is no recovery to model.
- src/order_book.c: one clamped addition for each level, which would only add easy members.
- The command handlers of src/server.c, with ZSCORE's floating-point text: argument extraction over the modelled parts. The dispatch loop takes what a handler reports as a parameter.
- NULL-argument checks and the destroy functions.
- The FNV hash: the table is proved for every hash function.
- HashTable.RunExact: what a table holds after a command that does harm is stated by its slots and by probing only, not as a map.
- RespParser.Parser.NodeAlloc: malloc never fails here; the out-of-memory branches of the decoder are not modelled. Nodes are cells of one growing sequence.
- RespParser.Parser.ScanInt: accumulation beyond INT64_MAX, which is undefined in C, is its own outcome.
- AppendLog.Log.constructor: capacities of 2^32 - 1 bytes or more, where 32-bit offsets wrap, are excluded.
- LogSpec.RecordLayout: for a little-endian machine; the source writes the header through a packed struct.
- KeyIndex.Registry.constructor: fewer than 2^31 keys; from there on the source's 32-bit doubling of the table size wraps.
- Lists.ListRegistry.constructor: the log belongs to the registry here, while the server passes it in; fewer than 2^31 keys.
- SortedSets.ZsetRegistry.constructor: memory for the trees never runs out; fewer than 2^31 keys.
- Ring.EveryInterleavingIsSafe: steps are sequentially consistent and fewer than 2^64 messages are published; reordering by weak memory is not modelled.
- Slab.Pool.constructor: the arena's memory is taken for granted; that it refuses a pool without blocks is stated by Slab.Slabs.Init.
- Ring.RingBuffer.constructor: for capacities from 1 to 2^63; Ring.RingBuffer.Init states the refusals.
- Ring.RingBuffer.Init: arenas of 2^58 bytes and more, in which a wrapped byte count could fit, are excluded; the slots are an array of their own.
- Slab.Slabs.constructor: the arena's memory is taken for granted; Slab.Slabs.Init states the refusals.
- Slab.Slabs.Init: the byte size of a pool does not overflow 64 bits.
- Slab.Pool.Alloc: runs sequentially; the compare-and-swap races and ABA are not modelled.
- Slab.Pool.Free: the address must be one that was handed out and not yet returned, in the same size class.
- Conn.Connection.Flush: the results of write are a parameter, finitely many for each call; the write buffer is an array of its own; arming epoll is not modelled.
- Arena.BumpArena.Alloc: the sum of start and size does not wrap in 64 bits; the alignment is 0 or a power of two below 2^63, as the bit trick assumes, and the arena is smaller than 2^63 bytes.
- Arena.BumpArena.Calloc: alignments as for Arena.BumpArena.Alloc.
