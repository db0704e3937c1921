# Game server libraries: a verified model

This project models the logic a game server leans on, mostly in libraries it ships with, and proves what
each part promises:

- **FastLZ** (`FastLz*.dfy`): both levels of the compressor and the decompressor over byte arrays. The hash
  function is arbitrary, since every candidate it proposes is checked byte by byte.
- **Path finding** (`NodeQueue.dfy`, `NodePool.dfy`, `PathGraph.dfy`, `SearchState.dfy`, `NavQuery.dfy`): A* with
  its node arena and binary heap, and why its path is a cheapest one (`CheapestPath.dfy`). Node pointers are arena
  indices; costs are natural numbers given by functions.
- **Bounding-volume trees** (`BvTree.dfy`, `BvQuery.dfy`): the builder and the two stackless queries. The library
  sort is any function that permutes.
- **The tile store** (`Chains.dfy`, `TileLinks.dfy`, `PolyRef.dfy`, `TileMesh.dfy`, `TileSeams.dfy`,
  `TileStore.dfy`, `TileSewing.dfy`, `NavMesh.dfy`, `TileCrowd.dfy`):
  slots, free lists, the position hash, links inside and between tiles, and references with salts. Whether two
  edges touch, and where an off-mesh connection lands, are arbitrary functions of the tiles' data.
- **The Redis protocol** (`Decimal.dfy`, `Resp*.dfy`): the incremental reader against a recursive grammar, the grammar
  against every way a reply can be written, what the reader's integer widths change, and the command formatters it undoes.
- **The asynchronous context** (`AsyncLedger.dfy`, `AsyncMachine.dfy`, `AsyncConnection.dfy`): the re-entrant callback
  protocol against a functional machine and a monitor over its history. What a callback does is an arbitrary
  function of how many ran before it.
- **Quoting and dictionaries** (`SdsQuote.dfy`, `Dict.dfy`): the printer and splitter of argument lines, and the
  chained hash table against a finite map.
- **Packet framing** (`PacketBuffer.dfy`): the receive buffer of a connected user.

`Bytes.dfy`, `Collections.dfy` and `Division.dfy` hold what several parts share.

Methods follow the source's loops and in-place updates; each is proved against a specification function or
predicate, and the lemmas say what those specifications mean. `dafny verify dfyconfig.toml` checks everything.

Where the code does something its own comments do not say:

- `header->bvNodeCount` is twice the polygon count, but the builder fills one node less. The last, zeroed node
  reads as a leaf for polygon 0, so polygon 0 can be reported twice (`BvQuery.StoredNodesExact` says exactly when).
- A reply nobody asked for is guarded by an assertion only. In builds without assertions the callback served last
  is run again (`AsyncConnection.ServedTwice`); `AsyncMachine.DeliverOk` says exactly when a callback
  is repeated, and `AsyncLedger.AtMostOnce` that nothing else can call one twice.
- Removing a tile by a reference with the salt a free slot will use next reads through a null header
  (`TileStore.NullReadExact`, and `TileStore.NullReadAtStart` on a fresh mesh).
- Removing a tile visits at most 32 tiles per cell. With more, links to the removed tile can stay behind:
  `TileCrowd.CrowdedRemovalDangles` is such a run, and `TileStore.RemovedExact` says exactly when it happens, from
  the buckets and links before the removal.
- A piece of 2^32 bytes less the write position or more is copied past the packet buffer, because the sum
  that guards it wraps (`PacketBuffer.PacketBuffer.SetPacketData`, and `PacketBuffer.OverrunRun`).
- FastLZ sums chained lengths in 32 bits. A longer length is read as what is left of it: `FastLzFormat.LongChainDiffers`
  is such an input, and `FastLzDecompressor.DecodesAsMeant` says exactly when that makes a difference.
- The compressor's result is an `int`: a packed size past the largest one comes back negative
  (`FastLzCompressor.SizeFits`).
- Level 2 can hash a byte past its input after a match that reaches the end: `FastLzBoundary.SourceHashesPast` is such
  an input, and the last clause of `FastLzCompressor.ExtendMatch` says exactly which matches do it.
- The reply reader searches a line end with the length in an `int`, and sums a bulk string's bytes in an
  `unsigned long`, which has 32 bits on Windows. A reply can then stay unseen (`RespRun.BlindedRun`), or be copied from
  past the buffer (`RespRun.OverrunRun`); `RespWidths.LineAgrees` and `RespWidths.BulkAgrees` say exactly when an
  item is seen as it is.
- Restoring a tile with a reference whose salt is 0 is accepted. Exactly then, in slot 0, a live tile's reference is
  null (`NavMesh.NavMesh.AddTile`, `TileStore.NoNullReference`, and `TileStore.NullReferenceAtStart` on a fresh mesh).

## Model

| member | source | states |
|---|---|---|
| `FastLzDecompressor.RoundTrip` | thirdparty/fastlz.c:135-167 | compressing a non-empty input of any `int` length at level 1 or 2, with any hash function, and decompressing gives exactly the input when it fits in `maxout`, and a refusal when it does not; only a packed size past the largest `int` leaves nothing to decompress, and is then returned as a negative number |
| `FastLzCompressor.CompressLevel` | thirdparty/fastlz.c:171-423 | what either compressor instance writes is, byte for byte, the layout of its parse with the level marked: two literals, then at every position the match that is found there, as far as it extends, or a literal; it decodes to the input at every `maxout` that has room and is refused at every smaller one, and its size is at most n + n/32 + 1; the `int` returned is what is left of that size; a byte past the input is hashed exactly when the main loop gets to it; one to three bytes become one literal run, an empty input gives 0 |
| `FastLzCompressor.SizeFits` | thirdparty/fastlz.c:422 | the `int` returned is the packed size exactly when it is not negative, as for all inputs of up to 2,082,408,384 bytes |
| `FastLzCompressor.Compress` | thirdparty/fastlz.c:135-143 | the same for the entry that picks the level by the input's size, level 2 from 65,536 bytes on |
| `FastLzCompressor.CompressAt` | thirdparty/fastlz.c:159-167 | the same for an explicit level; any other level number gives 0 |
| `FastLzRatio.PackedAlternating2` | thirdparty/fastlz.c:266-374 | whatever the hash, at level 2 two bytes taking turns, or one byte over and over, n >= 15 times in all, pack into the bytes written out: two literals, one match chained over n - 14, three literals, in all 10 + (n - 14)/255 bytes |
| `FastLzRatio.PackedAlternating1` | thirdparty/fastlz.c:266-374 | at level 1 into two literals, one match in pieces and three literals, at most 3(n - 8)/262 + 10 bytes |
| `FastLzRatio.ParsedAlternating` | thirdparty/fastlz.c:200-422 | the parse of such an input is these three tokens at either level, the match one byte back for a run at level 2 and two bytes back otherwise |
| `FastLzRatio.ConfirmedMeans` | thirdparty/fastlz.c:237-259 | a candidate becomes a match exactly when three bytes repeat from less than 8192 back at level 1, or less than 73,725 at level 2, where from 8191 back on five must |
| `FastLzRatio.RunMeans` | thirdparty/fastlz.c:216-224 | at level 2 four equal bytes, the first just behind, are a run, and at level 1 nothing is |
| `FastLzCompressor.CompressShort` | thirdparty/fastlz.c:184-198 | inputs of one to three bytes become one literal run that decodes to them; an empty input gives 0 |
| `FastLzCompressor.FindMatch` | thirdparty/fastlz.c:216-264 | a run at level 2 is taken first; otherwise the candidate the table holds is confirmed exactly when its distance is one the level may use and its first three bytes match, or five when it is far; the position is recorded except in a run, and a match found repeats the input |
| `FastLzCompressor.ExtendMatch` | thirdparty/fastlz.c:266-294 | the extension ends where the comparisons do, is a real repetition up to one byte before, and stays within the input; the second position hashed afterwards lies within it too, except exactly when a five-byte match at the last position searched goes on for seven more bytes |
| `FastLzBoundary.HashesPastText` | thirdparty/fastlz.c:376-380 | on a text of fourteen different bytes, zeros, and the first of them again the main loop hashes a byte past the end, for every hash that keeps the first occurrence in the table |
| `FastLzBoundary.SourceHashesPast` | thirdparty/fastlz.c:107 | the hash of the source is such a one, whatever byte stands behind the text |
| `FastLzBoundary.CompressText` | thirdparty/fastlz.c:135-143 | so the entry that picks the level reads past this input |
| `FastLzCompressor.EmitMatch` | thirdparty/fastlz.c:307-374 | the bytes written for a match are those the format prescribes at either level, near, far, chained or split, and nothing before them changes |
| `FastLzCompressor.AddMatchMeans` | thirdparty/fastlz.c:354-373 | splitting a long level 1 match into pieces expands to the same copy as one match, and the pieces' bytes are those written |
| `FastLzCompressor.MatchBytesShort` | thirdparty/fastlz.c:311-374 | every match is written in fewer bytes than it stands for |
| `FastLzCompressor.CloseOutput` | thirdparty/fastlz.c:296-302 | the count of the open literal run is patched behind the run, or the unused count byte is given back |
| `FastLzCompressor.PutLiteral` | thirdparty/fastlz.c:387-395 | after a literal, and a new run when 32 are full, the output still explains the input read so far within the size bound |
| `FastLzCompressor.PutMatch` | thirdparty/fastlz.c:296-385 | after closing the run, a match and a new run, the output still explains the input read so far within the size bound |
| `FastLzCompressor.FinishOutput` | thirdparty/fastlz.c:411-422 | closing the last run and marking the level gives an encoding of the whole input within the size bound |
| `FastLzCompressor.ReachEnd` | thirdparty/fastlz.c:411-422 | output that explains the text with an open run becomes, once closed and marked, a string that decodes to the text |
| `FastLzCompressor.ReachMatch` | thirdparty/fastlz.c:296-385 | the invariant step of a match: text extended by the copy, bytes by the closed run and the match |
| `FastLzCompressor.ReachLiteral` | thirdparty/fastlz.c:387-395 | the invariant step of a literal, including the start of a new run after 32 |
| `FastLzDecompressor.Decompress` | thirdparty/fastlz.c:145-157 | for every input, well formed or not, the outcome and bytes of decoding with lengths summed in 32 bits, reads past the end told apart; an unknown level is refused |
| `FastLzDecompressor.DecompressLevel` | thirdparty/fastlz.c:425-554 | the loop over control bytes does the same at its level, with both bounds checks |
| `FastLzDecompressor.DecodesAsMeant` | thirdparty/fastlz.c:445-474 | that is what the format means for every input of at most 16,843,010 bytes, and on any other exactly when decoding meets no header whose length, 6 plus the chained bytes, reaches 2^32, or refuses the input later on |
| `FastLzFormat.HeaderAgrees` | thirdparty/fastlz.c:445-459 | one header is read as the format means it exactly when 6 plus its chained bytes stays below 2^32 |
| `FastLzFormat.LongChainDiffers` | thirdparty/fastlz.c:445-474 | on an input of 16,843,015 bytes whose length bytes wrap the program writes 264 bytes where the format, which means 4 GB, is refused |
| `FastLzDecompressor.CopyMatch` | thirdparty/fastlz.c:483-530 | overlapping and run copies give what copying one byte at a time gives |
| `FastLzDecompressor.ReadMatch` | thirdparty/fastlz.c:445-468 | reads length and distance as the format lays them out, with chained lengths and 16-bit distances at level 2, the length kept in 32 bits |
| `FastLzDecompressor.DecodeFits` | thirdparty/fastlz.c:470-540 | no input makes the decoder produce more than `maxout` bytes, and output only grows |
| `FastLzFormat.DecodeLayout` | thirdparty/fastlz.c:425-554 | decoding laid-out tokens, lengths wrapping or not, gives their text and goes on with what follows, or refuses exactly when the text does not fit |
| `FastLzFormat.ReadHeaderOfLayout` | thirdparty/fastlz.c:440-468 | the header reader undoes the layout of every match at both levels |
| `FastLzFormat.CopyBackRepeats` | thirdparty/fastlz.c:280-294 | copying back at a distance reproduces a text that repeats at that distance, overlaps included |
| `FastLzFormat.CopyBackSplit` | thirdparty/fastlz.c:354-361 | two copies in a row at one distance are one longer copy |
| `NodeQueue.Queue.BubbleUp` | thirdparty/Detour/Source/DetourNode.cpp:172-183 | filling the hole with the node restores heap order and keeps exactly the entries |
| `NodeQueue.Queue.TrickleDown` | thirdparty/Detour/Source/DetourNode.cpp:185-200 | sinking the hole to a leaf and rising from there restores heap order and keeps exactly the entries |
| `NodeQueue.Queue.Top` | thirdparty/Detour/Include/DetourNode.h:116 | an entry of least total |
| `NodeQueue.Queue.Pop` | thirdparty/Detour/Include/DetourNode.h:118-124 | removes one entry, of least total among all, and keeps heap order |
| `NodeQueue.Queue.Push` | thirdparty/Detour/Include/DetourNode.h:126-130 | adds exactly the node and keeps heap order |
| `NodeQueue.Queue.Modify` | thirdparty/Detour/Include/DetourNode.h:132-142 | after the node's total went down, heap order is restored with the same entries |
| `NodeQueue.RootIsLeast` | thirdparty/Detour/Include/DetourNode.h:116 | in heap order the root is least |
| `NodeQueue.SinkStep` | thirdparty/Detour/Source/DetourNode.cpp:185-198 | moving the smaller child into the hole keeps order around the new hole |
| `NodePool.Pool.FindNode` | thirdparty/Detour/Source/DetourNode.cpp:108-119 | finds the node with this polygon and state exactly when the arena holds one |
| `NodePool.Pool.GetNode` | thirdparty/Detour/Source/DetourNode.cpp:121-152 | the node with this key: the one there is, or a fresh one behind all others; nothing exactly when there is none and the arena is full; keys stay unique and chains intact |
| `NodePool.Pool.Clear` | thirdparty/Detour/Source/DetourNode.cpp:83-87 | the arena is empty again |
| `NavQuery.NavMeshQuery.FindPath` | thirdparty/Detour/Source/DetourNavMeshQuery.cpp:985-1165 | the stored polygons are a walk along filter-passing links from the start, or its first `maxPath`; it ends at the goal exactly when not partial; unless nodes ran out it is partial exactly when the goal cannot be reached, then ends at a visited polygon nearest to the goal, and no link out of an expanded polygon offers its end a better total; the start node stands at the start position and every other in the middle of an edge it was entered over from a visited polygon; a complete path is then a cheapest walk wherever the middles of all edges into a polygon are one place, costs ignore where it was reached from and the heuristic is consistent |
| `CheapestPath.FoundCheapest` | thirdparty/Detour/Source/DetourNavMeshQuery.cpp:1020-1165 | where edge midpoints depend only on the polygon entered, costs ignore where it was reached from and the heuristic is consistent, the walk a search ends with, when the goal comes off the open list, costs no more than any walk from start to goal between those midpoints |
| `CheapestPath.GoalIsLeast` | thirdparty/Detour/Source/DetourNavMeshQuery.cpp:1020-1154 | no walk to the goal costs less than the goal's node when that has the least total among open nodes |
| `CheapestPath.Frontier` | thirdparty/Detour/Source/DetourNavMeshQuery.cpp:1048-1154 | along any walk from the start the search has a closed node that costs no more, or the goal is no dearer than going on from there, links straight back included |
| `CheapestPath.ChainCost` | thirdparty/Detour/Source/DetourNavMeshQuery.cpp:1167-1186 | the walk along parent pointers costs no more than its last node |
| `CheapestPath.AllPlaced` | thirdparty/Detour/Source/DetourNavMeshQuery.cpp:1080-1086 | where edge midpoints depend only on the polygon entered, every node of a search is at its polygon's place |
| `SearchState.StandingKept` | thirdparty/Detour/Source/DetourNavMeshQuery.cpp:1080-1086 | a node keeps the place it was given when it was first entered, and a new one stands in the middle of the edge it was entered over |
| `NavQuery.NavMeshQuery.Search` | thirdparty/Detour/Source/DetourNavMeshQuery.cpp:1015-1154 | the loop ends, by (free nodes, sum of totals, open count), at the goal or with everything reachable visited; every node stands where it was first entered; unless nodes ran out no link out of an expanded node offers its end a better total |
| `NavQuery.NavMeshQuery.ExpandNode` | thirdparty/Detour/Source/DetourNavMeshQuery.cpp:1050-1153 | following all links of the closed node keeps the search invariant and every node's key and place, and marks the node expanded |
| `NavQuery.NavMeshQuery.FollowLink` | thirdparty/Detour/Source/DetourNavMeshQuery.cpp:1050-1078 | a link that is void, filtered out or leads back to the parent is skipped; any other leads to a visited node that is no worse off than over this link, unless nodes ran out |
| `NavQuery.NavMeshQuery.VisitNeighbour` | thirdparty/Detour/Source/DetourNavMeshQuery.cpp:1072-1152 | afterwards the node stands where it was first entered and the link offers its end nothing better by cost and heuristic, unless nodes ran out; nodes keep their places, totals only go down, the invariant and the nearest node are kept, and any change lowers the termination measure |
| `NavQuery.NavMeshQuery.Reopen` | thirdparty/Detour/Source/DetourNavMeshQuery.cpp:1128-1145 | the improved node is put back in order or opened; the open list stays exactly the nodes flagged open, each once |
| `NavQuery.NavMeshQuery.CloseBest` | thirdparty/Detour/Source/DetourNavMeshQuery.cpp:1020-1032 | an open node of least total is closed; the goal stops the search |
| `NavQuery.NavMeshQuery.StartAt` | thirdparty/Detour/Source/DetourNavMeshQuery.cpp:1003-1018 | after the reset only the start node is known, and open |
| `NavQuery.NavMeshQuery.GetPathToNode` | thirdparty/Detour/Source/DetourNavMeshQuery.cpp:1167-1205 | stores the polygons on the chain from the start to the node, or the first `maxPath`, and reports a short buffer exactly when the chain is longer |
| `SearchState.CandidateOk` | thirdparty/Detour/Source/DetourNavMeshQuery.cpp:1080-1152 | taking a new or strictly better candidate, even a closed one, keeps the search invariant, settles the link and lowers the termination measure |
| `SearchState.ImprovedSearch` | thirdparty/Detour/Source/DetourNavMeshQuery.cpp:1128-1145 | reopening a node under the node being expanded keeps the tree, the costs and the expanded nodes right |
| `SearchState.ImprovedTree` | thirdparty/Detour/Source/DetourNavMeshQuery.cpp:1119-1133 | after reopening, parent pointers are still a forest and every node's cost covers its parent's and the edge between them |
| `SearchState.LowerParent` | thirdparty/Detour/Source/DetourNavMeshQuery.cpp:1129-1133 | when a parent is improved its children's costs still cover the parent's and the edge |
| `SearchState.RelaxedLowered` | thirdparty/Detour/Source/DetourNavMeshQuery.cpp:1121-1126 | a link that offered nothing better still offers nothing better after other nodes were improved |
| `SearchState.GoalRelaxed` | thirdparty/Detour/Source/DetourNavMeshQuery.cpp:1027-1032 | stopping at the goal leaves no link out of an expanded node that offers its end a better total |
| `SearchState.ReopenedSync` | thirdparty/Detour/Source/DetourNavMeshQuery.cpp:1131-1145 | there is always room in the open list for a node that is not in it |
| `SearchState.Exhausted` | thirdparty/Detour/Source/DetourNavMeshQuery.cpp:1020-1154 | when nothing is open the goal was not visited and, unless nodes ran out, cannot be reached |
| `SearchState.CloseNode` | thirdparty/Detour/Source/DetourNavMeshQuery.cpp:1022-1032 | closing the best node leaves only its own links to expand |
| `PathGraph.ReparentedForest` | thirdparty/Detour/Source/DetourNavMeshQuery.cpp:1128-1133 | hanging a node under another that is not below it keeps parent pointers a forest rooted at the start |
| `PathGraph.NotAncestor` | thirdparty/Detour/Source/DetourNavMeshQuery.cpp:1119-1133 | a node that would improve is never an ancestor of the node being expanded, so no cycle can arise |
| `PathGraph.ChainCosts` | thirdparty/Detour/Source/DetourNavMeshQuery.cpp:1089-1117 | costs never decrease from the start down a parent chain |
| `PathGraph.ChainIsWalk` | thirdparty/Detour/Source/DetourNavMeshQuery.cpp:1167-1195 | the polygons along a parent chain are a walk along real links |
| `PathGraph.ExhaustedReachesAll` | thirdparty/Detour/Source/DetourNavMeshQuery.cpp:1020-1154 | with nothing open the visited polygons are exactly the reachable ones |
| `BvTree.Subdivide` | thirdparty/Detour/Source/DetourNavMeshBuilder.cpp:113-169 | n items give 2n-1 pre-order nodes of a tree whose leaves are the items as now ordered, a permutation of before; boxes contain all below, halves are even, escapes are subtree sizes, nothing else is written |
| `BvTree.CalcExtends` | thirdparty/Detour/Source/DetourNavMeshBuilder.cpp:73-95 | the smallest box containing all the items |
| `BvTree.LongestAxis` | thirdparty/Detour/Source/DetourNavMeshBuilder.cpp:97-111 | an axis of greatest extent |
| `BvQuery.CreateBVTree` | thirdparty/Detour/Source/DetourNavMeshBuilder.cpp:171-241 | for any polygon boxes the stored 2n nodes are such a tree over all polygons and one node left zero |
| `BvQuery.LeavesOnePerPolygon` | thirdparty/Detour/Source/DetourNavMeshBuilder.cpp:176-236 | however the sort permutes, the leaves are the polygons, each once with its own box |
| `BvQuery.QueryInto` | thirdparty/Detour/Source/DetourNavMesh.cpp:842-865 | the stackless walk reports exactly what a linear scan of the leaves would, in order, cut to the buffer |
| `BvQuery.QueryBatches` | thirdparty/Detour/Source/DetourNavMeshQuery.cpp:741-801 | with a tree, the batches joined are exactly the filter-passing hits of a linear scan; all but the last are full |
| `BvQuery.ScanBatches` | thirdparty/Detour/Source/DetourNavMeshQuery.cpp:802-847 | without a tree, they are exactly the ground polygons that pass the filter and whose box meets the query, in order |
| `BvQuery.Escape` | thirdparty/Detour/Source/DetourNavMesh.cpp:856-862 | skipping a subtree whose box misses the query loses no hit |
| `BvQuery.Descend` | thirdparty/Detour/Source/DetourNavMesh.cpp:856-857 | going on below a box that meets the query owes the same hits |
| `BvQuery.BuiltNodesExact` | thirdparty/Detour/Source/DetourNavMesh.cpp:842-865 | over the nodes the builder fills each polygon is reported once if its box meets the query, else not at all |
| `BvQuery.StoredNodesExact` | thirdparty/Detour/Source/DetourNavMeshBuilder.cpp:483 | over the whole array the header counts, polygon 0 is reported once more exactly when the query box starts at 0 on every axis; all others as before |
| `BvQuery.ReportsExact` | thirdparty/Detour/Source/DetourNavMeshBuilder.cpp:171-241 | from any boxes and any query: the stored array reports a polygon once if its box meets the query and not otherwise, and polygon 0 once more exactly when the query box starts at the origin |
| `BvQuery.BuildAndQuery` | thirdparty/Detour/Source/DetourNavMesh.cpp:827-902 | building and then querying the array reports exactly that |
| `BvTree.HitsCount` | thirdparty/Detour/Include/DetourCommon.h:354-362 | a linear scan reports a polygon once per item of it that meets the query |
| `BvTree.OverlapMeans` | thirdparty/Detour/Include/DetourCommon.h:354-362 | two boxes overlap exactly when they have a point in common |
| `PolyRef.DecodeEncode` | thirdparty/Detour/Include/DetourNavMesh.h:526-604 | decoding undoes encoding for every mintable salt, tile and polygon |
| `PolyRef.EncodeDecode` | thirdparty/Detour/Include/DetourNavMesh.h:526-604 | encoding undoes decoding for every reference that fits the three fields |
| `PolyRef.NotNull` | thirdparty/Detour/Source/DetourNavMesh.cpp:1325-1332 | a reference is null exactly when salt, tile and polygon are all 0 |
| `PolyRef.NextSalt` | thirdparty/Detour/Source/DetourNavMesh.cpp:1325-1332 | an aged salt fits its field and is never 0 |
| `PolyRef.SaltReturns` | thirdparty/Detour/Source/DetourNavMesh.cpp:1325-1332 | a slot has its old salt again exactly after a multiple of 2^bits - 1 removals |
| `PolyRef.WidthMeans` | thirdparty/Detour/Include/DetourCommon.h:439-461 | the bit tricks compute the least width that tells the given number of values apart |
| `PolyRef.NextPow2Means` | thirdparty/Detour/Include/DetourCommon.h:439-449 | the least power of two not below the argument |
| `PolyRef.Ilog2OfPower` | thirdparty/Detour/Include/DetourCommon.h:451-461 | the exponent of a power of two |
| `PolyRef.SaltBitsExact` | thirdparty/Detour/Source/DetourNavMesh.cpp:253-266 | initialisation finds enough salt bits exactly when tile and polygon fields have at most 22 bits together, or so many that the unsigned difference wraps, which only an assertion forbids |
| `TileLinks.LinkPool.constructor` | thirdparty/Detour/Source/DetourNavMesh.cpp:1008-1012 | all links are free and no polygon has one |
| `TileLinks.LinkPool.AllocLink` | thirdparty/Detour/Source/DetourNavMesh.cpp:122-129 | takes the first free link, or reports that there is none, exactly when none is free |
| `TileLinks.LinkPool.FreeLink` | thirdparty/Detour/Source/DetourNavMesh.cpp:131-135 | the link becomes the first free one |
| `TileLinks.LinkPool.AddLink` | thirdparty/Detour/Source/DetourNavMesh.cpp:549-560 | the polygon's list gains the link in front when one is free; otherwise nothing changes |
| `TileLinks.LinkPool.UnconnectLinks` | thirdparty/Detour/Source/DetourNavMesh.cpp:357-389 | every list keeps exactly the links not to be dropped, in order, and the dropped ones become free |
| `TileLinks.LinkPool.SiftPoly` | thirdparty/Detour/Source/DetourNavMesh.cpp:363-388 | one pass over a list with two pointers leaves exactly the slots to keep, in order |
| `TileLinks.LinkPool.RemoveLink` | thirdparty/Detour/Source/DetourNavMesh.cpp:370-380 | one link is bypassed and freed; every link stays in exactly one list |
| `TileLinks.KeepMeans` | thirdparty/Detour/Source/DetourNavMesh.cpp:370-387 | a link is kept exactly when it was there and is not to be dropped |
| `TileLinks.PushConserves` | thirdparty/Detour/Source/DetourNavMesh.cpp:122-135 | adding a link neither loses nor makes one |
| `TileLinks.Replay` | thirdparty/Detour/Source/DetourNavMesh.cpp:122-389 | a pool put through any history of additions and removals holds the lists and the number of free links which that history gives on values |
| `TileMesh.LinksConserved` | thirdparty/Detour/Source/DetourNavMesh.cpp:122-135 | a live tile of a sound mesh has one list per polygon, and its links and free links are together as many as it was built with |
| `Chains.ExactlyOneChain` | thirdparty/Detour/Source/DetourNavMesh.cpp:122-135 | every slot is in exactly one list, free or of one polygon |
| `Chains.OneChainEach` | thirdparty/Detour/Source/DetourNavMesh.cpp:122-135 | no slot occurs twice, in one list or in two |
| `Chains.WalkStops` | thirdparty/Detour/Source/DetourNavMesh.cpp:363-388 | following a list from its head lists its slots and stops: no cycles |
| `Chains.UnlinkGood` | thirdparty/Detour/Source/DetourNavMesh.cpp:1258-1274 | bypassing a slot at any position keeps every list well formed |
| `Chains.PushGood` | thirdparty/Detour/Source/DetourNavMesh.cpp:978-981 | putting a loose slot in front of a list keeps every list well formed |
| `TileMesh.IntLinkedMeans` | thirdparty/Detour/Source/DetourNavMesh.cpp:528-563 | polygons are linked inside the tile in order as far as links last: a ground polygon gets exactly one link for each edge with a neighbour number that is no border code, across that edge, side 0xff, with a reference that decodes to this tile, its salt and the neighbour numbered one less; highest edge first, nothing else; an off-mesh polygon gets none |
| `TileMesh.EdgeLinksMean` | thirdparty/Detour/Source/DetourNavMesh.cpp:547-560 | for one polygon: a link for each internal edge from a given one on, each decoding to what the edge says, highest edge first, and nothing else |
| `NavMesh.NavMesh.ConnectIntLinks` | thirdparty/Detour/Source/DetourNavMesh.cpp:528-563 | only this tile's links change, to its internal links as far as the free links last (`TileMesh.IntLinkedMeans` says which those are); no link dangles |
| `NavMesh.NavMesh.FindConnectingPolys` | thirdparty/Detour/Source/DetourNavMesh.cpp:304-355 | the first four polygons of the other tile with an edge on the opposite border that touches the edge asked about |
| `NavMesh.NavMesh.ConnectExtLinks` | thirdparty/Detour/Source/DetourNavMesh.cpp:391-456 | only this tile's links change, to the border links of the asked side in polygon and edge order as far as the free links last; none dangles |
| `NavMesh.NavMesh.ConnectExtOffMeshLinks` | thirdparty/Detour/Source/DetourNavMesh.cpp:458-526 | the links become those of the connections of the other tile that end on this side, land here and have a linked start, one by one; none dangles |
| `NavMesh.NavMesh.BaseOffMeshLinks` | thirdparty/Detour/Source/DetourNavMesh.cpp:565-621 | the starts of this tile's connections are linked one by one with the polygons they lie on; no link dangles that did not before |
| `TileSeams.BaseJoins` | thirdparty/Detour/Source/DetourNavMesh.cpp:565-621 | each connection's start is linked with the polygon it lies on, both ways, unless links ran out; no link is taken away and no other tile changes |
| `NavMesh.NavMesh.LinkBothWays` | thirdparty/Detour/Source/DetourNavMesh.cpp:492-523 | one link from the connection to where it lands and, if asked, one back, the landing index cut to 16 bits as in the source; none dangles |
| `NavMesh.NavMesh.GetTileAt` | thirdparty/Detour/Source/DetourNavMesh.cpp:1063-1080 | finds the tile at a position exactly when there is one |
| `NavMesh.NavMesh.GetTilesAt` | thirdparty/Detour/Source/DetourNavMesh.cpp:1100-1120 | the first 32 tiles of a cell in its bucket's order |
| `NavMesh.NavMesh.TakeSlot` | thirdparty/Detour/Source/DetourNavMesh.cpp:935-976 | takes the head of the free list, or the slot named, which gets its salt back; the rest of the list keeps its order; fails exactly when that slot is not free, changing nothing |
| `NavMesh.NavMesh.ConnectTile` | thirdparty/Detour/Source/DetourNavMesh.cpp:1020-1055 | the links become exactly those of linking the tile inside itself and then with the tiles seen around it, cell by cell; no link dangles that did not before |
| `NavMesh.NavMesh.ConnectPair` | thirdparty/Detour/Source/DetourNavMesh.cpp:1038-1041 | border links one way and the other, then off-mesh links one way and the other, and nothing else |
| `TileSewing.PairSews` | thirdparty/Detour/Source/DetourNavMesh.cpp:1038-1041 | that links all border edges that touch and all connections that land, unless links ran out, and takes no link away |
| `NavMesh.NavMesh.ConnectCell` | thirdparty/Detour/Source/DetourNavMesh.cpp:1032-1054 | exactly the first 32 tiles of the cell's bucket are linked with the tile, once each and in order |
| `TileSewing.AroundSews` | thirdparty/Detour/Source/DetourNavMesh.cpp:1026-1055 | after that every tile of a cell of at most 32 beside the new one is linked with it as far as links lasted, and none has lost a link |
| `NavMesh.Run` | thirdparty/Detour/Source/DetourNavMesh.cpp:914-1339 | any run of additions and removals does to tiles, links, buckets and free list what the operations do on values; if tiles are only removed while no cell holds more than 32, no link dangles at any time |
| `NavMesh.Step` | thirdparty/Detour/Source/DetourNavMesh.cpp:914-1339 | one operation does that, whatever its outcome |
| `TileSeams.BordersJoin` | thirdparty/Detour/Source/DetourNavMesh.cpp:396-455 | unless the tile ran out of links, each border edge is linked to the first four polygons it touches |
| `TileSeams.BorderLinksMean` | thirdparty/Detour/Source/DetourNavMesh.cpp:396-430 | a border edge on the side asked for gets links, over that edge and side, to the first four polygons of the other tile with an edge on the opposite border that touches it, each reference decoding to that tile, its salt and the polygon; any other edge gets none |
| `TileSeams.OppositeBack` | thirdparty/Detour/Include/DetourCommon.h:465 | going out over one side and then over the opposite one leads back to the cell |
| `TileSeams.LandingMeans` | thirdparty/Detour/Source/DetourNavMesh.cpp:479-490 | the reference linked to names the polygon the search found in that tile, if it found one |
| `TileSeams.CandidatesMean` | thirdparty/Detour/Source/DetourNavMesh.cpp:321-353 | the candidates are exactly the polygons with an edge under the code that touches |
| `TileSeams.OffMeshJoins` | thirdparty/Detour/Source/DetourNavMesh.cpp:466-524 | going through the connections makes each of their links, unless links ran out, and takes none away |
| `TileSeams.SewnGrows` | thirdparty/Detour/Source/DetourNavMesh.cpp:1032-1055 | what has been linked between two tiles stays linked while others are |
| `NavMesh.NavMesh.AddTile` | thirdparty/Detour/Source/DetourNavMesh.cpp:914-1061 | the status is the first check that fails; on success the first free slot, or the one named, holds the tile at the head of its bucket, with its old salt or the one restored, its polygons are linked across their internal edges as far as links last, and links are exactly those of linking it inside itself and around, which sews it to every neighbour in a cell of at most 32; no link dangles that did not before; a failure changes nothing; the new reference names slot and salt, is `lastRef` itself when that was a tile's reference, and null exactly when `lastRef` restores salt 0 in slot 0 |
| `TileStore.NoNullReference` | thirdparty/Detour/Source/DetourNavMesh.cpp:1325-1345 | over any run in which slot 0 is not filled on demand with salt 0, no polygon's reference is null |
| `TileStore.NullReferenceAtStart` | thirdparty/Detour/Source/DetourNavMesh.cpp:943-971 | on a fresh mesh the reference 1 does that: the addition succeeds and its first polygon is the null reference |
| `NavMesh.RefRestored` | thirdparty/Detour/Source/DetourNavMesh.cpp:943-971 | a tile put back with the reference it had has that reference again |
| `TileMesh.TileHashSteps` | thirdparty/Detour/Source/DetourNavMesh.cpp:114-120 | in 32 bits one step along either axis adds its own constant, and the bucket is the remainder of what that comes to |
| `NavMesh.NavMesh.RemoveTile` | thirdparty/Detour/Source/DetourNavMesh.cpp:1246-1339 | refuses references that do not match, and would read a null header exactly when the slot is free; otherwise the slot becomes the first free one with the next salt, the tiles among the first 32 of the near cells lose exactly their links to it, and no link dangles afterwards exactly when every tile that pointed at it was among those |
| `TileStore.RemovedExact` | thirdparty/Detour/Source/DetourNavMesh.cpp:1276-1336 | whether a removal leaves a dangling link, decided by the buckets and links before it |
| `TileCrowd.CrowdedRemovalDangles` | thirdparty/Detour/Source/DetourNavMesh.cpp:1246-1339 | 33 layers added to a cell beside a tile, with any number of buckets and contact only between their facing edges: all additions succeed, and removing the tile leaves the oldest layer with a link to it |
| `TileCrowd.CrowdedRun` | thirdparty/Detour/Source/DetourNavMesh.cpp:1246-1339 | the same run on the store: nothing dangles until the removal, then something does |
| `TileStore.NullReadExact` | thirdparty/Detour/Source/DetourNavMesh.cpp:1246-1262 | a reference to a free slot is read through a null header exactly when it carries the salt the slot will use next |
| `TileStore.NullReadAtStart` | thirdparty/Detour/Source/DetourNavMesh.cpp:1246-1262 | on a fresh mesh the reference the first tile will get does so |
| `NavMesh.NavMesh.Vacate` | thirdparty/Detour/Source/DetourNavMesh.cpp:1258-1274 | the tile leaves its bucket, whose other tiles keep their order, and no other chain changes |
| `NavMesh.NavMesh.Reset` | thirdparty/Detour/Source/DetourNavMesh.cpp:1313-1336 | the slot is the first free one, with the next salt and no links |
| `NavMesh.NavMesh.UnconnectAround` | thirdparty/Detour/Source/DetourNavMesh.cpp:1276-1295 | exactly the first 32 tiles of each of the nine cells are unconnected from the slot, which keeps all their other links |
| `NavMesh.NavMesh.constructor` | thirdparty/Detour/Source/DetourNavMesh.cpp:224-269 | all slots are free with salt 1, the first on top |
| `TileMesh.RemovalExact` | thirdparty/Detour/Source/DetourNavMesh.cpp:1276-1336 | after emptying a slot and unconnecting any set of tiles no link dangles if and only if every live tile that pointed at it is in the set |
| `NavMesh.RoomyReached` | thirdparty/Detour/Source/DetourNavMesh.cpp:1276-1295 | with at most 32 tiles in every cell removal reaches every tile that points at the removed one |
| `TileMesh.OnlyNearPoint` | thirdparty/Detour/Source/DetourNavMesh.cpp:1026-1055 | links lead only to tiles in the same or a neighbouring cell |
| `TileMesh.AdditionOk` | thirdparty/Detour/Source/DetourNavMesh.cpp:1008-1018 | putting a tile without links in a free slot makes no link dangle |
| `TileMesh.ValidRefsExact` | thirdparty/Detour/Source/DetourNavMesh.cpp:1229-1238 | a polygon of a live tile is named by exactly one valid reference |
| `TileStore.SaltCounts` | thirdparty/Detour/Source/DetourNavMesh.cpp:1325-1336 | over any run, the salt of a slot that is not restored through `lastRef` is its first salt aged once per removal of that slot |
| `TileStore.RemovedRefRejected` | thirdparty/Detour/Source/DetourNavMesh.cpp:1229-1238 | over any run without such a restoration, a polygon's reference is valid at the end exactly when its slot was emptied a multiple of 2^saltBits - 1 times and holds a tile with that polygon |
| `Decimal.String2ll` | thirdparty/hiredis/read.c:159-220 | accepts exactly the canonical decimal forms of 64-bit integers, both extremes included, and gives their value |
| `Decimal.Accumulate` | thirdparty/hiredis/read.c:185-202 | the unsigned accumulator never wraps; where it would, the text is no 64-bit numeral |
| `Decimal.Ll2str` | thirdparty/hiredis/sds.c:432-461 | prints the canonical form of any 64-bit integer in the 21-byte buffer, closed by a zero |
| `Decimal.ParseShow` | thirdparty/hiredis/read.c:159-220 | parsing a printed number gives it back |
| `Decimal.ShowInjective` | thirdparty/hiredis/sds.c:432-461 | different numbers print differently |
| `Decimal.ReverseInPlace` | thirdparty/hiredis/sds.c:450-458 | the digits come out in reverse order, the rest of the buffer untouched |
| `Decimal.CountDigits` | thirdparty/hiredis/hiredis.c:266-274 | the number of decimal digits |
| `Decimal.DigitCount` | thirdparty/hiredis/hiredis.c:266-274 | a number has at most k digits exactly when it is below ten to the k |
| `RespReader.SeekNewline` | thirdparty/hiredis/read.c:121-145 | the first line end if the search gets there, its bound being what an `int` keeps of the length; otherwise the end of the data |
| `RespWidths.LineAgrees` | thirdparty/hiredis/read.c:121-145 | a line is seen as it is exactly when its end lies below what an `int` keeps of the number of unread bytes, as always with fewer than 2^31 |
| `RespWidths.BulkAgrees` | thirdparty/hiredis/read.c:346-409 | a bulk string is taken as the grammar says exactly when its line end is found and the number of its bytes does not wrap an `unsigned long` to as many as have arrived, or when the line end is not found but the grammar wants more bytes too |
| `RespWidths.FateShort` | thirdparty/hiredis/read.c:618-669 | with fewer than 2^31 unread bytes only such a wrapped length goes wrong, and with a 64-bit `unsigned long` nothing does |
| `RespRun.ArgumentSeen` | thirdparty/hiredis/read.c:346-409 | an argument of any size comes out once all of it is there exactly when its length line ends below what an `int` keeps of its number of bytes and that number does not wrap |
| `RespRun.BlindedRun` | thirdparty/hiredis/read.c:121-145 | an argument of 2^31 bytes never comes out although all of it has arrived and the grammar delivers it |
| `RespRun.OverrunRun` | thirdparty/hiredis/read.c:381-387 | with a 32-bit `unsigned long`, fourteen bytes that announce 4,294,967,292 more make the reader copy past its buffer where the grammar waits |
| `RespReader.Reader.Feed` | thirdparty/hiredis/read.c:586-616 | the bytes join the stream; after an error they are refused |
| `RespReader.Reader.GetReply` | thirdparty/hiredis/read.c:618-669 | delivers what a recursive parse of the pending bytes gives (`RespWire.ParseExact` says from which bytes), the next reply, nothing yet, or the first error, which stays, exactly when going through the unread bytes item by item meets none that the reader sees wrong, or when it is only blinded to a line and the grammar wants more bytes too; which of these happens is decided by the stack and the unread bytes before the call |
| `RespReader.Reader.ProcessItem` | thirdparty/hiredis/read.c:489-556 | one step of the task stack: stuck, failed or advanced as the grammar says of the pending bytes, or blinded or broken exactly as the walk over the unread bytes says |
| `RespReader.Reader.ProcessLineItem` | thirdparty/hiredis/read.c:264-344 | a one-line item is consumed whole or not at all, and judged as the grammar judges it, unless its line end is not found |
| `RespReader.Reader.ProcessBulkItem` | thirdparty/hiredis/read.c:346-409 | a bulk string is consumed whole or not at all, by its wrapped length |
| `RespReader.Reader.ProcessAggregateItem` | thirdparty/hiredis/read.c:411-487 | a count line opens an aggregate, finishes an empty or null one, or fails, at most eight deep |
| `RespReader.Reader.MoveToNextTask` | thirdparty/hiredis/read.c:237-262 | a finished item joins its aggregate and completed aggregates close, up to the root |
| `RespReader.Reader.Run` | thirdparty/hiredis/read.c:636-641 | steps until the reply is complete, the bytes run out, an error turns up or the reader goes wrong |
| `RespRun.Drive` | thirdparty/hiredis/read.c:586-669 | a new reader put through any interleaving of feeds and requests, up to where it breaks, delivers a prefix of the replies of the whole stream, all of them once the grammar has no more, and stops at the stream's first error; below 2^31 bytes offered no request is blinded and, with a 64-bit `unsigned long`, none goes wrong |
| `RespStream.ChunksDoNotMatter` | thirdparty/hiredis/read.c:586-669 | for every interleaving of feeds and requests the replies are a prefix of the whole stream's, all of them once the reader is quiet, and the error is the stream's own |
| `RespStream.RunOwes` | thirdparty/hiredis/read.c:586-669 | delivered and owed replies together are always the stream's |
| `RespGrammar.ParseStable` | thirdparty/hiredis/read.c:489-556 | what has been decided about the first bytes is not changed by later ones |
| `RespWire.ParseExact` | thirdparty/hiredis/read.c:489-556 | a reply of any kind, nested up to eight deep, is read from exactly those bytes that are a way to write it, given byte by byte: type byte, text or number, line end, a map's count being half its elements, and every spelling of null and of the booleans; what follows is left |
| `RespWire.ParseWritten` | thirdparty/hiredis/read.c:489-556 | whatever way a reply is written, it is read back |
| `RespWire.WrittenParsed` | thirdparty/hiredis/read.c:489-556 | whatever is read as a reply is a way to write that reply |
| `RespWire.StreamOfReplies` | thirdparty/hiredis/read.c:618-669 | replies of any kind sent back to back come out one for one, in order |
| `RespWire.RefusedByte` | thirdparty/hiredis/read.c:494-533 | an unknown type byte is refused at once, a ninth level of nesting before its count is read |
| `RespWire.RefusedLine` | thirdparty/hiredis/read.c:264-487 | a line that should hold a number or a double and does not is refused, each with its own error |
| `RespWire.RefusedNumber` | thirdparty/hiredis/read.c:362-465 | so is a length or count below -1, and a count past the configured limit, a map's doubled |
| `RespStack.CloseFrame` | thirdparty/hiredis/read.c:237-262 | the last element completes the innermost aggregate |
| `RespStack.OpenFrame` | thirdparty/hiredis/read.c:411-487 | a count line leaves an aggregate on the stack that stands for the elements still to come |
| `RespWriter.FormatCommandArgv` | thirdparty/hiredis/hiredis.c:599-635 | writes the command as an array of bulk strings; the length computed beforehand is the length written, and a zero closes it |
| `RespWriter.TotalLength` | thirdparty/hiredis/hiredis.c:610-615 | the precomputed length is the length of the command |
| `RespWriter.BulkLen` | thirdparty/hiredis/hiredis.c:279-281 | the number of bytes any argument of this length takes in a command |
| `RespWriter.ParseCommand` | thirdparty/hiredis/hiredis.c:599-635 | a written command is read back as one array of bulk strings equal to the arguments, whatever bytes they hold |
| `RespWriter.StreamOfCommands` | thirdparty/hiredis/hiredis.c:599-635 | commands written back to back are read back one for one, in order |
| `RespTemplate.ReadTemplate` | thirdparty/hiredis/hiredis.c:297-441 | one pass over the template gives the filled words of the template split at spaces first; other directives are reported |
| `RespTemplate.FormatCommand` | thirdparty/hiredis/hiredis.c:283-490 | formatting a template gives the bytes of formatting its filled words as a vector |
| `RespTemplate.InsertionsStayInside` | thirdparty/hiredis/hiredis.c:306-343 | changing an inserted argument, spaces and all, changes only the word it stands in and never the number of words |
| `RespTemplate.TemplateMeans` | thirdparty/hiredis/hiredis.c:297-343 | a template written as words with spaces between, `%%` for a percent sign and `%s` or `%b` for an argument, stands for those words with their own arguments filled in |
| `RespTemplate.PlainTemplate` | thirdparty/hiredis/hiredis.c:297-343 | a template without arguments gives its words, the doubled percent signs made single |
| `RespTemplate.ItemsWritten` | thirdparty/hiredis/hiredis.c:297-441 | a template is read item by item, a percent sign at its very end standing for itself |
| `RespTemplate.OtherWritten` | thirdparty/hiredis/hiredis.c:344-441 | any other directive is reported |
| `RespTemplate.FillPieces` | thirdparty/hiredis/hiredis.c:322-343 | filling goes piece by piece, each argument in the order of its hole |
| `AsyncMachine.ActAllOk` | thirdparty/hiredis/async.c:634-712 | whatever commands, disconnects and frees user code issues, the queue, the count and the flags stay what the history says, and nothing is taken off the wire |
| `AsyncMachine.ActAllSends` | thirdparty/hiredis/async.c:634-712 | the commands that user code issues before it first disconnects or frees are queued in order with consecutive numbers and their bytes buffered; later ones are not |
| `AsyncMachine.CallRuns` | thirdparty/hiredis/async.c:251-258 | a callback with a function runs it once with exactly these effects; one without changes nothing else |
| `AsyncMachine.CallOk` | thirdparty/hiredis/async.c:251-258 | running a callback's function keeps the history accepted whatever the function does |
| `AsyncMachine.DropAllOk` | thirdparty/hiredis/async.c:267-269 | while tearing down every waiting callback is dropped, none is left, and what they do meanwhile adds none |
| `AsyncMachine.DestroyOk` | thirdparty/hiredis/async.c:261-303 | tearing down ends the history with everything settled, repeating nobody |
| `AsyncMachine.CloseOk` | thirdparty/hiredis/async.c:317-342 | closing, with an error or with nobody waiting, destroys the context with an accepted history |
| `AsyncMachine.CleanClose` | thirdparty/hiredis/async.c:317-342 | a clean disconnect drops nobody and runs no user code but the disconnect callback, told all is well |
| `AsyncMachine.DeliverOk` | thirdparty/hiredis/async.c:446-492 | a reply is taken off the wire once; a callback is repeated exactly when nobody waits and one with a function was served before in the batch |
| `AsyncMachine.ProcessOk` | thirdparty/hiredis/async.c:420-498 | serving a batch leaves an accepted history, takes a prefix of the batch off the wire in order, and with assertions on repeats nobody |
| `AsyncMachine.ProcessPursues` | thirdparty/hiredis/async.c:425-435 | a batch that leaves the context open leaves it with something to send or to wait for, or not disconnecting; without errors it is destroyed only when freed, or with every command sent and answered |
| `AsyncMachine.DestroyTells` | thirdparty/hiredis/async.c:292-300 | the disconnect callback, if there is one to tell, is told last, that all is well exactly when there was no error or the context was being freed |
| `AsyncMachine.ServedAgain` | thirdparty/hiredis/async.c:446-478 | with assertions off two replies to one command run its callback twice |
| `AsyncConnection.AsyncContext.AsyncCommand` | thirdparty/hiredis/async.c:634-712 | a regular command is accepted, its callback queued last and its bytes buffered, unless the context is disconnecting or being freed |
| `AsyncConnection.AsyncContext.AsyncFree` | thirdparty/hiredis/async.c:309-314 | inside a callback only marks the context; otherwise destroys it at once, dropping every waiting callback |
| `AsyncConnection.AsyncContext.AsyncDisconnect` | thirdparty/hiredis/async.c:350-358 | inside a callback or with callbacks waiting only marks the context; otherwise closes it at once |
| `AsyncConnection.AsyncContext.DoDisconnect` | thirdparty/hiredis/async.c:317-342 | reached without an error only when no callback is waiting, as the source asserts; the context is destroyed and its error kept |
| `AsyncConnection.AsyncContext.DoFree` | thirdparty/hiredis/async.c:261-303 | every waiting callback is told there is no reply, the disconnect callback hears the right status if connected, and the context is destroyed once |
| `AsyncConnection.AsyncContext.DropWaiting` | thirdparty/hiredis/async.c:267-269 | the queue is emptied in order, each callback with no reply and each running its function, which can add none |
| `AsyncConnection.AsyncContext.RunCallback` | thirdparty/hiredis/async.c:251-258 | the callback's function runs once, all its actions in order, with the in-callback flag set only meanwhile |
| `AsyncConnection.AsyncContext.Perform` | thirdparty/hiredis/async.c:309-358 | user code inside a callback has exactly the effect of its actions in order; its frees and disconnects are put off |
| `AsyncConnection.AsyncContext.FailAssertion` | thirdparty/hiredis/async.c:471-472 | a reply nobody asked for that is no error stops the program where assertions are on |
| `AsyncConnection.AsyncContext.Refuse` | thirdparty/hiredis/async.c:464-470 | an error reply nobody asked for closes the connection with that error |
| `AsyncConnection.AsyncContext.ProcessCallbacks` | thirdparty/hiredis/async.c:420-498 | each reply of the batch goes to the first waiting callback, which runs; the context ends as the machine's outcome says: open, destroyed with which error, or stopped by the assertion; it is not left open after a parser's error, nor disconnecting with everything sent and answered |
| `AsyncConnection.AsyncContext.DeliverReply` | thirdparty/hiredis/async.c:446-492 | the first waiting callback gets the reply; with assertions off and none waiting, the one served last gets it again |
| `AsyncConnection.AsyncContext.HandleRead` | thirdparty/hiredis/async.c:522-550 | a read event connects, closes on an error or serves the replies, with the machine's outcome for each; a connected context is never left open after an error, nor disconnecting with everything sent and answered |
| `AsyncConnection.AsyncContext.HandleWrite` | thirdparty/hiredis/async.c:552-583 | a write event connects, closes exactly on an error or sends |
| `AsyncConnection.AsyncContext.HandleConnect` | thirdparty/hiredis/async.c:503-520 | a failed attempt destroys the context with its error, without telling the disconnect callback |
| `AsyncConnection.Feed` | thirdparty/hiredis/async.c:503-712 | any one event or request leaves a context that is open between events, destroyed, or stopped by an assertion, takes the replies it brings in or a first part of them, and with assertions repeats nobody; a request to disconnect is remembered, and a read does not leave it pending when everything was sent and answered |
| `AsyncConnection.Drive` | thirdparty/hiredis/async.c:420-712 | every run of reads, writes, commands, disconnects and frees, with arbitrary callbacks, has an accepted history; with assertions no callback is repeated; it is destroyed at most once; the replies taken are the first that arrived, all of them while the context is open, and as long as none was unasked for command k gets arrival k; a run that was asked to disconnect, got as many replies as it issued commands, sent all bytes and ends with a read of a connected socket is destroyed; a destroyed context told its disconnect callback last, if it had one and was connected, and if nothing went wrong told it that all is well and, unless freed, dropped nobody |
| `AsyncConnection.ServedTwice` | thirdparty/hiredis/async.c:446-478 | a context built with assertions off that reads two replies, after one command, hands both to its callback |
| `AsyncLedger.SettledOnce` | thirdparty/hiredis/async.c:261-303 | the callbacks that left the queue are the first ones issued, each once |
| `AsyncLedger.IssueOrder` | thirdparty/hiredis/async.c:235-249 | callbacks leave the queue in issue order |
| `AsyncLedger.Matching` | thirdparty/hiredis/async.c:446-478 | as long as every reply was asked for, the k-th command gets the k-th reply on the wire |
| `AsyncLedger.AtMostOnce` | thirdparty/hiredis/async.c:446-492 | no callback is handed anything twice if and only if none was repeated with a reply nobody asked for |
| `AsyncLedger.AskedOnlyAtMostOnce` | thirdparty/hiredis/async.c:446-492 | with one reply per command no callback is handed anything twice |
| `AsyncLedger.DestroyedSettlesAll` | thirdparty/hiredis/async.c:261-303 | once destroyed every accepted command was settled exactly once, and nothing more can happen |
| `AsyncLedger.SettledHow` | thirdparty/hiredis/async.c:261-303 | a settled callback got a reply or was told there is none, never both |
| `AsyncLedger.DroppedLast` | thirdparty/hiredis/async.c:261-303 | callbacks without a reply come after all that got one |
| `SdsQuote.CatRepr` | thirdparty/hiredis/sds.c:867-890 | appends the quoted form of the bytes |
| `SdsQuote.Join` | thirdparty/hiredis/sds.c:1097-1106 | joins strings with a separator |
| `SdsQuote.SplitArgs` | thirdparty/hiredis/sds.c:942-1058 | splits a line as the recursive lexer does, with the same failures on unbalanced quotes |
| `SdsQuote.GetToken` | thirdparty/hiredis/sds.c:952-1030 | the flag-driven token loop agrees with the recursive lexer |
| `SdsQuote.QuoteRoundTrip` | thirdparty/hiredis/sds.c:867-1058 | any list of byte strings, printed, joined by spaces and split, comes back unchanged |
| `SdsQuote.ReadRepr` | thirdparty/hiredis/sds.c:958-994 | a printed string is read back as one token when a blank or the end follows |
| `SdsQuote.SpelledSplit` | thirdparty/hiredis/sds.c:942-1058 | words with blanks between, each written bare, in single quotes or in double quotes with any mixture of the escapes, split into the arguments they stand for |
| `SdsQuote.ReadSpelling` | thirdparty/hiredis/sds.c:952-1030 | one word written in any of these ways is read as what it stands for when a blank or the end follows |
| `SdsQuote.ReprEscapes` | thirdparty/hiredis/sds.c:867-890 | each byte is printed in one of those ways: by its letter if it has one, in lower-case hexadecimal if it cannot be printed, otherwise as it is |
| `SdsQuote.OpenDouble` | thirdparty/hiredis/sds.c:958-1000 | double quotes that are not closed, or closed before anything but a blank, are an error |
| `SdsQuote.OpenSingle` | thirdparty/hiredis/sds.c:1001-1015 | so are single quotes |
| `Dict.Dict.Expand` | thirdparty/hiredis/dict.c:88-132 | a larger table of a power of two holds the same map, with every key in the bucket of its masked hash; refused exactly when the size is below the number of entries |
| `Dict.MaskIsRemainder` | thirdparty/hiredis/dict.c:102-117 | masking with one less than a power of two takes the remainder |
| `Dict.Dict.Rehash` | thirdparty/hiredis/dict.c:102-126 | moving every entry, stopping early when all are moved, keeps the map |
| `Dict.Dict.ExpandIfNeeded` | thirdparty/hiredis/dict.c:294-303 | the table is made with four buckets, doubled exactly when it is full, and then has room |
| `Dict.NextPowerSame` | thirdparty/hiredis/dict.c:305-315 | a power of two is enough for itself |
| `Dict.Dict.Add` | thirdparty/hiredis/dict.c:135-154 | adds the key exactly when it is new; the table has four buckets at first and doubles exactly when it is full, so there are never more entries than buckets |
| `Dict.Dict.Replace` | thirdparty/hiredis/dict.c:160-179 | sets the key's value and tells whether it was new |
| `Dict.Dict.Delete` | thirdparty/hiredis/dict.c:182-210 | removes the key exactly when present, unlinking one entry and nothing else |
| `Dict.Dict.Find` | thirdparty/hiredis/dict.c:243-256 | the key's value exactly when present |
| `Dict.Dict.Locate` | thirdparty/hiredis/dict.c:320-337 | the position of a key in its bucket, or none exactly when the map lacks it |
| `Dict.DictIterator.Next` | thirdparty/hiredis/dict.c:268-286 | an entry not visited before, or none exactly when every one was visited |
| `Dict.DictIterator.DeleteCurrent` | thirdparty/hiredis/dict.c:268-286 | deleting an entry already handed out leaves the rest of the iteration as it was |
| `Dict.Sweep` | thirdparty/hiredis/dict.c:258-286 | an iteration that deletes some of the entries it is handed visits every initial entry exactly once |
| `Dict.HoldsOneMap` | thirdparty/hiredis/dict.c:88-210 | a table stands for one map only |
| `Dict.DeleteKeepsVisit` | thirdparty/hiredis/dict.c:278-283 | an entry that is not to be visited any more can be deleted during an iteration |
| `PacketBuffer.PacketBuffer.SetPacketData` | Server/Common/UserModels/User.h:36-64 | a piece is appended to the pending bytes, or dropped whole exactly when pending and piece exceed 65536 bytes; the copy would run past the buffer exactly when the write position and the size wrap at 2^32 |
| `PacketBuffer.OverrunRun` | Server/Common/UserModels/User.h:36-64 | one byte and then a piece of 2^32 - 1 bytes is copied past the buffer |
| `PacketBuffer.PacketBuffer.GetPacket` | Server/Common/UserModels/User.h:66-98 | the next packet of the framing of all bytes accepted; none exactly when all have been given, with a reset when the header is malformed |
| `PacketBuffer.PacketBuffer.HasPendingPacket` | Server/Common/UserModels/User.h:100-112 | true exactly when the next request would give a packet |
| `PacketBuffer.PacketBuffer.Compact` | Server/Common/UserModels/User.h:41-54 | the pending bytes move to the front unchanged |
| `PacketBuffer.Drain` | Server/Common/UserModels/User.h:66-112 | asking until nothing is pending gives exactly the framing of the accepted bytes |
| `PacketBuffer.FrameAllAppend` | Server/Common/UserModels/User.h:66-98 | where the stream is cut does not matter to its framing |
| `PacketBuffer.FrameAllJoins` | Server/Common/UserModels/User.h:66-98 | framing loses no byte |
| `PacketBuffer.WrittenFramed` | Server/Common/UserModels/User.h:66-98 | a packet of 5 to 2048 bytes written with its length and id low byte first is framed as itself, with that id, whatever follows |
| `PacketBuffer.WrittenStream` | Server/Common/UserModels/User.h:66-98 | such packets back to back come out one for one, and the beginning of another waits |
| `PacketBuffer.MalformedExact` | Server/Common/UserModels/User.h:77-85 | a header is refused exactly when its length is below 5 or above 2048, and waits exactly for the bytes it announces |

## Left out

- FastLZ copying in 16-bit words: the byte-wise copy is modelled; reads past the end of the input, undefined in C, are an outcome of their own (`OverRead`).
- FastLZ hash values: the hash is any function of the position; `FastLzBoundary.SourceHash` is the one of the source, on one text.
- Geometry and floating point: costs, heuristics, edge midpoints, slab overlap, nearest polygons, quantisation and clamping of boxes, portal limits on links.
- Sliced path finding, `findStraightPath`, `raycast`, `moveAlongSurface`, `dtNodePool::findNodes`.
- NavQuery.NavMeshQuery.FindPath: a polygon's links are a sequence given by the world, not read from the tile store, and costs do not round.
- The order the sort of the tree builder produces: only that it permutes is used.
- NavMesh.NavMesh.ConnectIntLinks: a slot holds its links as a value and not as a pool object, so sharing between the two is not captured; every live slot's value has a history from an empty buffer (`AllPooled`), and `TileLinks.Replay` puts a pool through any history.
- NavMesh.NavMesh.ConnectExtOffMeshLinks: moving a connection's end onto the mesh, which is geometry, is not modelled.
- NavMesh.NavMesh.constructor: the bit widths and table size are parameters, the size any number where the source's is a power of two; `PolyRef.WidthMeans` and `PolyRef.SaltBitsExact` are about how they are computed, as bit vectors. Tile data buffers, their ownership flags, tile state storage and the 64-bit reference layout are not modelled.
- RESP doubles: which texts `strtod` accepts is a predicate. Replies are built as values on the task stack, where the source links child objects in place; freeing of partial replies, verbatim type tags and the reader's unused-buffer trimming are left out.
- RespReader.Reader.GetReply: nothing is modelled of a reader once it has copied past its buffer or lost its position.
- RespReader.Reader.Feed: growing and trimming the underlying buffer is not modelled, only its contents.
- RespReader.Reader.ProcessAggregateItem: counts, doubled for maps, must fit the configured limit, at most the largest `int`; beyond it the reader reports that memory ran out.
- RespTemplate.ReadTemplate: printf directives other than `%s`, `%b` and `%%` in command templates: reported as unsupported. The lengths are bounded by the largest `int`, as the return type demands.
- BvQuery.CreateBVTree: the boxes of polygons are a parameter; how they are quantised from vertices is not modelled.
- RespTemplate.FormatCommand: the same restriction as for splitting the template.
- AsyncConnection.AsyncContext.HandleConnect: the connect callback and its status are not part of the history.
- AsyncConnection.AsyncContext.ProcessCallbacks: subscriptions, monitor mode, timeouts and the option not to free automatically are not modelled; neither are the event library's hooks. Callbacks for connecting and disconnecting take a constant context and do not call back.
- SdsQuote.CatRepr: characters are classified as in the C locale; memory running out is not modelled.
- Dict.Dict.Expand: a bucket is a sequence and keys stand for entry pointers, so relinking entries in place is not captured; sizes near the largest `long`, and key and value destructors, are left out.
- PacketBuffer.PacketBuffer.SetPacketData: what a copy past the buffer does is not carried out; the lock and the copy handed out on the heap are not modelled.
- Sockets, TLS, event-loop adapters, connection setup, and the Redis wrapper classes of the server.
- `sdsrange`, `sdssplitlen`, `_dictClear` and the other string and dictionary helpers: easy members.
- Allocation failures elsewhere, byte order and structure layout.
