# Verified model of the rule-based graph compressor

The repository compresses graphs by grammar rules. The neighbour lists of all vertices are written into one text, the most
frequent pair of neighbouring symbols is replaced by a new symbol as long as some pair occurs twice (Re-Pair), and later
passes join parts, inline rules that do not pay, and order what is left. This project models these passes in Dafny and
proves that they do what they are for: **nothing of the graph is lost**, the loops end, and the cross-linked data
structures under them agree with each other in every state of a run.

`dafny verify dfyconfig.toml` checks the whole project.

## How the model is laid out

**Serial Re-Pair.** `RecordTable`, `HashTable`, `FrequencyHeap` and `Chains` model the record array, the probing hash table
with deletion marks, the two-tier heap with its two cell pools, and the doubly linked occurrence lists. `PairIndexes` puts
them together: its ghost map `idx` says which positions are recorded for which pair, and every operation is stated on that
map. `TextThread` models the array with holes, `Coupling` the agreement of text and index, `RoundCount` the two counting
arguments that hold across a round (the extracted record is never moved; no pair becomes more frequent than the one
extracted), `Compaction` the packing of the array. `RePair.Engine` is the algorithm itself, and `Grammar` says, without any
data structure, what a greedy run is and that it is lossless. `CsrCompress` wraps it for graphs.

**Passes over rules.** `RuleGraph` defines what a rule graph means: the expansion of every node. `FilterPass`, `DepthPass`,
`LevelOrder`, `EdgeOrder`, `GraphCheck` and `MergeParts` model the passes, and `LaconicSerial` runs compressing, joining and
filtering one after the other.

**Parallel compressor.** `ParallelRepair` models the three turns over buckets of rows.

**Concurrent hash table.** `LockProtocol` is a state machine over the steps of any number of threads. `CuckooBuckets`,
`CuckooSlots`, `CuckooMoves` and `CuckooTables` model doubling with lazy migration, the moves along cuckoo paths, and the
table as the map it stands for; `CuckooPath` models the search for a path. `Cards`, `Division`, `CsrRows`, `PairSets`,
`Inlining`, `RuleTables` and `MentionCounts` hold what several modules share.

## Main results

- `RePair.Compress`, `Grammar.RunLossless` and `CsrCompress.CompressCsr`: serial compression is a greedy Re-Pair run, loses
  nothing, contains no separator in a rule, and stops only when no pair occurs twice; a hash search that never ends takes
  a text that saves at least 32768 symbols (`RePair.StallSaves`).
- `ListWalk.TextOccurrences`, `PairIndexes.PairIndex.RemoveRecord`, `RoundCount.Outnumbered`, `RoundCount.RoundBound`,
  `FrequencyHeap.FreqHeap.ExtractMax`: the linked structures agree in every state, swap-with-last deletion never moves the
  record in use, and the heap always yields a most frequent pair.
- `FilterPass.FilterCsr`, `DepthPass.DepthFilterCsr`, `MergeParts.JoinSolves`, `GraphCheck.CheckCsr` and
  `LaconicSerial.Laconic`: the passes, and the whole serial pipeline, keep every expansion and inline exactly the rules
  that cost few enough edges.
- `ParallelRepair.Repair` and `ParallelRepair.PairRule`: the three turns of the parallel compressor keep every expansion
  too, its rules stay acyclic, and in each turn exactly the frequent pairs get rules.
- `LockProtocol.SafeExactly` and `LockProtocol.EveryRun`: exactly when locking is safe, and that no threads wait in a
  circle.
- `CuckooTables.CuckooTable.FastDouble`, `CuckooTables.CuckooTable.Upget`, `CuckooPath.SearchExact` and
  `CuckooMoves.StillDecides`: the table is a map through migration, cuckoo moves and growth, and an undisturbed insertion
  finds a place exactly when a free slot is within reach.

## Where the code does not do what one would expect

- A lookup in the pair hash never ends once every cell has been used and the pair is absent. `Search` says so exactly,
  `ProbeExhaustion.WornOut` shows that insertions and deletions alone lead there, and every method of the engine says
  whether a search went round (`ok`). It cannot happen while the index is built (`HashTable.HasSpare`,
  `RePair.Engine.Prepare`), nor at all for texts of at most 43690 symbols or that save fewer than 32768 symbols
  (`RePair.StallSaves`).
- A cuckoo path with a slot on it twice cannot be followed to its start in general. Undisturbed searches give none
  (`CuckooPath.FoundFits`).
- `compress_csr` reports one rule, although there is none, when the vertex list is empty (`CsrCompress.CompressCsr`).
- The guarantee of the locking protocol fails when a resize may shrink the table or double it the fast way, there are fewer
  locks than the maximum at the start, and there are two threads; in all other cases it holds
  (`LockProtocol.SafeExactly`). Growing is enough to break it: `cuckoo_fast_double` swaps the bucket arrays before it
  stores the new hash power, and the swap stores the power that the old array still carries, for one moment
  (`LockProtocol.GrowthUnsafe`). A table that begins with 65536 buckets or more may shrink and double freely.
- The loop that orders edges ends before the sentinel exactly when no chain of rules is that deep
  (`EdgeOrder.LoopEnds`); on a circle of rules no edge of the circle gets an order before the sentinel is reached
  (`EdgeOrder.CircleWaits`).
- Levels stay below the sentinel only if no trail of rules is that long (`LevelOrder.ShallowNeeded`), and then
  `LevelOrder.VertexOrder` finds them.
- The compile-time bound on the number of slots does not keep path codes within 16 bits (`CuckooPath.NineSlots`).
- The loop variable that `merge.h` declares without a value is taken to start at 0.
- A part is read with one edge too many by the driver; the surplus edge belongs to no row and is ignored by compression.

## Model

| member | source | states |
|---|---|---|
| `HashTable.PairHash.constructor` | Re-Pair&Laconic_serial/rule_compress/compress_op/compress/hash.cc:67-82 | an empty table of the power of two next above the one asked for, every cell never used |
| `HashTable.PairHash.Search` | Re-Pair&Laconic_serial/rule_compress/compress_op/compress/hash.cc:44-57 | the id filed under the pair or -1; the probe goes round for ever exactly when no never-used cell is left and the pair is absent |
| `HashTable.PairHash.FindSlot` | Re-Pair&Laconic_serial/rule_compress/compress_op/compress/hash.cc:84-94 | the first cell of the probe sequence without a record, every earlier one live |
| `HashTable.PairHash.Insert` | Re-Pair&Laconic_serial/rule_compress/compress_op/compress/hash.cc:96-123 | the table stands for the records filed before and the new one, `kpos` inverse to `table`; at most one never-used cell is spent; the table doubles exactly when it is half full |
| `HashTable.PairHash.Rehash` | Re-Pair&Laconic_serial/rule_compress/compress_op/compress/hash.cc:104-112 | every record of the old table, and nothing else, is filed in the new one |
| `HashTable.PairHash.Resize` | Re-Pair&Laconic_serial/rule_compress/compress_op/compress/hash.cc:101-117 | doubling keeps the records filed and never loses never-used cells |
| `HashTable.PairHash.Delete` | Re-Pair&Laconic_serial/rule_compress/compress_op/compress/hash.cc:59-65 | the record alone disappears, and every other one is still found although a mark stays behind |
| `HashTable.Moved` | Re-Pair&Laconic_serial/rule_compress/compress_op/compress/hash.cc:134-139 | once the last record has been copied over a dead row and its cell points at the new id, the table files it under that id and all others as before, and no never-used cell is lost |
| `HashTable.HasSpare` | Re-Pair&Laconic_serial/rule_compress/compress_op/compress/hash.cc:96-123 | as long as nothing was deleted since the table was last rebuilt, the cells that hold no record are never-used |
| `HashTable.PairHash.HalfSpare` | Re-Pair&Laconic_serial/rule_compress/compress_op/compress/hash.cc:96-123 | so at least half of the cells are never-used then, and at least as many as hold records |
| `HashTable.Missed` | Re-Pair&Laconic_serial/rule_compress/compress_op/compress/hash.cc:50-55 | a probe that ends without a match has missed nothing: the pair is filed nowhere |
| `ProbeExhaustion.EveryCell` | Re-Pair&Laconic_serial/rule_compress/compress_op/compress/hash.cc:47-48 | the multiplicative hash reaches every cell of a table of any size, already with pairs whose right symbol is 0 |
| `ProbeExhaustion.WornStep` | Re-Pair&Laconic_serial/rule_compress/compress_op/compress/hash.cc:59-94 | inserting a record into a table without records and deleting it again marks the first cell of its probe |
| `ProbeExhaustion.WornOut` | Re-Pair&Laconic_serial/rule_compress/compress_op/compress/hash.cc:59-94 | such steps alone use up every never-used cell of a table of any size, so a run on which a lookup never ends exists |
| `FrequencyHeap.FreqHeap.constructor` | Re-Pair&Laconic_serial/rule_compress/compress_op/compress/heap.cc:36-59 | both pools hold `sqrtu` cells, the least number of at least 2 whose square reaches the text length, and the heap is empty |
| `FrequencyHeap.FreqHeap.IncFreq` | Re-Pair&Laconic_serial/rule_compress/compress_op/compress/heap.cc:106-213 | one record has one occurrence more, and both tiers agree with the frequencies again: array entry below `sqrtu`, cell of the only node of its frequency above, nodes sorted and none empty |
| `FrequencyHeap.FreqHeap.IncMove` | Re-Pair&Laconic_serial/rule_compress/compress_op/compress/heap.cc:126-172 | a record moves to the node of the next frequency, which is created in its place if need be, and an emptied node is dropped |
| `FrequencyHeap.FreqHeap.EnterHigh` | Re-Pair&Laconic_serial/rule_compress/compress_op/compress/heap.cc:181-211 | a record whose frequency reaches `sqrtu` gets a free cell, and one is free |
| `FrequencyHeap.FreqHeap.DecFreq` | Re-Pair&Laconic_serial/rule_compress/compress_op/compress/heap.cc:215-317 | one occurrence less, both tiers in agreement; at frequency 0 the record is off the heap |
| `FrequencyHeap.FreqHeap.DecMove` | Re-Pair&Laconic_serial/rule_compress/compress_op/compress/heap.cc:235-281 | a record moves down to the node of the previous frequency, created in its place if need be |
| `FrequencyHeap.FreqHeap.LeaveHigh` | Re-Pair&Laconic_serial/rule_compress/compress_op/compress/heap.cc:288-311 | a record and its cell leave the high tier; an emptied node goes back to its pool |
| `FrequencyHeap.FreqHeap.Insert` | Re-Pair&Laconic_serial/rule_compress/compress_op/compress/heap.cc:319-325 | a new record is on the heap with frequency 1 |
| `FrequencyHeap.FreqHeap.ExtractMax` | Re-Pair&Laconic_serial/rule_compress/compress_op/compress/heap.cc:327-365 | a record of maximum frequency leaves the heap although `max` never rises, provided nothing rose above it; -1 exactly when the heap is empty |
| `FrequencyHeap.LargestIsMax` | Re-Pair&Laconic_serial/rule_compress/compress_op/compress/heap.cc:342-359 | the node called largest heads the list, and no record is more frequent than its node |
| `FrequencyHeap.CellLeft` | Re-Pair&Laconic_serial/rule_compress/compress_op/compress/heap.cc:182-185 | a free record cell is left as long as fewer than `sqrtu` records are frequent |
| `FrequencyHeap.NodeLeft` | Re-Pair&Laconic_serial/rule_compress/compress_op/compress/heap.cc:142-147 | a free node is left whenever a node is to be made |
| `FrequencyHeap.LowMoved` | Re-Pair&Laconic_serial/rule_compress/compress_op/compress/heap.cc:381-389 | once a record has a new id and its array entry holds that id, the low tier agrees with the renamed records |
| `FrequencyHeap.HighMoved` | Re-Pair&Laconic_serial/rule_compress/compress_op/compress/heap.cc:381-389 | likewise the high tier, once the cell of the record holds the new id |
| `FrequencyHeap.FreqHeap.ClearOnes` | Re-Pair&Laconic_serial/rule_compress/compress_op/compress/heap.cc:367-379 | emptying the array of frequency 1 after its records are gone leaves a heap of the others |
| `Chains.Unlinked` | Re-Pair&Laconic_serial/rule_compress/compress_op/compress.h:147-156 | taking a cell off a doubly linked list by the three writes of the code leaves the same lists without it |
| `Chains.Pushed` | Re-Pair&Laconic_serial/rule_compress/compress_op/compress.h:161-173 | putting a cell in front of a list leaves the same lists with it |
| `Chains.Renamed` | Re-Pair&Laconic_serial/rule_compress/compress_op/compress/records.cc:118-123 | the last list takes over the number of an empty one |
| `Chains.Relocated` | Re-Pair&Laconic_serial/rule_compress/compress_op/compress.h:235-242 | a list cell moved to another place, with its neighbours repaired, stands in the same list at the same rank |
| `ListWalk.WalkList` | Re-Pair&Laconic_serial/rule_compress/compress_op/compress.h:121-137 | following `next` from the head of a list visits exactly the cells it owns, each once |
| `ListWalk.Occurrences` | Re-Pair&Laconic_serial/rule_compress/compress_op/compress.h:121-225 | between two replacements, following the links from `cpos` visits the positions recorded for the pair, each once, as many as `freq` says unless it is the pair being replaced |
| `ListWalk.TextOccurrences` | Re-Pair&Laconic_serial/rule_compress/compress_op/compress.h:121-225 | in every state of the inner loop and between rounds, that walk visits exactly the live cells of the text where the pair starts, overlaps included, as many as the pair occurs in the text |
| `PairIndexes.HighRoom` | Re-Pair&Laconic_serial/rule_compress/compress_op/compress/heap.cc:43-54 | fewer than `sqrtu` records can be frequent, because their occurrences are different positions, so the pools never run out |
| `PairIndexes.PairIndex.constructor` | Re-Pair&Laconic_serial/rule_compress/compress_op/compress.h:77-81 | empty records, hash table, heap and lists agree with each other |
| `PairIndexes.PairIndex.InsertRecord` | Re-Pair&Laconic_serial/rule_compress/compress_op/compress/records.cc:33-54 | a new pair gets the next record, filed in the hash table and on the heap |
| `PairIndexes.PairIndex.RemoveRecord` | Re-Pair&Laconic_serial/rule_compress/compress_op/compress/records.cc:108-125 | the record disappears, the last one takes over its row, and hash cell, heap entry and list head of the moved record agree with it again; a last occurrence gets the null mark |
| `PairIndexes.PairIndex.MoveLast` | Re-Pair&Laconic_serial/rule_compress/compress_op/compress/records.cc:118-124 | the half of the removal that moves the last record: every structure stands for the same pairs without the removed one |
| `PairIndexes.PairIndex.Add` | Re-Pair&Laconic_serial/rule_compress/compress_op/compress.h:158-173 | a new occurrence of a pair is recorded, in a new record or the one of the pair; it fails exactly when the search does not end |
| `PairIndexes.PairIndex.Drop` | Re-Pair&Laconic_serial/rule_compress/compress_op/compress.h:140-157 | an occurrence of a pair is forgotten, and with its last one the record, except the record being replaced |
| `PairIndexes.PairIndex.PopFirst` | Re-Pair&Laconic_serial/rule_compress/compress_op/compress.h:134-137 | the first listed position of the current pair is taken off its list |
| `PairIndexes.PairIndex.ExtractMax` | Re-Pair&Laconic_serial/rule_compress/compress_op/compress.h:110-114 | no recorded pair has more positions than the one extracted; -1 exactly when no pair is recorded |
| `PairIndexes.PairIndex.PurgeHeap` | Re-Pair&Laconic_serial/rule_compress/compress_op/compress/heap.cc:367-379 | exactly the pairs with at least two positions stay recorded |
| `PairIndexes.PairIndex.EndRound` | Re-Pair&Laconic_serial/rule_compress/compress_op/compress.h:226-226 | the record of the replaced pair, without occurrences by then, is gone |
| `PairIndexes.PairIndex.Relocate` | Re-Pair&Laconic_serial/rule_compress/compress_op/compress.h:235-242 | the recorded position moves with its list cell, and nothing else changes |
| `PairIndexes.PairIndex.Truncate` | Re-Pair&Laconic_serial/rule_compress/compress_op/compress.h:248-252 | cells beyond the compacted text hold no recorded position and can be given up |
| `TextThread.AfterIsSucc` | Re-Pair&Laconic_serial/rule_compress/compress_op/compress.h:126-133 | the cell that the code finds behind a live cell, through the forward pointer of a hole, is the next live cell |
| `TextThread.BeforeIsPred` | Re-Pair&Laconic_serial/rule_compress/compress_op/compress.h:175-182 | the cell that the code finds before a live cell, also when a hole of one cell keeps only its forward pointer, is the previous live cell |
| `TextThread.ReplacedThreads` | Re-Pair&Laconic_serial/rule_compress/compress_op/compress.h:218-221 | after the symbol and the two hole pointers are written, the array again denotes one sequence, without the second cell of the pair |
| `TextThread.FromReplaced` | Re-Pair&Laconic_serial/rule_compress/compress_op/compress.h:218-221 | the new sequence, with the new symbol written out, is the old one |
| `TextThread.OccCount` | Re-Pair&Laconic_serial/rule_compress/compress_op/compress.h:121-225 | the number of cells where a pair starts is the number of its occurrences in the text |
| `Coupling.StepCoupled` | Re-Pair&Laconic_serial/rule_compress/compress_op/compress.h:121-225 | one replacement keeps the coupling: the index holds exactly the places where the recorded pairs start, overlapping ones included |
| `RoundCount.Outnumbered` | Re-Pair&Laconic_serial/rule_compress/compress_op/compress/records.cc:108-125 | whenever a record with one occurrence is about to be removed in a round, more pairs are recorded than when the round began, so the extracted record is never the one that is moved |
| `RoundCount.RoundBound` | Re-Pair&Laconic_serial/rule_compress/compress_op/compress/heap.cc:327-365 | no pair has more occurrences after a round than the replaced pair had when it was extracted, so `max` need not rise |
| `Compaction.AllMoved` | Re-Pair&Laconic_serial/rule_compress/compress_op/compress.h:229-253 | at the end of compaction every recorded position is the number of its cell among the live cells |
| `RePair.Engine.IndexOne` | Re-Pair&Laconic_serial/rule_compress/compress_op/compress.h:82-101 | the search ends whatever the text is, since nothing was deleted yet, and with the next pair recorded the index holds the pairs of a longer prefix |
| `RePair.Engine.Prepare` | Re-Pair&Laconic_serial/rule_compress/compress_op/compress.h:66-103 | for every text building the index ends, the index holds exactly the positions of the pairs that occur at least twice, and at least 65536 cells of the hash table, and at least as many as the text has different pairs, are never-used |
| `RePair.Engine.RightHalf` | Re-Pair&Laconic_serial/rule_compress/compress_op/compress.h:138-174 | the pair behind the replaced one gives way to the pair with the new symbol, and the extracted record stays in its row |
| `RePair.Engine.LeftHalf` | Re-Pair&Laconic_serial/rule_compress/compress_op/compress.h:175-217 | the pair before it gives way likewise |
| `RePair.Engine.ReplaceOne` | Re-Pair&Laconic_serial/rule_compress/compress_op/compress.h:121-224 | one occurrence replaced: text and index agree, the text with the new symbol written out is the same, and the text is one symbol shorter |
| `RePair.Engine.ReplaceAll` | Re-Pair&Laconic_serial/rule_compress/compress_op/compress.h:121-225 | the inner loop ends with no occurrence of the pair left in the index and the same text, the new symbol written out |
| `RePair.Engine.FinishRound` | Re-Pair&Laconic_serial/rule_compress/compress_op/compress.h:226-228 | record and single pairs gone: the state between two rounds |
| `RePair.Engine.Advance` | Re-Pair&Laconic_serial/rule_compress/compress_op/compress.h:233-246 | one turn of the compaction loop, with cells and list cells half moved, and the next live cell found |
| `RePair.Engine.Compact` | Re-Pair&Laconic_serial/rule_compress/compress_op/compress.h:229-253 | the array without holes holds the same text, and the index its positions |
| `RePair.Engine.BeginRound` | Re-Pair&Laconic_serial/rule_compress/compress_op/compress.h:109-117 | the extracted pair occurs at least twice, and no pair of the text occurs more often |
| `RePair.Engine.Round` | Re-Pair&Laconic_serial/rule_compress/compress_op/compress.h:109-254 | one round is a greedy Re-Pair step on the text, which gets shorter; without a pair to extract no pair occurs twice; afterwards at least half of the array is in use |
| `RePair.Engine.Repair` | Re-Pair&Laconic_serial/rule_compress/compress_op/compress.h:105-255 | the outer loop ends, its texts and rules are a greedy run, and no pair of the last text occurs twice; if a hash search never ends, no never-used cell is left, the rounds before are a greedy run, and every symbol replaced has used up at most two cells |
| `RePair.Compress` | Re-Pair&Laconic_serial/rule_compress/compress_op/compress.h:66-255 | the whole run on any text: a greedy run from the text given, whose last text is what the array denotes; it ends for texts of at most 131072 / 3 symbols, and otherwise can only stop in a round of a greedy run, once the symbols replaced may have used up the cells that building the index leaves |
| `RePair.StallSaves` | Re-Pair&Laconic_serial/rule_compress/compress_op/compress.h:105-255 | a run that stops because a hash search never ends has saved at least 32768 symbols, and at least half as many as the text has different pairs; so texts of any length without a repeated pair, or with little to save, are compressed to the end |
| `Grammar.Determined` | Re-Pair&Laconic_serial/rule_compress/compress_op/compress.h:121-225 | when the symbols of the pair differ, the text alone determines the outcome of a round |
| `Grammar.RoundShrinks` | Re-Pair&Laconic_serial/rule_compress/compress_op/compress.h:109-254 | every round makes the text shorter, whatever implements it |
| `Grammar.TraceShrinks` | Re-Pair&Laconic_serial/rule_compress/compress_op/compress.h:105-255 | so a run has no more rounds than the text has symbols |
| `Grammar.RunGrounded` | Re-Pair&Laconic_serial/rule_compress/compress_op/compress.h:105-255 | every rule is made of terminals and of earlier rules |
| `Grammar.RunLossless` | Re-Pair&Laconic_serial/rule_compress/compress_op/compress.h:105-255 | after any number of rounds the text with all rules written out is the first text |
| `Grammar.OnceNoRule` | Re-Pair&Laconic_serial/rule_compress/compress_op/compress.h:105-255 | a terminal that occurs once never enters a rule |
| `Grammar.SymbolStays` | Re-Pair&Laconic_serial/rule_compress/compress_op/compress.h:105-255 | the symbol of a rule stays in the text or is used by a later rule |
| `Grammar.SplitExpand` | Re-Pair&Laconic_serial/rule_compress/compress_op/compress.h:284-308 | cutting a text at symbols that no rule contains and writing the rules out can be done in either order |
| `CsrCompress.InsertSplitters` | Re-Pair&Laconic_serial/rule_compress/compress_op/util.h:91-106 | the rows are woven into one text, each followed by a separator of its own |
| `CsrCompress.WeaveSplit` | Re-Pair&Laconic_serial/rule_compress/compress_op/util.h:91-106 | cutting the woven text at its separators gives the rows back |
| `CsrCompress.WeaveTimes` | Re-Pair&Laconic_serial/rule_compress/compress_op/util.h:91-106 | every separator occurs once |
| `CsrCompress.EmitText` | Re-Pair&Laconic_serial/rule_compress/compress_op/compress.h:281-299 | the rows read off the compressed array, hole by hole, are the rows of its text under their new names |
| `CsrCompress.EmitRules` | Re-Pair&Laconic_serial/rule_compress/compress_op/compress.h:301-308 | one row per rule is appended |
| `CsrCompress.NamedExpand` | Re-Pair&Laconic_serial/rule_compress/compress_op/compress.h:257-259 | a row stands for the same vertices under the new names of the rules |
| `CsrCompress.FinalNoCut` | Re-Pair&Laconic_serial/rule_compress/compress_op/compress.h:261-319 | no rule contains a separator |
| `CsrCompress.FinalRows` | Re-Pair&Laconic_serial/rule_compress/compress_op/compress.h:261-319 | the rows of the final text, rules written out, are the given rows in order |
| `CsrCompress.RuleUsed` | Re-Pair&Laconic_serial/rule_compress/compress_op/compress.h:261-319 | every rule of the result is mentioned in some row of it |
| `CsrCompress.CompressCsr` | Re-Pair&Laconic_serial/rule_compress/compress_op/compress.h:261-319 | lossless: every vertex row of the result expands to the given row, in order; rules use vertices and earlier rules only, each is used, and no pair occurs twice; the rows are those of a greedy run on the woven text; a run that stops is one that `StallSaves` speaks of; the reported number of rules is right exactly when the vertex list is not empty |
| `RuleGraph.MeaningSolves` | Re-Pair&Laconic_serial/rule_compress/compress_op/check.h:24-54 | on an acyclic rule graph every node has an expansion that agrees with its row |
| `RuleGraph.MeaningUnique` | Re-Pair&Laconic_serial/rule_compress/compress_op/check.h:24-54 | and only one |
| `Inlining.HostReady` | Re-Pair&Laconic_serial/rule_compress/compress_op/filter.h:36-48 | a host that has not had its turn still mentions the rule |
| `Inlining.ChildReady` | Re-Pair&Laconic_serial/rule_compress/compress_op/filter.h:50-65 | a child that has not had its turn still lists the rule |
| `Inlining.Inlined` | Re-Pair&Laconic_serial/rule_compress/compress_op/filter.h:30-66 | after both loops the two tables are transposes of each other again, over the rows that are left |
| `Inlining.FilledStep` | Re-Pair&Laconic_serial/rule_compress/compress_op/filter.h:36-48 | erasing the first mention and inserting the row in its place replaces one mention more, in order |
| `Inlining.EmbeddedAll` | Re-Pair&Laconic_serial/rule_compress/compress_op/filter.h:36-48 | once all hosts have had their turn, every live row is the old row with each mention of the rule replaced in place |
| `Inlining.PourSame` | Re-Pair&Laconic_serial/rule_compress/compress_op/filter.h:36-48 | taking in the row of a rule in place of its mention changes no expansion |
| `Inlining.PourRanked` | Re-Pair&Laconic_serial/rule_compress/compress_op/filter.h:36-48 | and keeps the graph acyclic |
| `RuleTables.Load` | Re-Pair&Laconic_serial/rule_compress/compress_op/util.h:60-71 | the rows of the graph as lists |
| `RuleTables.Transpose` | Re-Pair&Laconic_serial/rule_compress/compress_op/util.h:77-89 | every node lists exactly the rows that mention it, as often as they do |
| `RuleTables.NewIds` | Re-Pair&Laconic_serial/rule_compress/compress_op/util.h:108-119 | the rules that are left are numbered on without gaps |
| `RuleTables.Write` | Re-Pair&Laconic_serial/rule_compress/compress_op/util.h:143-164 | the rows that are left, renumbered, in order |
| `RuleTables.ShrinkSolves` | Re-Pair&Laconic_serial/rule_compress/compress_op/util.h:108-164 | after dropping rules that nothing mentions and renumbering, every expansion is the same |
| `RuleTables.ShrinkRanked` | Re-Pair&Laconic_serial/rule_compress/compress_op/util.h:108-164 | and the graph is still acyclic |
| `MentionCounts.SizeIsMentions` | Re-Pair&Laconic_serial/rule_compress/compress_op/filter.h:68-78 | the length of a transposed row is the number of live mentions |
| `MentionCounts.InlineCost` | Re-Pair&Laconic_serial/rule_compress/compress_op/filter.h:30-66 | how many edges the graph gains or loses by an inlining: the length less one for every mention, less the row of the rule |
| `FilterPass.JudgeGrows` | Re-Pair&Laconic_serial/rule_compress/compress_op/filter.h:26-28 | a rule once found worth keeping stays so as it gets longer and more frequent |
| `FilterPass.JudgeIsCost` | Re-Pair&Laconic_serial/rule_compress/compress_op/filter.h:26-28 | the score says exactly whether inlining the rule makes the live graph longer by at most `threshold` edges |
| `FilterPass.InitInfo` | Re-Pair&Laconic_serial/rule_compress/compress_op/filter.h:68-78 | lengths, frequencies and flags of all rules |
| `FilterPass.Filter.MergeHosts` | Re-Pair&Laconic_serial/rule_compress/compress_op/filter.h:36-48 | every host of the rule has taken in its row, as often as it mentioned it |
| `FilterPass.Filter.MergeChildren` | Re-Pair&Laconic_serial/rule_compress/compress_op/filter.h:50-65 | under every child the rule has given way to its hosts |
| `FilterPass.Filter.MergeRule` | Re-Pair&Laconic_serial/rule_compress/compress_op/filter.h:30-66 | one rule inlined: every mention in a live row is replaced by its row; transposes, scores and every expansion are kept |
| `FilterPass.Filter.Run` | Re-Pair&Laconic_serial/rule_compress/compress_op/filter.h:100-104 | rule after rule is inlined exactly when that costs at most `threshold` edges at its turn; the flags mark these rules, every rule left is worth keeping, and every row expands as before |
| `FilterPass.FilterCsr` | Re-Pair&Laconic_serial/rule_compress/compress_op/filter.h:80-118 | for every threshold: the graph written is what is left when each rule in turn is inlined exactly if that costs at most `threshold` edges; a rule that costs more in the given graph is still there; every vertex row expands as before, and the rules that are left are acyclic, all mentioned and all worth keeping by the final lengths and frequencies |
| `DepthPass.DepthFilter.MergeRule` | Re-Pair&Laconic_serial/rule_compress/compress_op/depth_filter.h:16-38 | one rule inlined in every live row, every expansion kept, and no row loses a symbol that stands for something |
| `DepthPass.DepthFilter.MergeLevel` | Re-Pair&Laconic_serial/rule_compress/compress_op/depth_filter.h:65-71 | exactly the rules of a level inlined, one after the other |
| `DepthPass.DepthFilter.Recount` | Re-Pair&Laconic_serial/rule_compress/compress_op/depth_filter.h:73-82 | the sizes of the levels, counted again |
| `DepthPass.DepthFilter.Run` | Re-Pair&Laconic_serial/rule_compress/compress_op/depth_filter.h:40-84 | from the deepest level up to `low`, a level is inlined exactly when its rules, with the deeper inlined levels in their rows, have fewer than `least` edges; levels below are untouched, and so is every level with `least` symbols in the given graph that stand for something; every expansion kept |
| `DepthPass.InlineNotThinner` | Re-Pair&Laconic_serial/rule_compress/compress_op/depth_filter.h:16-38 | an inlining takes from no row a symbol that stands for something without putting one in its place |
| `DepthPass.DepthFilterCsr` | Re-Pair&Laconic_serial/rule_compress/compress_op/depth_filter.h:86-116 | the same for the graph given and the graph written, with rules renumbered |
| `LevelOrder.VertexOrder` | Re-Pair&Laconic_serial/rule_compress/compress_op/gen_mask.h:180-233 | whenever every rule is mentioned and no trail of rules is as long as the sentinel says: vertices have level 0, every rule one more than its highest host, and the number of levels is exact |
| `LevelOrder.LevelBounds` | Re-Pair&Laconic_serial/rule_compress/compress_op/gen_mask.h:180-233 | no way from a vertex to a node is longer than the level of the node |
| `LevelOrder.LevelReached` | Re-Pair&Laconic_serial/rule_compress/compress_op/gen_mask.h:180-233 | and some way is as long, so levels are longest distances |
| `LevelOrder.ShallowNeeded` | Re-Pair&Laconic_serial/rule_compress/compress_op/gen_mask.h:180-233 | levels below the sentinel exist only if no trail of rules is as long as the sentinel says |
| `LevelOrder.AllGiven` | Re-Pair&Laconic_serial/rule_compress/compress_op/gen_mask.h:209-231 | when the worklist is empty, and on the last level before the sentinel, every rule has a level |
| `LevelOrder.CountDegrees` | Re-Pair&Laconic_serial/rule_compress/compress_op/gen_mask.h:195-201 | the degree of a rule is the number of its mentions |
| `EdgeOrder.GenEdgeOrder` | Re-Pair&Laconic_serial/rule_compress/compress_op/gen_mask.h:10-84 | whenever the loop ends before the sentinel: edges out of vertices have order 0, an edge out of a rule comes right after the last edge into it, and the number of steps is exact |
| `EdgeOrder.SameOrder` | Re-Pair&Laconic_serial/rule_compress/compress_op/gen_mask.h:29-83 | there is only one such order |
| `EdgeOrder.LoopEnds` | Re-Pair&Laconic_serial/rule_compress/compress_op/gen_mask.h:55-81 | the loop ends before the sentinel is reached exactly when no chain of edges out of rules has as many edges as the sentinel says |
| `EdgeOrder.CircleWaits` | Re-Pair&Laconic_serial/rule_compress/compress_op/gen_mask.h:55-81 | on a circle of rules no edge gets an order before the sentinel is reached, so edges are left after each of these passes |
| `EdgeOrder.SomeReady` | Re-Pair&Laconic_serial/rule_compress/compress_op/gen_mask.h:56-81 | while an edge is left, some edge is ready |
| `EdgeOrder.StepSound` | Re-Pair&Laconic_serial/rule_compress/compress_op/gen_mask.h:56-81 | what each step keeps |
| `GraphCheck.Unfold` | Re-Pair&Laconic_serial/rule_compress/compress_op/check.h:24-38 | a row written out: its vertices and the pending rules stand for the same as before |
| `GraphCheck.PushSuccessors` | Re-Pair&Laconic_serial/rule_compress/compress_op/check.h:24-38 | the stack empties, and what it stood for is in the result |
| `GraphCheck.CompressSuccessors` | Re-Pair&Laconic_serial/rule_compress/compress_op/check.h:40-54 | the explicit stack yields a permutation of the recursive expansion, on every acyclic rule graph |
| `GraphCheck.SortedSame` | Re-Pair&Laconic_serial/rule_compress/compress_op/check.h:56-60 | sorted lists with the same elements are equal |
| `GraphCheck.Compare` | Re-Pair&Laconic_serial/rule_compress/compress_op/check.h:56-60 | true exactly when the two lists are permutations of each other |
| `GraphCheck.CheckCsr` | Re-Pair&Laconic_serial/rule_compress/compress_op/check.h:97-130 | true exactly when every vertex stands for its original neighbours, as multisets |
| `MergeParts.CountAll` | Re-Pair&Laconic_serial/rule_compress/compress_op/merge.h:16-21 | the numbers of vertices and rules of all parts |
| `MergeParts.PlaceAll` | Re-Pair&Laconic_serial/rule_compress/compress_op/merge.h:25-61 | every row of every part is in its place, rules shifted by the rules of the earlier parts |
| `MergeParts.WriteAll` | Re-Pair&Laconic_serial/rule_compress/compress_op/merge.h:62-73 | the table written as compressed sparse rows |
| `MergeParts.Merge` | Re-Pair&Laconic_serial/rule_compress/compress_op/merge.h:9-77 | the rows of the result are the vertex rows of all parts and then their rules, each mention shifted into the range of its part |
| `MergeParts.JoinSolves` | Re-Pair&Laconic_serial/rule_compress/compress_op/merge.h:33-60 | in the joined graph every rule expands as it did in its part |
| `MergeParts.VertexKept` | Re-Pair&Laconic_serial/rule_compress/compress_op/merge.h:33-60 | and so does every vertex row |
| `LaconicSerial.FaithfulPart` | Re-Pair&Laconic_serial/compression/Laconic_serial_compression.py:121-123 | a compressed part read as a graph with rules: every vertex row stands for the given one |
| `LaconicSerial.JoinedSane` | Re-Pair&Laconic_serial/compression/Laconic_serial_compression.py:152-158 | joined parts are acyclic and mention every rule, as filtering requires |
| `LaconicSerial.CompressParts` | Re-Pair&Laconic_serial/compression/Laconic_serial_compression.py:78-134 | the vertices cut evenly into tiles, each compressed losslessly by a greedy run; the tiles cover the vertices |
| `LaconicSerial.Laconic` | Re-Pair&Laconic_serial/compression/Laconic_serial_compression.py:136-158 | end to end: the parts are what greedy runs on even tiles give, the result is what is left of the joined graph when each rule in turn is inlined exactly if that makes the graph no longer; every vertex row of it expands to the row given, in order, and every rule left is worth keeping; it fails only if the run on some tile stalls |
| `LaconicSerial.PassesCheck` | Re-Pair&Laconic_serial/rule_compress/compress_op/check.h:97-130 | so the result passes the check of the graph |
| `ParallelRepair.Key` | Laconic_parallel/core/hash.h:5-8 | two symbols are packed into one word, and can be read back |
| `ParallelRepair.ProcessPairs` | Laconic_parallel/core/compress.h:29-43 | exactly the keys that occur at least `threshold` times, with their counts |
| `ParallelRepair.PrepareNewId` | Laconic_parallel/core/compress.h:46-62 | consecutive numbers for the keys, in whatever order the table lists them, and the row of each |
| `ParallelRepair.RewriteRow` | Laconic_parallel/core/compress.h:64-118 | a row with pairs replaced from left to right |
| `ParallelRepair.RewriteTiles` | Laconic_parallel/core/compress.h:64-118 | the rewriting is the only one that cuts the row into single symbols and listed pairs such that no symbol copied forms a listed pair with the symbol behind it |
| `ParallelRepair.Replace` | Laconic_parallel/core/compress.h:64-118 | the rows of a bucket, rewritten, with their new bounds |
| `ParallelRepair.Gather` | Laconic_parallel/core/compress.h:173-181 | every pair of every row is added to its bucket, as often as it occurs |
| `ParallelRepair.CountAll` | Laconic_parallel/core/compress.h:184-193 | for every bucket, exactly the pairs gathered at least `threshold` times |
| `ParallelRepair.NumberAll` | Laconic_parallel/core/compress.h:210-240 | numbers from the prefix sums: the number of a key is the index of its row |
| `ParallelRepair.ReplaceAll` | Laconic_parallel/core/compress.h:259-296 | all rows rewritten, bucket by bucket |
| `ParallelRepair.JoinAll` | Laconic_parallel/core/compress.h:319-350 | the pieces joined, bounds shifted |
| `ParallelRepair.RewriteMeans` | Laconic_parallel/core/compress.h:64-118 | a rewritten row stands for what it stood for |
| `ParallelRepair.TurnSolves` | Laconic_parallel/core/compress.h:157-370 | a turn keeps what every row stands for, older rules included |
| `ParallelRepair.TurnRanked` | Laconic_parallel/core/compress.h:157-370 | and keeps the rules acyclic although older rules come to mention newer ones |
| `ParallelRepair.Turn` | Laconic_parallel/core/compress.h:157-370 | one turn computes the rewritten graph with the rules of the frequent pairs gathered so far appended |
| `ParallelRepair.PairRule` | Laconic_parallel/core/compress.h:157-250 | in a turn a pair gets a rule exactly when it was gathered often enough, one rule only, with the pair as its row |
| `ParallelRepair.Repair` | Laconic_parallel/core/compress.h:126-373 | three turns, each of which adds the pairs of its graph to the buckets and gives rules to exactly the frequent ones; after them every row stands for the row given, and the rules are acyclic |
| `LockProtocol.RunInvariant` | Laconic_parallel/deps/libcuckoo/cuckoohash_map.hh:961-1137 | what every state of every run keeps when the table neither shrinks nor is doubled the fast way |
| `LockProtocol.Safety` | Laconic_parallel/deps/libcuckoo/cuckoohash_map.hh:961-1137 | when the table neither shrinks nor is doubled the fast way: in every state of every interleaving, a thread that has returned from locking holds its locks in the current array for the current hash power, and no thread is resizing |
| `LockProtocol.CheckCurrent` | Laconic_parallel/deps/libcuckoo/cuckoohash_map.hh:961-967 | in such runs the check of the hash power after the first lock succeeds only on the current array |
| `LockProtocol.ResizerAlone` | Laconic_parallel/deps/libcuckoo/cuckoohash_map.hh:1113-1137 | where threads that have passed the check have current locks: while a thread has all locks, also between the two stores of a fast doubling, no other has passed the check, and none other has all locks |
| `LockProtocol.ShrinkUnsafe` | Laconic_parallel/deps/libcuckoo/cuckoohash_map.hh:1903-1951 | with a shrinking resize, a second thread and fewer locks than the maximum, whatever the maximum and the hash power: a run that leaves a thread with a lock of an array that is no longer current |
| `LockProtocol.GrowthUnsafe` | Laconic_parallel/deps/libcuckoo/cuckoohash_map.hh:1750-1760 | the same with fast doubling alone: the swap of the bucket arrays brings back the hash power that the old ones carry, from the doubling before, so a thread that had read it passes the check with a lock of an array that is no longer current |
| `LockProtocol.SafeExactly` | Laconic_parallel/deps/libcuckoo/cuckoohash_map.hh:961-1137 | the guarantee of `Safety` holds in all runs from a start state exactly when the table neither shrinks nor is doubled the fast way, or the first lock array has the maximum size, or there is at most one thread |
| `LockProtocol.EveryRun` | Laconic_parallel/deps/libcuckoo/cuckoohash_map.hh:1029-1137 | in every state of every run, with shrinking and fast doubling or without, no lock has two holders and no threads wait in a circle |
| `LockProtocol.WantsLater` | Laconic_parallel/deps/libcuckoo/cuckoohash_map.hh:1034-1090 | a thread waits only for locks behind all those it has |
| `LockProtocol.NoDeadlock` | Laconic_parallel/deps/libcuckoo/cuckoohash_map.hh:1034-1137 | so no circle of waiting threads exists |
| `CuckooBuckets.AltAlt` | Laconic_parallel/deps/libcuckoo/cuckoohash_map.hh:817-828 | the other bucket of the other bucket is the bucket |
| `CuckooBuckets.Doubling` | Laconic_parallel/deps/libcuckoo/cuckoohash_map.hh:811-828 | doubling adds one bit at the top of either bucket number |
| `CuckooBuckets.LandsHome` | Laconic_parallel/deps/libcuckoo/cuckoohash_map.hh:1813-1832 | a key moved by the rule of `move_bucket` lands in one of its two new buckets |
| `CuckooBuckets.Distribute` | Laconic_parallel/deps/libcuckoo/cuckoohash_map.hh:1795-1839 | an old bucket is spread over the two buckets it splits into |
| `CuckooBuckets.MoveOne` | Laconic_parallel/deps/libcuckoo/cuckoohash_map.hh:1795-1839 | moving a bucket changes nothing of what the table holds, and keeps keys single and at home |
| `CuckooTables.CuckooTable.constructor` | Laconic_parallel/deps/libcuckoo/cuckoohash_map.hh:103-118 | an empty table, with as many locks as buckets up to the maximum |
| `CuckooTables.CuckooTable.RehashLock` | Laconic_parallel/deps/libcuckoo/cuckoohash_map.hh:985-1006 | migrating a lock, in whatever order, changes nothing of what the table holds, and nothing of how the buckets will be once all is migrated; the old array is freed with the last lock |
| `CuckooTables.CuckooTable.GrowLocks` | Laconic_parallel/deps/libcuckoo/cuckoohash_map.hh:1879-1894 | new locks are migrated and count nothing, so the counters add up to the same |
| `CuckooTables.CuckooTable.FastDouble` | Laconic_parallel/deps/libcuckoo/cuckoohash_map.hh:1713-1793 | doubling changes nothing of what the table holds, whether it moves everything or leaves it to the locks; once migrated, every bucket is split into its two |
| `CuckooTables.CuckooTable.ReaderSees` | Laconic_parallel/deps/libcuckoo/cuckoohash_map.hh:1174-1185 | under both locks, a key is in the table exactly when it is in one of its two buckets of the new array |
| `CuckooTables.CuckooTable.Size` | Laconic_parallel/deps/libcuckoo/cuckoohash_map.hh:336-346 | the counters of all locks add up to the number of entries |
| `CuckooTables.CuckooTable.LockTwo` | Laconic_parallel/deps/libcuckoo/cuckoohash_map.hh:1029-1050 | taking two locks migrates them and changes nothing of what the table holds |
| `CuckooTables.CuckooTable.Find` | Laconic_parallel/deps/libcuckoo/cuckoohash_map.hh:466-478 | the value of the key in the map the table stands for |
| `CuckooTables.CuckooTable.Erase` | Laconic_parallel/deps/libcuckoo/cuckoohash_map.hh:515-529 | the map without the key; true exactly when the key was there |
| `CuckooTables.CuckooTable.AddToBucket` | Laconic_parallel/deps/libcuckoo/cuckoohash_map.hh:1329-1335 | the map with the entry added, and the counters still add up |
| `CuckooTables.CuckooTable.DelFromBucket` | Laconic_parallel/deps/libcuckoo/cuckoohash_map.hh:2021-2024 | the map with the entry removed, and the counters still add up |
| `CuckooTables.CuckooTable.CuckooFind` | Laconic_parallel/deps/libcuckoo/cuckoohash_map.hh:1174-1185 | the slot of the key, if and only if it is there |
| `CuckooTables.TryRead` | Laconic_parallel/deps/libcuckoo/cuckoohash_map.hh:1190-1204 | the slot of the key in a bucket, or -1 exactly when it is not there |
| `CuckooTables.TryFindInsert` | Laconic_parallel/deps/libcuckoo/cuckoohash_map.hh:1343-1363 | the slot of the key, or the last free slot, or -1 when the bucket is full |
| `CuckooTables.CuckooTable.Hop` | Laconic_parallel/deps/libcuckoo/cuckoohash_map.hh:1555-1575 | an item moves to its other bucket exactly when the slots are still as expected; the map is the same |
| `CuckooTables.CuckooTable.PathMove` | Laconic_parallel/deps/libcuckoo/cuckoohash_map.hh:1516-1581 | moving along a path changes nothing of what the table holds; it makes exactly the moves that can be made, the last one first, up to the first that cannot, and success frees a slot of one of the two buckets, with both locks held |
| `CuckooTables.CuckooTable.RunCuckoo` | Laconic_parallel/deps/libcuckoo/cuckoohash_map.hh:1391-1443 | search after search and move after move, whatever the searches see: the map is the same, success frees a slot of one of the two buckets, with both locks held, and failure means that a search saw no free slot or that the moves along all paths found failed |
| `CuckooTables.CuckooTable.CuckooInsert` | Laconic_parallel/deps/libcuckoo/cuckoohash_map.hh:1263-1322 | a duplicate is reported exactly when the key is there, else a free slot of one of its buckets, the last one of the first bucket if it has any, then of the second; a full table is reported only if both buckets were full and all attempts failed, and, when the first search sees the table as it is, exactly if no free slot is within reach; the map is the same |
| `CuckooTables.CuckooTable.FinishInsert` | Laconic_parallel/deps/libcuckoo/cuckoohash_map.hh:1303-1315 | the second look finds a key inserted meanwhile |
| `CuckooTables.CuckooTable.UpgetOnce` | Laconic_parallel/deps/libcuckoo/cuckoohash_map.hh:1218-1236 | one round: with a truthful first search the key is found or added exactly when it was there or a free slot is within reach |
| `CuckooTables.CuckooTable.Upget` | Laconic_parallel/deps/libcuckoo/cuckoohash_map.hh:581-600 | through any number of searches and doublings: the value of a key that is there, else the new value, added; the map is otherwise the same; the table is doubled exactly after the rounds in which there was no place, so never when the key is there or one of its buckets has a free slot |
| `CuckooPath.CapacityIsSum` | Laconic_parallel/deps/libcuckoo/cuckoohash_map.hh:1640-1657 | the size of the queue is the number of entries that a full search from two buckets makes |
| `CuckooPath.SlotSearch` | Laconic_parallel/deps/libcuckoo/cuckoohash_map.hh:1664-1707 | the queue never holds more than its size, for every number of slots and whatever other threads do; the bucket found is the first in breadth-first order in which a slot was seen free, and without success every bucket of every path short enough was seen full |
| `CuckooPath.SearchExact` | Laconic_parallel/deps/libcuckoo/cuckoohash_map.hh:1664-1707 | a search of an array that does not change finds a slot exactly when a bucket within five steps of one of the two buckets has a free one |
| `CuckooPath.PathSearch` | Laconic_parallel/deps/libcuckoo/cuckoohash_map.hh:1455-1505 | for every number of slots and whatever other threads do, the path filled in starts in one of the two buckets and leads on by the other bucket of each item seen; when codes fit into 16 bits it is the path that the search found, and when nothing changed meanwhile it ends in a free slot and has no slot twice; a search of an array that does not change fails exactly when no free slot is within reach |
| `CuckooPath.FoundFits` | Laconic_parallel/deps/libcuckoo/cuckoohash_map.hh:1455-1505 | the path of an undisturbed search fits the array and is without detours |
| `CuckooMoves.ShiftFits` | Laconic_parallel/deps/libcuckoo/cuckoohash_map.hh:1516-1581 | along such a path all moves can be made |
| `CuckooMoves.StillDecides` | Laconic_parallel/deps/libcuckoo/cuckoohash_map.hh:1391-1443 | so when the first search sees the table as it is, a slot is made free exactly when one is free within reach |
| `CuckooPath.EncodeInjective` | Laconic_parallel/deps/libcuckoo/cuckoohash_map.hh:1455-1463 | the digits of the path code determine the path |
| `CuckooPath.Decode` | Laconic_parallel/deps/libcuckoo/cuckoohash_map.hh:1455-1463 | reading the code off, last slot first, gives a path with that code |
| `CuckooPath.CodesReadBack` | Laconic_parallel/deps/libcuckoo/cuckoohash_map.hh:1590-1604 | every path survives the 16-bit code exactly when twice the fifth power of the number of slots fits into 16 bits |
| `CuckooPath.NineSlots` | Laconic_parallel/deps/libcuckoo/cuckoohash_map.hh:1598-1601 | nine slots pass the compile-time assertion and do not fit; eight do |

## Left out

- Reading and writing of files, numpy and pybind11 conversions, timing and printing.
- Normalisation (`norm.h`), fusion, splicing, conversion scripts and reordering: not part of this model.
- `gen_vertex_order_csc`, `gen_mask_edge`, `gen_mask_vertex`: they repeat the level order on another layout or only read it.
- The growth of the arrays in `array.cc` and of the record array: sequences have no capacity here.
- Memory orders, allocation failure and exceptions of the concurrent table; the load-factor test before doubling.
- `cuckoo_expand_simple` and shrinking are modelled in the locking protocol only, not on buckets.
- The parallel workers of one turn are independent between joins and are modelled one after the other.
- RePair.Compress: that no hash search goes round is guaranteed for texts that save fewer than 32768 symbols or have at most
  131072 / 3; for the others whether never-used cells run out depends on where the hash function sends the pairs of the
  whole run, so the bound on the symbols saved is one way only.
- CsrCompress.CompressCsr: takes `max` to be at least the number of rows, since the separators, numbered from
  `max` on, run into the rules, numbered from `2 * max` on, otherwise; takes numbers to fit into an `int`, as the loop
  bound of the source does; whether the run ends is stated by the same bound as for `RePair.Compress`.
- FilterPass.FilterCsr: takes the rules to be acyclic and each mentioned and not empty, which serial compression provides
  (`LaconicSerial.JoinedSane`).
- LevelOrder.VertexOrder: what the loop does with a rule that nothing mentions, or once a level has the number of the
  sentinel 100000, is not modelled.
- DepthPass.DepthFilterCsr: likewise, and takes the rules to be acyclic.
- EdgeOrder.GenEdgeOrder: what the loop does once a step has the number of the sentinel is not modelled.
- LaconicSerial.Laconic: takes every tile to begin inside the vertex list, since the driver reads beyond its file
  otherwise; whether the runs end is stated by the same bound as for `RePair.Compress`.
- ParallelRepair.Repair: takes every bucket to have an edge and the first row not to be empty, which the source needs for its
  indexing, and sizes to stay in the range of the packed keys.
- ParallelRepair.Turn: pairs of earlier turns stay in the buckets, so a new rule need not be for a pair that is frequent now.
- CuckooTables.CuckooTable.RunCuckoo: what the searches see is a parameter, so that paths may be out of date; the changes
  that other threads make to the table itself between unlocking and locking again are not modelled.
- CuckooTables.CuckooTable.CuckooInsert: likewise; a failed search and an exhausted list of attempts both count as a full
  table, and that no free slot is within reach follows only when the first search sees the table as it is.
- CuckooTables.CuckooTable.Upget: likewise; the number of rounds is a parameter, as nothing bounds it.
- CuckooTables.CuckooTable.Find: the comparison of partial keys before keys is left out, as equal keys have equal partial keys.
- CuckooPath.SlotSearch: the bucket array at each look is a parameter, as other threads may change it.
- HashTable.Home: symbols are taken to be non-negative, as the engine uses them.
