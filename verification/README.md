# A verified model of g-tools

g-tools scans files byte by byte, in parallel and block by block. Almost every tool is a fast form
(64-byte blocks, bit masks, an atomic chunk counter, an automaton) of a simple sequential
definition. This project models the fast forms and the simple definitions and proves that they
agree, and how far. `dafny verify dfyconfig.toml` checks all of it.

| file | what it models |
|---|---|
| `Bytes`, `Arith`, `Blocks` | bytes, files, remainders, files cut into blocks |
| `TrieWords`, `HopCost`, `AhoCorasick`, `ScanSpec`, `GScan` | the multi-pattern scan: trie, breadth-first failure links, naive search, block skipping, block and tail loops |
| `SimdScan`, `ByteSearch` | 64-bit lane masks; block search and block count |
| `ChunkAllocator`, `Schedule`, `Pipeline`, `LineCover`, `Coverage` | the shared counter, the step system of any number of workers, chunk edges, which lines stay whole and which bytes are seen, the histogram |
| `Strings`, `Grep`, `Unicode` | the three chunked text tools, from the bits of a mask to the sorted merge |
| `GrepCount`, `UnicodeFiles` | exactly the files on which g-grep counts right, and on which g-unicode is a scalar scan |
| `Hash` | CRC32C by word, by byte and by table; the two FNV-1a variants |
| `Diff`, `Entropy`, `Recon`, `FlatArena` | block diff, strided entropy workers, the flat buffer and its Rust parser, the growing buffer |
| `FdTable` | the descriptor table over the reference-counted mapping cache, as classes and as a two-lock step system |

Loops and classes of the program are loops and classes here. Each is proved against a function, and
the theorems are about those functions. A vector instruction is given its meaning lane by lane; a
schedule is a sequence of worker numbers and the fetch-and-add is one atomic step; `std::sort`,
`memmem` and `memcmp` are taken by contract. The worker loops are proved with other workers fetching
between any two of their own fetches: a worker's output is the work on the offsets it got, which is
what `Schedule.RunIsWorks` says of a worker in every interleaving.

A file is *line-safe* when no chunk boundary splits a line: the first newline after the boundary is
within reach of both the chunk size and the look-ahead, or a line starts at the boundary and neither
reaches a newline. A chunk [b, e) is *aligned* when b is even, or it is too short for a 64-byte
block, or its blocks leave no pair for the tail. Its contents are *clean* when it is aligned, or no
character lies across the start of its tail, or one does in one of two shapes that neither scan
reports (`UnicodeFiles.TailClean`). Statements that need these say so; the others hold for every
file.

Where the code differs from what its comments or headers say, the model follows the code:

- `core/include/gcore/chunk_allocator.h:4-8` says every line lands in exactly one chunk.
  `LineCover.LinesWholeIff` gives the exact condition on the newlines around the boundaries, with a
  file that splits a line and one that loses a line; `ChunkAllocator.CoveredExact` gives the lost
  bytes.
- `tools/g-grep/g_grep.cpp:5` says lines are not cut at chunk borders. They are on files that are not
  line-safe, and exactly there some needle is miscounted (`GrepCount.GrepExact`).
- `core/include/gcore/c_abi.h:74` says g-unicode lengths are even. A record that the end of the file
  closes can be odd, and so can a record in mid-file when a chunk begins at an odd offset, one past a
  newline, and is not aligned. `Unicode.LengthsEvenExact` gives the exact condition for a chunk and
  `UnicodeFiles.EvenFiles` the exact sizes of which every file is right: hardly any. Up to the chunk
  size plus 66 bytes only the end of the file is to blame. From there on files with odd records in
  mid-file (`UnicodeFiles.ClosedEvenFiles`), with records that overlap (`UnicodeFiles.ApartFiles`) and
  with records other than those of a scalar scan (`UnicodeFiles.ScalarFiles`) exist at every size; a
  given file differs from the scalar scan exactly when a chunk is not clean
  (`UnicodeFiles.UnicodePipeline`). None of this depends on the schedule
  (`Unicode.UnicodeAnySchedule`).
- `tools/g-scan/g_scan.cpp:133-137` says no match is lost to block skipping. With 33 or more distinct
  first bytes the AVX2 build can lose matches (`GScan.Avx2ExactIff`), exactly those that start in a
  block it skips (`GScan.ScanMeans`). Lengths are stored by insertion
  and read by pattern index, which agrees unless an empty pattern precedes a non-empty one
  (`GScan.LengthReadsReached`).
- `core/include/gcore/c_abi.h:116` promises all changed ranges from g-diff. Lengths wrap at 2^32
  (`Diff.CoversIff`, `Diff.DeterminesB`, `Diff.FourGiBMissed`).
- `runtime/include/grt/g_runtime.hpp:213` comments that an empty file is valid too, but its open
  returns -1, and keeps a reference (`FdTable.OpenFailsExactly`, `FdTable.EveryRun`).
- `runtime/include/grt/g_runtime.hpp:236` subtracts without a check, and a seek may go past the end.
  A read leaves its slice exactly when the position is past the size and something is asked for
  (`FdTable.OutsideExactly`), which a run on any non-empty file reaches (`FdTable.OutsideReached`)
  and no run reaches whose seeks stay within the size (`FdTable.TameRunStaysInside`).

## Model

| member | source | states |
|---|---|---|
| `TrieWords.LongestSuffixIsLongest` | tools/g-scan/g_scan.cpp:62-87 | what a failure link must name: `LongestSuffix` is a suffix, is a trie word, and no longer suffix is one |
| `TrieWords.LongestSuffixStep` | tools/g-scan/g_scan.cpp:163-168 | the automaton law: the state after one more byte depends on the state before it, not on the bytes consumed |
| `TrieWords.FailHop` | tools/g-scan/g_scan.cpp:165-166 | following one failure link leaves the target of the next byte unchanged |
| `AhoCorasick.AC.constructor` | tools/g-scan/g_scan.cpp:36-42 | a new automaton spells only the empty word |
| `AhoCorasick.AC.Walk` | tools/g-scan/g_scan.cpp:45-53 | the insertion walk ends at the node of the pattern; the trie gains exactly the prefixes of the pattern, and every output list is kept |
| `AhoCorasick.AC.AddPattern` | tools/g-scan/g_scan.cpp:44-60 | adds one entry for one pattern; each node then lists exactly the patterns equal to its word, latest first |
| `AhoCorasick.TrieOfExact` | tools/g-scan/g_scan.cpp:44-53 | the words spelled are the empty word and exactly the prefixes of the patterns |
| `AhoCorasick.MatchingDescends` | tools/g-scan/g_scan.cpp:57-58 | the output list of a node has the latest repeated pattern first |
| `AhoCorasick.AC.CloseRoot` | tools/g-scan/g_scan.cpp:63-71 | children of the root are enqueued with link 0 and the root gets a transition on every byte |
| `AhoCorasick.ChildFail` | tools/g-scan/g_scan.cpp:77-83 | the longest proper suffix of a child is reached from the link of its parent |
| `AhoCorasick.AC.FailTarget` | tools/g-scan/g_scan.cpp:77-83 | the computed link names the longest proper suffix of the path of the child that is a trie path; the hops are those of its word |
| `AhoCorasick.AC.Expand` | tools/g-scan/g_scan.cpp:73-85 | one turn of the breadth-first loop keeps its invariant and adds the hops of the words it links |
| `AhoCorasick.ShallowSeen` | tools/g-scan/g_scan.cpp:72-86 | when a node is dequeued, every node that is no deeper has already been given its link |
| `AhoCorasick.DrainedSeen` | tools/g-scan/g_scan.cpp:72-86 | when the queue is empty, every non-root node has been dequeued |
| `AhoCorasick.AC.Build` | tools/g-scan/g_scan.cpp:62-87 | terminates; dequeues every non-root node exactly once; every link then names the longest proper suffix of the path of its node that is a trie path; the failure hops taken are those of the words of the trie, at most the total length of the patterns |
| `AhoCorasick.AC.Descend` | tools/g-scan/g_scan.cpp:165-168 | the fail loop ends where the byte can be consumed; the target is the longest suffix in the trie; hops plus new depth are at most old depth plus one |
| `ScanSpec.AllMatchesExact` | tools/g-scan/g_scan.cpp:169-183 | the reference list holds (o, i) exactly when pattern i occurs at offset o |
| `ScanSpec.AllMatchesOrdered` | tools/g-scan/g_scan.cpp:169-183 | the reference list is strictly ordered by end, then longer first, then later index first, so nothing occurs twice |
| `ScanSpec.EndingIsChain` | tools/g-scan/g_scan.cpp:170-182 | the outputs along the failure chain of the state are exactly the matches that end at the current byte, longest first |
| `ScanSpec.EmitsIsMatches` | tools/g-scan/g_scan.cpp:163-183 | an automaton scan of any stretch from the state of the consumed prefix reports exactly the matches that end in the stretch |
| `TrieWords.HopsPotential` | tools/g-scan/g_scan.cpp:165-168 | one byte: hops plus depth after are at most depth before plus one |
| `TrieWords.HopsCount` | tools/g-scan/g_scan.cpp:165-168 | the hops of a byte are exactly the suffixes of the state, in the trie, that the byte gives up |
| `HopCost.FailHopsCount` | tools/g-scan/g_scan.cpp:77-79 | the same for the hops that find one failure link |
| `ScanSpec.HopsExact` | tools/g-scan/g_scan.cpp:163-168 | the hops of a stretch are exactly the words of the trie, anywhere in the file, that end before a byte and no longer fit after it |
| `HopCost.HopSumPick` | tools/g-scan/g_scan.cpp:72-86 | the hops of all links do not depend on the order in which the nodes are linked |
| `HopCost.PrefixHops` | tools/g-scan/g_scan.cpp:77-83 | down one pattern, all hops plus the depth of the last link are at most the bytes read, however shared its nodes are |
| `AhoCorasick.TrieHops` | tools/g-scan/g_scan.cpp:62-87 | linking the whole trie takes no more hops than the patterns have bytes |
| `GScan.FirstBytesExact` | tools/g-scan/g_scan.cpp:92-97 | a byte is flagged exactly when it starts some pattern |
| `GScan.SkipFilter.constructor` | tools/g-scan/g_scan.cpp:95 | an empty filter flags nothing |
| `GScan.SkipFilter.Add` | tools/g-scan/g_scan.cpp:96 | flags one byte and nothing else |
| `GScan.CollectUniques` | tools/g-scan/g_scan.cpp:126-131 | collects the flagged bytes, each once, ascending |
| `GScan.ScalarMask` | tools/g-scan/g_scan.cpp:157-158 | bit i is set exactly when byte i of the block starts a pattern; so the mask is non-zero exactly when the block holds a first byte |
| `GScan.Avx2Mask` | tools/g-scan/g_scan.cpp:144-155 | bit i is set exactly when some first byte equals byte i and, with more than 32 of them, is one of the first 32 for the lower half and one of the others for the upper half |
| `GScan.FeedPrefix` | tools/g-scan/g_scan.cpp:138-185 | after any consumed prefix the state is the longest suffix of the prefix that is a trie path, across block boundaries |
| `GScan.SkippedBlock` | tools/g-scan/g_scan.cpp:161 | a skipped block contains no match end, takes no hop and would leave the state at the root |
| `GScan.GatedExact` | tools/g-scan/g_scan.cpp:138-206 | behind a covering gate the scan from any position finds every match that ends later, as the ungated scan does |
| `GScan.HopsBound` | tools/g-scan/g_scan.cpp:165-168 | over any stretch: hops plus final depth are at most initial depth plus bytes read |
| `GScan.GatedHops` | tools/g-scan/g_scan.cpp:138-206 | the whole scan takes at most one hop per byte, whatever the gate lets through |
| `GScan.GateCovers` | tools/g-scan/g_scan.cpp:141-160 | the scalar gate always covers; the AVX2 gate covers when there are at most 32 distinct first bytes |
| `GScan.Avx2Misses` | tools/g-scan/g_scan.cpp:145-155 | with 33 or more distinct first bytes there is a file on which the AVX2 gate loses a match |
| `GScan.GatedMeans` | tools/g-scan/g_scan.cpp:138-206 | behind any gate, covering or not: a record is reported exactly when it is a match that does not start in a skipped block |
| `GScan.GatedOrdered` | tools/g-scan/g_scan.cpp:138-206 | behind any gate the records are in strict report order |
| `GScan.ScanMeans` | tools/g-scan/g_scan.cpp:138-206 | with either build and any number of first bytes, the same for the result of the scan |
| `GScan.Avx2Reports` | tools/g-scan/g_scan.cpp:144-161 | the AVX2 build reports every match that starts in the tail, or in a block with a first byte that its half is compared with |
| `GScan.LengthReadsExact` | tools/g-scan/g_scan.cpp:113-118 | reading lengths by pattern index (line 174) what line 54 stores by insertion order is right exactly when no empty pattern precedes a non-empty one |
| `GScan.LengthReadsReached` | tools/g-scan/g_scan.cpp:174 | every match of every file reads the length of its own pattern exactly when no empty pattern precedes a non-empty one |
| `GScan.MatchesIgnoreEmpties` | tools/g-scan/g_scan.cpp:115 | trailing empty patterns change no match |
| `GScan.AddedExact` | tools/g-scan/g_scan.cpp:112-117 | the patterns added are the non-empty ones, and their positions those in the list, in ascending order |
| `GScan.ScanExact` | tools/g-scan/g_scan.cpp:138-206 | the gated scan reports exactly the reference list |
| `GScan.Avx2ExactIff` | tools/g-scan/g_scan.cpp:144-155 | the AVX2 build is right on every file exactly when there are at most 32 distinct first bytes |
| `GScan.ScanHops` | tools/g-scan/g_scan.cpp:138-206 | at most as many failure hops as bytes in the file |
| `GScan.EmitList` | tools/g-scan/g_scan.cpp:172-180 | one output list becomes one record per pattern of the node, with its start offset |
| `GScan.EmitOutputs` | tools/g-scan/g_scan.cpp:170-182 | reports every output list along the failure chain |
| `GScan.ScanByte` | tools/g-scan/g_scan.cpp:164-182 | one byte: new state, records and hop count as specified |
| `GScan.ScanStretch` | tools/g-scan/g_scan.cpp:187-206 | a run of bytes without skipping: the inner loop of a block and the tail loop |
| `GScan.Prepare` | tools/g-scan/g_scan.cpp:111-119 | trie and filter hold exactly the non-empty patterns, with their positions in the list; the failure hops of the construction are those of the trie, at most the bytes of the patterns |
| `GScan.BlockMask` | tools/g-scan/g_scan.cpp:141-160 | the gate fires as specified; without patterns it never fires |
| `GScan.ScanBlock` | tools/g-scan/g_scan.cpp:140-184 | one block, skipped or scanned, agrees with the specified scan |
| `GScan.ScanFile` | tools/g-scan/g_scan.cpp:138-206 | block loop plus tail compute the specified scan and its hop count |
| `GScan.RunScan` | tools/g-scan/g_scan.cpp:101-213 | emits exactly the reference list (AVX2: with at most 32 first bytes); with any number of them only matches, in strict order, and every one that starts in the tail or in a block with a byte looked for; at most one failure hop per pattern byte to build and one per file byte to scan |
| `SimdScan.ZeroMask` | core/include/gcore/simd_scan.h:53-54 | a lane mask is zero exactly when no lane matches |
| `SimdScan.MaskUnique` | core/include/gcore/simd_scan.h:234-245 | a 64-bit mask is determined by its lanes |
| `SimdScan.JoinHalves` | core/include/gcore/simd_scan.h:239-241 | two 32-lane masks combine into the 64-lane mask |
| `SimdScan.MoveMaskIs` | core/include/gcore/simd_scan.h:121-122 | move-mask of a compare has bit i exactly when lane i matches |
| `SimdScan.Mask64Scalar` | core/include/gcore/simd_scan.h:215-231 | the scalar loops set bit i exactly for a byte of the class |
| `SimdScan.Mask64Avx2` | core/include/gcore/simd_scan.h:237-241 | the two range compares by minimum and maximum, joined, give the lane mask |
| `SimdScan.Mask64` | core/include/gcore/simd_scan.h:234-259 | every dispatch target computes the same mask |
| `ByteSearch.TrailingZeros` | core/include/gcore/simd_scan.h:103 | the lowest set bit |
| `ByteSearch.FindByteFast` | core/include/gcore/simd_scan.h:158-167 | every dispatch target returns the first occurrence, or none |
| `ByteSearch.PopCountHits` | core/include/gcore/simd_scan.h:38-42 | the set bits of a block mask count the occurrences in the block |
| `ByteSearch.CountByteFast` | core/include/gcore/simd_scan.h:143-152 | every dispatch target returns the number of occurrences |
| `ChunkAllocator.Allocator.constructor` | core/include/gcore/chunk_allocator.h:25-29 | the counter starts at 0 and a chunk size of 0 becomes 1 |
| `ChunkAllocator.Allocator.FetchAdd` | core/include/gcore/chunk_allocator.h:36 | returns the counter and advances it, in one step |
| `ChunkAllocator.Allocator.AlignStart` | core/include/gcore/chunk_allocator.h:39-46 | moves the left edge past the first newline within one chunk size |
| `ChunkAllocator.Allocator.AlignEnd` | core/include/gcore/chunk_allocator.h:48-56 | moves the right edge past the first newline within the look-ahead |
| `ChunkAllocator.Allocator.Others` | core/include/gcore/chunk_allocator.h:36 | between two looks at the counter the other workers may have fetched any number of times |
| `ChunkAllocator.Allocator.GetNext` | core/include/gcore/chunk_allocator.h:34-66 | whatever other workers fetch in between: passes over empty chunks and hands out the first non-empty one, or none once the counter has left the file |
| `ChunkAllocator.SharedEdge` | core/include/gcore/chunk_allocator.h:4-8 | on a line-safe file neighbouring chunks meet, at the start of a line |
| `ChunkAllocator.ChunksDisjoint` | core/include/gcore/chunk_allocator.h:31-66 | any file, look-ahead at most chunk size: chunks are disjoint and in file order |
| `ChunkAllocator.CoveredExact` | core/include/gcore/chunk_allocator.h:34-66 | any file: a byte is in no chunk exactly when it lies in [p, nl] for a boundary p whose first newline nl is at least the look-ahead and less than the chunk size away |
| `ChunkAllocator.DisjointIff` | core/include/gcore/chunk_allocator.h:25-29 | disjointness on all files holds exactly when the look-ahead is at most the chunk size |
| `LineCover.HeldOnce` | core/include/gcore/chunk_allocator.h:4-8 | no line lies in two chunks |
| `LineCover.LinesWholeIff` | core/include/gcore/chunk_allocator.h:4-8 | every line lies in a chunk in one piece exactly when the file is line-safe: every boundary has its first newline within the look-ahead, or follows a newline and has no other within the chunk size |
| `LineCover.LineLost` | core/include/gcore/chunk_allocator.h:44-55 | at any other boundary there is a line that no chunk holds |
| `ChunkAllocator.WellLinedSafe` | core/include/gcore/chunk_allocator.h:4-8 | a file with a newline within reach of every boundary is line-safe |
| `LineCover.SplitExample` | core/include/gcore/chunk_allocator.h:45 | a file of two chunks without a newline: no byte is lost and the only line is cut in two |
| `LineCover.LossExample` | core/include/gcore/chunk_allocator.h:22-24 | a look-ahead shorter than the chunk: a line in no chunk, with lost bytes |
| `Schedule.StepConserves` | core/include/gcore/chunk_allocator.h:34-66 | every atomic step of any worker keeps: produced, promised and unfetched work together are the sequential result |
| `Schedule.RunConserves` | core/include/gcore/chunk_allocator.h:34-66 | the same in every state of every interleaving |
| `Schedule.NothingTwice` | core/include/gcore/chunk_allocator.h:34-66 | in every reachable state no result has been produced too often |
| `Schedule.InterleavingComplete` | tools/g-strings/g_strings.cpp:120-138 | when all workers have stopped, the merge is a permutation of the sequential result |
| `Schedule.StepProgress` | core/include/gcore/chunk_allocator.h:35-37 | every step of an unfinished worker shortens the run |
| `Schedule.MergedConcat` | tools/g-strings/g_strings.cpp:129-138 | the merge keeps every worker output whole, in worker order |
| `Schedule.SortUnique` | tools/g-strings/g_strings.cpp:144-147 | with strictly ascending keys there is only one sorted permutation |
| `Schedule.DistinctSortUnique` | tools/g-strings/g_strings.cpp:144-147 | with pairwise different keys, any two merges of the same results have the same sorted order |
| `Schedule.RunIsWorks` | tools/g-strings/g_strings.cpp:124-129 | in every reachable state of every interleaving the output of a worker is the work on the offsets it fetched, in the order in which it fetched them |
| `Schedule.SoloIsSequential` | tools/g-strings/g_strings.cpp:124-129 | a worker without competition does the whole sequential work |
| `Pipeline.NextWork` | core/include/gcore/chunk_allocator.h:34-66 | one call of the allocator adds the result of the chunk it hands out, and nothing else |
| `Pipeline.ChunksTile` | core/include/gcore/chunk_allocator.h:4-8 | on a line-safe file the chunk results concatenate to the result of the whole file |
| `Pipeline.MergeComplete` | tools/g-strings/g_strings.cpp:120-138 | line-safe file, any workers, any interleaving: the merge is a permutation of one pass over the file |
| `Pipeline.PassKeys` | core/include/gcore/chunk_allocator.h:31-66 | on any file, keys that are distinct (ascending) within every chunk are distinct (ascending) in the whole pass |
| `Pipeline.SortHidesSchedule` | tools/g-strings/g_strings.cpp:139-148 | on any file, with distinct keys in every chunk, the sorted merge is the same for any two numbers of workers and any two interleavings |
| `Pipeline.SortedIsPass` | tools/g-strings/g_strings.cpp:139-148 | on any file, with ascending keys in every chunk, the sorted merge is the results of the chunks in file order |
| `Coverage.EveryByteOnce` | core/include/gcore/chunk_allocator.h:4-8 | line-safe file, any interleaving: every byte is handed out exactly once |
| `Coverage.EveryByteAccounted` | core/include/gcore/chunk_allocator.h:34-66 | any file, any interleaving: exactly the lost bytes are never handed out, every other byte exactly once |
| `Coverage.HistChunk` | tools/g-analyze/g_analyze.cpp:156 | each counter grows by the occurrences of its byte in the chunk |
| `Coverage.HistWorker` | tools/g-analyze/g_analyze.cpp:153-158 | a worker counts exactly the bytes of the chunks it was handed, whatever the others took |
| `Coverage.AddBars` | tools/g-analyze/g_analyze.cpp:182 | counter by counter addition |
| `Coverage.MergeHists` | tools/g-analyze/g_analyze.cpp:180-182 | adds up the counters of all workers |
| `Coverage.MergedBarsCount` | tools/g-analyze/g_analyze.cpp:180-182 | the added counters are those of the bytes of all workers together |
| `Coverage.HistComplete` | tools/g-analyze/g_analyze.cpp:160-189 | on a line-safe file the added counters are those of the file, for every interleaving |
| `Coverage.BarsSum` | tools/g-analyze/g_analyze.cpp:524-525 | the 256 counters sum to the number of bytes counted |
| `Coverage.HistSumExact` | tools/g-analyze/g_analyze.cpp:180-182 | for every interleaving on any file, the added counters sum to the file size exactly when no boundary loses bytes |
| `Strings.ClosedRunsExact` | tools/g-strings/g_strings.cpp:55-87 | the runs a failing byte closes in a stretch are exactly the maximal ones that end there |
| `Strings.ChunkRunsExact` | tools/g-strings/g_strings.cpp:55-99 | a chunk reports exactly the runs that end in it, or with it at the end of the file |
| `Strings.AllRunsExact` | tools/g-strings/g_strings.cpp:55-99 | one pass over the file finds exactly the maximal printable runs |
| `Strings.AllRunsAscend` | tools/g-strings/g_strings.cpp:55-99 | the runs ascend and do not touch |
| `Strings.RunsCut` | tools/g-strings/g_strings.cpp:88-92 | a cut at the start of a line loses and splits no run |
| `Strings.SequentialStringsExact` | tools/g-strings/g_strings.cpp:35-43 | a record stands for exactly one maximal run of bytes 0x20 to 0x7E that is at least the minimum long and, unless the maximum is negative, of at most the maximal entropy |
| `Strings.SequentialStringsStrict` | tools/g-strings/g_strings.cpp:139-148 | offsets ascend strictly |
| `Strings.FilterMonotone` | tools/g-strings/g_strings.cpp:35-43 | a larger minimum, a smaller maximum, or a maximum where there was none, only removes records |
| `Strings.ScanOne` | tools/g-strings/g_strings.cpp:63-70 | one byte of the run automaton, from a mask bit or a test |
| `Strings.ScanMask` | tools/g-strings/g_strings.cpp:60-73 | the 64 bits of a mask, lowest first, act like 64 bytes |
| `Strings.ScanChunk` | tools/g-strings/g_strings.cpp:52-99 | block loop, tail and final run of a chunk give the records of its runs |
| `Strings.StringsWorker` | tools/g-strings/g_strings.cpp:45-101 | the records of the chunks a worker was handed, whatever the others took |
| `Strings.StringsPipeline` | tools/g-strings/g_strings.cpp:109-152 | line-safe file, any workers, any interleaving: the sorted merge is the sequential result |
| `Strings.StringsAnyFile` | tools/g-strings/g_strings.cpp:109-152 | any file, any workers, any interleaving: the sorted merge is the records of the chunks in file order |
| `Strings.RunReported` | tools/g-strings/g_strings.cpp:88-99 | on any file a maximal run is reported exactly when it passes length and entropy, and some chunk begins no later and goes on beyond its end, or ends with it at the end of the file |
| `Strings.CutRun` | tools/g-strings/g_strings.cpp:88-99 | whatever else is reported is what is left of a run that a chunk edge cut |
| `Grep.LinesExact` | tools/g-grep/g_grep.cpp:39-58 | the line loop visits exactly the lines of the file |
| `Grep.LinesAscend` | tools/g-grep/g_grep.cpp:39-58 | in file order |
| `Grep.LinesCut` | tools/g-grep/g_grep.cpp:38-58 | a cut at the start of a line splits no line |
| `GrepCount.StretchExact` | tools/g-grep/g_grep.cpp:38-58 | the line loop visits exactly the pieces of a stretch between newlines, in any stretch, one cut at its end included |
| `Grep.ContainsExact` | tools/g-grep/g_grep.cpp:48-49 | the search finds the needle exactly when the line is something, the needle, and something |
| `GrepCount.HitsExact` | tools/g-grep/g_grep.cpp:38-58 | the hits of any chunk are the contents of its lines with the needle, each once, in order |
| `Grep.GrepChunk` | tools/g-grep/g_grep.cpp:38-58 | count and arena of one chunk are those of its lines that contain the needle |
| `Grep.GrepWorker` | tools/g-grep/g_grep.cpp:27-60 | count and arena of the chunks a worker was handed, whatever the others took |
| `Grep.DecodeArena` | bindings/rust/gcore/src/lib.rs:114-125 | splits the arena at its NULs and converts every piece |
| `Grep.DecodeEncode` | bindings/rust/gcore/src/lib.rs:114-125 | decoding inverts the arena layout for hits without a NUL |
| `Grep.DecodeExact` | bindings/rust/gcore/src/lib.rs:114-125 | and only for them |
| `Grep.DecodeSplits` | bindings/rust/gcore/src/lib.rs:114-125 | on any bytes: the words decoded are NUL-free and, each followed by a NUL, are the bytes up to the last NUL; the rest is dropped |
| `Grep.GrepPipeline` | tools/g-grep/g_grep.cpp:96-115 | line-safe file, any interleaving: the count is the number of matching lines, and the decoded arena is a permutation of them exactly when none holds a NUL |
| `GrepCount.LongHeld` | tools/g-grep/g_grep.cpp:38-58 | what a chunk takes for a line is a line of the file, and held by it, if it is as long as the longest line that no chunk holds |
| `GrepCount.CountsTooFew` | tools/g-grep/g_grep.cpp:38-58 | that longest line, as the needle, is counted too few times |
| `GrepCount.GrepExact` | tools/g-grep/g_grep.cpp:4-6 | with a look-ahead, the chunks count right for every needle exactly when the file is line-safe; a file without NULs that is not has a miscounted needle without one |
| `GrepCount.GrepCountsExact` | tools/g-grep/g_grep.cpp:80-105 | so the count of any number of workers in any interleaving is right for every needle exactly then |
| `Grep.GrepAnyFile` | tools/g-grep/g_grep.cpp:96-115 | any file: the count is the same for every schedule, and the decoded arena is a permutation of the hits of the chunks exactly when none holds a NUL |
| `Unicode.NextZeroAt` | tools/g-analyze/g_analyze.cpp:226-231 | the shifted and patched zero mask says for each lane whether the next byte is zero |
| `Unicode.PairsAt` | tools/g-analyze/g_analyze.cpp:232-235 | the two alternating masks separate even and odd pair starts |
| `Unicode.BlockPairs` | tools/g-analyze/g_analyze.cpp:225-235 | every second bit of the two masks is the pair test of its position |
| `Unicode.PairStep` | tools/g-analyze/g_analyze.cpp:237-248 | one pair start of one lane |
| `Unicode.UnicodeBlock` | tools/g-analyze/g_analyze.cpp:224-251 | the 32 rounds of a block are 64 pair starts of two interleaved lanes |
| `Unicode.UnicodeTail` | tools/g-analyze/g_analyze.cpp:253-261 | the tail takes the lane from the parity of the offset |
| `Unicode.UnicodeChunk` | tools/g-analyze/g_analyze.cpp:218-271 | block loop, tail and end of file give the records of the chunk as coded |
| `Unicode.UnicodeWorker` | tools/g-analyze/g_analyze.cpp:208-273 | the records of the chunks a worker was handed, whatever the others took |
| `Unicode.UnicodeRecsExact` | tools/g-analyze/g_analyze.cpp:198-206 | a record of a chunk stands for a run of at least twice the minimum of bytes and, unless the maximum is negative, of at most the maximal entropy |
| `Unicode.EvenStart` | tools/g-analyze/g_analyze.cpp:218-271 | on a chunk with an even start the coded scan is the scalar scan of two alignments |
| `Unicode.PairRunsExact` | tools/g-analyze/g_analyze.cpp:236-250 | the closed runs are exactly the maximal runs of characters of their alignment |
| `Unicode.ScalarChunkExact` | tools/g-analyze/g_analyze.cpp:218-271 | the scalar scan reports exactly the maximal runs of characters of a chunk: those a failing pair closes, and the one the end of the file cuts |
| `Unicode.ScalarChunkTouch` | tools/g-analyze/g_analyze.cpp:218-271 | in the scalar scan no byte belongs to two records, whichever alignments they have |
| `Unicode.LanesOverlap` | tools/g-analyze/g_analyze.cpp:252-261 | two records overlap in every unaligned chunk with the given bytes, unless its tail is short and ends before the file |
| `Unicode.CodedTouchExact` | tools/g-analyze/g_analyze.cpp:218-271 | no byte belongs to two coded records, on all contents, exactly when the chunk is aligned, or ends before the file with at most two pair starts in its tail; else two overlap on a content on which a line starts with the chunk |
| `Unicode.CodedStarts` | tools/g-analyze/g_analyze.cpp:218-271 | no two coded records of a chunk have the same start, wherever the chunk begins |
| `Unicode.LengthsEven` | tools/g-analyze/g_analyze.cpp:198-206 | scalar scan: a record closed by a failing pair has even length; one that reaches the end of the file exactly when the last two bytes are a character |
| `Unicode.CodedLengths` | tools/g-analyze/g_analyze.cpp:198-206 | the same of the coded scan of an aligned chunk |
| `Unicode.OddClosed` | tools/g-analyze/g_analyze.cpp:252-261 | an unaligned chunk with the given bytes has an odd record closed by a failing pair, whatever the rest of the file |
| `Unicode.ClosedEvenExact` | tools/g-analyze/g_analyze.cpp:252-261 | records closed by a failing pair have even lengths on all contents exactly when the chunk is aligned; else a content fails on which a line starts with the chunk |
| `Unicode.OpenLengthExact` | tools/g-analyze/g_analyze.cpp:262-271 | records that the end of the file closes have the parity its last two bytes tell, on all contents, exactly when the chunk is aligned; else a content fails on which a line starts with the chunk |
| `Unicode.OddAtEnd` | tools/g-analyze/g_analyze.cpp:262-271 | an aligned last chunk with the given bytes has an odd record |
| `Unicode.OddExample` | tools/g-analyze/g_analyze.cpp:262-271 | the smallest such file: a character followed by one byte |
| `Unicode.LengthsEvenExact` | core/include/gcore/c_abi.h:72-75 | all records of a chunk have even lengths on all contents exactly when it ends before the file and is aligned, or ends with the file and is shorter than three bytes; else a content fails on which a line starts with the chunk |
| `Unicode.OddHarmless` | tools/g-analyze/g_analyze.cpp:253-261 | an odd start does no harm without a block or without a pair in the tail |
| `Unicode.OddMisses` | tools/g-analyze/g_analyze.cpp:253-261 | otherwise the coded scan differs from the scalar scan on every file with the given bytes in the chunk |
| `Unicode.AlignmentExact` | tools/g-analyze/g_analyze.cpp:218-271 | coded and scalar scan of a chunk agree on all contents exactly when it is aligned: an even start, or no block, or no pair left for the tail; else they differ on a content on which a line starts with the chunk |
| `Unicode.UnicodeAnySchedule` | tools/g-analyze/g_analyze.cpp:275-310 | any file, any two numbers of workers, any two interleavings: the sorted results are the same, strictly ascending, and hold the records of the chunks as coded |
| `UnicodeFiles.LanesExchanged` | tools/g-analyze/g_analyze.cpp:218-261 | on an unaligned chunk the coded and the scalar scan differ in nothing but which lane the tail takes for which |
| `UnicodeFiles.UncleanDiffers` | tools/g-analyze/g_analyze.cpp:218-271 | on contents that are not clean, a run of a character or more that only one of the scans reports, at any length of the chunk |
| `UnicodeFiles.CleanExact` | tools/g-analyze/g_analyze.cpp:218-271 | the scans of a chunk give the same records, through any filter the tool accepts, when the content is clean, and through the most permissive one only then |
| `UnicodeFiles.UncleanPass` | tools/g-analyze/g_analyze.cpp:275-310 | a file with an unclean chunk has a record in one of the passes and not in the other |
| `UnicodeFiles.UnicodePipeline` | tools/g-analyze/g_analyze.cpp:275-310 | any workers, any interleaving, any file: the sorted merge is the scalar scan of the chunks in file order, through any filter the tool accepts, when every chunk is clean, and through the most permissive one only then |
| `UnicodeFiles.SmallAligned` | core/include/gcore/chunk_allocator.h:44-55 | a file of at most the chunk size plus 66 bytes has aligned chunks only |
| `UnicodeFiles.ClosedEvenFiles` | tools/g-analyze/g_analyze.cpp:252-261 | records closed by a failing pair are even on every file of a size exactly up to the chunk size plus 66 |
| `UnicodeFiles.OddFileRecord` | tools/g-analyze/g_analyze.cpp:252-261 | on a file of any larger size the tool reports a record of three bytes in mid-file that the scalar scan does not |
| `UnicodeFiles.OddFileExample` | tools/g-analyze/g_analyze.cpp:252-261 | the file of the chunk size plus 68 bytes with a newline and two characters that shows it |
| `UnicodeFiles.ScalarFiles` | tools/g-analyze/g_analyze.cpp:208-273 | the records are those of the scalar scan on every file of a size exactly up to the chunk size plus 66 |
| `UnicodeFiles.OverlapFileRecords` | tools/g-analyze/g_analyze.cpp:252-261 | on a file of any larger size the tool reports two records that share a byte |
| `UnicodeFiles.ApartFiles` | tools/g-analyze/g_analyze.cpp:208-273 | no byte belongs to two records on every file of a size exactly up to the chunk size plus 66 |
| `UnicodeFiles.EvenFiles` | core/include/gcore/c_abi.h:72-75 | all lengths are even on every file of exactly the sizes below three, and one or two bytes above the chunk size when the look-ahead is shorter than the excess |
| `Hash.BitStepLinear` | tests/fuzz_api.cpp:79-83 | the reflected bit step is linear over exclusive or |
| `Hash.TableIsByteStep` | tests/fuzz_api.cpp:86-88 | one table look-up is eight bit steps |
| `Hash.WideByteConsumes` | tools/g-analyze/g_analyze.cpp:134 | eight steps of the 64-bit register consume one operand byte |
| `Hash.WordIsBytes` | tools/g-analyze/g_analyze.cpp:134 | the 64-bit CRC instruction is the byte instruction on its eight bytes, low byte first |
| `Hash.CrcWord` | tools/g-analyze/g_analyze.cpp:132-136 | a word step of the loop is eight byte steps of the file |
| `Hash.TableCrc` | tests/fuzz_api.cpp:75-89 | the table-driven reference computes the byte-wise CRC32C |
| `Hash.RunHash` | tools/g-analyze/g_analyze.cpp:122-149 | word loop plus tail compute the same CRC32C, and the word variant of FNV-1a |
| `Hash.ReconHash` | tools/g-analyze/g_analyze.cpp:516-522 | the byte loop computes the same CRC32C, and the byte variant of FNV-1a |
| `Hash.FnvStepInjective` | tools/g-analyze/g_analyze.cpp:135 | every step is a bijection of the state and of the word |
| `Hash.FnvCarries` | tools/g-analyze/g_analyze.cpp:132-140 | equal bytes from some position on keep different states different |
| `Hash.FnvDetects` | tools/g-analyze/g_analyze.cpp:129-141 | files that differ in exactly one 8-byte word, or one tail byte, have different FNV hashes |
| `Hash.FnvBytesDetects` | tools/g-analyze/g_analyze.cpp:518-521 | files that differ in exactly one byte have different g-recon hashes |
| `Hash.FnvShort` | tools/g-analyze/g_analyze.cpp:518-521 | on files shorter than a word the two variants agree |
| `Hash.FnvBytesSnoc` | tools/g-analyze/g_analyze.cpp:518-521 | the g-recon hash of the empty file, and of a file and one more byte |
| `Hash.FnvWordsSnoc` | tools/g-analyze/g_analyze.cpp:129-141 | the g-hash hash of the empty file, of whole words and one more word, and of a tail and one more byte |
| `Hash.FnvCheck` | tests/test_analyze.cpp:45-55 | the two hashes of the digits 1 to 9, as numbers |
| `Hash.ByteStepInjective` | tools/g-analyze/g_analyze.cpp:138 | eight CRC bit steps are a bijection |
| `Hash.CrcDetects` | tools/g-analyze/g_analyze.cpp:129-141 | files whose differences lie within four consecutive bytes have different CRC32C; one byte is a special case |
| `Hash.CrcSnoc` | tools/g-analyze/g_analyze.cpp:516-522 | the CRC of the empty file, and of a file and one more byte |
| `Hash.CrcCheck` | tests/test_analyze.cpp:243-251 | the CRC of the digits 1 to 9 is 0xE3069283, the check value of CRC-32C |
| `Diff.CompareBlock` | tools/g-analyze/g_analyze.cpp:473-477 | length and contents of two blocks are compared |
| `Diff.GroupBlock` | tools/g-analyze/g_analyze.cpp:478-482 | the grouping rule with its 32-bit length |
| `Diff.RunDiff` | tools/g-analyze/g_analyze.cpp:455-503 | block loop and tail give the specified record list |
| `Diff.GroupsAreGood` | tools/g-analyze/g_analyze.cpp:472-483 | the groups are the maximal stretches of changed blocks, ascending, an equal block after each |
| `Diff.RunsAreGroups` | tools/g-analyze/g_analyze.cpp:478-482 | while no group reaches 2^32 bytes, the records are the groups |
| `Diff.CoversIff` | tools/g-analyze/g_analyze.cpp:472-492 | every difference is in some record exactly when no group and no tail needs more than 32 bits |
| `Diff.LongGroupMissed` | tools/g-analyze/g_analyze.cpp:479 | a group of 2^32 bytes or more leaves a difference unrecorded |
| `Diff.LongTailMissed` | tools/g-analyze/g_analyze.cpp:484-492 | so does a tail of 2^32 bytes or more |
| `Diff.FourGiBMissed` | tools/g-analyze/g_analyze.cpp:479 | a concrete pair of 4 GiB files with an unrecorded difference |
| `Diff.RebuildsB` | tools/g-analyze/g_analyze.cpp:463-492 | B is rebuilt from A, the size of B, the records and the bytes of B in them, when no group and no tail of B needs more than 32 bits |
| `Diff.DeterminesB` | tools/g-analyze/g_analyze.cpp:463-492 | size, records and recorded bytes determine B exactly then |
| `Diff.ChangedExact` | tools/g-analyze/g_analyze.cpp:472-483 | the CHANGED records are exactly the maximal groups of changed blocks if and only if no stretch of changed blocks reaches 2^32 bytes |
| `Diff.ChangedAscend` | tools/g-analyze/g_analyze.cpp:472-483 | at any size CHANGED records ascend with at least a block between two |
| `Diff.EmptyIffEqual` | tools/g-analyze/g_analyze.cpp:463-492 | no records exactly when the files are equal, at any size |
| `Diff.DiffSwap` | tools/g-analyze/g_analyze.cpp:463-492 | swapping the files swaps the offsets, and INSERTED with DELETED |
| `Diff.TailExact` | tools/g-analyze/g_analyze.cpp:485-492 | an INSERTED record has offset 0 in A and a DELETED one offset 0 in B; where they begin, how long they are, and when there is one; all others are CHANGED with equal offsets |
| `FlatArena.Doubled` | core/include/gcore/flat_arena.h:73-77 | the first doubling that is large enough, less than twice the need |
| `FlatArena.DoubledIs` | core/include/gcore/flat_arena.h:73-77 | it is n doubled some number of times, and one doubling less would not do |
| `FlatArena.AlwaysSound` | core/include/gcore/flat_arena.h:38-77 | after any calls size is within capacity and capacity is a multiple of 64 |
| `FlatArena.HoldsAll` | core/include/gcore/flat_arena.h:53-59 | the contents are the concatenation of all appends since the last reset that were served memory |
| `FlatArena.OffsetStays` | core/include/gcore/flat_arena.h:38-59 | what an append wrote stays at the offset it returned, through later growth and failed calls |
| `FlatArena.AppendsFrugal` | core/include/gcore/flat_arena.h:73-77 | with appends only: capacity at most max(2^20, 2 size), and all growth together moves at most capacity bytes |
| `FlatArena.Arena.constructor` | core/include/gcore/flat_arena.h:17 | an empty arena without memory |
| `FlatArena.Arena.Move` | core/include/gcore/flat_arena.h:22-26 | takes over memory and contents and leaves the source empty |
| `FlatArena.Arena.Assign` | core/include/gcore/flat_arena.h:27-35 | the same for assignment; a self-move changes nothing |
| `FlatArena.Arena.Reserve` | core/include/gcore/flat_arena.h:38-50 | grows to the rounded capacity and keeps the contents; fails, or does nothing when there is room, without any change |
| `FlatArena.Arena.Grow` | core/include/gcore/flat_arena.h:73-77 | doubles until the need is met |
| `FlatArena.Arena.MakeRoom` | core/include/gcore/flat_arena.h:54 | room for n more bytes, or failure without any change |
| `FlatArena.Arena.Append` | core/include/gcore/flat_arena.h:53-59 | adds the bytes at the end and returns their offset, or -1 without any change; takes no new memory while there is room |
| `FlatArena.Arena.ResetAll` | core/include/gcore/flat_arena.h:66-70 | back to the empty arena |
| `Entropy.ShareTurn` | tools/g-analyze/g_analyze.cpp:48-52 | a worker reports its block and has nothing to report before the next one |
| `Entropy.EntropyWorker` | tools/g-analyze/g_analyze.cpp:46-53 | worker i of n reports exactly the blocks that are i modulo n |
| `Entropy.MergeWorkers` | tools/g-analyze/g_analyze.cpp:55-77 | the arenas are merged in worker order |
| `Entropy.SharesArePermutation` | tools/g-analyze/g_analyze.cpp:65-77 | the shares of any number of workers together are a permutation of the profile |
| `Entropy.EntropyProfileExact` | tools/g-analyze/g_analyze.cpp:55-92 | any number of workers: after sorting, record k has offset k times the block size and belongs to that slice, and there is one record per block |
| `Recon.LeRound` | bindings/rust/gcore/src/lib.rs:317 | a little-endian field keeps its value modulo the field size |
| `Recon.FromLeAt` | bindings/rust/gcore/src/lib.rs:317 | byte k of a field is digit k of its value in base 256, lowest first |
| `Recon.ReadWritten` | bindings/rust/gcore/src/lib.rs:316-326 | reading as many records as were written gives them back |
| `Recon.ReadTail` | bindings/rust/gcore/src/lib.rs:328-333 | reading to the end of the buffer gives the written records back |
| `Recon.ScanStrings` | tools/g-analyze/g_analyze.cpp:530-559 | the first at most 2000 maximal runs of length at least 4 |
| `Recon.CountBytes` | tools/g-analyze/g_analyze.cpp:524-525 | the histogram of the file |
| `Recon.EntropyBlocks` | tools/g-analyze/g_analyze.cpp:578-583 | one entropy record per block, in order |
| `Recon.RunRecon` | tools/g-analyze/g_analyze.cpp:507-590 | writes the flat buffer, every field at its documented offset; an empty file leaves it empty |
| `Recon.ReadLoop` | bindings/rust/gcore/src/lib.rs:316-326 | the reading loops, which stop at a slice out of range |
| `Recon.ReadToEnd` | bindings/rust/gcore/src/lib.rs:328-333 | the loop over the strings |
| `Recon.ParseRecon` | bindings/rust/gcore/src/lib.rs:304-341 | the parser computes `Parse` |
| `Recon.LayoutFormatted` | core/include/gcore/c_abi.h:124-138 | the buffer is the documented format: byte offsets of all header fields, counters, entropy and string records, padding, and the size |
| `Recon.ParseInvertsLayout` | bindings/rust/gcore/src/lib.rs:304-341 | the parser inverts the layout exactly when the number of entropy records fits its 32-bit field |
| `Recon.ReconRoundTrip` | tools/g-analyze/g_analyze.cpp:507-590 | for every non-empty file the parser recovers what the writer computed, exactly when the block count fits 32 bits |
| `Recon.ReconMeans` | tools/g-analyze/g_analyze.cpp:524-585 | the recovered histogram counts each byte and sums to the file size, there is one entropy record per block in order with the measure of its bytes, and the strings are a prefix of the g-strings result on a line-safe file under any schedule |
| `Recon.ParseShape` | bindings/rust/gcore/src/lib.rs:306-333 | on any buffer: None exactly when it is shorter than the header, a panic exactly when it is shorter than the header claims, else the claimed records and all whole strings that follow |
| `Recon.ParseHist` | bindings/rust/gcore/src/lib.rs:313-319 | on any buffer: the hashes and each counter are read from their documented offsets |
| `Recon.ParseEntropy` | bindings/rust/gcore/src/lib.rs:320-326 | the same for each entropy record |
| `Recon.ParseStrings` | bindings/rust/gcore/src/lib.rs:327-333 | the same for each string record |
| `FdTable.MmapCache.constructor` | runtime/include/grt/g_runtime.hpp:195-197 | an empty cache |
| `FdTable.MmapCache.Ingest` | runtime/include/grt/g_runtime.hpp:125-153 | a hit adds a reference and returns the cached slice; a miss maps the file under a new identifier or fails without any change |
| `FdTable.ReleaseOne` | runtime/include/grt/g_runtime.hpp:161-166 | only one entry can match a slice, so stopping at the first match is releasing all |
| `FdTable.ReleaseExact` | runtime/include/grt/g_runtime.hpp:155-167 | a release lowers exactly the references of the entry with the identifier and address, never below zero, and drops no entry |
| `FdTable.MmapCache.Release` | runtime/include/grt/g_runtime.hpp:155-167 | the entry of the slice loses one reference; nothing is unmapped |
| `FdTable.MmapCache.Clear` | runtime/include/grt/g_runtime.hpp:170-175 | the cache is emptied, identifiers go on counting |
| `FdTable.Descriptors.constructor` | runtime/include/grt/g_runtime.hpp:338-341 | an empty table whose descriptors start at 0x6000 |
| `FdTable.Descriptors.OpenRead` | runtime/include/grt/g_runtime.hpp:211-219 | a null slice gives -1, any other a fresh descriptor at position 0 |
| `FdTable.Descriptors.Read` | runtime/include/grt/g_runtime.hpp:225-241 | copies min(n, size - pos) bytes in unsigned arithmetic and moves on |
| `FdTable.Descriptors.Pread` | runtime/include/grt/g_runtime.hpp:244-254 | the bytes [off, min(off + n, size)) without moving |
| `FdTable.Descriptors.Lseek` | runtime/include/grt/g_runtime.hpp:259-274 | moves to the offset, the position plus the offset, or the size plus the offset; -1 without a move when that is negative or no signed offset, or the whence or descriptor is unknown |
| `FdTable.Descriptors.Close` | runtime/include/grt/g_runtime.hpp:276-283 | releases the slice and forgets the handle |
| `FdTable.ReadInsideIff` | runtime/include/grt/g_runtime.hpp:236-238 | a read stays in its slice exactly when the position is within the size or nothing is asked for |
| `FdTable.OutsideExactly` | runtime/include/grt/g_runtime.hpp:236-238 | in every reachable state a read leaves its slice exactly when the position is past the size and something is asked for |
| `FdTable.OutsideReached` | runtime/include/grt/g_runtime.hpp:225-274 | on every non-empty file an open and a seek past the end reach such a state |
| `FdTable.TameRunStaysInside` | runtime/include/grt/g_runtime.hpp:225-274 | in a run whose seeks all land within the size no read ever leaves its slice |
| `FdTable.ReadNext` | runtime/include/grt/g_runtime.hpp:235-240 | within the size a read returns the next min(n, rest) bytes and moves past them |
| `FdTable.ReadPast` | runtime/include/grt/g_runtime.hpp:236-239 | past the size a read leaves the slice and moves on by min(n, 2^64 - excess) |
| `FdTable.SeekPlain` | runtime/include/grt/g_runtime.hpp:259-274 | the target of every seek in plain arithmetic, wrap-around of positions near 2^64 included |
| `FdTable.TailReads` | runtime/include/grt/g_runtime.hpp:256-258 | in every reachable state: a seek back by k from the end, k at most the size, and a read of at least k bytes return the last k bytes |
| `FdTable.TellStays` | runtime/include/grt/g_runtime.hpp:267 | in every reachable state: a seek by 0 from the position returns it and moves nothing |
| `FdTable.StepInv` | runtime/include/grt/g_runtime.hpp:125-283 | every atomic step of the two-lock system keeps the invariant |
| `FdTable.EveryRun` | runtime/include/grt/g_runtime.hpp:125-283 | in every reachable state: references are open handles plus opens in flight, or for an empty file all opens since the last clear; every slice in use is a live entry; identifiers are unique |
| `FdTable.NeverReused` | runtime/include/grt/g_runtime.hpp:216-217 | no descriptor is handed out twice |
| `FdTable.IdsAscend` | runtime/include/grt/g_runtime.hpp:143 | only a new entry takes an identifier, the next one, also after a clear |
| `FdTable.UnusedIffNoRefs` | runtime/include/grt/g_runtime.hpp:155-167 | an entry has no reference exactly when no handle and no open uses it |
| `FdTable.ReadsAreConsecutive` | runtime/include/grt/g_runtime.hpp:225-241 | after a seek within the size, successive reads return consecutive bytes of the file |
| `FdTable.StepsAreCalls` | runtime/include/grt/g_runtime.hpp:211-219 | the two steps of an open and of a close, undisturbed, are the calls |
| `FdTable.ReadSeekCalls` | runtime/include/grt/g_runtime.hpp:225-274 | in every reachable state the steps of a read and of a seek are the calls |
| `FdTable.ClearExactly` | runtime/include/grt/g_runtime.hpp:170-175 | clearing keeps the invariant exactly when no handle and no open is live |
| `FdTable.SameSlice` | runtime/include/grt/g_runtime.hpp:129-133 | between clears every open of a key gets the first slice, whatever the file has become |
| `FdTable.OpenFailsExactly` | runtime/include/grt/g_runtime.hpp:211-213 | when an open fails; for an empty file it fails after taking a reference |

## Left out

- GScan.RunScan: requires that no empty pattern precedes a non-empty one, because otherwise the code reads lengths of other patterns or past their table (`GScan.LengthReadsReached`).
- ChunkAllocator.Allocator.Others: stands for the other workers; threads sharing memory are a step system and an advancing counter here, and not shared memory.
- UnicodeFiles.UnicodePipeline: the converse is stated for the most permissive filter, since others may drop the very records in which the scans differ.
- UnicodeFiles.EvenFiles: the theorems by file size are stated for even chunk sizes from 70 on, of which the default is one.
- GrepCount.GrepExact: asks for a look-ahead of at least one byte, because without one an empty line can be missed, which no needle finds.
- Diff.RebuildsB: asks that groups and the tail of B fit 32 bits, the exact condition of `Diff.DeterminesB`.
- Recon.RunRecon: the entropy of a block is eight uninterpreted bytes.
- FdTable.Descriptors.Lseek: takes overflow of a signed 64-bit offset as wrap-around, which the language leaves undefined.
- FlatArena.Arena.Append: does not model the wrap-around of sizes near 2^64.
- Opening, mapping and advising files: system calls; a file is a given byte sequence, and a failed mapping is a parameter.
- The LD_PRELOAD hooks, command lines, C wrappers, Python bindings and the benchmark generator: plumbing around the same results.
- `shannon_entropy`: floating-point logarithms; an arbitrary function of the slice, as a filter and as a payload. A measure that is not a number is not part of the filter.
- `run_sections`: field decoding of executables, wide but shallow.
- `run_slice` and the early exits on empty input other than that of g-recon: too easy to add anything.
- `Vfs::normalize`: platform cases of string rewriting; the cache key is arbitrary.
- `set_pos`, `fstat`, `stat`, `mmap_slice`, `has` and the statistics of the cache: single look-ups.
- Wrap-around of the chunk counter, of slice identifiers and of descriptor numbers, and a failed allocation inside a tool: bounds no run reaches; `FlatArena` itself does model failed allocations.
- UTF-8 replacement in the Rust decoder: an arbitrary conversion of the bytes of a hit.
- Unaligned and little-endian loads: a load of eight bytes is their little-endian value.
