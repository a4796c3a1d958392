# Unique chess positions: a verified model of `uniques.h`

`uniques.h` counts the distinct chess positions reachable in a given number of plies and
records how many move paths reach each of them. Each position gets a 128-bit Zobrist key. It
is stored once in a chained hash table: a primary array of `1 << UNIQUE_TABLE_BITS` records
indexed by the low bits of the key, plus a bump-allocated arena of `MAX_EXTRA_ALLOCS` overflow
blocks for collisions. The occurrence count of a repeated position grows by the weight it
arrives with.

`perft_unique` expands a position `depth` plies and inserts every leaf with the same weight.
`saveUniquesToFile` writes the table out as one file per depth and resets the table.
`findUniques` reads each file back and expands every saved position one more ply, with its
count as the weight.

The project is in Dafny. Each file is one module.

| file | module | what it holds |
|---|---|---|
| `hashkey.dfy` | `HashKey` | `HashKey128b`: two 64-bit words, their XOR and equality, and the bucket mask. |
| `board.dfy` | `Board` | The fields of `HexaBitBoardPosition` the hash reads, and the move generator as a parameter. |
| `zobrist.dfy` | `Zobrist` | `computeZobristKey128b` as a loop, proved equal to the XOR of the keys of exactly the features present. |
| `store.dfy` | `UniqueStore` | The abstract content of the table (key to position and count), insertion, and total weight. |
| `table_state.dfy` | `TableState` | The memory, allocator and chains as values, the table invariant, and one lemma per kind of step. |
| `snapshot.dfy` | `Snapshot` | The record sequence `saveUniquesToFile` writes, and what it says about the content. |
| `table.dfy` | `UniqueTable` | The `Table` class: `hashTable` and `additionalAllocs` as arrays, with `allocNewRecord`, `findPositionAndUpdateCounter` and `saveUniquesToFile` as methods. |
| `uniques.dfy` | `Uniques` | `perft_unique`, the passes of `findUniques`, and the counting lemmas. |

### How the model represents the source

**Keys and positions**
- A 64-bit word is the set of its one-bits, and a bitboard is the set of its occupied squares. XOR, AND and OR become set operations on them.
- `getOne` followed by `bitScan` picks the lowest occupied square.
- The key tables `zob` and `zob2` are function-valued parameters, with one key per feature.

**The table**
- Pointers become locations: `Primary(bucket)` or `Overflow(block, index)`. A `next` pointer is `Null` or names an overflow slot.
- Each overflow block is the sequence of its records, held in `additionalAllocs: array<seq<Record>>`.
- `blockAllocated` records which blocks have been `malloc`ed.
- Ghost fields hold:
  - each bucket's chain of locations;
  - the chain position of each stored key;
  - the abstract content, `Contents`.
- `Valid()` states the invariant that holds between calls:
  - each chain starts at its primary slot and follows the `next` links through distinct overflow slots that have been handed out;
  - each nonzero key sits once, in its own bucket's chain;
  - the slots past the bump pointer of an allocated block are still zero;
  - `currentAlloc < MAX_EXTRA_ALLOCS` and `indexInCurrent < EXTRA_ALLOC_SIZE`.
- `Clean()` says the table holds no stray record: a primary slot with the zero hash has count 0, and every overflow slot handed out holds a nonzero hash. A zeroed table is clean, inserting a nonzero key keeps it clean, and a clean table writes no empty record to its file.
- The sizes are parameters. `TableState.UNIQUES_CONFIG` holds the ones the source uses: 26 bits, and 10 blocks of 16 Mi records.

**Files and exits**
- A file is the sequence of the records written to it.
- `findUniques` collects its files in a map from depth to file.
- `exit(0)`, the process exit when the overflow arena runs out, becomes the result value `Exhausted` or `OutOfMemoryExit`.
- The `break` out of the depth loop on a file too big to read in one go (`uniques.h:345`) is not an exit: `findUniques` goes on to `free(tempAlloc)` and returns. The model ends its loop with the result `FileTooBig`.

### Behaviours the source has, kept as written
- **The zero key.** The match test comes before the empty test.
  - Inserting the key (0,0) "finds" the first empty record on its chain and adds to that record's count. It returns true and stores nothing in `Contents`.
  - If the chain has no empty record, the key (0,0) also first links a fresh overflow record (`UniqueTable.Table.FindPositionAndUpdateCounter`).
- **Liveness tests.** A primary slot is saved only when its count is nonzero, but an overflow record is always saved. A stored key whose record is a primary slot with count 0 (weight 0, or a wrapped count) is therefore missing from the file (`Snapshot.SavedWhen`).
- **Count truncation.** A record's 64-bit count is passed as the 32-bit weight of the next pass (`Uniques.PassCount`).
- **Counts wrap.** Occurrence counts and the unique counter are `uint64` and wrap modulo 2^64 (`UniqueStore.AddCount`, `UniqueStore.Add64`).
- **Wasted last slot.** The very last overflow slot is handed out and then the process exits before using it. The model reports out of memory on that call.
- **No sorting.** The comment at `uniques.h:291` says the file is sorted by key, but nothing sorts it. Files are in table order: nonzero-count primary slots by bucket, then the full overflow blocks, then the used part of the current block (`Snapshot.SavedImage`, `Snapshot.LivePrimaryOrder`).

## Model

| member | source | states |
|---|---|---|
| HashKey.Equal | uniques.h:30-33 | `==` holds exactly when both halves of the two keys are equal |
| HashKey.XorBits | uniques.h:15-28 | each bit of each half of `a ^ b` is the exclusive or of that bit of `a` and of `b`; the halves do not interact |
| HashKey.XorZero | uniques.h:12-21 | the default key (0,0) is the identity of `^` on either side |
| HashKey.XorCancel | uniques.h:15-28 | xoring the same key twice restores the original, and a key xored with itself is (0,0) |
| HashKey.XorCommutes | uniques.h:15-21 | `^` on keys commutes |
| HashKey.XorAssociates | uniques.h:15-28 | `^` on keys is associative, so a run of `^=` steps can be reordered |
| HashKey.LowMask | uniques.h:122-123 | `UNIQUE_TABLE_INDEX_BITS` has exactly the bits below `UNIQUE_TABLE_BITS` |
| HashKey.MaskedIndex | uniques.h:173 | `lowPart & UNIQUE_TABLE_INDEX_BITS` is below the table size |
| HashKey.MaskedModulo | uniques.h:173 | the bucket `lowPart & UNIQUE_TABLE_INDEX_BITS` is the value of `lowPart` modulo `2^UNIQUE_TABLE_BITS` |
| HashKey.MaskedBelow | uniques.h:173 | masking with the low `bits` bits keeps the value of every lower part of the word |
| HashKey.ValueSplit | uniques.h:173 | a word's value is its low `n` bits' value plus `2^n` times the value of the bits above |
| TableState.UniquesConfigOk | uniques.h:120-133 | the source's sizes are valid parameters of the model, and `1 << 26` is 0x4000000 slots |
| Zobrist.ComputeZobristKey128b | uniques.h:43-109 | the result is the XOR of the keys of exactly the features of the position (`ZobristHash`) |
| Zobrist.XorPieceKeys | uniques.h:71-106 | the square loop, which clears one square per iteration, xors in the key of each occupied square's piece feature exactly once |
| Zobrist.StateFeaturesOf | uniques.h:47-67 | the side-to-move key is in iff `chance == WHITE`; a castling key iff its flag is set; the en-passant key of file `enPassent - 1` iff `enPassent != 0`; no piece key |
| Zobrist.PieceFeaturesOf | uniques.h:71-104 | there is one piece key per occupied square (pawns masked by `RANKS2TO7`), with colour 0 for white, and the kind from the tests in the order pawn, king, knight, queen (rook and bishop), rook, bishop |
| Zobrist.FeaturesOf | uniques.h:43-109 | the two above together: exactly which features the hash covers |
| Zobrist.XorAllRemove | uniques.h:74-106 | taking one feature out of the fold is xoring its key, so the hash does not depend on the order squares are visited |
| Zobrist.LowestSquare | uniques.h:76-77 | `getOne` and `bitScan` pick an occupied square, the lowest one |
| UniqueStore.AddCount | uniques.h:178 | `count += partialCount` is the sum reduced modulo 2^64 |
| UniqueStore.Insert | uniques.h:165-200 | "found" is reported iff the key is (0,0) or already stored; the stored keys gain the key iff it is new and nonzero |
| UniqueStore.InsertSize | uniques.h:165-200 | the number of stored keys grows by one exactly when the result is "not found" |
| UniqueStore.InsertEntries | uniques.h:173-190 | other keys keep their entries; a found key's count grows by `partialCount`; a new key gets its position and count `partialCount` |
| UniqueStore.WeightInsert | uniques.h:173-190 | inserting a nonzero key increases the total count by `partialCount`, modulo 2^64 |
| UniqueStore.InsertEachAppend | uniques.h:221-231 | inserting the leaves of the children one after another is inserting their concatenation |
| UniqueStore.InsertEachKeys | uniques.h:203-234 | inserting a sequence adds exactly its nonzero keys |
| UniqueStore.InsertEachGrows | uniques.h:203-234 | inserting never removes a key or shrinks the table |
| UniqueStore.UniquesOfEmpty | uniques.h:203-234 | from an empty table, the number of records is the number of distinct nonzero keys inserted |
| UniqueStore.InsertEachWeight | uniques.h:203-234 | the total count grows by `partialCount` per nonzero key inserted, modulo 2^64 |
| UniqueStore.Add64Mod | uniques.h:230 | `uniqueCount += ...` on `uint64` is the sum modulo 2^64 |
| TableState.ResetInv | uniques.h:134-136 | a zeroed primary table with no block allocated and the bump pointer at (0, 0) satisfies the invariant with no content |
| TableState.ZeroFillKeepsInv | uniques.h:139-144 | the lazy `malloc` and `memset` of the current block keeps the invariant |
| TableState.BumpKeepsInv | uniques.h:146-161 | handing out the bump slot, advancing or rolling over the pointer and linking the slot after the chain's tail keeps the invariant and extends that chain |
| TableState.CountKeepsInv | uniques.h:176-180 | adding to the count of the matching record keeps the invariant, and the content becomes that of `Insert`, reporting "found" |
| TableState.FillKeepsInv | uniques.h:182-190 | filling the first empty record of the chain with `pos`, `hash`, `partialCount` and a null link keeps the invariant, and the content becomes that of `Insert`, reporting "not found" |
| TableState.WalkStep | uniques.h:173-197 | passing a non-matching record means the key is not earlier in the chain; an empty record or the tail with no match means the key is not stored |
| TableState.WalkMatch | uniques.h:173-180 | a nonzero key met on a chain is stored, belongs to that bucket, and its entry is that record's position and count |
| TableState.LinkStep | uniques.h:193-197 | a record's `next` is null exactly at the chain's tail, and otherwise it points to the next record of the chain |
| TableState.FreshSlot | uniques.h:139-160 | the slot at the bump pointer of an allocated block is still zero, and stays zero when it is linked after the chain's tail |
| TableState.InitialClean | uniques.h:134-136 | the zeroed primary table with no overflow slot handed out is clean |
| TableState.BumpClean | uniques.h:146-161 | handing out the bump slot keeps the table clean once that slot holds a nonzero hash |
| TableState.ChainHashes | uniques.h:165-200 | the keys in a chain are pairwise distinct and all index that bucket, and every stored key is on its bucket's chain |
| UniqueTable.Table.constructor | uniques.h:127-136 | a table whose primary slots are all zero (`EmptyPrimary`), with no block allocated, no content, and clean |
| UniqueTable.Table.PrepareCurrentBlock | uniques.h:139-144 | allocates and zero-fills the current block if it is not allocated yet; nothing else changes |
| UniqueTable.Table.AllocNewRecord | uniques.h:137-163 | hands out slot (`currentAlloc`, `indexInCurrent`), which is still zero, advances the pointer with the roll-over and links the slot after the chain's tail; reports out of memory exactly when the roll-over reaches `MAX_EXTRA_ALLOCS`, and then only the current block has been allocated |
| UniqueTable.Table.LinkNewRecord | uniques.h:146-162 | the bump and link of `allocNewRecord` once its block is present: the new slot is zero and the bump pointer advances strictly |
| UniqueTable.Table.BumpAndLink | uniques.h:146-162 | the new memory, allocator and chains after `indexInCurrent++`, the roll-over and `prev->next = newEntry` |
| UniqueTable.Table.AddToCount | uniques.h:176-180 | the match case: the content becomes `Insert`'s, reporting "found"; only this record's count changes, by `partialCount` modulo 2^64; allocator and chains are untouched |
| UniqueTable.Table.FillRecord | uniques.h:182-190 | the empty case: the content becomes `Insert`'s, reporting "not found"; only this record changes, to the hash, position, `partialCount` and a null link; the key's chain position is this record |
| UniqueTable.Table.NextRecord | uniques.h:193-198 | following `next` changes nothing, and allocating links a new zero record; either gives the next record of the chain; out of memory happens only with the bump pointer at the arena's last slot, leaves the content unchanged and the key unstored, and changes nothing but the lazy block allocation |
| UniqueTable.Table.GrowChain | uniques.h:193-197 | at the chain's tail, a new zero record is linked as the next chain position; `None` only with the bump pointer at the arena's last slot |
| UniqueTable.Table.Settle | uniques.h:175-190 | a record holding `hash` gets its count raised and the result is "found"; otherwise the empty record is filled and the result is "not found"; the content becomes `Insert`'s and nothing but this record changes |
| UniqueTable.Table.Visit | uniques.h:173-197 | one iteration of the walk: it stops at a matching or empty record as `Settle` says, stops out of memory only at the arena's last slot, or moves on to the next chain record with the content unchanged |
| UniqueTable.Table.Walk | uniques.h:172-198 | the loop of the walk reaches one of those ends; the bump pointer or the chain position advances each iteration |
| UniqueTable.Table.FindPositionAndUpdateCounter | uniques.h:165-200 | the content becomes `Insert(old content, hash, pos, partialCount)` and the result is its "found" flag; the memory changes only at the record the walk stops at, and at a new record linked at the chain's end if the walk ran off it; a stored key found allocates nothing; inserting a nonzero key keeps a clean table clean; on out of memory the bump pointer is at the arena's last slot, the content and chains are unchanged and the key was not stored |
| UniqueTable.Table.CleanKept | uniques.h:139-197 | a walk that changes only its last record, to one with a nonzero hash, after possibly linking on the bump slot, keeps a clean table clean |
| UniqueTable.Table.WriteRecords | uniques.h:243-267 | the three loops write exactly `SavedImage`, and `recordsWritten` is its length |
| UniqueTable.Table.WriteImage | uniques.h:243-267 | the file is `SavedImage`; each nonzero-key record in it is that key's stored entry; no nonzero key appears twice; a stored key appears iff its count is nonzero or it is not in a primary slot |
| UniqueTable.Table.ZeroPrimary | uniques.h:271-273 | the primary table is all zero again (the `free` and the later `malloc` and `memset`) |
| UniqueTable.Table.ReleaseBlocks | uniques.h:275-282 | every block is released |
| UniqueTable.Table.Release | uniques.h:271-284 | the table is empty and valid, with no block allocated and `currentAlloc == indexInCurrent == 0` |
| UniqueTable.Table.SaveUniquesToFile | uniques.h:236-285 | writes `SavedImage` of the old table, which describes the old content and, from a clean table, holds no empty record; then resets the table, which is clean again |
| Snapshot.LivePrimaryOrder | uniques.h:245-253 | primary records are written in bucket order |
| Snapshot.LivePrimaryMembers | uniques.h:245-253 | the primary records written are exactly the slots with `count != 0` |
| Snapshot.FullBlockLocsMembers | uniques.h:255-260 | the slots of the full blocks are written whole: every slot of each block below `currentAlloc`, each once |
| Snapshot.ImageAt | uniques.h:243-267 | the `i`-th record written is the record at the `i`-th written location |
| Snapshot.ImageLocsMembers | uniques.h:243-267 | the written locations are distinct: the live primary slots, the full blocks, and the first `indexInCurrent` slots of the current block |
| Snapshot.SavedMatches | uniques.h:243-267 | each written record with a nonzero key is that key's stored entry, at the key's chain position |
| Snapshot.SavedDistinct | uniques.h:243-267 | no nonzero key is written twice |
| Snapshot.SavedWhen | uniques.h:245-267 | a stored key is written iff its count is nonzero or its record is not a primary slot |
| Snapshot.SavedEntries | uniques.h:243-267 | the three properties above together |
| Snapshot.SavedClean | uniques.h:243-267 | a clean table writes no empty record: every record written has a nonzero hash |
| Snapshot.SavedDescribes | uniques.h:236-285 | the file describes the content: entries match, keys are distinct, and every stored key with a nonzero count is in the file |
| Uniques.LeavesCount | uniques.h:203-234 | `perft_unique` reaches one leaf per move path of length `depth` |
| Uniques.ChildLeavesCount | uniques.h:221-231 | the same for the children taken so far |
| Uniques.PerftWeight | uniques.h:203-234 | when no leaf has the zero key, the total count grows by `partialCount` times the number of move paths, modulo 2^64 |
| Uniques.InsertAllWeight | uniques.h:203-234 | inserting leaves with nonzero keys adds `partialCount` per leaf, modulo 2^64 |
| Uniques.PerftFromEmpty | uniques.h:203-234 | from an empty table, the result is the number of distinct nonzero leaf keys, modulo 2^64 |
| Uniques.ChildLeavesHas | uniques.h:221-231 | every leaf below child `i` is among the leaves below the first `n > i` children |
| Uniques.ChildStep | uniques.h:223-231 | expanding child `i` after children `0..i-1` is expanding children `0..i` |
| Uniques.CountStep | uniques.h:230 | adding a child's count of created records to the running sum gives the count of records created so far, modulo 2^64 |
| Uniques.LeafInsert | uniques.h:213-217 | inserting one leaf is inserting its Zobrist key |
| Uniques.PerftLeaf | uniques.h:208-219 | at depth 0 the leaf is inserted by its key and weight; the result is the number of records created: 0 iff the key is (0,0) or already stored; a nonzero key keeps a clean table clean; out of memory only with the arena's last slot reached |
| Uniques.PerftUnique | uniques.h:203-234 | the table ends up as if every leaf had been inserted in order with `partialCount`, and the result is the number of records created, modulo 2^64; a clean table stays clean when no leaf has the zero key; out of memory happens only with the arena's last slot reached, and loses no key |
| Uniques.PerftChildren | uniques.h:221-233 | the loop over moves: all children's leaves are inserted in move order, and the sum counts the records created; a clean table stays clean when no leaf has the zero key; out of memory only with the arena's last slot reached |
| Uniques.ExpandChild | uniques.h:223-231 | one iteration of that loop keeps its loop invariants |
| Uniques.PassCount | uniques.h:330 | the weight of a record is its count cut to 32 bits, which is the count itself whenever it fits |
| Uniques.ExpandGrows | uniques.h:328-331 | a pass never removes a key |
| Uniques.ExpandStep | uniques.h:328-331 | expanding one more record inserts that record's children with its weight |
| Uniques.ExpandRecords | uniques.h:328-331 | the records read are expanded one ply each, in file order, with their truncated counts; a clean table stays clean when no child has the zero key; out of memory only with the arena's last slot reached |
| Uniques.ExpandRecord | uniques.h:330 | one iteration of that loop |
| Uniques.ChainedStart | uniques.h:310 | the first file alone forms a chain of files |
| Uniques.ChainedExtend | uniques.h:333-337 | saving the expansion of the last file extends the chain by one depth |
| Uniques.Pass | uniques.h:319-346 | reads at most `tempAllocSize` records; if fewer were read, the saved file describes the expansion of the whole previous file, holds no empty record when the table was clean and no child has the zero key, and the table is empty and clean again; otherwise the loop stops with the table holding the expansion of the first `tempAllocSize` records; out of memory only with the arena's last slot reached |
| Uniques.FirstFile | uniques.h:302-310 | `perft_unique` from the start with weight 1, then the save: the count is the number of unique positions modulo 2^64, and the file describes them, and holds no empty record when the table was clean and no leaf has the zero key; out of memory only with the arena's last slot reached |
| Uniques.Advance | uniques.h:317-346 | one pass either grows the chain of files by the next depth, or stops with the reason; out of memory only with the arena's last slot reached |
| Uniques.DepthLoop | uniques.h:316-347 | the depth loop keeps the chain of files and stops on a file too big, on out of memory (only with the arena's last slot reached) or after the given number of passes |
| Uniques.FindUniques | uniques.h:293-352 | the count of unique positions at `depth`; the file of `depth` describes them, with no empty record when the table was clean and no leaf has the zero key; each later file describes the one-ply expansion of the whole file before it, which had fewer than `tempAllocSize` records, with no empty record when no child has the zero key; on a file too big, the table holds the expansion of that file's first `tempAllocSize` records; out of memory only with the arena's last slot reached |

## Left out
- `perft.cpp`, the console front end, is not part of this model. Neither is anything outside `uniques.h`'s core.
- The move generator (`generateMoves`, `makeMove`) is not part of this model; it is a parameter. Moves come as a sequence, so `MAX_MOVES` is not modelled.
- `readFENString`, `board088ToHexBB` and `dispBoard` are not modelled: `findUniques` takes the start position as a parameter.
- The contents of the key tables `zob` and `zob2` are parameters.
- File names and `sprintf`, and `fopen`, `fread`, `fwrite` and `fclose`, are left out. A file is the sequence of records written, and a read is a prefix of at most `tempAllocSize` records.
- The 80-byte record layout is not modelled.
- `printf`, `getch`, `getchar`, `clock()` and the elapsed-time `double` are left out. They are output, input and timing.
- `exit(0)` becomes a result value that every caller passes up. The model goes on to state what holds at that point.
- `malloc` of the primary table is eager: the constructor and each save leave it zeroed. The source allocates it lazily on the first insertion, and `saveUniquesToFile` frees it and sets `hashTable = NULL` (`uniques.h:272-273`).
- UniqueTable.Table.SaveUniquesToFile and Uniques.Pass: a save with no insertion since the start or since the last save reads `hashTable[i]` through a null pointer in the source (`uniques.h:247`), since only `findPositionAndUpdateCounter` allocates the table again (`uniques.h:167-171`). This happens for a file of 0 records, for a file whose positions have no moves, and for a first `perft_unique` at depth 1 or more from a position with no moves. The model has no null table: it writes an empty file there and goes on.
- `tempAlloc` is not modelled as a buffer; the records read are a sequence.
- Uniques.FindUniques: the `while (1)` depth loop is bounded by a `passes` parameter, because it has no other stopping condition and the model must terminate. Running out of passes (`PassesDone`) has no counterpart in the source.
- The "File too big" split and sort are not in the source. Only the `break` is modelled.
- `recordsWritten`, `read`, `curDepth` and `depth` are unbounded integers: with the source's sizes they stay far below 2^31.
- UniqueTable.Table.FindPositionAndUpdateCounter: for the key (0,0) the contract states only that the content is unchanged. It does not state which empty record's count grows.
- UniqueStore.Weight is the total count over stored keys. The count added by a leaf with the zero key is not in it, so Uniques.PerftWeight requires that no leaf has the zero key.
- Uniques.PerftUnique: on out of memory the contract states only that no stored key was lost and that the bump pointer is at the arena's last slot. The source exits at that point.
- Uniques.PerftUnique, Uniques.FindUniques and the members between them state out of memory one way: it is reported only with the bump pointer at the arena's last slot. The converse, that it is reported whenever a walk then runs off its chain, is stated at the level of UniqueTable.Table.AllocNewRecord only.
- TableState.Inv does not exclude an empty record (hash (0,0)) whose count is nonzero. Inserting the key (0,0) leaves one such record, and the invariant is stated so that it still holds afterwards.
- A bitboard or 64-bit word is modelled as a set of bit positions. This is exact for `&`, `|`, `^` and the single-bit tests the hash makes, but not for the arithmetic of `getOne`, which is modelled by its result, the lowest square.
