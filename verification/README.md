# Verified models of the OpenSPARC T2 firmware and trace tools

This project states and proves what the codecs and state machines under `subos/` promise. It covers

- the adaptive LZW compressor and decompressor of the boot PROM tools (`obp/tools/comp.c`, `obp/tools/decomp.c`);
- the rstzip version 2 instruction-trace codec: predictive caches, chunks, address offsets, per-CPU split and merge
  (`rst/rstzip3/rstzip_v2`);
- the packed element array of rstzip version 3 (`rst/rstzip3/rstzip_v3/rz3_bitarray.h`);
- the cross-reference graph of `libxref`: the events that build it, its file format, its recursive loader;
- the `#ifdef` machine of `didepend` with the symbol list of `libdef`;
- the drop-in checksum and the table-driven CRC-32.

`dafny verify dfyconfig.toml` (Dafny 4.11) checks the whole project.

## Layout

| files | contents |
|---|---|
| `Basics`, `Bits`, `LzwFormat` | machine integers; bit strings; the abstract LZW encoder and decoder |
| `LzwLockstep`, `LzwTheorems` | the invariant that ties the two, the round trip, the stack bound |
| `LzwHash` | the open-addressing table: 18013 is prime, probes, soundness, the entry that can be lost |
| `LzwCompress`, `LzwDecompress` | the C programs as classes over arrays, proved against the abstract codec |
| `RstTypes`, `Lru`, `RstCaches`, `EaCode`, `RstCodec` | records, LRU ranks, caches, offset code, the token codec |
| `RstRoundTrip` | every part of a chunk reads back, and which records survive rebuilding |
| `RstAlike` | records that are right under one address mask or the other, and their expected form |
| `RstWords` | opcode fields, branch targets, and what comes back of every record, field by field |
| `RstShortest`, `RstRepeats`, `RstSums` | the codes are as short as can be; what the caches save; what the checksum catches |
| `RstExact`, `RstTheorems` | exactly when chunks, buffers and traces come back; the same from the records alone; a clash |
| `RstParts` | one CPU's part, read into slots that hold an earlier buffer |
| `RstInvariants` | the cache invariants and the victim's history over every run |
| `RstCacheClasses`, `RstChunking`, `RstCut`, `RstCpu` | caches in place, chunk formation and its one result, CPU split and merge |
| `RstFleet`, `RstFleetTheorems` | whole files of several CPUs; the same from the records alone |
| `BitArray` | the packed array as a class |
| `XrefFile`, `XrefStore`, `XrefSave`, `XrefLoad`, `XrefReload` | bytes of the data file, events, saving, loading, both together |
| `Defines`, `Conditionals` | the symbol list and the flag-stack machine |
| `Checksum`, `Crc32` | Internet checksum, CRC-32 |

Code that works in place is a class whose methods are proved against functions on values; the properties are
lemmas about those functions. The trace codec itself (`RstCodec`) is modelled on values: a compressed stream is
a sequence of typed units (bytes, halfwords, words, doublewords, raw records, chunk headers).

## What the proofs found

- LZW restores every nonempty input up to 32012000 bytes, far above the 4292608 bytes (`MAX_DI`) that `makedi`
  accepts. Beyond that bound the 8000-byte `de_stack` can overrun; 32012001 equal nonzero bytes do overrun it. In
  general the round trip holds if and only if the input is nonempty and no phrase is longer than the stack.
- LZW of the empty input puts out the code -1 and never decodes to the empty string.
- `comp` returns `alloutbytes`, which is never reset: after the first call the returned length counts all calls.
- The probe loop tests `htab[i] > 0`, so the entry with key 0 can be displaced: after the bytes 64, 1, 0, 0, 46, 140,
  110, 141, 0 it is in the dictionary and its probe misses (`LzwHash.KeyZeroIsLost`). Hits stay sound; only the
  completeness of the table is lost, and only for key 0.
- rstzip 2 restores a chunk if and only if it does not start at pc 0, none of its records holds the sentinel 255 as a
  register number, and it does not have a checksum word whose first byte is `z_CCR_T` right after a single-register
  record. The condition carries over, as an equivalence, to buffers and to traces. Each of the three losses has its
  input; for the checksum clash, at the frequency of 16 in use, it is `RstTheorems.ClashAtSixteen`.
- A buffer can be cut into chunks in one way only, the one in which every call of `read_chunk` goes on as long as the next
  record can join (`RstCut.CutUnique`).
- A chunk that comes again is recognised, and then has no instruction words and one zero byte for each unchanged address,
  unless it was entered behind an earlier way of its set that is for the same pc and long enough. Then the search stops at
  that way: code that has changed in place is not recognised as long as the way lasts (`RstRepeats.ChangedInPlace`).
- The offset code, the value code and the count code are the shortest that their decoders take. A checksum word catches any
  one changed word, flags byte, address, record type, run length, pc or kind in the chunks of its period.
- In every state that a run of the encoder reaches, the entry that `replace` gives up is one that was never used or the
  one used least recently in that very run.
- A buffer of several CPUs comes back in its order if and only if it is not empty, has fewer than 65536 runs of one CPU
  and every CPU's part is kept. The number of runs goes through 16 bits: 65536 records by turns on two CPUs are lost
  altogether. An empty buffer ends decompression, and every buffer after it is lost (`RstFleet.EmptyHidesRest`).
- A part is kept when its chunks survive; or when only chunks at pc 0 follow the survivors and the CPU's slots, which are
  not cleared between buffers, happen to hold their very records (`RstParts.LostButBack`). A PSTATE.AM that is lost in such
  a chunk is lost all the same, and decides whether later addresses are worked out right.
- A cross-reference file reloads to the same graph if and only if all names are under 256 bytes and, for every symbol, the
  allocation for the symbols that refer to it is large enough. Its size goes through an `int`: with 64-bit pointers it is
  right up to 29826151 of them and wrong for one more. Offsets are signed: the result is for files under 2^31 bytes.
- Lookups need not agree after a reload: before, a name finds its match of lowest id, afterwards the match that the walk
  of the file loaded last. They agree if and only if every other match is loaded before the one of lowest id. Without
  links that reverses redefinitions; with links it can go either way.
- `didepend` accepts a sixth nested `#ifdef` but then refuses its `#else` or `#endif`; a well-nested file runs to
  its end only when it is at most five deep.
- Sealing with the Internet checksum can fail once more than 65537 halfwords are summed, exactly when the 32-bit
  sum of the rest is all ones.

Fields that rstzip 2 does not keep: an instruction's unused bit, its hypervisor bit, and the address it was recorded with
when that can be derived (the address that comes back has to be the one that PSTATE.AM in the trace gives); the address
difference of a pavadiff record without a valid address; the `postInstr` bit and the unused half of a compressed register
record, and its 13 unused bits, which the decompressor leaves as the record before had them.

## Model

| member | source | states |
|---|---|---|
| `LzwHash.NoDivisor` | subos/obp/tools/comp.c:51 | no number between 2 and 18012 divides the table size |
| `LzwHash.SlotsDistinct` | subos/obp/tools/comp.c:206-219 | the first 18013 probes of any prefix and character visit pairwise distinct slots |
| `LzwHash.BlockedCount` | subos/obp/tools/comp.c:206-226 | a probe chain of blocked slots is no longer than the number of occupied slots, so probing ends |
| `LzwHash.HitSound` | subos/obp/tools/comp.c:209-224 | a probe that hits returns a code whose dictionary entry is exactly the current prefix and character |
| `LzwHash.MissGenuine` | subos/obp/tools/comp.c:212-226 | a probe that misses means that no entry of that key is in the dictionary, except possibly for key 0 |
| `LzwHash.InsertKeeps` | subos/obp/tools/comp.c:242-245 | entering a pair where the probe ended keeps soundness, completeness up to key 0 and the occupancy bound |
| `LzwHash.EmptyTable` | subos/obp/tools/comp.c:356-380 | the cleared table satisfies the table invariant with an empty dictionary |
| `LzwHash.KeyZeroIsLost` | subos/obp/tools/comp.c:212-226 | a run of the encoder after which the entry of key 0 is in the dictionary and its probe misses |
| `LzwLockstep.StepWf` | subos/obp/tools/comp.c:228-247 | each step of the encoder keeps its dictionary well formed, and its width the least, from 9 bits up, that holds the newest code |
| `LzwLockstep.Receive` | subos/obp/tools/decomp.c:195-246 | decoding the pending code, KwKwK included, yields its string and brings the decoder level with the encoder |
| `LzwLockstep.UnknownCode` | subos/obp/tools/decomp.c:195-206 | in any file, a code that the table does not hold gives the last string with its first byte added |
| `LzwLockstep.SyncAfterMiss` | subos/obp/tools/comp.c:228-245 | after a data code the decoder's width equals the encoder's and its dictionary is the encoder's less the newest entry |
| `LzwLockstep.SyncAfterClear` | subos/obp/tools/decomp.c:187-194 | after CLEAR both sides restart together, the decoder through its dummy entry 257 |
| `LzwLockstep.Lockstep` | subos/obp/tools/decomp.c:185-247 | over every run of the encoder the decoder reads each code at the width it was written, stays in lockstep and emits the phrases, or overruns its stack at a phrase that does not fit |
| `LzwTheorems.StopsAtEnd` | subos/obp/tools/decomp.c:185-247 | END is recognised although the decoder may widen where the encoder did not: the extra bit is padding or end of input |
| `LzwTheorems.RoundTrip` | subos/obp/tools/comp.c:180-257 | decoding any compressed form gives the input if every phrase fits the stack, and a stack overrun otherwise |
| `LzwTheorems.WidthIsLeast` | subos/obp/tools/comp.c:230-241 | after every run of the encoder the width is the least that holds the newest code: codes are widened neither early nor late |
| `LzwTheorems.OnlyOwnFiles` | subos/obp/tools/decomp.c:150-167 | whatever is decoded begins with 0x1f, 0x9e and 14, and the two other beginnings are told apart |
| `LzwTheorems.NeverDecodesToNothing` | subos/obp/tools/decomp.c:177-183 | no input decodes to the empty string |
| `LzwTheorems.PhraseCost` | subos/obp/tools/comp.c:204-248 | emitting a phrase of length L takes at least L(L+1)/2 bytes of input |
| `LzwTheorems.StackSuffices` | subos/obp/tools/decomp.c:90 | an input of at most 32012000 bytes has no phrase longer than the 8000-byte stack; `makedi` admits 4292608 |
| `LzwTheorems.StackBoundTight` | subos/obp/tools/decomp.c:200-219 | 32012001 equal nonzero bytes overrun the stack on every run of the encoder |
| `LzwCompress.PutCodePacks` | subos/obp/tools/comp.c:285-302 | the shift-and-emit arithmetic appends exactly the code's bits, lowest first |
| `LzwCompress.EndOutPads` | subos/obp/tools/comp.c:304-326 | flushing and rounding add zero bits only |
| `LzwCompress.Compressor.Probe` | subos/obp/tools/comp.c:206-226 | the probe loop ends, in a sound hit or at a slot where the pair may be entered |
| `LzwCompress.Compressor.PutCode` | subos/obp/tools/comp.c:285-302 | the loop puts out the low bytes of the shifted code, keeps the rest pending and counts the bytes |
| `LzwCompress.Compressor.EndOut` | subos/obp/tools/comp.c:304-326 | the last partial byte, then as many zero bytes as the count leaves modulo 4 |
| `LzwCompress.Compressor.ClBlock` | subos/obp/tools/comp.c:328-354 | CLEAR goes out at the current width and table, width and next entry restart if and only if the ratio does not exceed the best one since the last clear; otherwise only checkpoint and ratio change |
| `LzwCompress.RatioBounds` | subos/obp/tools/comp.c:334-343 | the ratio is the quotient rounded down, in 256ths up to 2^23 input bytes, and as large as can be without a scaled output byte |
| `LzwCompress.Compressor.WidenCodes` | subos/obp/tools/comp.c:230-241 | the width grows by one exactly when the next entry exceeds the largest code, and stays the least width that holds it |
| `LzwCompress.Compressor.NextByte` | subos/obp/tools/comp.c:204-248 | one turn of the loop is one step of the abstract encoder, with its bits appended to the output; the table is cleared exactly when it is full, the checkpoint is reached and the ratio has not improved |
| `LzwCompress.Compressor.Compress` | subos/obp/tools/comp.c:180-257 | the output is a compressed form of the input by a run of the encoder that clears its table at the due bytes and at no others; empty input gives fixed bytes |
| `LzwCompress.Compressor.Comp` | subos/obp/tools/comp.c:142-157 | the output decodes to the input if and only if the input is nonempty and every phrase fits; the returned length adds up over calls |
| `LzwDecompress.Decompressor.GetCode` | subos/obp/tools/decomp.c:261-282 | the next bits of the stream as a number, or -1 exactly when fewer are left; the rest stays unread |
| `LzwDecompress.Decompressor.PushString` | subos/obp/tools/decomp.c:205-212 | the string of a code lands on the stack reversed, or the stack is too small |
| `LzwDecompress.Decompressor.PopString` | subos/obp/tools/decomp.c:214-219 | the stack comes out in forward order and is empty afterwards |
| `LzwDecompress.Decompressor.Decompress` | subos/obp/tools/decomp.c:131-248 | for every input, header errors included, the program computes the abstract decoder's outcome |
| `Lru.VictimIsLru` | subos/rst/rstzip3/rstzip_v2/hash.H:312-325 | replace finds a victim: an unfilled entry if there is one, otherwise the least recently used |
| `Lru.TouchKeeps` | subos/rst/rstzip3/rstzip_v2/hash.H:157-178 | an update keeps the filled entries on the top distinct ranks in order of use |
| `Lru.EvictKeeps` | subos/rst/rstzip3/rstzip_v2/hash.H:137-155 | a write over the victim keeps the same invariant |
| `Lru.EmptyRanks` | subos/rst/rstzip3/rstzip_v2/hash.H:88-90 | the initial ranks satisfy the invariant |
| `Lru.RunRanks` | subos/rst/rstzip3/rstzip_v2/hash.H:137-178 | after any run of writes and updates from the empty state, the ranks are in the order in which that run used the entries |
| `Lru.LastUse` | subos/rst/rstzip3/rstzip_v2/hash.H:137-178 | the time of use that goes with an entry is its last one in the run |
| `Lru.VictimIsLeastRecent` | subos/rst/rstzip3/rstzip_v2/hash.H:312-325 | after any run, replace finds a victim that the run never used, or since whose last use every other entry has been used |
| `RstCaches.SearchAgreement` | subos/rst/rstzip3/rstzip_v2/hash.H:108-131 | when the search that compares instructions finds a way, the search without them finds the same way, and its first words are the chunk's |
| `RstCaches.SetWriteKeeps` | subos/rst/rstzip3/rstzip_v2/hash.H:137-155 | writing a chunk makes the set's ranks those of its run with this write added, and keeps its entries well formed and their allocations large enough |
| `RstCaches.SetUpdateKeeps` | subos/rst/rstzip3/rstzip_v2/hash.H:157-178 | updating a way does so with this use added |
| `RstCaches.WriteThenSearch` | subos/rst/rstzip3/rstzip_v2/hash.H:108-155 | a chunk that has been written, or the beginning of it, is found in the victim's way, unless an earlier way for its pc is long enough: its words decide then; the way holds the chunk's pc, words and addresses, and no other way has changed |
| `RstCaches.UpdateThenSearch` | subos/rst/rstzip3/rstzip_v2/hash.H:157-178 | an update puts the new addresses into its way and changes nothing that any search goes by |
| `RstCaches.CopyRoomy` | subos/rst/rstzip3/rstzip_v2/hash.H:353-376 | a write never copies past the allocation: it gets a larger one exactly when the addresses begin more blocks of 64 than before, and otherwise what is behind them stays |
| `RstCaches.HashSpreads` | subos/rst/rstzip3/rstzip_v2/hash.H:180-182 | two pcs fall into one set exactly when their distance in instructions is a multiple of 3391, as long as the product does not overflow |
| `RstCaches.PavaWriteKeeps` | subos/rst/rstzip3/rstzip_v2/hash.H:419-427 | writing a pavadiff record makes the cache's ranks those of its run with this write added |
| `RstCaches.PavaTouchKeeps` | subos/rst/rstzip3/rstzip_v2/hash.H:429-451 | so does a hit, with this use added |
| `RstCaches.PavaFound` | subos/rst/rstzip3/rstzip_v2/hash.H:399-413 | the search finds an entry exactly when one matches |
| `RstCaches.PavaWriteThenSearch` | subos/rst/rstzip3/rstzip_v2/hash.H:399-427 | a record that was not found is found, as it is, once it has been written, and no other entry has changed |
| `RstCaches.InsertThenHit` | subos/rst/rstzip3/rstzip_v2/VCache.h:77-128 | an inserted value hits and is read back, and displaces another only when they differ by a multiple of 65535 |
| `RstInvariants.InitialOk` | subos/rst/rstzip3/rstzip_v2/hash.H:88-90 | the caches start in a valid state |
| `RstInvariants.RunKeeps` | subos/rst/rstzip3/rstzip_v2/rstzip.H:1428-1458 | every buffer, whatever its records, keeps all caches valid for the history of their own uses, so replace never reaches its error exit |
| `RstInvariants.VictimsAreLeastRecent` | subos/rst/rstzip3/rstzip_v2/hash.H:312-325 | in every state that the encoder reaches, the victim of every hash set and of the pavadiff cache is the entry really used least recently, or one never used |
| `RstCacheClasses.RstzipHash.Search` | subos/rst/rstzip3/rstzip_v2/hash.H:108-131 | the loop over the ways computes the first match on pc and length |
| `RstCacheClasses.RstzipHash.SearchWords` | subos/rst/rstzip3/rstzip_v2/hash.H:108-131 | with instructions given, the first way whose words agree as well |
| `RstCacheClasses.RstzipHash.Replace` | subos/rst/rstzip3/rstzip_v2/hash.H:312-325 | the victim's rank becomes the top one, or nothing changes when there is no victim; other sets are untouched |
| `RstCacheClasses.RstzipHash.Write` | subos/rst/rstzip3/rstzip_v2/hash.H:137-155 | the set in place becomes the written set, all others stay |
| `RstCacheClasses.RstzipHash.Update` | subos/rst/rstzip3/rstzip_v2/hash.H:157-178 | the set in place becomes the updated set, all others stay |
| `RstCacheClasses.PavadiffCache.Search` | subos/rst/rstzip3/rstzip_v2/hash.H:399-413 | the first entry that matches, with the address difference ignored when the address is not valid |
| `RstCacheClasses.PavadiffCache.Write` | subos/rst/rstzip3/rstzip_v2/hash.H:419-427 | the record replaces the victim and becomes the most recent |
| `RstCacheClasses.PavadiffCache.Update` | subos/rst/rstzip3/rstzip_v2/hash.H:429-451 | the entry becomes the most recent, entries above it drop by one rank |
| `RstCacheClasses.VCache.Hit` | subos/rst/rstzip3/rstzip_v2/VCache.h:77-83 | a hit exactly when the value's slot is valid and holds it |
| `RstCacheClasses.VCache.Insert` | subos/rst/rstzip3/rstzip_v2/VCache.h:96-108 | the value's slot now holds it, and an eviction is counted when the slot was valid |
| `RstCacheClasses.VCache.Get` | subos/rst/rstzip3/rstzip_v2/VCache.h:116-128 | the value last inserted in a slot |
| `EaCode.OffsetRoundTrip` | subos/rst/rstzip3/rstzip_v2/rstzip.H:1043-1127 | every 64-bit offset, the four reserved bytes included, decodes to itself and leaves the following stream |
| `EaCode.EasRoundTrip` | subos/rst/rstzip3/rstzip_v2/rstzip.H:1801-1887 | every list of addresses coded against any table addresses is restored modulo 2^64 |
| `RstShortest.ShortestOffset` | subos/rst/rstzip3/rstzip_v2/rstzip.H:1801-1887 | no stream that decodes to an offset is shorter than its code |
| `RstShortest.ShortestValue` | subos/rst/rstzip3/rstzip_v2/rstzip.H:1960-2065 | no stream that decodes to a register value, with the encoder's value cache, is shorter than its code |
| `RstShortest.RunStaysWide` | subos/rst/rstzip3/rstzip_v2/rstzip.H:1960-2065 | in every state that the encoder reaches the value cache holds only values of more than two bytes, each in its own slot, which is what `ShortestValue` asks |
| `RstShortest.ValueAgain` | subos/rst/rstzip3/rstzip_v2/rstzip.H:1960-2065 | a value that has been coded takes at most three bytes the next time |
| `RstShortest.RegistersShrink` | subos/rst/rstzip3/rstzip_v2/rstzip.H:1915-1958 | a record of an integer register and nothing, condition codes or an integer register always takes fewer than its 24 bytes |
| `RstShortest.ShortestCount` | subos/rst/rstzip3/rstzip_v2/rstzipif.H:601-672 | no bytes that decode to one run are fewer than its code |
| `RstRepeats.PavadiffAgain` | subos/rst/rstzip3/rstzip_v2/rstzip.H:1898-1914 | in every reachable state a pavadiff record that has just been coded, or one that differs only in a field that does not count, takes one byte |
| `RstRepeats.ChunkAgain` | subos/rst/rstzip3/rstzip_v2/rstzip.H:1537-1562 | a chunk with the pc and words of the one just coded is stored as a repeated one, without words and with a zero byte for each unchanged address, if and only if that one was, or was not behind an earlier way for its pc that is long enough |
| `RstRepeats.ChangedInPlace` | subos/rst/rstzip3/rstzip_v2/hash.H:108-131 | a chunk entered over another at the same pc is not recognised when it comes again |
| `RstSums.DetectsAddress` | subos/rst/rstzip3/rstzip_v2/rstzip.H:269-292 | the sum changes with any one address |
| `RstSums.DetectsWord` | subos/rst/rstzip3/rstzip_v2/rstzip.H:269-292 | and with any one instruction word |
| `RstSums.DetectsFlags` | subos/rst/rstzip3/rstzip_v2/rstzip.H:269-292 | any one byte of flags |
| `RstSums.DetectsType` | subos/rst/rstzip3/rstzip_v2/rstzip.H:269-292 | the type of any one other record |
| `RstSums.DetectsCount` | subos/rst/rstzip3/rstzip_v2/rstzip.H:269-292 | any one run length |
| `RstSums.DetectsHead` | subos/rst/rstzip3/rstzip_v2/rstzip.H:269-292 | and with the kind of the chunk, its pc, or the sum before it |
| `RstSums.Caught` | subos/rst/rstzip3/rstzip_v2/rstzip.H:818-835 | when a checksum is due the decompressor goes on exactly when the word is its own sum |
| `RstSums.CarriedToTheEnd` | subos/rst/rstzip3/rstzip_v2/rstzip.H:1553-1562 | a difference in the sum from any chunk of a period is still there when the period's checksum word is written |
| `RstSums.StartsOver` | subos/rst/rstzip3/rstzip_v2/rstzip.H:1553-1562 | in every reachable state a period begins with a sum of 0 |
| `RstWords.CarriedByOpcode` | subos/rst/rstzip3/rz_insttypes.h:90-160 | an address is stored exactly for an instruction that has one and is not CALL or a branch by its opcode fields; so for every load, store and register jump |
| `RstWords.DerivedAddress` | subos/rst/rstzip3/rstzip_v2/rstzip.H:894-922 | a taken transfer goes to its displacement from the pc, under the address mask, one not taken past its delay slot, and an annulled one nowhere |
| `RstWords.CallTarget` | subos/rst/rstzip3/rz_insttypes.h:150-160 | CALL goes 4 times its signed 30-bit field away |
| `RstWords.BranchTarget` | subos/rst/rstzip3/rz_insttypes.h:119-148 | Bicc and FBfcc 4 times their signed 22 bits, whatever the condition |
| `RstWords.PredictedTarget` | subos/rst/rstzip3/rz_insttypes.h:92-100 | BPcc and FBPfcc 4 times their signed 19 bits |
| `RstWords.RegisterTarget` | subos/rst/rstzip3/rz_insttypes.h:102-117 | BPr 4 times its signed 16 bits, which are in two pieces |
| `RstWords.InstructionBack` | subos/rst/rstzip3/rstzip_v2/rstzip.H:863-922 | an instruction comes back as it was but for two bits and its address, which is its own unless it is a pc-relative transfer |
| `RstWords.RegisterBack` | subos/rst/rstzip3/rstzip_v2/rstzip.H:1340-1355 | a register record comes back with all its registers and values; only records of the three kinds that are coded lose `postInstr` and their unused half |
| `RstWords.OtherBack` | subos/rst/rstzip3/rstzip_v2/hash.H:399-413 | every other record comes back as it was, but for the address difference of a pavadiff record without an address |
| `RstWords.AddressesBack` | subos/rst/rstzip3/rstzip_v2/rstzip.H:894-922 | in every trace that has come back each load, store and register jump has its own address |
| `RstWords.MaskInForce` | subos/rst/rstzip3/rstzip_v2/rstzip.H:938-944 | the address mask at a place is that of the last register record before it that sets it, bit 3 of PSTATE |
| `RstWords.DestinationField` | subos/rst/rstzip3/rstzip_v2/rstzip.H:928 | the register given to a record without a number is the destination field of its instruction |
| `RstRoundTrip.RegRoundTrip` | subos/rst/rstzip3/rstzip_v2/rstzip.H:1960-2065 | a register number and value come back through the value cache, which ends equal on both sides |
| `RstRoundTrip.RecRoundTrip` | subos/rst/rstzip3/rstzip_v2/rstzip.H:1898-1958 | every record that is not an instruction decodes to itself up to the don't-care fields, with equal caches |
| `RstRoundTrip.CcrClash` | subos/rst/rstzip3/rstzip_v2/rstzip.H:1340-1355 | after a single-register record, a following unit that begins with `z_CCR_T` is always misread |
| `RstRoundTrip.FixedRecEq` | subos/rst/rstzip3/rstzip_v2/rstzip.H:949-963 | replacing the sentinel restores a record in a chunk if and only if the record holds no register number 255 of its own |
| `RstRoundTrip.RecsRoundTrip` | subos/rst/rstzip3/rstzip_v2/rstzip.H:2067-2078 | a run of such records reads back in order |
| `RstRoundTrip.HeadRoundTrip` | subos/rst/rstzip3/rstzip_v2/rstzip.H:1763-1799 | the head of a chunk, new or repeated, reads back with its words, flags, addresses and run counts |
| `RstRoundTrip.RebuildRestores` | subos/rst/rstzip3/rstzip_v2/rstzip.H:854-973 | interleaving instructions and other records restores the chunk, with derived addresses and the address mask, if and only if no record holds the sentinel |
| `RstExact.ChunkExact` | subos/rst/rstzip3/rstzip_v2/rstzip.H:720-852 | a chunk decodes to its records up to the don't-care fields if and only if its pc is not 0, no record holds the sentinel and its checksum word does not clash; then caches and checksum end equal on both sides |
| `RstExact.ZeroPcIsLost` | subos/rst/rstzip3/rstzip_v2/rstzip.H:1537-1562 | a chunk at pc 0 writes nothing and changes nothing, although it has records |
| `RstExact.BufferExact` | subos/rst/rstzip3/rstzip_v2/rstzip.H:1428-1458 | a whole buffer up to its footer is restored if and only if all its chunks and records survive; whatever is read, the decoder's state equals the encoder's |
| `RstExact.TraceExact` | subos/rst/rstzip3/rstzip_v2/rstzip.H:653-706 | so is every sequence of buffers fed to one compressor, with the same equivalence |
| `RstTheorems.FromStart` | subos/rst/rstzip3/rstzip_v2/rstzip.H:1523-1563 | from the initial caches and whatever cutting the encoder makes: buffers with at most 128 addresses in any chunk come back if and only if they survive, and always when no record is one of the lossy kinds |
| `RstTheorems.CompressTrace` | subos/rst/rstzip3/rstzip_v2/rstzip.H:1428-1458 | the encoder run over record buffers, with its own cutting, every chunk as long as it can be, writes such a stream |
| `RstTheorems.ClashExists` | subos/rst/rstzip3/rstzip_v2/rstzip.H:1340-1355 | two instructions and a single-register record, big-endian, in any state in which a checksum is due and the sum is small: they are not restored |
| `RstTheorems.ClashAtSixteen` | subos/rst/rstzip3/rstzip_v2/rstzip.H:226-232 | with a checksum after every sixteenth chunk, fifteen chunks of one instruction and then those two are not restored, although no chunk starts at pc 0 and no record holds a sentinel |
| `RstChunking.ChunkReader.InSameChunk` | subos/rst/rstzip3/rstzip_v2/rstzip.H:1726-1760 | an instruction joins when its pc is the next one; another record joins when the run it begins is short enough and leads to such an instruction |
| `RstChunking.ChunkReader.ReadChunk` | subos/rst/rstzip3/rstzip_v2/rstzip.H:1604-1724 | a chunk begins and ends with an instruction, holds fewer than 1000 records with pcs 4 apart and runs of at most 255; it ends only where the buffer does or the next record cannot join; and at least one record is consumed |
| `RstChunking.ChunkReader.Cut` | subos/rst/rstzip3/rstzip_v2/rstzip.H:1428-1458 | cutting a buffer ends, its pieces put together are the buffer, and every one is as long as it can be |
| `RstCut.CutUnique` | subos/rst/rstzip3/rstzip_v2/rstzip.H:1604-1760 | there is only one list of pieces of a buffer in which every call of `read_chunk` goes on as long as the next record can join |
| `RstCpu.SplitThenMerge` | subos/rst/rstzip3/rstzip_v2/rstzipif.H:555-599 | replaying the CPU numbers of a trace over its per-CPU parts gives the trace |
| `RstCpu.MergeThenSplit` | subos/rst/rstzip3/rstzip_v2/rstzipif.H:426-464 | splitting a replay gives back the used part of each list |
| `RstCpu.ExpandLength` | subos/rst/rstzip3/rstzip_v2/rstzipif.H:426-464 | the run lengths add up to the number of records |
| `RstCpu.ExpandRuns` | subos/rst/rstzip3/rstzip_v2/rstzipif.H:555-599 | the runs of a list of CPU numbers, written out, are the list |
| `RstCpu.TotalIsCount` | subos/rst/rstzip3/rstzip_v2/rstzipif.H:420-422 | the total summed for a CPU over the runs is the number of that CPU's records |
| `RstCpu.Splitter.SortRstTrace` | subos/rst/rstzip3/rstzip_v2/rstzipif.H:555-599 | the lists are the per-CPU parts and the runs are exactly the runs of the CPU numbers, one run of CPU -1 for the empty buffer |
| `RstCpu.FiledUnderZero` | subos/rst/rstzip3/rstzip_v2/rstzipif.H:555-599 | records that name no CPU are sorted under CPU 0, all others under their own |
| `RstCpu.Merge` | subos/rst/rstzip3/rstzip_v2/rstzipif.H:449-464 | the copying loop computes the replay, a record for every place in the runs |
| `RstCpu.ReplayFull` | subos/rst/rstzip3/rstzip_v2/rstzipif.H:449-464 | a replay has a record for every place if and only if each CPU's list is long enough |
| `RstCpu.CountsRoundTrip` | subos/rst/rstzip3/rstzip_v2/rstzipif.H:601-672 | every list of runs with counts of at least one survives the 8, 16 and 32-bit count code, in either byte order |
| `RstCpu.EmptyBufferCount` | subos/rst/rstzip3/rstzip_v2/rstzipif.H:555-599 | the run written for an empty buffer reads back as CPU 255, not -1 |
| `RstAlike.EqIsExpected` | subos/rst/rstzip3/rstzip_v2/rstzip.H:854-973 | a trace has come back exactly when it is, field by field but for the one free field, the trace expected under that PSTATE.AM |
| `RstParts.PartReads` | subos/rst/rstzip3/rstzip_v2/rstzip.H:653-706 | reading up to a number of records stops nowhere but at the footer when the number is at least the part's |
| `RstParts.PartKept` | subos/rst/rstzip3/rstzip_v2/rstzip.H:653-706 | what was read of a part, followed by what the slots held, is the part if and only if the part is kept: survivors, then at most chunks at pc 0 whose very records the slots hold |
| `RstParts.CpuExact` | subos/rst/rstzip3/rstzip_v2/rstzipif.H:437-453 | one CPU's part comes back if and only if it is kept, whatever buffers its slots have held, and then the compressor's side knows the caches, PSTATE.AM and slots of the decompressor |
| `RstParts.FreshIsExact` | subos/rst/rstzip3/rstzip_v2/rstzipif.H:439-442 | in slots that have never been filled, exactly the parts whose chunks all survive are kept |
| `RstParts.SurvivesIsKept` | subos/rst/rstzip3/rstzip_v2/rstzip.H:653-706 | a part whose chunks all survive is kept whatever the slots hold |
| `RstParts.LostButBack` | subos/rst/rstzip3/rstzip_v2/rstzipif.H:456-464 | a chunk at pc 0 that is not written and comes back from the slots |
| `RstFleet.FleetExact` | subos/rst/rstzip3/rstzip_v2/rstzipif.H:435-453 | every CPU's part comes back through that CPU's own codec, one after the other, if and only if all of them are kept; then all decompressors are in step |
| `RstFleet.MultiExact` | subos/rst/rstzip3/rstzip_v2/rstzipif.H:329-464 | through sorting, the count code with its 16-bit number of runs, the totals summed from the decoded runs, the per-CPU decoders, their slots and the merging: a buffer comes back, in its order and on its CPUs, and reading goes on, if and only if it is not empty, has fewer than 65536 runs and every part is kept |
| `RstFleet.EmptyBlock` | subos/rst/rstzip3/rstzip_v2/rstzipif.H:466-468 | an empty buffer gives no records and ends decompression |
| `RstFleet.TurnsAreLost` | subos/rst/rstzip3/rstzip_v2/rstzipif.H:331-351 | a multiple of 65536 records by turns on two CPUs decodes to nothing |
| `RstFleet.EmptyHidesRest` | subos/rst/rstzip3/rstzip_v2/rstzipif.H:466-468 | a buffer after an empty one is lost |
| `RstFleet.MultiTraceExact` | subos/rst/rstzip3/rstzip_v2/rstzipif.H:329-470 | a file of any buffers is read back, up to empty buffers at its end, if and only if every buffer is kept and no empty one comes before one that is not |
| `RstFleetTheorems.FirstBuffer` | subos/rst/rstzip3/rstzip_v2/rstzipif.H:329-464 | for the first buffer of new codecs the condition on the parts is that all their chunks survive |
| `RstFleetTheorems.FleetFromStart` | subos/rst/rstzip3/rstzip_v2/rstzipif.H:329-470 | from new codecs and whatever cutting the encoder makes: buffers with at most 128 addresses in any chunk are read back if and only if they are kept, and always when they are not empty, have fewer than 65536 runs and no record of the lossy kinds |
| `RstFleetTheorems.CompressFleet` | subos/rst/rstzip3/rstzip_v2/rstzipif.H:329-375 | the compressor run over record buffers of several CPUs, with its own sorting and cutting, writes such a file |
| `BitArray.StoredAppends` | subos/rst/rstzip3/rstzip_v3/rz3_bitarray.h:90-116 | the word writes of Push append one element and disturb none before it |
| `BitArray.FetchedIsWindow` | subos/rst/rstzip3/rstzip_v3/rz3_bitarray.h:119-140 | the word reads of Get give the element's own digits, straddling or not |
| `BitArray.PackedArray.Push` | subos/rst/rstzip3/rstzip_v3/rz3_bitarray.h:90-116 | appends the value cut to the width and adds it to the sum modulo 2^64 |
| `BitArray.PackedArray.Get` | subos/rst/rstzip3/rstzip_v3/rz3_bitarray.h:119-140 | the k-th element, or false exactly when there is none |
| `BitArray.PackedArray.GetNext` | subos/rst/rstzip3/rstzip_v3/rz3_bitarray.h:143-150 | the elements in order; the cursor moves in any case |
| `BitArray.PackedArray.Reallocate` | subos/rst/rstzip3/rstzip_v3/rz3_bitarray.h:204-224 | growth keeps every element |
| `BitArray.PackedArray.CopyTo` | subos/rst/rstzip3/rstzip_v3/rz3_bitarray.h:165-176 | the buffer holds the elements, and words after them are untouched |
| `BitArray.PackedArray.CopyFrom` | subos/rst/rstzip3/rstzip_v3/rz3_bitarray.h:178-194 | the contents become the elements in the buffer |
| `BitArray.RunAndRead` | subos/rst/rstzip3/rstzip_v3/rz3_bitarray.h:83-141 | after any run of clears, pushes and growth, reading every key gives what a plain sequence would hold |
| `BitArray.CopyRoundTrip` | subos/rst/rstzip3/rstzip_v3/rz3_bitarray.h:165-194 | copying out of one array and into another of the same width carries every element |
| `XrefFile.SymRoundTrip` | subos/obp/tools/libxref/datafile.c:98-146 | a symbol record with a name under 256 bytes reads back when there is room for its links, and is an error otherwise |
| `XrefFile.RoomForMany` | subos/obp/tools/libxref/datafile.c:125-128 | there is room for up to 29826151 symbols that refer to one, and not for one more |
| `XrefFile.WordDigits` | subos/obp/tools/libxref/datafile.c:56-68 | numbers are written highest byte first, as a SPARC host holds them |
| `XrefFile.NameExact` | subos/obp/tools/libxref/datafile.c:106-111 | a name reads back if and only if it is under 256 bytes |
| `XrefFile.SymExact` | subos/obp/tools/libxref/datafile.c:98-146 | a record reads back if and only if its name is under 256 bytes and there is room for its links; otherwise not even its name does |
| `XrefFile.SeekSym` | subos/obp/tools/libxref/datafile.c:293-334 | the offset in the index of a saved file leads to that symbol's record, which is read as stored under the same condition |
| `XrefFile.IndexReads` | subos/obp/tools/libxref/datafile.c:195-214 | the index reads back and its offsets are nonnegative ints while the file is under 2^31 bytes |
| `XrefStore.RefBuffer.Add` | subos/obp/tools/libxref/xref.c:118-141 | appends a reference, growing the buffer by twenty when it is full |
| `XrefStore.FirstInBucket` | subos/obp/tools/libxref/find.c:56-78 | the first match along a bucket's chain is the most recently added match of all |
| `XrefStore.WhatIsSeen` | subos/obp/tools/libxref/xref_support.c:162-163 | references and definitions see the entries that are neither hidden nor words of strings, hiding and revealing the hidden ones too |
| `XrefStore.CountIsMultiplicity` | subos/obp/tools/libxref/xref_support.c:174-175 | the count used for links is the multiplicity in the list |
| `XrefStore.Xref.FindSymbol` | subos/obp/tools/libxref/find.c:56-78 | the most recently added entry of the name without an ignored flag, or none |
| `XrefStore.Xref.CreateReference` | subos/obp/tools/libxref/xref.c:91-115 | a new entry without links at the head of its bucket, with the converse invariant kept |
| `XrefStore.Xref.Link` | subos/obp/tools/libxref/xref_support.c:174-175 | both ends of a reference are recorded, and each list stays the converse of the other in multiplicity |
| `XrefStore.Xref.AddSymbolReference` | subos/obp/tools/libxref/xref_support.c:154-176 | which symbol a reference resolves to, when it is dropped, when a forward entry is made and with what in it, and that nothing else changes |
| `XrefStore.Xref.AddSymbolDefinition` | subos/obp/tools/libxref/xref_support.c:178-204 | a new current definition if and only if no entry of the name is visible, or the visible one has another line or file; otherwise nothing changes |
| `XrefStore.Xref.ModifySymbolDefinition` | subos/obp/tools/libxref/xref_support.c:206-227 | hides or reveals the newest entry that is not a string word, and nothing else |
| `XrefSave.OrderIsAll` | subos/obp/tools/libxref/datafile.c:271-279 | saving gives every symbol exactly one id |
| `XrefSave.OrderIsSorted` | subos/obp/tools/libxref/datafile.c:271-279 | ids follow the first characters of the names, and run from the newest entry to the oldest within one |
| `XrefSave.NumberSymbols` | subos/obp/tools/libxref/datafile.c:271-279 | the ids are positions in the order of the buckets |
| `XrefSave.Record` | subos/obp/tools/libxref/datafile.c:314-332 | the record holds the symbol's fields and the ids of its links, in order |
| `XrefSave.Save` | subos/obp/tools/libxref/datafile.c:254-339 | the file is the image of records that describe every symbol of the graph |
| `XrefLoad.SeenBound` | subos/obp/tools/libxref/datafile.c:88-92 | no more symbols can be loaded than there are ids, which bounds the recursion |
| `XrefLoad.Loader.LoadSymbol` | subos/obp/tools/libxref/datafile.c:76-176 | the memoised walk ends, in depth-first order; slots are only filled, each new one with its own record and, on return, with all its links; a record without its tag gives null |
| `XrefLoad.Loader.LoadLinks` | subos/obp/tools/libxref/datafile.c:154-162 | the symbols of a list of ids, in order |
| `XrefLoad.Loader.LoadAll` | subos/obp/tools/libxref/datafile.c:244-248 | afterwards every readable symbol is present as stored and fully linked |
| `XrefLoad.LoadFile` | subos/obp/tools/libxref/datafile.c:178-252 | loading a saved file gives its source names and its symbols, linked as stored |
| `XrefReload.ReadsBackExact` | subos/obp/tools/libxref/datafile.c:98-146 | all source names and records of a saved file are read as written if and only if all names are under 256 bytes and there is room for all links |
| `XrefReload.MirroredNameIsShort` | subos/obp/tools/libxref/datafile.c:314-320 | whatever a loader makes of the file, a symbol it restored had a name under 256 bytes and room for its links |
| `XrefReload.SaveAndLoad` | subos/obp/tools/libxref/datafile.c:254-339 | under 2^31 bytes the file reads back as written if and only if all names are under 256 bytes and there is room for all links, and then every symbol of a possibly cyclic graph comes back under its id with name, flags, source, line and both ordered lists of links |
| `XrefReload.LookupIsLowestId` | subos/obp/tools/libxref/find.c:56-78 | before saving, a lookup finds the match of lowest id |
| `XrefReload.FirstInLoadedChain` | subos/obp/tools/libxref/find.c:56-78 | along a chain of the reloaded table, the first match is the match loaded last |
| `XrefReload.LookupAfterReload` | subos/obp/tools/libxref/datafile.c:244-248 | for every graph, whatever its links: after loading a name finds the match loaded last, before saving it found the match of lowest id, and the two agree if and only if every other match is loaded before that one |
| `XrefReload.NothingAfterReload` | subos/obp/tools/libxref/find.c:56-78 | a name that found nothing finds nothing |
| `XrefReload.UniqueNameFound` | subos/obp/tools/libxref/datafile.c:244-248 | so a name with one visible entry still finds it |
| `XrefReload.RedefinitionsAreReversed` | subos/obp/tools/libxref/datafile.c:244-248 | in a file without links the lookup finds the match of highest id, the oldest |
| `XrefReload.RedefinitionKept` | subos/obp/tools/libxref/datafile.c:154-167 | a file with one link, recorded at both ends, in which the newest definition is still found |
| `Defines.SymbolTable.FindSymbol` | subos/obp/tools/libdef/defines.c:60-74 | the position of the first entry of a name, or the end |
| `Defines.SymbolTable.DefineSymbol` | subos/obp/tools/libdef/defines.c:81-121 | binds the part before `=` and leaves every other name as it was |
| `Defines.SymbolTable.UndefSymbol` | subos/obp/tools/libdef/defines.c:127-152 | a found name keeps its value and changes kind; otherwise a new binding is made |
| `Defines.SymbolTable.SymbolDefined` | subos/obp/tools/libdef/defines.c:155-165 | whether the last binding of the name defined it |
| `Defines.NameAndValue` | subos/obp/tools/libdef/defines.c:81-98 | an argument is its name, or its name, the first `=` and its value |
| `Defines.Argument` | subos/obp/tools/libdef/defines.c:81-98 | and a name without `=` and a value put together are taken apart into just them |
| `Conditionals.RunScript` | subos/obp/tools/didepend.c:549-618 | at any level, skipping or not, the lines of a nested script have exactly the effect of its evaluation |
| `Conditionals.RefinesTree` | subos/obp/tools/didepend.c:629-676 | a well-nested file executes exactly the commands that recursive evaluation executes, or both fail |
| `Conditionals.CommandsDecide` | subos/obp/tools/didepend.c:540-547 | evaluation executes just the commands that the earlier executed `#define`s and `#undef`s call for, and afterwards a name is defined exactly when the last of them for that name was a `#define`, or there was none and it was defined before |
| `Conditionals.FileExecutes` | subos/obp/tools/didepend.c:629-676 | so does the machine, over every well-nested file, and it runs to the end exactly when the file is at most five deep, has no malformed command and none of those commands is unknown |
| `Conditionals.ParseLines` | subos/obp/tools/didepend.c:549-618 | every list of lines is a script followed by lines that no script can absorb |
| `Conditionals.ClosesExactlyTrees` | subos/obp/tools/didepend.c:549-618 | for every list of lines, the machine ends with all conditionals closed if and only if the lines are a tree at most five deep, without malformed commands, that evaluates |
| `Conditionals.Processor.DoIf` | subos/obp/tools/didepend.c:573-600 | pushes a frame that skips when the outer one does or the test fails |
| `Conditionals.Processor.DoElse` | subos/obp/tools/didepend.c:602-610 | turns skipping around unless the outer frame skips, once |
| `Conditionals.Processor.DoEndif` | subos/obp/tools/didepend.c:612-618 | pops the frame |
| `Conditionals.Processor.DoCommand` | subos/obp/tools/didepend.c:628-676 | executes a command or skips it, an unknown token being fatal only when executed |
| `Conditionals.Processor.ProcessFile` | subos/obp/tools/didepend.c:678-745 | a file run line by line in the ten-slot array is a run of the abstract machine |
| `Checksum.FoldStep` | subos/obp/tools/checksum/checksum.c:72-75 | folding decreases the sum, keeps its residue modulo 65535 and never makes it zero |
| `Checksum.InternetChecksum` | subos/obp/tools/checksum/checksum.c:52-81 | the result makes the wrapped sum a multiple of 65535, is never zero, and is 0xffff exactly when the sum already is |
| `Checksum.SealDropin` | subos/obp/tools/makedi.c:138-151 | clearing the field, summing and storing gives the sealed image, with a nonzero field |
| `Checksum.BadChecksum` | subos/obp/tools/makeprom.c:152-160 | unless forced, a drop-in is called bad exactly when it is sealed and does not verify |
| `Checksum.SealVerifies` | subos/obp/tools/checksum/checksum.c:52-81 | at any length, a sealed region verifies unless the rest of it sums to 2^32 - 1 modulo 2^32 |
| `Checksum.ShortSealVerifies` | subos/obp/tools/checksum/checksum.c:52-81 | up to 65537 terms sealing always verifies |
| `Checksum.SealCanFail` | subos/obp/tools/checksum/checksum.c:60-66 | 65538 halfwords, all ones but the field, do not verify after sealing |
| `Checksum.DetectsChange` | subos/obp/tools/checksum/checksum.c:52-81 | a changed halfword goes unnoticed only between 0 and 0xffff |
| `Checksum.OddByteCounts` | subos/obp/tools/checksum/checksum.c:68-70 | a left-over byte counts like a halfword of its value |
| `Checksum.DetectsOddChange` | subos/obp/tools/checksum/checksum.c:68-70 | a changed left-over byte never goes unnoticed |
| `Crc32.TableIsShift` | subos/obp/tools/checksum/crc32.c:68-134 | each of the 256 table entries is its index shifted out bit by bit through 0xEDB88320 |
| `Crc32.ByteStep` | subos/obp/tools/checksum/crc32.c:148-153 | one turn of the table loop is eight turns of the bit loop |
| `Crc32.Crc` | subos/obp/tools/checksum/crc32.c:136-156 | the table loop computes the bit-at-a-time CRC for every buffer and seed |
| `Crc32.Concatenates` | subos/obp/tools/checksum/crc32.c:136-156 | the CRC of a concatenation is the CRC of its second part seeded with that of the first |

## Left out

- `RstCodec` is on values: output pointers, the sizes of `zbuffer` and of the chunk buffers, and update in place during
  encoding are not captured; the caches it uses are also given as classes in `RstCacheClasses`.
- Machine integer widths of counters: `in_count`, `alloutbytes`, `nbits`, `count` and the like are unbounded here;
  values whose width matters (64-bit addresses and sums, 32-bit checksum terms, 16-bit table indices) wrap as in the source.
- A record limit that stops `rstz_decompress` inside a unit of several bytes counts as an error; the source reads on from
  the middle of that unit.
- That a chunk's carried addresses fit the way that holds the chunk is assumed by the `RstExact` results; `RstTheorems`
  derives it when no chunk carries more than 128 addresses. The source reallocates only when a way is written.
- The run of no records on CPU 255 that an empty buffer leaves: the source looks up that CPU outside its arrays; here
  the access adds nothing and copies nothing.
- The single-CPU path of `RstzipIF`, where an empty buffer ends decompression as well; `RstExact` and `RstTheorems` are about
  the codec it calls.
- The width of the slots: a CPU's buffer holds as many records as `openRstunzip` was told, here as many as are needed.
- Raw record types of 160 and above and CPU numbers of 64 and above: the source assumes they do not occur.
- `BitArray.PackedArray.CopyTo`: the buffer is a sequence of words, not bytes; the branch for AMD64, which swaps bytes in place, is left out.
- `XrefFile.WordDigits`: the source writes numbers in the byte order of its host; here that is the order of SPARC.
- Per-file `defs` tables of `libxref`: they share the `next_def` link with the root table and are not read by the code modelled here.
- `XrefStore.Xref.AddStringWord`: takes one word; splitting a string constant into words is left out.
- `XrefLoad.Loader.LoadSymbol`: truncated files and records with ids out of range, which the source reads past its buffers, are excluded; a symbol's link lists are stored when complete instead of slot by slot.
- `XrefStore.RefBuffer.Add`: the growth of a reference buffer is proved apart; `Sym.calls` and `Sym.calledBy` are sequences,
  so that the buffers of two symbols do not share storage is not captured.
- Names whose first byte is 128 or more: the source indexes its 128-entry root table with it, and the graph's invariant and
  every event exclude them.
- The sizes of reference buffers while a graph is built, which the source keeps in `int`, and the stack that the loader's
  recursion needs.
- `XrefReload.SaveAndLoad`: files of 2^31 bytes and more, where an offset is negative, the seek fails and reading goes on
  where it was; and what is loaded when a name of 256 bytes or more overruns its buffer.
- `XrefLoad.LoadFile`: likewise for files under 2^31 bytes only.
- Preloading a database before further events: the source leaves the current file unset and then dereferences it.
- `Conditionals.Processor.ProcessFile`: lines come already classified; tokenising, compatibility mode, `source{` blocks and
  `include` are left out.
- Words of the checksum are the halfwords the host loads; byte order is not modelled.
- File, gzip and stdio plumbing, statistics, footers, debug output, argument parsing.
- `trconv`, `fscope`, `elf2bin`, `gen-seeprom`, `bin2srec`, `vercheck`, `rstf.c`, hypervisor samples and headers.
