# A model of zfsrescue

zfsrescue reads a ZFS pool on one RAIDZ vdev that has lost children. It never writes and never
guesses: what it declares recovered is meant to be the true bytes, and everything the geometry
allows is meant to be recovered. This project models that chain in Dafny, from sectors on
children to files and their paths, and proves what each link promises and what the links promise
together.

The layers, bottom up:

- `Bytes`, `Blkptr`, `Pointers`: byte strings, little- and big-endian values, bitwise exclusive or,
  the DVA and the block pointer with its bit fields.
- `Raidz`, `RaidzGeometry`, `Availability`: how a block is cut into rotated, uneven columns, which
  sectors of which children it uses, and how recoverability is decided from the geometry alone.
  The linear sector number (row times the number of children, plus the child) is the reference
  the wrap-around arithmetic is compared with.
- `Parity`, `PoolRead`, `Erasure`, `Writing`: single parity, the reading of one copy, and the
  erasure code. `Writing` is a writer that the program does not have. It lays blocks out by the
  map, and so states what reading must undo.
- `Checksum`, `Detection`, `ByteOrder`, `Codec`, `Lz4`, `Lzjb`, `LzjbTokens`, `Compress`,
  `Compressions`: Fletcher-2 and Fletcher-4 against weighted sums, what they detect, and blocks of
  either byte order; the three decoders against encoders for their formats, by number of their kind.
- `BlockIo`, `BlockProofs`, `Verdicts`, `Escapes`: `read_block` over the copies of a block, what its
  answers say, and when it raises. `PoolReader` is a class; a ghost trace records every read of a
  device.
- `Lru`, `Retention`, `Dnodes`, `Tree`, `Objects`, `DnodeTable`, `Dmu`: the byte-budgeted cache and
  what it is sure to keep, the descent of the tree of indirect blocks against a flat map, objects,
  and the dnode table as written and read back. `DmuReader` is a class.
- `Xdr`, `Nvlist`, `NvCodes`, `NvReader`, `NvLoops`: packed nvlists (XDR, sections 4.11 and 4.13 of
  RFC 4506), read by number of their types by a class with a cursor, against parsing functions and
  an encoder; and the loop as it runs, turn by turn, to say when it never ends.
- `Zap`, `ZapLeaf`: the chunk chains and entries of fat ZAP leaves.
- `Extract`, `Accounts`, `Paths`, `Chains`, `PathText`, `Dsl`: extraction of files with its
  accounting, path reconstruction over any parent graph and the text of paths, and the two ways
  dataset names are found.
- `EndToEnd`, `DiskTree`, `Small`, `Sample`: the layers put together, from the writer to the content
  of a file after a loss.

Each program that changes state step by step is a method (in a class where the source has one)
tied by its `ensures` to a function of its inputs or of the old state. The lemmas are about those
functions. An exception is a value here: `Rejected`, `Raised`, `Escaped`, `BadDnode`, `None`.

## Findings

Where the program does not keep a promise on all inputs: an input that shows it, and the exact
condition.

| finding | source | at an input | exact condition |
|---|---|---|---|
| A file whose declared size runs past its last block is COMPLET, its output is shorter than its size, and nothing counts as missing | zfsrescue/extract.py:68-81, 147-178 | `Extract.CompleteButShort`: 1000 bytes declared, one hole of 512 | `Extract.CompleteMeans`: the output has the declared size if and only if the size is at most blocks times block size |
| When a copy or an embedded payload makes a decoder raise something other than a decompression error, `read_block` raises, and later copies are not tried | zfsrescue/blockio.py:207-214, 254-276, zfsrescue/compress.py:129-142 | `Escapes.GoodCopyNotTried`: the second copy is good; `Escapes.EmbeddedRaises`: an embedded payload of the bytes 1, 0, 0 | `Escapes.ReadingRaisesIff`, for every pointer: a LZJB stream comes to a match at distance 0 while the output is short, or the zstd library raises, in the payload or in a copy before any usable one |
| An nvpair of encoded size 0 and another decoded size keeps the parser in place for ever | zfsrescue/nvlist.py:211-236 | `NvLoops.EndlessBuffer`: 32 bytes | `NvLoops.BodyStalls`: the parse never ends if and only if, at any depth, it comes to such a pair with a readable value; `NvLoops.EndlessNeverEnds`: never means within no bound |
| Fletcher-2 leaves the last word of a block of an odd number of words uncovered | zfsrescue/checksum.py:42-52 | `Checksum.Fletcher2Blind`: any two blocks of one word | `Checksum.Fletcher2SeesOneWord`: a changed word is seen if and only if it belongs to a whole pair |
| Fletcher-4 does not see every change | zfsrescue/checksum.py:29-39 | `Checksum.FiveWords`: two blocks of five words | `Detection.Fletcher4FiveWords`: for a change confined to five consecutive words, in a block of any length, if and only if they are changed by e, -4e, 6e, -4e, e; `Detection.Fletcher4SeesFourWords`: so every change confined to four consecutive words is seen |
| On a big-endian host the byte order of a pool is taken for the other one: a valid block of a little-endian pool is refused | zfsrescue/checksum.py:24-45, zfsrescue/blockio.py:225 | `ByteOrder.BigEndianHost`: a block of the one word 1 with Fletcher-4 | `ByteOrder.HostMustBeLittleEndian`: every block written in the byte order that its pointer names verifies if and only if the host is little-endian |
| The guard of `_array_bytes` does not see every loop | zfsrescue/zap.py:140-157 | `ZapLeaf.LoopUnseen`: a leaf of 128 bytes, one entry of which has a name read twice out of one chunk | `Zap.GuardIff`: it fires if and only if the chain revisits a chunk and more is wanted than all chunks hold |
| The text of a path can name a marker that is not there | zfsrescue/zpl.py:671-690 | `PathText.NameLikeMarker`: a directory of the root named like the marker of a lost parent | `PathText.MarkerInTextIff`: some graph has a node that reaches no root with the text of a node that does, if and only if the first part of the text reads like the marker of a lost parent with a part behind it, or like the marker of a loop with two |

## Model

| member | source | states |
|---|---|---|
| `Raidz.RaidzMapAlloc` | zfsrescue/raidz.py:115-196 | the program's own arithmetic, its loop over columns with wrap-around and its 1 MiB exchange give the map that linear sector division defines; it is refused exactly for the stated arguments, with the first error in source order; every assert of the program holds |
| `Raidz.BuildColumns` | zfsrescue/raidz.py:152-170 | one column per turn, and the sum of the sizes is the rows of all columns |
| `Raidz.WrapIsDivision` | zfsrescue/raidz.py:155-159 | the subtraction that wraps a column onto the next row is quotient and remainder by the number of children |
| `Raidz.Exchange` | zfsrescue/raidz.py:187-192 | the exchange moves child and offset of the first two columns and keeps index, size and role |
| `Raidz.TotalSplit` | zfsrescue/raidz.py:139-150 | all sectors are whole rows and one partial row; at least two columns, the first two equally long |
| `Raidz.RowsTotal` | zfsrescue/raidz.py:172 | the columns add up to `tot` sectors |
| `RaidzGeometry.RoleByIndex` | zfsrescue/raidz.py:160-167 | parity columns come first, then data, and a column is a skip exactly when it has no sector |
| `RaidzGeometry.ColumnSizes` | zfsrescue/raidz.py:150-182 | data columns total the I/O size, there are exactly nparity parity columns, each as long as the longest column, and all together are `asize` |
| `RaidzGeometry.DealtOut` | zfsrescue/raidz.py:134-173 | the quantities counted another way: one parity sector for each begun data row, sectors dealt out to the columns in turn, columns with a sector used, padding up to a multiple of nparity + 1 |
| `RaidzGeometry.IoSizeAligned` | zfsrescue/raidz.py:199-211 | the I/O size is the least multiple of the sector that holds psize bytes |
| `RaidzGeometry.AsizeAgrees` | zfsrescue/raidz.py:214-218 | the DVA size of the map at the I/O size equals the allocator's formula, and is a multiple of (nparity + 1) sectors |
| `RaidzGeometry.SectorNumber` | zfsrescue/raidz.py:134-170 | row j of column c is linear sector b + place(c) + j * dcols |
| `RaidzGeometry.UsesExactly` | zfsrescue/raidz.py:134-194 | the map uses a sector if and only if its number lies in b .. b + tot - 1, with or without the exchange |
| `RaidzGeometry.UsesOnce` | zfsrescue/raidz.py:134-194 | no sector is used by two places of one map |
| `RaidzGeometry.DisjointBlocks` | zfsrescue/raidz.py:96-98 | blocks of disjoint DVA ranges share no byte of any child, whatever their sizes, rotations and exchanges |
| `RaidzGeometry.ChildrenDistinct` | zfsrescue/raidz.py:150-170 | the columns of one block lie on different children |
| `RaidzGeometry.MapInOrder` | zfsrescue/raidz.py:139-194 | column c starts c sectors after the block; under single parity the first two columns change places if and only if bit 20 of the offset is set; the first skipped column is the one behind the last row |
| `RaidzGeometry.EveryOtherMiB` | zfsrescue/raidz.py:184-194 | blocks one MiB apart have opposite orders of their first two columns, blocks two MiB apart the same, and in the first MiB parity comes first |
| `RaidzGeometry.FourMiB` | zfsrescue/raidz.py:57-60 | a column lies four MiB behind its offset on its child |
| `Availability.MapShape` | zfsrescue/raidz.py:150-182 | indices are positions, skips are empty, nparity columns have the parity role |
| `Availability.RecoverableIff` | zfsrescue/raidz.py:240-264 | the verdict is not MISSING_DATA if and only if at most nparity used columns are absent, and COMPLETE if and only if the absent ones are all parity |
| `Availability.FullStripe` | zfsrescue/raidz.py:240-264 | a stripe over all children survives if and only if at most nparity children are absent |
| `PoolRead.AnalysisLists` | zfsrescue/raidz.py:240-264 | the lists of the verdict are, in increasing order, the used data columns and the parity columns whose children are absent, and the other parity columns are usable |
| `PoolRead.Device.Pread` | zfsrescue/readonly.py:113-131 | exactly the bytes at the offset, and success exactly within the medium and off its bad positions |
| `PoolRead.Pool.LayoutOf` | zfsrescue/blockio.py:135-137 | the I/O size and an aligned DVA always give a map |
| `PoolRead.ReadColumn` | zfsrescue/blockio.py:151-163 | a column that is read holds the bytes of its child at its place |
| `Bytes.XorBits` | zfsrescue/blockio.py:109-110 | a bit of an exclusive or is set if and only if it is set in one of the two |
| `Parity.Rebuild` | zfsrescue/blockio.py:86-111 | the head of the parity folded with the other data columns is the missing column, for columns of different lengths |
| `BlockIo.PoolReader.ReconstructRaidz1` | zfsrescue/blockio.py:86-111 | the in-place fold gives the rebuilt column, and refuses exactly when the parity or another data column is missing |
| `BlockIo.PoolReader.XorInPlace` | zfsrescue/blockio.py:109-110 | the loop over bytes folds one column into the buffer and keeps the rest |
| `BlockIo.PoolReader.FetchColumns` | zfsrescue/blockio.py:150-163 | every column is read, absent or unreadable ones are None, and the trace gains one read per used column on a supplied child |
| `BlockIo.PoolReader.Finish` | zfsrescue/blockio.py:165-198 | the rest of the reading: missing lists, at most one reconstruction, which never raises, the check of every length, and concatenation |
| `BlockIo.PoolReader.ReadDvaPhysical` | zfsrescue/blockio.py:128-198 | data, status and missing columns of the copy, and no read at all when the verdict is MISSING_DATA |
| `BlockIo.PoolReader.OnlyOneGone` | zfsrescue/blockio.py:171-185 | when a reconstruction starts, nothing it needs is missing |
| `Erasure.RebuiltIsShare` | zfsrescue/blockio.py:86-111 | on a medium that holds a block, the rebuilt column is the lost share of it |
| `Erasure.AssembleReturnsBlock` | zfsrescue/blockio.py:165-198 | the block comes back if and only if no data column is lost, or one column under single parity; the status tells which |
| `Erasure.AlwaysWhole` | zfsrescue/blockio.py:171-198 | on columns that were read whole, the last check of their lengths never fails; the column recorded as reconstructed is the one data column that could not be read |
| `Erasure.StatusIsVerdict` | zfsrescue/blockio.py:139-198 | for any content: if every supplied child reads, the status is the verdict of the geometry (MISSING_DATA also for a reconstruction under more parity), and the missing columns are those of the absent children |
| `Erasure.ErasureRecovery` | zfsrescue/blockio.py:128-198 | for every offset, size, sector size, number of children and set of unreadable columns, a stored block is returned if and only if its copy is readable, and then it is the first psize bytes |
| `Writing.WriteStores` | zfsrescue/raidz.py:134-194 | a block laid out by the map is held by the pool |
| `Writing.WriteKeepsOthers` | zfsrescue/raidz.py:134-194 | laying out a block leaves the reading of every block on a disjoint range as it was |
| `Writing.WriteAllStores` | zfsrescue/raidz.py:134-194 | of any number of blocks laid out on pairwise disjoint ranges the pool holds every one |
| `Writing.WriteAllKeeps` | zfsrescue/raidz.py:134-194 | any number of writes leave the reading of every block on a disjoint range as it was |
| `Writing.LossKeepsRest` | zfsrescue/blockio.py:151-169 | losing children adds exactly the used columns they carry to the unreadable ones |
| `Writing.WriteLoseRead` | zfsrescue/blockio.py:128-198 | write a block, write any number of others on ranges disjoint from it, lose any children: the first psize bytes come back if and only if the loss hits parity only, or one used column under single parity |
| `Writing.HealthyPool` | zfsrescue/raidz.py:150-182 | any geometry has a pool on which any number of aligned places can be read |
| `EndToEnd.FetchAll` | zfsrescue/raidz.py:268-281 | `read_columns`: the columns, or an exception exactly when a supplied child fails |
| `EndToEnd.AssembleData` | zfsrescue/raidz.py:284-301 | `assemble_data`: the data columns end to end, unless one is missing (None) or of a wrong length (an exception); the first such column decides |
| `EndToEnd.AssembledSize` | zfsrescue/raidz.py:299-300 | the columns of a map, read whole, always total the I/O size: the final assert holds |
| `EndToEnd.AssembledIsBlock` | zfsrescue/raidz.py:284-301 | the assembled data is the block that was laid out, with exactly the I/O size |
| `Blkptr.ParsedIsGenuine` | zfsrescue/blkptr.py:264-277 | a parsed pointer is determined by the 128 bytes it keeps, wherever they stood: the cache may use them as its key |
| `Blkptr.PointerReadsBack` | zfsrescue/blkptr.py:264-277 | a pointer written as sixteen words is read back: DVAs, properties and checksum, each from its own words |
| `Pointers.PropsReadBack` | zfsrescue/blkptr.py:122-175 | packed into the property word of a block that lies elsewhere, sizes, compression, checksum, encryption and byte order are read back |
| `Pointers.EmbeddedPropsReadBack` | zfsrescue/blkptr.py:122-154 | so are the sizes in bytes and the kind of an embedded block |
| `Pointers.DvaReadsBack` | zfsrescue/blkptr.py:90-100 | the offset and the gang mark of a DVA are read back, and it is empty exactly when both words are zero |
| `Pointers.PayloadReadsBack` | zfsrescue/blkptr.py:221-228 | the payload of an embedded pointer is its words but the sixth and the tenth, cut at its size |
| `Pointers.PointerKinds` | zfsrescue/blkptr.py:190-197 | a hole has three empty DVAs and no payload; a gang block has the mark on some DVA |
| `Checksum.Fletcher4` | zfsrescue/checksum.py:29-39 | the four running sums are the weighted sums of order 0 to 3, modulo 2^64 |
| `Checksum.WeightClosed` | zfsrescue/checksum.py:29-39 | the weights are the binomials m, m(m+1)/2, m(m+1)(m+2)/6 |
| `Checksum.Fletcher2` | zfsrescue/checksum.py:42-52 | the two lanes and their running sums are weighted sums over every other word |
| `Checksum.VerifyBlock` | zfsrescue/checksum.py:83-97 | the verification by kind, the byte-swapped comparison, the kinds that are always accepted, and the unsupported ones |
| `ByteOrder.WordsReadBack` | zfsrescue/checksum.py:31-45 | words of any width written one after the other in either byte order are read back in that order, a tail of less than a word ignored |
| `ByteOrder.Fletcher4Verifies` | zfsrescue/checksum.py:83-97 | a block of 32-bit words and a checksum, both of one machine of either byte order, verify if and only if the checksum is the Fletcher-4 of the words |
| `ByteOrder.Fletcher2Verifies` | zfsrescue/checksum.py:83-97 | the same for 64-bit words and Fletcher-2 |
| `ByteOrder.OtherKinds` | zfsrescue/checksum.py:58-97 | kind 8 is SHA-256 over the bytes, kinds 0, 1, 2 and 10 accept everything, all others are unsupported |
| `ByteOrder.HostMustBeLittleEndian` | zfsrescue/checksum.py:24-45 | every block written in the byte order that its pointer names verifies if and only if the host is little-endian |
| `Checksum.Fletcher4SeesTwoWords` | zfsrescue/checksum.py:29-39 | below 2^32 words, a change within two words, or of one, changes the checksum |
| `Checksum.VerifyRejectsTwoWords` | zfsrescue/checksum.py:83-97 | a valid block stops being valid after any such change |
| `Checksum.Fletcher2SeesOneWord` | zfsrescue/checksum.py:42-52 | a changed word is seen if and only if it belongs to a whole pair |
| `Checksum.Fletcher4Blind` | zfsrescue/checksum.py:29-39 | in any block, five consecutive words changed by e, -4e, 6e, -4e, e leave the checksum as it was |
| `Detection.Fletcher4FiveWords` | zfsrescue/checksum.py:29-39 | a change confined to five consecutive words of a block of any length is not seen if and only if the words are changed by e, -4e, 6e, -4e, e |
| `Detection.Fletcher4SeesFourWords` | zfsrescue/checksum.py:29-39 | every change confined to four consecutive words is seen, whatever the length of the block |
| `Codec.CopyIsPeriodic` | zfsrescue/compress.py:86-88 | a match that overlaps its own output is the periodic extension of the last bytes |
| `Lz4.DecompressBlock` | zfsrescue/compress.py:97-105 | length prefix and block; on any bytes exactly d_len bytes or a decompression error |
| `Lz4.BlockDecompress` | zfsrescue/compress.py:42-94 | the decoder's loop is the recursive reading of the block |
| `Lz4.TakeTurn` | zfsrescue/compress.py:51-90 | one sequence: literals, offset, match, every bound check and early stop |
| `Lz4.ReadExtension` | zfsrescue/compress.py:54-62 | the chain of 255s of an extended length |
| `Lz4.BlockRoundTrip` | zfsrescue/compress.py:42-94 | decoding the encoding of any sequences gives the first d_len bytes of what they mean, or an error when they mean fewer |
| `Lz4.RoundTrip` | zfsrescue/compress.py:97-105 | the same with the length prefix and trailing padding, for any d_len |
| `Lzjb.DecompressBlock` | zfsrescue/compress.py:115-148 | the decoder with its control byte and mask is the recursive reading of the stream |
| `Lzjb.RoundTrip` | zfsrescue/compress.py:115-148 | decoding the encoding of any tokens, with any padding after it, gives the first d_len bytes of what they mean; without padding more is an error |
| `LzjbTokens.DecompressMeans` | zfsrescue/compress.py:115-148 | on any bytes: a success is what some tokens of the stream mean, cut at d_len, and every such list of tokens means it; the index error escapes if and only if a match at distance 0 is reached while the output is short |
| `LzjbTokens.TurnOnToken` | zfsrescue/compress.py:121-147 | one turn of the decoder is one token: its match checked against the output, copied, and cut at d_len |
| `Compress.ZleDecompress` | zfsrescue/compress.py:152-172 | the loop over runs of literals and of zeros |
| `Compress.ZleRoundTrip` | zfsrescue/compress.py:152-172 | with any padding after the runs, a length within their meaning is accepted if and only if it is the end of a run, and gives the bytes up to there |
| `Compress.DecompressBlock` | zfsrescue/compress.py:227-251 | the dispatch over algorithms, foreign code aside |
| `Compress.Decompress` | zfsrescue/compress.py:176-251 | whatever the algorithm, a success has exactly lsize bytes |
| `Compressions.Lz4ByCode` | zfsrescue/compress.py:227-251 | kind 15 is LZ4: the round trip through `decompress` |
| `Compressions.LzjbByCode` | zfsrescue/compress.py:227-251 | kind 3 is LZJB: the round trip through `decompress` |
| `Compressions.ZleByCode` | zfsrescue/compress.py:227-251 | kind 14 is ZLE: the round trip through `decompress` |
| `Compressions.StoredByCode` | zfsrescue/compress.py:232-238 | kinds 0, 1 and 2 give the first lsize bytes or an error, kind 4 zeros |
| `Compressions.GzipByCode` | zfsrescue/compress.py:176-198 | kinds 5 to 13 give what the inflater gives, if it has the right length |
| `Compressions.ZstdByCode` | zfsrescue/compress.py:199-223 | kind 16 takes the frame out of its header and gives what the library gives, if it has the right length |
| `BlockIo.PoolReader.ReadBlockAt` | zfsrescue/blockio.py:201-281 | holes, embedded payloads, refused pointers, and the loop over the copies with its running status |
| `BlockIo.PoolReader.TryOne` | zfsrescue/blockio.py:227-276 | one copy: read, verify, decompress, and the status each failure leaves on the attempt |
| `BlockProofs.ReadBlockOutcome` | zfsrescue/blockio.py:201-281 | ok if and only if the first deciding copy is readable, valid and decompressible; then exactly its bytes, lsize of them; MISSING_DATA if and only if every non-empty copy lacked columns |
| `BlockProofs.FailureHasNoData` | zfsrescue/blockio.py:201-281 | a failed reading never carries data, whatever the pointer |
| `Verdicts.FailureTells` | zfsrescue/blockio.py:224-281 | a failure is MISSING_DATA if no copy was read; otherwise the last copy that was read tells: INVALID_CHECKSUM if and only if its checksum is wrong or its stream corrupt, UNKNOWN if and only if its checksum kind or compression is unsupported; the checksum shown is that of the last mismatch; every reading records each copy it tried, in order, with the status and checksum of its own |
| `Verdicts.OtherPointers` | zfsrescue/blockio.py:202-223 | a hole is zeros, an embedded block its payload decoded, an encrypted or gang block UNKNOWN without data |
| `Verdicts.NoVainReads` | zfsrescue/blockio.py:131-163 | no child is read for a gang DVA, nor when more used columns are absent than parity can replace; otherwise every used column on a supplied child is read once, at its place, and nothing else |
| `Escapes.RaisesIff` | zfsrescue/blockio.py:254-266 | a copy makes the reading raise if and only if it reads, verifies, and is a LZJB stream that comes to distance 0 or a frame on which zstd raises |
| `Escapes.ReadingRaisesIff` | zfsrescue/blockio.py:201-281 | exactly when the reading of any pointer raises: an embedded payload on which the decoder raises, or a copy on which it does before any copy is usable |
| `Escapes.EmbeddedRaises` | zfsrescue/blockio.py:207-214 | a pointer with an embedded payload on which the reading raises |
| `Escapes.GoodCopyNotTried` | zfsrescue/blockio.py:227-276 | on two healthy children the reading raises although the second copy is good |
| `BlockProofs.WrittenBlockIsRecovered` | zfsrescue/blockio.py:201-281 | a written block is recovered if and only if some copy has not lost more than parity replaces, and what is returned is what was written |
| `EndToEnd.ReadingLaws` | zfsrescue/blockio.py:60-73 | success and data go together |
| `Dmu.DmuReader.constructor` | zfsrescue/dmu.py:236-246 | an empty cache and a budget that is never negative |
| `Dmu.DmuReader.ReadBp` | zfsrescue/dmu.py:252-271 | the answer is what the medium holds, the cache makes one access step, hits and misses are counted, and the byte count stays the exact sum |
| `Dmu.DmuReader.EvictOldest` | zfsrescue/dmu.py:268-270 | the oldest entries go one by one while over budget |
| `Dmu.DmuReader.Clear` | zfsrescue/dmu.py:273-275 | the cache is emptied and the count is zero |
| `Lru.HitLaws` | zfsrescue/dmu.py:253-258 | a hit answers with the medium's result and makes its entry the latest |
| `Lru.StoreLaws` | zfsrescue/dmu.py:259-271 | a kept miss drops a prefix of the oldest entries and no more than the budget demands |
| `Lru.EvictIsSuffix` | zfsrescue/dmu.py:268-270 | what is left is the longest suffix of the recency order within the budget |
| `Lru.RunIsRecent` | zfsrescue/dmu.py:252-271 | after every run the entries stand in the order of their last calls, the oldest first |
| `Lru.RunIsInvisible` | zfsrescue/dmu.py:249-271 | over every run from an empty cache each answer is the medium's, the budget holds, nothing that failed is kept, and the entries stand in the order of their last calls |
| `Retention.WorkingSetStays` | zfsrescue/dmu.py:249-271 | for every run, cut anywhere: if the results of the calls since then that are worth keeping (at most an eighth of the budget each) fit the budget together, each counted once, the next call for any of them is a hit; nothing else is ever kept |
| `EndToEnd.CacheOverPool` | zfsrescue/dmu.py:249-271 | the same with the pool's `read_block` as the medium, recency order included |
| `Dnodes.ParseDnode` | zfsrescue/dmu.py:146-176 | the id is the one asked for, and an allocated dnode has as many pointers as it declares, each decoded from its own bytes |
| `Dnodes.DnodeReadsBack` | zfsrescue/dmu.py:146-176 | a written dnode is read back whole, wherever it stands: fields, pointers, bonus and spill pointer |
| `Dmu.DmuReader.FindBlockPointer` | zfsrescue/dmu.py:289-321 | the loop down the levels, through the cache, is the recursive descent |
| `Tree.SpanIsShift` | zfsrescue/dmu.py:302-316 | the blocks under a pointer are 1 << (epbs * level) |
| `Tree.DescentRefinesMap` | zfsrescue/dmu.py:289-321 | shift-and-mask descent finds, for every block id, the entry of the flat block map, holes and lost indirect blocks covering their whole range |
| `Tree.PathSpells` | zfsrescue/dmu.py:289-321 | the indices on the way spell the block id in base 2^epbs, so distinct ids take distinct paths |
| `Dmu.DmuReader.ReadObjectBlock` | zfsrescue/dmu.py:323-336 | zeros for a hole, padding to the block size, no data without success |
| `Dmu.DmuReader.ReadObject` | zfsrescue/dmu.py:338-358 | the blocks end to end, cut at the size, with the status of each |
| `Objects.ObjectByte` | zfsrescue/dmu.py:338-358 | byte i * blocksize + r of an object is byte r of block i |
| `Dmu.DmuReader.ReadDnode` | zfsrescue/dmu.py:361-373 | the dnode of an id, or the status of its block |
| `Dmu.DmuReader.IterDnodes` | zfsrescue/dmu.py:375-390 | the walk over the table, block by block and slot by slot |
| `Objects.WalkRefinesRead` | zfsrescue/dmu.py:361-390 | yielded ids strictly increase, each answer is that of `read_dnode`, and every slot is yielded or is an extra slot of an earlier dnode of its block |
| `DnodeTable.DnodeAtByte` | zfsrescue/dmu.py:361-373 | dnode n is the one that starts at byte 512 n of the table, in the block that holds this byte; when the block is lost, its status is the answer |
| `DnodeTable.TableReadsBack` | zfsrescue/dmu.py:361-390 | a table of written dnodes and free slots, laid end to end in slots of 512 bytes, is read back: each by its number, and all in order by the walk; a lost block answers with its status for each of its slots, and the walk goes on |
| `NvReader.XdrReader.ReadHead` | zfsrescue/nvlist.py:211-224 | the sizes, name, type and count of a pair, the end marker, and a pair that leaves the buffer |
| `NvReader.XdrReader.ReadAny` | zfsrescue/nvlist.py:133-202 | a value of any type, nested lists included |
| `NvReader.XdrReader.ReadNvlist` | zfsrescue/nvlist.py:205-237 | the loop over pairs: same list, same anomalies, same final position as the parsing function, and word that it never ends exactly when that is so |
| `NvReader.ParsePackedNvlist` | zfsrescue/nvlist.py:254-270 | header, list, and bytes consumed |
| `NvLoops.EndlessNeverEnds` | zfsrescue/nvlist.py:205-237 | the loop as it runs, with no exception for any size: the parsing function says endless if and only if no bound on turns and nested calls suffices, and a parse that ends needs at most four for each byte |
| `NvLoops.BodyStalls` | zfsrescue/nvlist.py:205-237 | the parse never ends if and only if, at any depth, it comes to a pair of encoded size 0 and another decoded size whose value can be read |
| `NvLoops.StallsForEver` | zfsrescue/nvlist.py:211-236 | from such a pair, whose sizes are 0 and another number, the position after any number of turns is its start |
| `NvLoops.EndlessBuffer` | zfsrescue/nvlist.py:211-236 | a buffer of 32 bytes on which the parse never ends |
| `Xdr.Read32` | zfsrescue/nvlist.py:41-75 | a signed or unsigned 32-bit number is read back |
| `Xdr.ReadText` | zfsrescue/nvlist.py:80-86 | a counted string with its padding is read back |
| `Nvlist.ReadsValue` | zfsrescue/nvlist.py:133-202 | an encoded value of any supported type is read back and consumed exactly |
| `NvCodes.ScalarByCode` | zfsrescue/nvlist.py:134-156 | of any four bytes, types 2 and 23 keep the low byte, 22 and 3 the low byte and short with their sign, 4 and 6 the unsigned word, 5 and 21 the signed one |
| `NvCodes.LongScalarByCode` | zfsrescue/nvlist.py:154-162 | of any eight bytes, type 8 is the unsigned number, 7 and 18 the signed one, 27 a double |
| `NvCodes.ArrayByCode` | zfsrescue/nvlist.py:167-191 | the same for the arrays 26, 25, 11, 12, 14, 13 and 24, element by element behind their counter |
| `NvCodes.LongArrayByCode` | zfsrescue/nvlist.py:167-191 | the same for the arrays 16 and 15 |
| `NvCodes.CounterMustAgree` | zfsrescue/nvlist.py:184-189 | an array whose counter is not the number of elements of its pair is refused |
| `NvCodes.TextByCode` | zfsrescue/nvlist.py:161-165 | type 9 is a counted string, type 10 bytes without a counter |
| `NvCodes.TextsByCode` | zfsrescue/nvlist.py:193-194 | type 17 is as many strings as the pair has elements |
| `NvCodes.NestedByCode` | zfsrescue/nvlist.py:196-200 | type 19 is a nested list, type 20 an array of them |
| `NvCodes.NothingToRead` | zfsrescue/nvlist.py:135-202 | type 1 is a flag whatever its count; no elements, no value; an unknown type is an error |
| `NvCodes.Resyncs` | zfsrescue/nvlist.py:211-236 | after a pair the parser goes on where the encoded size says it ends, and notes an anomaly, with the place it had come to, exactly when that is another one |
| `NvCodes.OnlyXdr` | zfsrescue/nvlist.py:254-270 | a buffer of less than four bytes, or one that does not say XDR, is refused |
| `Nvlist.ReadsList` | zfsrescue/nvlist.py:205-237 | an encoded list, nested to any depth, is read back with no anomaly and consumed exactly |
| `Nvlist.PackedRoundTrip` | zfsrescue/nvlist.py:254-270 | the round trip of a packed nvlist, whatever decoded size each pair carries and whatever follows |
| `Zap.ChunksFit` | zfsrescue/zap.py:132-137 | the chunk area always fits in the block |
| `Zap.NoChunkLeftOut` | zfsrescue/zap.py:132-137 | the hash table has 2 bytes for every 32 of the block, and less than one chunk of the block is left behind the last chunk |
| `Zap.ReadArray` | zfsrescue/zap.py:140-157 | the loop over a chain: bytes, or the first of its three errors |
| `Zap.ReadsSpread` | zfsrescue/zap.py:140-157 | reading gives exactly the bytes spread over a chain of chunks |
| `Zap.GuardIff` | zfsrescue/zap.py:140-157 | the guard fires if and only if the chain revisits a chunk and more is wanted than all chunks hold; such a chain never ends |
| `Zap.ChainEnds` | zfsrescue/zap.py:140-157 | a chain that ends early gives what its chunks hold; one that comes to a chunk outside of the block, or to one that is no array, gives that error |
| `ZapLeaf.ParseLeaf` | zfsrescue/zap.py:160-194 | entries and errors of a leaf, chunk by chunk |
| `ZapLeaf.EntryReadsBack` | zfsrescue/zap.py:160-194 | an entry written in a leaf is read back whole: name, integers, collision number |
| `ZapLeaf.LeafReadsBack` | zfsrescue/zap.py:160-194 | a leaf whose entry chunks were all written parses to exactly their entries, in order, with no error |
| `ZapLeaf.LoopUnseen` | zfsrescue/zap.py:140-194 | a leaf of 128 bytes that gives an entry with a name read twice out of a chunk that names itself, and no error |
| `ZapLeaf.Deduplicate` | zfsrescue/zap.py:247-256 | the first entry of each name and collision number is kept, in order |
| `ZapLeaf.UniqueLaws` | zfsrescue/zap.py:247-256 | no key is lost, none is kept twice, nothing is added |
| `Extract.ExtractFile` | zfsrescue/extract.py:119-178 | the loop over blocks, filling or stopping, is the extraction as a function of the medium |
| `Extract.Conservation` | zfsrescue/extract.py:147-178 | in fill mode the blocks tile the file, and recovered plus missing is what is written, min(size, blocks * blocksize) |
| `Extract.StopsAtLoss` | zfsrescue/extract.py:160-172 | without filling, the output is that of the filling extraction cut before the first lost block |
| `Extract.OutputIsObject` | zfsrescue/extract.py:147-178 | the output is the object as `read_object` gives it, cut at the size |
| `Extract.BytesAreTrue` | zfsrescue/extract.py:147-178 | each byte written is the true one where its block was recovered, and zero elsewhere |
| `Extract.CompleteIff` | zfsrescue/extract.py:68-81 | COMPLET if and only if all blocks of the object are good |
| `Extract.CompleteMeans` | zfsrescue/extract.py:68-81 | COMPLET means true content with nothing missing; it is the whole file if and only if the size does not run past the blocks |
| `Extract.CompleteButShort` | zfsrescue/extract.py:68-81 | a sparse file of 1000 declared bytes and one block of 512 is COMPLET with 512 bytes and nothing missing |
| `Extract.Accumulate` | zfsrescue/extract.py:421-443 | a batch of results is added to the running totals |
| `Extract.Batches` | zfsrescue/extract.py:421-443 | accumulating in batches is accumulating at once |
| `Extract.StatesAddUp` | zfsrescue/extract.py:421-443 | every file is counted under exactly one state |
| `Accounts.StateMeans` | zfsrescue/extract.py:68-81 | COMPLET, PERDU and PARTIEL say that all, none, some but not all of the blocks are good; no blocks at all is PERDU |
| `Accounts.StateOfExtraction` | zfsrescue/extract.py:68-178 | the same of the blocks of the object on the medium, for an extraction that fills |
| `Accounts.NothingToExtract` | zfsrescue/extract.py:119-147 | an empty file, and one whose dnode is free, has no blocks, no bytes and nothing missing |
| `Accounts.TotalsAreSums` | zfsrescue/extract.py:421-443 | each total grows by the sum over the files: bytes recovered and missing, blocks, good blocks, reconstructed blocks |
| `Accounts.StatesAreCounts` | zfsrescue/extract.py:421-443 | each state grows by the number of files in it |
| `EndToEnd.BlockFromDisk` | zfsrescue/dmu.py:323-336 | a block that the tree leads to and that was written is read back, padded, if and only if it survives; one it does not lead to is lost |
| `EndToEnd.FileFromDisks` | zfsrescue/extract.py:119-178 | whatever the indirect blocks hold or have lost: COMPLET if and only if every block survives, and then the bytes are the content |
| `DiskTree.DescendGrown` | zfsrescue/dmu.py:289-321 | in a tree of written blocks the descent comes to the end of the way if every indirect block on it is recoverable, and nowhere with MISSING_DATA otherwise |
| `DiskTree.BlockOnDisk` | zfsrescue/dmu.py:289-336 | a block of a written file is good if and only if every pointer on its way, and its own, has a recoverable copy |
| `DiskTree.FileFromTree` | zfsrescue/extract.py:119-178 | a written file, whatever is lost of it: COMPLET if and only if every pointer on every way is recoverable; each byte is the true one where that is so and zero elsewhere |
| `DiskTree.FileSurvivesLoss` | zfsrescue/blockio.py:128-198 | a file on the disks stays one after the loss of any children |
| `DiskTree.WritesHold` | zfsrescue/blockio.py:201-281 | a block whose copies were all laid out on disjoint places is written in the sense of the readings |
| `DiskTree.AliveIffSpared` | zfsrescue/blockio.py:139-198 | after writes on healthy places and a loss, a block is readable if and only if the geometry spares one of its copies |
| `DiskTree.WriterToFile` | zfsrescue/extract.py:119-178 | from the writer to the file: write all blocks of a file, lose any children, extract: COMPLET if and only if the loss spares a copy of every block on every way, true bytes where that is so, zeros elsewhere |
| `Sample.OneBlockFile` | zfsrescue/extract.py:119-178 | for any 512 bytes there are a pool, a write, a dnode and a tree that hold them |
| `Sample.IndirectFile` | zfsrescue/dmu.py:289-321 | for any 512 bytes there are a pool, two writes, a dnode and a tree with an indirect block that hold them, with holes behind |
| `Paths.DatasetIndex.Climb` | zfsrescue/zpl.py:671-690 | `chemin` ends on every graph and gives the path, noting errors but changing no link, name or kind |
| `Paths.DatasetIndex.Visit` | zfsrescue/zpl.py:692-702 | one node: its path, the root's empty name, and the root object found on the way |
| `Paths.DatasetIndex.AssignPaths` | zfsrescue/zpl.py:663-703 | in any order of the nodes, each gets the path that the graph alone determines |
| `Paths.PathMeaning` | zfsrescue/zpl.py:664-690 | a chain that reaches a root gives exactly its names; the markers of a lost parent and of a loop appear if and only if the chain stops there or never stops |
| `Paths.SamePaths` | zfsrescue/zpl.py:692-702 | a root object found half-way changes no path |
| `Chains.ChainSpells` | zfsrescue/zpl.py:664-690 | a chain of directories down from a root (the known one, or a directory that is its own parent) gives the names of the nodes below it, `objet_N` for a missing name |
| `Chains.OrphanSpells` | zfsrescue/zpl.py:671-690 | a chain down from a node without a parent, or whose parent is gone or no directory, gives the marker of a lost parent and all names |
| `Chains.CycleSpells` | zfsrescue/zpl.py:671-690 | on a circle of directories the path of a node is the marker of a loop with its number and the names once around |
| `PathText.TextTells` | zfsrescue/zpl.py:671-690 | with names that have no slash and imitate no marker, two paths have the same text if and only if they are the same |
| `PathText.MarkerInTextIff` | zfsrescue/zpl.py:671-690 | exactly when the text of a node that reaches a root is also that of a node, in some graph, that does not |
| `PathText.MarkersFirst` | zfsrescue/zpl.py:671-690 | a marker stands in the first place of a path only, with a part behind that of a lost parent |
| `PathText.NameLikeMarker` | zfsrescue/zpl.py:671-690 | a name like the marker of a lost parent gives the text of such a path |
| `Dsl.NamesOfDirectories` | zfsrescue/dsl.py:250-289 | on any graph the worklist ends, handles each directory once, names exactly what the root reaches, and each name is a path to what it names |
| `Dsl.BuildNode` | zfsrescue/dsl.py:310-350 | the recursive descent over the child maps, down to its depth limit |
| `Dsl.DescentNamesPaths` | zfsrescue/dsl.py:310-350 | on any graph the descent names exactly the paths of at most 33 links from the root |
| `Dsl.TooDeepIff` | zfsrescue/dsl.py:310-316 | the nodes marked as too deep are exactly those 33 links below the root, and the descent stops there |
| `Dsl.OnePath` | zfsrescue/dsl.py:250-289 | in a tree a directory has one path |
| `Dsl.WorklistAgrees` | zfsrescue/dsl.py:250-350 | in a tree the worklist gives each directory its one path, and agrees with the descent on all they both reach |
| `Dsl.IncompleteMapsCount` | zfsrescue/dsl.py:268-288 | an entry of a readable child map, complete or not, is a child; which names lead where does not depend on completeness |
| `Dsl.MapsAreCounted` | zfsrescue/dsl.py:268-282 | child maps read whole are counted as read, those lost or read in part as lost, each once |

## Left out

- Opening devices, partitions, labels, uberblocks, topology, the command line and the reports: input, output and presentation. A device is its content and the set of positions that no longer read.
- SHA-256, zlib and zstd: foreign code, kept as parameters; only the length check on what they return is modelled.
- Reconstruction under RAIDZ2 and RAIDZ3: the program answers MISSING_DATA when data is missing there (zfsrescue/blockio.py:173), and so does the model. The map, the sizes and the verdict are for any parity.
- BlockIo.PoolReader.ReadDvaPhysical: requires the DVA to be aligned on the sector and psize to be positive; the program raises ValueError there, which `Raidz.RaidzMapAlloc` models.
- BlockIo.PoolReader.ReadBlockAt: requires aligned DVAs and a valid geometry for the same reason (`Readied`).
- Detail messages and `as_dict`: presentation. The sorted list of missing columns is kept as a set.
- EndToEnd.Reading: an exception of `read_block` is a result without data for the layers above, which in the program it would leave.
- Dmu.DmuReader.ReadBp: the medium is one fixed function; a device that answers differently from one read to the next is not modelled, and neither is an exception of the medium.
- Dmu.DmuReader.ReadDnode: requires dnodes per block to be positive, since the program divides by it. `WellFormed` requires a non-negative shift where there are indirect levels, since the program would raise on a negative shift.
- Objects.ObjectByte: requires that no leaf block is longer than the block size of its object; otherwise the blocks of `read_object` do not tile.
- `used_bytes`, spill and bonus contents, and `read_objset`: decoding without branching.
- NvReader.XdrReader.ReadString: text stays bytes; UTF-8 decoding and its replacement characters are not modelled. A double keeps its 64 bits.
- Micro-ZAP blocks, the block loop and the table pointers of `read_zap`: a scan without interaction with what is proved of the leaves.
- Directory and dnode reading of `build_index` (its first two steps): they fill the graph that `Paths` starts from.
- Paths.DatasetIndex.Climb: builds a path as a list of parts, and an error note is a counter; `PathText.PathAsText` is the text of the list, and the root's own text, a single slash, is left out.
- Paths.PathMeaning: speaks of markers as parts; what the text tells is `PathText.TextTells` and `PathText.MarkerInTextIff`.
- Dnodes.ParseDnode: the bytes of the slots themselves (`raw`) are not kept.
- Dsl.NamesOfDirectories: takes the child maps as read (whole, partial or lost) instead of reading them through the DMU; names are lists of parts.
- Dsl.BuildNode: leaves out snapshots, errors and the sorting of children by name, which changes no name.
- ZapLeaf.ParseLeaf: requires the block to hold the header fields; the program raises `struct.error` on less.
- Extract.ExtractFile: the bytes given to the file and to the digest are one sequence; file handles and the digest itself are left out.
- `extraire_noeuds` (temporary files, renames, resuming) and the ratios of `cumuler` and `resume`: operating-system paths and floating point.
