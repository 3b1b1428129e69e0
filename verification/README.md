# A verified model of par2cmdline-turbo

This project models the computing core of par2cmdline-turbo, the program that creates, verifies and repairs files with
PAR1 and PAR2 recovery sets, and proves what that core is for:

- **Repair.** A lost file is solved for by Gaussian elimination over a Galois field and written out chunk by chunk.
  The bytes written are the bytes that were lost, for every chunk size, and the program says exactly when it cannot
  solve.
- **Scanning.** A window slides over a damaged file while its CRC-32 is updated incrementally. The checksum is the CRC
  of the window however it was reached, and the hashes of the whole file come out right whatever the route.
- **The multi-threaded backend.** Caller, transfer thread and workers share staging areas. In every interleaving no
  area is refilled while in use, the threads always come to rest, and then every byte of the output memory is the sum
  over all inputs.
- **Recognising blocks and packets.** A hash table of trees agrees with a linear scan; a scan passes over no block it
  could use, an intact copy ends as a full match, and a scan that ends as one has found all blocks of one file in
  place, with the bytes they should have; the buffered packet search finds what a byte-by-byte search finds.
- **Planning.** Block sizes are least, recovery blocks are partitioned over files, packets tile each file and critical
  packets are repeated evenly.

`dafny verify dfyconfig.toml` checks everything.

## How the model is built

Machine words are lists of bits (`BitWords`), so that shifts and exclusive-or are the operations of polynomial rings
over the two-element field. `BinaryAlgebra` proves the laws of such a ring once for any word type; the CRC (32 bits),
the byte field of PAR1 (8 bits) and the field of PAR2 (16 bits) are instances; `Galois8` and `Gf16Field` show that x
generates all nonzero values of the two fields. Linear algebra is over any field (`LinearAlgebra`); `Galois8` shows
that the program's log tables form one. Products and quotients of sizes are repeated addition and subtraction
(`Arithmetic`, which also shows that they are the machine's).

Objects with state are classes: `FileScan.FileCheckSummer`, `ReedSolomonCode.ReedSolomon`,
`HashIndex.VerificationHashTable`, `PacketScanner.PacketLoader`. Tree nodes live in one list and are named by their
index in it, in load order. The matrices of the coder are two-dimensional arrays. The backend's threads are one state
machine whose actions are the steps between two synchronisation points (`Scheduler`).

Given as parameters: MD5 (any function of the bytes), and in `FileScan` a checksum with the two properties that
`Crc32Scan.CrcAgrees` proves of the CRC. Reads succeed or fail as a parameter says, or succeed. `ScanDataFile.Scan`
drives the checksummer itself, and `Backend` puts the protocol of the threads on the memory that the requests cut up.

Where code and comments disagree the code is modelled. The comment at include/par2/reedsolomon.h:415-416 says that the
matrix is never singular; `Par1Galois.Unsolvable` shows that it is when files 1 and 214 are missing and the recovery
blocks with exponents 1 and 4 are used, and `Par1Galois.TwoMissing` gives the exact condition for any two missing
files. Four more promises hold on a condition that is stated exactly: `pow`, which folds its exponent once, is the
power (`GaloisTables.PowCorrect`, with an input on which it fails in `Par1Galois.PowFails214`); the packet scan ends
with the packets of the plain scan (`PacketScanner.AgreesExactly`, `PacketScanner.WrapExample`); an entry with crc and
hash of the window is found (`FindMatch.FoundExactly`, `FindMatch.MissExample`); and the number of recovery files is
computed without dividing by zero (`RecoveryFiles.ComputeRecoveryFileCount`).

## Model

| member | source | states |
|---|---|---|
| BinaryAlgebra.MulCommutes | src/crc.cpp:44-55 | Multiplication modulo a polynomial is commutative, for any word type whose shift is linear and whose words are sums of powers of x |
| BinaryAlgebra.MulAssociates | src/crc.cpp:44-55 | ... and associative |
| BinaryAlgebra.MulDistributes | src/crc.cpp:44-55 | ... and distributes over exclusive-or on both sides |
| BitWords.Ring32IsRing | src/crc.cpp:44-55 | 32-bit words with the reversed-polynomial shift are such a ring, for every polynomial |
| Crc32.GF32Multiply | src/crc.cpp:44-55 | The 31 rounds and the last half round give the product modulo the polynomial, for all operands |
| Crc32.TableEntry | src/crc.cpp:82-91 | A table entry is its index multiplied by x^8 |
| Crc32.BuildPowers | src/crc.cpp:93-100 | Slot (i + 29) mod 32 of the power table holds x^(2^i) |
| Crc32.BuildTables | src/crc.cpp:78-101 | Both tables are right for every polynomial |
| Crc32.UpdateByteIsFeed | include/par2/crc.h:59-69 | One table lookup is eight rounds of the bitwise register |
| CrcAlgebra.FeedSlide | include/par2/crc.h:80-84 | Moving a window by one byte: the register over bytes 1..n+1 is one step of the register over 0..n plus a term that depends only on the byte that left |
| CrcAlgebra.FeedZeros | src/crc.cpp:122-125 | Feeding n zero bytes is multiplying by x^(8n) |
| CrcAlgebra.ExpLoopCorrect | src/crc.cpp:58-71 | Square-and-multiply over the rotated table, with exponents reduced modulo 2^32 - 1, gives x^(8n) for every n, if x has that period |
| Crc32Period.PeriodHolds | src/crc.cpp:34-39 | For 0xEDB88320 the period of x divides 2^32 - 1, so the rotated table and the reduction are right |
| Ccitt.CcittTable | src/crc.cpp:34-39 | The program's table is valid and its polynomial has that period |
| Crc32Window.CRCExp8 | src/crc.cpp:58-71 | The loop returns x^(8n) for every n |
| Crc32Window.UpdateBlock | include/par2/crc.h:59-69 | The bytewise loop is the bitwise CRC register over the whole buffer |
| Crc32Window.UpdateZeros | src/crc.cpp:122-125 | The constant-time form equals feeding that many zero bytes one at a time |
| Crc32Window.GenerateWindowTable | src/crc.cpp:104-120 | Every entry is the correction for the byte that leaves the window, complement of initial and final value included |
| Crc32Window.SlideCorrect | include/par2/crc.h:80-84 | One slide turns the CRC-32 of bytes [0, n) into that of bytes [1, n + 1), for every window length and content |
| Crc32Scan.CrcAgrees | src/filechecksummer.cpp:312-322 | The CRC-32 slides and extends by zeros as the file checksummer needs |
| Crc32Scan.NumberedAgrees | src/filechecksummer.cpp:312-322 | So does the CRC-32 read as a number, which is how it is compared and looked up |
| Crc32Value.PolynomialValue | src/crc.cpp:34-39 | The polynomial, as a list of bits, is the number 0xEDB88320 |
| Crc32Value.NegatedEnds | include/par2/crc.h:80-99 | For four bytes and more every bit of the CRC is the negation of the bit that the register started from zero has over the string with its first 32 bits negated (section 8.1.1.6.2 of ITU-T V.42) |
| Crc32Value.KnownValue | include/par2/crc.h:59-99 | The CRC-32 of the nine digits from 1 to 9 is 0xCBF43926 |
| FileScan.PaddedBytes | src/filechecksummer.cpp:200-235 | The window at an offset has the bytes of the file from there on and then zeros |
| FileScan.FileCheckSummer.constructor | src/filechecksummer.cpp:39-59 | A new checksummer is at offset 0, has read nothing, and its buffer is two blocks |
| FileScan.FileCheckSummer.Start | src/filechecksummer.cpp:85-102 | Establishes the run invariant `Valid`: buffered bytes are the file's, pointers are in the buffer, the checksum is that of the window, the hash contexts are prefixes of the file; and the combined hasher is in use |
| FileScan.FileCheckSummer.Step | include/par2/filechecksummer.h:156-205 | Keeps `Valid`, moves by one byte, fails without effect at the end of the file |
| FileScan.FileCheckSummer.Jump | src/filechecksummer.cpp:105-167 | Keeps `Valid`, moves by the distance cut to a block and to the file, fails without effect at the end or for distance 0; a jump by a whole block keeps the combined hasher in use |
| FileScan.FileCheckSummer.Slide | include/par2/filechecksummer.h:185-190 | After sliding the checksum is that of the window one byte on, if that window lies inside the file |
| FileScan.FileCheckSummer.MoveBack | include/par2/filechecksummer.h:192-204 | Copying the data to the front of the buffer loses none of it |
| FileScan.FileCheckSummer.Fill | src/filechecksummer.cpp:200-235 | Reading keeps buffer and hashes right, and fills a block, or the whole buffer on a long fill, unless the file ends |
| FileScan.FileCheckSummer.ComputeCurrentChecksum | src/filechecksummer.cpp:170-197 | Checksum and block hash are those of the window padded with zeros, if the window lies inside the file or was reached block by block; a combined hasher has then taken in the file up to the end of the window |
| FileScan.FileCheckSummer.UpdateHashes | src/filechecksummer.cpp:238-270 | The short context has the first 16384 bytes read so far, however a read straddles that mark; the full one has everything once it is in use |
| FileScan.FileCheckSummer.StopHasher | src/filechecksummer.cpp:68-82 | Handing over from the combined hasher to the separate context neither skips nor repeats a byte |
| FileScan.FileCheckSummer.GetFileHashes | src/filechecksummer.cpp:273-294 | Whatever calls led to the end of the file, the hashes are those of the whole file and of its first 16384 bytes |
| FileScan.FileCheckSummer.Hashed | src/filechecksummer.cpp:297-310 | The hash is that of the window padded with zeros, if the window lies inside the file or was reached block by block |
| FileScan.FileCheckSummer.ShortChecksum | src/filechecksummer.cpp:312-322 | The CRC of the first n bytes of the window padded with zeros to a block, for n no larger than the data left |
| FileScan.FileCheckSummer.ShortHash | src/filechecksummer.cpp:324-339 | Likewise for the hash |
| Gauss.GaussElim | include/par2/reedsolomon.h:385-512 | Succeeds if and only if every leading block of the right matrix is nonsingular; every solution of left * x = right * y stays one; on success the first columns of right are unit columns |
| Gauss.ScaleRow | include/par2/reedsolomon.h:441-459 | Dividing from a column on is dividing the whole row, because what is skipped is zero |
| Gauss.ReduceRow | include/par2/reedsolomon.h:469-509 | All three branches of the row reduction subtract a multiple of the pivot row |
| Gauss.SolvedNonsingular | include/par2/reedsolomon.h:426-512 | Solved columns have no nontrivial dependency |
| Gauss.ZeroPivotSingular | include/par2/reedsolomon.h:432-439 | A zero pivot means that the columns up to it are dependent, so giving up is right |
| ReedSolomonCode.RowHolds | include/par2/reedsolomon.h:284-368 | Every row set up by the coder is a true equation between present data and recovery blocks on one side and missing ones on the other |
| ReedSolomonCode.Decoding | include/par2/reedsolomon.h:232-383 | Any matrices reached by row operations whose right side is solved decode: left times inputs is the missing data and the wanted recovery blocks, for all data |
| ReedSolomonCode.Encoding | include/par2/reedsolomon.h:284-383 | With nothing missing the left matrix computes the recovery blocks themselves |
| ReedSolomonCode.BaseValue | src/reedsolomon.cpp:60-87 | The base of file i is i + 1 as a byte |
| ReedSolomonCode.IndicesListed | src/reedsolomon.cpp:60-87 | The list of the files that are present, or missing, holds exactly those, each at the place given by how many of its kind come before it |
| ReedSolomonCode.ExponentsGathered | include/par2/reedsolomon.h:286-340 | The exponents of the present, or wanted, rows are those of exactly these rows in the order in which they were added |
| ReedSolomonCode.ReedSolomon.SetInput | src/reedsolomon.cpp:60-87 | Lists exactly the present and exactly the missing files, each at the place given by how many of its kind come before it |
| ReedSolomonCode.ReedSolomon.SetOutput | include/par2/reedsolomon.h:195-214 | Adds one row and counts it as present or missing |
| ReedSolomonCode.ReedSolomon.SetOutputRange | include/par2/reedsolomon.h:216-228 | Adds a row for each exponent of the range in order |
| ReedSolomonCode.ReedSolomon.BuildLeft | include/par2/reedsolomon.h:270-368 | The rows filled in are those of the equations, present recovery blocks before wanted ones |
| ReedSolomonCode.ReedSolomon.BuildRight | include/par2/reedsolomon.h:275-368 | Likewise for the right matrix |
| ReedSolomonCode.ReedSolomon.Compute | include/par2/reedsolomon.h:232-383 | Returns true if and only if the layout is solvable, and then the left matrix recovers every missing block and computes every wanted recovery block, for all data |
| GaloisTables.BuildTable | include/par2/galois.h:137-152 | If the doubling loop meets every nonzero value, every nonzero value has a logarithm whose power it is; if it meets none twice, the logarithm of power l is l |
| GaloisTables.ReturnsToOne | include/par2/galois.h:137-152 | A doubling loop that meets every nonzero value ends at one |
| GaloisTables.FullOrder | include/par2/galois.h:137-152 | If it does not return to one early it meets every nonzero value |
| GaloisTables.MultiplyCorrect | include/par2/galois.h:168-180 | Adding logarithms is polynomial multiplication, zero included, with all indices in range |
| GaloisTables.DivideCorrect | include/par2/galois.h:206-222 | The quotient times the divisor is the dividend |
| GaloisTables.TableIsField | include/par2/galois.h:168-222 | Table arithmetic satisfies the field laws |
| GaloisTables.VisitsIsField | include/par2/galois.h:137-222 | If the loop, run as often as there are nonzero values, meets them all, then x to the limit is one, logarithm and antilogarithm are inverse to each other and the tables carry a field; for more than one bit nothing else is needed |
| GaloisTables.PowCorrect | include/par2/galois.h:246-262 | For every base and exponent, `pow` is repeated multiplication if and only if the exponent or base is zero or the folded sum is below twice the limit; otherwise it returns the placeholder or reads beyond the table |
| GaloisTables.PowUpToLimit | include/par2/galois.h:246-262 | That holds for every base and every exponent up to the limit |
| GaloisTables.ProductFits | include/par2/galois.h:246-262 | With at most 16 bits and a 16-bit exponent the 32-bit product in `pow` does not overflow |
| Par1Galois.PowFails214 | include/par2/galois.h:246-262 | An input on which `pow` fails: 214 to the 771 is one and the program's tables give zero |
| Galois8.OrderOfX | include/par2/galois.h:338-338 | For generator 0x11D doubling returns to one after 255 steps and not before |
| Galois8.RingVisits | include/par2/galois.h:338-338 | So the doubling loop meets every nonzero byte |
| Galois8.Galois8Table | include/par2/galois.h:137-152 | The program's byte tables are complete, logarithm and antilogarithm are inverse to each other, and they form a field |
| LongMultiply.LongMultiplyTable | include/par2/galois.h:316-336 | Every entry of the big table is the product of its row and column |
| LongMultiply.WordStepBytes | src/reedsolomon.cpp:140-150 | Four bytes at a time is bytewise multiply and add |
| LongMultiply.InternalProcess | src/reedsolomon.cpp:110-165 | Word loop and tail together add factor times source to each byte and touch nothing else |
| DataBlocks.ReadData | src/datablock.cpp:48-83 | Delivers the bytes of the block, zero beyond block and file; fails exactly when it starts past the end of the file |
| DataBlocks.WriteData | src/datablock.cpp:88-113 | Overwrites exactly the part of the buffer that lies in the block; beyond the end the file grows, with zeros in between |
| Par1Repair.SortBlocks | src/par1repairer.cpp:1176-1212 | The block of every present file k is input block number (present files before k), and the missing files are counted |
| Par1Repair.AddVolumes | src/par1repairer.cpp:1220-1247 | The volumes used and the rows of the matrix are in the same order |
| Par1Repair.ComputeRSmatrix | src/par1repairer.cpp:1161-1257 | Succeeds if and only if nothing is missing or the layout is solvable, and then the matrix decodes the blocks in the order they were collected |
| Par1Repair.ColumnsMatch | src/par1repairer.cpp:1161-1257 | Block order and matrix columns agree: byte j of the blocks is the input vector for byte j of the files |
| Par1Repair.ProcessData | src/par1repairer.cpp:1290-1350 | After a chunk, every target is restored up to the end of the chunk |
| Par1Repair.ProcessChunks | src/par1repairer.cpp:205-222 | After all chunks every target is restored in full, for every chunk size |
| Par1Repair.RestoredIsFile | src/par1repairer.cpp:1290-1350 | What the matrix restores from sound blocks is the missing file |
| Par1Repair.Repair | src/par1repairer.cpp:205-222 | Repair succeeds if and only if nothing is missing or the layout is solvable; there are as many targets as missing files, and then for every missing file k, target number (missing files before k) is file k byte for byte, for every chunk size |
| Par1Galois.Coder | include/par2/galois.h:137-152 | The program's tables provide the field of polynomials modulo 0x11D, the powers of bytes and the multiplication table |
| Par1Galois.RepairSet | src/par1repairer.cpp:205-222 | Repair with the program's tables: if each volume with exponent below 255 holds the sum over all files of (base to the exponent) times file modulo 0x11D, then, exactly when the layout is solvable, for every missing file k target number (missing files before k) is file k byte for byte |
| Par1Galois.TwoMissing | include/par2/reedsolomon.h:415-437 | Two missing files can be solved for if and only if the first pivot is nonzero and the two products of powers differ |
| Par1Galois.Unsolvable | include/par2/reedsolomon.h:415-437 | Distinct files 1 and 214 cannot be recovered from the recovery blocks with exponents 1 and 4 |
| KernelTiling.CalcChunkSize | parpar/gf16/controller_cpu.cpp:127-145 | The chunk length is the least multiple of the stride of which the wanted number of chunks make up the slice, and as many chunks are cut as just cover it; wanted are as many of the target length as make up the slice, rounded to the nearest number, or as make up a thread's part if that is over half the target |
| KernelTiling.SizedIs | parpar/gf16/controller_cpu.cpp:127-145 | A chunk length and count chosen like that are what the dispatcher needs |
| KernelTiling.RunKernel | parpar/gf16/controller_cpu.cpp:539-624 | The requests cover every chunk of every output once, write where those cells lie, and are as many as the stored count; without outputs none is sent and no count stored |
| KernelTiling.SendChunk | parpar/gf16/controller_cpu.cpp:581-603 | Splitting the outputs of one chunk over threads covers each output once: thread number k of n has the outputs from k/n to (k+1)/n of all, rounded to the nearest |
| KernelTiling.SendFull | parpar/gf16/controller_cpu.cpp:607-623 | Every thread gets one request for the same number of whole chunks and all outputs, the last chunk possibly short; chunks and outputs are covered once |
| KernelTiling.SplitGrows | parpar/gf16/controller_cpu.cpp:586-599 | With at least as many outputs as threads every thread gets an output |
| KernelTiling.SplitNearest | parpar/gf16/controller_cpu.cpp:586-599 | The split of outputs is the whole number nearest to k * outputs / threads |
| KernelTiling.CellsApart | parpar/gf16/controller_cpu.cpp:488-495 | No two cells share a byte of the output memory |
| KernelTiling.CellsCover | parpar/gf16/controller_cpu.cpp:488-495 | Every byte of the output memory lies in a cell |
| KernelTiling.WrittenOnce | parpar/gf16/controller_cpu.cpp:488-623 | Exactly one request writes each byte of the output memory |
| Scheduler.ReachableInv | parpar/gf16/controller_cpu.cpp:237-331 | Every state of every run satisfies the protocol invariant |
| Scheduler.NoRefill | parpar/gf16/controller_cpu.cpp:278-331 | Neither the caller nor the transfer thread writes to an area with a request outstanding |
| Scheduler.ReleasedOnce | parpar/gf16/controller_cpu.cpp:516-534 | An area is released only when all tiles of its batch are done, by one worker, once for each batch |
| Scheduler.ComputeAdds | parpar/gf16/controller_cpu.cpp:463-534 | A worker that takes a request adds the inputs of the batch its tile needs next, starting from zero with the first batch, and touches no other tile |
| Scheduler.RunReceives | parpar/gf16/controller_cpu.cpp:290-331 | No input is lost or repeated on the way into batches |
| Scheduler.Result | parpar/gf16/controller_cpu.cpp:463-624 | At rest every area is free and every tile is the sum over all inputs added, whatever the memory held before |
| Scheduler.Progress | parpar/gf16/controller_cpu.cpp:237-331 | Unless everything is at rest some thread can act, and at rest the caller can add |
| Scheduler.RunSettles | parpar/gf16/controller_cpu.cpp:237-331 | Without the caller no run is longer than a bound that every step of a thread lowers |
| Scheduler.Rests | parpar/gf16/controller_cpu.cpp:237-331 | From every state of every run the threads come to rest |
| Backend.Dispatch | parpar/gf16/controller_cpu.cpp:539-624 | The requests of a batch cut up one output memory, and the stored count is the number of requests the workers count down from |
| Backend.ComputeWrites | parpar/gf16/controller_cpu.cpp:488-509 | Computing a request changes exactly the addresses that it writes, by adding the terms of the batch's inputs for their output and position, or storing them if it is the first batch |
| Backend.OthersKeep | parpar/gf16/controller_cpu.cpp:237-331 | No other step changes the output memory |
| Backend.OutputIsSum | parpar/gf16/controller_cpu.cpp:463-624 | In every run, at rest, every byte of the one output memory is the sum over all inputs for its output and its position in the slice, whatever it held before |
| Gf16Lookup.TwiceLanes2 | parpar/gf16/gf16_lookup.c:6-6 | Doubling two equal 16-bit lanes in one word doubles each lane in the field |
| Gf16Lookup.TwiceLanes4 | parpar/gf16/gf16_lookup.c:7-14 | Likewise for four lanes |
| Gf16Lookup.TwiceLower2 | parpar/gf16/gf16_lookup.c:23-29 | Doubling in the lower halves of two 32-bit lanes |
| Gf16Lookup.BuildTable1 | parpar/gf16/gf16_lookup.c:488-500 | Entry v of the first table is the coefficient times the 11-bit value v |
| Gf16Lookup.BuildTable2 | parpar/gf16/gf16_lookup.c:502-514 | Entry of the second table holds both products for a pair of 5-bit values |
| Gf16Lookup.Calc2Table | parpar/gf16/gf16_lookup.c:487-514 | Both tables are right for every coefficient |
| Gf16Lookup.PrepareIs | parpar/gf16/gf16_lookup.c:641-650 | Preparing a pair of words moves the 11 low bits of both in front of the 5 high bits of both |
| Gf16Lookup.HalfProductIs | parpar/gf16/gf16_lookup.c:556-566 | Three lookups on a prepared pair give both field products |
| Gf16Lookup.WordProductIs | parpar/gf16/gf16_lookup.c:556-566 | Likewise for four words in 64 bits |
| Gf16Lookup.AccumulatedOne | parpar/gf16/gf16_lookup.c:543-568 | One region adds to each 16-bit word the field product of coefficient and source word; no region adds nothing |
| Gf16Lookup.AccumulatedLinear | parpar/gf16/gf16_lookup.c:543-568 | The sum over all regions is linear in every coefficient |
| Gf16Lookup.MulAddMultiPacked | parpar/gf16/gf16_lookup.c:543-568 | For every length, number of regions and coefficients, each destination word gets the field sum of coefficient times source added |
| Gf16Field.OrderOfX | parpar/gf16/gf16_lookup.c:6-29 | For 0x1100B doubling returns to one after 65535 steps and not before |
| Gf16Field.Quotient | parpar/gf16/gf16_lookup.c:6-29 | So the products that the kernels add up are those of a field: for every divisor but zero there is exactly one quotient |
| HashIndex.TreeInsert | include/par2/verificationhashtable.h:165-189 | Inserting a new key changes the search for that key only |
| HashIndex.TreeInsertOrder | include/par2/verificationhashtable.h:165-189 | ... and keeps the tree ordered |
| HashIndex.ChainInsert | include/par2/verificationhashtable.h:183-188 | An equal key goes to the end of its chain |
| HashIndex.InsertKeeps | include/par2/verificationhashtable.h:165-189 | After every insertion the index still lists, for every key, what a linear scan in load order lists |
| HashIndex.TwoStages | include/par2/verificationhashtable.h:191-235 | Searching by crc and then, below the node found, by hash is searching by both |
| HashIndex.SearchCrc | include/par2/verificationhashtable.h:192-211 | The loop finds the topmost node with the crc, or none |
| HashIndex.SearchHash | include/par2/verificationhashtable.h:214-235 | The loop finds the node with that crc and the hash, or none |
| HashIndex.BucketIsMask | include/par2/verificationhashtable.h:281-287 | Masking a crc with a power of two less one is the remainder by that power |
| HashIndex.VerificationHashTable.SetLimit | src/verificationhashtable.cpp:56-70 | An empty index with a power of two of buckets between 256 and 65536, enough for the limit if possible and fewer than twice the limit if more than 256 |
| HashIndex.VerificationHashTable.Insert | include/par2/verificationhashtable.h:165-189 | Keeps the index right for the new list of entries |
| HashIndex.VerificationHashTable.Load | src/verificationhashtable.cpp:73-112 | Adds one entry for each block of a file in order, linked to its successor, and keeps the index right |
| FindMatch.Lookup | include/par2/verificationhashtable.h:353-367 | Succeeds if and only if some loaded entry has the pair, and its chain lists all such entries in load order |
| FindMatch.SingleRule | include/par2/verificationhashtable.h:368-428 | A single entry is returned exactly when its file is not complete, its length is right, and it is a first block at the start of the file, or not located, or the suggestion located in another disk file; it is a duplicate exactly when its file is complete or it is refused for being located |
| FindMatch.SuggestionRule | include/par2/verificationhashtable.h:311-351 | The suggestion is taken exactly when crc and hash of the window, cut to its length if it is a last block, are its own and it is a last block or not located; and which hash is searched for otherwise |
| FindMatch.SeveralRule | include/par2/verificationhashtable.h:430-480 | Among several entries: none exactly if none can be used, the first usable one of the preferred file if there is one, otherwise the first usable one; usable means not located and, near the end of the file, as long as what is left |
| FindMatch.NothingUsable | include/par2/verificationhashtable.h:353-480 | If nothing is returned, every entry with the pair looked up is located, has the wrong length for the end of the file, or belongs to a complete file |
| FindMatch.FoundExactly | include/par2/verificationhashtable.h:311-367 | A usable entry that alone has the crc of the window, and its hash too, is found if and only if not (a last block is expected, the cut window has its crc, and the hash of the cut window is not that of the window) |
| FindMatch.MissExample | include/par2/verificationhashtable.h:311-367 | An input on which it is not found |
| FindMatch.Match | include/par2/verificationhashtable.h:299-480 | The match is the suggestion if it is borne out, otherwise the choice among what a linear scan finds |
| ScanDataFile.BlockLength | src/par2repairersourcefile.cpp:123-149 | Every block of a file is whole except possibly the last, and none is empty |
| ScanDataFile.LoadedSequenced | src/verificationhashtable.cpp:87-111 | Entries of a file follow one another block by block |
| ScanDataFile.LoadedDescribed | src/par2repairersourcefile.cpp:123-149 | Loading a file whose packets agree on its block count keeps every entry at a block its file has, with the length set for that block |
| ScanDataFile.DescribedLengths | src/par2repairersourcefile.cpp:123-149 | Then blocks that another one follows are whole, and none is empty |
| ScanDataFile.Look | include/par2/verificationhashtable.h:299-480 | Whatever FindMatch returns is borne out by crc and hash of the window, or of the window cut to a last block |
| ScanDataFile.View | src/filechecksummer.cpp:297-339 | What the checksummer reports is crc and hash of the bytes in its window, and of the window cut to n bytes; the block length is what is left of the file up to a block, and the block is short exactly when less than a block is left |
| ScanDataFile.StaysOnTrack | src/par2repairer.cpp:1788-1852 | As long as matches come in order the next block is expected at its own offset |
| ScanDataFile.MissBarren | src/par2repairer.cpp:1750-1890 | Where nothing is found in a window inside the file, and no expected last block misdirects the search, every entry with crc and hash of these bytes is located, found before, or of a complete file |
| ScanDataFile.FollowingFinds | src/par2repairer.cpp:1750-1890 | In an intact copy the blocks are found one after another, each where it is expected |
| ScanDataFile.SizesAgree | src/par2repairer.cpp:1935-1945 | If the size agrees, each block of the scanned file, padded with zeros, has the crc and hash of the entry matched to it |
| ScanDataFile.Scan | src/par2repairer.cpp:1710-1945 | Over any file and any read failures: ends; matches advance and are borne out by the bytes of windows inside the file; a full match has found all blocks of one source file and no others, block i at i times the block size with the crc and hash its bytes have, and size and hashes of the whole file agree. If it succeeds: without skipping data or only renaming, every offset lies in the stretch of a match, or no usable entry has crc and hash of the block there, except where an expected last block misdirects the search; and in any mode an intact copy of a source file, not yet located and told apart by its first block or looked for, ends as a full match with that file |
| BlockSize.CountIsSourceBlocks | src/commandline.cpp:1296-1300 | Counting in units of four bytes gives the creator's number of source blocks |
| BlockSize.CountFalls | src/commandline.cpp:1292-1319 | Larger blocks never need more of them, so bisection is sound |
| BlockSize.TooSmall | src/commandline.cpp:1284-1286 | Below the lower bound the count is too large |
| BlockSize.LargeEnough | src/commandline.cpp:1284-1287 | The upper bound is large enough |
| BlockSize.Search | src/commandline.cpp:1284-1319 | The bisection ends with the least size whose count is not above the requested one |
| BlockSize.ComputeBlockSize | src/commandline.cpp:1241-1338 | Accepted sizes are multiples of four with no more source blocks than requested; with more blocks than files the size is the least such multiple; with as many blocks as files it is the largest file size rounded up to a multiple of four |
| BlockSize.ComputeBlockCount | src/par2creator.cpp:296-322 | Accepts exactly the positive multiples of four with at most 32768 source blocks |
| RecoveryFiles.ComputeRecoveryFileCount | src/libpar2.cpp:130-202 | Fails exactly for an unknown scheme or more files than blocks; divides by zero exactly in the limited scheme with recovery blocks and only empty source files; otherwise the number of binary digits of the block count unless a number was asked for, or whole files plus the digits of the rest |
| RecoveryFiles.BitLengthBounds | src/libpar2.cpp:164-167 | The shift loop counts floor(log2 n) + 1 rounds |
| RecoveryFiles.AllocateUniform | src/par2creator.cpp:504-518 | Contiguous ranges whose sizes differ by at most one, larger ones first |
| RecoveryFiles.AllocateVariable | src/par2creator.cpp:520-545 | Doubling shares from the least power of two with which everything fits |
| RecoveryFiles.AllocateLimited | src/par2creator.cpp:547-586 | No file holds more blocks than the largest source file needs |
| RecoveryFiles.Allocate | src/par2creator.cpp:491-592 | In every scheme, unless the file count failed, the files' ranges follow one another and make up all recovery blocks. Uniform: as many files as asked for, or as the block count has binary digits, with sizes that differ by at most one, larger ones first. Variable: as many, file i holding low * 2^i blocks cut to what is left, low the least power of two with which everything fits. Limited: blocks / largest - 1 files of the largest source file's size last, and before them 1, 2, 4, ... blocks of the rest, as many files as it has binary digits |
| RecoveryFiles.InOneFile | src/par2creator.cpp:491-592 | Every exponent lies in exactly one file |
| PacketLayout.AllAccounted | src/par2creator.cpp:689-728 | The accumulator ends at zero and every critical packet has been placed equally often |
| PacketLayout.LayOut | src/par2creator.cpp:664-742 | Packets of the right sizes tile the file; each critical packet occurs floor(log2 count) + 1 times, or once without recovery packets; before recovery packet e lie e/count of all critical packets, rounded down; the creator packet comes last |
| PacketLayout.LayOutFiles | src/par2creator.cpp:652-742 | Recovery packet i carries exponent first + i across all files |
| PacketScanner.PacketsApart | src/par2repairer.cpp:467-625 | The plain scan lists packets in order without overlap |
| PacketScanner.MagicText | src/par2fileformat.cpp:25-25 | The magic value is the text PAR2, zero, PKT |
| PacketScanner.HeaderFields | include/par2/par2fileformat.h:70-78 | A header is magic, length, hash, set id and type in that order, of 8, 8, 16, 16 and 16 bytes, and the length is read low byte first |
| PacketScanner.Weights | include/par2/par2fileformat.h:74-74 | Byte i of an eight-byte number counts 256^i |
| PacketScanner.FileVerificationName | src/par2fileformat.cpp:26-26 | A packet is of this kind exactly if its type is PAR 2.0, zero, IFSC, padded with zeros |
| PacketScanner.FileDescriptionName | src/par2fileformat.cpp:27-27 | A packet is of this kind exactly if its type is PAR 2.0, zero, FileDesc |
| PacketScanner.MainPacketName | src/par2fileformat.cpp:28-28 | A packet is of this kind exactly if its type is PAR 2.0, zero, Main, padded with zeros |
| PacketScanner.RecoverySliceName | src/par2fileformat.cpp:29-29 | A packet is of this kind exactly if its type is PAR 2.0, zero, RecvSlic |
| PacketScanner.CreatorPacketName | src/par2fileformat.cpp:30-30 | A packet is of this kind exactly if its type is PAR 2.0, zero, Creator, padded with zeros |
| PacketScanner.PacketsComplete | src/par2repairer.cpp:467-625 | A packet is missed only if it starts inside one that was listed |
| PacketScanner.LaidOutIsFound | src/par2repairer.cpp:467-625 | In a file written as laid out by the creator the scan finds exactly the packets that were placed, in order |
| PacketScanner.FindMagic | src/par2repairer.cpp:485-524 | The buffered search stops at the next magic value and misses none across buffer ends |
| PacketScanner.HashPacket | src/par2repairer.cpp:539-571 | Hashing a buffer at a time is hashing everything from the set id up to the limit, or to the end of the header if the limit lies before it |
| PacketScanner.Next | src/par2repairer.cpp:471-622 | One round, with 64-bit arithmetic: goes to the next magic value and takes what lies there if it is a packet or its length wraps around to a position in the file and the rest of the header has the hash |
| PacketScanner.RoundAgrees | src/par2repairer.cpp:471-622 | A round that meets no wrapping length advances and takes what the plain scan takes |
| PacketScanner.RoundWraps | src/par2repairer.cpp:531-622 | A round that meets one takes what is no packet and goes back |
| PacketScanner.WrapExample | src/par2repairer.cpp:531-622 | An input on which this happens: four bytes into a file a header whose length field is 2^64 - 4 |
| PacketScanner.AgreesExactly | src/par2repairer.cpp:467-625 | For every content the program comes to an end with exactly the packets of the plain scan if and only if the plain scan meets no length that wraps |
| PacketScanner.PacketLoader.LoadPacketsFromFile | src/par2repairer.cpp:467-625 | For every content without such a length and every buffer size, exactly the packets of the plain scan are found in its order, and those of a known kind in the set of the first packet ever found are loaded |

## Left out

- FileScan.FileCheckSummer.ComputeCurrentChecksum: says nothing of a window that passes the end of the file once the combined hasher is gone, because the program does not keep zeros there in every state.
- FileScan.FileCheckSummer.Hashed: likewise.
- FileScan.FileCheckSummer.ShortChecksum: stated for n no larger than the data left in the file, for the same reason.
- FileScan.FileCheckSummer.ShortHash: likewise.
- KernelTiling.RunKernel: the floating-point split of outputs is exact rounding to the nearest whole number.
- Scheduler.Result: memory ordering is sequential consistency, computing one request is one step, and `dummyInput`, `fillInput` and reading outputs back are not actions.
- HashIndex.VerificationHashTable.Load: hashes are numbers; nodes are list entries rather than heap objects.
- ScanDataFile.Scan: the run is not cancelled; counting of duplicates and progress are left out; which stretches are skipped when data is skipped is not stated, nor which entries have crc and hash of a block that passes the end of the file, for the reason given at `ComputeCurrentChecksum`; that other copies than those described do not end as a full match is not claimed.
- RecoveryFiles.AllocateVariable: numbers are unbounded; the program accepts at most 31 files, so its shifts stay within 32 bits.
- PacketScanner.Next: the file is at least a header shorter than 2^64 bytes, and reads succeed.
- PacketScanner.PacketLoader.LoadPacketsFromFile: excludes the files of which `PacketScanner.AgreesExactly` shows that the program does not end with the packets of the plain scan; what the individual loaders do with a packet is not modelled.
- Par1Repair.Repair: file lists, checksums of volumes, renaming and the verification after repair are not part of this model.
- Solvability of larger PAR1 layouts in closed form: beyond two missing files the condition is stated as nonsingular leading blocks.
- MD5, the combined hasher and the CRC of whole blocks (`CRC32_Calc`) are given functions.
- SIMD and OpenCL backends, the three-table and byte-table lookup kernels, the 32-bit variants of the packed kernel, and the GF(2^16) matrix of the backend.
- The default block-size choice (src/commandline.cpp:1198-1219), redundancy and option parsing.
- Disk access, file names, packet structures beyond the header, UTF-8 and platform adapters, logging.
