# Verified models of the node's core data structures and codecs

This project models the parts of the node whose correctness rests on invariants that no single function
shows, and proves those invariants and the laws the code relies on:

- the peer address manager: its tables, every operation on them, and its file (`AddrMan*.dfy`)
- the stack of write-back caches of unspent outputs, and the records they are stored as (`Coins*.dfy`)
- the queue on which one master and any number of workers run script checks (`CheckQueue.dfy`)
- 256-bit arithmetic on 32-bit limbs, compact targets and the work of a block (`Arith*.dfy`)
- the block tree with its skip pointers, the active chain and block locators (`Chain*.dfy`)
- the rolling bloom filter (`RollingBloom.dfy`)
- Base58, with and without checksum (`Base58*.dfy`)
- compact blocks: announcement, reconstruction from the memory pool, index codec (`CompactBlock*.dfy`)
- BLAKE: buffering, counters and padding around an uninterpreted compression function (`Blake*.dfy`)

Code that updates an object or an array is modelled as a class or a method on arrays, and each such method is
proved equal to a function on values; the properties are then lemmas about these functions. The address
manager, the caches and the check queue also have state machines, and what is said of them is said of every
state of every run. Where a law does not hold of the code for all inputs, the project gives an input
(`AddrManLoad.LoadTwice`, `CoinsRuns.OldOpenedAsNew`, `CoinsRuns.SecondCoinbase`, `CoinsRuns.CoinstakeLost`,
`CoinsRuns.VersionLost`, `CompactBlockObject.FirstReplaced`, `CompactBlockObject.EndlessSearch`,
`CompactBlockCodec.LargestFirst`) and the exact condition under which the law holds (`AddrManLoad.LoadInv`,
`CoinsRuns.RunKeeps`, `CoinsRuns.RunUsage`, `CoinsProofs.FlushExact`, `CompactBlockObject.ReliableExactly`,
`CompactBlock.SearchesEndExactly`, `CompactBlockCodec.DecodedIncreasing`).

Hash functions, clocks, random draws, the public-key library and the validity check of blocks are parameters.
`dafny verify dfyconfig.toml` checks the whole project.

## Model

| member | source | states |
|---|---|---|
| AddrManRuns.RunInv | src/addrman.cpp:88-521 | From a fresh manager, after any sequence of operations with positive success times and non-negative attempt times, every clause of `Check_` holds: both tables, the address index and the random order are consistent with the entries, every reference count is exact, and so are both counters. |
| AddrManRuns.StepInv | src/addrman.cpp:387-461 | Each of the six operations keeps the invariant. |
| AddrManRuns.GoodPromotes | src/addrman.cpp:197-247 | A success on a known entry that is not tried always moves it to its tried slot; the bail-out for an entry found in no bucket is never taken; an evicted entry goes back to the new table. |
| AddrManRuns.GoodInv | src/addrman.cpp:197-247 | A success keeps the invariant if and only if its time is positive or its service is unknown. |
| AddrManRuns.AttemptInv | src/addrman.cpp:317-337 | An attempt keeps the invariant if and only if its time is not negative or its service is unknown. |
| AddrManRuns.AddUnknown | src/addrman.cpp:249-315 | A new routable address ends up in the index if and only if its slot is not held by a healthy entry with no other reference; the result says it was new even when it was turned away; the invariant holds afterwards. |
| AddrManRuns.AddKnown | src/addrman.cpp:249-315 | Announcing a known address keeps the invariant and the entry, and is not reported as new. |
| AddrManRuns.AlwaysInABucket | src/addrman.cpp:225-241 | The search over the new buckets finds exactly the references of an entry that is not tried, and there is one. |
| AddrManProofs.MakeTriedCore | src/addrman.cpp:149-195 | Moving an entry to the tried table, with or without an eviction, leaves all tables consistent. |
| AddrManObject.AddrMan.constructor | src/addrman.h:474-477 | A fresh object stands for the empty tables with its key. |
| AddrManObject.AddrMan.SwapRandom | src/addrman.cpp:100-118 | The object's new tables are those of the swap in the random order, with both stored positions updated. |
| AddrManObject.AddrMan.Delete | src/addrman.cpp:120-132 | The object's new tables are those without the entry, which must be in no bucket. |
| AddrManObject.AddrMan.ClearNew | src/addrman.cpp:134-147 | Clearing a slot releases one reference and deletes the entry with its last one. |
| AddrManObject.AddrMan.FindBucket | src/addrman.cpp:225-236 | The rotated search fails if and only if no new bucket holds the entry. |
| AddrManObject.AddrMan.MakeTried | src/addrman.cpp:149-195 | The object performs the promotion of the state model: all references dropped, the occupant of the tried slot evicted to its new slot, the entry put in place. |
| AddrManObject.AddrMan.Good | src/addrman.cpp:197-247 | The object performs the success step of the state model. |
| AddrManObject.AddrMan.Add | src/addrman.cpp:249-315 | The object performs the announcement step of the state model, with its result. |
| AddrManObject.AddrMan.Attempt | src/addrman.cpp:317-337 | The object performs the attempt step of the state model. |
| AddrManObject.AddrMan.GetAddr | src/addrman.cpp:464-483 | The selection holds distinct entries, none terrible, at most the limit, and all that are not terrible when there are fewer; only the random order changes, consistently. |
| AddrManObject.AddrMan.Connected | src/addrman.cpp:485-503 | The object performs the connection step of the state model. |
| AddrManObject.AddrMan.SetServices | src/addrman.cpp:505-521 | The object performs the services step of the state model. |
| AddrManObject.AddrMan.Perform | src/addrman.cpp:88-521 | Every operation takes an object with the invariant to one with the invariant, by one step of the state machine. |
| AddrManLoad.LoadInv | src/addrman.h:342-446 | Every accepted file, whatever its version, bucket count and bucket lists, loads into consistent tables if and only if all entries that share their address with another ended up in no bucket and were pruned; with sound times and key the same condition decides the whole invariant. |
| AddrManLoad.LoadTables | src/addrman.h:342-446 | Every accepted file loads into tables of which all but the address index is consistent, and exactly the entries that ended up in no bucket are pruned. |
| AddrManLoad.DistinctLoads | src/addrman.h:342-446 | A file in which no address is recorded twice meets that condition. |
| AddrManLoad.LoadTwice | src/addrman.h:371-438 | A file with one entry recorded twice: without usable bucket lists, pruning the second takes the address of the first out of the index and the tables are inconsistent; with empty bucket lists both are pruned and they are consistent. |
| AddrManRoundTrip.RoundTrip | src/addrman.h:292-446 | The file written from consistent tables is accepted, loses and prunes nothing, and loads into the same tables up to one renumbering of the entries, with the invariant. |
| AddrManFile.Serialize | src/addrman.h:292-340 | Writing the object gives the file of the state model; the assertions on the counts hold. |
| AddrManFile.Unserialize | src/addrman.h:342-446 | Reading succeeds if and only if the file passes the checks, and then an object that held no entries holds the tables the state model loads. |
| AddrManFile.ClearedTables | src/addrman.h:453-472 | The tables that clearing leaves are consistent if and only if the object held no entries, since the two maps are not emptied. |
| AddrManFile.Clear | src/addrman.h:453-472 | Clearing empties both grids, the random order and the counters, and leaves the two maps as they were. |
| CoinsRuns.RunKeeps | src/coins.cpp:81-236 | Over every run of a stack of caches of any depth over a database of records: clean entries equal what their base says, fresh entries are unknown to it, and fetching, uncaching and flushing leave the meaning of every view alone, if and only if only coinbases or transactions without unspent outputs in the base were opened as new and no coins with a negative version or height or a spent output at the end were written to the database. Coins are compared as `operator==` does, which does not look at `fCoinStake`. |
| CoinsRuns.RunUsage | src/coins.cpp:81-236 | Over every run the cached memory usage is exact at every state if and only if no entry that counts for something was emptied to be opened as new. |
| CoinsRuns.RunHaveCoins | src/coins.cpp:153-160 | Over every run over a database of trimmed records, `HaveCoins` is true exactly for transactions with an available output, whenever no handle is open. |
| CoinsRuns.ApplyMeaning | src/coins.cpp:81-236 | What each operation does to the plain map from transactions to unspent outputs: fetching, uncaching, opening an entry and flushing to a cache leave it alone; flushing to the database leaves what the record keeps of each dirty entry; only the transaction of the handle changes. |
| CoinsRuns.OldOpenedAsNew | src/coins.cpp:129-142 | An input for which the invariant fails: a transaction that is no coinbase, opened as new over unspent outputs of the base; once closed as spent, the old outputs are visible again. |
| CoinsRuns.SecondCoinbase | src/coins.cpp:129-142 | A run from an empty database after which the usage is not exact: a second coinbase over a cached one; the entries stay right. |
| CoinsRuns.CoinstakeLost | src/coins.h:189-250 | A run from an empty database: a coinstake that is flushed comes back without its flag. |
| CoinsRuns.VersionLost | src/coins.h:189-250 | A run from an empty database: coins of version -1 that are flushed come back with version 127. |
| CoinsRuns.VersionLostBelow | src/coins.cpp:222-227 | A run after which the invariant fails: a cache has fetched coins of negative version, and the cache below it is flushed to the database. |
| CoinsProofs.ModifyNewInv | src/coins.cpp:133-142 | Opening an entry as new keeps the entries right if and only if it is a coinbase or the base has no unspent output for it. |
| CoinsProofs.ModifyNewCounts | src/coins.cpp:133-142 | Opening an entry as new keeps the usage exact if and only if the emptied entry counted for nothing. |
| CoinsProofs.ModifyInv | src/coins.cpp:108-127 | Opening an entry changes neither what the stack means nor the invariant. |
| CoinsProofs.CloseInv | src/coins.cpp:311-323 | Closing the handle leaves the cleaned-up coins visible, or nothing if all is spent, and nothing else changes. |
| CoinsProofs.FetchInv | src/coins.cpp:81-97 | Fetching keeps invariant and meaning at every depth. |
| CoinsProofs.FetchCounts | src/coins.cpp:81-97 | After fetching, the usage is exact at every depth if and only if it was before. |
| CoinsProofs.UncacheInv | src/coins.cpp:229-236 | Dropping an unmodified entry keeps invariant and meaning. |
| CoinsProofs.BatchWriteInv | src/coins.cpp:177-220 | Writing a child's entries keeps the parent's invariant, and makes the parent answer as the child did if and only if the parent is a cache or its records keep every dirty entry with an unspent output. |
| CoinsProofs.FlushInv | src/coins.cpp:222-227 | After a flush the base and the emptied cache mean the same; it is what the cache meant if and only if the base is a cache or its records keep every dirty entry with an unspent output. |
| CoinsProofs.FlushExact | src/coins.h:189-250 | A flush to the database leaves every coin as it was, `fCoinStake` included, if and only if no dirty entry with an unspent output is a coinstake, has a negative version or height, or has a spent output at the end. |
| CoinsProofs.CleanupKeeps | src/coins.h:119-124 | Cleaning up removes spent outputs at the end only, and leaves none there; no available output is lost. |
| CoinsCacheObject.CoinsDb.BatchWrite | src/txdb.cpp:56-77 | Whatever the order of the entries, the database becomes the one that holds what the records of the dirty entries keep, without the pruned ones. |
| CoinsCacheObject.CoinsViewCache.BatchWrite | src/coins.cpp:177-220 | Whatever the order of the entries, the cache becomes that of the state model, with its usage. |
| CoinsCacheObject.CoinsViewCache.FetchCoins | src/coins.cpp:81-97 | The object answers as its stack means, and loads the coins into every cache on the way. |
| CoinsCacheObject.CoinsViewCache.ModifyCoins | src/coins.cpp:108-127 | The object opens an entry as in the state model. |
| CoinsCacheObject.CoinsViewCache.ModifyNewCoins | src/coins.cpp:133-142 | The object opens an emptied entry as in the state model. |
| CoinsCacheObject.CoinsViewCache.CloseModifier | src/coins.cpp:311-323 | The object closes its handle as in the state model. |
| CoinsCacheObject.CoinsViewCache.FlushCoins | src/coins.cpp:222-227 | The object writes itself to its base and empties itself as in the state model. |
| CoinsRecord.CoinsRoundTrip | src/coins.h:189-250 | The record of any coins that are not all spent, followed by any bytes, is read back as the coins without flag and without spent outputs at the end, a negative version or height being taken modulo 128; that is the coins themselves if and only if they have none of these. |
| CoinsRecord.ReadTrimmed | src/coins.h:218-250 | Whatever is read from a record has no spent output at its end. |
| CoinsRecord.MaskRoundTrip | src/coins.cpp:20-36 | The availability mask, counted in nonzero bytes, is recovered. |
| CoinsRecord.SomethingAvailable | src/coins.h:189-199 | The assertion of the writer holds, and the header code is never negative. |
| CoinsStream.CalcMaskSize | src/coins.cpp:20-36 | The two counts are the number of mask bytes up to the last used one, and of those that are not zero. |
| CoinsStream.Serialize | src/coins.h:189-216 | The bytes written are exactly the record, also of coins with a negative version or with spent outputs at the end. |
| CoinsStream.GetSerializeSize | src/coins.h:166-187 | The size announced is the length of the record, for the same coins. |
| CoinsStream.Unserialize | src/coins.h:218-250 | Reading succeeds exactly on the records of the specification, in which variable-length integers wrap at the width of their type, and consumes exactly them. |
| CoinsCodec.VarIntRoundTrip | src/serialize.h:343-384 | Every integer below the width of its type is recovered from its variable-length form followed by any bytes. |
| CoinsCodec.VarIntLength | src/serialize.h:343-370 | An integer of so many bits fits the buffer reserved for it. |
| CoinsStream.WriteVarInt | src/serialize.h:356-370 | The loop over the fixed buffer writes the variable-length form; of a negative integer, the one byte of its low seven bits. |
| CoinsStream.ReadVarInteger | src/serialize.h:372-384 | Reading accepts exactly what the specification accepts and wraps at the width of the type as it does. |
| CoinsCodec.AmountRoundTrip | src/compressor.cpp:133-185 | Decompressing a compressed amount gives the amount, for every amount. |
| CoinsCodec.CompressedRoundTrip | src/compressor.cpp:133-185 | Compression is onto: every code is the compressed form of the amount it decompresses to. |
| CoinsCodec.CompressedBound | src/compressor.cpp:142-159 | A compressed amount is at most nine times the amount, so that it does not overflow. |
| CoinsCodec.ScriptRoundTrip | src/compressor.cpp:48-131 | Every script that is not too long is recovered from its short or long form. |
| CheckQueue.WaitVerdict | src/checkqueue.h:69-143 | For any number of threads and any interleaving, every wait returns the conjunction of exactly the checks added since the previous one returned: no failure is lost and none leaks into the next round. |
| CheckQueue.RunInv | src/checkqueue.h:69-158 | Every state of every run satisfies the counting invariant, and the checks on record are those added since the last verdict. |
| CheckQueue.IdleBetweenRounds | src/checkqueue.h:164-191 | Between rounds the queue reports that it is idle, so that the assertion of a new controller never fails. |
| CheckQueue.MasterWillBeWoken | src/checkqueue.h:69-99 | If the master waits without having been notified, a worker holds a batch: its wake-up is not lost. |
| CheckQueue.AlwaysProgress | src/checkqueue.h:69-127 | While the master is in its wait, some thread can take a step that is not a spurious wake-up. |
| CheckQueue.WorkBound | src/checkqueue.h:69-127 | Over any run without additions, the number of checks run and batches finished is bounded by the work that was there at the start. |
| CheckQueue.BatchCountInRange | src/checkqueue.h:105-117 | A batch has at least one check and no more than there are. |
| ArithLimbs.AddAssign | src/arith_uint256.h:135-145 | Limb-wise addition is addition modulo two to the width. |
| ArithLimbs.SubAssign | src/arith_uint256.h:147-151 | Subtraction by adding the negation is subtraction modulo two to the width. |
| ArithLimbs.MulAssign | src/arith_uint256.cpp:68-81 | The truncated schoolbook product of two objects is the product modulo two to the width; a number multiplied by itself in place becomes zero. |
| ArithLimbs.ShiftLeft | src/arith_uint256.cpp:22-36 | Shifting limbs left is multiplication by a power of two modulo two to the width, for any distance. |
| ArithLimbs.ShiftRight | src/arith_uint256.cpp:39-53 | Shifting limbs right is division by a power of two, for any distance. |
| ArithDivide.DivAssign | src/arith_uint256.cpp:84-107 | Shift-and-subtract division gives the quotient, and reports division by zero exactly when the divisor is zero. |
| ArithDivide.CompareTo | src/arith_uint256.cpp:110-119 | The sign of the comparison is that of the difference of the values. |
| ArithDivide.Bits | src/arith_uint256.cpp:172-184 | The result is the bit length of the value. |
| ArithCompact.SetCompact | src/arith_uint256.cpp:204-222 | The value, the sign report and the overflow report are those of mantissa times 256 to the exponent minus three, for all 32-bit inputs. |
| ArithCompact.GetCompact | src/arith_uint256.cpp:235-256 | The compact form is the length in bytes and the leading bytes, with the sign of a nonzero number; both assertions hold. |
| ArithCompact.CompactSigned | src/arith_uint256.cpp:204-256 | Reading back the compact form that `GetCompact` gives for any number and sign: the number with its low-order bytes cleared, no overflow, and the sign unless the number is zero. |
| ArithCompact.CompactRoundTrip | src/arith_uint256.cpp:204-256 | The value part of that round trip, for numbers without sign. |
| ArithCompact.CompactIdempotent | src/arith_uint256.cpp:204-256 | The round trip never increases a number and is idempotent. |
| ArithCompact.CompactMonotone | src/arith_uint256.cpp:235-256 | Compact forms are ordered as the numbers they come from. |
| ArithCompact.GetBlockProof | src/chain.cpp:115-128 | The work of a block is two to the 256 divided by its target plus one, computed without ever needing 257 bits; zero for a negative, zero or overflowing target. |
| Chain.InvertsLowestOne | src/chain.cpp:64-76 | Anding with the predecessor clears the lowest one bit. |
| Chain.BlockIndex.BuildSkip | src/chain.cpp:109-113 | The skip pointer is the ancestor at the skip height, and the tree stays well-formed. |
| Chain.BlockIndex.GetAncestor | src/chain.cpp:78-102 | The walk over skip and parent pointers returns exactly the ancestor that parent pointers alone lead to, or nothing for a height out of range; it never meets a missing parent; when all skip pointers are built, its number of steps is the one bounded below. |
| ChainSteps.WalkIsShort | src/chain.cpp:68-102 | From any height of `n` bits to any height below it, the walk takes at most `n * (n + 1)` steps. |
| Chain.Extend | src/chain.cpp:109-113 | Adding a block to a tree and building its skip pointer gives a tree, in which all skip pointers are built if they were before. |
| Chain.ActiveChain.SetTip | src/chain.cpp:13-23 | The chain becomes the whole path from genesis to the new tip, although the walk stops at the first block already in place. |
| Chain.ActiveChain.ContainsMeansBelowTip | src/chain.h:582-586 | A contained block's ancestors are exactly the chain's blocks below it. |
| Chain.ActiveChain.FindFork | src/chain.cpp:53-62 | The result is the highest block of the branch that is in the chain, or nothing if there is none. |
| Chain.ActiveChain.GetLocator | src/chain.cpp:25-51 | The locator holds ancestors at the prescribed distances, ends at genesis exactly, and has at most eleven plus the bit length of the height entries; it is the same whether steps go through the chain or the tree. |
| Chain.LocatorDescends | src/chain.cpp:25-51 | The blocks of a locator start at its first block and descend strictly. |
| RollingBloom.RollingBloomFilter.Contains | src/bloom.cpp:287-299 | A key is reported if and only if each of its positions was hit by a key inserted in the current generation or in the two before it. |
| RollingBloom.RollingBloomFilter.Insert | src/bloom.cpp:251-279 | Inserting refines appending the key to the sequence of all keys: the two bit planes hold the generation of the last recent hit of every position. |
| RollingBloom.RecentReported | src/bloom.h:113-114 | Each of the last `nElements` keys is reported. |
| RollingBloom.RollingBloomFilter.Reset | src/bloom.cpp:307-315 | Resetting gives the filter of no keys. |
| RollingBloom.RollingBloomFilter.constructor | src/bloom.cpp:219-244 | The filter is usable if and only if it is for at least one element and has at least one word; two generations hold at least the number of elements asked for. |
| RollingBloom.Wipe | src/bloom.cpp:254-268 | The mask arithmetic wipes one generation from every position and changes no other. |
| Base58Codec.BytesRoundTrip | src/base58.cpp:21-105 | Every byte string is recovered from its text. |
| Base58Codec.TextRoundTrip | src/base58.cpp:21-105 | Every text over the alphabet is recovered from its bytes. |
| Base58Codec.EncodeBase58 | src/base58.cpp:67-105 | The digit loop over the fixed buffer computes the text, and its assertion on the carry holds. |
| Base58Codec.DecodeBase58 | src/base58.cpp:21-65 | The digit loop computes the bytes; spaces around the text are skipped and anything else foreign is an error; the assertion on the carry holds. |
| Base58Codec.DecodeString | src/base58.cpp:112-115 | A string object is decoded up to its first null character. |
| Base58Codec.StringRoundTrip | src/base58.cpp:107-115 | Every byte string is recovered from the string object of its text. |
| Base58.EncodeFits | src/base58.cpp:78-80 | For every length, the digits reserved for the bytes are enough. |
| Base58.DecodeFits | src/base58.cpp:32-33 | For every length, the bytes reserved for the characters are enough. |
| Base58Codec.CheckAccepts | src/base58.cpp:126-141 | Decoding with checksum gives `v` if and only if the text decodes to `v` followed by its checksum. |
| Base58Codec.CheckRoundTrip | src/base58.cpp:117-141 | Decoding with checksum accepts what encoding with checksum gives, and returns the bytes. |
| Base58Codec.DecodeBase58Check | src/base58.cpp:126-141 | The method computes decoding with checksum. |
| CompactBlockObject.ReliableExactly | src/blockencodings.cpp:50-136 | For an acceptable message without colliding short ids and any short id function: with at most 65536 transactions, taking it up ends and whatever the block and the pool nothing is put in a wrong slot; and only then, if the function takes every short id of the message on some hash and none of them on a transaction in full. |
| CompactBlock.Reconstructs | src/blockencodings.cpp:50-180 | For any block, message for it and pool without a clash of short ids, up to that size, the slots agree with the block, and the missing transactions in index order rebuild it. |
| CompactBlock.ReconstructsExactly | src/blockencodings.cpp:50-136 | The same on the table of short ids and the slots. |
| CompactBlock.SearchesEndExactly | src/blockencodings.cpp:83-87 | With its 16-bit offset, every search for a slot ends if and only if there are no short ids or fewer than 65536 transactions in full; otherwise the first one never ends. |
| CompactBlockObject.EndlessSearch | src/blockencodings.cpp:83-88 | An acceptable message for which the search never ends. |
| CompactBlockObject.FirstReplaced | src/blockencodings.cpp:83-126 | An acceptable message and a short id function of that kind for which the pool replaces a transaction that came in full. |
| CompactBlock.SlotsFit | src/blockencodings.cpp:82-87 | The 16-bit slots in the table are the true slots if and only if there are at most 65536 transactions. |
| CompactBlock.ScanExact | src/blockencodings.cpp:106-136 | As long as the scan has not stopped early, a slot is filled exactly when one pool transaction has its short id. |
| CompactBlock.ScanPoolOk | src/blockencodings.cpp:106-136 | A scan leaves slots without a short id alone, puts transactions in the slots of their own short ids, and counts exactly. |
| CompactBlock.AnnounceEncodes | src/blockencodings.cpp:20-30 | The message built for a block describes it. |
| CompactBlock.PlacedCount | src/blockencodings.cpp:61-78 | Every transaction in full gets a slot of its own. |
| CompactBlock.FillCount | src/blockencodings.cpp:144-160 | Filling succeeds exactly with one transaction for each open slot. |
| CompactBlockObject.PartialBlock.InitData | src/blockencodings.cpp:50-136 | The status is invalid exactly for unacceptable messages, endless exactly when the search never ends, failed exactly for an uneven table or a collision; otherwise the slots are those of the scan. |
| CompactBlockObject.PartialBlock.NextSlot | src/blockencodings.cpp:83-86 | The search with its wrapping offset finds the open slot of the short id, or looks at filled slots for ever. |
| CompactBlockObject.PartialBlock.FillBlock | src/blockencodings.cpp:144-180 | The block is rebuilt if and only if the count is right, and its status is that of the validity check. |
| CompactBlockCodec.IndexesRoundTrip | src/blockencodings.h:29-69 | Increasing 16-bit indexes are recovered from their differences. |
| CompactBlockCodec.DecodedIncreasing | src/blockencodings.h:45-60 | Decoded indexes increase if and only if no sum of differences, with one for each step between them, is the largest index before the end. |
| CompactBlockCodec.LargestFirst | src/blockencodings.h:45-60 | Two differences that are decoded as the largest index followed by zero. |
| CompactBlockCodec.ReadIndexes | src/blockencodings.h:36-60 | Decoding in place succeeds exactly when no index exceeds 16 bits. |
| CompactBlockCodec.ShortIdWords | src/blockencodings.h:158-192 | A short id is recovered from its two words if and only if it has at most 48 bits. |
| BlakeClose.HashOfPieces | src/blake.c:800-994 | For every message, every way of cutting it into pieces, every number of bits at its end and both digest sizes: the chain value is that of the padded message, block by block, each block with the number of message bits so far, or zero if it has none. |
| BlakeClose.CloseIsReference | src/blake.c:838-889 | Closing chains the blocks of the padded message with their counters, including the preset counters that wrap in the step that follows. |
| BlakeClose.LeastExists | src/blake.c:867-885 | Every message has a least number of zero bytes for its padding. |
| BlakeClose.MarkerMeans | src/blake.c:854-855 | The last byte keeps the message bits, has a one after them, and zeros below. |
| Blake.AbsorbSplit | src/blake.c:800-836 | It makes no difference in how many pieces data is given. |
| Blake.NextCounts | src/blake.c:828-829 | Seeing the carry by the low word having become small is counting in two words. |
| Blake.AdjustedCounts | src/blake.c:858-866 | The step after the adjustment of the counter counts every message bit of the last block, or gives zero. |
| BlakeContext.Context.Update | src/blake.c:800-836 | The buffer, the early return and the chunk loop absorb the data. |
| BlakeContext.Context.Pad | src/blake.c:838-884 | Presetting the counter and feeding the padding through update, once or twice, gives the closed chain value. |
| BlakeContext.Context.Finish | src/blake.c:1022-1053 | The digest is the first words of that chain value, and the context is ready for another message. |
| BlakeContext.MarkerByte | src/blake.c:854-855 | The masked byte is the marker. |

## Left out

- AddrManFile.Unserialize: an accepted file that is read into an object which already holds entries; the tables are inconsistent from the start then, as `AddrManFile.ClearedTables` states.
- AddrManRuns.RunInv: identifiers and counters are unbounded integers, so that overflow of the identifier counter is not modelled.
- CompactBlock.Reconstructs: is stated up to 65536 transactions, because the code does not guarantee it beyond that.
- CoinsStream.Serialize: asks that nine times every amount fits 64 bits, which every amount of money does, and that scripts are not longer than the reader takes.
- Address manager: `Select_` and `GetChance`; the byte stream of the file, which is modelled as a record of its fields; negative counts in damaged files.
- Coins: the hash of the best block; memory usage as a function of the vector's capacity rather than of its value; whether a public key is on the curve, which is a parameter.
- Base58: `CBase58Data` and what is built on it.
- Arithmetic: `SetUnsignedCompact`, `getdouble` and hexadecimal forms.
- Chain: `GetBlockTrust` and `GetBlockProofEquivalentTime`.
- ChainSteps.WalkIsShort: the bound is the square of the length in bits, not the 110 steps that simulations gave for 2^18 blocks.
- Rolling bloom filter: the sizes computed from the false positive rate in floating point; words are sequences of bits; the classic bloom filter.
- Compact blocks: SipHash; the compact-size encoding of counts; the copy of the block signature.
- BLAKE: the compression functions; BLAKE-224 to BLAKE-512 differ in parameters only.
- Networking, validation, wallet, mining, remote calls and the user interface.
