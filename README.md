# Blockchain indices, checkpoints and chain events

This project models three parts of a CryptoNote-style node's chain core in
Dafny and proves properties of the model.

- **The secondary indices.** These are the optional lookup tables the chain
  keeps beside its blocks:
  - payment id to transaction hashes;
  - block timestamp to block hashes;
  - transaction timestamp to transaction hashes;
  - block height to the running count of generated transactions;
  - height to orphan block hashes.

  An index built disabled refuses every update and raises an error on every
  query. An enabled index applies blocks as they arrive and undoes them on
  rollback.
- **The checkpoint table.** A checkpoint pins the expected block hash at a
  height.
  - Checkpoints are added one at a time, from a CSV-like file, or from DNS TXT
    records.
  - A pinned height is never overwritten.
  - Blocks and alternative chains are checked against the table.
- **The chain-state-change event.** This is a tagged union: a new block, a
  new alternative block, or a chain switch with the hashes from the common
  root. It has a probing accessor for each variant.

Modules, one concern each:

- `Wrappers`: `Option` and `Result`.
- `Crypto`: bytes, the 32-byte `Hash`, and its 64-digit hex form (`HashFromHex`, `HashToHex`).
- `Multimap`: the ordered and unordered multimaps behind the indices. Entries are sequences of pairs.
  - Ordered maps are sorted by key. `Emplace` inserts a new entry after the entries with equal keys, as C++11 `multimap::emplace` does.
  - `LowerBound`/`UpperBound` give the equal range.
  - The loop methods walk a range the way the source's iterator loops do.
- `BlockchainIndices`: one class per index, with its `enabled` flag and its `index` state.
- `CheckpointText`: the text formats.
  - The line and field splitters of the checkpoint file.
  - `stoi` with its exceptions, and the narrowing to `uint32_t`.
  - Decimal text and the DNS record.
  - The C-string truncation at NUL.
- `Checkpoints`: the `Checkpoints` class over a `map` from height to hash.
  - Each loader is proved against a specification function: `LoadLines` for the file, `MergeDnsRecords` for DNS.
  - The lemmas about those functions state the promises of the table.
- `BlockchainMessages`: the event as a datatype.

Where the code does other than the intent of an operation suggests, the
model follows the code:

- **Rollback order.** Adding and then removing an entry is meant to restore an
  index exactly. When the same (key, value) pair is already stored, the code
  erases the *older* copy. So only the multiset comes back, not the order
  within the key (`Multimap.EmplaceRemoveReordersDuplicates`). The order does
  come back when the pair was new (`Multimap.EmplaceRemoveRestoresExactly`).
- **An unreadable height.** A malformed row is meant to make the file load
  return failure. That holds for a row without exactly two fields, and for a
  malformed hash or a height already pinned. A height that `stoi` cannot read
  makes it throw, and the exception leaves the loader instead of a `false`.
  Heights from 2^31 to 2^32 - 1, which `AddCheckpoint` pins, are such a case
  when the row writes them as positive decimal digits: `stoi` throws
  `out_of_range` (`HighHeightRowThrows`). Written as the height minus 2^32
  (`-1` for 2^32 - 1), the row loads, because the narrowing to `uint32_t`
  wraps the negative `int` back to the height (`NegativeHeightRowLoads`).
  `LoadCheckpointsFromFile` returns that exception as a `Failure`.
- **Alternative blocks past the last checkpoint.** They are meant to be always
  allowed once the chain is past the last checkpoint. The code compares the
  alternative height with the greatest checkpoint at or below the chain
  height in that case too. `AlternativeBlockScenario` shows it: a chain at
  150 and a checkpoint at 100 refuse an alternative block at 100.
- **Checkpoint zone.** The code's test is one expression: the table is
  non-empty and the height is at or below the greatest checkpoint. So a
  height is in the zone exactly when some checkpoint is at or above it,
  which is what `IsInCheckpointZone` states.

## Model

| member | source | states |
|---|---|---|
| Crypto.HashFromHex | src/core/block/Checkpoints.cpp:25 | `podFromHex` as assumed under "## Left out": a text is a hash exactly when it is 64 hex digits |
| Crypto.HashToHex | src/core/block/Checkpoints.cpp:25 | the 64-digit text that `podFromHex` reads back as the hash; the inverse used by `HexRoundTrip` and by the round trip of written files |
| Crypto.HexRoundTrip | src/core/block/Checkpoints.cpp:24-29 | parsing the hex text of a hash gives the hash back |
| Multimap.LowerBound | src/core/block/BlockchainIndices.cpp:122 | the first position whose key is at least the bound; every entry before it is smaller |
| Multimap.UpperBound | src/core/block/BlockchainIndices.cpp:123 | the first position whose key is above the bound; every entry before it is at or below |
| Multimap.Emplace | src/core/block/BlockchainIndices.cpp:92 | inserting keeps the entries sorted, adds exactly one copy of the entry, and puts it after every entry of the same key |
| Multimap.RemoveFirst | src/core/block/BlockchainIndices.cpp:101-109 | the sequence less its first copy of the entry, unchanged when there is none (its properties: `RemoveFirstMultiset`, `EraseFromEqualRange`) |
| Multimap.RemoveFirstMultiset | src/core/block/BlockchainIndices.cpp:101-109 | erasing an entry removes one copy when present and changes nothing when absent |
| Multimap.EmplaceRemoveRestoresMultiset | src/core/block/BlockchainIndices.cpp:87-110 | add then remove restores the multiset of entries |
| Multimap.EmplaceRemoveRestoresExactly | src/core/block/BlockchainIndices.cpp:87-110 | add then remove restores the very sequence when the entry was new |
| Multimap.EmplaceRemoveReordersDuplicates | src/core/block/BlockchainIndices.cpp:92-106 | with a duplicate present, add then remove changes the order within the key |
| Multimap.RangeIsSlice | src/core/block/BlockchainIndices.cpp:122-125 | the slice between the bounds is exactly the entries with keys in the range |
| Multimap.ValuesWithKeyCount | src/core/block/BlockchainIndices.cpp:62-66 | the values under a key hold each value as often as its pair is stored |
| Multimap.EraseFromEqualRange | src/core/block/BlockchainIndices.cpp:101-109 | the loop over the equal range erases the first copy of the pair, and reports true iff there was one |
| Multimap.EraseFirstWithKey | src/core/block/BlockchainIndices.cpp:45-53 | the same erase over an unordered multimap |
| Multimap.AppendRange | src/core/block/BlockchainIndices.cpp:127-131 | the loop appends the first `limit` values of the range, in order, and counts them |
| Multimap.AppendAll | src/core/block/BlockchainIndices.cpp:334-339 | the loop appends every value of the range, in order, and reports whether there was one |
| Multimap.AppendWithKey | src/core/block/BlockchainIndices.cpp:62-66 | the loop appends every value stored under the key |
| BlockchainIndices.PaymentIdIndex.constructor | src/core/block/BlockchainIndices.cpp:15 | an index with the given flag and no entries |
| BlockchainIndices.PaymentIdIndex.Add | src/core/block/BlockchainIndices.cpp:18-32 | succeeds iff enabled and the transaction has a payment id; then adds one (payment id, hash) pair |
| BlockchainIndices.PaymentIdIndex.Remove | src/core/block/BlockchainIndices.cpp:34-54 | succeeds iff enabled, with a payment id and the pair stored; then removes one copy |
| BlockchainIndices.PaymentIdIndex.Find | src/core/block/BlockchainIndices.cpp:56-68 | disabled: the error and no output; else keeps the caller's hashes and appends each hash as often as stored under the id; true iff any |
| BlockchainIndices.PaymentIdIndex.Clear | src/core/block/BlockchainIndices.cpp:70-74 | empties an enabled index and leaves a disabled one alone |
| BlockchainIndices.TimestampBlocksIndex.constructor | src/core/block/BlockchainIndices.cpp:84 | an index with the given flag and no entries, sorted trivially |
| BlockchainIndices.TimestampBlocksIndex.Add | src/core/block/BlockchainIndices.cpp:87-94 | succeeds iff enabled; inserts after equal timestamps, keeping the order |
| BlockchainIndices.TimestampBlocksIndex.Remove | src/core/block/BlockchainIndices.cpp:96-110 | succeeds iff enabled and the pair is stored; erases its first copy |
| BlockchainIndices.TimestampBlocksIndex.Find | src/core/block/BlockchainIndices.cpp:112-132 | disabled: the error; reversed range: false, no output; else the count of entries in the range, the first `limit` hashes of the range appended, true iff one was |
| BlockchainIndices.TimestampBlocksIndex.Clear | src/core/block/BlockchainIndices.cpp:134-138 | empties an enabled index and leaves a disabled one alone |
| BlockchainIndices.TimestampTransactionsIndex.constructor | src/core/block/BlockchainIndices.cpp:148 | an index with the given flag and no entries, sorted trivially |
| BlockchainIndices.TimestampTransactionsIndex.Add | src/core/block/BlockchainIndices.cpp:151-158 | succeeds iff enabled; inserts after equal timestamps, keeping the order |
| BlockchainIndices.TimestampTransactionsIndex.Remove | src/core/block/BlockchainIndices.cpp:160-174 | succeeds iff enabled and the pair is stored; erases its first copy |
| BlockchainIndices.TransactionsInRange | src/core/block/BlockchainIndices.cpp:186-189 | the entries between the bounds, or the first entry when the range ends at 0, is empty and the index is not |
| BlockchainIndices.TimestampTransactionsIndex.Find | src/core/block/BlockchainIndices.cpp:176-199 | as the block index, over `TransactionsInRange`, which for the range ending at 0 with nothing in it yields the first entry |
| BlockchainIndices.TimestampTransactionsIndex.Clear | src/core/block/BlockchainIndices.cpp:201-205 | empties an enabled index and leaves a disabled one alone |
| BlockchainIndices.GenesisTransactionFound | src/core/block/BlockchainIndices.cpp:188-189 | a query for timestamp 0 finds the genesis transaction stamped later |
| BlockchainIndices.GeneratedTransactionsIndex.constructor | src/core/block/BlockchainIndices.cpp:215 | an index with the given flag, no heights and a total of 0, which is consistent |
| BlockchainIndices.GeneratedTransactionsIndex.Add | src/core/block/BlockchainIndices.cpp:218-234 | succeeds iff enabled and the height is the next one; records the new running total; keeps the index consistent |
| BlockchainIndices.GeneratedTransactionsIndex.Remove | src/core/block/BlockchainIndices.cpp:236-260 | succeeds iff enabled and the height is the top one; drops it and rewinds the total to the new top; keeps the index consistent |
| BlockchainIndices.GeneratedTransactionsIndex.Find | src/core/block/BlockchainIndices.cpp:262-276 | disabled: the error; else the count recorded at the height iff present, which is the sum of the contributions up to it |
| BlockchainIndices.GeneratedTransactionsIndex.ClearAsWritten | src/core/block/BlockchainIndices.cpp:278-282 | empties the map but keeps the running total, so the index is consistent again only if the total was 0 |
| BlockchainIndices.GeneratedTransactionsIndex.Clear | src/core/block/BlockchainIndices.cpp:278-282 | empties the map and resets the total, leaving a consistent empty index |
| BlockchainIndices.CountedAppend | src/core/block/BlockchainIndices.cpp:229-232 | storing the previous total plus a block's transactions and miner transaction at the next height, and adding the same amount to the total, keeps every count equal to the count below it plus its block's share |
| BlockchainIndices.CountedDropTop | src/core/block/BlockchainIndices.cpp:247-257 | erasing the top height and taking the count below it (or 0) as the total keeps the same relation |
| BlockchainIndices.CountedBelowIsSum | src/core/block/BlockchainIndices.cpp:229-232 | under that relation, the count below any height is the sum of the shares of the heights under it |
| BlockchainIndices.CountsAreSums | src/core/block/BlockchainIndices.cpp:262-276 | in a consistent index each stored count is the number of transactions of the heights up to it, and the total is that number for the whole chain |
| BlockchainIndices.GeneratedRollback | src/core/block/BlockchainIndices.cpp:218-260 | adding the next block and removing it restores the map and the total |
| BlockchainIndices.StaleTotalAfterClear | src/core/block/BlockchainIndices.cpp:278-282 | after the clear as written, a fresh genesis block is counted on top of the old total |
| BlockchainIndices.RestartedTotalAfterClear | src/core/block/BlockchainIndices.cpp:278-282 | after the corrected clear, the genesis block counts 1 |
| BlockchainIndices.OrphanBlocksIndex.constructor | src/core/block/BlockchainIndices.cpp:293 | an index with the given flag and no entries, sorted trivially |
| BlockchainIndices.OrphanBlocksIndex.Add | src/core/block/BlockchainIndices.cpp:296-305 | succeeds iff enabled; inserts (height, hash) after equal heights |
| BlockchainIndices.OrphanBlocksIndex.Remove | src/core/block/BlockchainIndices.cpp:307-323 | succeeds iff enabled and the pair is stored; erases its first copy |
| BlockchainIndices.OrphanBlocksIndex.Find | src/core/block/BlockchainIndices.cpp:325-340 | disabled: the error; else appends every hash stored at the height, in order; true iff any |
| BlockchainIndices.OrphanBlocksIndex.Clear | src/core/block/BlockchainIndices.cpp:342-346 | empties an enabled index and leaves a disabled one alone |
| CheckpointText.BreakLength | src/core/block/Checkpoints.cpp:40 | a line break starts the text exactly when it starts with CR or LF |
| CheckpointText.LinePieces | src/core/block/Checkpoints.cpp:40-52 | the pieces of a text between line breaks, at least one, the last one maybe empty |
| CheckpointText.SplitLines | src/core/block/Checkpoints.cpp:40-57 | the lines the line iterator yields: the pieces without a final empty one |
| CheckpointText.SplitLinesHaveNoBreaks | src/core/block/Checkpoints.cpp:40-57 | no line holds a CR or LF |
| CheckpointText.SplitLinesJoin | src/core/block/Checkpoints.cpp:40-57 | splitting lines joined with any of the four breaks gives the lines back |
| CheckpointText.IsFieldSeparator | src/core/block/Checkpoints.cpp:41 | a comma separates fields exactly when an even number of quotes follows it |
| CheckpointText.FieldPieces | src/core/block/Checkpoints.cpp:41-62 | the pieces of a line between separating commas, at least one |
| CheckpointText.SplitFields | src/core/block/Checkpoints.cpp:59-67 | the row the field iterator yields: the pieces without a final empty one |
| CheckpointText.SplitFieldsJoin | src/core/block/Checkpoints.cpp:41-67 | splitting fields joined by commas gives them back, also when fields hold commas inside quotes |
| CheckpointText.ParseDecimal | src/core/block/Checkpoints.cpp:152-155 | a height text is read exactly when it is a non-empty run of digits |
| CheckpointText.DecimalRoundTrip | src/core/block/Checkpoints.cpp:152-155 | the decimal text of a number reads back as that number |
| CheckpointText.Stoi | src/core/block/Checkpoints.cpp:72 | a value `stoi` returns lies within `int` |
| CheckpointText.StoiDecimal | src/core/block/Checkpoints.cpp:72 | `stoi` reads back a decimal number up to 2^31 - 1 and throws `out_of_range` above it, whatever non-digit text follows |
| CheckpointText.StoiNegativeDecimal | src/core/block/Checkpoints.cpp:72 | `stoi` reads a minus sign and a decimal number as its negation down to -2^31 and throws `out_of_range` below it |
| CheckpointText.StoiAsUint32 | src/core/block/Checkpoints.cpp:72 | fails exactly when `stoi` throws; otherwise the height is the `stoi` value modulo 2^32, a negative value wrapping to itself plus 2^32 |
| CheckpointText.NarrowIsModulo | src/core/block/Checkpoints.cpp:72 | for an `int`, adding 2^32 to a negative value is taking it modulo 2^32 |
| CheckpointText.ReadDnsFields | src/core/block/Checkpoints.cpp:151-158 | a record's fields are accepted only with a `uint32_t` height and a valid hash taken from the first 64 characters |
| CheckpointText.ParseDnsRecordAsWritten | src/core/block/Checkpoints.cpp:150-158 | the record as the code reads it, with the missing separator turned into -1 |
| CheckpointText.ParseDnsRecord | src/core/block/Checkpoints.cpp:150-158 | a record is read only when it has a ':' |
| CheckpointText.ReadDnsRecord | src/core/block/Checkpoints.cpp:150-158 | under either reading, an accepted record has a `uint32_t` height and a valid hash text |
| CheckpointText.DnsReadingsAgree | src/core/block/Checkpoints.cpp:150-151 | both readings agree on every record with a ':' |
| CheckpointText.ColonlessRecordAccepted | src/core/block/Checkpoints.cpp:150-158 | 63 zeros and a 5, without ':', are accepted as written, height 5, and refused by the corrected reading |
| CheckpointText.DnsRecordRoundTrip | src/core/block/Checkpoints.cpp:150-158 | a record of height, ':' and hash text reads back, whatever follows the hash |
| CheckpointText.UpToNul | src/core/block/Checkpoints.cpp:48-49 | the text loaded is the longest prefix with no NUL |
| Checkpoints.Max | src/core/block/Checkpoints.cpp:86 | the greatest height of the table |
| Checkpoints.LoadLines | src/core/block/Checkpoints.cpp:54-82 | the row loop: a row without two fields stops with false, an unreadable height stops with the exception, a refused checkpoint stops with false, else the row is added and the loop goes on |
| Checkpoints.LoadLinesKeepsEntries | src/core/block/Checkpoints.cpp:42-83 | loading a file never changes or drops a checkpoint already pinned |
| Checkpoints.LoadLinesCount | src/core/block/Checkpoints.cpp:55-82 | a load that returns true adds one new checkpoint per line |
| Checkpoints.LoadLinesAppend | src/core/block/Checkpoints.cpp:55-79 | the rows after a rejected row are never read, and the rows before it stay applied |
| Checkpoints.RowFields | src/core/block/Checkpoints.cpp:59-67 | a written row splits into its height and its hash |
| Checkpoints.LoadWrittenFile | src/core/block/Checkpoints.cpp:42-83 | a file written from distinct new checkpoints with heights up to 2^31 - 1 loads back as exactly those checkpoints |
| Checkpoints.HighHeightRowThrows | src/core/block/Checkpoints.cpp:72 | a row writing a height above 2^31 - 1 as positive decimal digits stops the load with `out_of_range` and leaves the table unchanged |
| Checkpoints.NegativeHeightRowLoads | src/core/block/Checkpoints.cpp:72 | a row writing such a height as itself minus 2^32 loads and pins that height |
| Checkpoints.MergeDnsRecords | src/core/block/Checkpoints.cpp:146-165 | the record loop under a chosen reading: a record that does not parse or whose height is pinned is skipped, else its checkpoint is added |
| Checkpoints.MergeDnsKeepsEntries | src/core/block/Checkpoints.cpp:146-165 | under either reading, DNS never overrides a pinned height, and adds exactly the heights of the records that parse |
| Checkpoints.MergeDnsFirstWins | src/core/block/Checkpoints.cpp:146-165 | under either reading, of several records for a new height, the first that parses decides its hash |
| Checkpoints.Checkpoints.AddCheckpoint | src/core/block/Checkpoints.cpp:23-38 | pins the hash iff the text is a hash and the height is new; otherwise nothing changes |
| Checkpoints.Checkpoints.IsInCheckpointZone | src/core/block/Checkpoints.cpp:85-87 | true iff some checkpoint is at or above the height |
| Checkpoints.Checkpoints.CheckBlock | src/core/block/Checkpoints.cpp:89-106 | the height is a checkpoint iff pinned; the block passes iff unpinned or its hash is the pinned one |
| Checkpoints.Checkpoints.CheckBlockHash | src/core/block/Checkpoints.cpp:108-111 | passes iff the height is unpinned or pinned to this hash |
| Checkpoints.Checkpoints.IsAlternativeBlockAllowed | src/core/block/Checkpoints.cpp:113-126 | true iff the height is not 0 and lies above every checkpoint at or below the chain height |
| Checkpoints.Checkpoints.GetCheckpointHeights | src/core/block/Checkpoints.cpp:128-136 | every pinned height once, strictly increasing |
| Checkpoints.Checkpoints.LoadCheckpointsFromFile | src/core/block/Checkpoints.cpp:42-83 | an unreadable file is false with no change; else the outcome and table of `LoadLines` over the lines of the text up to its first NUL |
| Checkpoints.Checkpoints.LoadCheckpointsFromDns | src/core/block/Checkpoints.cpp:138-167 | always true; the table becomes `MergeDnsRecords` of the old table and the records under the reading passed in; `AsWritten` is the code's |
| Checkpoints.PinnedHeightScenario | src/core/block/Checkpoints.cpp:23-111 | a second hash for a pinned height is refused; the first passes and the other fails; the zone ends at the checkpoint |
| Checkpoints.ColonlessRecordScenario | src/core/block/Checkpoints.cpp:146-164 | loading the record of 63 zeros and a 5 into an empty table pins height 5 as written and adds nothing under the corrected reading |
| Checkpoints.AlternativeBlockScenario | src/core/block/Checkpoints.cpp:113-126 | with a checkpoint at 100 and the chain at 150, blocks at 100 are refused and at 101 allowed; before 100 any non-genesis height is allowed |
| BlockchainMessages.NewBlockMessage.Get | src/core/block/BlockchainMessages.cpp:7-9 | the block hash the payload was built from (see `PayloadsRoundTrip`) |
| BlockchainMessages.NewAlternativeBlockMessage.Get | src/core/block/BlockchainMessages.cpp:13-15 | the same for the alternative-block payload |
| BlockchainMessages.ChainSwitchMessage.Get | src/core/block/BlockchainMessages.cpp:21-23 | the hashes the chain-switch payload was built from |
| BlockchainMessages.ChainSwitchMessage.Copy | src/core/block/BlockchainMessages.cpp:19 | the copy holds the same hashes |
| BlockchainMessages.PayloadsRoundTrip | src/core/block/BlockchainMessages.cpp:5-23 | each payload's `get` gives back what it was built from |
| BlockchainMessages.BlockchainMessage.GetType | src/core/block/BlockchainMessages.cpp:61-63 | the tag is the constructor that built the message |
| BlockchainMessages.BlockchainMessage.GetNewBlockHash | src/core/block/BlockchainMessages.cpp:65-72 | true iff a new-block message, and then the hash is its block hash; else the caller's hash stays |
| BlockchainMessages.BlockchainMessage.GetNewAlternativeBlockHash | src/core/block/BlockchainMessages.cpp:74-81 | the same for an alternative-block message |
| BlockchainMessages.BlockchainMessage.GetChainSwitch | src/core/block/BlockchainMessages.cpp:83-90 | true iff a chain switch, and then the list is its hashes in order; else the caller's list stays |
| BlockchainMessages.Copy | src/core/block/BlockchainMessages.cpp:33-45 | the copy has the same tag and is equal to the original |
| BlockchainMessages.ConstructedMessagesAnswer | src/core/block/BlockchainMessages.cpp:65-90 | a message built from a payload answers its own accessor with that payload |
| BlockchainMessages.ExactlyOneAccessorAnswers | src/core/block/BlockchainMessages.cpp:65-90 | exactly one accessor answers true; the others leave the caller's values alone |
| BlockchainMessages.CopyAnswersAlike | src/core/block/BlockchainMessages.cpp:33-45 | a copy answers every accessor as the original does |

## Left out

- Serialization of the indices (the `serialize` members). The codec is outside this model.
- How a transaction's hash and payment id are computed, and how a block's hash and height are read from its base input (`getObjectHash`, `getPaymentId`, `get_block_hash`, `boost::get`). These are external; `Transaction` and `Block` carry the results as fields.
- Disabled queries throw `std::runtime_error` in the source. The model returns `Failure(IndexDisabled(message))` with the same message.
- File reading (`loadFileToString`) and the DNS lookup (`fetch_dns_txt`) are I/O. Their results are parameters: `Option<string>` for the file, the list of records for DNS. A failed DNS lookup is an empty list; whether a failed lookup can leave records behind cannot be seen here.
- Logging, and the loaded-rows counter that only feeds a log line.
- PaymentIdIndex: the bucket order of the `unordered_multimap` and `DEFAULT_BUCKET_COUNT` are not modelled. The contracts of `PaymentIdIndex.Find` and `Remove` speak of multisets only, because the order of hashes under one id depends on the hash table.
- TimestampBlocksIndex.Find: does not model the narrowing of the in-range count to `uint32_t`. Counts are unbounded, because an index with 2^32 entries is out of reach. The same holds for `TimestampTransactionsIndex.Find`.
- GeneratedTransactionsIndex.Add: does not model `uint64_t` overflow of the running total, for the same reason.
- The `height > uint32 max` guards in `GeneratedTransactionsIndex.Find` and `OrphanBlocksIndex.Find` can never be true for a `uint32_t` argument, so they have no branch in the model.
- Timestamps are unbounded naturals, not `uint64_t`.
- Block heights in the indices (`Block.height`, the source's `uint32_t blockIndex`) are unbounded naturals too.
- The `assert` calls in `GeneratedTransactionsIndex::remove` do not abort in the model: `Remove` asserts that the top height is present, and its lookup of the height below it is checked, both under `Valid()`.
- ParseDecimal, ParseDnsRecord, ParseDnsRecordAsWritten and ReadDnsFields: read the height as plain decimal digits. Leading white space and a sign, which `ss >> height` accepts, are not modelled. Neither is an `int` separator position in records longer than 2^31 characters.
- The regular-expression engine is modelled only through what the two patterns match. The meaning of a token iterator with submatch -1 is taken as: the pieces between separators, without a final empty piece.
- `podFromHex` belongs to StringTools, which is not part of this model. It is assumed to accept exactly 64 hex digits of either case.
- The union's placement new, destructor and `new`/`delete` of the chain-switch payload are not modelled, because datatype values have no lifetime. Move constructors are modelled as plain construction.
- No concurrency: the chain core serializes every call.

## Findings

| source | as written | input that shows it | evidently intended | confidence | as-written member | corrected member |
|---|---|---|---|---|---|---|
| src/core/block/BlockchainIndices.cpp:278-282 | `clear` empties the map but keeps `lastGeneratedTxNumber` | add a genesis block holding only its miner transaction (total 1), clear, add the same block again: `find(0)` gives 2 | clearing starts counting from 0 again, as construction does, so `find(0)` gives 1 | not executed | BlockchainIndices.StaleTotalAfterClear | BlockchainIndices.RestartedTotalAfterClear |
| src/core/block/Checkpoints.cpp:150-151 | without ':' in a record, `find_first_of` gives `npos`, stored in an `int` as -1, so the height text is the whole record and the hash text its first 64 characters | the record of 63 `0` characters followed by `5` is accepted, pinning height 5 to a hash spelt with those digits | a record without ':' is malformed and skipped | not executed | CheckpointText.ColonlessRecordAccepted | CheckpointText.ParseDnsRecord |

The rest of the model uses the corrected definitions:

- `GeneratedTransactionsIndex.Clear`. `ClearAsWritten` models the code.
- `ParseDnsRecord`. `ParseDnsRecordAsWritten` models the code. `MergeDnsRecords` and `LoadCheckpointsFromDns` take the reading as a parameter (`ReadDnsRecord`), so the loader is modelled both as written and corrected; `ColonlessRecordScenario` runs it both ways.
