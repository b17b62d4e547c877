# nikl ledger core in Dafny

A model of the validation and accounting engine of the `nikl` toy ledger,
with proofs about it.

The ledger is a single-node chain of proof-of-work blocks. Each block
carries a list of transactions. Each transaction consumes input *packets*
(owner, id, value) and produces output packets. A packet is identified by
the hash of its bytes. The chain keeps the set of hashes of unspent
outputs.

The core modelled here:

- `Blockchain::update_with_block`, the chain's only mutator. It validates
  the header, checks the coinbase, walks the other transactions, and then
  applies `(unspent \ spent) ∪ created` and appends the block. On any
  error it changes nothing.
- the transaction and balance arithmetic;
- the block's digest layout and nonce search;
- the little-endian encoders and the proof-of-work window of a 64-byte hash.

Modules, one per source file (transaction.rs is split in two):

| file | module | source |
|---|---|---|
| `bytes.dfy` | `Bytes` | `src/lib.rs`: encoders, `Hash::default`, `Hash::difficulty`, `Timestamp`, slice digest |
| `transaction.dfy` | `Transactions` | `src/transaction.rs`: `Packet`, `Transaction`, `Transactions` |
| `balance.dfy` | `Balances` | `src/transaction.rs`: `Balance` |
| `block.dfy` | `Blocks` | `src/block.rs`: `Block`, its digest, `mine_range`, `mine` |
| `chain.dfy` | `Chain` | `src/chain.rs`: `Blockchain`, `ValidationError` |
| `chain_theorems.dfy` | `ChainTheorems` | consequences of `src/chain.rs` for whole chains |

How the source maps to the model:

- **The hash function is a parameter.** `H: Hasher` maps the digest bytes
  of a value to a 64-byte `Hash`. Nothing is assumed about it: not
  injectivity, not collision resistance. `hash()` therefore depends only
  on the digest bytes.
- **`Block` is a class.** Mining assigns `nonce` and `hash` in place.
- **The chain stores values.** `update_with_block` takes the block by
  value (a Rust move), so the chain stores a `BlockData` snapshot of its
  fields.
- **Operations that change state are methods.** These are:
  - `UpdateWithBlock`, `Balance` and the constructor of `Blockchain`;
  - `MineRange`, `Mine` and the constructor of `Block`;
  - `Combine`, `FromTransaction` and `FromTransactions` in `Balances`.

  Each is proved equal to a specification function (`Update`, `OfChain`,
  `Combined`, `OfTransaction`, `OfTransactions`, `Scan`), or states its
  search result outright.
- **The chain invariant.** `Blockchain.Valid()` says that replaying the
  stored blocks, one by one, on an empty chain accepts every block and
  leaves exactly the stored unspent set.
- **`ChainTheorems` restates acceptance declaratively.** `Acceptable` and
  `Accepts` describe, without reference to the source's loop, when a
  block is accepted. The module proves that the source's walk decides
  exactly that. It then derives, for every chain built by
  `update_with_block`:
  - hash linkage;
  - non-decreasing timestamps;
  - no double spend without re-creation;
  - supply conservation.

Supply follows the code's reward rule (`ChainTheorems.Minted`,
`ChainTheorems.BlockMints`):
- a block with an empty transaction list skips every transaction check
  and mints nothing;
- a non-empty genesis block mints its coinbase's output value;
- every other non-empty block mints exactly the reward, 1.

Quirks reproduced, not fixed:

- Duplicate input packets collapse to one hash but are counted twice in
  the input value (`DuplicateInputAccepted`).
- Outputs created earlier in a block cannot be spent in the same block
  (`SameBlockOutputsUnspendable`).
- An empty block is appended after the header checks alone
  (`UpdateOutcome`).
- A transaction's digest does not separate inputs from outputs
  (`TxDigestIgnoresSplit`).
- `mine` never tries nonce `u64::MAX` (`Blocks.Block.Mine`).

## Model

| member | source | states |
|---|---|---|
| Bytes.ZeroHash | src/lib.rs:31-35 | definition: `Hash::default()`, 64 zero bytes; its bytes and difficulty are stated by `ZeroHashDifficulty` |
| Bytes.LittleEndian | src/lib.rs:96-165 | the `width` low-order bytes of x, least significant first, exactly `width` long; each byte is stated by `LittleEndianAt` |
| Bytes.FromLittleEndian | src/lib.rs:45-62 | definition: the number a little-endian byte string denotes (the source's OR of shifted bytes); bound and inverses are stated by `FromLittleEndianBound`, `FromLittleEndianInverse`, `LittleEndianInverse` |
| Bytes.Difficulty | src/lib.rs:45-62 | definition: bytes 16..31 read as a little-endian u128; the window and independence from other bytes are stated by `DifficultyWindow` and `DifficultyIgnoresOtherBytes` |
| Bytes.Timestamp.Before | src/lib.rs:10-11 | definition: the derived `<` on timestamps, which compares the milliseconds |
| Bytes.DigestAll | src/lib.rs:79-85 | definition: the element digests concatenated in order, empty for an empty slice; additivity is stated by `DigestAllAppend` |
| Bytes.U16Bytes | src/lib.rs:100-104 | the u16 encoding is 2 bytes wide |
| Bytes.U32Bytes | src/lib.rs:110-119 | the u32 encoding is 4 bytes wide |
| Bytes.U64Bytes | src/lib.rs:125-138 | the u64 encoding is 8 bytes wide |
| Bytes.U128Bytes | src/lib.rs:144-165 | the u128 encoding is 16 bytes wide |
| Bytes.LittleEndianAt | src/lib.rs:125-138 | byte i of a width-w encoding of x is `(x >> 8i) as u8`, i.e. (x / 256^i) mod 256 |
| Bytes.LittleEndianBytes | src/lib.rs:96-165 | every byte of every fixed-width encoding is the shifted-and-truncated value |
| Bytes.FromLittleEndianInverse | src/lib.rs:96-165 | decoding a width-w encoding of x < 256^w gives back x |
| Bytes.LittleEndianInverse | src/lib.rs:96-165 | encoding the decoded value of a byte string at its own width gives back the string, so the encoding is onto |
| Bytes.EncodingsRoundTrip | src/lib.rs:96-165 | each of the u16/u32/u64/u128 encodings has width 2/4/8/16 and decodes back to its value |
| Bytes.FromLittleEndianBound | src/lib.rs:45-62 | a w-byte string decodes to a number below 256^w; hence the difficulty is below 2^128 |
| Bytes.DifficultyWindow | src/lib.rs:45-62 | the difficulty's u128 little-endian encoding is exactly bytes 16..31 of the hash (byte 31 most significant) |
| Bytes.DifficultyIgnoresOtherBytes | src/lib.rs:45-62 | hashes that agree on bytes 16..31 have the same difficulty, whatever their other 48 bytes |
| Bytes.ZeroHashDifficulty | src/lib.rs:31-35 | the default hash is 64 zero bytes and its difficulty is 0 |
| Bytes.Timestamp.Bytes | src/lib.rs:13-16 | a timestamp's bytes are 8 wide |
| Bytes.TimestampBytes | src/lib.rs:10-16 | a timestamp's bytes are the u64 encoding of its milliseconds and decode back to them; distinct timestamps have distinct bytes |
| Bytes.DigestAllAppend | src/lib.rs:79-85 | the digest of a concatenated slice is the concatenation of the two digests |
| Transactions.PacketDigest | src/transaction.rs:13-19 | definition: owner bytes, then the u64 id and the u64 value little-endian; injectivity is stated by `PacketDigestInjective` |
| Transactions.PacketHash | src/transaction.rs:13-19 | definition: the hasher applied to the packet digest |
| Transactions.Value | src/transaction.rs:37-43 | definition: the sum of the packet values; additivity is stated by `ValueAppend` |
| Transactions.InputValue | src/transaction.rs:37-39 | definition: the value sum of the inputs |
| Transactions.OutputValue | src/transaction.rs:41-43 | definition: the value sum of the outputs |
| Transactions.HashesOf | src/transaction.rs:45-51 | definition: the set of packet hashes; membership and size are stated by `HashesOfMembers` and `DuplicatesCollapse` |
| Transactions.InputHashes | src/transaction.rs:45-47 | definition: the hash set of the inputs |
| Transactions.OutputHashes | src/transaction.rs:49-51 | definition: the hash set of the outputs |
| Transactions.IsCoinbase | src/transaction.rs:53-55 | definition: holds iff the transaction has no inputs |
| Transactions.TxDigest | src/transaction.rs:58-63 | definition: the digests of the inputs chained with those of the outputs; layout stated by `TxDigestLayout` |
| Transactions.TotalInput | src/transaction.rs:70-72 | definition: the sum of the per-transaction input values |
| Transactions.TotalOutput | src/transaction.rs:74-76 | definition: the sum of the per-transaction output values |
| Transactions.HasCoinbase | src/transaction.rs:78-80 | definition: holds iff the list is non-empty and its first transaction is a coinbase |
| Transactions.Fee | src/transaction.rs:82-84 | definition: total input minus total output, saturating at 0; stated against the per-transaction fees by `FeeIsFeeSum` |
| Transactions.PacketDigestInjective | src/transaction.rs:13-19 | equal packet digests imply equal packets (owner bytes, then fixed-width id and value) |
| Transactions.ValueAppend | src/transaction.rs:37-43 | the value sum of concatenated packet lists is the sum of their value sums |
| Transactions.HashesOfMembers | src/transaction.rs:45-51 | every packet's hash is in the hash set, only packet hashes are, and the set has at most as many elements as packets |
| Transactions.DuplicatesCollapse | src/transaction.rs:45-47 | a list with a repeated packet has strictly fewer hashes than packets |
| Transactions.TxDigestLayout | src/transaction.rs:58-63 | a transaction's digest is the input digests followed by the output digests |
| Transactions.TxDigestIgnoresSplit | src/transaction.rs:58-63 | moving a packet from inputs to outputs keeps the digest although it turns a spend into a coinbase |
| Transactions.TotalsDifference | src/transaction.rs:70-76 | total input minus total output of a list is the sum of the per-transaction surpluses |
| Transactions.FeeSumOfBalanced | src/transaction.rs:82-84 | if no transaction creates value the summed surpluses are not negative |
| Transactions.FeeIsFeeSum | src/transaction.rs:82-84 | `fee` is max(0, summed surpluses), and equals the sum when no transaction creates value |
| Transactions.WithCoinbase | src/transaction.rs:86-99 | the result is one longer, starts with a coinbase whose only output is `{to, id, fee + 1}`, and continues with the original list in order |
| Transactions.WithCoinbaseReward | src/transaction.rs:82-99 | when no transaction creates value the new coinbase's output value is the summed fees plus the reward, as the chain demands |
| Balances.CombinedByValues | src/transaction.rs:113-123 | a map with the union of the keys, each holding the sum of its two values (absent counting 0), is the combination |
| Balances.CombinedIdentity | src/transaction.rs:113-123 | the empty balance is an identity on both sides of `combine` |
| Balances.CombinedCommutes | src/transaction.rs:113-123 | `combine` is commutative |
| Balances.CombinedAssociates | src/transaction.rs:113-123 | `combine` is associative |
| Balances.TotalCombined | src/transaction.rs:113-123 | the sum over all owners of a combination is the sum of the two sums |
| Balances.Combine | src/transaction.rs:113-123 | the loop over both key sets yields the combination |
| Balances.CreditAllAt | src/transaction.rs:133-156 | after crediting (or debiting) a packet list, an owner is present iff it was or some packet names it, with its old value plus (minus) what the packets give it |
| Balances.OfTransactionAt | src/transaction.rs:133-156 | an owner appears iff some input or output names it, with its outputs' value minus its inputs' value |
| Balances.TotalOfTransaction | src/transaction.rs:133-156 | summed over owners a transaction's balance is output value minus input value |
| Balances.FromTransaction | src/transaction.rs:133-156 | the two `get_mut`/`insert` loops yield the transaction's balance |
| Balances.OfTransactionsAt | src/transaction.rs:125-131 | an owner appears in a list's balance iff some transaction names it as receiver or spender, and holds the sum over the list of what it receives minus what it spends |
| Balances.TotalOfTransactions | src/transaction.rs:125-131 | summed over owners a list's balance is total output minus total input |
| Balances.FromTransactions | src/transaction.rs:125-131 | the fold of `combine` yields the list's balance |
| Blocks.BlockData.CheckDifficulty | src/block.rs:44-46 | definition: the hash's difficulty is strictly below the block's; false for every hash when the difficulty is 0 (`ZeroDifficultyUnmineable`) |
| Blocks.BlockDigest | src/block.rs:65-74 | definition: LE64 index, nonce, timestamp, LE128 difficulty, previous hash, transaction digests; layout stated by `DigestLayout` |
| Blocks.BlockHash | src/block.rs:65-74 | definition: the hasher applied to the block digest, which leaves out the `hash` field |
| Blocks.NoneMeetsAll | src/block.rs:48-58 | the recursive "no nonce in [lo, hi) meets the target" is the quantified statement |
| Blocks.DigestLayout | src/block.rs:65-74 | the digest is a 104-byte header (LE index, nonce, timestamp, LE128 difficulty, previous hash) followed by the transaction digests, each field readable at its offset |
| Blocks.DigestDeterminesHeader | src/block.rs:65-74 | equal digests imply equal header fields and equal transaction digests |
| Blocks.MeetsTargetIgnoresNonceAndHash | src/block.rs:65-74 | the digest excludes `hash`, so whether a nonce meets the target depends neither on the stored hash nor on the current nonce |
| Blocks.ZeroDifficultyUnmineable | src/block.rs:44-46 | with difficulty 0 no nonce meets the target |
| Blocks.Block.constructor | src/block.rs:26-42 | the given fields, nonce 0 and the all-zero hash |
| Blocks.Block.MineRange | src/block.rs:48-58 | only nonce and hash change; on success lo <= nonce < hi, the hash is the block's recomputed hash and passes the check, and no smaller nonce in range met it; on failure no nonce in [lo, hi) meets it, hash is unchanged and nonce is hi - 1 (or unchanged when lo >= hi) |
| Blocks.Block.Mine | src/block.rs:60-62 | `mine_range(0, u64::MAX)`: only nonce and hash change; a found nonce is below u64::MAX, is the first that meets the target, and its hash is stored; on failure no nonce below u64::MAX meets it, the hash is unchanged and nonce is u64::MAX - 1 |
| Chain.LastHash | src/chain.rs:38-40 | definition: the last block's hash, or the all-zero hash when there is no block |
| Chain.Scan | src/chain.rs:82-96 | definition: the walk over the non-coinbase transactions, stopping at the first error; characterised by `ScanAccepts`, `ScanTally`, `ScanErrors`, `ScanFailsAt` |
| Chain.Update | src/chain.rs:68-110 | definition: header validation, coinbase check, walk, reward check, new unspent set; characterised by `UpdateOutcome`, `TransactionRejected`, `RewardMismatchRejected` |
| Chain.UpdateAfterScan | src/chain.rs:98-106 | definition: the reward check (skipped at genesis) and the new unspent set once the walk has run |
| Chain.OfChainAt | src/chain.rs:112-118 | an owner appears in the chain's balance iff some transaction of some block names it, and holds the sum over the chain of what it receives minus what it spends |
| Chain.Validate | src/chain.rs:42-66 | a block passes iff its index is the chain length, its hash meets its difficulty and is its recomputed hash, it names the last hash (zero hash on an empty chain) and is not older than the last block |
| Chain.ValidateReportsFirstFailure | src/chain.rs:42-66 | the error is that of the first failing check, in the order index, difficulty, hash, predecessor, timestamp |
| Chain.ScanStep | src/chain.rs:82-96 | one loop step: an input outside the unspent set or already spent in the block gives InvalidInput, then value creation gives InsufficientInputValue, else the walk continues with the grown tally |
| Chain.ScanTransactions | src/chain.rs:78-96 | the loop over the non-coinbase transactions computes the walk `Scan` |
| Chain.ReplayAppend | src/chain.rs:68-110 | replaying one more block continues from the unspent set the earlier blocks left |
| Chain.Blockchain.constructor | src/chain.rs:11-18 | no blocks, nothing unspent, and the chain invariant holds |
| Chain.Blockchain.NextBlockIndex | src/chain.rs:34-36 | the block count, the only index validation accepts |
| Chain.Blockchain.LastBlockHash | src/chain.rs:38-40 | the last block's hash, or the zero hash on an empty chain; every accepted block names it |
| Chain.Blockchain.UpdateWithBlock | src/chain.rs:68-110 | keeps the chain invariant; on Ok appends the block and sets the unspent set to the specification's result; on Err returns the specification's error and changes nothing |
| Chain.Blockchain.Balance | src/chain.rs:112-118 | the blocks' transaction balances combined in block order |
| ChainTheorems.ScanAccepts | src/chain.rs:82-96 | the walk succeeds iff every transaction spends only unspent hashes, none spends a hash another spends, and none creates value |
| ChainTheorems.ScanTally | src/chain.rs:92-95 | on success the walk has collected all spent hashes, all created hashes and the summed fees |
| ChainTheorems.ScanErrors | src/chain.rs:84-91 | the walk fails only with InvalidInput or InsufficientInputValue |
| ChainTheorems.UpdateOutcome | src/chain.rs:68-110 | a block is accepted iff its header is valid and, if it has transactions, the first is a coinbase, the rest are acceptable and (index != 0) the coinbase pays fees + 1; the result is unspent minus spent plus created (coinbase outputs included), unchanged for an empty block; header errors pass through; a first transaction with inputs is InvalidCoinbaseTransaction |
| ChainTheorems.ScanFailsAt | src/chain.rs:82-91 | the walk returns the error of the first transaction that is not acceptable after those before it: InvalidInput for a spend outside the unspent set or of a hash already spent in the block, else InsufficientInputValue |
| ChainTheorems.TransactionRejected | src/chain.rs:72-91 | with a valid header and a coinbase first, a block whose first unacceptable transaction spends a hash that is not unspent, or one an earlier transaction spent, is refused with InvalidInput; one that only creates value, with InsufficientInputValue |
| ChainTheorems.RewardMismatchRejected | src/chain.rs:98-100 | a non-genesis block with acceptable transactions whose coinbase does not pay exactly fees + 1 is refused with InvalidCoinbaseTransaction |
| ChainTheorems.BlockStep | src/chain.rs:68-110 | each block of an accepted chain was accepted against the blocks before it and produced the next unspent set |
| ChainTheorems.ChainLinked | src/chain.rs:42-66 | in an accepted chain block i has index i, stores its own hash, meets its difficulty, names its predecessor's hash (zero hash at genesis) and is not older than its predecessor |
| ChainTheorems.TimestampsMonotone | src/chain.rs:61-63 | timestamps never decrease along an accepted chain |
| ChainTheorems.SameBlockOutputsUnspendable | src/chain.rs:84-86 | every hash an accepted block spends was unspent before the block, so outputs created in the same block cannot be spent there |
| ChainTheorems.SpentWasUnspent | src/chain.rs:84-86 | what block i of an accepted chain spends was unspent after the blocks before it |
| ChainTheorems.ReappearsOnlyByCreation | src/chain.rs:102-105 | a hash that becomes unspent between two points of the chain was created by a block in between |
| ChainTheorems.NoDoubleSpend | src/chain.rs:83-94 | a hash spent by two blocks of an accepted chain was re-created in between |
| ChainTheorems.UnspentWereCreated | src/chain.rs:102-105 | every unspent hash of an accepted chain was created by one of its blocks |
| ChainTheorems.BlockMints | src/chain.rs:98-102 | an accepted block's transactions add 0 if empty, the coinbase value at genesis, and exactly the reward otherwise |
| ChainTheorems.SupplyConserved | src/chain.rs:112-118 | the sum of all balances of an accepted chain is the value its blocks minted |
| ChainTheorems.DuplicateInputAccepted | src/transaction.rs:37-47 | a transaction listing one unspent packet twice has one input hash, twice the packet's input value, and passes the walk |
| ChainTheorems.WithCoinbaseAccepted | src/transaction.rs:86-99 | a header-valid block whose transactions `with_coinbase` built from acceptable transactions is accepted |

## Left out

- Integer widths of sums: the u64 sums of packet values, totals and fees,
  `total_fee + 1` and the `as i64` casts of the balance are mathematical
  integers; overflow panics and wrap-around are not modelled.
- `block.index as usize` and `blocks.len() as u64` are taken as exact
  conversions.
- `Timestamp::now` reads the wall clock; timestamps are inputs instead.
- The `Display` impls of `Timestamp`, `Hash`, `Block` and `Balance`, which
  are presentation only, and the iteration order of `HashMap`/`HashSet`.
- BLAKE2b and the `transmute` of its output: the hasher is the
  uninterpreted parameter `H`.
- UTF-8: an owner name is its byte string.
- `retain`/`extend` on the unspent set are set difference and union; the
  hash set's internal layout is not modelled.
- `Blocks.Block.MineRange`: the failure case is stated through the
  recursive predicate `NoneMeets`; `Blocks.NoneMeetsAll` shows it is the
  quantified statement.
- `Transactions.WithCoinbase`: `with_coinbase` consumes its receiver and
  returns it, so it is a function on the list; the in-place reuse of the
  vector is not modelled.
- `Chain.Blockchain.UpdateWithBlock`: the chain keeps a value snapshot of
  the moved block; aliasing of the caller's block is not modelled, since
  the source moves it.
- The demo driver `src/main.rs` is not part of this model; there is no
  concurrency in the source.
