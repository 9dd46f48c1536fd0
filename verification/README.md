# Proof-of-work ledger core in Dafny

This project models the block-validation and chain-admission engine of a small
proof-of-work ledger (`models/block.js` and `models/blockchain.js`) and proves
properties of it.

- **Block** (`Blocks`): nonce, parent hash, height, coinbase beneficiary, an
  ordered transactions object and a balance pool, sealed by
  `hash == H(nonce ++ parentHash ++ coinbaseBeneficiary ++ combinedTransactionHash)`.
  Root blocks (parent `"root"`) are always valid. Every other block needs a
  hash ending in five `'0'` characters that also equals the recomputed hash.
  Child blocks carry a 12.5 coinbase credit. Transactions are admitted only
  when the pool and the signature accept them.
- **Blockchain** (`Blockchains`): a hash-indexed block store created with a
  genesis block, plus a mempool. It provides fork choice by height
  (`maxHeightBlock`, `longestChain`) and the admission routine `_addBlock`.
  `_addBlock` is written as a pure state transition `AddBlock`.
- **Collaborators by contract** (`Pools`, `Transactions`): `MUTTPool.js` and
  `Transaction.js` are not part of this model.
  - A pool is a value-semantics `map<string, real>`, and an absent account
    holds 0.
  - A transaction is a record `{hash, sender, recipient, amount, sigValid}`.
- **Ordered maps** (`TxMaps`): a JavaScript object iterates its keys in
  insertion order, so a block's transactions are a sequence of key/transaction
  entries. Assigning to an existing key replaces its value in place. The chain
  keeps the insertion order of its block keys (`Chain.order`), because
  `maxHeightBlock` folds over the blocks in that order.

The digest `sha256` is a parameter `H: string -> string` of every function.
The model assumes nothing about it, so every property holds for any hash
function. Amounts are exact `real`s, so 12.5 is exact.

Where the code departs from its evident intent, the model follows the intent:

- `models/block.js:21` evaluates `new muttPool()` while the binding
  `muttPool` is still uninitialised. `models/block.js:22` misspells
  `transactions`. `NewBlock` uses the evident defaults instead: nonce `""`,
  beneficiary `"root"`, a fresh empty pool and an empty transactions object.
- `models/blockchain.js:90-93` reads and writes `utxoPool`, while
  `models/block.js` uses `muttPool`. The model has one `pool` field (see
  Findings).
- `models/blockchain.js:99-112` replays and stores a record that lists one
  transaction under two keys. The model replays it as written, mempool
  pruning included, but does not store it (see Findings).
- `models/blockchain.js:86` uses `&&` where `||` is meant. The model rejects
  a block whose parent is absent or not exactly one level shallower (see
  Findings). This rule also makes the height a termination measure for the
  `longestChain` walk.

Mempool pruning is modelled as written. When the block's parent is the
highest block (`models/blockchain.js:88`, `models/blockchain.js:103`),
transactions that replay successfully leave the mempool before the
all-or-nothing test at `models/blockchain.js:110`. So they leave even when the
block is then refused (`PrunedEvenWhenRejected`).

## Model

| member | source | states |
|---|---|---|
| `TxMaps.Put` | models/block.js:57 | assigning to a key keeps the key order, or appends a new key at the end, and keeps the keys unique |
| `TxMaps.PutGet` | models/block.js:57 | after the assignment the key reads back the new transaction, and every other key reads as before |
| `TxMaps.PutAllAppends` | models/blockchain.js:95-101 | re-inserting transactions with distinct new hashes, in order, reads them back in the same order |
| `Pools.AddMUTT` | models/block.js:52 | crediting an account raises exactly that account by the amount and leaves all others alone |
| `Pools.HandleTransaction` | models/block.js:58 | the sender is debited and the recipient credited by the amount, a self-transfer changes nothing, and no other account moves |
| `Pools.AddingTransactionErrorMessage` | models/block.js:69 | the pool gives a reason exactly when it refuses the transaction |
| `Pools.HandleValidKeepsNonNegative` | models/block.js:55-58 | an accepted transfer of a non-negative amount overdraws no account |
| `Blocks.PutNewExtendsCombinedHash` | models/block.js:75-83 | storing a transaction under a new hash makes the combined hash digest the old joined hashes followed by that hash, also when the object was empty (the sentinel case) |
| `Blocks.CombinedHashOnlyReadsTxHashes` | models/block.js:75-83 | two transaction objects whose values carry the same hashes in the same order give the same combined hash |
| `Blocks.NewBlock` | models/block.js:9-34 | the constructed block is sealed (`hash == _calculateHash()`) and takes each option or its default |
| `Blocks.ValidIff` | models/block.js:35-43 | a block is valid iff its parent hash is "root", or its hash ends in five '0' characters and equals the recomputed hash |
| `Blocks.ProofOfWorkIsNotRoot` | models/block.js:40 | a hash that passes the proof-of-work test is never the root sentinel |
| `Blocks.CreateChild` | models/block.js:44-54 | the child is sealed, one level deeper, points at the parent's hash, has the given beneficiary, and its pool is the parent's with exactly 12.5 more for the beneficiary |
| `Blocks.AddTransaction` | models/block.js:55-60 | a refused transaction changes nothing; an accepted one is assigned under its hash exactly as `Put` does (an existing key keeps its place, a new key goes last, so the resealed hash is determined), its pool is the pool after `handleTransaction` (sender debited, recipient credited, a self-transfer leaves the balance as it was), the block is resealed, and nonce, parent, height and beneficiary are unchanged |
| `Blocks.AddingTransactionErrorMessage` | models/block.js:67-70 | a bad signature yields "Signature not valid" before the pool is consulted, and there is a message iff `isValidTransaction` fails |
| `Blocks.SetNonce` | models/block.js:71-74 | only the nonce changes, and the block is sealed again |
| `Blocks.MinedBlockValidIff` | models/block.js:71-74 | after `setNonce` a non-root block is valid iff its new hash ends in five '0' characters |
| `Blocks.BlockFromJSON` | models/block.js:108-113 | the rebuilt block takes every field of the record except its hash, which is recomputed, and gets a fresh empty pool |
| `Blocks.JSONRoundTrip` | models/block.js:84-93 | a sealed block survives `toJSON` followed by `blockFromJSON`, except that its pool is left behind |
| `Blocks.TamperedRecordIsResealed` | models/block.js:108-113 | the record's claimed hash is ignored (every claim rebuilds the same block), and a non-root result is valid iff its recomputed hash ends in five '0' characters |
| `Blockchains.NewChain` | models/blockchain.js:58-67 | the genesis block has height 1, parent "root" and nonce equal to the chain name, is sealed, and is the only stored block, under its own hash |
| `Blockchains.NewChainWellFormed` | models/blockchain.js:58-67 | a new chain satisfies the chain invariant, and all its blocks are valid, when the genesis hash is not "root" |
| `Blockchains.MaxByHeight` | models/blockchain.js:42-43 | the fold returns the seed or one of the blocks, and it is at least as high as each of them |
| `Blockchains.MaxHeightBlock` | models/blockchain.js:40-45 | the result is a stored block whose height is at least that of every stored block |
| `Blockchains.Unfold` | models/blockchain.js:48-55 | the walk starts at the given block, follows parent links one level at a time, and ends at the genesis block, so its length is the start block's height |
| `Blockchains.LongestChain` | models/blockchain.js:47-56 | the chain runs from the genesis block, whose parent is not stored, to `maxHeightBlock()`; each block is the parent of the next, every block is stored, and the length equals the maximum height |
| `Blockchains.AdmissionPool` | models/blockchain.js:90-93 | the replay starts from the parent's pool with exactly 12.5 more for the block's beneficiary |
| `Blockchains.ReplayOutcome` | models/blockchain.js:95-110 | the replay succeeds iff every transaction passes `isValidTransaction` against the pool left by the earlier ones; a successful replay holds every transaction, has handled each in order, and is sealed when it has at least one transaction |
| `Blockchains.ReplayPending` | models/blockchain.js:99-108 | with pruning on, the mempool loses exactly the hashes of the transactions that passed `isValidTransaction` against the pool left by the accepted ones before them; refused ones stay; with pruning off nothing changes |
| `Blockchains.CleanReplayAcceptsAll` | models/blockchain.js:99-110 | when no transaction is refused, the accepted hashes are all the block's transaction hashes |
| `Blockchains.ReplayPrunesAll` | models/blockchain.js:99-108 | after a clean replay onto the highest block, none of the block's transaction hashes is left in the mempool |
| `Blockchains.CleanReplayKeepsNonNegative` | models/blockchain.js:99-110 | a clean replay of non-negative amounts from a pool that overdraws no account leaves no account overdrawn |
| `Blockchains.AddBlock` | models/blockchain.js:81-114 | admission keeps the key order consistent with the store, keeps the name and genesis, and never removes a stored key |
| `Blockchains.AddBlockRejectsEarly` | models/blockchain.js:82-86 | an invalid block, a known hash, or a parent that is absent or not one level shallower leaves the whole chain unchanged |
| `Blockchains.AddBlockAllOrNothing` | models/blockchain.js:97-112 | unless the block is valid, new, fits its parent, replays cleanly and lists no hash twice, the store and its order stay unchanged |
| `Blockchains.AdmittedKeepsHash` | models/blockchain.js:95-112 | with distinct transaction hashes, the replayed block has the hash the block arrived with, holds the same transactions in the same order, and is valid |
| `Blockchains.ReplayedIsAdmitted` | models/blockchain.js:95-108 | the replay of an admissible block succeeds and yields the reference `Admitted` block |
| `Blockchains.AddBlockStores` | models/blockchain.js:110-112 | an admitted block adds exactly one new key, its own hash, appended to the order, leaves every existing entry in place, and the stored block still carries the hash it arrived with and is valid |
| `Blockchains.AddBlockMempool` | models/blockchain.js:88-108 | once the block passes the validity, duplicate-block and parent checks with its parent the highest block, the mempool loses exactly the hashes of the transactions the replay accepted, whether or not the block is then stored (also when it lists a hash twice); otherwise it is unchanged |
| `Blockchains.AddBlockMempoolPrunesAll` | models/blockchain.js:99-108 | when a block extending the highest block is admitted, all of its transaction hashes leave the mempool |
| `Blockchains.PrunedEvenWhenRejected` | models/blockchain.js:99-110 | a transaction that replays before a failing one leaves the mempool although the block is not stored |
| `Blockchains.StoreKeepsWellFormed` | models/blockchain.js:112 | storing a valid block under a new non-sentinel key whose parent fits keeps the chain invariant and the validity of all blocks |
| `Blockchains.AddBlockPreservesWellFormed` | models/blockchain.js:81-112 | admission keeps the chain invariant and the validity of every stored block |
| `Blockchains.DoubleSpendRejected` | models/blockchain.js:97-110 | a block whose second transaction overspends the first one's sender is refused in full and the store is unchanged |
| `Blockchains.GenesisAndFirstChild` | models/blockchain.js:58-67 | the genesis block of chain "X" is a valid root at height 1, and its child for "alice" is at height 2 below it with alice holding 12.5 |
| `AsWritten.ParentGuardAsWritten` | models/blockchain.js:86 | evaluating the `&&` guard as written, with its short circuit, never rejects a block, and throws exactly when the parent is absent |
| `AsWritten.HeightMismatchPassesGuard` | models/blockchain.js:85-86 | a block two levels below its stored parent passes the guard as written but fails the intended `ParentFits` |
| `AsWritten.GenesisChildCannotBeAdmitted` | models/blockchain.js:90-93 | as written, the genesis block has no `utxoPool`, so `parent.utxoPool.clone()` throws when admitting its child; the intended pool gives the beneficiary 12.5 |
| `AsWritten.DuplicateHashReplayedTwice` | models/blockchain.js:99-112 | as written, a valid record listing one transaction under two keys is replayed with the sender debited twice, keeps one entry, and is resealed under a hash that fails proof of work |

## Left out

- `seeds/index.js`: database sync and wallet seeding are I/O with no ledger logic.
- Pub/sub wiring in the `Blockchain` constructor (`models/blockchain.js:18-37`) is network transport and is not modelled. The same goes for the broadcast in `addBlock` (`models/blockchain.js:75-78`). `addBlock` is modelled by its local part, `AddBlock`.
- `rerender()` (`models/blockchain.js:113`) is a UI notification with no effect on the ledger.
- `sha256` internals are not modelled: the hash is the parameter `H`, and no collision-freedom is assumed.
- `MUTTPool` and `Transaction` internals, including signature cryptography, are specified only by the contracts above. `transactionFromJSON` and `toJSON` of transactions are identities here.
- `Pools.InsufficientFunds`: the wording of the pool's refusal message is not shown, so only its presence is modelled.
- `Pools.HandleTransaction`: the `feeBeneficiary` argument has no effect, so it is not a parameter.
- The block's `blockchain` back-reference and `expanded` flag have no logical effect.
- `_addBlock` mutates the incoming block object even when it refuses it. The pure transition returns only the new chain state.
- JavaScript numbers are modelled as exact `real` amounts and unbounded `int` heights. Rounding is not modelled.
- Property-order rules for integer-like object keys are not modelled; keys are iterated in plain insertion order.
- Passing an explicit `undefined` beneficiary to `createChild` is not modelled.
- `Blockchains.MaxHeightBlock`: on ties the model keeps the block met first in insertion order (the running maximum), which is how older ramda releases break ties in `maxBy`. The code does not pin a ramda version, and some releases return the later argument on ties. The contract does not state the tie-break. `Blockchains.ParentIsTip`, and with it mempool pruning on forks of equal height, inherits this choice.
- `Blockchains.AdmittedKeepsHash` is stated for blocks whose transactions carry pairwise distinct hashes. Admission refuses any other block (see Findings), so this is exactly the case `AddBlock` stores.
- `Blockchains.NewChainWellFormed` assumes the genesis hash is not the sentinel `"root"`. A hex sha256 digest has 64 characters, so it never is. Without this assumption the genesis block would be its own parent and the `longestChain` walk would not end.

## Findings

| source | as written | input that shows it | evidently intended | confidence | as-written member | corrected member |
|---|---|---|---|---|---|---|
| models/blockchain.js:86 | `parent === undefined && parent.height + 1 !== block.height` never rejects. With a missing parent it reads `height` of `undefined` and throws. | a block at height 3 whose parent is stored at height 1 passes the guard | reject when the parent is absent or `parent.height + 1 != block.height` | high (not executed) | `AsWritten.HeightMismatchPassesGuard` | `Blockchains.AddBlockRejectsEarly` |
| models/blockchain.js:90-93 | the parent's pool is read from `utxoPool`, but blocks store it in `muttPool` (models/block.js:30), and the genesis block never gets a `utxoPool`. Even with a `utxoPool` on the parent, the replay checks and applies transactions against `block.muttPool` (models/block.js:58, 63), so the coinbase credit at line 93 never reaches the pool that checks them | any child of the genesis block: `parent.utxoPool.clone()` throws | one pool field: clone the parent's pool and credit the coinbase | high (not executed) | `AsWritten.GenesisChildCannotBeAdmitted` | `Blockchains.AdmissionPool` |
| models/blockchain.js:99-112 | a record that lists one transaction under two keys is replayed in full: both copies pass `isValidTransaction` and are debited, but `addTransaction` stores one entry, so the block is resealed over fewer transactions and stored under that new hash | a valid block (identity digest, hash "npm000000") listing a transaction with hash "000" under keys "k1" and "k2": the sender loses 8 instead of 4 and the replayed block is resealed as "npm000", the key line 112 would store it under, which fails proof of work | a stored block keeps the hash it arrived with and stays valid, so a block whose transactions repeat a hash is not stored; its replay, and the mempool pruning it does, happen as written | medium (not executed) | `AsWritten.DuplicateHashReplayedTwice` | `Blockchains.AddBlockStores` |
