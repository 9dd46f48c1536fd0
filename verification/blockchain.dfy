/**
 The chain (models/blockchain.js): a hash-indexed block store created with a
 genesis block, a mempool of pending transactions, fork choice by height,
 and the admission routine `_addBlock` as a pure state transition.
 */
module Blockchains {
  import opened Wrappers
  import opened Transactions
  import TxMaps
  import Pools
  import opened Blocks

  /**
   `order` lists the keys of `blocks` in insertion order: the order in which
   `Object.values(this.blocks)` visits them.
   */
  datatype Chain = Chain(
    name: string,
    blocks: map<string, Block>,
    order: seq<string>,
    genesis: Block,
    pendingTransactions: map<string, Transaction>)

  /** `order` enumerates the keys of the store, each once. */
  predicate Indexed(c: Chain) {
    && (forall i, j :: 0 <= i < j < |c.order| ==> c.order[i] != c.order[j])
    && (forall i :: 0 <= i < |c.order| ==> c.order[i] in c.blocks)
    && (forall k :: k in c.blocks ==> k in c.order)
  }

  /** The parent of `b` is stored and exactly one level shallower. */
  predicate ParentFits(blocks: map<string, Block>, b: Block) {
    b.parentHash in blocks && blocks[b.parentHash].height + 1 == b.height
  }

  /**
   The chain invariant: blocks are stored under their own hashes; the genesis
   block is stored, is a root at height 1, and its sentinel parent is not a
   key; every other block's parent is stored one level shallower.
   */
  predicate WellFormed(c: Chain) {
    && Indexed(c)
    && (forall k :: k in c.blocks ==> c.blocks[k].hash == k && 1 <= c.blocks[k].height)
    && c.genesis.hash in c.blocks && c.blocks[c.genesis.hash] == c.genesis
    && IsRoot(c.genesis) && c.genesis.height == 1
    && RootSentinel !in c.blocks
    && (forall k :: k in c.blocks && k != c.genesis.hash ==> ParentFits(c.blocks, c.blocks[k]))
  }

  /** Every stored block passes `isValid()`. */
  predicate AllValid(H: Hash, c: Chain) {
    forall k :: k in c.blocks ==> IsValid(H, c.blocks[k])
  }

  /** `this.blocks[b.hash] = b`; an existing key keeps its place in the order. */
  function Store(c: Chain, b: Block): Chain {
    c.(blocks := c.blocks[b.hash := b],
       order := if b.hash in c.blocks then c.order else c.order + [b.hash])
  }

  /** `new Blockchain(name)` with `createGenesisBlock()`. */
  function NewChain(H: Hash, name: string): (c: Chain)
    ensures c.name == name
    ensures c.genesis.height == 1 && c.genesis.parentHash == "root" && c.genesis.nonce == name
    ensures Sealed(H, c.genesis) && c.genesis.transactions == TxMaps.EmptyTxMap
    ensures c.blocks == map[c.genesis.hash := c.genesis] && c.order == [c.genesis.hash]
    ensures c.pendingTransactions == map[]
  {
    var genesis := NewBlock(H, BlockOptions(RootSentinel, 1, Some(name), None, None, None));
    Chain(name, map[genesis.hash := genesis], [genesis.hash], genesis, map[])
  }

  /**
   A new chain satisfies the chain invariant, provided the genesis hash is not
   the root sentinel itself (a hex sha256 digest never is).
   */
  lemma NewChainWellFormed(H: Hash, name: string)
    requires NewChain(H, name).genesis.hash != RootSentinel
    ensures WellFormed(NewChain(H, name)) && AllValid(H, NewChain(H, name))
  {
  }

  /** `containsBlock(block)` */
  predicate ContainsBlock(c: Chain, b: Block) {
    b.hash in c.blocks
  }

  /** `Object.values(this.blocks)` */
  function StoredBlocks(c: Chain): seq<Block>
    requires Indexed(c)
  {
    seq(|c.order|, i requires 0 <= i < |c.order| => c.blocks[c.order[i]])
  }

  /**
   `reduce(maxBy(prop('height')), acc, bs)`: a later block replaces the
   running maximum only when it is strictly higher.
   */
  function MaxByHeight(acc: Block, bs: seq<Block>): (r: Block)
    ensures r == acc || r in bs
    ensures acc.height <= r.height
    ensures forall i :: 0 <= i < |bs| ==> bs[i].height <= r.height
    decreases |bs|
  {
    if bs == [] then acc
    else
      var r := MaxByHeight(if acc.height < bs[0].height then bs[0] else acc, bs[1..]);
      assert forall i :: 1 <= i < |bs| ==> bs[i] == bs[1..][i - 1];
      r
  }

  /** `maxHeightBlock()`: a stored block at least as high as every stored block. */
  function MaxHeightBlock(c: Chain): (r: Block)
    requires Indexed(c) && |c.order| > 0
    ensures r in c.blocks.Values
    ensures forall k :: k in c.blocks ==> c.blocks[k].height <= r.height
  {
    var bs := StoredBlocks(c);
    var r := MaxByHeight(bs[0], bs);
    forall k | k in c.blocks
      ensures c.blocks[k].height <= r.height
    {
      var i :| 0 <= i < |c.order| && c.order[i] == k;
      assert bs[i] == c.blocks[k];
    }
    r
  }

  /**
   `unfold(getParent, block)`: the block, its parent, its grandparent, ...,
   until a parent hash is not a key. The walk ends at the genesis block.
   */
  function Unfold(c: Chain, k: string): (walk: seq<Block>)
    requires WellFormed(c) && k in c.blocks
    ensures |walk| == c.blocks[k].height
    ensures walk[0] == c.blocks[k]
    ensures forall i :: 0 <= i < |walk| - 1 ==> walk[i].parentHash == walk[i + 1].hash
    ensures walk[|walk| - 1] == c.genesis
    ensures forall i :: 0 <= i < |walk| ==> walk[i].hash in c.blocks && c.blocks[walk[i].hash] == walk[i]
    decreases c.blocks[k].height
  {
    var b := c.blocks[k];
    if b.parentHash in c.blocks then
      assert k != c.genesis.hash;
      var rest := Unfold(c, b.parentHash);
      assert forall i :: 1 <= i < |rest| + 1 ==> ([b] + rest)[i] == rest[i - 1];
      [b] + rest
    else
      [b]
  }

  function Reverse<T>(s: seq<T>): (r: seq<T>)
    ensures |r| == |s|
    ensures forall i :: 0 <= i < |s| ==> r[i] == s[|s| - 1 - i]
  {
    if s == [] then [] else Reverse(s[1..]) + [s[0]]
  }

  /**
   `longestChain()`: from the genesis block to the highest block, each block
   the parent of the next.
   */
  function LongestChain(c: Chain): (chain: seq<Block>)
    requires WellFormed(c)
    ensures |chain| == MaxHeightBlock(c).height
    ensures chain[0] == c.genesis && chain[0].parentHash !in c.blocks
    ensures chain[|chain| - 1] == MaxHeightBlock(c)
    ensures forall i :: 0 <= i < |chain| - 1 ==> chain[i + 1].parentHash == chain[i].hash
    ensures forall i :: 0 <= i < |chain| ==> chain[i].hash in c.blocks && c.blocks[chain[i].hash] == chain[i]
  {
    assert c.genesis.hash in c.order;
    var tip := MaxHeightBlock(c);
    StoredUnderOwnHash(c, tip);
    var walk := Unfold(c, tip.hash);
    ReverseLinks(walk);
    Reverse(walk)
  }

  /** Reversing a child-to-parent walk gives a parent-to-child chain. */
  lemma ReverseLinks(walk: seq<Block>)
    requires forall i :: 0 <= i < |walk| - 1 ==> walk[i].parentHash == walk[i + 1].hash
    ensures var chain := Reverse(walk);
            forall i :: 0 <= i < |chain| - 1 ==> chain[i + 1].parentHash == chain[i].hash
  {
    var chain := Reverse(walk);
    forall i | 0 <= i < |chain| - 1
      ensures chain[i + 1].parentHash == chain[i].hash
    {
      assert chain[i + 1] == walk[|walk| - 2 - i] && chain[i] == walk[|walk| - 1 - i];
    }
  }

  /** In a well-formed chain a stored block sits under its own hash. */
  lemma StoredUnderOwnHash(c: Chain, b: Block)
    requires WellFormed(c) && b in c.blocks.Values
    ensures b.hash in c.blocks && c.blocks[b.hash] == b
  {
    var k :| k in c.blocks && c.blocks[k] == b;
  }

  // ---------------------------------------------------------------------------
  // Admission (`_addBlock`)
  // ---------------------------------------------------------------------------

  /** Every transaction of `txs` passes `isValidTransaction` against the pool left by the ones before it. */
  predicate ReplaysCleanly(p: Pools.Pool, txs: seq<Transaction>)
    decreases |txs|
  {
    txs == [] || (Acceptable(p, txs[0]) && ReplaysCleanly(Pools.HandleTransaction(p, txs[0]), txs[1..]))
  }

  /** A clean replay of non-negative amounts from a pool that overdraws nobody overdraws nobody. */
  lemma {:induction false} CleanReplayKeepsNonNegative(p: Pools.Pool, txs: seq<Transaction>)
    requires Pools.NonNegative(p) && ReplaysCleanly(p, txs)
    requires forall i :: 0 <= i < |txs| ==> 0.0 <= txs[i].amount
    ensures Pools.NonNegative(Pools.ApplyAll(p, txs))
    decreases |txs|
  {
    if txs != [] {
      Pools.HandleValidKeepsNonNegative(p, txs[0]);
      assert forall i :: 0 <= i < |txs[1..]| ==> txs[1..][i] == txs[i + 1];
      CleanReplayKeepsNonNegative(Pools.HandleTransaction(p, txs[0]), txs[1..]);
    }
  }

  lemma HashSetCons(txs: seq<Transaction>)
    requires txs != []
    ensures HashSet(txs) == {txs[0].hash} + HashSet(txs[1..])
  {
    forall h | h in HashSet(txs)
      ensures h in {txs[0].hash} + HashSet(txs[1..])
    {
      var i :| 0 <= i < |txs| && txs[i].hash == h;
      if i > 0 {
        assert txs[1..][i - 1] == txs[i];
      }
    }
  }

  datatype Replayed = Replayed(block: Block, pending: map<string, Transaction>, ok: bool)

  /**
   The replay loop of `_addBlock`: each transaction that passes
   `isValidTransaction` is added to the block and, when `prune` holds, dropped
   from the mempool; one that fails clears `ok` and the loop carries on.
   */
  function Replay(H: Hash, blk: Block, txs: seq<Transaction>, prune: bool,
                  pending: map<string, Transaction>): (rp: Replayed)
    ensures SameHeader(rp.block, blk)
    ensures txs == [] ==> rp == Replayed(blk, pending, true)
    decreases |txs|
  {
    if txs == [] then Replayed(blk, pending, true)
    else
      var tx := txs[0];
      if IsValidTransaction(blk, tx) then
        var pending' := if prune && tx.hash in pending then pending - {tx.hash} else pending;
        Replay(H, AddTransaction(H, blk, tx), txs[1..], prune, pending')
      else
        Replay(H, blk, txs[1..], prune, pending).(ok := false)
  }

  /**
   The replay succeeds exactly when the transactions replay cleanly against
   the block's pool, and then the block holds every transaction, its pool has
   handled each of them in order, and it is sealed again.
   */
  lemma {:induction false} ReplayOutcome(H: Hash, blk: Block, txs: seq<Transaction>, prune: bool,
                                         pending: map<string, Transaction>)
    ensures var rp := Replay(H, blk, txs, prune, pending);
            && (rp.ok <==> ReplaysCleanly(blk.pool, txs))
            && (rp.ok ==> rp.block.pool == Pools.ApplyAll(blk.pool, txs))
            && (rp.ok ==> rp.block.transactions == TxMaps.PutAll(blk.transactions, txs))
            && (rp.ok && txs != [] ==> Sealed(H, rp.block))
    decreases |txs|
  {
    if txs != [] {
      var tx := txs[0];
      if IsValidTransaction(blk, tx) {
        var pending' := if prune && tx.hash in pending then pending - {tx.hash} else pending;
        ReplayOutcome(H, AddTransaction(H, blk, tx), txs[1..], prune, pending');
      } else {
        ReplayOutcome(H, blk, txs[1..], prune, pending);
      }
    }
  }

  /**
   The hashes of the transactions of `txs` that pass `isValidTransaction`
   against the pool left by the accepted ones before them: the ones the
   replay adds to the block.
   */
  function AcceptedHashes(p: Pools.Pool, txs: seq<Transaction>): (hs: set<string>)
    ensures hs <= HashSet(txs)
    decreases |txs|
  {
    if txs == [] then {}
    else
      HashSetCons(txs);
      if Acceptable(p, txs[0]) then {txs[0].hash} + AcceptedHashes(Pools.HandleTransaction(p, txs[0]), txs[1..])
      else AcceptedHashes(p, txs[1..])
  }

  /** In a clean replay every transaction is accepted. */
  lemma {:induction false} CleanReplayAcceptsAll(p: Pools.Pool, txs: seq<Transaction>)
    requires ReplaysCleanly(p, txs)
    ensures AcceptedHashes(p, txs) == HashSet(txs)
    decreases |txs|
  {
    if txs != [] {
      HashSetCons(txs);
      CleanReplayAcceptsAll(Pools.HandleTransaction(p, txs[0]), txs[1..]);
    }
  }

  /**
   The mempool after the replay: when `prune` holds, exactly the hashes of
   the accepted transactions are deleted; a refused transaction stays, and
   nothing else changes. Without `prune` the mempool is untouched.
   */
  lemma {:induction false} ReplayPending(H: Hash, blk: Block, txs: seq<Transaction>, prune: bool,
                                         pending: map<string, Transaction>)
    ensures Replay(H, blk, txs, prune, pending).pending
              == if prune then pending - AcceptedHashes(blk.pool, txs) else pending
    decreases |txs|
  {
    if txs != [] {
      var tx := txs[0];
      if IsValidTransaction(blk, tx) {
        var pending' := if prune && tx.hash in pending then pending - {tx.hash} else pending;
        var blk' := AddTransaction(H, blk, tx);
        assert blk'.pool == Pools.HandleTransaction(blk.pool, tx);
        ReplayPending(H, blk', txs[1..], prune, pending');
        DeleteThenDelete(pending, tx.hash, AcceptedHashes(blk'.pool, txs[1..]));
      } else {
        ReplayPending(H, blk, txs[1..], prune, pending);
      }
    }
  }

  /** After a clean replay with `prune`, no replayed transaction's hash is left in the mempool. */
  lemma ReplayPrunesAll(H: Hash, blk: Block, txs: seq<Transaction>, pending: map<string, Transaction>)
    ensures var rp := Replay(H, blk, txs, true, pending);
            rp.ok ==> rp.pending == pending - HashSet(txs)
  {
    ReplayOutcome(H, blk, txs, true, pending);
    ReplayPending(H, blk, txs, true, pending);
    if ReplaysCleanly(blk.pool, txs) {
      CleanReplayAcceptsAll(blk.pool, txs);
    }
  }

  lemma DeleteThenDelete(m: map<string, Transaction>, h: string, rest: set<string>)
    ensures (if h in m then m - {h} else m) - rest == m - ({h} + rest)
  {
  }

  /** The pool a block is replayed against: its parent's, plus the coinbase credit. */
  function AdmissionPool(c: Chain, b: Block): (p: Pools.Pool)
    requires b.parentHash in c.blocks
    ensures Pools.Balance(p, b.coinbaseBeneficiary)
              == Pools.Balance(c.blocks[b.parentHash].pool, b.coinbaseBeneficiary) + CoinbaseReward
    ensures forall a :: a != b.coinbaseBeneficiary ==>
              Pools.Balance(p, a) == Pools.Balance(c.blocks[b.parentHash].pool, a)
  {
    Pools.AddMUTT(Pools.Clone(c.blocks[b.parentHash].pool), b.coinbaseBeneficiary, CoinbaseReward)
  }

  /** `this.maxHeightBlock().hash === parent.hash` */
  predicate ParentIsTip(c: Chain, b: Block)
    requires Indexed(c) && b.parentHash in c.blocks
  {
    assert b.parentHash in c.order;
    MaxHeightBlock(c).hash == c.blocks[b.parentHash].hash
  }

  /**
   `_addBlock(block)`: reject an invalid or already known block, or one whose
   parent is missing or not exactly one level shallower; otherwise replay its
   transactions on a copy of the parent's pool plus the coinbase credit,
   pruning the mempool as it goes, and store the block only if every
   transaction replayed and no two of them share a hash.
   */
  function AddBlock(H: Hash, c: Chain, b: Block): (r: Chain)
    requires Indexed(c)
    ensures Indexed(r)
    ensures r.name == c.name && r.genesis == c.genesis
    ensures c.blocks.Keys <= r.blocks.Keys
  {
    if !IsValid(H, b) || ContainsBlock(c, b) then c
    // models/blockchain.js:86 reads `parent === undefined && parent.height + 1 !== block.height`;
    // the evident intent, modelled here, is to reject when either holds.
    else if !ParentFits(c.blocks, b) then c
    else
      var rp := ReplayFor(H, c, b);
      var c' := c.(pendingTransactions := rp.pending);
      // The code also stores a block whose transactions repeat a hash; it is
      // refused here, after the replay has pruned the mempool (see Findings).
      if !rp.ok || !DistinctHashes(TxMaps.ValuesOf(b.transactions)) then c' else Store(c', rp.block)
  }

  /**
   The block with the parent's pool plus coinbase attached and its
   transactions detached (models/blockchain.js:90-96), ready for replay.
   */
  function Working(c: Chain, b: Block): Block
    requires b.parentHash in c.blocks
  {
    b.(pool := AdmissionPool(c, b), transactions := TxMaps.EmptyTxMap)
  }

  /** The replay `_addBlock` runs for `b`. */
  function ReplayFor(H: Hash, c: Chain, b: Block): Replayed
    requires Indexed(c) && b.parentHash in c.blocks
  {
    Replay(H, Working(c, b), TxMaps.ValuesOf(b.transactions), ParentIsTip(c, b), c.pendingTransactions)
  }

  /** The checks `_addBlock` makes before it replays `b`. */
  predicate PassesChecks(H: Hash, c: Chain, b: Block) {
    && IsValid(H, b)
    && b.hash !in c.blocks
    && ParentFits(c.blocks, b)
  }

  /** Reference definition: the conditions under which `_addBlock` stores `b`. */
  predicate Admits(H: Hash, c: Chain, b: Block) {
    && PassesChecks(H, c, b)
    && DistinctHashes(TxMaps.ValuesOf(b.transactions))
    && ReplaysCleanly(AdmissionPool(c, b), TxMaps.ValuesOf(b.transactions))
  }

  /** Reference definition: the block as `_addBlock` stores it. */
  function Admitted(c: Chain, b: Block): Block
    requires b.parentHash in c.blocks
  {
    var txs := TxMaps.ValuesOf(b.transactions);
    b.(pool := Pools.ApplyAll(AdmissionPool(c, b), txs),
       transactions := TxMaps.PutAll(TxMaps.EmptyTxMap, txs))
  }

  /** An invalid block, a known hash, or a parent that is missing or at the wrong height: nothing changes. */
  lemma AddBlockRejectsEarly(H: Hash, c: Chain, b: Block)
    requires Indexed(c)
    requires !IsValid(H, b) || b.hash in c.blocks || b.parentHash !in c.blocks
             || c.blocks[b.parentHash].height + 1 != b.height
    ensures AddBlock(H, c, b) == c
  {
  }

  /**
   All or nothing: a block that is not admitted (a transaction refused, or two
   transactions sharing a hash) leaves the store and its order as they were.
   */
  lemma AddBlockAllOrNothing(H: Hash, c: Chain, b: Block)
    requires Indexed(c)
    ensures !Admits(H, c, b) ==> AddBlock(H, c, b).blocks == c.blocks && AddBlock(H, c, b).order == c.order
  {
    if PassesChecks(H, c, b) {
      ReplayOutcome(H, Working(c, b), TxMaps.ValuesOf(b.transactions), ParentIsTip(c, b), c.pendingTransactions);
    }
  }

  /**
   Replaying a valid, non-root block whose transactions carry distinct hashes
   reproduces its hash: the stored block is sealed under the very hash the
   block arrived with, holds the same transactions in the same order, and is
   still valid.
   */
  lemma AdmittedKeepsHash(H: Hash, c: Chain, b: Block)
    requires WellFormed(c) && IsValid(H, b) && ParentFits(c.blocks, b)
    requires DistinctHashes(TxMaps.ValuesOf(b.transactions))
    ensures Admitted(c, b).hash == b.hash && Sealed(H, Admitted(c, b))
    ensures TxMaps.ValuesOf(Admitted(c, b).transactions) == TxMaps.ValuesOf(b.transactions)
    ensures IsValid(H, Admitted(c, b))
  {
    var txs := TxMaps.ValuesOf(b.transactions);
    var a := Admitted(c, b);
    TxMaps.PutAllAppends(TxMaps.EmptyTxMap, txs);
    assert TxMaps.ValuesOf(a.transactions) == txs;
    CombinedHashOnlyReadsTxHashes(H, a.transactions, b.transactions);
    assert b.parentHash != RootSentinel;
    assert CalculateHash(H, a) == CalculateHash(H, b);
  }

  /**
   What `_addBlock` stores: when the block is admitted, exactly one new key,
   its own hash, now maps to the replayed block, appended to the order; every
   existing entry stays as it was. The replayed block still carries the hash
   it arrived with, and is valid.
   */
  lemma AddBlockStores(H: Hash, c: Chain, b: Block)
    requires WellFormed(c)
    ensures Admits(H, c, b) ==>
              && b.hash !in c.blocks
              && AddBlock(H, c, b).blocks == c.blocks[b.hash := Admitted(c, b)]
              && AddBlock(H, c, b).order == c.order + [b.hash]
              && Admitted(c, b).hash == b.hash && IsValid(H, Admitted(c, b))
  {
    if Admits(H, c, b) {
      ReplayedIsAdmitted(H, c, b);
      AdmittedKeepsHash(H, c, b);
      var rp := ReplayFor(H, c, b);
      assert AddBlock(H, c, b) == Store(c.(pendingTransactions := rp.pending), rp.block);
    }
  }

  /** A clean replay of a block with distinct transaction hashes yields exactly `Admitted(c, b)`. */
  lemma ReplayedIsAdmitted(H: Hash, c: Chain, b: Block)
    requires WellFormed(c) && Admits(H, c, b)
    ensures ReplayFor(H, c, b).ok && ReplayFor(H, c, b).block == Admitted(c, b)
  {
    var txs := TxMaps.ValuesOf(b.transactions);
    var rp := ReplayFor(H, c, b);
    ReplayOutcome(H, Working(c, b), txs, ParentIsTip(c, b), c.pendingTransactions);
    assert rp.block.hash == b.hash by {
      if txs != [] {
        AdmittedKeepsHash(H, c, b);
        assert rp.block.transactions == Admitted(c, b).transactions;
        assert SameHeader(rp.block, Admitted(c, b));
        assert CalculateHash(H, rp.block) == CalculateHash(H, Admitted(c, b));
      }
    }
  }

  /**
   The mempool after `_addBlock`: once the block has passed the checks and its
   parent is the highest block, exactly the hashes of the transactions the
   replay accepted are deleted, whether or not the block is then stored;
   otherwise the mempool is unchanged.
   */
  lemma AddBlockMempool(H: Hash, c: Chain, b: Block)
    requires Indexed(c)
    ensures AddBlock(H, c, b).pendingTransactions
              == if PassesChecks(H, c, b) && ParentIsTip(c, b)
                 then c.pendingTransactions - AcceptedHashes(AdmissionPool(c, b), TxMaps.ValuesOf(b.transactions))
                 else c.pendingTransactions
  {
    if PassesChecks(H, c, b) {
      ReplayPending(H, Working(c, b), TxMaps.ValuesOf(b.transactions), ParentIsTip(c, b), c.pendingTransactions);
    }
  }

  /** When a block extending the highest block is admitted, all of its transactions leave the mempool. */
  lemma AddBlockMempoolPrunesAll(H: Hash, c: Chain, b: Block)
    requires Indexed(c)
    ensures Admits(H, c, b) && ParentIsTip(c, b) ==>
              AddBlock(H, c, b).pendingTransactions == c.pendingTransactions - HashSet(TxMaps.ValuesOf(b.transactions))
  {
    AddBlockMempool(H, c, b);
    if Admits(H, c, b) {
      CleanReplayAcceptsAll(AdmissionPool(c, b), TxMaps.ValuesOf(b.transactions));
    }
  }

  /**
   The mempool is pruned before the rejection test at models/blockchain.js:110:
   a transaction that replays before a failing one has left the mempool even
   though the block is not stored.
   */
  lemma PrunedEvenWhenRejected(H: Hash, c: Chain, b: Block)
    requires Indexed(c)
    requires PassesChecks(H, c, b) && ParentIsTip(c, b)
    requires var txs := TxMaps.ValuesOf(b.transactions);
             && txs != []
             && Acceptable(AdmissionPool(c, b), txs[0])
             && txs[0].hash in c.pendingTransactions
             && !ReplaysCleanly(AdmissionPool(c, b), txs)
    ensures AddBlock(H, c, b).blocks == c.blocks
    ensures TxMaps.ValuesOf(b.transactions)[0].hash !in AddBlock(H, c, b).pendingTransactions
  {
    AddBlockAllOrNothing(H, c, b);
    AddBlockMempool(H, c, b);
    var txs := TxMaps.ValuesOf(b.transactions);
    assert txs[0].hash in AcceptedHashes(AdmissionPool(c, b), txs);
  }

  /**
   Admission keeps the chain invariant and the validity of every stored block.
   */
  lemma AddBlockPreservesWellFormed(H: Hash, c: Chain, b: Block)
    requires WellFormed(c) && AllValid(H, c)
    ensures WellFormed(AddBlock(H, c, b)) && AllValid(H, AddBlock(H, c, b))
  {
    var r := AddBlock(H, c, b);
    AddBlockAllOrNothing(H, c, b);
    AddBlockStores(H, c, b);
    if Admits(H, c, b) {
      AdmittedKeepsHash(H, c, b);
      var a := Admitted(c, b);
      ProofOfWorkIsNotRoot(b.hash);
      StoreKeepsWellFormed(H, c, a);
      assert r.blocks == Store(c, a).blocks && r.order == Store(c, a).order;
    } else {
      assert r.blocks == c.blocks && r.order == c.order;
    }
  }

  /** Storing a valid block under a new key, whose parent fits, keeps the invariants. */
  lemma StoreKeepsWellFormed(H: Hash, c: Chain, a: Block)
    requires WellFormed(c) && AllValid(H, c)
    requires a.hash !in c.blocks && a.hash != RootSentinel
    requires ParentFits(c.blocks, a) && IsValid(H, a)
    ensures WellFormed(Store(c, a)) && AllValid(H, Store(c, a))
  {
    StoreKeepsIndexed(c, a);
    StoreKeepsLinks(c, a);
    var r := Store(c, a);
    forall k | k in r.blocks
      ensures IsValid(H, r.blocks[k])
    {
      if k != a.hash {
        assert r.blocks[k] == c.blocks[k];
      }
    }
  }

  lemma StoreKeepsIndexed(c: Chain, a: Block)
    requires Indexed(c) && a.hash !in c.blocks
    ensures Indexed(Store(c, a))
  {
    var r := Store(c, a);
    assert r.order == c.order + [a.hash];
    forall i, j | 0 <= i < j < |r.order|
      ensures r.order[i] != r.order[j]
    {
      if j == |c.order| {
        assert r.order[i] == c.order[i] && c.order[i] in c.blocks;
      }
    }
  }

  lemma StoreKeepsLinks(c: Chain, a: Block)
    requires WellFormed(c) && a.hash !in c.blocks && ParentFits(c.blocks, a)
    ensures forall k :: k in Store(c, a).blocks && k != c.genesis.hash ==>
              ParentFits(Store(c, a).blocks, Store(c, a).blocks[k])
  {
    var r := Store(c, a);
    forall k | k in r.blocks && k != c.genesis.hash
      ensures ParentFits(r.blocks, r.blocks[k])
    {
      if k != a.hash {
        assert ParentFits(c.blocks, c.blocks[k]);
        assert c.blocks[k].parentHash != a.hash;
      }
    }
  }

  /**
   A block whose second transaction spends money its sender no longer has
   after the first is refused in full: the store is unchanged, so neither
   transaction is recorded and the parent's pool still holds the sender's
   balance from before the block.
   */
  lemma DoubleSpendRejected(H: Hash, c: Chain, b: Block, t1: Transaction, t2: Transaction)
    requires Indexed(c) && b.parentHash in c.blocks
    requires TxMaps.ValuesOf(b.transactions) == [t1, t2]
    requires t1.sender == t2.sender && t1.sender != t1.recipient
    requires Pools.Balance(AdmissionPool(c, b), t1.sender) < t1.amount + t2.amount
    ensures AddBlock(H, c, b).blocks == c.blocks
    ensures AddBlock(H, c, b).order == c.order
  {
    var p := AdmissionPool(c, b);
    var txs := [t1, t2];
    assert !ReplaysCleanly(p, txs) by {
      if Acceptable(p, t1) {
        var p' := Pools.HandleTransaction(p, t1);
        assert Pools.Balance(p', t2.sender) == Pools.Balance(p, t1.sender) - t1.amount;
        assert txs[1..] == [t2];
        assert !Acceptable(p', t2);
      }
    }
    AddBlockAllOrNothing(H, c, b);
  }

  /**
   The genesis block of chain "X" is a valid root at height 1, and its child
   mined for "alice" sits at height 2 below it with alice holding 12.5.
   */
  lemma GenesisAndFirstChild(H: Hash)
    ensures var g := NewChain(H, "X").genesis;
            var child := CreateChild(H, g, "alice");
            && g.height == 1 && g.parentHash == "root" && IsValid(H, g)
            && child.height == 2 && child.parentHash == g.hash
            && Pools.Balance(child.pool, "alice") == 12.5
  {
  }
}
