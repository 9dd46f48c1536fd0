/**
 A block of the ledger (models/block.js): a parent reference, a height, a
 nonce, a miner, an ordered transactions object and a balance pool, sealed by
 a hash over the nonce, the parent hash, the miner and the transactions.
 */
module Blocks {
  import opened Wrappers
  import opened Transactions
  import TxMaps
  import Pools

  /**
   The digest (sha256, hex-encoded). Its internals are not modelled: every
   function takes it as a parameter and every property holds for any choice.
   */
  type Hash = string -> string

  /** Number of trailing '0' characters a non-root block's hash must show. */
  const Difficulty: nat := 5
  /** The parent hash that marks a root (genesis) block. */
  const RootSentinel: string := "root"
  /** Stands for the combined transaction hash of a block without transactions. */
  const NoTransactionSentinel: string := "No Transaction in Block"
  /** The coinbase credit paid to the miner of every child block. */
  const CoinbaseReward: real := 12.5
  const SignatureNotValid: string := "Signature not valid"

  datatype Block = Block(
    nonce: string,
    parentHash: string,
    height: int,
    coinbaseBeneficiary: string,
    transactions: TxMaps.TxMap,
    pool: Pools.Pool,
    hash: string)

  /** The constructor's options; an absent option takes its default. */
  datatype BlockOptions = BlockOptions(
    parentHash: string,
    height: int,
    nonce: Option<string>,
    pool: Option<Pools.Pool>,
    transactions: Option<TxMaps.TxMap>,
    coinbaseBeneficiary: Option<string>)

  /** The fields that the hash covers, other than the transactions, plus the height. */
  predicate SameHeader(a: Block, b: Block) {
    && a.nonce == b.nonce
    && a.parentHash == b.parentHash
    && a.height == b.height
    && a.coinbaseBeneficiary == b.coinbaseBeneficiary
  }

  /** `parts.join('')` */
  function Join(parts: seq<string>): string {
    if parts == [] then "" else parts[0] + Join(parts[1..])
  }

  /** `combinedTransactionHash()` */
  function CombinedTransactionHash(H: Hash, txs: TxMaps.TxMap): string {
    var values := TxMaps.ValuesOf(txs);
    if |values| == 0 then NoTransactionSentinel else H(Join(TxHashes(values)))
  }

  /** The combined transaction hash sees only the hashes of the values, in stored order. */
  lemma CombinedHashOnlyReadsTxHashes(H: Hash, a: TxMaps.TxMap, b: TxMaps.TxMap)
    requires TxHashes(TxMaps.ValuesOf(a)) == TxHashes(TxMaps.ValuesOf(b))
    ensures CombinedTransactionHash(H, a) == CombinedTransactionHash(H, b)
  {
    assert |a| == |TxHashes(TxMaps.ValuesOf(a))|;
  }

  /** Joining one more part appends it to the joined string. */
  lemma {:induction false} JoinSnoc(parts: seq<string>, x: string)
    ensures Join(parts + [x]) == Join(parts) + x
  {
    if parts != [] {
      assert (parts + [x])[1..] == parts[1..] + [x];
      JoinSnoc(parts[1..], x);
    }
  }

  /**
   Storing a transaction under a hash that is not yet a key extends the joined
   hashes the combined hash digests by exactly that hash, whether or not the
   object was empty before.
   */
  lemma PutNewExtendsCombinedHash(H: Hash, m: TxMaps.TxMap, tx: Transaction)
    requires forall j :: 0 <= j < |m| ==> m[j].key != tx.hash
    ensures CombinedTransactionHash(H, TxMaps.Put(m, tx.hash, tx))
              == H(Join(TxHashes(TxMaps.ValuesOf(m))) + tx.hash)
  {
    var m' := m + [TxMaps.Entry(tx.hash, tx)];
    TxMaps.AppendNew(m, tx);
    var hs := TxHashes(TxMaps.ValuesOf(m));
    assert TxHashes(TxMaps.ValuesOf(m')) == hs + [tx.hash];
    JoinSnoc(hs, tx.hash);
  }

  /** `_calculateHash()` */
  function CalculateHash(H: Hash, b: Block): string {
    H(b.nonce + b.parentHash + b.coinbaseBeneficiary + CombinedTransactionHash(H, b.transactions))
  }

  /** The block invariant: the stored hash is the hash of the current fields. */
  predicate Sealed(H: Hash, b: Block) {
    b.hash == CalculateHash(H, b)
  }

  /** `_setHash()` */
  function SetHash(H: Hash, b: Block): Block {
    b.(hash := CalculateHash(H, b))
  }

  /**
   `new Block(options)`: options override the defaults nonce "", miner "root",
   a fresh empty pool and an empty transactions object; the hash is computed
   from the result.
   */
  function NewBlock(H: Hash, o: BlockOptions): (b: Block)
    ensures Sealed(H, b)
    ensures b.parentHash == o.parentHash && b.height == o.height
    ensures b.nonce == (if o.nonce.Some? then o.nonce.value else "")
    ensures b.coinbaseBeneficiary == (if o.coinbaseBeneficiary.Some? then o.coinbaseBeneficiary.value else RootSentinel)
    ensures b.pool == (if o.pool.Some? then o.pool.value else Pools.EmptyPool)
    ensures b.transactions == (if o.transactions.Some? then o.transactions.value else TxMaps.EmptyTxMap)
  {
    SetHash(H, Block(
      o.nonce.GetOr(""),
      o.parentHash,
      o.height,
      o.coinbaseBeneficiary.GetOr(RootSentinel),
      o.transactions.GetOr(TxMaps.EmptyTxMap),
      o.pool.GetOr(Pools.EmptyPool),
      ""))
  }

  /** `isRoot()` */
  predicate IsRoot(b: Block) {
    b.parentHash == RootSentinel
  }

  /** `s.substr(-n)`: the last `n` characters, or all of `s` when it is shorter. */
  function Tail(s: string, n: nat): string {
    s[(if |s| < n then 0 else |s| - n)..]
  }

  /** `'0'.repeat(n)` */
  function Zeros(n: nat): string {
    seq(n, _ => '0')
  }

  /** `isValid()`: a root block always; otherwise proof of work and an untampered hash. */
  predicate IsValid(H: Hash, b: Block) {
    IsRoot(b) || (Tail(b.hash, Difficulty) == Zeros(Difficulty) && b.hash == CalculateHash(H, b))
  }

  /** The proof-of-work test, stated character by character. */
  predicate EndsInZeros(s: string, n: nat) {
    n <= |s| && forall i :: |s| - n <= i < |s| ==> s[i] == '0'
  }

  /**
   Validity in full: a block is valid exactly when it is a root block, or its
   hash ends in five '0' characters and equals the hash recomputed from its fields.
   */
  lemma ValidIff(H: Hash, b: Block)
    ensures IsValid(H, b) <==>
              b.parentHash == "root" ||
              (EndsInZeros(b.hash, 5) && b.hash == CalculateHash(H, b))
  {
    var t := Tail(b.hash, Difficulty);
    if EndsInZeros(b.hash, 5) {
      assert t == Zeros(Difficulty);
    }
    if t == Zeros(Difficulty) {
      assert |t| == 5;
      forall i | |b.hash| - 5 <= i < |b.hash|
        ensures b.hash[i] == '0'
      {
        assert b.hash[i] == t[i - (|b.hash| - 5)];
      }
    }
  }

  /** A hash that passes the proof-of-work test is never the root sentinel. */
  lemma ProofOfWorkIsNotRoot(s: string)
    requires Tail(s, Difficulty) == Zeros(Difficulty)
    ensures s != RootSentinel
  {
    assert |Tail(s, Difficulty)| == 5;
  }

  /**
   `createChild(beneficiary)`: a sealed child one level deeper, pointing at
   this block, with no transactions, and a copy of this block's pool in which
   the beneficiary is credited the coinbase reward.
   */
  function CreateChild(H: Hash, parent: Block, beneficiary: string): (child: Block)
    ensures Sealed(H, child)
    ensures child.height == parent.height + 1
    ensures child.parentHash == parent.hash
    ensures child.coinbaseBeneficiary == beneficiary
    ensures child.nonce == "" && child.transactions == TxMaps.EmptyTxMap
    ensures Pools.Balance(child.pool, beneficiary) == Pools.Balance(parent.pool, beneficiary) + CoinbaseReward
    ensures forall a :: a != beneficiary ==> Pools.Balance(child.pool, a) == Pools.Balance(parent.pool, a)
  {
    var block := NewBlock(H, BlockOptions(
      parent.hash, parent.height + 1, None, Some(Pools.Clone(parent.pool)), None, Some(beneficiary)));
    block.(pool := Pools.AddMUTT(block.pool, beneficiary, CoinbaseReward))
  }

  /** The pool accepts `tx` and its signature holds: the test a replay applies to a bare pool. */
  predicate Acceptable(p: Pools.Pool, tx: Transaction) {
    Pools.IsValidTransaction(p, tx) && tx.sigValid
  }

  /** `isValidTransaction(tx)`: the block's pool accepts it and its signature holds. */
  predicate IsValidTransaction(b: Block, tx: Transaction) {
    Acceptable(b.pool, tx)
  }

  /**
   `addTransaction(tx)`: a refused transaction changes nothing; an accepted one
   is stored under its hash, moves the amount from sender to recipient, and
   the block is resealed, with nonce, parent, height and miner unchanged.
   */
  function AddTransaction(H: Hash, b: Block, tx: Transaction): (r: Block)
    ensures !IsValidTransaction(b, tx) ==> r == b
    ensures IsValidTransaction(b, tx) ==>
              && SameHeader(r, b)
              && Sealed(H, r)
              && r.transactions == TxMaps.Put(b.transactions, tx.hash, tx)
              && r.pool == Pools.HandleTransaction(b.pool, tx)
              && TxMaps.Get(r.transactions, tx.hash) == Some(tx)
              && (forall k :: k != tx.hash ==> TxMaps.Get(r.transactions, k) == TxMaps.Get(b.transactions, k))
              && (tx.sender != tx.recipient ==>
                    && Pools.Balance(r.pool, tx.sender) == Pools.Balance(b.pool, tx.sender) - tx.amount
                    && Pools.Balance(r.pool, tx.recipient) == Pools.Balance(b.pool, tx.recipient) + tx.amount)
              && (tx.sender == tx.recipient ==>
                    Pools.Balance(r.pool, tx.sender) == Pools.Balance(b.pool, tx.sender))
              && (forall a :: a != tx.sender && a != tx.recipient ==>
                    Pools.Balance(r.pool, a) == Pools.Balance(b.pool, a))
  {
    if !IsValidTransaction(b, tx) then b
    else
      TxMaps.PutGet(b.transactions, tx.hash, tx);
      SetHash(H, b.(
        transactions := TxMaps.Put(b.transactions, tx.hash, tx),
        pool := Pools.HandleTransaction(b.pool, tx)))
  }

  /** `addingTransactionErrorMessage(tx)`: a bad signature is reported before anything the pool says. */
  function AddingTransactionErrorMessage(b: Block, tx: Transaction): (m: Option<string>)
    ensures !tx.sigValid ==> m == Some(SignatureNotValid)
    ensures tx.sigValid ==> m == Pools.AddingTransactionErrorMessage(b.pool, tx)
    ensures m.None? <==> IsValidTransaction(b, tx)
  {
    if !tx.sigValid then Some(SignatureNotValid)
    else Pools.AddingTransactionErrorMessage(b.pool, tx)
  }

  /** `setNonce(nonce)`: the mining step; only the nonce and the hash change. */
  function SetNonce(H: Hash, b: Block, nonce: string): (r: Block)
    ensures Sealed(H, r)
    ensures r.nonce == nonce
    ensures r.parentHash == b.parentHash && r.height == b.height
    ensures r.coinbaseBeneficiary == b.coinbaseBeneficiary
    ensures r.transactions == b.transactions && r.pool == b.pool
  {
    SetHash(H, b.(nonce := nonce))
  }

  /**
   The mining loop's stopping test: after `setNonce` a non-root block is
   valid exactly when its new hash ends in five '0' characters.
   */
  lemma MinedBlockValidIff(H: Hash, b: Block, nonce: string)
    requires !IsRoot(b)
    ensures IsValid(H, SetNonce(H, b, nonce)) <==> EndsInZeros(SetNonce(H, b, nonce).hash, 5)
  {
    ValidIff(H, SetNonce(H, b, nonce));
  }

  /** The block's wire format. */
  datatype BlockRecord = BlockRecord(
    hash: string,
    nonce: string,
    parentHash: string,
    height: int,
    coinbaseBeneficiary: string,
    transactions: TxMaps.TxMap)

  /** `toJSON()`: everything but the pool. */
  function ToJSON(b: Block): BlockRecord {
    BlockRecord(b.hash, b.nonce, b.parentHash, b.height, b.coinbaseBeneficiary, b.transactions)
  }

  /**
   `blockFromJSON(blockchain, data)`: rebuilds the block through the
   constructor, so the record's `hash` is ignored and recomputed, and the pool
   is a fresh empty one.
   */
  function BlockFromJSON(H: Hash, data: BlockRecord): (b: Block)
    ensures Sealed(H, b)
    ensures b.nonce == data.nonce && b.parentHash == data.parentHash && b.height == data.height
    ensures b.coinbaseBeneficiary == data.coinbaseBeneficiary && b.transactions == data.transactions
    ensures b.pool == Pools.EmptyPool
  {
    NewBlock(H, BlockOptions(
      data.parentHash, data.height, Some(data.nonce), None, Some(data.transactions), Some(data.coinbaseBeneficiary)))
  }

  /** A sealed block survives the wire unchanged except that its pool is left behind. */
  lemma JSONRoundTrip(H: Hash, b: Block)
    requires Sealed(H, b)
    ensures BlockFromJSON(H, ToJSON(b)) == b.(pool := Pools.EmptyPool)
  {
  }

  /**
   The record's claimed `hash` is ignored: any other claim rebuilds the same
   block. A non-root rebuilt block is valid only if the recomputed hash passes
   the proof-of-work test.
   */
  lemma TamperedRecordIsResealed(H: Hash, data: BlockRecord)
    ensures forall h :: BlockFromJSON(H, data.(hash := h)) == BlockFromJSON(H, data)
    ensures var b := BlockFromJSON(H, data);
            && (data.parentHash != RootSentinel ==>
                  (IsValid(H, b) <==> EndsInZeros(b.hash, 5)))
  {
    var b := BlockFromJSON(H, data);
    ValidIff(H, b);
  }
}
