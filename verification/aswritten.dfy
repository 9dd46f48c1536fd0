/**
 Three places where models/blockchain.js, as written, departs from what its
 surroundings evidently intend. The rest of the model follows the intent;
 this module records the code as written and an input that shows the gap.
 */
module AsWritten {
  import opened Wrappers
  import opened Transactions
  import opened Blocks
  import TxMaps
  import Pools
  import Blockchains

  /** How the parent guard at models/blockchain.js:86 ends. */
  datatype GuardOutcome = Reject | Proceed | ThrowsTypeError

  /** `this.blocks[block.parentHash]`: `undefined` (None) when the key is absent. */
  function Lookup(blocks: map<string, Block>, k: string): Option<Block> {
    if k in blocks then Some(blocks[k]) else None
  }

  /**
   `if (parent === undefined && parent.height + 1 !== block.height) return;`
   evaluated as written: `&&` evaluates its right operand only when the left
   one holds, and reading `height` of `undefined` throws. Since the right
   operand is reached only when the parent is missing, the guard never
   rejects: it throws exactly when the parent is missing, and otherwise
   lets every block through, whatever the heights.
   */
  function ParentGuardAsWritten(blocks: map<string, Block>, b: Block): (g: GuardOutcome)
    ensures g != Reject
    ensures g == ThrowsTypeError <==> b.parentHash !in blocks
  {
    var parent := Lookup(blocks, b.parentHash);
    var left := parent.None?;
    if !left then Proceed
    else
      match parent
      case None => ThrowsTypeError
      case Some(p) => if p.height + 1 != b.height then Reject else Proceed
  }

  /**
   A block two levels below its stored parent passes the guard as written,
   while the intended guard (`Blockchains.ParentFits`) refuses it.
   */
  lemma HeightMismatchPassesGuard(b: Block, parent: Block)
    requires b.parentHash == "p" && parent.height == 1 && b.height == 3
    ensures ParentGuardAsWritten(map["p" := parent], b) == Proceed
    ensures !Blockchains.ParentFits(map["p" := parent], b)
  {
  }

  /**
   The pool properties of a block object as written: the constructor sets
   `muttPool` (models/block.js:30) and only `_addBlock` sets `utxoPool`
   (models/blockchain.js:91), on the block it is admitting.
   */
  datatype PoolSlots = PoolSlots(muttPool: Pools.Pool, utxoPool: Option<Pools.Pool>)

  /** The slots of a freshly constructed block. */
  function ConstructedSlots(b: Block): PoolSlots {
    PoolSlots(b.pool, None)
  }

  /**
   `parent.utxoPool.clone()` (models/blockchain.js:90) as written: calling
   `clone` on an absent property throws (None).
   */
  function ParentPoolAsWritten(parent: PoolSlots): Option<Pools.Pool> {
    match parent.utxoPool
    case None => None
    case Some(p) => Some(Pools.Clone(p))
  }

  /**
   The genesis block is built by the constructor and never admitted, so it
   has no `utxoPool`: as written, admitting any child of the genesis block
   throws at models/blockchain.js:90 (None here), whereas the intended
   single pool field gives the genesis pool plus the coinbase credit.
   */
  lemma GenesisChildCannotBeAdmitted(H: Hash, name: string, b: Block)
    requires var c := Blockchains.NewChain(H, name);
             b.parentHash == c.genesis.hash
    ensures var c := Blockchains.NewChain(H, name);
            && ParentPoolAsWritten(ConstructedSlots(c.genesis)).None?
            && Pools.Balance(Blockchains.AdmissionPool(c, b), b.coinbaseBeneficiary) == CoinbaseReward
  {
  }

  /** A digest that returns its input, to make a concrete instance readable. */
  function Identity(s: string): string {
    s
  }

  /** One transaction, listed twice under different keys in `DuplicateRecord`. */
  const DuplicateTx: Transaction := Transaction("000", "a", "z", 4.0, true)

  /** A block from a peer whose transactions object lists `DuplicateTx` under "k1" and "k2". */
  const DuplicateRecord: Block :=
    Block("n", "p", 2, "m", [TxMaps.Entry("k1", DuplicateTx), TxMaps.Entry("k2", DuplicateTx)],
          map["a" := 10.0], "npm000000")

  /** The replay of models/blockchain.js:95-108 applied to `DuplicateRecord`. */
  function DuplicateReplay(): Blockchains.Replayed {
    Blockchains.Replay(Identity, DuplicateWorking(), TxMaps.ValuesOf(DuplicateRecord.transactions), false, map[])
  }

  /**
   A record from a peer may list one transaction under two keys. The replay
   loop of models/blockchain.js:99-108 passes both copies: the sender is
   debited twice, but `this.transactions[tx.hash] = tx` keeps one entry. The
   block is resealed over that one entry, and line 112 would store it under the
   new hash. Here, with the identity as digest, a valid block arrives with hash
   "npm000000" and is resealed as "npm000", which fails proof of work.
   */
  lemma DuplicateHashReplayedTwice()
    ensures IsValid(Identity, DuplicateRecord)
    ensures DuplicateReplay().ok
    ensures Pools.Balance(DuplicateReplay().block.pool, "a") == 2.0
    ensures TxMaps.ValuesOf(DuplicateReplay().block.transactions) == [DuplicateTx]
    ensures DuplicateReplay().block.hash == "npm000"
    ensures !IsValid(Identity, DuplicateReplay().block)
  {
    DuplicateRecordIsValid();
    DuplicateReplayOutcome();
    var h := DuplicateReplay().block.hash;
    assert Tail(h, Difficulty) == "pm000" && Zeros(Difficulty)[0] == '0';
  }

  lemma DuplicateRecordIsValid()
    ensures IsValid(Identity, DuplicateRecord)
  {
    var b := DuplicateRecord;
    assert TxMaps.ValuesOf(b.transactions) == [DuplicateTx, DuplicateTx];
    assert TxHashes([DuplicateTx, DuplicateTx]) == ["000", "000"];
    assert Join(["000", "000"]) == "000000";
    assert CalculateHash(Identity, b) == "npm000000";
    assert Tail(b.hash, Difficulty) == "00000";
  }

  /** The block the replay starts from: the record with its transactions detached. */
  function DuplicateWorking(): Block {
    DuplicateRecord.(transactions := TxMaps.EmptyTxMap)
  }

  /** The working block after the first copy of `DuplicateTx`. */
  function AfterFirstCopy(): Block {
    AddTransaction(Identity, DuplicateWorking(), DuplicateTx)
  }

  /** The working block after the second copy of `DuplicateTx`. */
  function AfterSecondCopy(): Block {
    AddTransaction(Identity, AfterFirstCopy(), DuplicateTx)
  }

  lemma FirstCopyAccepted()
    ensures IsValidTransaction(DuplicateWorking(), DuplicateTx)
    ensures AfterFirstCopy().transactions == [TxMaps.Entry("000", DuplicateTx)]
    ensures Pools.Balance(AfterFirstCopy().pool, "a") == 6.0
  {
    var w := DuplicateWorking();
    assert Pools.Balance(w.pool, "a") == 10.0;
    assert IsValidTransaction(w, DuplicateTx);
    assert AfterFirstCopy().transactions == TxMaps.Put(TxMaps.EmptyTxMap, "000", DuplicateTx);
    assert AfterFirstCopy().pool == Pools.HandleTransaction(w.pool, DuplicateTx);
  }

  lemma SecondCopyAccepted()
    ensures IsValidTransaction(AfterFirstCopy(), DuplicateTx)
    ensures AfterSecondCopy().transactions == [TxMaps.Entry("000", DuplicateTx)]
    ensures Pools.Balance(AfterSecondCopy().pool, "a") == 2.0
    ensures AfterSecondCopy().hash == "npm000"
  {
    FirstCopyAccepted();
    var b1 := AfterFirstCopy();
    var tx := DuplicateTx;
    assert IsValidTransaction(b1, tx);
    var b2 := AfterSecondCopy();
    assert b2.transactions == [TxMaps.Entry("000", tx)] by {
      assert TxMaps.KeysOf(b1.transactions) == ["000"];
      assert TxMaps.IndexOf(b1.transactions, "000") == 0;
    }
    assert b2.hash == "npm000" by {
      assert TxMaps.ValuesOf(b2.transactions) == [tx];
      assert TxHashes([tx]) == ["000"];
      assert Join(["000"]) == "000";
    }
  }

  lemma DuplicateReplayOutcome()
    ensures DuplicateReplay().ok
    ensures Pools.Balance(DuplicateReplay().block.pool, "a") == 2.0
    ensures TxMaps.ValuesOf(DuplicateReplay().block.transactions) == [DuplicateTx]
    ensures DuplicateReplay().block.hash == "npm000"
  {
    var tx := DuplicateTx;
    var txs := TxMaps.ValuesOf(DuplicateRecord.transactions);
    assert txs == [tx, tx];
    FirstCopyAccepted();
    SecondCopyAccepted();
    assert DuplicateReplay() == Blockchains.Replay(Identity, AfterFirstCopy(), [tx], false, map[]) by {
      assert txs[1..] == [tx];
    }
    assert Blockchains.Replay(Identity, AfterFirstCopy(), [tx], false, map[])
        == Blockchains.Replay(Identity, AfterSecondCopy(), [], false, map[]) by {
      assert [tx][1..] == [];
    }
    assert TxMaps.ValuesOf(AfterSecondCopy().transactions) == [tx];
  }
}
