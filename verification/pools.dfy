/**
 The balance pool (MUTTPool.js is not part of this model, so it is specified
 by its contract only): a value-semantics map from account to balance, where
 an account that is absent holds 0.
 */
module Pools {
  import opened Wrappers
  import opened Transactions

  type Pool = map<string, real>

  const EmptyPool: Pool := map[]

  /** The diagnostic the pool gives for a transaction it refuses (wording assumed). */
  const InsufficientFunds: string := "insufficient funds"

  function Balance(p: Pool, account: string): real {
    if account in p then p[account] else 0.0
  }

  /** `clone()`: pools are values, so a copy can never be affected by changes to another pool. */
  function Clone(p: Pool): Pool {
    p
  }

  /** `addMUTT(account, amount)`: credit one account and no other. */
  function AddMUTT(p: Pool, account: string, amount: real): (r: Pool)
    ensures Balance(r, account) == Balance(p, account) + amount
    ensures forall a :: a != account ==> Balance(r, a) == Balance(p, a)
  {
    p[account := Balance(p, account) + amount]
  }

  /** `isValidTransaction(tx)`: the sender can cover the amount. */
  predicate IsValidTransaction(p: Pool, tx: Transaction) {
    tx.amount <= Balance(p, tx.sender)
  }

  /** `addingTransactionErrorMessage(tx)`: a reason exactly when the pool refuses `tx`. */
  function AddingTransactionErrorMessage(p: Pool, tx: Transaction): (m: Option<string>)
    ensures m.None? <==> IsValidTransaction(p, tx)
  {
    if IsValidTransaction(p, tx) then None else Some(InsufficientFunds)
  }

  /**
   `handleTransaction(tx, feeBeneficiary)`: debit the sender and credit the
   recipient by the amount. No fee is levied, so the fee beneficiary plays no
   part and is not a parameter here.
   */
  function HandleTransaction(p: Pool, tx: Transaction): (r: Pool)
    ensures tx.sender != tx.recipient ==>
              && Balance(r, tx.sender) == Balance(p, tx.sender) - tx.amount
              && Balance(r, tx.recipient) == Balance(p, tx.recipient) + tx.amount
    ensures tx.sender == tx.recipient ==> Balance(r, tx.sender) == Balance(p, tx.sender)
    ensures forall a :: a != tx.sender && a != tx.recipient ==> Balance(r, a) == Balance(p, a)
  {
    AddMUTT(AddMUTT(p, tx.sender, -tx.amount), tx.recipient, tx.amount)
  }

  /** The pool after handling every transaction of `txs`, in order. */
  function ApplyAll(p: Pool, txs: seq<Transaction>): Pool
    decreases |txs|
  {
    if txs == [] then p else ApplyAll(HandleTransaction(p, txs[0]), txs[1..])
  }

  /** No account is overdrawn. */
  predicate NonNegative(p: Pool) {
    forall a :: a in p ==> 0.0 <= p[a]
  }

  /** A transfer the pool accepts, of a non-negative amount, overdraws nobody. */
  lemma HandleValidKeepsNonNegative(p: Pool, tx: Transaction)
    requires NonNegative(p) && IsValidTransaction(p, tx) && 0.0 <= tx.amount
    ensures NonNegative(HandleTransaction(p, tx))
  {
    var r := HandleTransaction(p, tx);
    forall a | a in r
      ensures 0.0 <= r[a]
    {
      assert 0.0 <= Balance(p, a);
      assert r[a] == Balance(r, a);
    }
  }
}
