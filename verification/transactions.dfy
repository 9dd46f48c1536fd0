/**
 The transaction capability the ledger consumes. Transaction.js is not part of
 this model: a transaction is an immutable record whose signature check has
 already been decided (`sigValid` stands for `hasValidSignature()`), and its
 plain-record form is the record itself.
 */
module Transactions {

  datatype Transaction = Transaction(
    hash: string,
    sender: string,
    recipient: string,
    amount: real,
    sigValid: bool)

  /** The hashes of `txs`, in order. */
  function TxHashes(txs: seq<Transaction>): seq<string> {
    seq(|txs|, i requires 0 <= i < |txs| => txs[i].hash)
  }

  /** No two transactions of `txs` carry the same hash. */
  predicate DistinctHashes(txs: seq<Transaction>) {
    forall i, j :: 0 <= i < j < |txs| ==> txs[i].hash != txs[j].hash
  }

  /** The set of hashes occurring in `txs`. */
  function HashSet(txs: seq<Transaction>): set<string> {
    set i | 0 <= i < |txs| :: txs[i].hash
  }
}
