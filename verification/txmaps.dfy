/**
 A block's transactions object: string keys mapped to transactions, iterated
 (by `Object.values`) in key-insertion order. Assigning to a key that is
 already present replaces the value in place; a new key goes to the end.
 */
module TxMaps {
  import opened Wrappers
  import opened Transactions

  datatype Entry = Entry(key: string, tx: Transaction)

  /** Entries in insertion order; a well-formed map has unique keys. */
  type TxMap = seq<Entry>

  const EmptyTxMap: TxMap := []

  /** `Object.keys(m)`: the keys in insertion order. */
  function KeysOf(m: TxMap): seq<string> {
    seq(|m|, i requires 0 <= i < |m| => m[i].key)
  }

  /** `Object.values(m)`: the transactions in insertion order. */
  function ValuesOf(m: TxMap): seq<Transaction> {
    seq(|m|, i requires 0 <= i < |m| => m[i].tx)
  }

  predicate UniqueKeys(m: TxMap) {
    forall i, j :: 0 <= i < j < |m| ==> m[i].key != m[j].key
  }

  /** The position of the first entry whose key is `k`. */
  function IndexOf(m: TxMap, k: string): (i: nat)
    requires k in KeysOf(m)
    ensures i < |m| && m[i].key == k
    ensures forall j :: 0 <= j < i ==> m[j].key != k
  {
    if m[0].key == k then 0
    else
      assert KeysOf(m[1..]) == KeysOf(m)[1..];
      1 + IndexOf(m[1..], k)
  }

  /** The first position holding `k` is the only index with that property. */
  lemma {:induction false} IndexOfIsFirst(m: TxMap, k: string, i: nat)
    requires i < |m| && m[i].key == k
    requires forall j :: 0 <= j < i ==> m[j].key != k
    ensures k in KeysOf(m) && IndexOf(m, k) == i
  {
    assert KeysOf(m)[i] == k;
    if i > 0 {
      assert KeysOf(m[1..]) == KeysOf(m)[1..];
      IndexOfIsFirst(m[1..], k, i - 1);
    }
  }

  /** A key that is absent differs from the key of every entry. */
  lemma NotAKey(m: TxMap, k: string)
    requires k !in KeysOf(m)
    ensures forall j :: 0 <= j < |m| ==> m[j].key != k
  {
    forall j | 0 <= j < |m|
      ensures m[j].key != k
    {
      assert KeysOf(m)[j] == m[j].key;
    }
  }

  /** `m[k]`, or None when `k` is not a key. */
  function Get(m: TxMap, k: string): Option<Transaction> {
    if k in KeysOf(m) then Some(m[IndexOf(m, k)].tx) else None
  }

  /** `m[k] = tx`: replace in place when `k` is present, append otherwise. */
  function Put(m: TxMap, k: string, tx: Transaction): (r: TxMap)
    ensures KeysOf(r) == if k in KeysOf(m) then KeysOf(m) else KeysOf(m) + [k]
    ensures k !in KeysOf(m) ==> ValuesOf(r) == ValuesOf(m) + [tx]
    ensures UniqueKeys(m) ==> UniqueKeys(r)
  {
    if k in KeysOf(m) then m[IndexOf(m, k) := Entry(k, tx)]
    else
      NotAKey(m, k);
      m + [Entry(k, tx)]
  }

  /** After `m[k] = tx`, reading `k` gives `tx` and every other key reads as before. */
  lemma PutGet(m: TxMap, k: string, tx: Transaction)
    ensures Get(Put(m, k, tx), k) == Some(tx)
    ensures forall k' :: k' != k ==> Get(Put(m, k, tx), k') == Get(m, k')
  {
    var r := Put(m, k, tx);
    var i := if k in KeysOf(m) then IndexOf(m, k) else |m|;
    if k !in KeysOf(m) {
      NotAKey(m, k);
    }
    IndexOfIsFirst(r, k, i);
    forall k' | k' != k
      ensures Get(r, k') == Get(m, k')
    {
      if k' in KeysOf(m) {
        IndexOfIsFirst(r, k', IndexOf(m, k'));
      }
    }
  }

  /** The transactions object after `Put`ting every transaction of `txs` under its own hash, in order. */
  function PutAll(m: TxMap, txs: seq<Transaction>): TxMap
    decreases |txs|
  {
    if txs == [] then m else PutAll(Put(m, txs[0].hash, txs[0]), txs[1..])
  }

  /** No transaction of `txs` has its hash among the keys of `m`. */
  predicate FreshFor(m: TxMap, txs: seq<Transaction>) {
    forall i, j :: 0 <= i < |txs| && 0 <= j < |m| ==> txs[i].hash != m[j].key
  }

  /** Appending the entries of `txs` one by one reads back as `txs` after `m`. */
  lemma {:induction false} PutAllAppends(m: TxMap, txs: seq<Transaction>)
    requires DistinctHashes(txs) && FreshFor(m, txs)
    ensures ValuesOf(PutAll(m, txs)) == ValuesOf(m) + txs
    decreases |txs|
  {
    if txs != [] {
      var rest := txs[1..];
      var m' := m + [Entry(txs[0].hash, txs[0])];
      AppendNew(m, txs[0]);
      TailStaysFresh(m, txs, m');
      PutAllAppends(m', rest);
      assert PutAll(m, txs) == PutAll(m', rest);
      ConsShift(ValuesOf(m), txs);
    }
  }

  lemma ConsShift<T>(a: seq<T>, s: seq<T>)
    requires s != []
    ensures (a + [s[0]]) + s[1..] == a + s
  {
    assert s == [s[0]] + s[1..];
  }

  /** Putting a transaction under a hash that is not yet a key appends it. */
  lemma AppendNew(m: TxMap, tx: Transaction)
    requires forall j :: 0 <= j < |m| ==> m[j].key != tx.hash
    ensures Put(m, tx.hash, tx) == m + [Entry(tx.hash, tx)]
    ensures ValuesOf(m + [Entry(tx.hash, tx)]) == ValuesOf(m) + [tx]
  {
    assert tx.hash !in KeysOf(m);
  }

  /** After appending the first transaction, the rest are still distinct and new. */
  lemma TailStaysFresh(m: TxMap, txs: seq<Transaction>, m': TxMap)
    requires txs != [] && DistinctHashes(txs) && FreshFor(m, txs)
    requires m' == m + [Entry(txs[0].hash, txs[0])]
    ensures DistinctHashes(txs[1..]) && FreshFor(m', txs[1..])
  {
    var rest := txs[1..];
    forall i, j | 0 <= i < |rest| && 0 <= j < |m'|
      ensures rest[i].hash != m'[j].key
    {
      assert rest[i] == txs[i + 1];
    }
  }
}
