/** The three redundant structures that hold the queue, updated in place. */
module Mempool {
  import opened Prelude
  import opened Protocol
  import opened Ledger
  import opened MempoolRules

  type TxTable = map<Str, Transaction>
  type SenderIndex = map<Str, map<u64, Str>>

  // ---------------------------------------------------------------- the sender index

  function Slot(rows: SenderIndex, sender: Str, nonce: u64): (r: Option<Str>)
  {
    if sender in rows && nonce in rows[sender] then Some(rows[sender][nonce]) else None
  }

  function InsertSlot(rows: SenderIndex, tx: Transaction): (r: SenderIndex)
    ensures forall s, n ::
              Slot(r, s, n) == if s == tx.sender && n == tx.nonce then Some(tx.txHash) else Slot(rows, s, n)
    ensures (forall s :: s in rows ==> rows[s] != map[]) ==> forall s :: s in r ==> r[s] != map[]
  {
    var row: map<u64, Str> := if tx.sender in rows then rows[tx.sender] else map[];
    assert tx.nonce in row[tx.nonce := tx.txHash];
    rows[tx.sender := row[tx.nonce := tx.txHash]]
  }

  function RemoveSlot(rows: SenderIndex, tx: Transaction): (r: SenderIndex)
    ensures forall s, n ::
              Slot(r, s, n) == if s == tx.sender && n == tx.nonce then None else Slot(rows, s, n)
    ensures (forall s :: s in rows ==> rows[s] != map[]) ==> forall s :: s in r ==> r[s] != map[]
  {
    if tx.sender !in rows then rows
    else
      var m := rows[tx.sender] - {tx.nonce};
      assert forall n :: n in rows[tx.sender] && n != tx.nonce ==> n in m;
      if m == map[] then rows - {tx.sender} else rows[tx.sender := m]
  }

  /** `rows` is exactly the (sender, nonce) index of `txs`, with no empty rows. */
  ghost predicate Indexed(txs: TxTable, rows: SenderIndex)
  {
    && (forall h :: h in txs ==> txs[h].txHash == h)
    && (forall h :: h in txs ==> Slot(rows, txs[h].sender, txs[h].nonce) == Some(h))
    && (forall s, n :: Slot(rows, s, n).Some? ==>
          var h := Slot(rows, s, n).value; h in txs && txs[h].sender == s && txs[h].nonce == n)
    && (forall s :: s in rows ==> rows[s] != map[])
  }

  lemma IndexedInsert(txs: TxTable, rows: SenderIndex, tx: Transaction)
    requires Indexed(txs, rows)
    requires tx.txHash !in txs && Slot(rows, tx.sender, tx.nonce).None?
    ensures Indexed(txs[tx.txHash := tx], InsertSlot(rows, tx))
  {
  }

  lemma IndexedRemove(txs: TxTable, rows: SenderIndex, h: Str)
    requires Indexed(txs, rows) && h in txs
    ensures Indexed(txs - {h}, RemoveSlot(rows, txs[h]))
  {
  }

  // ---------------------------------------------------------------- the order

  /** `order` lists the keys of `txs`, each once. */
  ghost predicate Listed(txs: TxTable, order: seq<Str>)
  {
    && Distinct(order)
    && (forall i :: 0 <= i < |order| ==> order[i] in txs)
    && (forall h :: h in txs ==> h in order)
  }

  ghost function Queue(txs: TxTable, order: seq<Str>): (r: seq<Transaction>)
    requires forall i :: 0 <= i < |order| ==> order[i] in txs
    ensures |r| == |order|
    ensures forall i :: 0 <= i < |order| ==> r[i] == txs[order[i]]
  {
    seq(|order|, i requires 0 <= i < |order| => txs[order[i]])
  }

  lemma ListedSize(txs: TxTable, order: seq<Str>)
    requires Listed(txs, order)
    ensures |txs| == |order|
  {
    DistinctCount(order);
    assert Members(order) == txs.Keys;
  }

  lemma QueueLookup(txs: TxTable, rows: SenderIndex, order: seq<Str>, tx: Transaction)
    requires Indexed(txs, rows) && Listed(txs, order)
    ensures Holds(Queue(txs, order), tx.txHash) <==> tx.txHash in txs
    ensures SlotTaken(Queue(txs, order), tx) <==> Slot(rows, tx.sender, tx.nonce).Some?
  {
    var q := Queue(txs, order);
    if tx.txHash in txs {
      var i :| 0 <= i < |order| && order[i] == tx.txHash;
      assert q[i].txHash == tx.txHash;
    }
    if Slot(rows, tx.sender, tx.nonce).Some? {
      var h := Slot(rows, tx.sender, tx.nonce).value;
      var i :| 0 <= i < |order| && order[i] == h;
      assert SameSlot(q[i], tx);
    }
  }

  lemma {:induction false} KeepMembers(order: seq<Str>, drop: set<Str>, h: Str)
    ensures h in Keep(order, drop) <==> h in order && h !in drop
  {
    if order != [] {
      KeepMembers(order[..|order| - 1], drop, h);
      assert order == order[..|order| - 1] + [order[|order| - 1]];
    }
  }

  /** Dropping keys from the table and from the order drops them from the queue. */
  lemma {:induction false} KeepQueue(txs: TxTable, order: seq<Str>, drop: set<Str>)
    requires forall i :: 0 <= i < |order| ==> order[i] in txs
    requires forall h :: h in txs ==> txs[h].txHash == h
    ensures forall i :: 0 <= i < |Keep(order, drop)| ==> Keep(order, drop)[i] in txs - drop
    ensures Queue(txs - drop, Keep(order, drop)) == Without(Queue(txs, order), drop)
    decreases |order|
  {
    if order != [] {
      var n := |order| - 1;
      KeepQueue(txs, order[..n], drop);
      assert Queue(txs, order)[..n] == Queue(txs, order[..n]);
    }
  }

  /** The queue alone determines all three structures. */
  lemma SameQueueSameTables(t1: TxTable, b1: SenderIndex, o1: seq<Str>, t2: TxTable, b2: SenderIndex, o2: seq<Str>)
    requires Indexed(t1, b1) && Listed(t1, o1) && Indexed(t2, b2) && Listed(t2, o2)
    requires Queue(t1, o1) == Queue(t2, o2)
    ensures o1 == o2 && t1 == t2 && b1 == b2
  {
    var q := Queue(t1, o1);
    assert forall i :: 0 <= i < |q| ==> o1[i] == q[i].txHash && o2[i] == q[i].txHash;
    assert o1 == o2;
    assert t1.Keys == t2.Keys;
    forall h | h in t1 ensures t1[h] == t2[h] {
      var i :| 0 <= i < |o1| && o1[i] == h;
      assert q[i] == t1[h] && q[i] == t2[h];
    }
    SameTableSameIndex(t1, b1, b2);
  }

  lemma SameTableSameIndex(txs: TxTable, b1: SenderIndex, b2: SenderIndex)
    requires Indexed(txs, b1) && Indexed(txs, b2)
    ensures b1 == b2
  {
    forall s, n ensures Slot(b1, s, n) == Slot(b2, s, n) {
    }
    RowsIncluded(b1, b2);
    RowsIncluded(b2, b1);
    forall s | s in b1 ensures b1[s] == b2[s] {
      assert forall n :: n in b1[s] <==> Slot(b1, s, n).Some?;
      assert forall n :: n in b2[s] <==> Slot(b2, s, n).Some?;
    }
  }

  lemma RowsIncluded(b1: SenderIndex, b2: SenderIndex)
    requires forall s :: s in b1 ==> b1[s] != map[]
    requires forall s, n :: Slot(b1, s, n) == Slot(b2, s, n)
    ensures forall s :: s in b1 ==> s in b2
  {
    forall s | s in b1 ensures s in b2 {
      var n :| n in b1[s];
      assert Slot(b1, s, n).Some?;
    }
  }

  // ---------------------------------------------------------------- tables that hold a queue

  /** The three structures agree with each other and hold the queue `q`. */
  ghost predicate Represents(rules: Rules, q: seq<Transaction>, txs: TxTable, order: seq<Str>, rows: SenderIndex)
  {
    && Indexed(txs, rows)
    && Listed(txs, order)
    && Queue(txs, order) == q
    && Orderly(rules, q)
  }

  lemma RepresentsEmpty(rules: Rules)
    ensures Represents(rules, [], map[], [], map[])
  {
  }

  lemma RepresentsAt(rules: Rules, q: seq<Transaction>, txs: TxTable, order: seq<Str>, rows: SenderIndex, i: nat)
    requires Represents(rules, q, txs, order, rows) && i < |order|
    ensures |q| == |order| && order[i] in txs && txs[order[i]] == q[i]
  {
  }

  lemma RepresentsSize(rules: Rules, q: seq<Transaction>, txs: TxTable, order: seq<Str>, rows: SenderIndex)
    requires Represents(rules, q, txs, order, rows)
    ensures |txs| == |order| == |q|
  {
    ListedSize(txs, order);
  }

  lemma RepresentsLookup(rules: Rules, q: seq<Transaction>, txs: TxTable, order: seq<Str>, rows: SenderIndex,
          tx: Transaction)
    requires Represents(rules, q, txs, order, rows)
    ensures Holds(q, tx.txHash) <==> tx.txHash in txs
    ensures SlotTaken(q, tx) <==> Slot(rows, tx.sender, tx.nonce).Some?
    ensures Slot(rows, tx.sender, tx.nonce).Some? ==> Slot(rows, tx.sender, tx.nonce).value in txs
  {
    QueueLookup(txs, rows, order, tx);
  }

  lemma RepresentsInsert(rules: Rules, q: seq<Transaction>, txs: TxTable, order: seq<Str>, rows: SenderIndex,
          tx: Transaction)
    requires Represents(rules, q, txs, order, rows)
    requires rules.checkTx(tx).Pass? && !Holds(q, tx.txHash) && !SlotTaken(q, tx)
    ensures Represents(rules, q + [tx], txs[tx.txHash := tx], order + [tx.txHash], InsertSlot(rows, tx))
  {
    QueueLookup(txs, rows, order, tx);
    IndexedInsert(txs, rows, tx);
    OrderlyExtend(rules, q, tx);
    ListedInsert(txs, order, tx);
  }

  lemma ListedInsert(txs: TxTable, order: seq<Str>, tx: Transaction)
    requires Listed(txs, order) && tx.txHash !in txs
    ensures Listed(txs[tx.txHash := tx], order + [tx.txHash])
    ensures Queue(txs[tx.txHash := tx], order + [tx.txHash]) == Queue(txs, order) + [tx]
  {
    forall h | h in txs ensures h in order + [tx.txHash] {
      assert h in order;
    }
  }

  lemma RepresentsTail(rules: Rules, q: seq<Transaction>, txs: TxTable, order: seq<Str>, rows: SenderIndex,
          rows': SenderIndex)
    requires Represents(rules, q, txs, order, rows) && order != []
    requires Indexed(txs - {order[0]}, rows')
    ensures Represents(rules, q[1..], txs - {order[0]}, order[1..], rows')
  {
    ListedTail(txs, order);
    OrderlySuffix(rules, q, 1);
  }

  lemma ListedTail(txs: TxTable, order: seq<Str>)
    requires Listed(txs, order) && order != []
    ensures Listed(txs - {order[0]}, order[1..])
    ensures Queue(txs - {order[0]}, order[1..]) == Queue(txs, order)[1..]
  {
    forall h | h in txs - {order[0]} ensures h in order[1..] {
      InTail(order, h);
    }
    var rest := order[1..];
    forall i | 0 <= i < |rest| ensures rest[i] in txs - {order[0]} {
      assert order[0] != order[i + 1];
    }
    assert Distinct(rest);
  }

  lemma InTail(order: seq<Str>, h: Str)
    requires order != [] && h in order && h != order[0]
    ensures h in order[1..]
  {
    var i :| 0 <= i < |order| && order[i] == h;
    assert order[1..][i - 1] == h;
  }

  lemma RepresentsWithout(rules: Rules, q: seq<Transaction>, txs: TxTable, order: seq<Str>, rows: SenderIndex,
          drop: set<Str>, rows': SenderIndex)
    requires Represents(rules, q, txs, order, rows)
    requires Indexed(txs - drop, rows')
    ensures Represents(rules, Without(q, drop), txs - drop, Keep(order, drop), rows')
  {
    ListedKeep(txs, order, drop);
    WithoutOrderly(rules, q, drop);
  }

  lemma ListedKeep(txs: TxTable, order: seq<Str>, drop: set<Str>)
    requires Listed(txs, order)
    requires forall h :: h in txs ==> txs[h].txHash == h
    ensures Listed(txs - drop, Keep(order, drop))
    ensures Queue(txs - drop, Keep(order, drop)) == Without(Queue(txs, order), drop)
  {
    KeepQueue(txs, order, drop);
    forall h | h in txs - drop ensures h in Keep(order, drop) {
      KeepMembers(order, drop, h);
    }
    KeepDistinct(order, drop);
  }

  lemma {:induction false} KeepDistinct(order: seq<Str>, drop: set<Str>)
    requires Distinct(order)
    ensures Distinct(Keep(order, drop))
  {
    if order != [] {
      var n := |order| - 1;
      KeepDistinct(order[..n], drop);
      KeepMembers(order[..n], drop, order[n]);
    }
  }

  lemma {:induction false} KeepAll(order: seq<Str>, drop: set<Str>)
    requires forall i :: 0 <= i < |order| ==> order[i] !in drop
    ensures Keep(order, drop) == order
  {
    if order != [] {
      KeepAll(order[..|order| - 1], drop);
      assert order == order[..|order| - 1] + [order[|order| - 1]];
    }
  }

  function Orphans(txs: TxTable, order: seq<Str>): (r: set<Str>)
  {
    set h | h in order && h !in txs
  }

  lemma RetainPresent(rules: Rules, q: seq<Transaction>, txs: TxTable, order: seq<Str>, rows: SenderIndex)
    requires Represents(rules, q, txs, order, rows)
    ensures Keep(order, Orphans(txs, order)) == order
  {
    KeepAll(order, Orphans(txs, order));
  }

  lemma RepresentsStale(rules: Rules, q: seq<Transaction>, txs: TxTable, order: seq<Str>, rows: SenderIndex,
          s: Accounts)
    requires Represents(rules, q, txs, order, rows)
    ensures forall h :: h in StaleHashes(s, q) <==> h in txs && Stale(s, txs[h])
  {
    forall h | h in txs && Stale(s, txs[h]) ensures h in StaleHashes(s, q) {
      var i :| 0 <= i < |order| && order[i] == h;
      assert q[i].txHash == h;
    }
  }

  /** The queue alone determines all three structures. */
  lemma RepresentsUnique(rules: Rules, q: seq<Transaction>, t1: TxTable, o1: seq<Str>, b1: SenderIndex, t2: TxTable,
          o2: seq<Str>, b2: SenderIndex)
    requires Represents(rules, q, t1, o1, b1) && Represents(rules, q, t2, o2, b2)
    ensures t1 == t2 && o1 == o2 && b1 == b2
  {
    SameQueueSameTables(t1, b1, o1, t2, b2, o2);
  }

  lemma NotYetQueued(rules: Rules, q: seq<Transaction>, i: nat)
    requires Orderly(rules, q) && i < |q|
    ensures rules.checkTx(q[i]).Pass? && !Holds(q[..i], q[i].txHash) && !SlotTaken(q[..i], q[i])
  {
    forall j | 0 <= j < i ensures q[j].txHash != q[i].txHash {
      assert Hashes(q)[j] != Hashes(q)[i];
    }
  }

  lemma TailNotHolding(q: seq<Transaction>, tx: Transaction)
    requires q != [] && !Holds(q, tx.txHash) && !SlotTaken(q, tx)
    ensures !Holds(q[1..], tx.txHash) && !SlotTaken(q[1..], tx)
  {
    assert forall i :: 0 <= i < |q[1..]| ==> q[1..][i] == q[i + 1];
  }

  lemma RemoveOneMore(txs: TxTable, gone: set<Str>, h: Str)
    ensures txs - gone - {h} == txs - (gone + {h})
  {
  }

  // ---------------------------------------------------------------- the pool

  /** The tables that entering a list in order leaves behind: of equal keys the last one stays. */
  function TableOf(q: seq<Transaction>): (r: TxTable)
  {
    if q == [] then map[] else TableOf(q[..|q| - 1])[q[|q| - 1].txHash := q[|q| - 1]]
  }

  function RowsOf(q: seq<Transaction>): (r: SenderIndex)
  {
    if q == [] then map[] else InsertSlot(RowsOf(q[..|q| - 1]), q[|q| - 1])
  }

  lemma EnterOneMore(q: seq<Transaction>, i: nat)
    requires i < |q|
    ensures TableOf(q[..i + 1]) == TableOf(q[..i])[q[i].txHash := q[i]]
    ensures RowsOf(q[..i + 1]) == InsertSlot(RowsOf(q[..i]), q[i])
    ensures Hashes(q[..i + 1]) == Hashes(q[..i]) + [q[i].txHash]
  {
    assert q[..i + 1][..i] == q[..i];
  }

  class Pool {
    const rules: Rules
    const capacity: nat
    var txs: TxTable
    var order: seq<Str>
    var bySender: SenderIndex

    /** The pending transactions, oldest first. */
    ghost var fifo: seq<Transaction>

    ghost predicate Valid()
      reads this
    {
      Represents(rules, fifo, txs, order, bySender) && |fifo| <= capacity
    }

    constructor (rules: Rules, capacity: nat)
      ensures this.rules == rules && this.capacity == capacity
      ensures Valid() && fifo == []
    {
      this.rules := rules;
      this.capacity := capacity;
      txs, order, bySender, fifo := map[], [], map[], [];
      new;
      RepresentsEmpty(rules);
    }

    /** Removes an entry from the table and the index; the order is the caller's to mend. */
    method RemoveTxHash(hash: Str)
      requires Indexed(txs, bySender)
      modifies this`txs, this`bySender
      ensures Indexed(txs, bySender)
      ensures txs == old(txs) - {hash}
    {
      if hash in txs {
        var tx := txs[hash];
        IndexedRemove(txs, bySender, hash);
        txs := txs - {hash};
        bySender := RemoveSlot(bySender, tx);
      } else {
        assert txs - {hash} == txs;
      }
    }

    /** Removes entries one by one from the table and the index. */
    method RemoveAll(hashes: seq<Str>)
      requires Indexed(txs, bySender)
      modifies this`txs, this`bySender
      ensures Indexed(txs, bySender)
      ensures txs == old(txs) - Members(hashes)
      ensures hashes == [] ==> txs == old(txs) && bySender == old(bySender)
    {
      for i := 0 to |hashes|
        invariant Indexed(txs, bySender)
        invariant txs == old(txs) - Members(hashes[..i])
        invariant i == 0 ==> txs == old(txs) && bySender == old(bySender)
      {
        RemoveTxHash(hashes[i]);
        MembersSnoc(hashes, i);
        RemoveOneMore(old(txs), Members(hashes[..i]), hashes[i]);
      }
      assert hashes[..|hashes|] == hashes;
    }

    method DropHead()
      requires Valid() && order != []
      modifies this
      ensures Valid() && fifo == old(fifo)[1..]
    {
      var h := order[0];
      order := order[1..];
      RemoveTxHash(h);
      fifo := fifo[1..];
      RepresentsTail(rules, old(fifo), old(txs), old(order), old(bySender), bySender);
    }

    /** Pops the order until a hash comes out that is still in the table. */
    method PopPresent() returns (found: Option<Str>, ghost k: nat)
      modifies this`order
      ensures k <= |old(order)| && forall j :: 0 <= j < k ==> old(order)[j] !in txs
      ensures found.None? ==> order == [] && k == |old(order)|
      ensures found.Some? ==>
        k < |old(order)| && found.value == old(order)[k] && found.value in txs && order == old(order)[k + 1..]
    {
      k := 0;
      while order != []
        invariant k <= |old(order)| && order == old(order)[k..]
        invariant forall j :: 0 <= j < k ==> old(order)[j] !in txs
        decreases |order|
      {
        var h := order[0];
        order := order[1..];
        if h in txs {
          return Some(h), k;
        }
        k := k + 1;
      }
      found := None;
    }

    method EvictOldest()
      requires Valid()
      modifies this
      ensures Valid()
      ensures fifo == if old(fifo) == [] then [] else old(fifo)[1..]
    {
      if order != [] { RepresentsAt(rules, fifo, txs, order, bySender, 0); }
      var found, k := PopPresent();
      if found.Some? {
        RemoveTxHash(found.value);
        fifo := fifo[1..];
        RepresentsTail(rules, old(fifo), old(txs), old(order), old(bySender), bySender);
      }
    }

    /** The insertion both submission paths end with. */
    method Insert(tx: Transaction)
      requires Valid() && |fifo| < capacity
      requires rules.checkTx(tx).Pass? && !Holds(fifo, tx.txHash) && !SlotTaken(fifo, tx)
      modifies this
      ensures Valid() && fifo == old(fifo) + [tx]
    {
      RepresentsInsert(rules, fifo, txs, order, bySender, tx);
      bySender := InsertSlot(bySender, tx);
      txs := txs[tx.txHash := tx];
      order := order + [tx.txHash];
      fifo := fifo + [tx];
    }

    /** The checks both submission paths start with. */
    method Admissible(tx: Transaction) returns (r: Outcome)
      requires Valid()
      ensures r == Refusal(rules, fifo, tx)
    {
      RepresentsLookup(rules, fifo, txs, order, bySender, tx);
      r := rules.checkTx(tx);
      if r.Fail? {
        return;
      }
      if tx.txHash in txs {
        return Fail(DuplicateTransaction);
      }
      var existing := Slot(bySender, tx.sender, tx.nonce);
      if existing.Some? && existing.value != tx.txHash {
        return Fail(MempoolNonceConflict);
      }
    }

    method TrySubmit(tx: Transaction) returns (r: Outcome)
      requires Valid()
      modifies this
      ensures Valid()
      ensures (r, fifo) == Submit(rules, capacity, old(fifo), tx)
    {
      r := Admissible(tx);
      if r.Fail? {
        return;
      }
      RepresentsSize(rules, fifo, txs, order, bySender);
      while |txs| >= capacity
        invariant Valid()
        invariant |txs| == |fifo|
        invariant fifo == old(fifo) || (|old(fifo)| == capacity > 0 && fifo == old(fifo)[1..])
        invariant !Holds(fifo, tx.txHash) && !SlotTaken(fifo, tx)
        decreases |txs|
      {
        if fifo != [] { TailNotHolding(fifo, tx); }
        EvictOldest();
        RepresentsSize(rules, fifo, txs, order, bySender);
        if |txs| == 0 {
          break;
        }
      }
      if |txs| >= capacity {
        return Fail(MempoolFull);
      }
      Insert(tx);
    }

    method TrySubmitPendingDrain(tx: Transaction) returns (r: Outcome)
      requires Valid()
      modifies this
      ensures Valid()
      ensures (r, fifo) == SubmitDrain(rules, capacity, old(fifo), tx)
    {
      r := Admissible(tx);
      if r.Fail? {
        return;
      }
      RepresentsSize(rules, fifo, txs, order, bySender);
      if |txs| >= capacity {
        return Fail(MempoolFull);
      }
      Insert(tx);
    }

    method OrderedCandidatesForSeal(s: Accounts, max: nat) returns (r: Selection)
      requires Valid()
      ensures r == Select(rules, s, fifo, max)
    {
      var q := CloneFifo();
      r := WalkForSeal(rules, s, q, max);
    }

    method RemoveByTxHashes(hashes: seq<Str>)
      requires Valid()
      modifies this
      ensures Valid()
      ensures fifo == Without(old(fifo), Members(hashes))
    {
      RemoveAll(hashes);
      RepresentsWithout(rules, fifo, old(txs), order, old(bySender), Members(hashes), bySender);
      order := Keep(order, Members(hashes));
      fifo := Without(fifo, Members(hashes));
    }

    method CloneFifo() returns (q: seq<Transaction>)
      requires Valid()
      ensures q == fifo
    {
      q := [];
      for i := 0 to |order|
        invariant i <= |fifo| == |order|
        invariant q == fifo[..i]
      {
        RepresentsAt(rules, fifo, txs, order, bySender, i);
        if order[i] in txs {
          q := q + [txs[order[i]]];
        }
      }
    }

    /** Adds an entry behind all others without a check. */
    method Requeue(tx: Transaction, ghost orderly: bool)
      requires orderly ==>
        && Represents(rules, fifo, txs, order, bySender)
        && rules.checkTx(tx).Pass? && !Holds(fifo, tx.txHash) && !SlotTaken(fifo, tx)
      modifies this
      ensures fifo == old(fifo) + [tx] && order == old(order) + [tx.txHash]
      ensures txs == old(txs)[tx.txHash := tx] && bySender == InsertSlot(old(bySender), tx)
      ensures orderly ==> Represents(rules, fifo, txs, order, bySender)
    {
      if orderly { RepresentsInsert(rules, fifo, txs, order, bySender, tx); }
      bySender := InsertSlot(bySender, tx);
      txs := txs[tx.txHash := tx];
      order := order + [tx.txHash];
      fifo := fifo + [tx];
    }

    /** The tables are filled from the list alone; a well-formed list makes a valid pool. */
    method RestoreFifo(q: seq<Transaction>)
      modifies this
      ensures fifo == q && order == Hashes(q) && txs == TableOf(q) && bySender == RowsOf(q)
      ensures Orderly(rules, q) && |q| <= capacity ==> Valid()
    {
      txs, order, bySender, fifo := map[], [], map[], [];
      RepresentsEmpty(rules);
      for i := 0 to |q|
        invariant fifo == q[..i]
        invariant order == Hashes(q[..i]) && txs == TableOf(q[..i]) && bySender == RowsOf(q[..i])
        invariant Orderly(rules, q) ==> Represents(rules, fifo, txs, order, bySender)
      {
        EnterOneMore(q, i);
        if Orderly(rules, q) { NotYetQueued(rules, q, i); }
        Requeue(q[i], Orderly(rules, q));
      }
      assert q[..|q|] == q;
    }

    method PurgeNonviable(s: Accounts) returns (removed: nat)
      requires Valid()
      modifies this
      ensures Valid()
      ensures fifo == Purge(rules, s, old(fifo))
      ensures removed == |old(fifo)| - |fifo|
    {
      removed := 0;
      while order != []
        invariant Valid()
        invariant |fifo| == |order|
        invariant Purge(rules, s, fifo) == Purge(rules, s, old(fifo))
        invariant removed == |old(fifo)| - |fifo|
        decreases |order|
      {
        RepresentsAt(rules, fifo, txs, order, bySender, 0);
        var viable := HeadViable(txs[order[0]], s);
        if viable {
          break;
        }
        DropHead();
        RepresentsSize(rules, fifo, txs, order, bySender);
        removed := removed + 1;
      }
    }

    method HeadViable(tx: Transaction, s: Accounts) returns (viable: bool)
      ensures viable == !Nonviable(rules, s, tx)
    {
      var valid := rules.checkTx(tx);
      if valid.Fail? {
        return false;
      }
      if tx.sender !in s {
        return false;
      }
      var account := s[tx.sender];
      if tx.nonce < account.nonce {
        return false;
      }
      if tx.nonce > account.nonce {
        return true;
      }
      var cost := CheckedAdd(tx.amount, tx.fee);
      viable := cost.Some? && account.balance >= cost.value;
    }

    method StaleEntries(s: Accounts) returns (stale: seq<Str>)
      requires Valid()
      ensures Members(stale) == StaleHashes(s, fifo) && Distinct(stale)
    {
      stale := CollectStale(s, txs);
      RepresentsStale(rules, fifo, txs, order, bySender, s);
    }

    method DropStaleNonces(s: Accounts) returns (removed: nat)
      requires Valid()
      modifies this
      ensures Valid()
      ensures fifo == Without(old(fifo), StaleHashes(s, old(fifo)))
      ensures removed == |old(fifo)| - |fifo|
    {
      var stale := StaleEntries(s);
      removed := |stale|;
      DistinctCount(stale);
      StaleCount(rules, s, fifo);
      RemoveByTxHashes(stale);
    }

    /** The hashes of later entries that reuse a sender and nonce of an earlier one. */
    method LaterConflicts() returns (conflicts: seq<Str>)
      requires Valid()
      ensures conflicts == []
    {
      var seen: set<(Str, u64)> := {};
      conflicts := [];
      for i := 0 to |order|
        invariant i <= |fifo| == |order|
        invariant forall k :: k in seen ==> exists j :: 0 <= j < i && fifo[j].sender == k.0 && fifo[j].nonce == k.1
        invariant conflicts != [] ==> exists a, b :: 0 <= a < b < |fifo| && SameSlot(fifo[a], fifo[b])
      {
        RepresentsAt(rules, fifo, txs, order, bySender, i);
        var h := order[i];
        var tx := txs[h];
        var key := (tx.sender, tx.nonce);
        if key in seen {
          ghost var j :| 0 <= j < i && fifo[j].sender == key.0 && fifo[j].nonce == key.1;
          assert SameSlot(fifo[j], fifo[i]);
          conflicts := conflicts + [h];
        }
        seen := seen + {key};
      }
    }

    /** Finds nothing to do: a pool never holds two entries with one sender and nonce. */
    method DropLaterConflicts() returns (removed: nat)
      requires Valid()
      modifies this
      ensures Valid()
      ensures removed == 0 && fifo == old(fifo)
      ensures txs == old(txs) && order == old(order) && bySender == old(bySender)
    {
      var conflicts := LaterConflicts();
      removed := |conflicts|;
      RemoveAll(conflicts);
      RetainListed();
    }

    /** Takes hashes without an entry out of the order: there are none. */
    method RetainListed()
      requires Valid()
      modifies this`order
      ensures order == old(order)
    {
      RetainPresent(rules, fifo, txs, order, bySender);
      order := Keep(order, Orphans(txs, order));
    }

    /** `hygiene_vs_committed_ledger` */
    method HygieneVsCommitted(s: Accounts) returns (front: nat, stale: nat, dup: nat)
      requires Valid()
      modifies this
      ensures Valid()
      ensures fifo == Hygiene(rules, s, old(fifo))
      ensures dup == 0 && front + stale == |old(fifo)| - |fifo|
    {
      front := PurgeNonviable(s);
      stale := DropStaleNonces(s);
      dup := DropLaterConflicts();
    }
  }

  /** Each stale entry of a table once, in whatever order the table hands them out. */
  method CollectStale(s: Accounts, txs: TxTable) returns (stale: seq<Str>)
    ensures forall h :: h in stale <==> h in txs && Stale(s, txs[h])
    ensures Distinct(stale)
  {
    stale := [];
    var rest := txs;
    while rest != map[]
      invariant rest.Keys <= txs.Keys && forall h :: h in rest ==> rest[h] == txs[h]
      invariant forall h :: h in stale <==> h in txs && h !in rest && Stale(s, txs[h])
      invariant Distinct(stale)
      decreases |rest|
    {
      var h :| h in rest;
      if Stale(s, rest[h]) {
        DistinctSnoc(stale, h);
        stale := stale + [h];
      }
      rest := rest - {h};
    }
  }

  /** The selection loop over the queue, on a ledger of its own. */
  method WalkForSeal(rules: Rules, s: Accounts, q: seq<Transaction>, max: nat) returns (r: Selection)
    ensures r == Select(rules, s, q, max)
  {
    var sandbox := new State(s);
    var out: seq<Transaction> := [];
    PrependNothing([], Select(rules, s, q, max));
    assert q[0..] == q;
    for i := 0 to |q|
      invariant fresh(sandbox)
      invariant |out| <= max
      invariant Select(rules, s, q, max) == Prepend(out, Select(rules, sandbox.accounts, q[i..], max - |out|))
    {
      if |out| >= max {
        break;
      }
      var tx := q[i];
      assert q[i..][0] == tx && q[i..][1..] == q[i + 1..];
      if tx.sender !in sandbox.accounts {
        var applied := sandbox.ApplyTransaction(rules, tx);
        PrependOneMore(out, tx, Select(rules, sandbox.accounts, q[i + 1..], max - |out| - 1));
        if applied.Pass? {
          out := out + [tx];
        }
      } else if tx.nonce > sandbox.accounts[tx.sender].nonce {
      } else if tx.nonce < sandbox.accounts[tx.sender].nonce {
        return Err(InvalidNonce);
      } else {
        var applied := sandbox.ApplyTransaction(rules, tx);
        if applied.Fail? {
          return Err(applied.error);
        }
        PrependOneMore(out, tx, Select(rules, sandbox.accounts, q[i + 1..], max - |out| - 1));
        out := out + [tx];
      }
    }
    PrependNothing(out, Select(rules, s, q, max));
    r := Ok(out);
  }
}
