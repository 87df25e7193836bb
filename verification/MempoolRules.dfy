/** The queue of pending transactions: what each operation does to the first-in first-out order. */
module MempoolRules {
  import opened Prelude
  import opened Protocol
  import opened Ledger

  // ---------------------------------------------------------------- well-formed queues

  predicate SameSlot(a: Transaction, b: Transaction)
  {
    a.sender == b.sender && a.nonce == b.nonce
  }

  /** No two entries share a hash, no two entries share a sender and nonce, and every entry validates. */
  ghost predicate Orderly(rules: Rules, q: seq<Transaction>)
  {
    && Distinct(Hashes(q))
    && (forall i, j :: 0 <= i < j < |q| ==> !SameSlot(q[i], q[j]))
    && (forall i :: 0 <= i < |q| ==> rules.checkTx(q[i]).Pass?)
  }

  predicate Holds(q: seq<Transaction>, hash: Str)
  {
    exists i :: 0 <= i < |q| && q[i].txHash == hash
  }

  predicate SlotTaken(q: seq<Transaction>, tx: Transaction)
  {
    exists i :: 0 <= i < |q| && SameSlot(q[i], tx)
  }

  lemma OrderlyExtend(rules: Rules, q: seq<Transaction>, tx: Transaction)
    requires Orderly(rules, q)
    requires rules.checkTx(tx).Pass? && !Holds(q, tx.txHash) && !SlotTaken(q, tx)
    ensures Orderly(rules, q + [tx])
  {
    var h := Hashes(q + [tx]);
    forall i, j | 0 <= i < j < |h| ensures h[i] != h[j] {
      assert h[i] == q[i].txHash;
      if j < |q| { assert Hashes(q)[i] != Hashes(q)[j]; }
    }
  }

  lemma OrderlySlice(rules: Rules, q: seq<Transaction>, i: nat, j: nat)
    requires Orderly(rules, q) && i <= j <= |q|
    ensures Orderly(rules, q[i..j])
  {
    forall x, y | 0 <= x < y < j - i ensures Hashes(q[i..j])[x] != Hashes(q[i..j])[y] {
      assert Hashes(q)[i + x] != Hashes(q)[i + y];
    }
  }

  lemma OrderlySuffix(rules: Rules, q: seq<Transaction>, i: nat)
    requires Orderly(rules, q) && i <= |q|
    ensures Orderly(rules, q[i..])
    ensures forall tx :: tx in q[i..] ==> tx in q
  {
    OrderlySlice(rules, q, i, |q|);
    assert q[i..|q|] == q[i..];
  }

  // ---------------------------------------------------------------- submission

  /** Why a transaction is refused, ignoring capacity. */
  function Refusal(rules: Rules, q: seq<Transaction>, tx: Transaction): (r: Outcome)
  {
    if rules.checkTx(tx).Fail? then rules.checkTx(tx)
    else if Holds(q, tx.txHash) then Fail(DuplicateTransaction)
    else if SlotTaken(q, tx) then Fail(MempoolNonceConflict)
    else Pass
  }

  /** `Mempool::try_submit`: outcome and new queue; a full pool drops its oldest entry. */
  function Submit(rules: Rules, capacity: nat, q: seq<Transaction>, tx: Transaction): (r: (Outcome, seq<Transaction>))
  {
    var refusal := Refusal(rules, q, tx);
    if refusal.Fail? then (refusal, q)
    else if capacity == 0 then (Fail(MempoolFull), q)
    else (Pass, (if |q| >= capacity then q[1..] else q) + [tx])
  }

  /** `Mempool::try_submit_pending_drain`: a full pool refuses. */
  function SubmitDrain(rules: Rules, capacity: nat, q: seq<Transaction>, tx: Transaction)
    : (r: (Outcome, seq<Transaction>))
  {
    var refusal := Refusal(rules, q, tx);
    if refusal.Fail? then (refusal, q)
    else if |q| >= capacity then (Fail(MempoolFull), q)
    else (Pass, q + [tx])
  }

  /** Submission accepts exactly the valid newcomers; a refusal changes nothing and has its reason. */
  lemma SubmitExact(rules: Rules, capacity: nat, q: seq<Transaction>, tx: Transaction)
    ensures var (outcome, next) := Submit(rules, capacity, q, tx);
            && (outcome.Fail? ==> next == q)
            && (outcome.Pass? <==> ValidNewcomer(rules, q, tx) && capacity > 0)
            && (outcome == Fail(MempoolFull) && rules.checkTx(tx).Pass? <==>
                  ValidNewcomer(rules, q, tx) && capacity == 0)
            && (rules.checkTx(tx).Pass? ==>
                  && (outcome == Fail(DuplicateTransaction) <==> exists x :: x in q && x.txHash == tx.txHash)
                  && (outcome == Fail(MempoolNonceConflict) <==>
                        && (forall x :: x in q ==> x.txHash != tx.txHash)
                        && (exists x :: x in q && SameSlot(x, tx))))
            && (rules.checkTx(tx).Fail? ==> outcome == rules.checkTx(tx))
  {
    HoldsMeaning(q, tx);
  }

  /** Valid by itself, and no entry of the queue has its hash or its sender and nonce. */
  ghost predicate ValidNewcomer(rules: Rules, q: seq<Transaction>, tx: Transaction)
  {
    rules.checkTx(tx).Pass? && forall x :: x in q ==> x.txHash != tx.txHash && !SameSlot(x, tx)
  }

  lemma HoldsMeaning(q: seq<Transaction>, tx: Transaction)
    ensures Holds(q, tx.txHash) <==> exists x :: x in q && x.txHash == tx.txHash
    ensures SlotTaken(q, tx) <==> exists x :: x in q && SameSlot(x, tx)
  {
    forall x | x in q && x.txHash == tx.txHash ensures Holds(q, tx.txHash) {
      var i :| 0 <= i < |q| && q[i] == x;
    }
    forall x | x in q && SameSlot(x, tx) ensures SlotTaken(q, tx) {
      var i :| 0 <= i < |q| && q[i] == x;
    }
  }

  /** An accepted transaction comes last, behind all that was there; only a full pool loses an entry, its first. */
  lemma SubmitEvicts(rules: Rules, capacity: nat, q: seq<Transaction>, tx: Transaction)
    requires |q| <= capacity && Submit(rules, capacity, q, tx).0.Pass?
    ensures var next := Submit(rules, capacity, q, tx).1;
            && next != [] && next[|next| - 1] == tx
            && (|q| < capacity ==> next[..|next| - 1] == q)
            && (|q| == capacity ==> |next| == |q| && forall i :: 0 < i < |q| ==> next[i - 1] == q[i])
            && (Orderly(rules, q) ==>
                  forall x :: x in next <==> x == tx || (x in q && !(|q| == capacity && x == q[0])))
  {
    var next := Submit(rules, capacity, q, tx).1;
    if |q| == capacity {
      assert q == [q[0]] + q[1..];
      if Orderly(rules, q) { FirstIsUnique(rules, q); }
    }
  }

  lemma FirstIsUnique(rules: Rules, q: seq<Transaction>)
    requires Orderly(rules, q) && q != []
    ensures q[0] !in q[1..]
  {
    forall i | 0 <= i < |q[1..]| ensures q[1..][i] != q[0] {
      assert Hashes(q)[0] != Hashes(q)[i + 1];
    }
  }

  // ---------------------------------------------------------------- removal

  function Without(q: seq<Transaction>, drop: set<Str>): (r: seq<Transaction>)
    ensures |r| <= |q|
  {
    if q == [] then []
    else Without(q[..|q| - 1], drop) + (if q[|q| - 1].txHash in drop then [] else [q[|q| - 1]])
  }

  function Keep(order: seq<Str>, drop: set<Str>): (r: seq<Str>)
  {
    if order == [] then []
    else Keep(order[..|order| - 1], drop) + (if order[|order| - 1] in drop then [] else [order[|order| - 1]])
  }

  lemma {:induction false} WithoutMembers(q: seq<Transaction>, drop: set<Str>, tx: Transaction)
    ensures tx in Without(q, drop) <==> tx in q && tx.txHash !in drop
  {
    if q != [] {
      WithoutMembers(q[..|q| - 1], drop, tx);
      assert q == q[..|q| - 1] + [q[|q| - 1]];
    }
  }

  lemma HashesSnoc(q: seq<Transaction>, tx: Transaction)
    ensures Hashes(q + [tx]) == Hashes(q) + [tx.txHash]
  {
  }

  lemma {:induction false} WithoutHashes(q: seq<Transaction>, drop: set<Str>)
    ensures Hashes(Without(q, drop)) == Keep(Hashes(q), drop)
  {
    if q != [] {
      var front, last := q[..|q| - 1], q[|q| - 1];
      WithoutHashes(front, drop);
      assert q == front + [last];
      HashesSnoc(front, last);
      HashesSnoc(Without(front, drop), last);
      assert Hashes(q)[..|q| - 1] == Hashes(front);
    }
  }

  lemma {:induction false} WithoutOrderly(rules: Rules, q: seq<Transaction>, drop: set<Str>)
    requires Orderly(rules, q)
    ensures Orderly(rules, Without(q, drop))
  {
    if q != [] {
      var n := |q| - 1;
      var front, last := q[..n], q[n];
      OrderlySlice(rules, q, 0, n);
      assert q[0..n] == front;
      WithoutOrderly(rules, front, drop);
      var w := Without(front, drop);
      forall i | 0 <= i < |w| ensures w[i].txHash != last.txHash && !SameSlot(w[i], last) {
        WithoutMembers(front, drop, w[i]);
        var k :| 0 <= k < n && q[k] == w[i];
        assert Hashes(q)[k] != Hashes(q)[n];
      }
      if last.txHash !in drop { OrderlyExtend(rules, w, last); }
    }
  }

  /** Removal keeps order, loses exactly the named entries, and never breaks the queue. */
  lemma WithoutMeaning(rules: Rules, q: seq<Transaction>, drop: set<Str>)
    requires Orderly(rules, q)
    ensures Orderly(rules, Without(q, drop))
    ensures forall tx :: tx in Without(q, drop) <==> tx in q && tx.txHash !in drop
    ensures Hashes(Without(q, drop)) == Keep(Hashes(q), drop)
  {
    WithoutOrderly(rules, q, drop);
    WithoutHashes(q, drop);
    forall tx ensures tx in Without(q, drop) <==> tx in q && tx.txHash !in drop {
      WithoutMembers(q, drop, tx);
    }
  }

  lemma {:induction false} WithoutIrrelevant(q: seq<Transaction>, drop: set<Str>, h: Str)
    requires forall i :: 0 <= i < |q| ==> q[i].txHash != h
    ensures Without(q, drop) == Without(q, drop - {h})
  {
    if q != [] { WithoutIrrelevant(q[..|q| - 1], drop, h); }
  }

  /** Dropping entries that are all there shortens the queue by as many. */
  lemma {:induction false} WithoutCount(q: seq<Transaction>, drop: set<Str>)
    requires Distinct(Hashes(q)) && forall h :: h in drop ==> Holds(q, h)
    ensures |Without(q, drop)| == |q| - |drop|
  {
    if q == [] {
      assert drop == {};
    } else {
      var front, h := q[..|q| - 1], q[|q| - 1].txHash;
      forall i | 0 <= i < |front| ensures front[i].txHash != h {
        assert Hashes(q)[i] != Hashes(q)[|q| - 1];
      }
      assert Hashes(front) == Hashes(q)[..|q| - 1];
      forall x | x in drop - {h} ensures Holds(front, x) {
        var i :| 0 <= i < |q| && q[i].txHash == x;
        assert front[i].txHash == x;
      }
      WithoutIrrelevant(front, drop, h);
      WithoutCount(front, drop - {h});
    }
  }

  lemma {:induction false} WithoutNothing(q: seq<Transaction>, drop: set<Str>)
    requires forall i :: 0 <= i < |q| ==> q[i].txHash !in drop
    ensures Without(q, drop) == q
  {
    if q != [] {
      WithoutNothing(q[..|q| - 1], drop);
      assert q == q[..|q| - 1] + [q[|q| - 1]];
    }
  }

  // ---------------------------------------------------------------- hygiene

  predicate Stale(s: Accounts, tx: Transaction)
  {
    tx.sender in s && tx.nonce < s[tx.sender].nonce
  }

  /** The head of the queue can never be the next transfer on the committed ledger. */
  predicate Nonviable(rules: Rules, s: Accounts, tx: Transaction)
  {
    || rules.checkTx(tx).Fail?
    || tx.sender !in s
    || tx.nonce < s[tx.sender].nonce
    || (tx.nonce == s[tx.sender].nonce && s[tx.sender].balance < tx.amount + tx.fee)
  }

  /** An entry is spared if it comes later, applies now, or is stopped now only by an arithmetic limit. */
  lemma ViableExact(rules: Rules, s: Accounts, tx: Transaction)
    ensures !Nonviable(rules, s, tx) <==>
      && rules.checkTx(tx).Pass? && tx.sender in s
      && (|| tx.nonce > s[tx.sender].nonce
          || ApplyTx(rules, s, tx).Ok?
          || ApplyTx(rules, s, tx) == Err(StateError(NonceOverflow))
          || ApplyTx(rules, s, tx) == Err(StateError(ReceiverOverflow)))
  {
    TransferRefusals(rules, s, tx);
  }

  /** `Mempool::purge_nonviable_under_committed_state` */
  function Purge(rules: Rules, s: Accounts, q: seq<Transaction>): (r: seq<Transaction>)
    ensures |r| <= |q| && r == q[|q| - |r|..]
    ensures r != [] ==> !Nonviable(rules, s, r[0])
    ensures forall i :: 0 <= i < |q| - |r| ==> Nonviable(rules, s, q[i])
  {
    if q != [] && Nonviable(rules, s, q[0]) then Purge(rules, s, q[1..]) else q
  }

  function StaleHashes(s: Accounts, q: seq<Transaction>): (r: set<Str>)
  {
    set i | 0 <= i < |q| && Stale(s, q[i]) :: q[i].txHash
  }

  /** `Mempool::hygiene_vs_committed_ledger` on a well-formed queue: nothing is left for its third pass. */
  function Hygiene(rules: Rules, s: Accounts, q: seq<Transaction>): (r: seq<Transaction>)
  {
    var front := Purge(rules, s, q);
    Without(front, StaleHashes(s, front))
  }

  lemma StaleCount(rules: Rules, s: Accounts, q: seq<Transaction>)
    requires Orderly(rules, q)
    ensures |Without(q, StaleHashes(s, q))| == |q| - |StaleHashes(s, q)|
  {
    WithoutCount(q, StaleHashes(s, q));
  }

  /** Hygiene keeps, behind the doomed front, exactly the entries that are not behind the committed ledger. */
  lemma HygieneMeaning(rules: Rules, s: Accounts, q: seq<Transaction>)
    requires Orderly(rules, q)
    ensures Orderly(rules, Hygiene(rules, s, q))
    ensures |Hygiene(rules, s, q)| <= |q|
    ensures forall tx :: tx in Hygiene(rules, s, q) ==> tx in q && !Stale(s, tx)
    ensures forall tx :: tx in Hygiene(rules, s, q) <==> tx in Purge(rules, s, q) && !Stale(s, tx)
  {
    var front := Purge(rules, s, q);
    OrderlySuffix(rules, q, |q| - |front|);
    DropStaleMeaning(rules, s, front);
  }

  /** Hygiene never drops an entry that the committed ledger would accept now. */
  lemma HygieneSparesViable(rules: Rules, s: Accounts, q: seq<Transaction>, tx: Transaction)
    requires Orderly(rules, q) && tx in q && ApplyTx(rules, s, tx).Ok?
    ensures tx in Hygiene(rules, s, q)
  {
    HygieneMeaning(rules, s, q);
    AppliesIsViable(rules, s, tx);
    PurgeKeeps(rules, s, q, tx);
  }

  lemma AppliesIsViable(rules: Rules, s: Accounts, tx: Transaction)
    requires ApplyTx(rules, s, tx).Ok?
    ensures !Nonviable(rules, s, tx) && !Stale(s, tx)
  {
    TransferMeaning(rules, s, tx);
  }

  lemma PurgeKeeps(rules: Rules, s: Accounts, q: seq<Transaction>, tx: Transaction)
    requires tx in q && !Nonviable(rules, s, tx)
    ensures tx in Purge(rules, s, q)
  {
    var front := Purge(rules, s, q);
    var k := |q| - |front|;
    var i :| 0 <= i < |q| && q[i] == tx;
    assert i >= k;
    assert front == q[k..];
    assert q[k..][i - k] == q[i];
  }

  lemma DropStaleMeaning(rules: Rules, s: Accounts, q: seq<Transaction>)
    requires Orderly(rules, q)
    ensures Orderly(rules, Without(q, StaleHashes(s, q)))
    ensures forall tx :: tx in Without(q, StaleHashes(s, q)) <==> tx in q && !Stale(s, tx)
  {
    var drop := StaleHashes(s, q);
    WithoutOrderly(rules, q, drop);
    forall tx ensures tx in Without(q, drop) <==> tx in q && !Stale(s, tx) {
      WithoutMembers(q, drop, tx);
      if tx in q {
        var i :| 0 <= i < |q| && q[i] == tx;
        StaleHashOf(rules, s, q, i);
      }
    }
  }

  lemma StaleHashOf(rules: Rules, s: Accounts, q: seq<Transaction>, i: nat)
    requires Orderly(rules, q) && i < |q|
    ensures q[i].txHash in StaleHashes(s, q) <==> Stale(s, q[i])
  {
    if q[i].txHash in StaleHashes(s, q) {
      var j :| 0 <= j < |q| && Stale(s, q[j]) && q[j].txHash == q[i].txHash;
      assert Hashes(q)[i] == Hashes(q)[j];
    }
  }

  // ---------------------------------------------------------------- seal selection

  type Selection = Result<seq<Transaction>, ProtocolError>

  /** `Mempool::ordered_candidates_for_seal`: walk the queue on a speculative copy of the ledger. */
  function Select(rules: Rules, s: Accounts, q: seq<Transaction>, max: nat): (r: Selection)
    decreases |q|
  {
    if q == [] || max == 0 then Ok([])
    else
      var tx := q[0];
      if tx.sender !in s then
        match ApplyTx(rules, s, tx)
        case Ok(s1) => Prepend([tx], Select(rules, s1, q[1..], max - 1))
        case Err(_) => Select(rules, s, q[1..], max)
      else if tx.nonce > s[tx.sender].nonce then Select(rules, s, q[1..], max)
      else if tx.nonce < s[tx.sender].nonce then Err(InvalidNonce)
      else
        match ApplyTx(rules, s, tx)
        case Ok(s1) => Prepend([tx], Select(rules, s1, q[1..], max - 1))
        case Err(e) => Err(e)
  }

  /** Positions of a subsequence. */
  ghost predicate Picks(picked: seq<Transaction>, q: seq<Transaction>, at: seq<nat>)
  {
    && |at| == |picked|
    && (forall k :: 0 <= k < |at| ==> at[k] < |q| && q[at[k]] == picked[k])
    && (forall k, l :: 0 <= k < l < |at| ==> at[k] < at[l])
  }

  function Shifted(at: seq<nat>): (r: seq<nat>)
  {
    seq(|at|, k requires 0 <= k < |at| => at[k] + 1)
  }

  /** What is selected applies in order, respects the bound, and is drawn from the queue in order. */
  lemma {:induction false} SelectSound(rules: Rules, s: Accounts, q: seq<Transaction>, max: nat) returns (at: seq<nat>)
    requires Select(rules, s, q, max).Ok?
    ensures |Select(rules, s, q, max).value| <= max
    ensures ApplyAll(rules, s, Select(rules, s, q, max).value).Ok?
    ensures Picks(Select(rules, s, q, max).value, q, at)
    decreases |q|
  {
    if q == [] || max == 0 {
      at := [];
    } else if Select(rules, s, q, max) == Select(rules, s, q[1..], max) {
      at := SelectSound(rules, s, q[1..], max);
      PicksSkip(Select(rules, s, q, max).value, q, at);
      at := Shifted(at);
    } else {
      var s1 := ApplyTx(rules, s, q[0]).value;
      at := SelectSound(rules, s1, q[1..], max - 1);
      PicksTake(Select(rules, s1, q[1..], max - 1).value, q, at);
      ApplyAllCons(rules, s, q[0], Select(rules, s1, q[1..], max - 1).value);
      at := [0] + Shifted(at);
    }
  }

  lemma PicksSkip(picked: seq<Transaction>, q: seq<Transaction>, at: seq<nat>)
    requires q != [] && Picks(picked, q[1..], at)
    ensures Picks(picked, q, Shifted(at))
  {
  }

  lemma PicksTake(picked: seq<Transaction>, q: seq<Transaction>, at: seq<nat>)
    requires q != [] && Picks(picked, q[1..], at)
    ensures Picks([q[0]] + picked, q, [0] + Shifted(at))
  {
  }

  lemma ApplyAllCons(rules: Rules, s: Accounts, tx: Transaction, txs: seq<Transaction>)
    requires ApplyTx(rules, s, tx).Ok?
    ensures ApplyAll(rules, s, [tx] + txs) == ApplyAll(rules, ApplyTx(rules, s, tx).value, txs)
  {
    assert ([tx] + txs)[1..] == txs;
  }

  /** What selection does with one entry, given the ledger its picks so far lead to. */
  function Decide(rules: Rules, s: Accounts, picked: seq<Transaction>, tx: Transaction): (r: Selection)
  {
    match ApplyTx(rules, s, tx)
    case Ok(_) => Ok(picked + [tx])
    case Err(e) =>
      if tx.sender !in s || tx.nonce > s[tx.sender].nonce then Ok(picked)
      else if tx.nonce < s[tx.sender].nonce then Err(InvalidNonce)
      else Err(e)
  }

  lemma PrependDecide(rules: Rules, s: Accounts, first: Transaction, picked: seq<Transaction>, tx: Transaction)
    ensures Prepend([first], Decide(rules, s, picked, tx)) == Decide(rules, s, [first] + picked, tx)
  {
    ConcatAssoc([first], picked, [tx]);
  }

  /** Selection is greedy: it picks an entry exactly when that applies after the earlier picks, up to the limit. */
  lemma {:induction false} SelectGreedy(rules: Rules, s: Accounts, q: seq<Transaction>, tx: Transaction, max: nat)
    requires Select(rules, s, q, max).Ok?
    ensures var picked := Select(rules, s, q, max).value;
            && ApplyAll(rules, s, picked).Ok?
            && (|picked| >= max ==> Select(rules, s, q + [tx], max) == Ok(picked))
            && (|picked| < max ==>
                  Select(rules, s, q + [tx], max) == Decide(rules, ApplyAll(rules, s, picked).value, picked, tx))
    decreases |q|
  {
    if q == [] {
      SelectSingle(rules, s, tx, max);
    } else if max > 0 {
      TailOfConcat(q, [tx]);
      TransferMeaning(rules, s, q[0]);
      if ApplyTx(rules, s, q[0]).Err? {
        SelectGreedy(rules, s, q[1..], tx, max);
      } else {
        var s1 := ApplyTx(rules, s, q[0]).value;
        var more := Select(rules, s1, q[1..], max - 1).value;
        SelectGreedy(rules, s1, q[1..], tx, max - 1);
        ApplyAllCons(rules, s, q[0], more);
        if |more| < max - 1 { PrependDecide(rules, ApplyAll(rules, s1, more).value, q[0], more, tx); }
      }
    }
  }

  lemma SelectSingle(rules: Rules, s: Accounts, tx: Transaction, max: nat)
    ensures Select(rules, s, [] + [tx], max) == if max == 0 then Ok([]) else Decide(rules, s, [], tx)
  {
    assert [] + [tx] == [tx] == [tx] + [] && [tx][1..] == [];
    TransferMeaning(rules, s, tx);
  }

  /** An error is final: whatever follows in the queue, selection still reports it. */
  lemma {:induction false} SelectErrorStays(rules: Rules, s: Accounts, q: seq<Transaction>, more: seq<Transaction>,
          max: nat)
    requires Select(rules, s, q, max).Err?
    ensures Select(rules, s, q + more, max) == Select(rules, s, q, max)
    decreases |q|
  {
    if q != [] && max > 0 {
      TailOfConcat(q, more);
      var applied := ApplyTx(rules, s, q[0]);
      if applied.Ok? && Select(rules, applied.value, q[1..], max - 1).Err? {
        SelectErrorStays(rules, applied.value, q[1..], more, max - 1);
      }
      if Select(rules, s, q[1..], max).Err? { SelectErrorStays(rules, s, q[1..], more, max); }
    }
  }

  /**
   Selection fails at position `i` with `e`: the entries before it leave room for one more pick, the
   ledger after their picks knows the sender, and the transfer comes at a nonce already reached and
   does not apply there.
   */
  ghost predicate FailsAt(rules: Rules, s: Accounts, q: seq<Transaction>, max: nat, i: nat, e: ProtocolError)
  {
    && i < |q| && Select(rules, s, q[..i], max).Ok?
    && var picked := Select(rules, s, q[..i], max).value;
       && |picked| < max && ApplyAll(rules, s, picked).Ok?
       && var reached := ApplyAll(rules, s, picked).value;
          var tx := q[i];
          && tx.sender in reached && tx.nonce <= reached[tx.sender].nonce
          && ApplyTx(rules, reached, tx).Err?
          && e == if tx.nonce < reached[tx.sender].nonce then InvalidNonce else ApplyTx(rules, reached, tx).error
  }

  lemma FailsAtLonger(rules: Rules, s: Accounts, q: seq<Transaction>, n: nat, max: nat, i: nat, e: ProtocolError)
    requires n <= |q| && FailsAt(rules, s, q[..n], max, i, e)
    ensures FailsAt(rules, s, q, max, i, e)
  {
    assert q[..n][..i] == q[..i] && q[..n][i] == q[i];
  }

  /** Where a failed selection fails. */
  lemma {:induction false} SelectFailsSomewhere(rules: Rules, s: Accounts, q: seq<Transaction>, max: nat)
      returns (i: nat)
    requires Select(rules, s, q, max).Err?
    ensures FailsAt(rules, s, q, max, i, Select(rules, s, q, max).error)
    decreases |q|
  {
    var n := |q| - 1;
    assert q == q[..n] + [q[n]];
    if Select(rules, s, q[..n], max).Err? {
      SelectErrorStays(rules, s, q[..n], [q[n]], max);
      i := SelectFailsSomewhere(rules, s, q[..n], max);
      FailsAtLonger(rules, s, q, n, max, i, Select(rules, s, q, max).error);
    } else {
      i := n;
      SelectGreedy(rules, s, q[..n], q[n], max);
    }
  }

  lemma FailsAtFails(rules: Rules, s: Accounts, q: seq<Transaction>, max: nat, i: nat, e: ProtocolError)
    requires FailsAt(rules, s, q, max, i, e)
    ensures Select(rules, s, q, max) == Err(e)
  {
    SelectGreedy(rules, s, q[..i], q[i], max);
    var upTo := q[..i] + [q[i]];
    assert q == upTo + q[i + 1..];
    assert Select(rules, s, upTo, max) == Err(e);
    SelectErrorStays(rules, s, upTo, q[i + 1..], max);
  }

  /** Selection reports an error if and only if some entry fails there, and then that entry's error. */
  lemma SelectFailsExact(rules: Rules, s: Accounts, q: seq<Transaction>, max: nat, e: ProtocolError)
    ensures Select(rules, s, q, max) == Err(e) <==> exists i: nat :: FailsAt(rules, s, q, max, i, e)
  {
    if Select(rules, s, q, max) == Err(e) { var i := SelectFailsSomewhere(rules, s, q, max); }
    forall i: nat | FailsAt(rules, s, q, max, i, e) ensures Select(rules, s, q, max) == Err(e) {
      FailsAtFails(rules, s, q, max, i, e);
    }
  }

  lemma PicksOrderly(rules: Rules, picked: seq<Transaction>, q: seq<Transaction>, at: seq<nat>)
    requires Orderly(rules, q) && Picks(picked, q, at)
    ensures Orderly(rules, picked)
  {
    forall k, l | 0 <= k < l < |picked|
      ensures Hashes(picked)[k] != Hashes(picked)[l] && !SameSlot(picked[k], picked[l])
    {
      assert Hashes(q)[at[k]] != Hashes(q)[at[l]];
    }
  }

  /** The nonces a sender spends in a run form one contiguous range. */
  lemma {:induction false} NonceHit(rules: Rules, s: Accounts, txs: seq<Transaction>, a: Str, n: nat) returns (i: nat)
    requires ApplyAll(rules, s, txs).Ok?
    requires AccountOr(s, a).nonce <= n < AccountOr(s, a).nonce + Sent(txs, a)
    ensures i < |txs| && txs[i].sender == a && txs[i].nonce == n
    decreases |txs|
  {
    TransferMeaning(rules, s, txs[0]);
    if txs[0].sender == a && txs[0].nonce == n {
      i := 0;
    } else {
      i := NonceHit(rules, ApplyTx(rules, s, txs[0]).value, txs[1..], a, n);
      i := i + 1;
    }
  }

  ghost predicate Fresh(s0: Accounts, q: seq<Transaction>)
  {
    forall i :: 0 <= i < |q| ==> AccountOr(s0, q[i].sender).nonce <= q[i].nonce
  }

  ghost predicate DisjointSlots(x: seq<Transaction>, y: seq<Transaction>)
  {
    forall i, j :: 0 <= i < |x| && 0 <= j < |y| ==> !SameSlot(x[i], y[j])
  }

  /** The loop invariant of selection: what was picked so far explains every advanced nonce. */
  lemma {:induction false} SelectNotStaleFrom(rules: Rules, s0: Accounts, picked: seq<Transaction>, s: Accounts,
          q: seq<Transaction>, max: nat)
    requires ApplyAll(rules, s0, picked) == Ok(s)
    requires Orderly(rules, q) && Fresh(s0, q) && DisjointSlots(picked, q)
    ensures Select(rules, s, q, max) != Err(InvalidNonce)
    decreases |q|
  {
    if q != [] && max != 0 {
      var tx, rest := q[0], q[1..];
      OrderlySuffix(rules, q, 1);
      NonceCountsSends(rules, s0, picked, tx.sender);
      if tx.sender in s && tx.nonce < s[tx.sender].nonce {
        var i := NonceHit(rules, s0, picked, tx.sender, tx.nonce);
        assert SameSlot(picked[i], q[0]);
        assert false;
      }
      if ApplyTx(rules, s, tx).Ok? {
        ApplyAllSnoc(rules, s0, picked, tx);
        SelectNotStaleFrom(rules, s0, picked + [tx], ApplyTx(rules, s, tx).value, rest, max - 1);
      }
      SelectNotStaleFrom(rules, s0, picked, s, rest, max);
    }
  }

  /** A queue with no entry behind the ledger never makes selection report a stale nonce. */
  lemma SelectNotStale(rules: Rules, s: Accounts, q: seq<Transaction>, max: nat)
    requires Orderly(rules, q)
    requires forall tx :: tx in q ==> !Stale(s, tx)
    ensures Select(rules, s, q, max) != Err(InvalidNonce)
  {
    forall i | 0 <= i < |q| ensures AccountOr(s, q[i].sender).nonce <= q[i].nonce {
      assert q[i] in q;
    }
    SelectNotStaleFrom(rules, s, [], s, q, max);
  }

  /** After hygiene against a ledger, sealing on that ledger never fails with a stale nonce. */
  lemma HygieneThenSelect(rules: Rules, s: Accounts, q: seq<Transaction>, max: nat)
    requires Orderly(rules, q)
    ensures Select(rules, s, Hygiene(rules, s, q), max) != Err(InvalidNonce)
  {
    HygieneMeaning(rules, s, q);
    SelectNotStale(rules, s, Hygiene(rules, s, q), max);
  }

  // ---------------------------------------------------------------- every run

  datatype PoolOp =
    | SubmitOp(tx: Transaction) | DrainOp(tx: Transaction) | RemoveOp(hashes: set<Str>) | CleanOp(committed: Accounts)

  function PoolStep(rules: Rules, capacity: nat, q: seq<Transaction>, op: PoolOp): (r: seq<Transaction>)
  {
    match op
    case SubmitOp(tx) => Submit(rules, capacity, q, tx).1
    case DrainOp(tx) => SubmitDrain(rules, capacity, q, tx).1
    case RemoveOp(hashes) => Without(q, hashes)
    case CleanOp(committed) => Hygiene(rules, committed, q)
  }

  function PoolRun(rules: Rules, capacity: nat, ops: seq<PoolOp>): (r: seq<Transaction>)
  {
    if ops == [] then []
    else PoolStep(rules, capacity, PoolRun(rules, capacity, ops[..|ops| - 1]), ops[|ops| - 1])
  }

  lemma SubmitOrderly(rules: Rules, capacity: nat, q: seq<Transaction>, tx: Transaction)
    requires Orderly(rules, q) && |q| <= capacity
    ensures Orderly(rules, Submit(rules, capacity, q, tx).1)
    ensures |Submit(rules, capacity, q, tx).1| <= capacity
  {
    if Submit(rules, capacity, q, tx).0.Pass? {
      if |q| >= capacity {
        OrderlySuffix(rules, q, 1);
        assert forall i :: 0 <= i < |q[1..]| ==> q[1..][i] == q[i + 1];
        OrderlyExtend(rules, q[1..], tx);
      } else {
        OrderlyExtend(rules, q, tx);
      }
    }
  }

  lemma PoolStepOrderly(rules: Rules, capacity: nat, q: seq<Transaction>, op: PoolOp)
    requires Orderly(rules, q) && |q| <= capacity
    ensures Orderly(rules, PoolStep(rules, capacity, q, op))
    ensures |PoolStep(rules, capacity, q, op)| <= capacity
  {
    match op
    case SubmitOp(tx) => SubmitOrderly(rules, capacity, q, tx);
    case DrainOp(tx) => if SubmitDrain(rules, capacity, q, tx).0.Pass? { OrderlyExtend(rules, q, tx); }
    case RemoveOp(hashes) => WithoutOrderly(rules, q, hashes);
    case CleanOp(committed) => HygieneMeaning(rules, committed, q);
  }

  /** After any sequence of operations the queue is well formed and within capacity. */
  lemma {:induction false} EveryPoolRunOrderly(rules: Rules, capacity: nat, ops: seq<PoolOp>)
    ensures Orderly(rules, PoolRun(rules, capacity, ops))
    ensures |PoolRun(rules, capacity, ops)| <= capacity
  {
    if ops != [] {
      EveryPoolRunOrderly(rules, capacity, ops[..|ops| - 1]);
      PoolStepOrderly(rules, capacity, PoolRun(rules, capacity, ops[..|ops| - 1]), ops[|ops| - 1]);
    }
  }
}
