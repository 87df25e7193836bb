/** The pending-transaction file: parsed whole, drained into the pool in order, rewritten atomically. */
module PendingFile {
  import opened Prelude
  import opened Protocol
  import opened Records
  import opened MempoolRules
  import Mempool
  import Codec

  const MAX_PENDING: u32 := 0x40_0000

  // ---------------------------------------------------------------- the file

  datatype PendingFault = Unreadable

  /** `parse_pending_file_bytes`: every frame or nothing. */
  function ParsePending<T>(k: Format<T>, s: Bytes): (r: Result<seq<T>, PendingFault>)
    decreases |s|
  {
    if s == [] then Ok([])
    else
      match TakeBlob(s)
      case Stuck => Err(Unreadable)
      case Got(chunk, rest) =>
        if |chunk| > MAX_PENDING || |rest| >= |s| then Err(Unreadable)
        else
          match k.decode(chunk)
          case None => Err(Unreadable)
          case Some(x) => Prepend([x], ParsePending(k, rest))
  }

  /** Every item encodes, within the frame cap of the file. */
  ghost predicate Small<T>(k: Format<T>, xs: seq<T>)
  {
    forall i :: 0 <= i < |xs| ==> k.encode(xs[i]).Some? && |k.encode(xs[i]).value| <= MAX_PENDING
  }

  /** A file that parses is exactly the encoding of what it parses to. */
  lemma {:induction false} PendingCanonical<T(!new)>(k: Format<T>, s: Bytes)
    requires TwoSided(k)
    requires ParsePending(k, s).Ok?
    ensures EncodeRecords(k, ParsePending(k, s).value) == Some(s)
    ensures Small(k, ParsePending(k, s).value)
    decreases |s|
  {
    if s != [] {
      TakeBlobCanonical(s);
      var chunk, rest := TakeBlob(s).value, TakeBlob(s).rest;
      var x, xs := k.decode(chunk).value, ParsePending(k, rest).value;
      assert k.encode(x) == Some(chunk);
      PendingCanonical(k, rest);
      assert ([x] + xs)[1..] == xs;
    }
  }

  /** Whatever the queue writes, it reads back. */
  lemma {:induction false} PendingRoundTrip<T(!new)>(k: Format<T>, xs: seq<T>)
    requires TwoSided(k)
    requires Small(k, xs)
    ensures EncodeRecords(k, xs).Some?
    ensures ParsePending(k, EncodeRecords(k, xs).value) == Ok(xs)
    decreases |xs|
  {
    if xs != [] {
      PendingRoundTrip(k, xs[1..]);
      var d := k.encode(xs[0]).value;
      TakeBlobRoundTrip(d, EncodeRecords(k, xs[1..]).value);
      assert k.decode(d) == Some(xs[0]);
      assert xs == [xs[0]] + xs[1..];
    }
  }

  /** The encoding of the tail of a list is a suffix of its encoding. */
  lemma {:induction false} RecordsSuffix<T>(k: Format<T>, xs: seq<T>, i: nat)
    requires EncodeRecords(k, xs).Some? && i <= |xs|
    ensures EncodeRecords(k, xs[i..]).Some?
    ensures var whole, tail := EncodeRecords(k, xs).value, EncodeRecords(k, xs[i..]).value;
            |tail| <= |whole| && tail == whole[|whole| - |tail|..]
    decreases i
  {
    if i == 0 {
      assert xs[0..] == xs;
    } else {
      RecordsSuffix(k, xs[1..], i - 1);
      assert xs[1..][i - 1..] == xs[i..];
    }
  }

  /** What is left of a parsed file encodes, to a suffix of the file. */
  lemma PendingTail<T(!new)>(k: Format<T>, s: Bytes, i: nat)
    requires TwoSided(k) && ParsePending(k, s).Ok? && i <= |ParsePending(k, s).value|
    ensures EncodeRecords(k, ParsePending(k, s).value[i..]).Some?
    ensures var tail := EncodeRecords(k, ParsePending(k, s).value[i..]).value;
            |tail| <= |s| && tail == s[|s| - |tail|..]
  {
    PendingCanonical(k, s);
    RecordsSuffix(k, ParsePending(k, s).value, i);
  }

  // ---------------------------------------------------------------- the drain

  /** How many queue entries the pool takes in (or already had), and the pool afterwards. */
  function Drained(rules: Rules, capacity: nat, q: seq<Transaction>, txs: seq<Transaction>)
    : (r: (nat, seq<Transaction>))
    ensures r.0 <= |txs|
    decreases |txs|
  {
    if txs == [] then (0, q)
    else
      var (outcome, next) := SubmitDrain(rules, capacity, q, txs[0]);
      if outcome.Pass? || outcome == Fail(DuplicateTransaction) then
        var (n, last) := Drained(rules, capacity, next, txs[1..]);
        (n + 1, last)
      else (0, q)
  }

  /** The pool only grows at its end, and nothing taken from the file is missing from it. */
  lemma {:induction false} DrainLosesNothing(rules: Rules, capacity: nat, q: seq<Transaction>, txs: seq<Transaction>)
    requires forall tx :: rules.checkTx(tx) != Fail(DuplicateTransaction)
    requires Orderly(rules, q)
    ensures var (n, last) := Drained(rules, capacity, q, txs);
            && q <= last
            && Orderly(rules, last)
            && forall i :: 0 <= i < n ==> Holds(last, txs[i].txHash)
    decreases |txs|
  {
    if txs != [] {
      var (outcome, next) := SubmitDrain(rules, capacity, q, txs[0]);
      if outcome.Pass? || outcome == Fail(DuplicateTransaction) {
        if outcome.Pass? {
          OrderlyExtend(rules, q, txs[0]);
          assert next[|q|].txHash == txs[0].txHash;
        }
        assert Holds(next, txs[0].txHash);
        DrainLosesNothing(rules, capacity, next, txs[1..]);
        var (n, last) := Drained(rules, capacity, next, txs[1..]);
        HoldsLonger(next, last, txs[0].txHash);
        forall i | 0 <= i < n + 1 ensures Holds(last, txs[i].txHash) {
          if i > 0 { assert txs[i] == txs[1..][i - 1]; }
        }
      }
    }
  }

  /** What the pool had, followed by the entries of a file that are new when their turn comes. */
  function Entered(q: seq<Transaction>, txs: seq<Transaction>): (r: seq<Transaction>)
  {
    if txs == [] then q
    else
      var before, tx := Entered(q, txs[..|txs| - 1]), txs[|txs| - 1];
      if Holds(before, tx.txHash) then before else before + [tx]
  }

  /** The pool cannot take the entry: it is invalid, or it is new and its slot is taken or there is no room. */
  predicate Blocked(rules: Rules, capacity: nat, q: seq<Transaction>, tx: Transaction)
  {
    rules.checkTx(tx).Fail? || (!Holds(q, tx.txHash) && (SlotTaken(q, tx) || |q| >= capacity))
  }

  lemma {:induction false} EnteredCons(q: seq<Transaction>, tx: Transaction, txs: seq<Transaction>)
    ensures Entered(q, [tx] + txs) == Entered(if Holds(q, tx.txHash) then q else q + [tx], txs)
    decreases |txs|
  {
    var all := [tx] + txs;
    if txs == [] {
      assert all == [tx] && [tx][..0] == [];
    } else {
      var n := |txs| - 1;
      assert all[..|all| - 1] == [tx] + txs[..n] && all[|all| - 1] == txs[n];
      EnteredCons(q, tx, txs[..n]);
    }
  }

  /** The drain stops at `n`, the first entry that is blocked when its turn comes, with the pool `last`. */
  ghost predicate StopsAt(rules: Rules, capacity: nat, q: seq<Transaction>, txs: seq<Transaction>, n: nat,
          last: seq<Transaction>)
  {
    && n <= |txs|
    && last == Entered(q, txs[..n])
    && (forall i :: 0 <= i < n ==> !Blocked(rules, capacity, Entered(q, txs[..i]), txs[i]))
    && (n < |txs| ==> Blocked(rules, capacity, last, txs[n]))
  }

  lemma StopsAtOnce(rules: Rules, capacity: nat, q: seq<Transaction>, txs: seq<Transaction>)
    requires txs == [] || Blocked(rules, capacity, q, txs[0])
    ensures StopsAt(rules, capacity, q, txs, 0, q)
  {
    assert txs[..0] == [];
  }

  lemma EnteredLater(q: seq<Transaction>, next: seq<Transaction>, txs: seq<Transaction>, i: nat)
    requires 0 < i <= |txs| && next == if Holds(q, txs[0].txHash) then q else q + [txs[0]]
    ensures Entered(q, txs[..i]) == Entered(next, txs[1..][..i - 1])
  {
    assert txs[..i] == [txs[0]] + txs[1..][..i - 1];
    EnteredCons(q, txs[0], txs[1..][..i - 1]);
  }

  lemma StopsLater(rules: Rules, capacity: nat, q: seq<Transaction>, txs: seq<Transaction>, n: nat,
          last: seq<Transaction>)
    requires txs != [] && !Blocked(rules, capacity, q, txs[0])
    requires StopsAt(rules, capacity, if Holds(q, txs[0].txHash) then q else q + [txs[0]], txs[1..], n, last)
    ensures StopsAt(rules, capacity, q, txs, n + 1, last)
  {
    var next, rest := if Holds(q, txs[0].txHash) then q else q + [txs[0]], txs[1..];
    EnteredLater(q, next, txs, n + 1);
    forall i | 0 <= i < n + 1 ensures !Blocked(rules, capacity, Entered(q, txs[..i]), txs[i]) {
      if i == 0 {
        assert txs[..0] == [];
      } else {
        EnteredLater(q, next, txs, i);
      }
    }
  }

  /**
   The drain goes exactly as far as it can: the pool afterwards is the old one followed by the
   consumed entries that were new when their turn came, in file order, and the drain stops at the
   first entry that the pool cannot take.
   */
  lemma {:induction false} DrainExact(rules: Rules, capacity: nat, q: seq<Transaction>, txs: seq<Transaction>)
    requires forall tx :: rules.checkTx(tx) != Fail(DuplicateTransaction)
    ensures var (n, last) := Drained(rules, capacity, q, txs);
            StopsAt(rules, capacity, q, txs, n, last)
    decreases |txs|
  {
    if txs == [] || Blocked(rules, capacity, q, txs[0]) {
      StopsAtOnce(rules, capacity, q, txs);
    } else {
      var next := SubmitDrain(rules, capacity, q, txs[0]).1;
      DrainExact(rules, capacity, next, txs[1..]);
      var (n, last) := Drained(rules, capacity, next, txs[1..]);
      StopsLater(rules, capacity, q, txs, n, last);
    }
  }

  /** A copy of a pool entry that no longer validates still blocks the file: validation comes first. */
  lemma InvalidCopyBlocks(rules: Rules, capacity: nat, q: seq<Transaction>, tx: Transaction, txs: seq<Transaction>)
    requires Holds(q, tx.txHash) && rules.checkTx(tx).Fail? && rules.checkTx(tx) != Fail(DuplicateTransaction)
    ensures Drained(rules, capacity, q, [tx] + txs) == (0, q)
  {
  }

  lemma HoldsLonger(q: seq<Transaction>, longer: seq<Transaction>, h: Str)
    requires q <= longer && Holds(q, h)
    ensures Holds(longer, h)
  {
    var i :| 0 <= i < |q| && q[i].txHash == h;
    assert longer[i].txHash == h;
  }

  /** The rules of the running node never blame a single transaction for being a duplicate. */
  lemma StandardNeverDuplicate(c: Crypto)
    ensures forall tx :: StandardRules(c).checkTx(tx) != Fail(DuplicateTransaction)
  {
  }

  /**
   The node as built: whatever readable file it drains into whatever pool, the pool keeps what it had,
   everything consumed is in it, the drain stops at the first entry the pool cannot take, and what is
   left over encodes to a suffix of the file.
   */
  lemma NodeDrain(c: Crypto, capacity: nat, q: seq<Transaction>, s: Bytes)
    requires Orderly(StandardRules(c), q) && ParsePending(Codec.TX_FORMAT, s).Ok?
    ensures var txs := ParsePending(Codec.TX_FORMAT, s).value;
            var (n, last) := Drained(StandardRules(c), capacity, q, txs);
            var left := EncodeRecords(Codec.TX_FORMAT, txs[n..]);
            && q <= last && Orderly(StandardRules(c), last)
            && (forall i :: 0 <= i < n ==> Holds(last, txs[i].txHash))
            && StopsAt(StandardRules(c), capacity, q, txs, n, last)
            && left.Some? && |left.value| <= |s| && left.value == s[|s| - |left.value|..]
  {
    var txs := ParsePending(Codec.TX_FORMAT, s).value;
    StandardNeverDuplicate(c);
    DrainLosesNothing(StandardRules(c), capacity, q, txs);
    DrainExact(StandardRules(c), capacity, q, txs);
    Codec.TxTwoSided();
    PendingTail(Codec.TX_FORMAT, s, Drained(StandardRules(c), capacity, q, txs).0);
  }

  // ---------------------------------------------------------------- loops

  /** One turn of the parsing loop: the entry at `pos` and where the next one starts. */
  method ReadEntry<T>(k: Format<T>, data: Bytes, pos: nat) returns (r: Option<(T, nat)>)
    requires pos < |data|
    ensures r.None? ==> ParsePending(k, data[pos..]) == Err(Unreadable)
    ensures r.Some? ==>
      && pos < r.value.1 <= |data|
      && ParsePending(k, data[pos..]) == Prepend([r.value.0], ParsePending(k, data[r.value.1..]))
  {
    BlobAt(data, pos);
    if pos + 4 > |data| {
      return None;
    }
    var len := U32Of(data[pos..pos + 4]);
    if len > MAX_PENDING {
      return None;
    }
    var end := pos + 4 + len;
    if end > |data| {
      return None;
    }
    var x := k.decode(data[pos + 4..end]);
    if x.None? {
      return None;
    }
    r := Some((x.value, end));
  }

  method ParseLoop<T>(k: Format<T>, data: Bytes) returns (r: Result<seq<T>, PendingFault>)
    ensures r == ParsePending(k, data)
  {
    var out: seq<T> := [];
    var pos := 0;
    assert data[0..] == data;
    PrependNothing(out, ParsePending(k, data));
    while pos < |data|
      invariant pos <= |data|
      invariant ParsePending(k, data) == Prepend(out, ParsePending(k, data[pos..]))
      decreases |data| - pos
    {
      var entry := ReadEntry(k, data, pos);
      if entry.None? {
        return Err(Unreadable);
      }
      var (x, next) := entry.value;
      PrependOneMore(out, x, ParsePending(k, data[next..]));
      out := out + [x];
      pos := next;
    }
    PrependNothing(out, ParsePending(k, data));
    r := Ok(out);
  }

  class Queue {
    const format: Format<Transaction>
    var file: Option<Bytes>

    constructor (format: Format<Transaction>, file: Option<Bytes>)
      ensures this.format == format && this.file == file
    {
      this.format := format;
      this.file := file;
    }

    /** Rewrites the file all at once, or not at all. */
    method WriteAtomic(payload: Bytes, fails: bool) returns (ok: bool)
      modifies this`file
      ensures ok == !fails
      ensures file == if ok then Some(payload) else old(file)
    {
      if !fails {
        file := Some(payload);
      }
      ok := !fails;
    }

    /** Head-of-line submission; stops at the first entry the pool refuses. */
    method SubmitHead(pool: Mempool.Pool, txs: seq<Transaction>) returns (i: nat)
      requires pool.Valid()
      modifies pool
      ensures pool.Valid()
      ensures (i, pool.fifo) == Drained(pool.rules, pool.capacity, old(pool.fifo), txs)
    {
      i := 0;
      assert txs[0..] == txs;
      while i < |txs|
        invariant i <= |txs| && pool.Valid()
        invariant var (n, last) := Drained(pool.rules, pool.capacity, pool.fifo, txs[i..]);
                  Drained(pool.rules, pool.capacity, old(pool.fifo), txs) == (i + n, last)
        decreases |txs| - i
      {
        assert txs[i..][0] == txs[i] && txs[i..][1..] == txs[i + 1..];
        var outcome := pool.TrySubmitPendingDrain(txs[i]);
        if outcome.Pass? || outcome == Fail(DuplicateTransaction) {
          i := i + 1;
        } else {
          break;
        }
      }
    }

    /** `drain_pending_file` */
    method Drain(pool: Mempool.Pool, writeFails: bool) returns (ok: bool)
      requires pool.Valid() && TwoSided(format)
      modifies this`file, pool
      ensures pool.Valid()
      ensures !ok ==> file == old(file) && pool.fifo == old(pool.fifo)
      ensures !ok ==> pool.txs == old(pool.txs) && pool.order == old(pool.order) && pool.bySender == old(pool.bySender)
      ensures ok <==> old(file).None? || (ParsePending(format, old(file).value).Ok? && !writeFails)
      ensures ok && old(file).None? ==> file == None && pool.fifo == old(pool.fifo)
      ensures ok && old(file).Some? ==>
        var txs := ParsePending(format, old(file).value).value;
        var (n, last) := Drained(pool.rules, pool.capacity, old(pool.fifo), txs);
        && pool.fifo == last
        && file.Some? && EncodeRecords(format, txs[n..]) == Some(file.value)
        && |file.value| <= |old(file).value| && file.value == old(file).value[|old(file).value| - |file.value|..]
    {
      if file.None? {
        return true;
      }
      var parsed := ParseLoop(format, file.value);
      if parsed.Err? {
        return false;
      }
      var txs := parsed.value;
      var before := pool.CloneFifo();
      var i := SubmitHead(pool, txs);
      PendingTail(format, file.value, i);
      // Re-encoding cannot fail: what decoded is its own encoding.
      var encoded := EncodeRecords(format, txs[i..]).value;
      ok := WriteAtomic(encoded, writeFails);
      if !ok {
        Restore(pool, before, old(pool.txs), old(pool.order), old(pool.bySender));
      }
    }

    method Restore(pool: Mempool.Pool, before: seq<Transaction>, ghost txs: Mempool.TxTable, ghost order: seq<Str>,
            ghost rows: Mempool.SenderIndex)
      requires Mempool.Represents(pool.rules, before, txs, order, rows) && |before| <= pool.capacity
      modifies pool
      ensures pool.Valid() && pool.fifo == before
      ensures pool.txs == txs && pool.order == order && pool.bySender == rows
    {
      pool.RestoreFifo(before);
      Mempool.RepresentsUnique(pool.rules, before, txs, order, rows, pool.txs, pool.order, pool.bySender);
    }
  }
}
