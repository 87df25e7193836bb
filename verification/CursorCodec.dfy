/** The codec as the node runs it: a buffer that grows and a cursor that advances. */
module CursorCodec {
  import opened Prelude
  import opened Protocol
  import opened Records
  import opened Codec

  // ---------------------------------------------------------------- encoders

  /** A buffer under construction: `done` is written, `rest` is what the format still owes. */
  ghost predicate Owes(whole: Bytes, done: Bytes, rest: Bytes)
  {
    whole == done + rest
  }

  lemma Pay(whole: Bytes, done: Bytes, piece: Bytes, rest: Bytes)
    requires Owes(whole, done, piece + rest)
    ensures Owes(whole, done + piece, rest)
  {
    ConcatAssoc(done, piece, rest);
  }

  lemma PayLast(whole: Bytes, done: Bytes, piece: Bytes)
    requires Owes(whole, done, piece)
    ensures whole == done + piece
  {
  }

  method EncodeTransaction(tx: Transaction) returns (out: Bytes)
    requires EncodableTx(tx)
    ensures out == EncodeTx(tx)
  {
    ghost var whole := EncodeTx(tx);
    ghost var s1 := BlobBytes(tx.sender) + (BlobBytes(tx.receiver) + TxTail(tx));
    out := TX_MAGIC;
    assert Owes(whole, out, [FORMAT_VERSION] + s1);
    Pay(whole, out, [FORMAT_VERSION], s1);
    out := out + [FORMAT_VERSION];
    Pay(whole, out, BlobBytes(tx.sender), BlobBytes(tx.receiver) + TxTail(tx));
    out := out + BlobBytes(tx.sender);
    Pay(whole, out, BlobBytes(tx.receiver), TxTail(tx));
    out := out + BlobBytes(tx.receiver);
    ghost var m3 := U64Bytes(tx.timestamp) + TxProof(tx);
    ghost var m2 := U64Bytes(tx.nonce) + m3;
    Pay(whole, out, U64Bytes(tx.amount), U64Bytes(tx.fee) + m2);
    out := out + U64Bytes(tx.amount);
    Pay(whole, out, U64Bytes(tx.fee), m2);
    out := out + U64Bytes(tx.fee);
    Pay(whole, out, U64Bytes(tx.nonce), m3);
    out := out + U64Bytes(tx.nonce);
    Pay(whole, out, U64Bytes(tx.timestamp), TxProof(tx));
    out := out + U64Bytes(tx.timestamp);
    Pay(whole, out, BlobBytes(tx.publicKey), BlobBytes(tx.signature) + BlobBytes(tx.txHash));
    out := out + BlobBytes(tx.publicKey);
    Pay(whole, out, BlobBytes(tx.signature), BlobBytes(tx.txHash));
    out := out + BlobBytes(tx.signature);
    PayLast(whole, out, BlobBytes(tx.txHash));
    out := out + BlobBytes(tx.txHash);
  }

  lemma {:induction false} EncodeRecordsAt<T>(k: Format<T>, xs: seq<T>, i: nat)
    requires EncodeRecords(k, xs).Some? && i < |xs|
    ensures k.encode(xs[i]).Some? && Blob(k.encode(xs[i]).value)
    ensures EncodeRecords(k, xs[i..]).Some? && EncodeRecords(k, xs[i + 1..]).Some?
    ensures EncodeRecords(k, xs[i..]).value == BlobBytes(k.encode(xs[i]).value) + EncodeRecords(k, xs[i + 1..]).value
  {
    if i == 0 {
      assert xs[0..] == xs;
    } else {
      EncodeRecordsAt(k, xs[1..], i - 1);
      assert xs[1..][i - 1..] == xs[i..] && xs[1..][i..] == xs[i + 1..];
    }
  }

  method EncodeBlockBytes(b: Block) returns (out: Bytes)
    requires EncodableBlock(b)
    ensures out == EncodeBlock(b)
  {
    ghost var whole := EncodeBlock(b);
    ghost var s2 := BlobBytes(b.previousHash) + BlockTail(b);
    out := BLOCK_MAGIC;
    assert Owes(whole, out, [FORMAT_VERSION] + (U64Bytes(b.height) + s2));
    Pay(whole, out, [FORMAT_VERSION], U64Bytes(b.height) + s2);
    out := out + [FORMAT_VERSION];
    Pay(whole, out, U64Bytes(b.height), s2);
    out := out + U64Bytes(b.height);
    Pay(whole, out, BlobBytes(b.previousHash), BlockTail(b));
    out := out + BlobBytes(b.previousHash);
    ghost var records := EncodeRecords(TX_FORMAT, b.transactions).value;
    Pay(whole, out, U64Bytes(b.timestamp), U32Bytes(|b.transactions|) + (records + BlobBytes(b.blockHash)));
    out := out + U64Bytes(b.timestamp);
    Pay(whole, out, U32Bytes(|b.transactions|), records + BlobBytes(b.blockHash));
    out := out + U32Bytes(|b.transactions|);
    Pay(whole, out, records, BlobBytes(b.blockHash));
    out := AppendRecords(TX_FORMAT, out, b.transactions);
    PayLast(whole, out, BlobBytes(b.blockHash));
    out := out + BlobBytes(b.blockHash);
  }

  /** The loop over the transactions of a block, for any record format. */
  method AppendRecords<T>(k: Format<T>, start: Bytes, xs: seq<T>) returns (out: Bytes)
    requires EncodeRecords(k, xs).Some?
    ensures out == start + EncodeRecords(k, xs).value
  {
    out := start;
    assert xs[0..] == xs;
    for i := 0 to |xs|
      invariant EncodeRecords(k, xs[i..]).Some?
      invariant start + EncodeRecords(k, xs).value == out + EncodeRecords(k, xs[i..]).value
    {
      EncodeRecordsAt(k, xs, i);
      var nested := k.encode(xs[i]).value;
      ConcatAssoc(out, BlobBytes(nested), EncodeRecords(k, xs[i + 1..]).value);
      out := out + U32Bytes(|nested|) + nested;
    }
  }

  // ---------------------------------------------------------------- decoders

  /** What a cursor method did, as a reader result. */
  function Read<T>(r: Option<T>, rest: Bytes): (p: Parsed<T>)
  {
    if r.Some? then Got(r.value, rest) else Stuck
  }

  /** A reader that has collected `out` and has `n` records of `rest` to go ends as `whole` says. */
  ghost predicate Collected<T>(k: Format<T>, out: seq<T>, rest: Bytes, n: nat, whole: Parsed<seq<T>>)
  {
    Resume(out, TakeRecords(k, rest, n)) == whole
  }

  /** What reading one record, with `n` to go, did: the record and what is left. */
  ghost predicate TookOne<T>(k: Format<T>, before: Bytes, n: nat, x: Option<T>, rest: Bytes)
    requires n > 0
  {
    match x
    case None => TakeRecords(k, before, n) == Stuck
    case Some(v) => TakeRecords(k, before, n) == Resume([v], TakeRecords(k, rest, n - 1))
  }

  lemma CollectedOneMore<T>(k: Format<T>, out: seq<T>, before: Bytes, n: nat, x: Option<T>, rest: Bytes,
          whole: Parsed<seq<T>>)
    requires n > 0 && Collected(k, out, before, n, whole) && TookOne(k, before, n, x, rest)
    ensures if x.None? then whole == Stuck else Collected(k, out + [x.value], rest, n - 1, whole)
  {
    if x.Some? { ResumeOneMore(out, x.value, TakeRecords(k, rest, n - 1)); }
  }

  lemma CollectedNothing<T>(k: Format<T>, rest: Bytes, n: nat)
    ensures Collected(k, [], rest, n, TakeRecords(k, rest, n))
  {
    ResumeNothing([], TakeRecords(k, rest, n), rest);
  }

  lemma CollectedAll<T>(k: Format<T>, out: seq<T>, rest: Bytes, whole: Parsed<seq<T>>)
    requires Collected(k, out, rest, 0, whole)
    ensures whole == Got(out, rest)
  {
    ResumeNothing(out, whole, rest);
  }

  class Cursor {
    const data: Bytes
    var pos: nat

    ghost predicate Valid()
      reads this
    {
      pos <= |data|
    }

    /** What is still to be read. */
    ghost function Rest(): (r: Bytes)
      requires Valid()
      reads this
    {
      data[pos..]
    }

    constructor (data: Bytes)
      ensures this.data == data
      ensures Valid() && Rest() == data
    {
      this.data := data;
      pos := 0;
    }

    method Take(n: nat) returns (r: Option<Bytes>)
      requires Valid()
      modifies this`pos
      ensures Valid()
      ensures TakeExact(old(Rest()), n) == Read(r, Rest())
    {
      if |data| - pos < n {
        return None;
      }
      r := Some(data[pos..pos + n]);
      assert data[pos..pos + n] == Rest()[..n] && data[pos + n..] == Rest()[n..];
      pos := pos + n;
    }

    method TakeU32Be() returns (r: Option<u32>)
      requires Valid()
      modifies this`pos
      ensures Valid()
      ensures TakeU32(old(Rest())) == Read(r, Rest())
    {
      var b := Take(4);
      if b.None? {
        return None;
      }
      r := Some(U32Of(b.value));
    }

    method TakeU64Be() returns (r: Option<u64>)
      requires Valid()
      modifies this`pos
      ensures Valid()
      ensures TakeU64(old(Rest())) == Read(r, Rest())
    {
      var b := Take(8);
      if b.None? {
        return None;
      }
      r := Some(U64Of(b.value));
    }

    method TakeBytes() returns (r: Option<Bytes>)
      requires Valid()
      modifies this`pos
      ensures Valid()
      ensures TakeBlob(old(Rest())) == Read(r, Rest())
    {
      var n := TakeU32Be();
      if n.None? {
        return None;
      }
      r := Take(n.value);
    }

    method TakeString() returns (r: Option<Str>)
      requires Valid()
      modifies this`pos
      ensures Valid()
      ensures TakeText(old(Rest())) == Read(r, Rest())
    {
      r := TakeBytes();
      if r.Some? && !Utf8(r.value) {
        return None;
      }
    }

    method TakeHeader(magic: Bytes) returns (ok: bool)
      requires Valid()
      modifies this`pos
      ensures Valid()
      ensures TakeTag(old(Rest()), magic) == if ok then Got(FORMAT_VERSION, Rest()) else Stuck
    {
      var m := Take(4);
      if m.None? || m.value != magic {
        return false;
      }
      var v := Take(1);
      ok := v.Some? && v.value[0] == FORMAT_VERSION;
    }

    method TakeAmounts() returns (r: Option<Money>)
      requires Valid()
      modifies this`pos
      ensures Valid()
      ensures TakeMoney(old(Rest())) == Read(r, Rest())
    {
      var amount := TakeU64Be();
      if amount.None? { return None; }
      var fee := TakeU64Be();
      if fee.None? { return None; }
      var nonce := TakeU64Be();
      if nonce.None? { return None; }
      var timestamp := TakeU64Be();
      if timestamp.None? { return None; }
      r := Some(Money(amount.value, fee.value, nonce.value, timestamp.value));
    }

    method TakeAuthorization() returns (r: Option<Proof>)
      requires Valid()
      modifies this`pos
      ensures Valid()
      ensures TakeProof(old(Rest())) == Read(r, Rest())
    {
      var publicKey := TakeBytes();
      if publicKey.None? { return None; }
      var signature := TakeBytes();
      if signature.None? { return None; }
      var txHash := TakeString();
      if txHash.None? { return None; }
      r := Some(Proof(publicKey.value, signature.value, txHash.value));
    }

    method TakeTransaction() returns (r: Option<Transaction>)
      requires Valid()
      modifies this`pos
      ensures Valid()
      ensures TakeTx(old(Rest())) == Read(r, Rest())
    {
      var tagged := TakeHeader(TX_MAGIC);
      if !tagged { return None; }
      var sender := TakeString();
      if sender.None? { return None; }
      var receiver := TakeString();
      if receiver.None? { return None; }
      var m := TakeAmounts();
      if m.None? { return None; }
      var p := TakeAuthorization();
      if p.None? { return None; }
      r := Some(Transaction(sender.value, receiver.value, m.value.amount, m.value.fee, m.value.nonce,
                            m.value.timestamp, p.value.publicKey, p.value.signature, p.value.txHash));
    }

    /** One record: the same step the reader of `n` records takes. */
    method TakeRecord<T>(k: Format<T>, ghost n: nat) returns (r: Option<T>)
      requires Valid() && n > 0
      modifies this`pos
      ensures Valid()
      ensures TookOne(k, old(Rest()), n, r, Rest())
    {
      var chunk := TakeBytes();
      if chunk.None? {
        return None;
      }
      r := k.decode(chunk.value);
    }

    /** The loop over the transactions of a block, for any record format. */
    method TakeAll<T>(k: Format<T>, n: nat) returns (r: Option<seq<T>>)
      requires Valid()
      modifies this`pos
      ensures Valid()
      ensures TakeRecords(k, old(Rest()), n) == Read(r, Rest())
    {
      var out: seq<T> := [];
      ghost var whole := TakeRecords(k, Rest(), n);
      CollectedNothing(k, Rest(), n);
      for i := 0 to n
        invariant Valid()
        invariant Collected(k, out, Rest(), n - i, whole)
      {
        ghost var before := Rest();
        var x := TakeRecord(k, n - i);
        CollectedOneMore(k, out, before, n - i, x, Rest(), whole);
        if x.None? {
          return None;
        }
        out := out + [x.value];
      }
      CollectedAll(k, out, Rest(), whole);
      r := Some(out);
    }

    method TakeBlockBody() returns (r: Option<Block>)
      requires Valid()
      modifies this`pos
      ensures Valid()
      ensures TakeBlock(old(Rest())) == Read(r, Rest())
    {
      var tagged := TakeHeader(BLOCK_MAGIC);
      if !tagged { return None; }
      var height := TakeU64Be();
      if height.None? { return None; }
      var previousHash := TakeString();
      if previousHash.None? { return None; }
      var timestamp := TakeU64Be();
      if timestamp.None? { return None; }
      var n := TakeU32Be();
      if n.None? { return None; }
      var txs := TakeAll(TX_FORMAT, n.value);
      if txs.None? { return None; }
      var blockHash := TakeString();
      if blockHash.None? { return None; }
      r := Some(Block(height.value, previousHash.value, timestamp.value, txs.value, blockHash.value));
    }

    method Finish() returns (finished: bool)
      requires Valid()
      ensures finished == (Rest() == [])
    {
      finished := pos == |data|;
    }
  }

  method DecodeTransaction(data: Bytes) returns (r: Option<Transaction>)
    ensures r == DecodeTx(data)
  {
    var c := new Cursor(data);
    r := c.TakeTransaction();
    var finished := c.Finish();
    if !finished {
      r := None;
    }
  }

  method DecodeBlockBytes(data: Bytes) returns (r: Option<Block>)
    ensures r == DecodeBlock(data)
  {
    var c := new Cursor(data);
    r := c.TakeBlockBody();
    var finished := c.Finish();
    if !finished {
      r := None;
    }
  }
}
