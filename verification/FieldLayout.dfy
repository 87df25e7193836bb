/** Where the fields lie: every record, frame and reply as a flat list of pieces at known offsets. */
module FieldLayout {
  import opened Prelude
  import opened Protocol
  import opened Records
  import opened Store
  import opened Codec
  import Wire
  import Ledger
  import Fingerprint

  // ---------------------------------------------------------------- pieces

  function Flat(pieces: seq<Bytes>): (r: Bytes)
  {
    if pieces == [] then [] else pieces[0] + Flat(pieces[1..])
  }

  /** How many bytes come before piece `i`. */
  function Offset(pieces: seq<Bytes>, i: nat): (n: nat)
    requires i <= |pieces|
  {
    if i == 0 then 0 else Offset(pieces, i - 1) + |pieces[i - 1]|
  }

  lemma {:induction false} FlatConcat(p: seq<Bytes>, q: seq<Bytes>)
    ensures Flat(p + q) == Flat(p) + Flat(q)
  {
    if p == [] {
      assert p + q == q;
    } else {
      TailOfConcat(p, q);
      FlatConcat(p[1..], q);
    }
  }

  lemma FlatOne(a: Bytes)
    ensures Flat([a]) == a
  {
    assert [a][1..] == [] && a + [] == a;
  }

  lemma FlatTwo(a: Bytes, b: Bytes)
    ensures Flat([a, b]) == a + b
  {
    assert [a, b][1..] == [b];
    FlatOne(b);
  }

  lemma FlatFour(a: Bytes, b: Bytes, c: Bytes, d: Bytes)
    ensures Flat([a, b, c, d]) == a + (b + (c + d))
  {
    assert [a, b, c, d] == [a, b] + [c, d];
    FlatConcat([a, b], [c, d]);
    FlatTwo(a, b);
    FlatTwo(c, d);
  }

  lemma FlatSix(a: Bytes, b: Bytes, c: Bytes, d: Bytes, e: Bytes, f: Bytes)
    ensures Flat([a, b, c, d, e, f]) == a + (b + (c + (d + (e + f))))
  {
    assert [a, b, c, d, e, f] == [a, b] + [c, d, e, f];
    FlatConcat([a, b], [c, d, e, f]);
    FlatTwo(a, b);
    FlatFour(c, d, e, f);
  }

  lemma {:induction false} OffsetIsLength(pieces: seq<Bytes>, i: nat)
    requires i <= |pieces|
    ensures Offset(pieces, i) == |Flat(pieces[..i])|
  {
    if i == 0 {
      assert pieces[..0] == [];
    } else {
      OffsetIsLength(pieces, i - 1);
      assert pieces[..i] == pieces[..i - 1] + [pieces[i - 1]];
      FlatConcat(pieces[..i - 1], [pieces[i - 1]]);
      FlatOne(pieces[i - 1]);
    }
  }

  /** Each piece is found at its offset. */
  lemma PieceAt(pieces: seq<Bytes>, i: nat)
    requires i < |pieces|
    ensures var at := Offset(pieces, i);
            && at + |pieces[i]| <= |Flat(pieces)|
            && Flat(pieces)[at..at + |pieces[i]|] == pieces[i]
  {
    var front, back := Flat(pieces[..i]), Flat(pieces[i + 1..]);
    OffsetIsLength(pieces, i);
    FlatSplit(pieces, i);
    MiddleOf(front, pieces[i], back);
  }

  lemma FlatSplit(pieces: seq<Bytes>, i: nat)
    requires i < |pieces|
    ensures Flat(pieces) == Flat(pieces[..i]) + (pieces[i] + Flat(pieces[i + 1..]))
  {
    assert pieces == pieces[..i] + pieces[i..];
    FlatConcat(pieces[..i], pieces[i..]);
    FlatFrom(pieces, i);
  }

  lemma FlatFrom(pieces: seq<Bytes>, i: nat)
    requires i < |pieces|
    ensures Flat(pieces[i..]) == pieces[i] + Flat(pieces[i + 1..])
  {
    assert pieces[i..][0] == pieces[i] && pieces[i..][1..] == pieces[i + 1..];
  }

  lemma MiddleOf(a: Bytes, b: Bytes, c: Bytes)
    ensures (a + (b + c))[|a|..|a| + |b|] == b
  {
  }

  // ---------------------------------------------------------------- records

  /** A string or blob behind its 32-bit length. */
  function Sized(b: Bytes): (r: seq<Bytes>)
    requires Blob(b)
  {
    [U32Bytes(|b|), b]
  }

  lemma SizedIsBlob(b: Bytes)
    requires Blob(b)
    ensures Flat(Sized(b)) == BlobBytes(b)
  {
    FlatTwo(U32Bytes(|b|), b);
  }

  function RecordPieces<T>(k: Format<T>, xs: seq<T>): (r: seq<Bytes>)
    requires EncodeRecords(k, xs).Some?
  {
    if xs == [] then [] else Sized(k.encode(xs[0]).value) + RecordPieces(k, xs[1..])
  }

  lemma {:induction false} RecordsLayout<T>(k: Format<T>, xs: seq<T>)
    requires EncodeRecords(k, xs).Some?
    ensures EncodeRecords(k, xs).value == Flat(RecordPieces(k, xs))
  {
    if xs != [] {
      RecordsLayout(k, xs[1..]);
      SizedIsBlob(k.encode(xs[0]).value);
      FlatConcat(Sized(k.encode(xs[0]).value), RecordPieces(k, xs[1..]));
    }
  }

  // ---------------------------------------------------------------- transactions and blocks

  /** The tag "TRT1", version 1 and the two parties. */
  function TxHead(tx: Transaction): (r: seq<Bytes>)
    requires EncodableTx(tx)
  {
    [[0x54, 0x52, 0x54, 0x31], [1], U32Bytes(|tx.sender|), tx.sender, U32Bytes(|tx.receiver|), tx.receiver]
  }

  function TxNumbers(tx: Transaction): (r: seq<Bytes>)
  {
    [U64Bytes(tx.amount), U64Bytes(tx.fee), U64Bytes(tx.nonce), U64Bytes(tx.timestamp)]
  }

  function TxProofs(tx: Transaction): (r: seq<Bytes>)
    requires EncodableTx(tx)
  {
    [U32Bytes(|tx.publicKey|), tx.publicKey, U32Bytes(|tx.signature|), tx.signature, U32Bytes(|tx.txHash|), tx.txHash]
  }

  /** The encoding of a transaction is these sixteen pieces in this order. */
  lemma TxLayout(tx: Transaction)
    requires EncodableTx(tx)
    ensures EncodeTx(tx) == Flat(TxHead(tx) + TxNumbers(tx) + TxProofs(tx))
  {
    FlatConcat(TxHead(tx) + TxNumbers(tx), TxProofs(tx));
    FlatConcat(TxHead(tx), TxNumbers(tx));
    FlatSix([0x54, 0x52, 0x54, 0x31], [1], U32Bytes(|tx.sender|), tx.sender, U32Bytes(|tx.receiver|), tx.receiver);
    FlatFour(U64Bytes(tx.amount), U64Bytes(tx.fee), U64Bytes(tx.nonce), U64Bytes(tx.timestamp));
    FlatSix(U32Bytes(|tx.publicKey|), tx.publicKey, U32Bytes(|tx.signature|), tx.signature, U32Bytes(|tx.txHash|),
            tx.txHash);
    HeadMatches(tx);
    TailMatches(tx);
  }

  lemma HeadMatches(tx: Transaction)
    requires EncodableTx(tx)
    ensures EncodeTx(tx) == [0x54, 0x52, 0x54, 0x31] + ([1] + (U32Bytes(|tx.sender|) + (tx.sender +
                            (U32Bytes(|tx.receiver|) + tx.receiver)))) + TxTail(tx)
  {
    ConcatAssoc(U32Bytes(|tx.receiver|), tx.receiver, TxTail(tx));
    ConcatAssoc(U32Bytes(|tx.sender|), tx.sender, BlobBytes(tx.receiver) + TxTail(tx));
  }

  lemma TailMatches(tx: Transaction)
    requires EncodableTx(tx)
    ensures TxTail(tx) == U64Bytes(tx.amount) + (U64Bytes(tx.fee) + (U64Bytes(tx.nonce) + U64Bytes(tx.timestamp)))
                        + TxProof(tx)
    ensures TxProof(tx) == U32Bytes(|tx.publicKey|) + (tx.publicKey + (U32Bytes(|tx.signature|) + (tx.signature +
                           (U32Bytes(|tx.txHash|) + tx.txHash))))
  {
  }

  /** Where the numbers of a transaction lie. */
  lemma TxNumbersAt(tx: Transaction)
    requires EncodableTx(tx)
    ensures var s, at := EncodeTx(tx), 13 + |tx.sender| + |tx.receiver|;
            && at + 32 <= |s| && s[at..at + 8] == U64Bytes(tx.amount) && s[at + 8..at + 16] == U64Bytes(tx.fee)
            && s[at + 16..at + 24] == U64Bytes(tx.nonce) && s[at + 24..at + 32] == U64Bytes(tx.timestamp)
  {
    HeadMatches(tx);
    NumbersAt(EncodeTx(tx)[..13 + |tx.sender| + |tx.receiver|], tx, TxProof(tx));
  }

  lemma NumbersAt(head: Bytes, tx: Transaction, rest: Bytes)
    ensures var s := head + (U64Bytes(tx.amount) + (U64Bytes(tx.fee) + (U64Bytes(tx.nonce) +
                     (U64Bytes(tx.timestamp) + rest))));
            var at := |head|;
            && at + 32 <= |s| && s[at..at + 8] == U64Bytes(tx.amount) && s[at + 8..at + 16] == U64Bytes(tx.fee)
            && s[at + 16..at + 24] == U64Bytes(tx.nonce) && s[at + 24..at + 32] == U64Bytes(tx.timestamp)
  {
  }

  /** The tag "TRB1", version 1, and what precedes the transactions. */
  function BlockHead(b: Block): (r: seq<Bytes>)
    requires EncodableBlock(b)
  {
    [[0x54, 0x52, 0x42, 0x31], [1], U64Bytes(b.height), U32Bytes(|b.previousHash|), b.previousHash,
     U64Bytes(b.timestamp) + U32Bytes(|b.transactions|)]
  }

  /** The encoding of a block: its head, each transaction behind its length, the block hash behind its length. */
  lemma BlockLayout(b: Block)
    requires EncodableBlock(b)
    ensures EncodeBlock(b) == Flat(BlockHead(b) + RecordPieces(TX_FORMAT, b.transactions) + Sized(b.blockHash))
  {
    var txs := EncodeRecords(TX_FORMAT, b.transactions).value;
    FlatConcat(BlockHead(b) + RecordPieces(TX_FORMAT, b.transactions), Sized(b.blockHash));
    FlatConcat(BlockHead(b), RecordPieces(TX_FORMAT, b.transactions));
    RecordsLayout(TX_FORMAT, b.transactions);
    SizedIsBlob(b.blockHash);
    FlatSix([0x54, 0x52, 0x42, 0x31], [1], U64Bytes(b.height), U32Bytes(|b.previousHash|), b.previousHash,
            U64Bytes(b.timestamp) + U32Bytes(|b.transactions|));
    BlockMatches(b, txs, BlobBytes(b.blockHash));
  }

  lemma BlockMatches(b: Block, txs: Bytes, last: Bytes)
    requires EncodableBlock(b)
    requires txs == EncodeRecords(TX_FORMAT, b.transactions).value && last == BlobBytes(b.blockHash)
    ensures EncodeBlock(b) == [0x54, 0x52, 0x42, 0x31] + ([1] + (U64Bytes(b.height) + (U32Bytes(|b.previousHash|) +
                              (b.previousHash + (U64Bytes(b.timestamp) + U32Bytes(|b.transactions|)))))) + txs + last
  {
    Regroup([0x54, 0x52, 0x42, 0x31], [1], U64Bytes(b.height), U32Bytes(|b.previousHash|), b.previousHash,
            U64Bytes(b.timestamp), U32Bytes(|b.transactions|), txs, last);
  }

  lemma Regroup(a: Bytes, b: Bytes, c: Bytes, d: Bytes, e: Bytes, f: Bytes, g: Bytes, h: Bytes, i: Bytes)
    ensures a + (b + (c + ((d + e) + (f + (g + (h + i)))))) == a + (b + (c + (d + (e + (f + g))))) + h + i
  {
  }

  // ---------------------------------------------------------------- frames and replies

  /** A frame is a length, the payload and, in the newer layout, a checksum. */
  lemma FrameLayout(sum: Checksum, p: Bytes)
    requires Framable(p)
    ensures Frame(sum, Legacy, p) == Flat([U32Bytes(|p|), p])
    ensures Frame(sum, V2, p) == Flat([U32Bytes(|p|), p] + [U32Bytes(sum(p))])
  {
    FlatTwo(U32Bytes(|p|), p);
    FlatConcat([U32Bytes(|p|), p], [U32Bytes(sum(p))]);
    FlatOne(U32Bytes(sum(p)));
    ConcatAssoc(U32Bytes(|p|), p, U32Bytes(sum(p)));
    assert p + [] == p;
  }

  function FramePieces<T>(k: Framing<T>, xs: seq<T>): (r: seq<Bytes>)
    requires Log(k, V2, xs).Some?
  {
    if xs == [] then []
    else
      var p := Payload(k, xs[0]).value;
      [U32Bytes(|p|), p] + [U32Bytes(k.sum(p))] + FramePieces(k, xs[1..])
  }

  /** A file of the newer layout is "TRILBC01" and one frame for each item. */
  lemma FileLayout<T>(k: Framing<T>, xs: seq<T>)
    requires FileOf(k, V2, xs).Some?
    ensures FileOf(k, V2, xs).value == Flat([[0x54, 0x52, 0x49, 0x4C, 0x42, 0x43, 0x30, 0x31]] + FramePieces(k, xs))
  {
    var magic: Bytes := [0x54, 0x52, 0x49, 0x4C, 0x42, 0x43, 0x30, 0x31];
    FlatConcat([magic], FramePieces(k, xs));
    FlatOne(magic);
    LogLayout(k, xs);
  }

  lemma {:induction false} LogLayout<T>(k: Framing<T>, xs: seq<T>)
    requires Log(k, V2, xs).Some?
    ensures Log(k, V2, xs).value == Flat(FramePieces(k, xs))
  {
    if xs != [] {
      var p := Payload(k, xs[0]).value;
      LogLayout(k, xs[1..]);
      FrameLayout(k.sum, p);
      FlatConcat([U32Bytes(|p|), p] + [U32Bytes(k.sum(p))], FramePieces(k, xs[1..]));
    }
  }

  /** A reply is opcode 4, the number of blocks, at most 64, and each block behind its length, within 64 MiB. */
  lemma BatchLayout<T>(k: Format<T>, xs: seq<T>)
    ensures var n := Min(|xs|, 64);
            var body := EncodeRecords(k, xs[..n]);
            && (Wire.EncodeBatch(k, xs).Some? <==> body.Some? && 5 + |body.value| <= 67_108_864)
            && (Wire.EncodeBatch(k, xs).Some? ==>
                  Wire.EncodeBatch(k, xs).value == Flat([[4], U32Bytes(n)] + RecordPieces(k, xs[..n])))
  {
    var n := Min(|xs|, 64);
    if EncodeRecords(k, xs[..n]).Some? {
      RecordsLayout(k, xs[..n]);
      FlatConcat([[4], U32Bytes(n)], RecordPieces(k, xs[..n]));
      FlatTwo([4], U32Bytes(n));
    }
  }

  // ---------------------------------------------------------------- fingerprints

  function RowPieces(s: Ledger.Accounts, keys: seq<Str>): (r: seq<Bytes>)
    requires forall k :: k in keys ==> k in s && Blob(k)
  {
    if keys == [] then []
    else
      var k := keys[0];
      assert Blob(k);
      [U32Bytes(|k|), k, U64Bytes(s[k].balance), U64Bytes(s[k].nonce)] + RowPieces(s, keys[1..])
  }

  lemma {:induction false} RowsLayout(s: Ledger.Accounts, keys: seq<Str>)
    requires forall k :: k in keys ==> k in s && Blob(k)
    ensures Fingerprint.Rows(Fingerprint.RowBytes, s, keys) == Flat(RowPieces(s, keys))
    decreases |keys|
  {
    if keys != [] {
      var k := keys[0];
      RowsLayout(s, keys[1..]);
      Fingerprint.RowIsBlob(k, s[k]);
      FlatFour(U32Bytes(|k|), k, U64Bytes(s[k].balance), U64Bytes(s[k].nonce));
      FlatConcat([U32Bytes(|k|), k, U64Bytes(s[k].balance), U64Bytes(s[k].nonce)], RowPieces(s, keys[1..]));
      ConcatAssoc(U32Bytes(|k|), k, U64Bytes(s[k].balance) + U64Bytes(s[k].nonce));
    }
  }

  /** The byte form of a ledger: the number of accounts, then address, balance and nonce in address order. */
  lemma PreimageLayout(s: Ledger.Accounts)
    requires |s| <= U64_MAX && forall k :: k in s ==> Blob(k)
    ensures var keys := Fingerprint.SortedKeys(s.Keys);
            Fingerprint.Preimage(s) == Flat([U64Bytes(|s|)] + RowPieces(s, keys))
  {
    var keys := Fingerprint.SortedKeys(s.Keys);
    RowsLayout(s, keys);
    FlatConcat([U64Bytes(|s|)], RowPieces(s, keys));
    FlatOne(U64Bytes(|s|));
  }
}
