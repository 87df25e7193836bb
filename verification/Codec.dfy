/**
 The canonical binary encoding of transactions and blocks: big-endian integers, blobs and strings
 behind a 32-bit length, a magic and a version in front of every record.
 */
module Codec {
  import opened Prelude
  import opened Protocol
  import opened Records

  /** "TRT1", "TRB1" and the format version both records carry. */
  const TX_MAGIC: Bytes := [0x54, 0x52, 0x54, 0x31]
  const BLOCK_MAGIC: Bytes := [0x54, 0x52, 0x42, 0x31]
  const FORMAT_VERSION: byte := 1

  // ---------------------------------------------------------------- UTF-8

  predicate Continues(s: Bytes, i: nat)
  {
    i < |s| && 0x80 <= s[i] <= 0xBF
  }

  /** Length of the well-formed UTF-8 character that `s` starts with (0 if it starts with none). */
  function Utf8Char(s: Bytes): (n: nat)
    ensures n <= |s|
  {
    if s == [] then 0
    else if s[0] <= 0x7F then 1
    else if 0xC2 <= s[0] <= 0xDF && Continues(s, 1) then 2
    else if s[0] == 0xE0 && |s| > 1 && 0xA0 <= s[1] <= 0xBF && Continues(s, 2) then 3
    else if s[0] == 0xED && |s| > 1 && 0x80 <= s[1] <= 0x9F && Continues(s, 2) then 3
    else if 0xE1 <= s[0] <= 0xEF && s[0] != 0xED && Continues(s, 1) && Continues(s, 2) then 3
    else if s[0] == 0xF0 && |s| > 1 && 0x90 <= s[1] <= 0xBF && Continues(s, 2) && Continues(s, 3) then 4
    else if 0xF1 <= s[0] <= 0xF3 && Continues(s, 1) && Continues(s, 2) && Continues(s, 3) then 4
    else if s[0] == 0xF4 && |s| > 1 && 0x80 <= s[1] <= 0x8F && Continues(s, 2) && Continues(s, 3) then 4
    else 0
  }

  predicate Utf8(s: Bytes)
  {
    s == [] || (Utf8Char(s) > 0 && Utf8(s[Utf8Char(s)..]))
  }

  // ---------------------------------------------------------------- encoding

  predicate Text(s: Str)
  {
    |s| < U32_LIMIT && Utf8(s)
  }

  /** The encoder does not panic: strings are text and every length fits 32 bits. */
  predicate EncodableTx(tx: Transaction)
  {
    Text(tx.sender) && Text(tx.receiver) && Blob(tx.publicKey) && Blob(tx.signature) && Text(tx.txHash)
  }

  /** `encode_transaction` */
  function EncodeTx(tx: Transaction): (r: Bytes)
    requires EncodableTx(tx)
  {
    TX_MAGIC + ([FORMAT_VERSION] + (BlobBytes(tx.sender) + (BlobBytes(tx.receiver) + TxTail(tx))))
  }

  function TxTail(tx: Transaction): (r: Bytes)
    requires EncodableTx(tx)
  {
    U64Bytes(tx.amount) + (U64Bytes(tx.fee) + (U64Bytes(tx.nonce) + (U64Bytes(tx.timestamp) + TxProof(tx))))
  }

  function TxProof(tx: Transaction): (r: Bytes)
    requires EncodableTx(tx)
  {
    BlobBytes(tx.publicKey) + (BlobBytes(tx.signature) + BlobBytes(tx.txHash))
  }

  // ---------------------------------------------------------------- reading

  function TakeText(s: Bytes): (r: Parsed<Str>)
  {
    var (b, rest) :- TakeBlob(s);
    if Utf8(b) then Got(b, rest) else Stuck
  }

  /** The magic and version every record starts with. */
  function TakeTag(s: Bytes, magic: Bytes): (r: Parsed<byte>)
  {
    var (m, s1) :- TakeExact(s, 4);
    if m != magic then Stuck
    else
      var (v, s2) :- TakeExact(s1, 1);
      if v[0] != FORMAT_VERSION then Stuck else Got(v[0], s2)
  }

  lemma TakeTagRoundTrip(magic: Bytes, rest: Bytes)
    requires |magic| == 4
    ensures TakeTag(magic + ([FORMAT_VERSION] + rest), magic) == Got(FORMAT_VERSION, rest)
  {
    TakeExactRoundTrip(magic, [FORMAT_VERSION] + rest);
    TakeExactRoundTrip([FORMAT_VERSION], rest);
  }

  lemma TakeTextCanonical(s: Bytes)
    requires TakeText(s).Got?
    ensures Text(TakeText(s).value)
    ensures s == BlobBytes(TakeText(s).value) + TakeText(s).rest
  {
    TakeBlobCanonical(s);
  }

  lemma TakeTagCanonical(s: Bytes, magic: Bytes)
    requires TakeTag(s, magic).Got?
    ensures s == magic + ([FORMAT_VERSION] + TakeTag(s, magic).rest)
  {
    TakeExactCanonical(s, 4);
    var s1 := TakeExact(s, 4).rest;
    TakeExactCanonical(s1, 1);
    assert TakeExact(s1, 1).value == [FORMAT_VERSION];
  }

  // ---------------------------------------------------------------- decoding transactions

  datatype Money = Money(amount: u64, fee: u64, nonce: u64, timestamp: u64)
  datatype Proof = Proof(publicKey: Bytes, signature: Bytes, txHash: Str)

  function TakeMoney(s: Bytes): (r: Parsed<Money>)
  {
    var (amount, s1) :- TakeU64(s);
    var (fee, s2) :- TakeU64(s1);
    var (nonce, s3) :- TakeU64(s2);
    var (timestamp, s4) :- TakeU64(s3);
    Got(Money(amount, fee, nonce, timestamp), s4)
  }

  function TakeProof(s: Bytes): (r: Parsed<Proof>)
  {
    var (publicKey, s1) :- TakeBlob(s);
    var (signature, s2) :- TakeBlob(s1);
    var (txHash, s3) :- TakeText(s2);
    Got(Proof(publicKey, signature, txHash), s3)
  }

  function TakeTx(s: Bytes): (r: Parsed<Transaction>)
  {
    var (_, s1) :- TakeTag(s, TX_MAGIC);
    var (sender, s2) :- TakeText(s1);
    var (receiver, s3) :- TakeText(s2);
    var (m, s4) :- TakeMoney(s3);
    var (p, s5) :- TakeProof(s4);
    Got(Transaction(sender, receiver, m.amount, m.fee, m.nonce, m.timestamp, p.publicKey, p.signature, p.txHash), s5)
  }

  /** `decode_transaction`: the record must use up its input. */
  function DecodeTx(data: Bytes): (r: Option<Transaction>)
  {
    match TakeTx(data)
    case Got(tx, rest) => if rest == [] then Some(tx) else None
    case Stuck => None
  }

  lemma TakeMoneyRoundTrip(m: Money, rest: Bytes)
    ensures TakeMoney(U64Bytes(m.amount) + (U64Bytes(m.fee) + (U64Bytes(m.nonce) + (U64Bytes(m.timestamp) + rest)))) ==
      Got(m, rest)
  {
    TakeU64RoundTrip(m.timestamp, rest);
    var s3 := U64Bytes(m.timestamp) + rest;
    TakeU64RoundTrip(m.nonce, s3);
    var s2 := U64Bytes(m.nonce) + s3;
    TakeU64RoundTrip(m.fee, s2);
    TakeU64RoundTrip(m.amount, U64Bytes(m.fee) + s2);
  }

  lemma TakeProofRoundTrip(tx: Transaction)
    requires EncodableTx(tx)
    ensures TakeProof(TxProof(tx)) == Got(Proof(tx.publicKey, tx.signature, tx.txHash), [])
  {
    assert BlobBytes(tx.txHash) + [] == BlobBytes(tx.txHash);
    TakeBlobRoundTrip(tx.txHash, []);
    TakeBlobRoundTrip(tx.signature, BlobBytes(tx.txHash));
    TakeBlobRoundTrip(tx.publicKey, BlobBytes(tx.signature) + BlobBytes(tx.txHash));
  }

  /** What is encoded decodes to itself. */
  lemma TxRoundTrip(tx: Transaction)
    requires EncodableTx(tx)
    ensures DecodeTx(EncodeTx(tx)) == Some(tx)
  {
    var s3 := TxTail(tx);
    var s2 := BlobBytes(tx.receiver) + s3;
    var s1 := BlobBytes(tx.sender) + s2;
    TakeTagRoundTrip(TX_MAGIC, s1);
    TakeBlobRoundTrip(tx.sender, s2);
    TakeBlobRoundTrip(tx.receiver, s3);
    TakeMoneyRoundTrip(Money(tx.amount, tx.fee, tx.nonce, tx.timestamp), TxProof(tx));
    TakeProofRoundTrip(tx);
  }

  lemma TakeMoneyCanonical(s: Bytes)
    requires TakeMoney(s).Got?
    ensures var m, rest := TakeMoney(s).value, TakeMoney(s).rest;
            s == U64Bytes(m.amount) + (U64Bytes(m.fee) + (U64Bytes(m.nonce) + (U64Bytes(m.timestamp) + rest)))
  {
    TakeU64Canonical(s);
    var s1 := TakeU64(s).rest;
    TakeU64Canonical(s1);
    var s2 := TakeU64(s1).rest;
    TakeU64Canonical(s2);
    TakeU64Canonical(TakeU64(s2).rest);
  }

  lemma TakeProofCanonical(s: Bytes)
    requires TakeProof(s).Got?
    ensures var p, rest := TakeProof(s).value, TakeProof(s).rest;
            && Blob(p.publicKey) && Blob(p.signature) && Text(p.txHash)
            && s == BlobBytes(p.publicKey) + (BlobBytes(p.signature) + (BlobBytes(p.txHash) + rest))
  {
    TakeBlobCanonical(s);
    var s1 := TakeBlob(s).rest;
    TakeBlobCanonical(s1);
    TakeTextCanonical(TakeBlob(s1).rest);
  }

  /** The only bytes that decode to a transaction are its encoding. */
  lemma TxCanonical(data: Bytes)
    requires DecodeTx(data).Some?
    ensures EncodableTx(DecodeTx(data).value)
    ensures data == EncodeTx(DecodeTx(data).value)
  {
    TakeTagCanonical(data, TX_MAGIC);
    var s1 := TakeTag(data, TX_MAGIC).rest;
    TakeTextCanonical(s1);
    var s2 := TakeText(s1).rest;
    TakeTextCanonical(s2);
    var s3 := TakeText(s2).rest;
    TakeMoneyCanonical(s3);
    var s4 := TakeMoney(s3).rest;
    TakeProofCanonical(s4);
    var p := TakeProof(s4).value;
    assert BlobBytes(p.txHash) + [] == BlobBytes(p.txHash);
    assert s4 == TxProof(DecodeTx(data).value);
  }

  // ---------------------------------------------------------------- decoding blocks

  function TxBytes(tx: Transaction): (r: Option<Bytes>)
  {
    if EncodableTx(tx) then Some(EncodeTx(tx)) else None
  }

  const TX_FORMAT: Format<Transaction> := Format(TxBytes, DecodeTx)

  /** `encode_transaction` and `decode_transaction` are inverse in both directions. */
  lemma TxTwoSided()
    ensures TwoSided(TX_FORMAT)
  {
    forall tx, d | TX_FORMAT.encode(tx) == Some(d) ensures TX_FORMAT.decode(d) == Some(tx) {
      TxRoundTrip(tx);
    }
    forall tx, d | TX_FORMAT.decode(d) == Some(tx) ensures TX_FORMAT.encode(tx) == Some(d) {
      TxCanonical(d);
    }
  }

  predicate EncodableBlock(b: Block)
  {
    Text(b.previousHash) && Text(b.blockHash) && |b.transactions| < U32_LIMIT
    && EncodeRecords(TX_FORMAT, b.transactions).Some?
  }

  /** `encode_block` */
  function EncodeBlock(b: Block): (r: Bytes)
    requires EncodableBlock(b)
  {
    BLOCK_MAGIC + ([FORMAT_VERSION] + (U64Bytes(b.height) + (BlobBytes(b.previousHash) + BlockTail(b))))
  }

  function BlockTail(b: Block): (r: Bytes)
    requires EncodableBlock(b)
  {
    U64Bytes(b.timestamp) +
    (U32Bytes(|b.transactions|) + (EncodeRecords(TX_FORMAT, b.transactions).value + BlobBytes(b.blockHash)))
  }

  function TakeBlock(s: Bytes): (r: Parsed<Block>)
  {
    var (_, s1) :- TakeTag(s, BLOCK_MAGIC);
    var (height, s2) :- TakeU64(s1);
    var (previousHash, s3) :- TakeText(s2);
    var (timestamp, s4) :- TakeU64(s3);
    var (n, s5) :- TakeU32(s4);
    var (txs, s6) :- TakeRecords(TX_FORMAT, s5, n);
    var (blockHash, s7) :- TakeText(s6);
    Got(Block(height, previousHash, timestamp, txs, blockHash), s7)
  }

  /** `decode_block` */
  function DecodeBlock(data: Bytes): (r: Option<Block>)
  {
    match TakeBlock(data)
    case Got(b, rest) => if rest == [] then Some(b) else None
    case Stuck => None
  }

  lemma BlockTailRoundTrip(b: Block)
    requires EncodableBlock(b)
    ensures TakeU64(BlockTail(b)).Got? && TakeU64(BlockTail(b)).value == b.timestamp
    ensures var s5 := TakeU64(BlockTail(b)).rest;
            && TakeU32(s5) ==
               Got(|b.transactions|, EncodeRecords(TX_FORMAT, b.transactions).value + BlobBytes(b.blockHash))
            && TakeRecords(TX_FORMAT, TakeU32(s5).rest, |b.transactions|) == Got(b.transactions, BlobBytes(b.blockHash))
  {
    var s6 := EncodeRecords(TX_FORMAT, b.transactions).value + BlobBytes(b.blockHash);
    TakeU64RoundTrip(b.timestamp, U32Bytes(|b.transactions|) + s6);
    TakeU32RoundTrip(|b.transactions|, s6);
    TxTwoSided();
    TakeRecordsRoundTrip(TX_FORMAT, b.transactions, BlobBytes(b.blockHash));
  }

  lemma BlockRoundTrip(b: Block)
    requires EncodableBlock(b)
    ensures DecodeBlock(EncodeBlock(b)) == Some(b)
  {
    var s3 := BlobBytes(b.previousHash) + BlockTail(b);
    TakeTagRoundTrip(BLOCK_MAGIC, U64Bytes(b.height) + s3);
    TakeU64RoundTrip(b.height, s3);
    TakeBlobRoundTrip(b.previousHash, BlockTail(b));
    BlockTailRoundTrip(b);
    assert BlobBytes(b.blockHash) + [] == BlobBytes(b.blockHash);
    TakeBlobRoundTrip(b.blockHash, []);
  }

  lemma BlockCanonical(data: Bytes)
    requires DecodeBlock(data).Some?
    ensures EncodableBlock(DecodeBlock(data).value)
    ensures data == EncodeBlock(DecodeBlock(data).value)
  {
    TakeTagCanonical(data, BLOCK_MAGIC);
    var s1 := TakeTag(data, BLOCK_MAGIC).rest;
    TakeU64Canonical(s1);
    var s2 := TakeU64(s1).rest;
    TakeTextCanonical(s2);
    var s3 := TakeText(s2).rest;
    TakeU64Canonical(s3);
    var s4 := TakeU64(s3).rest;
    TakeU32Canonical(s4);
    var n, s5 := TakeU32(s4).value, TakeU32(s4).rest;
    TxTwoSided();
    TakeRecordsCanonical(TX_FORMAT, s5, n);
    var s6 := TakeRecords(TX_FORMAT, s5, n).rest;
    TakeTextCanonical(s6);
    assert s6 == BlobBytes(DecodeBlock(data).value.blockHash);
    assert s3 == BlockTail(DecodeBlock(data).value);
  }

  function BlockBytes(b: Block): (r: Option<Bytes>)
  {
    if EncodableBlock(b) then Some(EncodeBlock(b)) else None
  }

  const BLOCK_FORMAT: Format<Block> := Format(BlockBytes, DecodeBlock)

  /** `encode_block` and `decode_block` are inverse in both directions. */
  lemma BlockTwoSided()
    ensures TwoSided(BLOCK_FORMAT)
  {
    forall b, d | BLOCK_FORMAT.encode(b) == Some(d) ensures BLOCK_FORMAT.decode(d) == Some(b) {
      BlockRoundTrip(b);
    }
    forall b, d | BLOCK_FORMAT.decode(d) == Some(b) ensures BLOCK_FORMAT.encode(b) == Some(d) {
      BlockCanonical(d);
    }
  }
}
