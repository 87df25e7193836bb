/** Transactions, blocks, genesis documents and the stateless validity rules. */
module Protocol {
  import opened Prelude

  // ---------------------------------------------------------------- cryptography

  datatype Primitives = Primitives(
    hash: Bytes -> Str,
    verify: (Bytes, Bytes, Bytes) -> bool)

  predicate IsHexDigest(s: Str)
  {
    |s| == 64 && forall i :: 0 <= i < |s| ==> 0x30 <= s[i] <= 0x39 || 0x61 <= s[i] <= 0x66
  }

  /** SHA-256 in hexadecimal and Ed25519 verification: any functions of the right shape. */
  type Crypto = p: Primitives | forall b: Bytes :: IsHexDigest(p.hash(b))
    witness Primitives(b => seq(64, _ => 0x30), (m, s, k) => false)

  // ---------------------------------------------------------------- errors

  datatype StateFault =
    | MissingTxHash | TxHashMismatch | AmountFeeOverflow | SenderMissing | DebitUnderflow
    | NonceOverflow | ReceiverOverflow | BalanceUpdateOverflow | TotalOverflow
    | TipMissing | RollbackAboveTip | RollbackGenesis

  datatype BlockFault =
    | BadGenesisConstants | GenesisWithTransactions | MissingPreviousHash | MissingBlockHash
    | BlockHashMismatch | BadHeight | BadPreviousHash | TimestampOverflow | TimestampTooEarly
    | TimestampInFuture

  datatype GenesisFault = BadAddress | ZeroBalance | DuplicateAddress

  datatype ProtocolError =
    | InvalidAddress
    | InvalidAmount
    | InvalidNonce
    | InsufficientBalance
    | SignatureInvalid
    | InvalidBlock(block: BlockFault)
    | StateError(state: StateFault)
    | DuplicateTransaction
    | MempoolFull
    | MempoolNonceConflict
    | GenesisError(genesis: GenesisFault)

  datatype Outcome = Pass | Fail(error: ProtocolError)

  // ---------------------------------------------------------------- text

  /** Length of the white-space character that `s` starts with (0 if it starts with none). */
  function WhiteSpace(s: Str): (n: nat)
    ensures n <= |s|
  {
    if |s| >= 1 && (0x09 <= s[0] <= 0x0D || s[0] == 0x20) then 1
    else if |s| >= 2 && s[0] == 0xC2 && (s[1] == 0x85 || s[1] == 0xA0) then 2
    else if |s| >= 3 && s[0] == 0xE1 && s[1] == 0x9A && s[2] == 0x80 then 3
    else if |s| >= 3 && s[0] == 0xE2 && s[1] == 0x80 &&
            (0x80 <= s[2] <= 0x8A || s[2] == 0xA8 || s[2] == 0xA9 || s[2] == 0xAF) then 3
    else if |s| >= 3 && s[0] == 0xE2 && s[1] == 0x81 && s[2] == 0x9F then 3
    else if |s| >= 3 && s[0] == 0xE3 && s[1] == 0x80 && s[2] == 0x80 then 3
    else 0
  }

  /** `s.trim().is_empty()` */
  predicate Blank(s: Str)
  {
    s == [] || (WhiteSpace(s) > 0 && Blank(s[WhiteSpace(s)..]))
  }

  function Decimal(n: nat): (r: Bytes)
  {
    if n < 10 then [0x30 + n] else Decimal(n / 10) + [0x30 + n % 10]
  }

  const BAR: byte := 0x7C

  // ---------------------------------------------------------------- transactions

  predicate ValidAddress(a: Str)
  {
    !Blank(a) && |a| <= 128
  }

  datatype Transaction = Transaction(
    sender: Str,
    receiver: Str,
    amount: u64,
    fee: u64,
    nonce: u64,
    timestamp: u64,
    publicKey: Bytes,
    signature: Bytes,
    txHash: Str)

  function UnsignedPayload(tx: Transaction): (r: Bytes)
  {
    tx.sender + [BAR] + tx.receiver + [BAR] + Decimal(tx.amount) + [BAR] + Decimal(tx.fee)
    + [BAR] + Decimal(tx.nonce) + [BAR] + Decimal(tx.timestamp)
  }

  /** `Transaction::basic_validate` */
  function BasicValidate(c: Crypto, tx: Transaction): (r: Outcome)
  {
    if !ValidAddress(tx.sender) || !ValidAddress(tx.receiver) then Fail(InvalidAddress)
    else if tx.amount == 0 then Fail(InvalidAmount)
    else if tx.publicKey == [] || tx.signature == [] then Fail(SignatureInvalid)
    else if Blank(tx.txHash) then Fail(StateError(MissingTxHash))
    else if tx.txHash != c.hash(UnsignedPayload(tx)) then Fail(StateError(TxHashMismatch))
    else if !c.verify(UnsignedPayload(tx), tx.signature, tx.publicKey) then Fail(SignatureInvalid)
    else if tx.sender != c.hash(tx.publicKey) then Fail(InvalidAddress)
    else Pass
  }

  // ---------------------------------------------------------------- blocks

  datatype Block = Block(
    height: u64,
    previousHash: Str,
    timestamp: u64,
    transactions: seq<Transaction>,
    blockHash: Str)

  /** "GENESIS" and "GENESIS_HASH" */
  const GENESIS_PARENT: Str := [0x47, 0x45, 0x4E, 0x45, 0x53, 0x49, 0x53]
  const GENESIS_HASH: Str := [0x47, 0x45, 0x4E, 0x45, 0x53, 0x49, 0x53, 0x5F, 0x48, 0x41, 0x53, 0x48]

  const GENESIS_BLOCK := Block(0, GENESIS_PARENT, 0, [], GENESIS_HASH)

  function Hashes(txs: seq<Transaction>): (r: seq<Str>)
    ensures |r| == |txs|
    ensures forall i :: 0 <= i < |txs| ==> r[i] == txs[i].txHash
  {
    seq(|txs|, i requires 0 <= i < |txs| => txs[i].txHash)
  }

  /** What a block hash commits to. */
  datatype Header = Header(height: u64, previousHash: Str, timestamp: u64, txHashes: seq<Str>)

  function HeaderOf(b: Block): (r: Header)
  {
    Header(b.height, b.previousHash, b.timestamp, Hashes(b.transactions))
  }

  function Joined(parts: seq<Str>): (r: Bytes)
  {
    if parts == [] then []
    else if |parts| == 1 then parts[0]
    else parts[0] + [BAR] + Joined(parts[1..])
  }

  /** `Block::block_header_preimage_bytes` */
  function HeaderPreimage(h: Header): (r: Bytes)
  {
    Decimal(h.height) + [BAR] + h.previousHash + [BAR] + Decimal(h.timestamp) + [BAR] + Joined(h.txHashes)
  }

  // ---------------------------------------------------------------- rule sets

  /** The two places where cryptography enters the protocol rules. */
  datatype RuleSet = RuleSet(
    checkTx: Transaction -> Outcome,
    sealHash: Header -> Str)

  /** Everything below and in the other modules holds of every rule set whose hashes are not blank. */
  type Rules = r: RuleSet | forall h: Header :: !Blank(r.sealHash(h))
    witness (assert !Blank([0x30]); RuleSet(_ => Pass, _ => [0x30]))

  lemma DigestNotBlank(c: Crypto, m: Bytes)
    ensures !Blank(c.hash(m))
  {
    assert IsHexDigest(c.hash(m));
  }

  /** The rule set of the running node. */
  function StandardRules(c: Crypto): (r: Rules)
    ensures forall tx :: r.checkTx(tx) == BasicValidate(c, tx)
    ensures forall h :: r.sealHash(h) == c.hash(HeaderPreimage(h))
  {
    assert forall h: Header :: !Blank(c.hash(HeaderPreimage(h))) by {
      forall h: Header ensures !Blank(c.hash(HeaderPreimage(h))) { DigestNotBlank(c, HeaderPreimage(h)); }
    }
    RuleSet(tx => BasicValidate(c, tx), h => c.hash(HeaderPreimage(h)))
  }

  /** The first failing transaction decides the error. */
  function ValidateTransactions(rules: Rules, txs: seq<Transaction>): (r: Outcome)
    ensures r.Pass? <==> forall i :: 0 <= i < |txs| ==> rules.checkTx(txs[i]).Pass?
  {
    if txs == [] then Pass
    else if rules.checkTx(txs[0]).Fail? then rules.checkTx(txs[0])
    else
      assert forall i :: 1 <= i < |txs| ==> txs[i] == txs[1..][i - 1];
      ValidateTransactions(rules, txs[1..])
  }

  /** `Block::basic_validate` */
  function ValidateBlock(rules: Rules, b: Block): (r: Outcome)
  {
    if b.height == 0 then
      if b.previousHash != GENESIS_PARENT || b.blockHash != GENESIS_HASH
      then Fail(InvalidBlock(BadGenesisConstants))
      else if b.transactions != [] then Fail(InvalidBlock(GenesisWithTransactions))
      else Pass
    else if Blank(b.previousHash) then Fail(InvalidBlock(MissingPreviousHash))
    else if !Distinct(Hashes(b.transactions)) then Fail(DuplicateTransaction)
    else if ValidateTransactions(rules, b.transactions).Fail? then ValidateTransactions(rules, b.transactions)
    else if Blank(b.blockHash) then Fail(InvalidBlock(MissingBlockHash))
    else if b.blockHash != rules.sealHash(HeaderOf(b)) then Fail(InvalidBlock(BlockHashMismatch))
    else Pass
  }

  // ---------------------------------------------------------------- time policy

  datatype ConsensusParams = ConsensusParams(minInterval: u64, maxDrift: u64)

  const DEFAULT_PARAMS := ConsensusParams(0, U64_MAX)

  /** `validate_block_timestamps_vs_parent` */
  function ValidateTimestamp(parent: Block, b: Block, p: ConsensusParams): (r: Outcome)
  {
    match CheckedAdd(parent.timestamp, p.minInterval)
    case None => Fail(InvalidBlock(TimestampOverflow))
    case Some(earliest) =>
      if b.timestamp < earliest then Fail(InvalidBlock(TimestampTooEarly)) else Pass
  }

  /** A block is late enough exactly when it keeps the interval: at the earliest time it is accepted. */
  lemma TimestampExact(parent: Block, b: Block, p: ConsensusParams)
    ensures var r := ValidateTimestamp(parent, b, p);
            var earliest := parent.timestamp + p.minInterval;
            && (r.Pass? <==> earliest <= b.timestamp)
            && (r == Fail(InvalidBlock(TimestampOverflow)) <==> earliest > U64_MAX)
            && (r == Fail(InvalidBlock(TimestampTooEarly)) <==> b.timestamp < earliest <= U64_MAX)
  {
  }

  /** `validate_block_vs_local_time` */
  function ValidateDrift(b: Block, now: u64, p: ConsensusParams): (r: Outcome)
  {
    if b.timestamp > SaturatingAdd(now, p.maxDrift) then Fail(InvalidBlock(TimestampInFuture)) else Pass
  }

  /** A block is refused for being ahead exactly when it is further ahead than the drift allows. */
  lemma DriftExact(b: Block, now: u64, p: ConsensusParams)
    ensures ValidateDrift(b, now, p).Pass? <==> b.timestamp <= now + p.maxDrift
    ensures ValidateDrift(b, now, p).Fail? ==> ValidateDrift(b, now, p).error == InvalidBlock(TimestampInFuture)
  {
  }

  /** A block above height 0 validates exactly when these hold; the seal is never blank. */
  lemma ValidateBlockExact(rules: Rules, b: Block)
    ensures b.height > 0 ==>
      (ValidateBlock(rules, b).Pass? <==>
         && !Blank(b.previousHash)
         && (forall i, j :: 0 <= i < j < |b.transactions| ==> b.transactions[i].txHash != b.transactions[j].txHash)
         && (forall tx :: tx in b.transactions ==> rules.checkTx(tx).Pass?)
         && b.blockHash == rules.sealHash(HeaderOf(b)))
    ensures b.height == 0 ==> (ValidateBlock(rules, b).Pass? <==> b == GENESIS_BLOCK.(timestamp := b.timestamp))
  {
    var txs := b.transactions;
    if Distinct(Hashes(txs)) {
      forall i, j | 0 <= i < j < |txs| ensures txs[i].txHash != txs[j].txHash {
        assert Hashes(txs)[i] != Hashes(txs)[j];
      }
    }
  }

  // ---------------------------------------------------------------- genesis

  datatype Allocation = Allocation(address: Str, balance: u64)

  type Genesis = seq<Allocation>

  function Addresses(g: Genesis): (r: seq<Str>)
    ensures |r| == |g|
  {
    seq(|g|, i requires 0 <= i < |g| => g[i].address)
  }

  function ValidateAllocations(g: Genesis): (r: Outcome)
  {
    if g == [] then Pass
    else if !ValidAddress(g[0].address) then Fail(GenesisError(BadAddress))
    else if g[0].balance == 0 then Fail(GenesisError(ZeroBalance))
    else ValidateAllocations(g[1..])
  }

  /** The checks of `Genesis::sorted_pairs`. */
  function ValidateGenesis(g: Genesis): (r: Outcome)
  {
    if ValidateAllocations(g).Fail? then ValidateAllocations(g)
    else if !Distinct(Addresses(g)) then Fail(GenesisError(DuplicateAddress))
    else Pass
  }

  /** A genesis document passes exactly when each address is valid, funded and listed once. */
  lemma ValidateGenesisExact(g: Genesis)
    ensures ValidateGenesis(g).Pass? <==>
      && (forall i :: 0 <= i < |g| ==> ValidAddress(g[i].address) && g[i].balance > 0)
      && (forall i, j :: 0 <= i < j < |g| ==> g[i].address != g[j].address)
  {
    AllocationsExact(g);
    if forall i, j :: 0 <= i < j < |g| ==> g[i].address != g[j].address {
      assert Distinct(Addresses(g));
    }
    if Distinct(Addresses(g)) {
      forall i, j | 0 <= i < j < |g| ensures g[i].address != g[j].address {
        assert Addresses(g)[i] != Addresses(g)[j];
      }
    }
  }

  lemma {:induction false} AllocationsExact(g: Genesis)
    ensures ValidateAllocations(g).Pass? <==>
      forall i :: 0 <= i < |g| ==> ValidAddress(g[i].address) && g[i].balance > 0
  {
    if g != [] {
      AllocationsExact(g[1..]);
      assert g == [g[0]] + g[1..];
    }
  }
}
