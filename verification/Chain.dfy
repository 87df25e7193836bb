/** The chain of blocks as a value: append, replay, rollback and what every reachable chain satisfies. */
module Chain {
  import opened Prelude
  import opened Protocol
  import opened Ledger

  datatype ChainValue = ChainValue(blocks: seq<Block>, accounts: Accounts)

  type ChainResult = Result<ChainValue, ProtocolError>

  // ---------------------------------------------------------------- append

  /** `Blockchain::append_block` */
  function Append(rules: Rules, p: ConsensusParams, ch: ChainValue, b: Block): (r: ChainResult)
  {
    match ValidateBlock(rules, b)
    case Fail(e) => Err(e)
    case Pass =>
      if ch.blocks == [] then Err(StateError(TipMissing))
      else
        var tip := ch.blocks[|ch.blocks| - 1];
        if b.height != tip.height + 1 then Err(InvalidBlock(BadHeight))
        else if b.previousHash != tip.blockHash then Err(InvalidBlock(BadPreviousHash))
        else
          match ValidateTimestamp(tip, b, p)
          case Fail(e) => Err(e)
          case Pass =>
            match ApplyAll(rules, ch.accounts, b.transactions)
            case Err(e) => Err(e)
            case Ok(s) => Ok(ChainValue(ch.blocks + [b], s))
  }

  /** A block fits on the chain: valid, next in height, linked, late enough, and the ledger takes its transfers. */
  ghost predicate Fits(rules: Rules, p: ConsensusParams, ch: ChainValue, b: Block)
  {
    && ch.blocks != [] && ValidateBlock(rules, b).Pass? && ApplyAll(rules, ch.accounts, b.transactions).Ok?
    && var tip := ch.blocks[|ch.blocks| - 1];
       && b.height == tip.height + 1 && b.previousHash == tip.blockHash
       && tip.timestamp + p.minInterval <= b.timestamp
  }

  /** Exactly the blocks that fit are appended; from the network they must also not be too far ahead. */
  lemma AppendExact(rules: Rules, p: ConsensusParams, ch: ChainValue, b: Block, now: u64)
    ensures Append(rules, p, ch, b).Ok? <==> Fits(rules, p, ch, b)
    ensures AppendNetwork(rules, p, ch, b, now).Ok? <==> Fits(rules, p, ch, b) && b.timestamp <= now + p.maxDrift
    ensures Append(rules, p, ch, b).Ok? ==>
      && Append(rules, p, ch, b).value.blocks == ch.blocks + [b]
      && ApplyAll(rules, ch.accounts, b.transactions) == Ok(Append(rules, p, ch, b).value.accounts)
    ensures AppendNetwork(rules, p, ch, b, now).Ok? ==>
      AppendNetwork(rules, p, ch, b, now) == Append(rules, p, ch, b)
  {
  }

  function AppendAll(rules: Rules, p: ConsensusParams, ch: ChainValue, bs: seq<Block>): (r: ChainResult)
    decreases |bs|
  {
    if bs == [] then Ok(ch)
    else
      match Append(rules, p, ch, bs[0])
      case Err(e) => Err(e)
      case Ok(next) => AppendAll(rules, p, next, bs[1..])
  }

  lemma {:induction false} AppendAllBlocks(rules: Rules, p: ConsensusParams, ch: ChainValue, bs: seq<Block>)
    requires AppendAll(rules, p, ch, bs).Ok?
    ensures AppendAll(rules, p, ch, bs).value.blocks == ch.blocks + bs
    decreases |bs|
  {
    if bs != [] {
      AppendAllBlocks(rules, p, Append(rules, p, ch, bs[0]).value, bs[1..]);
      assert bs == [bs[0]] + bs[1..];
    }
  }

  lemma {:induction false} AppendAllConcat(rules: Rules, p: ConsensusParams, ch: ChainValue, x: seq<Block>,
          y: seq<Block>)
    ensures AppendAll(rules, p, ch, x).Err? ==> AppendAll(rules, p, ch, x + y) == AppendAll(rules, p, ch, x)
    ensures AppendAll(rules, p, ch, x).Ok? ==>
      AppendAll(rules, p, ch, x + y) == AppendAll(rules, p, AppendAll(rules, p, ch, x).value, y)
    decreases |x|
  {
    if x == [] {
      assert x + y == y;
    } else {
      assert (x + y)[1..] == x[1..] + y;
      if Append(rules, p, ch, x[0]).Ok? {
        AppendAllConcat(rules, p, Append(rules, p, ch, x[0]).value, x[1..], y);
      }
    }
  }

  lemma AppendAllSnoc(rules: Rules, p: ConsensusParams, ch: ChainValue, x: seq<Block>, b: Block)
    requires AppendAll(rules, p, ch, x).Ok?
    ensures AppendAll(rules, p, ch, x + [b]) == Append(rules, p, AppendAll(rules, p, ch, x).value, b)
  {
    AppendAllConcat(rules, p, ch, x, [b]);
    var mid := AppendAll(rules, p, ch, x).value;
    if Append(rules, p, mid, b).Ok? {
      assert AppendAll(rules, p, Append(rules, p, mid, b).value, [b][1..]) == Append(rules, p, mid, b);
    }
  }

  // ---------------------------------------------------------------- reachable chains

  function Initial(g: Genesis): (r: ChainValue)
  {
    ChainValue([GENESIS_BLOCK], AccountsOf(g))
  }

  /** The chain is what appending its own blocks to genesis gives. */
  ghost predicate Canonical(rules: Rules, p: ConsensusParams, g: Genesis, ch: ChainValue)
  {
    && ValidateGenesis(g).Pass?
    && ch.blocks != []
    && AppendAll(rules, p, Initial(g), ch.blocks[1..]) == Ok(ch)
  }

  lemma CanonicalInitial(rules: Rules, p: ConsensusParams, g: Genesis)
    requires ValidateGenesis(g).Pass?
    ensures Canonical(rules, p, g, Initial(g))
  {
  }

  lemma CanonicalAppendAll(rules: Rules, p: ConsensusParams, g: Genesis, ch: ChainValue, bs: seq<Block>)
    requires Canonical(rules, p, g, ch)
    requires AppendAll(rules, p, ch, bs).Ok?
    ensures Canonical(rules, p, g, AppendAll(rules, p, ch, bs).value)
    ensures AppendAll(rules, p, ch, bs).value.blocks == ch.blocks + bs
  {
    AppendAllBlocks(rules, p, ch, bs);
    TailOfConcat(ch.blocks, bs);
    AppendAllConcat(rules, p, Initial(g), ch.blocks[1..], bs);
  }

  lemma CanonicalAppend(rules: Rules, p: ConsensusParams, g: Genesis, ch: ChainValue, b: Block)
    requires Canonical(rules, p, g, ch)
    requires Append(rules, p, ch, b).Ok?
    ensures Canonical(rules, p, g, Append(rules, p, ch, b).value)
  {
    AppendAllSnoc(rules, p, ch, [], b);
    assert [] + [b] == [b];
    CanonicalAppendAll(rules, p, g, ch, [b]);
  }

  /** The chain held when the block at position `n - 1` was the tip. */
  function AtLength(rules: Rules, p: ConsensusParams, g: Genesis, ch: ChainValue, n: nat): (r: ChainResult)
    requires 1 <= n <= |ch.blocks|
  {
    AppendAll(rules, p, Initial(g), ch.blocks[1..n])
  }

  lemma CanonicalPrefix(rules: Rules, p: ConsensusParams, g: Genesis, ch: ChainValue, n: nat)
    requires Canonical(rules, p, g, ch)
    requires 1 <= n <= |ch.blocks|
    ensures AtLength(rules, p, g, ch, n).Ok?
    ensures AtLength(rules, p, g, ch, n).value.blocks == ch.blocks[..n]
    ensures Canonical(rules, p, g, AtLength(rules, p, g, ch, n).value)
    ensures AppendAll(rules, p, AtLength(rules, p, g, ch, n).value, ch.blocks[n..]) == Ok(ch)
  {
    var x, y := ch.blocks[1..n], ch.blocks[n..];
    assert ch.blocks[1..] == x + y;
    AppendAllConcat(rules, p, Initial(g), x, y);
    AppendAllBlocks(rules, p, Initial(g), x);
    AppendAllBlocks(rules, p, Initial(g), ch.blocks[1..]);
    assert [GENESIS_BLOCK] + x == ch.blocks[..n];
    assert ch.blocks[..n][1..] == x;
  }

  /** Block `i` stands at height `i` and names block `i - 1` as its parent. */
  ghost predicate Linked(blocks: seq<Block>)
  {
    && blocks != []
    && blocks[0] == GENESIS_BLOCK
    && (forall i :: 0 <= i < |blocks| ==> blocks[i].height == i)
    && (forall i :: 0 < i < |blocks| ==> blocks[i].previousHash == blocks[i - 1].blockHash)
  }

  lemma {:induction false} AppendAllLinked(rules: Rules, p: ConsensusParams, ch: ChainValue, bs: seq<Block>)
    requires Linked(ch.blocks)
    requires AppendAll(rules, p, ch, bs).Ok?
    ensures Linked(AppendAll(rules, p, ch, bs).value.blocks)
    decreases |bs|
  {
    if bs != [] {
      AppendAllLinked(rules, p, Append(rules, p, ch, bs[0]).value, bs[1..]);
    }
  }

  lemma CanonicalLinked(rules: Rules, p: ConsensusParams, g: Genesis, ch: ChainValue)
    requires Canonical(rules, p, g, ch)
    ensures Linked(ch.blocks)
  {
    AppendAllLinked(rules, p, Initial(g), ch.blocks[1..]);
  }

  /** Every block above genesis passed the stateless rules. */
  lemma CanonicalValidated(rules: Rules, p: ConsensusParams, g: Genesis, ch: ChainValue, i: nat)
    requires Canonical(rules, p, g, ch)
    requires 1 <= i < |ch.blocks|
    ensures ValidateBlock(rules, ch.blocks[i]).Pass?
  {
    CanonicalPrefix(rules, p, g, ch, i);
    assert ch.blocks[i..][0] == ch.blocks[i];
  }

  /** Each block keeps the minimum interval to its parent. */
  lemma CanonicalTimestamps(rules: Rules, p: ConsensusParams, g: Genesis, ch: ChainValue, i: nat)
    requires Canonical(rules, p, g, ch)
    requires 1 <= i < |ch.blocks|
    ensures ch.blocks[i - 1].timestamp + p.minInterval <= ch.blocks[i].timestamp
  {
    CanonicalPrefix(rules, p, g, ch, i);
    assert ch.blocks[i..][0] == ch.blocks[i];
    assert ch.blocks[..i][i - 1] == ch.blocks[i - 1];
  }

  /** Blocks at one height of the two chains share a seal only if they share the header. */
  ghost predicate NoCollision(rules: Rules, xs: seq<Block>, ys: seq<Block>)
  {
    forall i :: 0 <= i < |xs| && i < |ys| && rules.sealHash(HeaderOf(xs[i])) == rules.sealHash(HeaderOf(ys[i])) ==>
      HeaderOf(xs[i]) == HeaderOf(ys[i])
  }

  /** Block `i` carries the seal of its header and the hash of the block below. */
  ghost predicate SealedAt(rules: Rules, blocks: seq<Block>, i: nat)
    requires 1 <= i < |blocks|
  {
    blocks[i].blockHash == rules.sealHash(HeaderOf(blocks[i])) && blocks[i].previousHash == blocks[i - 1].blockHash
  }

  ghost predicate HashChain(rules: Rules, blocks: seq<Block>)
  {
    && blocks != [] && blocks[0] == GENESIS_BLOCK
    && forall i {:trigger SealedAt(rules, blocks, i)} :: 1 <= i < |blocks| ==> SealedAt(rules, blocks, i)
  }

  lemma CanonicalSealed(rules: Rules, p: ConsensusParams, g: Genesis, ch: ChainValue)
    requires Canonical(rules, p, g, ch)
    ensures HashChain(rules, ch.blocks)
  {
    CanonicalLinked(rules, p, g, ch);
    forall i | 1 <= i < |ch.blocks| ensures SealedAt(rules, ch.blocks, i) {
      CanonicalValidated(rules, p, g, ch, i);
    }
  }

  lemma {:induction false} HashFixesBelow(rules: Rules, xs: seq<Block>, ys: seq<Block>, n: nat, i: nat)
    requires NoCollision(rules, xs, ys) && HashChain(rules, xs) && HashChain(rules, ys)
    requires i <= n < |xs| && n < |ys| && xs[n].blockHash == ys[n].blockHash
    ensures HeaderOf(xs[i]) == HeaderOf(ys[i])
    decreases n
  {
    if n > 0 {
      assert SealedAt(rules, xs, n) && SealedAt(rules, ys, n);
      assert HeaderOf(xs[n]) == HeaderOf(ys[n]);
      assert xs[n].previousHash == HeaderOf(xs[n]).previousHash == HeaderOf(ys[n]).previousHash;
      if i < n { HashFixesBelow(rules, xs, ys, n - 1, i); }
    }
  }

  /** Where no two seals collide, a block hash fixes the headers of the whole chain below it. */
  lemma HashFixesHistory(rules: Rules, p: ConsensusParams, g: Genesis, x: ChainValue, y: ChainValue, n: nat)
    requires Canonical(rules, p, g, x) && Canonical(rules, p, g, y) && NoCollision(rules, x.blocks, y.blocks)
    requires n < |x.blocks| && n < |y.blocks| && x.blocks[n].blockHash == y.blocks[n].blockHash
    ensures forall i :: 0 <= i <= n ==> HeaderOf(x.blocks[i]) == HeaderOf(y.blocks[i])
  {
    CanonicalSealed(rules, p, g, x);
    CanonicalSealed(rules, p, g, y);
    forall i | 0 <= i <= n ensures HeaderOf(x.blocks[i]) == HeaderOf(y.blocks[i]) {
      HashFixesBelow(rules, x.blocks, y.blocks, n, i);
    }
  }

  // ---------------------------------------------------------------- state is replay

  function TxsOf(bs: seq<Block>): (r: seq<Transaction>)
  {
    if bs == [] then [] else TxsOf(bs[..|bs| - 1]) + bs[|bs| - 1].transactions
  }

  /** The history above genesis. */
  function History(ch: ChainValue): (r: seq<Transaction>)
    requires ch.blocks != []
  {
    TxsOf(ch.blocks[1..])
  }

  /** `recompute_state_from_blocks` */
  function Recompute(rules: Rules, g: Genesis, blocks: seq<Block>): (r: LedgerResult)
  {
    match GenesisLedger(g)
    case Err(e) => Err(e)
    case Ok(s) => ApplyAll(rules, s, TxsOf(if blocks == [] then [] else blocks[1..]))
  }

  lemma {:induction false} AppendAllReplays(rules: Rules, p: ConsensusParams, ch: ChainValue, bs: seq<Block>)
    requires AppendAll(rules, p, ch, bs).Ok?
    ensures ApplyAll(rules, ch.accounts, TxsOf(bs)) == Ok(AppendAll(rules, p, ch, bs).value.accounts)
    decreases |bs|
  {
    if bs != [] {
      var front, last := bs[..|bs| - 1], bs[|bs| - 1];
      assert bs == front + [last];
      AppendAllConcat(rules, p, ch, front, [last]);
      AppendAllSnoc(rules, p, ch, front, last);
      AppendAllReplays(rules, p, ch, front);
      AppendReplays(rules, p, AppendAll(rules, p, ch, front).value, last);
      ApplyAllAppend(rules, ch.accounts, TxsOf(front), last.transactions);
    }
  }

  lemma AppendReplays(rules: Rules, p: ConsensusParams, ch: ChainValue, b: Block)
    requires Append(rules, p, ch, b).Ok?
    ensures ApplyAll(rules, ch.accounts, b.transactions) == Ok(Append(rules, p, ch, b).value.accounts)
  {
  }

  /** The ledger of a reachable chain is genesis replayed through its blocks. */
  lemma StateIsReplay(rules: Rules, p: ConsensusParams, g: Genesis, ch: ChainValue)
    requires Canonical(rules, p, g, ch)
    ensures Recompute(rules, g, ch.blocks) == Ok(ch.accounts)
    ensures ApplyAll(rules, AccountsOf(g), History(ch)) == Ok(ch.accounts)
  {
    AppendAllReplays(rules, p, Initial(g), ch.blocks[1..]);
  }

  // ---------------------------------------------------------------- rollback

  function TipHeight(blocks: seq<Block>): (r: u64)
  {
    if blocks == [] then 0 else blocks[|blocks| - 1].height
  }

  function PopAbove(blocks: seq<Block>, target: u64): (r: seq<Block>)
  {
    if TipHeight(blocks) > target then PopAbove(blocks[..|blocks| - 1], target) else blocks
  }

  /** `Blockchain::rollback_to_height`; a failing replay leaves the blocks already popped. */
  function RollbackTo(rules: Rules, g: Genesis, ch: ChainValue, target: u64): (r: (Outcome, ChainValue))
  {
    if target > TipHeight(ch.blocks) then (Fail(StateError(RollbackAboveTip)), ch)
    else
      var kept := PopAbove(ch.blocks, target);
      match Recompute(rules, g, kept)
      case Err(e) => (Fail(e), ChainValue(kept, ch.accounts))
      case Ok(s) => (Pass, ChainValue(kept, s))
  }

  /** `Blockchain::rollback_last_block` */
  function RollbackLast(rules: Rules, g: Genesis, ch: ChainValue): (r: (Outcome, ChainValue))
  {
    if |ch.blocks| <= 1 then (Fail(StateError(RollbackGenesis)), ch)
    else
      var kept := ch.blocks[..|ch.blocks| - 1];
      match Recompute(rules, g, kept)
      case Err(e) => (Fail(e), ChainValue(kept, ch.accounts))
      case Ok(s) => (Pass, ChainValue(kept, s))
  }

  lemma {:induction false} PopAboveLinked(blocks: seq<Block>, target: u64)
    requires Linked(blocks)
    requires target < |blocks|
    ensures PopAbove(blocks, target) == blocks[..target + 1]
  {
    if TipHeight(blocks) > target {
      var front := blocks[..|blocks| - 1];
      PopAboveLinked(front, target);
      assert front[..target + 1] == blocks[..target + 1];
    } else {
      assert blocks[..target + 1] == blocks;
    }
  }

  /** Rolling back to any height at or below the tip never fails and returns to the chain of then. */
  lemma RollbackReturns(rules: Rules, p: ConsensusParams, g: Genesis, ch: ChainValue, target: u64)
    requires Canonical(rules, p, g, ch)
    requires target <= TipHeight(ch.blocks)
    ensures target < |ch.blocks|
    ensures AtLength(rules, p, g, ch, target + 1).Ok?
    ensures RollbackTo(rules, g, ch, target) == (Pass, AtLength(rules, p, g, ch, target + 1).value)
  {
    CanonicalLinked(rules, p, g, ch);
    PopAboveLinked(ch.blocks, target);
    CanonicalPrefix(rules, p, g, ch, target + 1);
    StateIsReplay(rules, p, g, AtLength(rules, p, g, ch, target + 1).value);
  }

  /** Whatever is appended on top of a reachable chain, rolling back to its height restores it. */
  lemma RollbackUndoesAppends(rules: Rules, p: ConsensusParams, g: Genesis, ch: ChainValue, bs: seq<Block>)
    requires Canonical(rules, p, g, ch)
    requires AppendAll(rules, p, ch, bs).Ok?
    ensures RollbackTo(rules, g, AppendAll(rules, p, ch, bs).value, TipHeight(ch.blocks)) == (Pass, ch)
  {
    var longer := AppendAll(rules, p, ch, bs).value;
    CanonicalAppendAll(rules, p, g, ch, bs);
    CanonicalLinked(rules, p, g, ch);
    CanonicalLinked(rules, p, g, longer);
    assert longer.blocks[|longer.blocks| - 1].height == |longer.blocks| - 1;
    RollbackReturns(rules, p, g, longer, TipHeight(ch.blocks));
    assert longer.blocks[1..|ch.blocks|] == ch.blocks[1..];
  }

  lemma RollbackLastUndoes(rules: Rules, p: ConsensusParams, g: Genesis, ch: ChainValue, b: Block)
    requires Canonical(rules, p, g, ch)
    requires Append(rules, p, ch, b).Ok?
    ensures RollbackLast(rules, g, Append(rules, p, ch, b).value) == (Pass, ch)
  {
    assert (ch.blocks + [b])[..|ch.blocks|] == ch.blocks;
    StateIsReplay(rules, p, g, ch);
  }

  lemma RollbackLastCanonical(rules: Rules, p: ConsensusParams, g: Genesis, ch: ChainValue)
    requires Canonical(rules, p, g, ch)
    ensures Canonical(rules, p, g, RollbackLast(rules, g, ch).1)
    ensures RollbackLast(rules, g, ch).0.Pass? <==> |ch.blocks| > 1
  {
    if |ch.blocks| > 1 {
      var n := |ch.blocks| - 1;
      CanonicalPrefix(rules, p, g, ch, n);
      StateIsReplay(rules, p, g, AtLength(rules, p, g, ch, n).value);
    }
  }

  /** A rollback that has nowhere to go is refused and changes nothing. */
  lemma RollbackRefuses(rules: Rules, g: Genesis, ch: ChainValue, target: u64)
    ensures target > TipHeight(ch.blocks) ==>
      RollbackTo(rules, g, ch, target) == (Fail(StateError(RollbackAboveTip)), ch)
    ensures |ch.blocks| <= 1 ==> RollbackLast(rules, g, ch) == (Fail(StateError(RollbackGenesis)), ch)
  {
  }

  // ---------------------------------------------------------------- every run

  datatype ChainOp =
    | AppendOp(block: Block) | NetworkOp(received: Block, now: u64) | RollbackOp(target: u64) | RollbackLastOp

  /** `Blockchain::try_append_network_block` */
  function AppendNetwork(rules: Rules, p: ConsensusParams, ch: ChainValue, b: Block, now: u64): (r: ChainResult)
  {
    match ValidateDrift(b, now, p)
    case Fail(e) => Err(e)
    case Pass => Append(rules, p, ch, b)
  }

  function Step(rules: Rules, p: ConsensusParams, g: Genesis, ch: ChainValue, op: ChainOp): (r: ChainValue)
  {
    match op
    case AppendOp(b) => (match Append(rules, p, ch, b) case Ok(next) => next case Err(_) => ch)
    case NetworkOp(b, now) => (match AppendNetwork(rules, p, ch, b, now) case Ok(next) => next case Err(_) => ch)
    case RollbackOp(target) => RollbackTo(rules, g, ch, target).1
    case RollbackLastOp => RollbackLast(rules, g, ch).1
  }

  function Run(rules: Rules, p: ConsensusParams, g: Genesis, ops: seq<ChainOp>): (r: ChainValue)
  {
    if ops == [] then Initial(g) else Step(rules, p, g, Run(rules, p, g, ops[..|ops| - 1]), ops[|ops| - 1])
  }

  /** Every chain that any sequence of operations reaches is canonical. */
  lemma {:induction false} EveryRunCanonical(rules: Rules, p: ConsensusParams, g: Genesis, ops: seq<ChainOp>)
    requires ValidateGenesis(g).Pass?
    ensures Canonical(rules, p, g, Run(rules, p, g, ops))
  {
    if ops != [] {
      EveryRunCanonical(rules, p, g, ops[..|ops| - 1]);
      StepCanonical(rules, p, g, Run(rules, p, g, ops[..|ops| - 1]), ops[|ops| - 1]);
    }
  }

  lemma StepCanonical(rules: Rules, p: ConsensusParams, g: Genesis, ch: ChainValue, op: ChainOp)
    requires Canonical(rules, p, g, ch)
    ensures Canonical(rules, p, g, Step(rules, p, g, ch, op))
  {
    match op
    case AppendOp(b) =>
      if Append(rules, p, ch, b).Ok? { CanonicalAppend(rules, p, g, ch, b); }
    case NetworkOp(b, now) =>
      if AppendNetwork(rules, p, ch, b, now).Ok? { CanonicalAppend(rules, p, g, ch, b); }
    case RollbackOp(target) => RollbackCanonical(rules, p, g, ch, target);
    case RollbackLastOp => RollbackLastCanonical(rules, p, g, ch);
  }

  lemma RollbackCanonical(rules: Rules, p: ConsensusParams, g: Genesis, ch: ChainValue, target: u64)
    requires Canonical(rules, p, g, ch)
    ensures Canonical(rules, p, g, RollbackTo(rules, g, ch, target).1)
  {
    if target <= TipHeight(ch.blocks) {
      RollbackReturns(rules, p, g, ch, target);
      CanonicalPrefix(rules, p, g, ch, target + 1);
    }
  }

  // ---------------------------------------------------------------- supply and nonces of a chain

  /** A reachable chain holds the genesis allocation less every fee ever paid. */
  lemma ChainSupply(rules: Rules, p: ConsensusParams, g: Genesis, ch: ChainValue)
    requires Canonical(rules, p, g, ch)
    ensures Total(ch.accounts) == Allocated(g) - Fees(History(ch))
  {
    StateIsReplay(rules, p, g, ch);
    RunBurnsFees(rules, AccountsOf(g), History(ch));
    GenesisTotal(g);
  }

  /** With a genesis that fits 64 bits no transfer on top of a reachable chain overflows its receiver. */
  lemma NoOverflowOnChain(rules: Rules, p: ConsensusParams, g: Genesis, ch: ChainValue, txs: seq<Transaction>,
          tx: Transaction)
    requires Canonical(rules, p, g, ch)
    requires Allocated(g) <= U64_MAX
    requires ApplyAll(rules, ch.accounts, txs).Ok?
    ensures Total(ApplyAll(rules, ch.accounts, txs).value) <= U64_MAX
    ensures Transfer(ApplyAll(rules, ch.accounts, txs).value, tx) != Err(StateError(ReceiverOverflow))
  {
    ChainSupply(rules, p, g, ch);
    RunBurnsFees(rules, ch.accounts, txs);
    NoReceiverOverflow(ApplyAll(rules, ch.accounts, txs).value, tx);
  }

  /** In a reachable chain each nonce counts what its account sent, and the k-th send carries nonce k. */
  lemma NoncesCountHistory(rules: Rules, p: ConsensusParams, g: Genesis, ch: ChainValue)
    requires Canonical(rules, p, g, ch)
    ensures forall a: Str :: AccountOr(ch.accounts, a).nonce == Sent(History(ch), a)
    ensures forall i :: 0 <= i < |History(ch)| ==>
      History(ch)[i].nonce == Sent(History(ch)[..i], History(ch)[i].sender)
  {
    var h := History(ch);
    StateIsReplay(rules, p, g, ch);
    forall a: Str ensures AccountOr(ch.accounts, a).nonce == Sent(h, a) {
      NonceCountsSends(rules, AccountsOf(g), h, a);
      GenesisNonces(g, a);
    }
    forall i | 0 <= i < |h| ensures h[i].nonce == Sent(h[..i], h[i].sender) {
      NonceAtPosition(rules, AccountsOf(g), h, i);
      GenesisNonces(g, h[i].sender);
    }
  }

  /** No (sender, nonce) pair, hence no transaction, occurs twice in a reachable chain. */
  lemma NoReplayInHistory(rules: Rules, p: ConsensusParams, g: Genesis, ch: ChainValue, i: nat, j: nat)
    requires Canonical(rules, p, g, ch)
    requires i < j < |History(ch)|
    ensures History(ch)[i].sender != History(ch)[j].sender || History(ch)[i].nonce != History(ch)[j].nonce
    ensures History(ch)[i] != History(ch)[j]
  {
    StateIsReplay(rules, p, g, ch);
    if History(ch)[i].sender == History(ch)[j].sender {
      NoNonceReuse(rules, AccountsOf(g), History(ch), i, j);
    }
  }

  lemma {:induction false} AppliedChecked(rules: Rules, s: Accounts, txs: seq<Transaction>, i: nat)
    requires ApplyAll(rules, s, txs).Ok? && i < |txs|
    ensures rules.checkTx(txs[i]).Pass?
    decreases i
  {
    TransferMeaning(rules, s, txs[0]);
    if i > 0 { AppliedChecked(rules, ApplyTx(rules, s, txs[0]).value, txs[1..], i - 1); }
  }

  /** What a transaction proves about its author. */
  predicate Authentic(c: Crypto, tx: Transaction)
  {
    && c.verify(UnsignedPayload(tx), tx.signature, tx.publicKey)
    && tx.sender == c.hash(tx.publicKey)
    && tx.txHash == c.hash(UnsignedPayload(tx))
    && tx.amount > 0
  }

  /** Every transfer in a chain of the running node was signed by the key its sender address commits to. */
  lemma HistoryAuthentic(c: Crypto, p: ConsensusParams, g: Genesis, ch: ChainValue, i: nat)
    requires Canonical(StandardRules(c), p, g, ch) && i < |History(ch)|
    ensures Authentic(c, History(ch)[i])
  {
    StateIsReplay(StandardRules(c), p, g, ch);
    AppliedChecked(StandardRules(c), AccountsOf(g), History(ch), i);
    CheckedIsAuthentic(c, History(ch)[i]);
  }

  lemma CheckedIsAuthentic(c: Crypto, tx: Transaction)
    requires StandardRules(c).checkTx(tx).Pass?
    ensures Authentic(c, tx)
  {
  }

  // ---------------------------------------------------------------- serving blocks

  /** `Blockchain::blocks_from_height_limited` */
  function FromHeight(blocks: seq<Block>, start: u64, limit: nat): (r: seq<Block>)
  {
    if limit == 0 || blocks == [] then []
    else if blocks[0].height >= start then [blocks[0]] + FromHeight(blocks[1..], start, limit - 1)
    else FromHeight(blocks[1..], start, limit)
  }

  ghost predicate HeightsFrom(blocks: seq<Block>, base: nat)
  {
    forall i :: 0 <= i < |blocks| ==> blocks[i].height == base + i
  }

  lemma HeightsTail(blocks: seq<Block>, base: nat)
    requires HeightsFrom(blocks, base) && blocks != []
    ensures HeightsFrom(blocks[1..], base + 1) && blocks[0].height == base
  {
  }

  lemma {:induction false} FromHeightAll(blocks: seq<Block>, base: nat, start: u64, limit: nat)
    requires HeightsFrom(blocks, base) && start <= base
    ensures FromHeight(blocks, start, limit) == blocks[..Min(limit, |blocks|)]
    decreases |blocks|
  {
    if limit != 0 && blocks != [] {
      HeightsTail(blocks, base);
      FromHeightAll(blocks[1..], base + 1, start, limit - 1);
      HeadAndSlice(blocks, Min(limit, |blocks|));
    }
  }

  lemma {:induction false} FromHeightOfRun(blocks: seq<Block>, base: nat, start: u64, limit: nat)
    requires HeightsFrom(blocks, base) && base <= start
    ensures var from := Min(start - base, |blocks|);
            FromHeight(blocks, start, limit) == blocks[from..Min(from + limit, |blocks|)]
    decreases |blocks|
  {
    if start == base {
      FromHeightAll(blocks, base, start, limit);
    } else if limit != 0 && blocks != [] {
      HeightsTail(blocks, base);
      FromHeightOfRun(blocks[1..], base + 1, start, limit);
      var from := Min(start - base, |blocks|);
      TailSlice(blocks, from, Min(from + limit, |blocks|));
    }
  }

  lemma HeadAndSlice(blocks: seq<Block>, n: nat)
    requires 1 <= n <= |blocks|
    ensures [blocks[0]] + blocks[1..][..n - 1] == blocks[..n]
  {
  }

  lemma TailSlice(blocks: seq<Block>, a: nat, b: nat)
    requires 1 <= a <= b <= |blocks|
    ensures blocks[1..][a - 1..b - 1] == blocks[a..b]
  {
  }

  /** On a reachable chain the reply is exactly the slice from the requested height. */
  lemma FromHeightIsSlice(blocks: seq<Block>, start: u64, limit: nat)
    requires Linked(blocks)
    ensures var from := Min(start, |blocks|);
            FromHeight(blocks, start, limit) == blocks[from..Min(from + limit, |blocks|)]
  {
    FromHeightOfRun(blocks, 0, start, limit);
  }

  // ---------------------------------------------------------------- timestamp parameters

  /** A chain built under any timestamp parameters is accepted under the defaults used on reload. */
  lemma {:induction false} DefaultsAccept(rules: Rules, p: ConsensusParams, ch: ChainValue, bs: seq<Block>)
    requires AppendAll(rules, p, ch, bs).Ok?
    ensures AppendAll(rules, DEFAULT_PARAMS, ch, bs) == AppendAll(rules, p, ch, bs)
    decreases |bs|
  {
    if bs != [] {
      DefaultsAccept(rules, p, Append(rules, p, ch, bs[0]).value, bs[1..]);
    }
  }
}
