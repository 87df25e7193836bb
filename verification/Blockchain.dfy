/** Sealing blocks from the queue, and the mutable chain of the node. */
module Blockchain {
  import opened Prelude
  import opened Protocol
  import opened Ledger
  import opened Chain
  import opened MempoolRules
  import Mempool

  // ---------------------------------------------------------------- sealing

  /** The block built on the tip of `ch` from the selected transactions. */
  function Sealed(rules: Rules, ch: ChainValue, txs: seq<Transaction>, now: u64): (b: Block)
    requires ch.blocks != [] && TipHeight(ch.blocks) < U64_MAX
    ensures HeaderOf(b) == Header(TipHeight(ch.blocks) + 1, ch.blocks[|ch.blocks| - 1].blockHash, now, Hashes(txs))
    ensures b.blockHash == rules.sealHash(HeaderOf(b))
  {
    var tip := ch.blocks[|ch.blocks| - 1];
    var draft := Block(tip.height + 1, tip.blockHash, now, txs, []);
    draft.(blockHash := rules.sealHash(HeaderOf(draft)))
  }

  lemma GenesisHashNotBlank()
    ensures !Blank(GENESIS_HASH)
  {
    assert WhiteSpace(GENESIS_HASH) == 0;
  }

  lemma TipHashNotBlank(rules: Rules, p: ConsensusParams, g: Genesis, ch: ChainValue)
    requires Canonical(rules, p, g, ch)
    ensures !Blank(ch.blocks[|ch.blocks| - 1].blockHash)
  {
    var n := |ch.blocks| - 1;
    CanonicalLinked(rules, p, g, ch);
    if n == 0 {
      GenesisHashNotBlank();
    } else {
      CanonicalValidated(rules, p, g, ch, n);
      assert ch.blocks[n].height == n;
    }
  }

  lemma SealedValidates(rules: Rules, b: Block)
    requires b.height > 0 && !Blank(b.previousHash)
    requires Orderly(rules, b.transactions)
    requires b.blockHash == rules.sealHash(HeaderOf(b))
    ensures ValidateBlock(rules, b).Pass?
  {
  }

  /**
   Whatever non-empty list selection returns, the block built from it is accepted exactly when the
   parent timestamp rule holds, and otherwise rejected by that rule and no other.
   */
  lemma SealAccepted(rules: Rules, p0: ConsensusParams, p: ConsensusParams, g: Genesis, ch: ChainValue,
          q: seq<Transaction>, max: nat, now: u64)
    requires Canonical(rules, p0, g, ch) && TipHeight(ch.blocks) < U64_MAX
    requires Orderly(rules, q)
    requires Select(rules, ch.accounts, q, max).Ok?
    ensures var txs := Select(rules, ch.accounts, q, max).value;
            var b := Sealed(rules, ch, txs, now);
            var timely := ValidateTimestamp(ch.blocks[|ch.blocks| - 1], b, p);
            && (timely.Pass? ==> Append(rules, p, ch, b).Ok?)
            && (timely.Fail? ==> Append(rules, p, ch, b) == Err(timely.error))
  {
    var txs := Select(rules, ch.accounts, q, max).value;
    var at := SelectSound(rules, ch.accounts, q, max);
    PicksOrderly(rules, txs, q, at);
    TipHashNotBlank(rules, p0, g, ch);
    SealedValidates(rules, Sealed(rules, ch, txs, now));
  }

  /** `append_block_from_mempool_pending_removal`: hashes to remove once durable, and the new chain. */
  function Seal(rules: Rules, p: ConsensusParams, ch: ChainValue, q: seq<Transaction>, max: nat, now: u64)
    : (r: Result<(Option<seq<Str>>, ChainValue), ProtocolError>)
    requires ch.blocks != [] && TipHeight(ch.blocks) < U64_MAX
  {
    match Select(rules, ch.accounts, q, max)
    case Err(e) => Err(e)
    case Ok(txs) =>
      if txs == [] then Ok((None, ch))
      else
        match Append(rules, p, ch, Sealed(rules, ch, txs, now))
        case Err(e) => Err(e)
        case Ok(next) => Ok((Some(Hashes(txs)), next))
  }

  /**
   A seal appends one block that carries just the selected transactions at the given time, and names
   their hashes for removal; it seals nothing exactly when nothing is selected.
   */
  lemma SealMeaning(rules: Rules, p: ConsensusParams, ch: ChainValue, q: seq<Transaction>, max: nat, now: u64)
    requires ch.blocks != [] && TipHeight(ch.blocks) < U64_MAX && Seal(rules, p, ch, q, max, now).Ok?
    ensures var (hashes, next) := Seal(rules, p, ch, q, max, now).value;
            && (hashes.None? <==> Select(rules, ch.accounts, q, max) == Ok([]))
            && (hashes.None? ==> next == ch)
            && (hashes.Some? ==>
                  && |next.blocks| == |ch.blocks| + 1 && next.blocks[..|ch.blocks|] == ch.blocks
                  && var b := next.blocks[|ch.blocks|];
                     && Ok(b.transactions) == Select(rules, ch.accounts, q, max)
                     && hashes.value == Hashes(b.transactions) && b.timestamp == now
                     && ApplyAll(rules, ch.accounts, b.transactions) == Ok(next.accounts))
  {
  }

  /** Sealing and then rolling the block back is as if nothing happened. */
  lemma SealThenRollback(rules: Rules, p: ConsensusParams, g: Genesis, ch: ChainValue, q: seq<Transaction>, max: nat,
          now: u64)
    requires Canonical(rules, p, g, ch) && TipHeight(ch.blocks) < U64_MAX
    requires Seal(rules, p, ch, q, max, now).Ok? && Seal(rules, p, ch, q, max, now).value.0.Some?
    ensures RollbackLast(rules, g, Seal(rules, p, ch, q, max, now).value.1) == (Pass, ch)
  {
    var txs := Select(rules, ch.accounts, q, max).value;
    RollbackLastUndoes(rules, p, g, ch, Sealed(rules, ch, txs, now));
  }

  // ---------------------------------------------------------------- the mutable chain

  /** `recompute_state_from_blocks`: replay every block above genesis on a fresh ledger. */
  method RecomputeState(rules: Rules, g: Genesis, blocks: seq<Block>) returns (r: LedgerResult)
    ensures r == Recompute(rules, g, blocks)
  {
    var start := GenesisLedger(g);
    if start.Err? {
      return start;
    }
    var state := new State(start.value);
    var above := if blocks == [] then [] else blocks[1..];
    for i := 0 to |above|
      invariant fresh(state)
      invariant ApplyAll(rules, start.value, TxsOf(above[..i])) == Ok(state.accounts)
    {
      ghost var done, rest := above[..i + 1], above[i + 1..];
      assert done[..i] == above[..i];
      ApplyAllAppend(rules, start.value, TxsOf(above[..i]), above[i].transactions);
      var applied := state.ApplyTransactions(rules, above[i].transactions);
      if applied.Fail? {
        TxsOfConcat(done, rest);
        assert done + rest == above;
        ApplyAllAppend(rules, start.value, TxsOf(done), TxsOf(rest));
        return Err(applied.error);
      }
    }
    assert above[..|above|] == above;
    r := Ok(state.accounts);
  }

  lemma {:induction false} TxsOfConcat(x: seq<Block>, y: seq<Block>)
    ensures TxsOf(x + y) == TxsOf(x) + TxsOf(y)
    decreases |y|
  {
    if y == [] {
      assert x + y == x;
    } else {
      var n := |y| - 1;
      TxsOfConcat(x, y[..n]);
      var z := x + y;
      assert z[..|z| - 1] == x + y[..n] && z[|z| - 1] == y[n];
      ConcatAssoc(TxsOf(x), TxsOf(y[..n]), y[n].transactions);
    }
  }

  class Blockchain {
    const rules: Rules
    var params: ConsensusParams
    var blocks: seq<Block>
    var accounts: Accounts

    ghost function Value(): (ch: ChainValue)
      reads this
    {
      ChainValue(blocks, accounts)
    }

    /** The chain at height 0; `g` must have passed its checks. */
    constructor (rules: Rules, params: ConsensusParams, g: Genesis)
      requires ValidateGenesis(g).Pass?
      ensures this.rules == rules && this.params == params
      ensures Value() == Initial(g) && Canonical(rules, params, g, Value())
    {
      this.rules := rules;
      this.params := params;
      blocks := [GENESIS_BLOCK];
      accounts := AccountsOf(g);
    }

    method AppendBlock(b: Block) returns (r: Outcome)
      modifies this`blocks, this`accounts
      ensures match Append(rules, params, old(Value()), b)
              case Ok(next) => r == Pass && Value() == next
              case Err(e) => r == Fail(e) && Value() == old(Value())
    {
      r := ValidateBlock(rules, b);
      if r.Fail? {
        return;
      }
      if blocks == [] {
        return Fail(StateError(TipMissing));
      }
      var tip := blocks[|blocks| - 1];
      if b.height != tip.height + 1 {
        return Fail(InvalidBlock(BadHeight));
      }
      if b.previousHash != tip.blockHash {
        return Fail(InvalidBlock(BadPreviousHash));
      }
      r := ValidateTimestamp(tip, b, params);
      if r.Fail? {
        return;
      }
      var next := new State(accounts);
      r := next.ApplyTransactions(rules, b.transactions);
      if r.Fail? {
        return;
      }
      accounts := next.accounts;
      blocks := blocks + [b];
    }

    method TryAppendNetworkBlock(b: Block, now: u64) returns (r: Outcome)
      modifies this`blocks, this`accounts
      ensures match AppendNetwork(rules, params, old(Value()), b, now)
              case Ok(next) => r == Pass && Value() == next
              case Err(e) => r == Fail(e) && Value() == old(Value())
    {
      r := ValidateDrift(b, now, params);
      if r.Pass? {
        r := AppendBlock(b);
      }
    }

    method RollbackToHeight(target: u64, g: Genesis) returns (r: Outcome)
      modifies this`blocks, this`accounts
      ensures (r, Value()) == RollbackTo(rules, g, old(Value()), target)
    {
      if target > TipHeight(blocks) {
        return Fail(StateError(RollbackAboveTip));
      }
      while TipHeight(blocks) > target
        invariant PopAbove(blocks, target) == PopAbove(old(blocks), target)
        invariant accounts == old(accounts)
        decreases |blocks|
      {
        blocks := blocks[..|blocks| - 1];
      }
      var replayed := RecomputeState(rules, g, blocks);
      if replayed.Err? {
        return Fail(replayed.error);
      }
      accounts := replayed.value;
      r := Pass;
    }

    method RollbackLastBlock(g: Genesis) returns (r: Outcome)
      modifies this`blocks, this`accounts
      ensures (r, Value()) == RollbackLast(rules, g, old(Value()))
    {
      if |blocks| <= 1 {
        return Fail(StateError(RollbackGenesis));
      }
      blocks := blocks[..|blocks| - 1];
      var replayed := RecomputeState(rules, g, blocks);
      if replayed.Err? {
        return Fail(replayed.error);
      }
      accounts := replayed.value;
      r := Pass;
    }

    method BlocksFromHeightLimited(start: u64, limit: nat) returns (out: seq<Block>)
      ensures out == FromHeight(blocks, start, limit)
    {
      out := [];
      if limit == 0 {
        return;
      }
      assert blocks[0..] == blocks;
      for i := 0 to |blocks|
        invariant |out| <= limit
        invariant FromHeight(blocks, start, limit) == out + FromHeight(blocks[i..], start, limit - |out|)
      {
        assert blocks[i..][0] == blocks[i] && blocks[i..][1..] == blocks[i + 1..];
        if |out| == limit {
          break;
        }
        if blocks[i].height >= start {
          out := out + [blocks[i]];
        }
      }
    }

    /** The block on top of the tip that carries `txs`. */
    method BuildBlock(txs: seq<Transaction>, now: u64) returns (block: Block)
      requires blocks != [] && TipHeight(blocks) < U64_MAX
      ensures block == Sealed(rules, Value(), txs, now)
    {
      var tip := blocks[|blocks| - 1];
      var draft := Block(tip.height + 1, tip.blockHash, now, txs, []);
      block := draft.(blockHash := rules.sealHash(HeaderOf(draft)));
    }

    method AppendFromMempoolPendingRemoval(pool: Mempool.Pool, max: nat, now: u64)
      returns (r: Result<Option<seq<Str>>, ProtocolError>)
      requires pool.Valid() && pool.rules == rules
      requires blocks != [] && TipHeight(blocks) < U64_MAX
      modifies this`blocks, this`accounts
      ensures match Seal(rules, params, old(Value()), pool.fifo, max, now)
              case Ok((hashes, next)) => r == Ok(hashes) && Value() == next
              case Err(e) => r == Err(e) && Value() == old(Value())
    {
      var selection := pool.OrderedCandidatesForSeal(accounts, max);
      if selection.Err? {
        return Err(selection.error);
      }
      var txs := selection.value;
      if txs == [] {
        return Ok(None);
      }
      var block := BuildBlock(txs, now);
      var hashes := Hashes(block.transactions);
      var appended := AppendBlock(block);
      if appended.Fail? {
        return Err(appended.error);
      }
      r := Ok(Some(hashes));
    }
  }

  /** `Blockchain::from_genesis_with_consensus` */
  method FromGenesis(rules: Rules, params: ConsensusParams, g: Genesis) returns (r: Result<Blockchain, ProtocolError>)
    ensures match GenesisLedger(g)
            case Err(e) => r == Err(e)
            case Ok(s) =>
              && r.Ok? && fresh(r.value) && r.value.rules == rules && r.value.params == params
              && r.value.Value() == ChainValue([GENESIS_BLOCK], s)
              && Canonical(rules, params, g, r.value.Value())
  {
    var valid := ValidateGenesis(g);
    if valid.Fail? {
      return Err(valid.error);
    }
    var chain := new Blockchain(rules, params, g);
    r := Ok(chain);
  }
}
