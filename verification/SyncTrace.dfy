/** A sync described round by round, without its code: what each reply did to the node and why the loop went on. */
module SyncTrace {
  import opened Prelude
  import opened Protocol
  import opened Chain
  import opened Store
  import opened BlockFile
  import opened Node
  import opened SyncLoop
  import opened Records
  import Wire
  import opened Sync

  // ---------------------------------------------------------------- batches on a tip

  /** The whole batch stands on the tip of the chain. */
  ghost predicate OnTip(env: Env, h: Held, bs: seq<Block>)
  {
    && h.chain.blocks != []
    && var tip := h.chain.blocks[|h.chain.blocks| - 1];
       Contiguous(env.rules, HeightAfter(tip.height, 1), tip.blockHash, bs)
  }

  /** `b` is the first block of a batch at fault, and `f` says what is wrong with it. */
  ghost predicate Blames(rules: Rules, b: Block, height: u64, prev: Str, f: SyncFault)
  {
    match f
    case InvalidBatchBlock => ValidateBlock(rules, b).Fail?
    case BatchNotLinear => ValidateBlock(rules, b).Pass? && b.height != height
    case BatchBrokenLink => ValidateBlock(rules, b).Pass? && b.height == height && b.previousHash != prev
    case _ => false
  }

  ghost predicate FaultAt(rules: Rules, height: u64, prev: Str, bs: seq<Block>, i: nat, f: SyncFault)
  {
    && i < |bs|
    && Contiguous(rules, height, prev, bs[..i])
    && Blames(rules, bs[i], HeightAfter(height, i), PrevHash(bs, prev, i), f)
  }

  /** The batch check names the first block at fault and what is wrong with it. */
  lemma {:induction false} BatchFaultExact(rules: Rules, height: u64, prev: Str, bs: seq<Block>, f: SyncFault)
      returns (i: nat)
    requires LinearFrom(rules, height, prev, bs) == Some(f)
    ensures FaultAt(rules, height, prev, bs, i, f)
    decreases |bs|
  {
    if Stands(rules, bs[0], height, prev) {
      var above, rest := SaturatingAdd(height, 1), bs[1..];
      i := BatchFaultExact(rules, above, bs[0].blockHash, rest, f);
      FaultFurtherOn(rules, height, prev, bs, i, f);
      i := i + 1;
    } else {
      i := 0;
      assert bs[..0] == [];
    }
  }

  lemma FaultFurtherOn(rules: Rules, height: u64, prev: Str, bs: seq<Block>, i: nat, f: SyncFault)
    requires bs != [] && Stands(rules, bs[0], height, prev)
    requires FaultAt(rules, SaturatingAdd(height, 1), bs[0].blockHash, bs[1..], i, f)
    ensures FaultAt(rules, height, prev, bs, i + 1, f)
  {
    var front := bs[..i + 1];
    assert front[0] == bs[0] && front[1..] == bs[1..][..i];
    ContiguousSplit(rules, height, prev, front);
    assert PrevHash(bs, prev, i + 1) == PrevHash(bs[1..], bs[0].blockHash, i);
  }

  /** Why a batch is refused: the node has no tip, or some block of the batch is the first at fault. */
  ghost predicate BatchFault(env: Env, h: Held, bs: seq<Block>, f: SyncFault)
  {
    if h.chain.blocks == [] then f == NoTip
    else
      var tip := h.chain.blocks[|h.chain.blocks| - 1];
      exists i: nat :: FaultAt(env.rules, HeightAfter(tip.height, 1), tip.blockHash, bs, i, f)
  }

  lemma CheckMeaning(env: Env, h: Held, bs: seq<Block>)
    requires bs != []
    ensures match Check(env, h, bs)
            case None => OnTip(env, h, bs)
            case Some(f) => !OnTip(env, h, bs) && BatchFault(env, h, bs, f)
  {
    if h.chain.blocks != [] {
      var tip := h.chain.blocks[|h.chain.blocks| - 1];
      var height := SaturatingAdd(tip.height, 1);
      BatchCheckExact(env.rules, height, tip.blockHash, bs);
      var fault := LinearFrom(env.rules, height, tip.blockHash, bs);
      if fault.Some? { var i := BatchFaultExact(env.rules, height, tip.blockHash, bs, fault.value); }
    }
  }

  /** A reply counts exactly if it is the one frame, within 64 MiB, that carries its at most 64 blocks. */
  lemma PullExact(env: Env, round: nat, h: Held, bs: seq<Block>, bytes: u64)
    requires Sound(env.framing) && h.chain.blocks != []
    ensures var tip := h.chain.blocks[|h.chain.blocks| - 1];
            Pull(env, round, h) == Some((bs, bytes)) <==>
              Carries(env.framing.format, env.peer(round, HeightAfter(tip.height, 1)), bs, bytes)
  {
    var frame := env.peer(round, NextHeight(h.chain));
    PullDecodes(env, round, h, frame, bs, bytes);
    if frame.Some? { ReplyExact(env.framing.format, frame.value, bs); }
  }

  /** The answer is the frame of these blocks, of so many bytes. */
  ghost predicate Carries(k: Format<Block>, answer: Option<Bytes>, bs: seq<Block>, bytes: u64)
  {
    answer.Some? && |bs| <= 64 && |answer.value| == bytes && Wire.EncodeBatch(k, bs) == answer
  }

  lemma PullDecodes(env: Env, round: nat, h: Held, frame: Option<Bytes>, bs: seq<Block>, bytes: u64)
    requires frame == env.peer(round, NextHeight(h.chain))
    ensures Pull(env, round, h) == Some((bs, bytes)) <==>
      && frame.Some? && |frame.value| == bytes && |frame.value| <= Wire.MAX_WIRE
      && Wire.DecodeBatch(env.framing.format, frame.value) == Some(bs)
  {
  }

  lemma ReplyExact(k: Format<Block>, frame: Bytes, bs: seq<Block>)
    requires TwoSided(k)
    ensures |frame| <= Wire.MAX_WIRE && Wire.DecodeBatch(k, frame) == Some(bs) <==>
      |bs| <= 64 && Wire.EncodeBatch(k, bs) == Some(frame)
  {
    if Wire.DecodeBatch(k, frame).Some? { Wire.BatchCanonical(k, frame); }
    if |bs| <= 64 && Wire.EncodeBatch(k, bs) == Some(frame) {
      Wire.BatchRoundTrip(k, bs);
      assert Wire.FirstBatch(bs) == bs;
    }
  }

  // ---------------------------------------------------------------- taking blocks

  /** The clock reads `now`: the block is not further ahead than the drift allows. */
  predicate OnTime(env: Env, b: Block, now: u64)
  {
    b.timestamp <= now + env.params.maxDrift
  }

  /** The node cannot take the block: its disk is out of use, the rules refuse it, or it has no frame. */
  ghost predicate Refuses(env: Env, h: Held, b: Block, now: u64)
  {
    h.store.poisoned || !OnTime(env, b, now) || Append(env.rules, env.params, h.chain, b).Err?
    || Payload(env.framing, b).None?
  }

  /** From `h`, which has taken `total` blocks, the node takes `n` of the blocks and refuses the next one, if any. */
  ghost predicate Takes(env: Env, h: Held, total: nat, bs: seq<Block>, n: nat, after: Held)
  {
    && n <= |bs|
    && AppendAll(env.rules, env.params, h.chain, bs[..n]) == Ok(after.chain)
    && (forall i :: 0 <= i < n ==> OnTime(env, bs[i], env.clock(total + i)))
    && (n < |bs| ==> Refuses(env, after, bs[n], env.clock(total + n)))
  }

  ghost predicate Agrees(env: Env, h: Held)
  {
    Consistent(env.framing, env.rules, env.genesis, Running(h.chain, h.store))
  }

  /** The disk part of an ingestion: it fails only on a fault or a block that has no frame. */
  lemma DiskExact(k: Framing<Block>, st: StoreValue, xs: seq<Block>, b: Block, fault: (Fault, Fault))
    requires Stores(k, st, xs) && !st.poisoned && k.format.encode(b).Some?
    ensures var (ok, after) := AppendPayload(k.sum, st, k.format.encode(b).value, fault.0, fault.1);
            && (ok ==> !after.poisoned)
            && (!ok ==> after.poisoned || Payload(k, b).None?)
            && (Payload(k, b).Some? && fault == (None, None) ==> ok)
  {
    AppendMeaning(k, st, xs, b, fault.0, fault.1);
  }

  lemma IngestWrites(env: Env, n: nat, h: Held, b: Block)
    requires !h.store.poisoned && AppendNetwork(env.rules, env.params, h.chain, b, env.clock(n)).Ok?
    requires env.framing.format.encode(b).Some?
    ensures var (ok, store) := AppendPayload(env.framing.sum, h.store, env.framing.format.encode(b).value,
                                             env.disk(n).0, env.disk(n).1);
            Ingest(env, n, h, b).0 == ok && Ingest(env, n, h, b).1.store == store
  {
  }

  lemma IngestSkips(env: Env, n: nat, h: Held, b: Block)
    requires h.store.poisoned || AppendNetwork(env.rules, env.params, h.chain, b, env.clock(n)).Err?
          || env.framing.format.encode(b).None?
    ensures Ingest(env, n, h, b) == (false, h)
  {
  }

  lemma NetworkExact(env: Env, h: Held, b: Block, now: u64)
    ensures AppendNetwork(env.rules, env.params, h.chain, b, now).Ok? <==>
      OnTime(env, b, now) && Append(env.rules, env.params, h.chain, b).Ok?
  {
  }

  /** A block is taken only if the rules accept it now; it is refused only for a reason, if the disk works. */
  lemma IngestExact(env: Env, n: nat, h: Held, b: Block)
    requires Sound(env.framing) && Agrees(env, h)
    ensures var (ok, after) := Ingest(env, n, h, b);
            && Agrees(env, after)
            && (ok ==> !after.store.poisoned)
            && StepHolds(env, n, h, b, ok, after)
            && (!Refuses(env, h, b, env.clock(n)) && env.disk(n) == (None, None) ==> ok)
  {
    var now := env.clock(n);
    IngestMeaning(env, n, h, b);
    NetworkExact(env, h, b, now);
    if h.store.poisoned || AppendNetwork(env.rules, env.params, h.chain, b, now).Err?
       || env.framing.format.encode(b).None?
    {
      IngestSkips(env, n, h, b);
    } else {
      IngestWrites(env, n, h, b);
      DiskExact(env.framing, h.store, h.chain.blocks[1..], b, env.disk(n));
    }
  }

  /** What ingesting `b` as the `n`-th block of a sync did. */
  ghost predicate StepHolds(env: Env, n: nat, x: Held, b: Block, ok: bool, after: Held)
  {
    if ok then OnTime(env, b, env.clock(n)) && Append(env.rules, env.params, x.chain, b) == Ok(after.chain)
    else after.chain == x.chain && Refuses(env, after, b, env.clock(n))
  }

  lemma TakesNothing(env: Env, h: Held, total: nat, bs: seq<Block>, after: Held)
    requires if bs == [] then after == h else StepHolds(env, total, h, bs[0], false, after)
    ensures Takes(env, h, total, bs, 0, after)
  {
    assert bs[..0] == [];
  }

  lemma TakesOneMore(env: Env, h: Held, next: Held, total: nat, bs: seq<Block>, n: nat, after: Held)
    requires bs != [] && StepHolds(env, total, h, bs[0], true, next)
    requires Takes(env, next, total + 1, bs[1..], n, after)
    ensures Takes(env, h, total, bs, n + 1, after)
  {
    var front := bs[..n + 1];
    assert front[0] == bs[0] && front[1..] == bs[1..][..n];
    forall i | 0 <= i < n + 1 ensures OnTime(env, bs[i], env.clock(total + i)) {
      if i > 0 { assert bs[i] == bs[1..][i - 1] && total + 1 + (i - 1) == total + i; }
    }
  }

  ghost predicate Matches(env: Env, step: (nat, Held, Block, bool, Held) -> bool)
  {
    forall m: nat, x: Held, b: Block, ok: bool, y: Held :: step(m, x, b, ok, y) <==> StepHolds(env, m, x, b, ok, y)
  }

  lemma RanFirst(env: Env, step: (nat, Held, Block, bool, Held) -> bool, h: Held, total: nat, bs: seq<Block>, n: nat,
          after: Held) returns (next: Held)
    requires Matches(env, step) && Ran(step, h, total, bs, n, after) && bs != [] && n > 0
    ensures StepHolds(env, total, h, bs[0], true, next) && Ran(step, next, total + 1, bs[1..], n - 1, after)
  {
    next :| step(total, h, bs[0], true, next) && Ran(step, next, total + 1, bs[1..], n - 1, after);
  }

  lemma RanNone(env: Env, step: (nat, Held, Block, bool, Held) -> bool, h: Held, total: nat, bs: seq<Block>, n: nat,
          after: Held)
    requires Matches(env, step) && Ran(step, h, total, bs, n, after) && (bs == [] || n == 0)
    ensures n == 0 && if bs == [] then after == h else StepHolds(env, total, h, bs[0], false, after)
  {
  }

  lemma {:induction false} RanTakes(env: Env, step: (nat, Held, Block, bool, Held) -> bool, h: Held, total: nat,
          bs: seq<Block>, n: nat, after: Held)
    requires Matches(env, step) && Ran(step, h, total, bs, n, after)
    ensures Takes(env, h, total, bs, n, after)
    decreases |bs|
  {
    if bs == [] || n == 0 {
      RanNone(env, step, h, total, bs, n, after);
      TakesNothing(env, h, total, bs, after);
    } else {
      var next := RanFirst(env, step, h, total, bs, n, after);
      RanTakes(env, step, next, total + 1, bs[1..], n - 1, after);
      TakesOneMore(env, h, next, total, bs, n - 1, after);
    }
  }

  lemma PartsStepwise(env: Env, l: Parts<Held, Block>, agrees: Held -> bool,
          step: (nat, Held, Block, bool, Held) -> bool)
    requires Sound(env.framing) && forall x: Held :: agrees(x) <==> Agrees(env, x)
    requires Matches(env, step)
    requires forall n: nat, x: Held, b: Block :: l.ingest(n, x, b) == Ingest(env, n, x, b)
    ensures Stepwise(l, agrees, step)
  {
    forall n: nat, x: Held, b: Block | agrees(x)
      ensures agrees(l.ingest(n, x, b).1) && step(n, x, b, l.ingest(n, x, b).0, l.ingest(n, x, b).1)
    {
      IngestExact(env, n, x, b);
    }
  }

  /** The result of ingesting a list says how many of its blocks were taken. */
  ghost predicate Delivered(env: Env, agrees: Held -> bool, x: Held, total: nat, bs: seq<Block>, r: (bool, Held, nat))
  {
    && total <= r.2 && agrees(r.1)
    && (r.0 <==> r.2 == total + |bs|)
    && Takes(env, x, total, bs, r.2 - total, r.1)
  }

  ghost predicate Delivers(env: Env, l: Parts<Held, Block>, agrees: Held -> bool)
  {
    forall x: Held, total: nat, bs: seq<Block> {:trigger IngestAll(l, x, total, bs)} :: agrees(x) ==>
      Delivered(env, agrees, x, total, bs, IngestAll(l, x, total, bs))
  }

  lemma RanDelivers(env: Env, agrees: Held -> bool, step: (nat, Held, Block, bool, Held) -> bool, x: Held, total: nat,
          bs: seq<Block>, r: (bool, Held, nat))
    requires Matches(env, step)
    requires total <= r.2 && agrees(r.1) && (r.0 <==> r.2 == total + |bs|) && Ran(step, x, total, bs, r.2 - total, r.1)
    ensures Delivered(env, agrees, x, total, bs, r)
  {
    RanTakes(env, step, x, total, bs, r.2 - total, r.1);
  }

  lemma StepsDeliver(env: Env, l: Parts<Held, Block>, agrees: Held -> bool,
          step: (nat, Held, Block, bool, Held) -> bool)
    requires Stepwise(l, agrees, step)
    requires Matches(env, step)
    ensures Delivers(env, l, agrees)
  {
    forall x: Held, total: nat, bs: seq<Block> | agrees(x)
      ensures Delivered(env, agrees, x, total, bs, IngestAll(l, x, total, bs))
    {
      IngestAllRuns(l, agrees, step, x, total, bs);
      RanDelivers(env, agrees, step, x, total, bs, IngestAll(l, x, total, bs));
    }
  }

  lemma PartsDeliver(env: Env, l: Parts<Held, Block>, agrees: Held -> bool)
    requires Sound(env.framing) && forall x: Held :: agrees(x) <==> Agrees(env, x)
    requires forall n: nat, x: Held, b: Block :: l.ingest(n, x, b) == Ingest(env, n, x, b)
    ensures Delivers(env, l, agrees)
  {
    var step := (m: nat, x: Held, b: Block, ok: bool, y: Held) => StepHolds(env, m, x, b, ok, y);
    PartsStepwise(env, l, agrees, step);
    StepsDeliver(env, l, agrees, step);
  }

  // ---------------------------------------------------------------- rounds

  /** The part of a batch that the block budget leaves room for. */
  function Offered(env: Env, total: nat, bs: seq<Block>): (r: seq<Block>)
    requires total < env.budget.maxBlocks
  {
    bs[..Min(|bs|, env.budget.maxBlocks - total)]
  }

  /** How a round ends that counts `count` blocks and `wire` bytes after an offer that would have led to `goal`. */
  function EndingAfter(b: Budget, goal: nat, count: nat, wire: u64): (e: Option<Ending>)
  {
    if count < goal then Some(Failed(BlockRefused))
    else if count >= b.maxBlocks || wire > b.maxWire then Some(BudgetSpent)
    else None
  }

  /** What a non-empty reply that stands on the tip does: as much of it as the budget leaves room for is taken. */
  ghost predicate Advances(env: Env, s: Progress<Held>, bs: seq<Block>, left: Option<Ending>, t: Progress<Held>)
  {
    && s.total <= t.total && s.total < env.budget.maxBlocks
    && Takes(env, s.held, s.total, Offered(env, s.total, bs), t.total - s.total, t.held)
    && left == EndingAfter(env.budget, s.total + |Offered(env, s.total, bs)|, t.total, t.wire)
  }

  /** What a reply does to the node at `s`: where the round ends, and with which ending if it is the last. */
  ghost predicate Handles(env: Env, s: Progress<Held>, bs: seq<Block>, left: Option<Ending>, t: Progress<Held>)
  {
    if bs == [] then left == Some(CaughtUp) && t.held == s.held && t.total == s.total
    else if OnTip(env, s.held, bs) then Advances(env, s, bs, left, t)
    else
      && t.held == s.held && t.total == s.total
      && left.Some? && left.value.Failed? && BatchFault(env, s.held, bs, left.value.fault)
  }

  /** One round from `s` to `t` with the peer's reply, if it asks; `left` is the ending if it is the last one. */
  ghost predicate Round(env: Env, reply: Option<(seq<Block>, u64)>, s: Progress<Held>, left: Option<Ending>,
          t: Progress<Held>)
  {
    if s.total >= env.budget.maxBlocks || s.rounds >= env.budget.maxRounds || s.wire >= env.budget.maxWire
    then left == Some(BudgetSpent) && t == s
    else
      match reply
      case None => left == Some(Failed(PullFailed)) && t == s
      case Some((bs, bytes)) =>
        && t.rounds == s.rounds + 1 && t.wire == Min(s.wire + bytes, U64_MAX)
        && Handles(env, s, bs, left, t)
  }

  /** A round appends blocks only from a reply that stands on the tip as a whole, and in its order. */
  lemma OnlyWholeBatches(env: Env, reply: Option<(seq<Block>, u64)>, s: Progress<Held>, left: Option<Ending>,
          t: Progress<Held>)
    requires Round(env, reply, s, left, t)
    ensures t.held.chain != s.held.chain ==>
      && reply.Some? && OnTip(env, s.held, reply.value.0)
      && 0 <= t.total - s.total <= |reply.value.0|
      && t.held.chain.blocks == s.held.chain.blocks + reply.value.0[..t.total - s.total]
  {
    if t.held.chain != s.held.chain {
      var bs, n := reply.value.0, t.total - s.total;
      assert Offered(env, s.total, bs)[..n] == bs[..n];
      AppendAllBlocks(env.rules, env.params, s.held.chain, bs[..n]);
    }
  }

  function EndingOf(t: SyncLoop.Turn<Held>): (e: Option<Ending>)
  {
    if t.Leave? then Some(t.ending) else None
  }

  function Reached(t: SyncLoop.Turn<Held>): (s: Progress<Held>)
  {
    if t.Leave? then t.at else t.next
  }

  lemma TurnAfter(l: Parts<Held, Block>, s: Progress<Held>, bs: seq<Block>, offered: seq<Block>, ok: bool, after: Held,
          count: nat)
    requires s.total < l.budget.maxBlocks && offered == bs[..Min(|bs|, l.budget.maxBlocks - s.total)]
    requires IngestAll(l, s.held, s.total, offered) == (ok, after, count)
    ensures var t := TakeWithinRoom(l, s, bs);
            && Reached(t) == s.(held := after, total := count)
            && ((ok <==> count >= s.total + |offered|) ==>
                  EndingOf(t) == EndingAfter(l.budget, s.total + |offered|, count, s.wire))
  {
  }

  lemma AdvancesTo(env: Env, s: Progress<Held>, bs: seq<Block>, left: Option<Ending>, after: Held, count: nat)
    requires s.total <= count && s.total < env.budget.maxBlocks
    requires Takes(env, s.held, s.total, Offered(env, s.total, bs), count - s.total, after)
    requires left == EndingAfter(env.budget, s.total + |Offered(env, s.total, bs)|, count, s.wire)
    ensures Advances(env, s, bs, left, s.(held := after, total := count))
  {
  }

  lemma TakeAdvances(env: Env, l: Parts<Held, Block>, agrees: Held -> bool, s: Progress<Held>, bs: seq<Block>,
          t: SyncLoop.Turn<Held>)
    requires Delivers(env, l, agrees) && agrees(s.held) && l.budget == env.budget && s.total < env.budget.maxBlocks
    requires t == TakeWithinRoom(l, s, bs)
    ensures agrees(Reached(t).held) && Reached(t).rounds == s.rounds && Reached(t).wire == s.wire
    ensures Advances(env, s, bs, EndingOf(t), Reached(t))
  {
    var offered := Offered(env, s.total, bs);
    var (ok, after, count) := IngestAll(l, s.held, s.total, offered);
    TurnAfter(l, s, bs, offered, ok, after, count);
    AdvancesTo(env, s, bs, EndingOf(t), after, count);
  }

  lemma ReplyHandled(env: Env, l: Parts<Held, Block>, agrees: Held -> bool, s: Progress<Held>, bs: seq<Block>)
    requires Delivers(env, l, agrees) && agrees(s.held) && l.budget == env.budget && s.total < env.budget.maxBlocks
    requires l.check(s.held, bs) == Check(env, s.held, bs)
    ensures var t := TakeReply(l, s, bs);
            && agrees(Reached(t).held)
            && Reached(t).rounds == s.rounds && Reached(t).wire == s.wire
            && Handles(env, s, bs, EndingOf(t), Reached(t))
  {
    if bs != [] {
      CheckMeaning(env, s.held, bs);
      TakeAdvances(env, l, agrees, s, bs, TakeWithinRoom(l, s, bs));
    }
  }

  lemma HandlesSame(env: Env, s: Progress<Held>, s': Progress<Held>, bs: seq<Block>, left: Option<Ending>,
          t: Progress<Held>)
    requires s.held == s'.held && s.total == s'.total && Handles(env, s', bs, left, t)
    ensures Handles(env, s, bs, left, t)
  {
  }

  /** Each turn of the loop is such a round. */
  lemma TurnIsRound(env: Env, l: Parts<Held, Block>, agrees: Held -> bool, s: Progress<Held>,
          reply: Option<(seq<Block>, u64)>)
    requires Delivers(env, l, agrees) && agrees(s.held) && l.budget == env.budget
    requires l.pull(s.rounds, s.held) == reply
    requires reply.Some? ==> l.check(s.held, reply.value.0) == Check(env, s.held, reply.value.0)
    ensures var t := RoundTurn(l, s);
            agrees(Reached(t).held) && Round(env, reply, s, EndingOf(t), Reached(t))
  {
    if !Spent(l.budget, s) {
      RoundAsks(l, s, reply);
      if reply.Some? {
        var (bs, bytes) := reply.value;
        var s' := s.(rounds := s.rounds + 1, wire := SaturatingAdd(s.wire, bytes));
        ReplyHandled(env, l, agrees, s', bs);
        var t := TakeReply(l, s', bs);
        HandlesSame(env, s, s', bs, EndingOf(t), Reached(t));
      }
    }
  }

  /** The sync from `s` goes through the states of `trace`, each a round after the one before, and then ends. */
  ghost predicate Proceeds(env: Env, trace: seq<Progress<Held>>, s: Progress<Held>, e: Ending, t: Progress<Held>)
    decreases |trace|
  {
    var reply := Pull(env, s.rounds, s.held);
    if trace == [] then Round(env, reply, s, Some(e), t)
    else Round(env, reply, s, None, trace[0]) && Proceeds(env, trace[1..], trace[0], e, t)
  }

  lemma {:induction false} LoopByRounds(env: Env, l: Parts<Held, Block>, agrees: Held -> bool, s: Progress<Held>)
      returns (trace: seq<Progress<Held>>)
    requires Delivers(env, l, agrees) && agrees(s.held) && l.budget == env.budget
    requires forall r: nat, x: Held :: l.pull(r, x) == Pull(env, r, x)
    requires forall x: Held, bs: seq<Block> :: l.check(x, bs) == Check(env, x, bs)
    ensures Proceeds(env, trace, s, Loop(l, s).0, Loop(l, s).1)
    decreases RoundsLeft(l.budget, s)
  {
    TurnIsRound(env, l, agrees, s, Pull(env, s.rounds, s.held));
    var t := RoundTurn(l, s);
    if t.Leave? {
      trace := [];
    } else {
      var rest := LoopByRounds(env, l, agrees, t.next);
      trace := [t.next] + rest;
      assert trace[1..] == rest;
    }
  }

  /**
   Against any peer, clock and disk, a sync is a list of rounds as described above: a reply is refused
   as a whole or taken in order, and each way out has its reason.
   */
  lemma SyncByRounds(env: Env, h: Held) returns (trace: seq<Progress<Held>>)
    requires Sound(env.framing) && Agrees(env, h)
    ensures var (e, t) := SyncFrom(env, h);
            if h.store.poisoned then e == Failed(RefusingPoisonedStore) && t == Start(h)
            else if env.budget.maxRounds == 0 || env.budget.maxBlocks == 0 || env.budget.maxWire == 0
            then e == Failed(BadBudget) && t == Start(h)
            else Proceeds(env, trace, Start(h), e, t)
  {
    trace := [];
    if !h.store.poisoned && ValidBudget(env.budget) {
      var agrees := (x: Held) => Agrees(env, x);
      PartsDeliver(env, PartsOf(env), agrees);
      trace := LoopByRounds(env, PartsOf(env), agrees, Start(h));
    }
  }
}
