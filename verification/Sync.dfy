/** Catching up with a peer: budgeted rounds of 64-block batches from a peer that may answer anything. */
module Sync {
  import opened Prelude
  import opened Protocol
  import opened Chain
  import opened Records
  import opened Store
  import opened BlockFile
  import opened Node
  import opened Wire
  import opened SyncLoop
  import Mempool
  import MempoolRules

  // ---------------------------------------------------------------- batches

  /** The loop of `validate_linear_sync_batch`, from the height and parent hash it expects next. */
  function LinearFrom(rules: Rules, height: u64, prev: Str, bs: seq<Block>): (r: Option<SyncFault>)
    decreases |bs|
  {
    if bs == [] then None
    else if ValidateBlock(rules, bs[0]).Fail? then Some(InvalidBatchBlock)
    else if bs[0].height != height then Some(BatchNotLinear)
    else if bs[0].previousHash != prev then Some(BatchBrokenLink)
    else LinearFrom(rules, SaturatingAdd(height, 1), bs[0].blockHash, bs[1..])
  }

  function CheckBatch(rules: Rules, tip: Block, bs: seq<Block>): (r: Option<SyncFault>)
  {
    LinearFrom(rules, SaturatingAdd(tip.height, 1), tip.blockHash, bs)
  }

  function PrevHash(bs: seq<Block>, prev: Str, i: nat): (h: Str)
    requires i < |bs|
  {
    if i == 0 then prev else bs[i - 1].blockHash
  }

  ghost predicate Stands(rules: Rules, b: Block, height: u64, prev: Str)
  {
    ValidateBlock(rules, b).Pass? && b.height == height && b.previousHash == prev
  }

  /** The height the check expects `i` blocks on: it stays at the last 64-bit height. */
  function HeightAfter(height: u64, i: nat): (h: u64)
  {
    Min(height + i, U64_MAX)
  }

  /** The batch stands on `prev`, one block per height from `height` up, every block valid by itself. */
  ghost predicate Contiguous(rules: Rules, height: u64, prev: Str, bs: seq<Block>)
  {
    forall i {:trigger PrevHash(bs, prev, i)} :: 0 <= i < |bs| ==>
      Stands(rules, bs[i], HeightAfter(height, i), PrevHash(bs, prev, i))
  }

  lemma ContiguousSplit(rules: Rules, height: u64, prev: Str, bs: seq<Block>)
    requires bs != []
    ensures Contiguous(rules, height, prev, bs) <==>
      Stands(rules, bs[0], height, prev) && Contiguous(rules, SaturatingAdd(height, 1), bs[0].blockHash, bs[1..])
  {
    var rest, next, above := bs[1..], bs[0].blockHash, SaturatingAdd(height, 1);
    if Contiguous(rules, height, prev, bs) {
      assert Stands(rules, bs[0], HeightAfter(height, 0), PrevHash(bs, prev, 0));
      forall i | 0 <= i < |rest| ensures Stands(rules, rest[i], HeightAfter(above, i), PrevHash(rest, next, i)) {
        assert Stands(rules, bs[i + 1], HeightAfter(height, i + 1), PrevHash(bs, prev, i + 1));
      }
    }
    if Stands(rules, bs[0], height, prev) && Contiguous(rules, above, next, rest) {
      forall i | 0 <= i < |bs| ensures Stands(rules, bs[i], HeightAfter(height, i), PrevHash(bs, prev, i)) {
        if i > 0 { assert Stands(rules, rest[i - 1], HeightAfter(above, i - 1), PrevHash(rest, next, i - 1)); }
      }
    }
  }

  /** The batch check accepts exactly the contiguous batches. */
  lemma {:induction false} BatchCheckExact(rules: Rules, height: u64, prev: Str, bs: seq<Block>)
    ensures LinearFrom(rules, height, prev, bs) == None <==> Contiguous(rules, height, prev, bs)
    decreases |bs|
  {
    if bs != [] {
      ContiguousSplit(rules, height, prev, bs);
      BatchCheckExact(rules, SaturatingAdd(height, 1), bs[0].blockHash, bs[1..]);
    }
  }

  /** Whatever the chain would take, the batch check lets through. */
  lemma {:induction false} AppendableIsLinear(rules: Rules, p: ConsensusParams, ch: ChainValue, bs: seq<Block>)
    requires ch.blocks != [] && AppendAll(rules, p, ch, bs).Ok?
    ensures CheckBatch(rules, ch.blocks[|ch.blocks| - 1], bs) == None
    decreases |bs|
  {
    if bs != [] {
      AppendableIsLinear(rules, p, Append(rules, p, ch, bs[0]).value, bs[1..]);
    }
  }

  method ValidateLinearBatch(rules: Rules, tip: Block, bs: seq<Block>) returns (r: Option<SyncFault>)
    ensures r == CheckBatch(rules, tip, bs)
  {
    var height := SaturatingAdd(tip.height, 1);
    var prev := tip.blockHash;
    assert bs[0..] == bs;
    for i := 0 to |bs|
      invariant CheckBatch(rules, tip, bs) == LinearFrom(rules, height, prev, bs[i..])
    {
      assert bs[i..][0] == bs[i] && bs[i..][1..] == bs[i + 1..];
      if ValidateBlock(rules, bs[i]).Fail? {
        return Some(InvalidBatchBlock);
      }
      if bs[i].height != height {
        return Some(BatchNotLinear);
      }
      if bs[i].previousHash != prev {
        return Some(BatchBrokenLink);
      }
      prev := bs[i].blockHash;
      height := SaturatingAdd(height, 1);
    }
    r := None;
  }

  // ---------------------------------------------------------------- the node's sync

  /**
   A node's rules and everything outside it: what the peer answers in each round to each start
   height (`None`: no frame arrives), what the clock and the disk do at each append.
   */
  datatype Env = Env(
    framing: Framing<Block>,
    rules: Rules,
    params: ConsensusParams,
    genesis: Genesis,
    budget: Budget,
    peer: (nat, u64) -> Option<Bytes>,
    clock: nat -> u64,
    disk: nat -> (Fault, Fault))

  datatype Held = Held(chain: ChainValue, store: StoreValue)

  function NextHeight(ch: ChainValue): (h: u64)
  {
    SaturatingAdd(TipHeight(ch.blocks), 1)
  }

  /** `pull_blocks_from_peer`: the decoded batch and the length of its frame. */
  function Pull(env: Env, round: nat, h: Held): (r: Option<(seq<Block>, u64)>)
  {
    match env.peer(round, NextHeight(h.chain))
    case None => None
    case Some(frame) =>
      if |frame| > MAX_WIRE then None
      else
        match DecodeBatch(env.framing.format, frame)
        case None => None
        case Some(bs) => Some((bs, |frame|))
  }

  /** `validate_linear_sync_batch` */
  function Check(env: Env, h: Held, bs: seq<Block>): (r: Option<SyncFault>)
  {
    if bs == [] then None
    else if h.chain.blocks == [] then Some(NoTip)
    else CheckBatch(env.rules, h.chain.blocks[|h.chain.blocks| - 1], bs)
  }

  /** The `n`-th block of this sync, through `append_network_block_persist`. */
  function Ingest(env: Env, n: nat, h: Held, b: Block): (r: (bool, Held))
  {
    var now, fault := env.clock(n), env.disk(n);
    match Receive(env.framing, env.rules, env.params, env.genesis, h.chain, h.store, b, now, fault.0, fault.1)
    case Halted(_) => (false, h)
    case Stopped(ch, st) => (false, Held(ch, st))
    case Running(ch, st) =>
      (Accepted(env.framing, env.rules, env.params, h.chain, h.store, b, now, fault.0, fault.1), Held(ch, st))
  }

  function PartsOf(env: Env): (l: Parts<Held, Block>)
  {
    Parts(env.budget, (r, h) => Pull(env, r, h), (h, bs) => Check(env, h, bs), (n, h, b) => Ingest(env, n, h, b))
  }

  /** `sync_from_peer_with_clock` */
  function SyncFrom(env: Env, h: Held): (r: (Ending, Progress<Held>))
  {
    if h.store.poisoned then (Failed(RefusingPoisonedStore), Start(h))
    else if !ValidBudget(env.budget) then (Failed(BadBudget), Start(h))
    else Loop(PartsOf(env), Start(h))
  }

  // ---------------------------------------------------------------- safety against any peer

  /** `ch` is `start` with `n` blocks appended, each by the rules. */
  ghost predicate Extends(rules: Rules, p: ConsensusParams, start: ChainValue, ch: ChainValue, n: nat)
  {
    && start.blocks <= ch.blocks && |ch.blocks| == |start.blocks| + n
    && AppendAll(rules, p, start, ch.blocks[|start.blocks|..]) == Ok(ch)
  }

  lemma ExtendsOneMore(rules: Rules, p: ConsensusParams, start: ChainValue, ch: ChainValue, n: nat, b: Block)
    requires Extends(rules, p, start, ch, n) && Append(rules, p, ch, b).Ok?
    ensures Extends(rules, p, start, Append(rules, p, ch, b).value, n + 1)
  {
    var k := |start.blocks|;
    assert (ch.blocks + [b])[k..] == ch.blocks[k..] + [b];
    AppendAllSnoc(rules, p, start, ch.blocks[k..], b);
  }

  lemma ExtendsNothing(rules: Rules, p: ConsensusParams, ch: ChainValue)
    ensures Extends(rules, p, ch, ch, 0)
  {
  }

  /** The node after `n` blocks of a sync that began with the chain `start`. */
  ghost predicate Grown(env: Env, start: ChainValue, h: Held, n: nat)
  {
    && Extends(env.rules, env.params, start, h.chain, n)
    && Consistent(env.framing, env.rules, env.genesis, Running(h.chain, h.store))
  }

  /** One block either extends the chain by exactly itself or leaves it alone; disk and memory stay consistent. */
  lemma IngestMeaning(env: Env, n: nat, h: Held, b: Block)
    requires Sound(env.framing) && Consistent(env.framing, env.rules, env.genesis, Running(h.chain, h.store))
    ensures var (ok, h') := Ingest(env, n, h, b);
            && Consistent(env.framing, env.rules, env.genesis, Running(h'.chain, h'.store))
            && (if ok then Append(env.rules, env.params, h.chain, b) == Ok(h'.chain) else h'.chain == h.chain)
  {
    var now, fault := env.clock(n), env.disk(n);
    if !h.store.poisoned && AppendNetwork(env.rules, env.params, h.chain, b, now).Ok? {
      PersistConsistent(env.framing, env.rules, env.params, env.genesis, h.chain, h.store, b, fault.0, fault.1);
      AppendUnderDefaults(env.rules, env.params, h.chain, b);
      RollbackLastUndoes(env.rules, DEFAULT_PARAMS, env.genesis, h.chain, b);
    }
  }

  lemma IngestGrown(env: Env, start: ChainValue, n: nat, h: Held, b: Block)
    requires Sound(env.framing) && Grown(env, start, h, n)
    ensures var (ok, h') := Ingest(env, n, h, b);
            Grown(env, start, h', if ok then n + 1 else n)
  {
    IngestMeaning(env, n, h, b);
    if Ingest(env, n, h, b).0 { ExtendsOneMore(env.rules, env.params, start, h.chain, n, b); }
  }

  /**
   Against any peer, clock and disk, on every way out: the chain is the starting one plus at most
   the budgeted blocks, each accepted in turn; the rounds stay in budget; memory and disk agree; a
   caught-up ending means the last reply was empty, and a budget ending means a cap was reached.
   */
  lemma SyncSafe(env: Env, h: Held)
    requires Sound(env.framing) && Consistent(env.framing, env.rules, env.genesis, Running(h.chain, h.store))
    ensures var (e, s) := SyncFrom(env, h);
            && Grown(env, h.chain, s.held, s.total)
            && InBudget(env.budget, s)
            && Explained(PartsOf(env), e, s)
  {
    var inv := (x: Held, n: nat) => Grown(env, h.chain, x, n);
    PartsKeep(env, h.chain, PartsOf(env), inv);
    ExtendsNothing(env.rules, env.params, h.chain);
    LoopKeeps(PartsOf(env), inv, Start(h));
  }

  lemma PartsKeep(env: Env, start: ChainValue, l: Parts<Held, Block>, inv: (Held, nat) -> bool)
    requires Sound(env.framing) && forall x: Held, n: nat :: inv(x, n) <==> Grown(env, start, x, n)
    requires forall n: nat, x: Held, b: Block :: l.ingest(n, x, b) == Ingest(env, n, x, b)
    ensures Keeps(l, inv)
  {
    forall x: Held, n: nat, b: Block | inv(x, n)
      ensures inv(l.ingest(n, x, b).1, if l.ingest(n, x, b).0 then n + 1 else n)
    {
      IngestGrown(env, start, n, x, b);
    }
  }

  // ---------------------------------------------------------------- convergence with an honest peer

  /** The size of the frame that carries these blocks. */
  function ReplySize(k: Format<Block>, bs: seq<Block>): (n: nat)
  {
    match EncodeBatch(k, bs)
    case Some(frame) => |frame|
    case None => 0
  }

  /** Replies of up to 64 blocks, each as heavy as its own frame. */
  function RepliesOf(k: Format<Block>): (w: Replies<Block>)
  {
    Replies(MAX_BATCH, bs => ReplySize(k, bs))
  }

  /** The blocks of `blocks` from position `i` on that one reply carries. */
  function Slice(blocks: seq<Block>, i: nat): (r: seq<Block>)
    requires i <= |blocks|
  {
    blocks[i..Min(i + MAX_BATCH, |blocks|)]
  }

  /** A peer on chain `remote` that serves every request as the node itself would, within the frame cap. */
  ghost predicate Honest(env: Env, remote: ChainValue)
  {
    && (forall r: nat, start: u64 ::
          env.peer(r, start) == EncodeBatch(env.framing.format, FromHeight(remote.blocks, start, MAX_BATCH)))
    && (forall i :: 0 <= i <= |remote.blocks| ==> EncodeBatch(env.framing.format, Slice(remote.blocks, i)).Some?)
  }

  /** Nothing local stands in the way: the disk works, blocks fit the store, the clock is not behind them. */
  ghost predicate Favourable(env: Env, remote: ChainValue)
  {
    && (forall n: nat :: env.disk(n) == (None, None))
    && (forall b :: b in remote.blocks ==> Payload(env.framing, b).Some?)
    && (forall n: nat, b :: b in remote.blocks ==> ValidateDrift(b, env.clock(n), env.params).Pass?)
  }

  /** The node lacks exactly the blocks `d` of `remote`, and may append them. */
  ghost predicate Lacks(env: Env, remote: ChainValue, h: Held, d: seq<Block>)
  {
    && h.chain.blocks != [] && h.chain.blocks + d == remote.blocks
    && AppendAll(env.rules, env.params, h.chain, d) == Ok(remote)
    && !h.store.poisoned
  }

  lemma SliceIsChunk(w: Replies<Block>, ours: seq<Block>, d: seq<Block>)
    requires w.limit == MAX_BATCH
    ensures Slice(ours + d, |ours|) == Chunk(w, d)
  {
  }

  lemma PullServed(env: Env, remote: ChainValue, h: Held, d: seq<Block>, r: nat)
    requires Sound(env.framing) && Honest(env, remote) && Lacks(env, remote, h, d)
    requires Linked(remote.blocks) && TipHeight(remote.blocks) < U64_MAX
    ensures var chunk := Chunk(RepliesOf(env.framing.format), d);
            Pull(env, r, h) == Some((chunk, ReplySize(env.framing.format, chunk)))
  {
    var chunk := Chunk(RepliesOf(env.framing.format), d);
    PeerServes(env, remote, h, d, r);
    BatchRoundTrip(env.framing.format, chunk);
    assert FirstBatch(chunk) == chunk;
  }

  /** The peer's frame for this node carries the next chunk. */
  lemma PeerServes(env: Env, remote: ChainValue, h: Held, d: seq<Block>, r: nat)
    requires Honest(env, remote) && Lacks(env, remote, h, d)
    requires Linked(remote.blocks) && TipHeight(remote.blocks) < U64_MAX
    ensures var frame := EncodeBatch(env.framing.format, Chunk(RepliesOf(env.framing.format), d));
            frame.Some? && env.peer(r, NextHeight(h.chain)) == frame
  {
    var n := |h.chain.blocks|;
    assert h.chain.blocks[n - 1] == remote.blocks[n - 1];
    assert NextHeight(h.chain) == n;
    FromHeightIsSlice(remote.blocks, n, MAX_BATCH);
    SliceIsChunk(RepliesOf(env.framing.format), h.chain.blocks, d);
    assert Slice(remote.blocks, n) == Chunk(RepliesOf(env.framing.format), d);
  }

  lemma PrefixAppendable(rules: Rules, p: ConsensusParams, ch: ChainValue, d: seq<Block>, n: nat)
    requires n <= |d| && AppendAll(rules, p, ch, d).Ok?
    ensures AppendAll(rules, p, ch, d[..n]).Ok?
  {
    assert d == d[..n] + d[n..];
    AppendAllConcat(rules, p, ch, d[..n], d[n..]);
  }

  lemma CheckServed(env: Env, remote: ChainValue, h: Held, d: seq<Block>)
    requires Lacks(env, remote, h, d)
    ensures Check(env, h, Chunk(RepliesOf(env.framing.format), d)) == None
  {
    PrefixAppendable(env.rules, env.params, h.chain, d, Min(|d|, MAX_BATCH));
    AppendableIsLinear(env.rules, env.params, h.chain, d[..Min(|d|, MAX_BATCH)]);
  }

  lemma IngestServed(env: Env, remote: ChainValue, n: nat, h: Held, d: seq<Block>)
    requires Favourable(env, remote) && Lacks(env, remote, h, d) && d != []
    ensures Ingest(env, n, h, d[0]).0 && Lacks(env, remote, Ingest(env, n, h, d[0]).1, d[1..])
  {
    assert d[0] in remote.blocks;
    assert d == [d[0]] + d[1..];
    ConcatAssoc(h.chain.blocks, [d[0]], d[1..]);
  }

  lemma PartsServe(env: Env, remote: ChainValue, l: Parts<Held, Block>, lack: (Held, seq<Block>) -> bool)
    requires Sound(env.framing) && Honest(env, remote) && Favourable(env, remote)
    requires Linked(remote.blocks) && TipHeight(remote.blocks) < U64_MAX
    requires forall h: Held, d: seq<Block> :: lack(h, d) <==> Lacks(env, remote, h, d)
    requires forall r: nat, h: Held :: l.pull(r, h) == Pull(env, r, h)
    requires forall h: Held, bs: seq<Block> :: l.check(h, bs) == Check(env, h, bs)
    requires forall n: nat, h: Held, b: Block :: l.ingest(n, h, b) == Ingest(env, n, h, b)
    ensures Serves(l, RepliesOf(env.framing.format), lack)
  {
    var w := RepliesOf(env.framing.format);
    forall h: Held, d: seq<Block>, r: nat | lack(h, d) ensures Answers(l, w, h, d, r) {
      PullServed(env, remote, h, d, r);
    }
    forall h: Held, d: seq<Block> | lack(h, d) ensures l.check(h, Chunk(w, d)) == None {
      CheckServed(env, remote, h, d);
    }
    forall h: Held, d: seq<Block>, n: nat | lack(h, d) && d != []
      ensures l.ingest(n, h, d[0]).0 && lack(l.ingest(n, h, d[0]).1, d[1..])
    {
      IngestServed(env, remote, n, h, d);
    }
  }

  /**
   An honest peer that is ahead by the blocks `d`, and a favourable environment: the 64-block rounds
   end caught up if and only if the budget covers the rounds, the blocks and the bytes that `d` takes,
   and then the local chain equals the peer's.
   */
  lemma SyncConverges(env: Env, remote: ChainValue, h: Held, d: seq<Block>)
    requires Sound(env.framing) && Honest(env, remote) && Favourable(env, remote)
    requires Linked(remote.blocks) && TipHeight(remote.blocks) < U64_MAX
    requires Lacks(env, remote, h, d)
    ensures var (e, s) := SyncFrom(env, h);
            && (e == CaughtUp <==> Ample(env.budget, RepliesOf(env.framing.format), Start(h), d))
            && (e == CaughtUp ==> s.held.chain == remote && s.total == |d|)
  {
    var w, lack := RepliesOf(env.framing.format), (x: Held, y: seq<Block>) => Lacks(env, remote, x, y);
    if Ample(env.budget, w, Start(h), d) { AmpleIsValid(env.budget, w, Start(h), d); }
    PartsServe(env, remote, PartsOf(env), lack);
    LoopConverges(env, remote, PartsOf(env), w, lack, h, d);
  }

  lemma LacksNothing(env: Env, remote: ChainValue, h: Held)
    requires Lacks(env, remote, h, [])
    ensures h.chain == remote
  {
  }

  lemma LoopConverges(env: Env, remote: ChainValue, l: Parts<Held, Block>, w: Replies<Block>,
          lack: (Held, seq<Block>) -> bool, h: Held, d: seq<Block>)
    requires w.limit > 0 && Serves(l, w, lack) && lack(h, d)
    requires forall x: Held, y: seq<Block> :: lack(x, y) <==> Lacks(env, remote, x, y)
    ensures var (e, s) := Loop(l, Start(h));
            && (e == CaughtUp <==> Ample(l.budget, w, Start(h), d))
            && (e == CaughtUp ==> s.held.chain == remote && s.total == |d|)
  {
    LoopCatchesUp(l, w, lack, Start(h), d);
    var (e, s) := Loop(l, Start(h));
    if e == CaughtUp { LacksNothing(env, remote, s.held); }
  }

  // ---------------------------------------------------------------- the code

  ghost function HeldBy(node: NodeInner): (h: Held)
    reads node.chain, node.store
  {
    Held(node.chain.Value(), node.store.Value())
  }

  /** `env` describes this node. */
  ghost predicate Describes(env: Env, node: NodeInner)
    reads node.chain, node.store
  {
    && node.Wired()
    && env.framing == node.framing && env.genesis == node.genesis
    && env.rules == node.chain.rules && env.params == node.chain.params
  }

  method IngestBlock(node: NodeInner, env: Env, n: nat, b: Block) returns (ok: bool)
    requires Describes(env, node) && env.framing.format.encode(b).Some?
    modifies node.chain, node.store
    ensures Describes(env, node)
    ensures (ok, HeldBy(node)) == Ingest(env, n, old(HeldBy(node)), b)
  {
    var (magicFault, frameFault) := env.disk(n);
    var r := node.AppendNetworkBlockPersist(b, env.clock(n), magicFault, frameFault);
    ok := r.Stored?;
  }

  method IngestBatch(node: NodeInner, env: Env, total: nat, bs: seq<Block>) returns (ok: bool, count: nat)
    requires Describes(env, node) && forall i :: 0 <= i < |bs| ==> env.framing.format.encode(bs[i]).Some?
    modifies node.chain, node.store
    ensures Describes(env, node)
    ensures (ok, HeldBy(node), count) == IngestAll(PartsOf(env), old(HeldBy(node)), total, bs)
  {
    ghost var l := PartsOf(env);
    count := total;
    assert bs[0..] == bs;
    for i := 0 to |bs|
      invariant Describes(env, node)
      invariant IngestAll(l, HeldBy(node), count, bs[i..]) == IngestAll(l, old(HeldBy(node)), total, bs)
    {
      assert bs[i..][0] == bs[i] && bs[i..][1..] == bs[i + 1..];
      ok := IngestBlock(node, env, count, bs[i]);
      if !ok {
        return;
      }
      count := count + 1;
    }
    ok := true;
  }

  method PullBlocks(node: NodeInner, env: Env, round: nat) returns (r: Option<(seq<Block>, u64)>)
    requires TwoSided(env.framing.format)
    ensures r == Pull(env, round, HeldBy(node))
    ensures r.Some? ==> forall i :: 0 <= i < |r.value.0| ==> env.framing.format.encode(r.value.0[i]).Some?
  {
    var height := TipHeight(node.chain.blocks);
    var frame := env.peer(round, SaturatingAdd(height, 1));
    if frame.None? || |frame.value| > MAX_WIRE {
      return None;
    }
    var bs := WireDecodeBlocks(env.framing.format, frame.value);
    if bs.None? {
      return None;
    }
    BatchCanonical(env.framing.format, frame.value);
    r := Some((bs.value, |frame.value|));
  }

  ghost function Now(node: NodeInner, total: nat, rounds: nat, wire: u64): (s: Progress<Held>)
    reads node.chain, node.store
  {
    Progress(HeldBy(node), total, rounds, wire)
  }

  /** A turn that ended as `left` says, at `s`. */
  ghost predicate Ends(t: SyncLoop.Turn<Held>, left: Option<Ending>, s: Progress<Held>)
  {
    t == if left.Some? then Leave(left.value, s) else Onward(s)
  }

  /** A batch that passed its check. */
  method TakeChecked(node: NodeInner, env: Env, total: nat, rounds: nat, wire: u64, bs: seq<Block>)
      returns (left: Option<Ending>, count: nat)
    requires Describes(env, node) && forall i :: 0 <= i < |bs| ==> env.framing.format.encode(bs[i]).Some?
    modifies node.chain, node.store
    ensures Describes(env, node)
    ensures var turn := TakeWithinRoom(PartsOf(env), old(Now(node, total, rounds, wire)), bs);
            Ends(turn, left, Now(node, count, rounds, wire))
  {
    if total >= env.budget.maxBlocks {
      return Some(BudgetSpent), total;
    }
    var ok;
    ok, count := IngestBatch(node, env, total, bs[..Min(|bs|, env.budget.maxBlocks - total)]);
    if !ok {
      return Some(Failed(BlockRefused)), count;
    }
    left := if count >= env.budget.maxBlocks || wire > env.budget.maxWire then Some(BudgetSpent) else None;
  }

  /** The answer to a pull. */
  method HandleReply(node: NodeInner, env: Env, total: nat, rounds: nat, wire: u64, bs: seq<Block>)
      returns (left: Option<Ending>, count: nat)
    requires Describes(env, node) && forall i :: 0 <= i < |bs| ==> env.framing.format.encode(bs[i]).Some?
    modifies node.chain, node.store
    ensures Describes(env, node)
    ensures Ends(TakeReply(PartsOf(env), old(Now(node, total, rounds, wire)), bs), left, Now(node, count, rounds, wire))
  {
    if bs == [] {
      return Some(CaughtUp), total;
    }
    var fault := ValidateLinearBatch(node.chain.rules, node.chain.blocks[|node.chain.blocks| - 1], bs);
    if fault.Some? {
      return Some(Failed(fault.value)), total;
    }
    left, count := TakeChecked(node, env, total, rounds, wire, bs);
  }

  /** The start of a turn: leave, or go on with a reply. */
  method AskPeer(node: NodeInner, env: Env, ghost l: Parts<Held, Block>, total: nat, rounds: nat, wire: u64)
      returns (left: Option<Ending>, bs: seq<Block>, bytes: u64)
    requires TwoSided(env.framing.format)
    requires l.budget == env.budget && l.pull(rounds, HeldBy(node)) == Pull(env, rounds, HeldBy(node))
    ensures left.Some? ==>
      RoundTurn(l, Now(node, total, rounds, wire)) == Leave(left.value, Now(node, total, rounds, wire))
    ensures left.None? ==>
      && RoundTurn(l, Now(node, total, rounds, wire)) == TakeReply(l, Now(node, total, rounds + 1, bytes), bs)
      && rounds < env.budget.maxRounds
      && forall i :: 0 <= i < |bs| ==> env.framing.format.encode(bs[i]).Some?
  {
    ghost var s := Now(node, total, rounds, wire);
    bs, bytes := [], wire;
    if total >= env.budget.maxBlocks || rounds >= env.budget.maxRounds || wire >= env.budget.maxWire {
      return Some(BudgetSpent), bs, bytes;
    }
    var reply := PullBlocks(node, env, rounds);
    RoundAsks(l, s, reply);
    if reply.None? {
      return Some(Failed(PullFailed)), bs, bytes;
    }
    left, bs, bytes := None, reply.value.0, SaturatingAdd(wire, reply.value.1);
  }

  /** The rounds of a sync. */
  method SyncRounds(node: NodeInner, env: Env) returns (ending: Ending, total: nat)
    requires Describes(env, node) && TwoSided(env.framing.format)
    modifies node.chain, node.store
    ensures ending == SyncFrom(env, old(HeldBy(node))).0
    ensures HeldBy(node) == SyncFrom(env, old(HeldBy(node))).1.held && total == SyncFrom(env, old(HeldBy(node))).1.total
  {
    total := 0;
    if node.store.poisoned {
      return Failed(RefusingPoisonedStore), 0;
    }
    if !ValidBudget(env.budget) {
      return Failed(BadBudget), 0;
    }
    var rounds: nat, wire: u64 := 0, 0;
    ghost var l := PartsOf(env);
    ghost var goal := Loop(l, Start(HeldBy(node)));
    while true
      invariant Describes(env, node)
      invariant Loop(l, Now(node, total, rounds, wire)) == goal
      decreases if rounds < env.budget.maxRounds then env.budget.maxRounds - rounds else 0
    {
      var left, bs, bytes := AskPeer(node, env, l, total, rounds, wire);
      if left.Some? {
        return left.value, total;
      }
      rounds, wire := rounds + 1, bytes;
      left, total := HandleReply(node, env, total, rounds, wire, bs);
      if left.Some? {
        return left.value, total;
      }
    }
  }

  /** `sync_from_peer_with_clock`: the rounds, then pool hygiene if the ledger advanced and no round failed. */
  method SyncFromPeer(node: NodeInner, pool: Mempool.Pool, env: Env) returns (ending: Ending, total: nat)
    requires Describes(env, node) && TwoSided(env.framing.format) && pool.Valid()
    modifies node.chain, node.store, pool
    ensures ending == SyncFrom(env, old(HeldBy(node))).0
    ensures HeldBy(node) == SyncFrom(env, old(HeldBy(node))).1.held
    ensures total == SyncFrom(env, old(HeldBy(node))).1.total
    ensures pool.Valid()
    ensures pool.fifo ==
      if ending.Failed? || total == 0 then old(pool.fifo)
      else MempoolRules.Hygiene(pool.rules, node.chain.accounts, old(pool.fifo))
  {
    ending, total := SyncRounds(node, env);
    if !ending.Failed? && total > 0 {
      var front, stale, dup := pool.HygieneVsCommitted(node.chain.accounts);
    }
  }
}
