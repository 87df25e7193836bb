/** What a node never loses: committed blocks over whole runs, and the one fault that can lose them. */
module Durability {
  import opened Prelude
  import opened Protocol
  import opened Chain
  import opened Store
  import opened BlockFile
  import opened Node

  // ---------------------------------------------------------------- one file

  /** Whatever comes up from `file` has all of `blocks`, or nothing can be loaded from it at all. */
  ghost predicate Safe(k: Framing<Block>, rules: Rules, g: Genesis, file: Bytes, blocks: seq<Block>)
  {
    var n := Boot(k, rules, g, file, None);
    LoadRepairing(k, file).Err? || (n.Running? && blocks <= n.chain.blocks)
  }

  /** `n` has all of `blocks` in memory, if it has a memory, and on disk. */
  ghost predicate Kept(k: Framing<Block>, rules: Rules, g: Genesis, n: NodeValue, blocks: seq<Block>)
  {
    (!n.Halted? ==> blocks <= n.chain.blocks) && Safe(k, rules, g, Disk(n), blocks)
  }

  lemma PrefixTrans(a: seq<Block>, b: seq<Block>, c: seq<Block>)
    requires a <= b <= c
    ensures a <= c
  {
  }

  /** Files that load the same items to the same end boot alike. */
  lemma BootByItems(k: Framing<Block>, rules: Rules, g: Genesis, x: Bytes, y: Bytes)
    requires LoadRepairing(k, x).Ok? && LoadRepairing(k, y).Ok?
    requires LoadRepairing(k, x).value.items == LoadRepairing(k, y).value.items
    requires LoadRepairing(k, x).value.file == LoadRepairing(k, y).value.file
    ensures Boot(k, rules, g, x, None) == Boot(k, rules, g, y, None)
  {
  }

  /** A boot leaves on disk what its load left, and comes up only if no fault struck. */
  lemma BootLeaves(k: Framing<Block>, rules: Rules, g: Genesis, file: Bytes, fault: Fault)
    ensures var n := Boot(k, rules, g, file, fault);
            && Disk(n) == LoadUnder(k, file, fault).1
            && !n.Stopped?
            && (n.Running? ==> n == Boot(k, rules, g, file, None))
  {
  }

  /** A restart whose repair write is not cut silently keeps everything. */
  lemma RestartSafe(k: Framing<Block>, rules: Rules, g: Genesis, file: Bytes, fault: Fault, blocks: seq<Block>)
    requires Sound(k) && Safe(k, rules, g, file, blocks) && !SilentCut(k, file, fault)
    ensures Kept(k, rules, g, Boot(k, rules, g, file, fault), blocks)
  {
    BootLeaves(k, rules, g, file, fault);
    if LoadRepairing(k, file).Ok? {
      var left := LoadUnder(k, file, fault).1;
      RepairUnderFault(k, file, fault);
      if LoadRepairing(k, left).Ok? { BootByItems(k, rules, g, file, left); }
    }
  }

  lemma EitherSafe(k: Framing<Block>, rules: Rules, g: Genesis, ch: ChainValue, after: ChainValue, n: NodeValue,
          blocks: seq<Block>)
    requires FindsEither(k, rules, g, ch, after, n) && blocks <= ch.blocks && ch.blocks <= after.blocks
    ensures Safe(k, rules, g, Disk(n), blocks)
  {
    PrefixTrans(blocks, ch.blocks, after.blocks);
  }

  // ---------------------------------------------------------------- one event

  lemma PersistKeeps(k: Framing<Block>, rules: Rules, p: ConsensusParams, g: Genesis, ch: ChainValue, st: StoreValue,
          b: Block, magicFault: Fault, frameFault: Fault, blocks: seq<Block>)
    requires Sound(k) && Consistent(k, rules, g, Running(ch, st)) && !st.poisoned
    requires Append(rules, p, ch, b).Ok? && blocks <= ch.blocks
    ensures var after := Append(rules, p, ch, b).value;
            Kept(k, rules, g, Persist(k, rules, g, ch, after, st, b, magicFault, frameFault), blocks)
  {
    var after := Append(rules, p, ch, b).value;
    AppendExtends(rules, p, ch, b);
    PersistFinds(k, rules, p, g, ch, st, b, magicFault, frameFault);
    SettledKept(k, rules, g, ch, after, st, b, Persist(k, rules, g, ch, after, st, b, magicFault, frameFault), blocks);
  }

  lemma AppendExtends(rules: Rules, p: ConsensusParams, ch: ChainValue, b: Block)
    requires Append(rules, p, ch, b).Ok?
    ensures ch.blocks <= Append(rules, p, ch, b).value.blocks
  {
  }

  lemma SettledKept(k: Framing<Block>, rules: Rules, g: Genesis, ch: ChainValue, after: ChainValue, st: StoreValue,
          b: Block, n: NodeValue, blocks: seq<Block>)
    requires Settled(k, rules, g, ch, after, st, b, n) && FindsEither(k, rules, g, ch, after, n)
    requires blocks <= ch.blocks && ch.blocks <= after.blocks
    ensures Kept(k, rules, g, n, blocks)
  {
    PrefixTrans(blocks, ch.blocks, after.blocks);
    EitherSafe(k, rules, g, ch, after, n, blocks);
  }

  lemma SealingExtends(rules: Rules, p: ConsensusParams, ch: ChainValue, q: seq<Transaction>, max: nat, now: u64)
    requires ch.blocks != [] && TipHeight(ch.blocks) < U64_MAX
    ensures ch.blocks <= Sealing(rules, p, ch, q, max, now).blocks
  {
  }

  lemma SealKeeps(k: Framing<Block>, rules: Rules, p: ConsensusParams, g: Genesis, ch: ChainValue, st: StoreValue,
          q: seq<Transaction>, max: nat, now: u64, magicFault: Fault, frameFault: Fault, blocks: seq<Block>)
    requires Sound(k) && Consistent(k, rules, g, Running(ch, st)) && !st.poisoned
    requires TipHeight(ch.blocks) < U64_MAX && blocks <= ch.blocks
    ensures Kept(k, rules, g, SealTurn(k, rules, p, g, ch, st, q, max, now, magicFault, frameFault), blocks)
  {
    var after := Sealing(rules, p, ch, q, max, now);
    SealingExtends(rules, p, ch, q, max, now);
    SealRestart(k, rules, p, g, ch, st, q, max, now, magicFault, frameFault);
    PrefixTrans(blocks, ch.blocks, after.blocks);
    EitherSafe(k, rules, g, ch, after, SealTurn(k, rules, p, g, ch, st, q, max, now, magicFault, frameFault), blocks);
  }

  /** The restart of `e`, if it is one that comes up, is not cut silently. */
  ghost predicate Harmless(k: Framing<Block>, rules: Rules, g: Genesis, n: NodeValue, e: Event)
    requires Sound(k)
  {
    e.RestartEvent? && Found(k, rules, g, n).Running? ==> !SilentCut(k, Disk(n), e.repairFault)
  }

  lemma HealthyHas(k: Framing<Block>, rules: Rules, g: Genesis, n: NodeValue, blocks: seq<Block>)
    requires Sound(k) && Consistent(k, rules, g, n) && !n.Halted? && !n.store.poisoned
    requires Safe(k, rules, g, Disk(n), blocks)
    ensures blocks <= n.chain.blocks
  {
    HealthyReload(k, n.store, n.chain.blocks[1..]);
    HealthyRestart(k, rules, g, n, None);
  }

  /** Disk: no event but a silent cut makes a restart lose a block. */
  lemma StepSafe(k: Framing<Block>, rules: Rules, p: ConsensusParams, g: Genesis, n: NodeValue, e: Event,
          blocks: seq<Block>)
    requires Sound(k) && Consistent(k, rules, g, n) && Harmless(k, rules, g, n, e)
    requires Safe(k, rules, g, Disk(n), blocks)
    ensures Safe(k, rules, g, Disk(NodeStep(k, rules, p, g, n, e)), blocks)
  {
    match e
    case RestartEvent(fault) => RestartSafe(k, rules, g, Disk(n), fault, blocks);
    case ReceiveEvent(b, now, mf, ff) =>
      if n.Running? && !n.store.poisoned && AppendNetwork(rules, p, n.chain, b, now).Ok? {
        HealthyHas(k, rules, g, n, blocks);
        PersistKeeps(k, rules, p, g, n.chain, n.store, b, mf, ff, blocks);
      }
    case SealEvent(q, max, now, mf, ff) =>
      if n.Running? && !n.store.poisoned && TipHeight(n.chain.blocks) < U64_MAX {
        HealthyHas(k, rules, g, n, blocks);
        SealKeeps(k, rules, p, g, n.chain, n.store, q, max, now, mf, ff, blocks);
      }
  }

  /** Memory and disk together. */
  lemma StepKept(k: Framing<Block>, rules: Rules, p: ConsensusParams, g: Genesis, n: NodeValue, e: Event,
          blocks: seq<Block>)
    requires Sound(k) && Consistent(k, rules, g, n) && Harmless(k, rules, g, n, e)
    requires Kept(k, rules, g, n, blocks)
    ensures Kept(k, rules, g, NodeStep(k, rules, p, g, n, e), blocks)
  {
    match e
    case RestartEvent(fault) => RestartSafe(k, rules, g, Disk(n), fault, blocks);
    case ReceiveEvent(b, now, mf, ff) =>
      if n.Running? && !n.store.poisoned && AppendNetwork(rules, p, n.chain, b, now).Ok? {
        PersistKeeps(k, rules, p, g, n.chain, n.store, b, mf, ff, blocks);
      }
    case SealEvent(q, max, now, mf, ff) =>
      if n.Running? && !n.store.poisoned && TipHeight(n.chain.blocks) < U64_MAX {
        SealKeeps(k, rules, p, g, n.chain, n.store, q, max, now, mf, ff, blocks);
      }
  }

  // ---------------------------------------------------------------- whole runs

  /** The node after the first `i` events. */
  function At(k: Framing<Block>, rules: Rules, p: ConsensusParams, g: Genesis, disk: Bytes, events: seq<Event>, i: nat)
    : (n: NodeValue)
    requires i <= |events|
  {
    NodeRun(k, rules, p, g, disk, events[..i])
  }

  lemma AtNext(k: Framing<Block>, rules: Rules, p: ConsensusParams, g: Genesis, disk: Bytes, events: seq<Event>, i: nat)
    requires i < |events|
    ensures At(k, rules, p, g, disk, events, i + 1) ==
      NodeStep(k, rules, p, g, At(k, rules, p, g, disk, events, i), events[i])
  {
    assert events[..i + 1][..i] == events[..i];
  }

  /** No restart that could have come up had its repair write cut where the shorter file still loads. */
  ghost predicate NoSilentCut(k: Framing<Block>, rules: Rules, p: ConsensusParams, g: Genesis, disk: Bytes,
          events: seq<Event>)
    requires Sound(k)
  {
    forall i {:trigger At(k, rules, p, g, disk, events, i)} :: 0 <= i < |events| ==>
      Harmless(k, rules, g, At(k, rules, p, g, disk, events, i), events[i])
  }

  /** From `a` to `b`, neither memory nor the chain a restart finds has lost a block. */
  ghost predicate LossFree(k: Framing<Block>, rules: Rules, g: Genesis, a: NodeValue, b: NodeValue)
  {
    var fa, fb := Found(k, rules, g, a), Found(k, rules, g, b);
    && (!a.Halted? && !b.Halted? ==> a.chain.blocks <= b.chain.blocks)
    && (!a.Halted? && fb.Running? ==> a.chain.blocks <= fb.chain.blocks)
    && (fa.Running? && fb.Running? ==> fa.chain.blocks <= fb.chain.blocks)
  }

  ghost predicate Durable(k: Framing<Block>, rules: Rules, p: ConsensusParams, g: Genesis, disk: Bytes,
          events: seq<Event>)
  {
    forall i, j :: 0 <= i <= j <= |events| ==>
      LossFree(k, rules, g, At(k, rules, p, g, disk, events, i), At(k, rules, p, g, disk, events, j))
  }

  lemma {:induction false} SafeAlong(k: Framing<Block>, rules: Rules, p: ConsensusParams, g: Genesis, disk: Bytes,
          events: seq<Event>, i: nat, j: nat, blocks: seq<Block>)
    requires Sound(k) && NoSilentCut(k, rules, p, g, disk, events) && i <= j <= |events|
    requires Safe(k, rules, g, Disk(At(k, rules, p, g, disk, events, i)), blocks)
    ensures Safe(k, rules, g, Disk(At(k, rules, p, g, disk, events, j)), blocks)
    decreases j
  {
    if i < j {
      SafeAlong(k, rules, p, g, disk, events, i, j - 1, blocks);
      AtNext(k, rules, p, g, disk, events, j - 1);
      EveryRunConsistent(k, rules, p, g, disk, events[..j - 1]);
      StepSafe(k, rules, p, g, At(k, rules, p, g, disk, events, j - 1), events[j - 1], blocks);
    }
  }

  lemma {:induction false} KeptAlong(k: Framing<Block>, rules: Rules, p: ConsensusParams, g: Genesis, disk: Bytes,
          events: seq<Event>, i: nat, j: nat, blocks: seq<Block>)
    requires Sound(k) && NoSilentCut(k, rules, p, g, disk, events) && i <= j <= |events|
    requires Kept(k, rules, g, At(k, rules, p, g, disk, events, i), blocks)
    ensures Kept(k, rules, g, At(k, rules, p, g, disk, events, j), blocks)
    decreases j
  {
    if i < j {
      KeptAlong(k, rules, p, g, disk, events, i, j - 1, blocks);
      AtNext(k, rules, p, g, disk, events, j - 1);
      EveryRunConsistent(k, rules, p, g, disk, events[..j - 1]);
      StepKept(k, rules, p, g, At(k, rules, p, g, disk, events, j - 1), events[j - 1], blocks);
    }
  }

  lemma KeepsItself(k: Framing<Block>, rules: Rules, g: Genesis, n: NodeValue)
    requires Sound(k) && Consistent(k, rules, g, n)
    requires !n.Halted?
    ensures Kept(k, rules, g, n, n.chain.blocks)
  {
    var again := Found(k, rules, g, n);
    ConsistentFinds(k, rules, g, n);
    if again.Running? && again.chain != n.chain {
      var b :| Append(rules, DEFAULT_PARAMS, n.chain, b) == Ok(again.chain);
      AppendExtends(rules, DEFAULT_PARAMS, n.chain, b);
    }
  }

  /** What loads has no error, so what is safe is found. */
  lemma SafeIsFound(k: Framing<Block>, rules: Rules, g: Genesis, n: NodeValue, blocks: seq<Block>)
    requires Safe(k, rules, g, Disk(n), blocks) && Found(k, rules, g, n).Running?
    ensures blocks <= Found(k, rules, g, n).chain.blocks
  {
  }

  lemma LossFreeBetween(k: Framing<Block>, rules: Rules, p: ConsensusParams, g: Genesis, disk: Bytes,
          events: seq<Event>, i: nat, j: nat)
    requires Sound(k) && NoSilentCut(k, rules, p, g, disk, events) && i <= j <= |events|
    ensures LossFree(k, rules, g, At(k, rules, p, g, disk, events, i), At(k, rules, p, g, disk, events, j))
  {
    var a, b := At(k, rules, p, g, disk, events, i), At(k, rules, p, g, disk, events, j);
    if !a.Halted? {
      EveryRunConsistent(k, rules, p, g, disk, events[..i]);
      KeepsItself(k, rules, g, a);
      KeptAlong(k, rules, p, g, disk, events, i, j, a.chain.blocks);
      if Found(k, rules, g, b).Running? { SafeIsFound(k, rules, g, b, a.chain.blocks); }
    }
    if Found(k, rules, g, a).Running? {
      SafeAlong(k, rules, p, g, disk, events, i, j, Found(k, rules, g, a).chain.blocks);
      if Found(k, rules, g, b).Running? { SafeIsFound(k, rules, g, b, Found(k, rules, g, a).chain.blocks); }
    }
  }

  /** A silent cut of a repair makes the next restart come up with fewer blocks. */
  lemma SilentCutLoses(k: Framing<Block>, rules: Rules, g: Genesis, file: Bytes, fault: Fault)
    requires Sound(k) && Boot(k, rules, g, file, None).Running? && SilentCut(k, file, fault)
    ensures var next := Boot(k, rules, g, Disk(Boot(k, rules, g, file, fault)), None);
            next.Running? && next.chain.blocks < Boot(k, rules, g, file, None).chain.blocks
  {
    BootLeaves(k, rules, g, file, fault);
    RepairUnderFault(k, file, fault);
    var left := LoadUnder(k, file, fault).1;
    var items, fewer := LoadRepairing(k, file).value.items, LoadRepairing(k, left).value.items;
    FewerReplay(rules, g, items, fewer);
    LoadThenOpen(k, left);
  }

  lemma FewerReplay(rules: Rules, g: Genesis, items: seq<Block>, fewer: seq<Block>)
    requires AppendAll(rules, DEFAULT_PARAMS, Initial(g), items).Ok? && fewer < items
    ensures AppendAll(rules, DEFAULT_PARAMS, Initial(g), fewer).Ok?
    ensures AppendAll(rules, DEFAULT_PARAMS, Initial(g), fewer).value.blocks <
      AppendAll(rules, DEFAULT_PARAMS, Initial(g), items).value.blocks
  {
    var more := items[|fewer|..];
    assert items == fewer + more;
    AppendAllConcat(rules, DEFAULT_PARAMS, Initial(g), fewer, more);
    AppendAllBlocks(rules, DEFAULT_PARAMS, Initial(g), fewer);
    AppendAllBlocks(rules, DEFAULT_PARAMS, Initial(g), items);
  }

  lemma SilentCutBreaks(k: Framing<Block>, rules: Rules, p: ConsensusParams, g: Genesis, disk: Bytes,
          events: seq<Event>, i: nat)
    requires Sound(k) && i < |events| && !Harmless(k, rules, g, At(k, rules, p, g, disk, events, i), events[i])
    ensures !LossFree(k, rules, g, At(k, rules, p, g, disk, events, i), At(k, rules, p, g, disk, events, i + 1))
  {
    var n := At(k, rules, p, g, disk, events, i);
    AtNext(k, rules, p, g, disk, events, i);
    SilentCutLoses(k, rules, g, Disk(n), events[i].repairFault);
  }

  /**
   Durability over whole runs, with any blocks, any faults and any number of restarts: no committed
   block and no block that a restart would have found is ever lost, in memory or behind a later
   restart, if and only if no repair write was cut short where the shorter file still loads.
   */
  lemma DurableIffNoSilentCut(k: Framing<Block>, rules: Rules, p: ConsensusParams, g: Genesis, disk: Bytes,
          events: seq<Event>)
    requires Sound(k)
    ensures Durable(k, rules, p, g, disk, events) <==> NoSilentCut(k, rules, p, g, disk, events)
  {
    if NoSilentCut(k, rules, p, g, disk, events) {
      forall i, j | 0 <= i <= j <= |events|
        ensures LossFree(k, rules, g, At(k, rules, p, g, disk, events, i), At(k, rules, p, g, disk, events, j))
      {
        LossFreeBetween(k, rules, p, g, disk, events, i, j);
      }
    } else {
      var i :| 0 <= i < |events| && !Harmless(k, rules, g, At(k, rules, p, g, disk, events, i), events[i]);
      SilentCutBreaks(k, rules, p, g, disk, events, i);
    }
  }

  /** In particular: when every repair write completes, nothing is ever lost. */
  lemma DurableWhenRepairsComplete(k: Framing<Block>, rules: Rules, p: ConsensusParams, g: Genesis, disk: Bytes,
          events: seq<Event>)
    requires Sound(k)
    requires forall i :: 0 <= i < |events| && events[i].RestartEvent? ==> events[i].repairFault == None
    ensures Durable(k, rules, p, g, disk, events)
  {
    DurableIffNoSilentCut(k, rules, p, g, disk, events);
  }

  /** The node as built: SHA-256 and Ed25519 rules, canonical block encoding, CRC-32 frames. */
  lemma RunningNodeDurable(c: Crypto, p: ConsensusParams, g: Genesis, disk: Bytes, events: seq<Event>)
    ensures Sound(BLOCK_FRAMING)
    ensures Durable(BLOCK_FRAMING, StandardRules(c), p, g, disk, events) <==>
      NoSilentCut(BLOCK_FRAMING, StandardRules(c), p, g, disk, events)
  {
    BlockFramingSound();
    DurableIffNoSilentCut(BLOCK_FRAMING, StandardRules(c), p, g, disk, events);
  }

  /** A run that loses everything: restart on a chain's file with one torn byte, the repair write stopped at once. */
  lemma RepairCutRun(k: Framing<Block>, rules: Rules, p: ConsensusParams, g: Genesis, ch: ChainValue, b: byte)
    requires Sound(k) && Canonical(rules, DEFAULT_PARAMS, g, ch) && |ch.blocks| > 1
    requires FileOf(k, V2, ch.blocks[1..]).Some?
    ensures var disk := FileOf(k, V2, ch.blocks[1..]).value + [b];
            var events := [RestartEvent(Some(0)), RestartEvent(None)];
            var n := NodeRun(k, rules, p, g, disk, events);
            && Boot(k, rules, g, disk, None).Running? && Boot(k, rules, g, disk, None).chain == ch
            && n.Running? && n.chain == Initial(g)
            && !Durable(k, rules, p, g, disk, events)
  {
    var disk := FileOf(k, V2, ch.blocks[1..]).value + [b];
    RepairCanLoseEverything(k, V2, ch.blocks[1..], b);
    BootReplays(k, rules, g, disk, ch);
    CutBootRuns(k, rules, p, g, disk);
    CutBootBreaks(k, rules, p, g, disk, Some(0), RestartEvent(None));
  }

  lemma CutBootBreaks(k: Framing<Block>, rules: Rules, p: ConsensusParams, g: Genesis, disk: Bytes, fault: Fault,
          e: Event)
    requires Sound(k) && Boot(k, rules, g, disk, None).Running? && SilentCut(k, disk, fault)
    ensures !Durable(k, rules, p, g, disk, [RestartEvent(fault), e])
  {
    var events := [RestartEvent(fault), e];
    assert At(k, rules, p, g, disk, events, 0) == Halted(disk);
    assert !Harmless(k, rules, g, At(k, rules, p, g, disk, events, 0), events[0]);
    DurableIffNoSilentCut(k, rules, p, g, disk, events);
  }

  lemma CutBootRuns(k: Framing<Block>, rules: Rules, p: ConsensusParams, g: Genesis, disk: Bytes)
    requires ValidateGenesis(g).Pass?
    requires LoadRepairing(k, disk).Ok? && LoadRepairing(k, disk).value.repaired
    ensures var n := NodeRun(k, rules, p, g, disk, [RestartEvent(Some(0)), RestartEvent(None)]);
            n.Running? && n.chain == Initial(g)
  {
    var first, second := RestartEvent(Some(0)), RestartEvent(None);
    assert [first, second][..1] == [first] && [first][..0] == [];
    assert NodeRun(k, rules, p, g, disk, [first]) == Boot(k, rules, g, disk, Some(0)) == Halted([]);
  }
}
