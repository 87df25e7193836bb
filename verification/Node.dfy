/** The running node: blocks enter memory first and disk second, and a restart trusts only the disk. */
module Node {
  import opened Prelude
  import opened Protocol
  import opened Ledger
  import opened Chain
  import opened MempoolRules
  import opened Blockchain
  import opened Records
  import opened Store
  import opened BlockFile
  import Codec
  import Crc32

  // ---------------------------------------------------------------- the block file format

  /** Blocks in their canonical encoding under CRC-32. */
  const BLOCK_FRAMING: Framing<Block> := Framing(Codec.BLOCK_FORMAT, Crc32.Crc)

  /** All that the theorems below ask of a format. */
  ghost predicate Sound(k: Framing<Block>)
  {
    TwoSided(k.format) && forall d :: k.format.decode(d).Some? ==> |d| >= 4
  }

  lemma BlockFramingSound()
    ensures Sound(BLOCK_FRAMING)
  {
    Codec.BlockTwoSided();
    forall d | BLOCK_FRAMING.format.decode(d).Some? ensures |d| >= 4 {
      Codec.BlockCanonical(d);
    }
  }

  // ---------------------------------------------------------------- node states

  /**
   A process that is up, a process that stopped itself with the chain it had committed and the store
   it had open, or a file without a process: before the first boot, and after one that failed.
   */
  datatype NodeValue =
    | Running(chain: ChainValue, store: StoreValue)
    | Stopped(chain: ChainValue, store: StoreValue)
    | Halted(file: Bytes)

  function Disk(n: NodeValue): (file: Bytes)
  {
    if n.Halted? then n.file else n.store.file
  }

  /** `load_blockchain_from_disk` followed by `open_append`; `fault` strikes the repair write, if there is one. */
  function Boot(k: Framing<Block>, rules: Rules, g: Genesis, file: Bytes, fault: Fault): (n: NodeValue)
  {
    match LoadUnder(k, file, fault)
    case (Err(_), left) => Halted(left)
    case (Ok(l), left) =>
      if ValidateGenesis(g).Fail? then Halted(left)
      else
        match AppendAll(rules, DEFAULT_PARAMS, Initial(g), l.items)
        case Err(_) => Halted(left)
        case Ok(ch) =>
          match OpenStore(left)
          case None => Halted(left)
          case Some(st) => Running(ch, st)
  }

  /** `b` was appended to `before` in memory, giving `after`; write it, and take it back if that fails. */
  function Persist(k: Framing<Block>, rules: Rules, g: Genesis, before: ChainValue, after: ChainValue, st: StoreValue,
                   b: Block, magicFault: Fault, frameFault: Fault): (n: NodeValue)
  {
    match k.format.encode(b)
    case None => Stopped(before, st)
    case Some(p) =>
      var (ok, st') := AppendPayload(k.sum, st, p, magicFault, frameFault);
      if ok then Running(after, st') else Running(RollbackLast(rules, g, after).1, st')
  }

  /** `append_network_block_persist` */
  function Receive(k: Framing<Block>, rules: Rules, p: ConsensusParams, g: Genesis, ch: ChainValue, st: StoreValue,
                   b: Block, now: u64, magicFault: Fault, frameFault: Fault): (n: NodeValue)
  {
    if st.poisoned then Running(ch, st)
    else
      match AppendNetwork(rules, p, ch, b, now)
      case Err(_) => Running(ch, st)
      case Ok(after) => Persist(k, rules, g, ch, after, st, b, magicFault, frameFault)
  }

  /** The block reached memory and disk. */
  predicate Accepted(k: Framing<Block>, rules: Rules, p: ConsensusParams, ch: ChainValue, st: StoreValue,
                     b: Block, now: u64, magicFault: Fault, frameFault: Fault)
  {
    && !st.poisoned
    && AppendNetwork(rules, p, ch, b, now).Ok?
    && k.format.encode(b).Some?
    && AppendPayload(k.sum, st, k.format.encode(b).value, magicFault, frameFault).0
  }

  /** One sealing turn of the main loop; a poisoned store or a failed write stops the process. */
  function SealTurn(k: Framing<Block>, rules: Rules, p: ConsensusParams, g: Genesis, ch: ChainValue, st: StoreValue,
                    q: seq<Transaction>, max: nat, now: u64, magicFault: Fault, frameFault: Fault): (n: NodeValue)
    requires ch.blocks != [] && TipHeight(ch.blocks) < U64_MAX
  {
    if st.poisoned then Stopped(ch, st)
    else
      match Seal(rules, p, ch, q, max, now)
      case Err(_) => Running(ch, st)
      case Ok((None, _)) => Running(ch, st)
      case Ok((Some(_), after)) =>
        if after.blocks == [] then Running(ch, st)
        else
          var b := after.blocks[|after.blocks| - 1];
          StopUnless(after, Persist(k, rules, g, ch, after, st, b, magicFault, frameFault))
  }

  /** The sealing loop goes on only with the block it sealed. */
  function StopUnless(after: ChainValue, n: NodeValue): (r: NodeValue)
  {
    if n.Running? && n.chain != after then Stopped(n.chain, n.store) else n
  }

  datatype Event =
    | ReceiveEvent(block: Block, now: u64, magicFault: Fault, frameFault: Fault)
    | SealEvent(queue: seq<Transaction>, max: nat, now: u64, magicFault: Fault, frameFault: Fault)
    | RestartEvent(repairFault: Fault)

  function NodeStep(k: Framing<Block>, rules: Rules, p: ConsensusParams, g: Genesis, n: NodeValue, e: Event)
    : (r: NodeValue)
  {
    match e
    case RestartEvent(fault) => Boot(k, rules, g, Disk(n), fault)
    case ReceiveEvent(b, now, mf, ff) =>
      if !n.Running? then n else Receive(k, rules, p, g, n.chain, n.store, b, now, mf, ff)
    case SealEvent(q, max, now, mf, ff) =>
      if !n.Running? || n.chain.blocks == [] || TipHeight(n.chain.blocks) == U64_MAX then n
      else SealTurn(k, rules, p, g, n.chain, n.store, q, max, now, mf, ff)
  }

  /** A run starts from any file, with the process down. */
  function NodeRun(k: Framing<Block>, rules: Rules, p: ConsensusParams, g: Genesis, disk: Bytes, events: seq<Event>)
    : (n: NodeValue)
  {
    if events == [] then Halted(disk)
    else NodeStep(k, rules, p, g, NodeRun(k, rules, p, g, disk, events[..|events| - 1]), events[|events| - 1])
  }

  // ---------------------------------------------------------------- crash consistency

  /** `st` is what a failed append of `b` made of a store that held exactly the chain `ch`. */
  ghost predicate FailedAppend(k: Framing<Block>, rules: Rules, ch: ChainValue, st0: StoreValue, b: Block,
          st: StoreValue)
  {
    && ch.blocks != []
    && Stores(k, st0, ch.blocks[1..])
    && Payload(k, b).Some?
    && Append(rules, DEFAULT_PARAMS, ch, b).Ok?
    && Residue(st0.file, Attempt(k.sum, st0, Payload(k, b).value), st.file)
  }

  /**
   Of a process that is up or has stopped: a healthy file is exactly its chain, a poisoned one is its
   chain followed by some prefix of the one write that failed.
   */
  ghost predicate Consistent(k: Framing<Block>, rules: Rules, g: Genesis, n: NodeValue)
  {
    !n.Halted? ==>
      && Canonical(rules, DEFAULT_PARAMS, g, n.chain)
      && (!n.store.poisoned ==> Stores(k, n.store, n.chain.blocks[1..]))
      && (n.store.poisoned ==> exists st0, b :: FailedAppend(k, rules, n.chain, st0, b, n.store))
  }

  lemma BootConsistent(k: Framing<Block>, rules: Rules, g: Genesis, file: Bytes, fault: Fault)
    requires Sound(k)
    ensures Consistent(k, rules, g, Boot(k, rules, g, file, fault))
    ensures var n := Boot(k, rules, g, file, fault); n.Halted? || (n.Running? && !n.store.poisoned)
  {
    if Boot(k, rules, g, file, fault).Running? {
      LoadThenOpen(k, file);
      var items := LoadRepairing(k, file).value.items;
      CanonicalInitial(rules, DEFAULT_PARAMS, g);
      CanonicalAppendAll(rules, DEFAULT_PARAMS, g, Initial(g), items);
      assert ([GENESIS_BLOCK] + items)[1..] == items;
    }
  }

  lemma AppendUnderDefaults(rules: Rules, p: ConsensusParams, ch: ChainValue, b: Block)
    requires Append(rules, p, ch, b).Ok?
    ensures Append(rules, DEFAULT_PARAMS, ch, b) == Append(rules, p, ch, b)
  {
  }

  /** Memory and disk agree after an append whatever happens to its writes. */
  lemma PersistConsistent(k: Framing<Block>, rules: Rules, p: ConsensusParams, g: Genesis, ch: ChainValue,
          st: StoreValue, b: Block, magicFault: Fault, frameFault: Fault)
    requires Sound(k)
    requires Consistent(k, rules, g, Running(ch, st)) && !st.poisoned
    requires Append(rules, p, ch, b).Ok?
    ensures var after := Append(rules, p, ch, b).value;
            Consistent(k, rules, g, Persist(k, rules, g, ch, after, st, b, magicFault, frameFault))
  {
    AppendUnderDefaults(rules, p, ch, b);
    CanonicalAppend(rules, DEFAULT_PARAMS, g, ch, b);
    RollbackLastUndoes(rules, DEFAULT_PARAMS, g, ch, b);
    if k.format.encode(b).Some? {
      var xs := ch.blocks[1..];
      AppendMeaning(k, st, xs, b, magicFault, frameFault);
      TailOfConcat(ch.blocks, [b]);
      var (ok, st') := AppendPayload(k.sum, st, k.format.encode(b).value, magicFault, frameFault);
      if st'.poisoned { assert FailedAppend(k, rules, ch, st, b, st'); }
    }
  }

  lemma StepConsistent(k: Framing<Block>, rules: Rules, p: ConsensusParams, g: Genesis, n: NodeValue, e: Event)
    requires Sound(k)
    requires Consistent(k, rules, g, n)
    ensures Consistent(k, rules, g, NodeStep(k, rules, p, g, n, e))
  {
    match e
    case RestartEvent(fault) => BootConsistent(k, rules, g, Disk(n), fault);
    case ReceiveEvent(b, now, mf, ff) =>
      if n.Running? && !n.store.poisoned && AppendNetwork(rules, p, n.chain, b, now).Ok? {
        PersistConsistent(k, rules, p, g, n.chain, n.store, b, mf, ff);
      }
    case SealEvent(q, max, now, mf, ff) =>
      if n.Running? && TipHeight(n.chain.blocks) < U64_MAX && !n.store.poisoned {
        SealTurnConsistent(k, rules, p, g, n.chain, n.store, q, max, now, mf, ff);
      }
  }

  lemma SealTurnConsistent(k: Framing<Block>, rules: Rules, p: ConsensusParams, g: Genesis, ch: ChainValue,
          st: StoreValue, q: seq<Transaction>, max: nat, now: u64, magicFault: Fault, frameFault: Fault)
    requires Sound(k)
    requires Consistent(k, rules, g, Running(ch, st)) && !st.poisoned && TipHeight(ch.blocks) < U64_MAX
    ensures Consistent(k, rules, g, SealTurn(k, rules, p, g, ch, st, q, max, now, magicFault, frameFault))
  {
    var b := SealTurnCases(k, rules, p, g, ch, st, q, max, now, magicFault, frameFault);
    if b.Some? { PersistConsistent(k, rules, p, g, ch, st, b.value, magicFault, frameFault); }
  }

  /** A sealing turn of a healthy node leaves everything alone, or appends and writes one block. */
  lemma SealTurnCases(k: Framing<Block>, rules: Rules, p: ConsensusParams, g: Genesis, ch: ChainValue, st: StoreValue,
          q: seq<Transaction>, max: nat, now: u64, magicFault: Fault, frameFault: Fault) returns (b: Option<Block>)
    requires ch.blocks != [] && TipHeight(ch.blocks) < U64_MAX && !st.poisoned
    ensures var n := SealTurn(k, rules, p, g, ch, st, q, max, now, magicFault, frameFault);
            match b
            case None => n == Running(ch, st) && Sealing(rules, p, ch, q, max, now) == ch
            case Some(block) =>
              && Append(rules, p, ch, block).Ok?
              && var after := Append(rules, p, ch, block).value;
                 && Sealing(rules, p, ch, q, max, now) == after
                 && n == StopUnless(after, Persist(k, rules, g, ch, after, st, block, magicFault, frameFault))
  {
    var sealing := Seal(rules, p, ch, q, max, now);
    b := None;
    if sealing.Ok? && sealing.value.0.Some? {
      b := Some(Sealed(rules, ch, Select(rules, ch.accounts, q, max).value, now));
      assert sealing.value.1.blocks == ch.blocks + [b.value];
    }
  }

  /** Crash consistency over whole runs: any disk, any blocks, any faults, any number of restarts. */
  lemma {:induction false} EveryRunConsistent(k: Framing<Block>, rules: Rules, p: ConsensusParams, g: Genesis,
          disk: Bytes, events: seq<Event>)
    requires Sound(k)
    ensures Consistent(k, rules, g, NodeRun(k, rules, p, g, disk, events))
  {
    if events != [] {
      EveryRunConsistent(k, rules, p, g, disk, events[..|events| - 1]);
      StepConsistent(k, rules, p, g, NodeRun(k, rules, p, g, disk, events[..|events| - 1]), events[|events| - 1]);
    }
  }

  // ---------------------------------------------------------------- restarts

  /** The process that a restart without further faults would bring up. */
  function Found(k: Framing<Block>, rules: Rules, g: Genesis, n: NodeValue): (r: NodeValue)
  {
    Boot(k, rules, g, Disk(n), None)
  }

  /** Rebooting from a loaded list of blocks that is a canonical chain's own. */
  lemma BootReplays(k: Framing<Block>, rules: Rules, g: Genesis, file: Bytes, ch: ChainValue)
    requires Sound(k)
    requires Canonical(rules, DEFAULT_PARAMS, g, ch)
    requires LoadRepairing(k, file).Ok? && LoadRepairing(k, file).value.items == ch.blocks[1..]
    ensures Boot(k, rules, g, file, None).Running?
    ensures Boot(k, rules, g, file, None).chain == ch
    ensures Boot(k, rules, g, file, None).store.file == LoadRepairing(k, file).value.file
  {
    LoadThenOpen(k, file);
  }

  /** A healthy process, up or stopped, restarts into exactly the chain it had; there is no repair write to fail. */
  lemma HealthyRestart(k: Framing<Block>, rules: Rules, g: Genesis, n: NodeValue, fault: Fault)
    requires Sound(k)
    requires Consistent(k, rules, g, n) && !n.Halted? && !n.store.poisoned
    ensures Boot(k, rules, g, n.store.file, fault) == Found(k, rules, g, n)
    ensures Found(k, rules, g, n).Running?
    ensures Found(k, rules, g, n).chain == n.chain
    ensures Found(k, rules, g, n).store.file == n.store.file
  {
    HealthyReload(k, n.store, n.chain.blocks[1..]);
    BootReplays(k, rules, g, n.store.file, n.chain);
  }

  /**
   A failed append that left `j` bytes of its attempt: the restart loads the chain with the failed
   block exactly when the whole attempt reached the disk, the chain without it exactly when nothing
   of the frame did (or at most three bytes of it behind another frame), and refuses otherwise.
   */
  lemma FailedRestart(k: Framing<Block>, rules: Rules, g: Genesis, ch: ChainValue, st0: StoreValue, b: Block,
          st: StoreValue)
    requires Sound(k)
    requires Canonical(rules, DEFAULT_PARAMS, g, ch)
    requires FailedAppend(k, rules, ch, st0, b, st)
    ensures var attempt := Attempt(k.sum, st0, Payload(k, b).value);
            var j := |st.file| - |st0.file|;
            var n := Boot(k, rules, g, st.file, None);
            if j == |attempt| then n.Running? && n.chain == Append(rules, DEFAULT_PARAMS, ch, b).value
            else if j == 0 || (NeedsMagic(st0) && j == 8) || (|ch.blocks| > 1 && j < 4) then n.Running? && n.chain == ch
            else n == Halted(st.file) && LoadRepairing(k, st.file).Err?
  {
    FailedLoads(k, rules, ch, st0, b, st);
    var j := |st.file| - |st0.file|;
    if j == |Attempt(k.sum, st0, Payload(k, b).value)| {
      CanonicalAppend(rules, DEFAULT_PARAMS, g, ch, b);
      BootReplays(k, rules, g, st.file, Append(rules, DEFAULT_PARAMS, ch, b).value);
    } else if j == 0 || (NeedsMagic(st0) && j == 8) || (|ch.blocks| > 1 && j < 4) {
      BootReplays(k, rules, g, st.file, ch);
    }
  }

  lemma FailedLoads(k: Framing<Block>, rules: Rules, ch: ChainValue, st0: StoreValue, b: Block, st: StoreValue)
    requires Sound(k) && FailedAppend(k, rules, ch, st0, b, st)
    ensures var j := |st.file| - |st0.file|;
            var load := LoadRepairing(k, st.file);
            if j == |Attempt(k.sum, st0, Payload(k, b).value)| then
              load.Ok? && load.value.items == Append(rules, DEFAULT_PARAMS, ch, b).value.blocks[1..]
            else if j == 0 || (NeedsMagic(st0) && j == 8) || (|ch.blocks| > 1 && j < 4) then
              load.Ok? && load.value.items == ch.blocks[1..]
            else load.Err?
  {
    var j := |st.file| - |st0.file|;
    assert st.file == st0.file + Attempt(k.sum, st0, Payload(k, b).value)[..j];
    FailedReload(k, st0, ch.blocks[1..], b, j);
    TailOfConcat(ch.blocks, [b]);
  }

  /** `again` is what a restart may find behind the chain `ch`: a refusal, `ch`, or `ch` and one more block. */
  ghost predicate Finds(rules: Rules, ch: ChainValue, again: NodeValue)
  {
    again.Halted? ||
    (again.Running? && (again.chain == ch || exists b :: Append(rules, DEFAULT_PARAMS, ch, b) == Ok(again.chain)))
  }

  lemma ConsistentFinds(k: Framing<Block>, rules: Rules, g: Genesis, n: NodeValue)
    requires Sound(k) && Consistent(k, rules, g, n) && !n.Halted?
    ensures Finds(rules, n.chain, Found(k, rules, g, n))
    ensures Found(k, rules, g, n).Halted? ==> LoadRepairing(k, Disk(n)).Err?
    ensures !n.store.poisoned ==> Found(k, rules, g, n).Running? && Found(k, rules, g, n).chain == n.chain
  {
    if n.store.poisoned {
      var st0, b :| FailedAppend(k, rules, n.chain, st0, b, n.store);
      FailedRestart(k, rules, g, n.chain, st0, b, n.store);
    } else {
      HealthyRestart(k, rules, g, n, None);
    }
  }

  /**
   At every point of every run, once a process has come up: a restart refuses, or finds the chain it
   had, or that chain and one more block; while its store is healthy, exactly the chain it had.
   */
  lemma RestartAnywhere(k: Framing<Block>, rules: Rules, p: ConsensusParams, g: Genesis, disk: Bytes,
          events: seq<Event>)
    requires Sound(k)
    requires !NodeRun(k, rules, p, g, disk, events).Halted?
    ensures var n := NodeRun(k, rules, p, g, disk, events);
            && Finds(rules, n.chain, Found(k, rules, g, n))
            && (!n.store.poisoned ==> Found(k, rules, g, n).Running? && Found(k, rules, g, n).chain == n.chain)
  {
    EveryRunConsistent(k, rules, p, g, disk, events);
    ConsistentFinds(k, rules, g, NodeRun(k, rules, p, g, disk, events));
  }

  /** The chain that a sealing attempt is about to commit. */
  function Sealing(rules: Rules, p: ConsensusParams, ch: ChainValue, q: seq<Transaction>, max: nat, now: u64)
    : (after: ChainValue)
    requires ch.blocks != [] && TipHeight(ch.blocks) < U64_MAX
  {
    match Seal(rules, p, ch, q, max, now)
    case Ok((Some(_), after)) => after
    case _ => ch
  }

  /**
   After a sealing turn of a healthy node, with any fault at any byte: a restart refuses, or finds the
   chain from before the turn, or the chain with the sealed block. A turn that goes on has committed
   the sealed chain, and a restart finds exactly that.
   */
  lemma SealRestart(k: Framing<Block>, rules: Rules, p: ConsensusParams, g: Genesis, ch: ChainValue, st: StoreValue,
          q: seq<Transaction>, max: nat, now: u64, magicFault: Fault, frameFault: Fault)
    requires Sound(k)
    requires Consistent(k, rules, g, Running(ch, st)) && !st.poisoned && TipHeight(ch.blocks) < U64_MAX
    ensures var n := SealTurn(k, rules, p, g, ch, st, q, max, now, magicFault, frameFault);
            var after := Sealing(rules, p, ch, q, max, now);
            && !n.Halted? && (n.chain == ch || n.chain == after)
            && FindsEither(k, rules, g, ch, after, n)
            && (n.Running? ==> n.chain == after && !n.store.poisoned)
  {
    var b := SealTurnCases(k, rules, p, g, ch, st, q, max, now, magicFault, frameFault);
    if b.Some? {
      var after := Append(rules, p, ch, b.value).value;
      PersistFinds(k, rules, p, g, ch, st, b.value, magicFault, frameFault);
      assert |after.blocks| == |ch.blocks| + 1;
      var n := Persist(k, rules, g, ch, after, st, b.value, magicFault, frameFault);
      StopFinds(k, rules, g, ch, after, st, b.value, n);
    } else {
      HealthyFinds(k, rules, g, Running(ch, st), ch);
    }
  }

  lemma HealthyFinds(k: Framing<Block>, rules: Rules, g: Genesis, n: NodeValue, after: ChainValue)
    requires Sound(k) && Consistent(k, rules, g, n) && !n.Halted? && !n.store.poisoned
    ensures FindsEither(k, rules, g, n.chain, after, n)
  {
    HealthyRestart(k, rules, g, n, None);
  }

  lemma StopFinds(k: Framing<Block>, rules: Rules, g: Genesis, ch: ChainValue, after: ChainValue, st: StoreValue,
          b: Block, n: NodeValue)
    requires ch != after && Settled(k, rules, g, ch, after, st, b, n) && FindsEither(k, rules, g, ch, after, n)
    ensures var stop := StopUnless(after, n);
            && !stop.Halted? && FindsEither(k, rules, g, ch, after, stop)
            && (stop.chain == ch || (stop.Running? && stop.chain == after))
            && (stop.Running? ==> stop.chain == after && !stop.store.poisoned)
  {
    assert Found(k, rules, g, StopUnless(after, n)) == Found(k, rules, g, n);
  }

  /** What memory holds after block `b` was written behind the healthy file of `ch`. */
  ghost predicate Settled(k: Framing<Block>, rules: Rules, g: Genesis, ch: ChainValue, after: ChainValue,
          st: StoreValue, b: Block, n: NodeValue)
  {
    && !n.Halted? && Consistent(k, rules, g, n)
    && (n.store.poisoned ==> n.chain == ch && FailedAppend(k, rules, ch, st, b, n.store))
    && (n.chain == ch || (n.Running? && n.chain == after && !n.store.poisoned))
  }

  lemma PersistSettles(k: Framing<Block>, rules: Rules, p: ConsensusParams, g: Genesis, ch: ChainValue, st: StoreValue,
          b: Block, magicFault: Fault, frameFault: Fault)
    requires Sound(k)
    requires Consistent(k, rules, g, Running(ch, st)) && !st.poisoned
    requires Append(rules, p, ch, b).Ok?
    ensures var after := Append(rules, p, ch, b).value;
            Settled(k, rules, g, ch, after, st, b, Persist(k, rules, g, ch, after, st, b, magicFault, frameFault))
  {
    AppendUnderDefaults(rules, p, ch, b);
    PersistConsistent(k, rules, p, g, ch, st, b, magicFault, frameFault);
    RollbackLastUndoes(rules, DEFAULT_PARAMS, g, ch, b);
    if k.format.encode(b).Some? { AppendMeaning(k, st, ch.blocks[1..], b, magicFault, frameFault); }
  }

  /** What a restart then finds: what memory holds, or the other of the two chains, or nothing it can load. */
  ghost predicate FindsEither(k: Framing<Block>, rules: Rules, g: Genesis, ch: ChainValue, after: ChainValue,
          n: NodeValue)
  {
    var again := Found(k, rules, g, n);
    && !again.Stopped?
    && (again.Running? ==> again.chain == ch || again.chain == after)
    && (again.Halted? ==> LoadRepairing(k, Disk(n)).Err?)
    && (!n.Halted? && !n.store.poisoned ==> again.Running? && again.chain == n.chain)
  }

  lemma SettledFinds(k: Framing<Block>, rules: Rules, g: Genesis, ch: ChainValue, after: ChainValue, st: StoreValue,
          b: Block, n: NodeValue)
    requires Sound(k) && Canonical(rules, DEFAULT_PARAMS, g, ch)
    requires Append(rules, DEFAULT_PARAMS, ch, b) == Ok(after) && Settled(k, rules, g, ch, after, st, b, n)
    ensures FindsEither(k, rules, g, ch, after, n)
  {
    if n.store.poisoned {
      FailedRestart(k, rules, g, ch, st, b, n.store);
    } else {
      HealthyRestart(k, rules, g, n, None);
    }
  }

  /** Writing a block behind a healthy file, with any fault: what memory and the next restart then hold. */
  lemma PersistFinds(k: Framing<Block>, rules: Rules, p: ConsensusParams, g: Genesis, ch: ChainValue, st: StoreValue,
          b: Block, magicFault: Fault, frameFault: Fault)
    requires Sound(k)
    requires Consistent(k, rules, g, Running(ch, st)) && !st.poisoned
    requires Append(rules, p, ch, b).Ok?
    ensures var after := Append(rules, p, ch, b).value;
            var n := Persist(k, rules, g, ch, after, st, b, magicFault, frameFault);
            Settled(k, rules, g, ch, after, st, b, n) && FindsEither(k, rules, g, ch, after, n)
  {
    var after := Append(rules, p, ch, b).value;
    AppendUnderDefaults(rules, p, ch, b);
    PersistSettles(k, rules, p, g, ch, st, b, magicFault, frameFault);
    SettledFinds(k, rules, g, ch, after, st, b, Persist(k, rules, g, ch, after, st, b, magicFault, frameFault));
  }

  /** The node as built: SHA-256 and Ed25519 rules, canonical block encoding, CRC-32 frames. */
  lemma RunningNodeConsistent(c: Crypto, p: ConsensusParams, g: Genesis, disk: Bytes, events: seq<Event>)
    ensures Consistent(BLOCK_FRAMING, StandardRules(c), g, NodeRun(BLOCK_FRAMING, StandardRules(c), p, g, disk, events))
  {
    BlockFramingSound();
    EveryRunConsistent(BLOCK_FRAMING, StandardRules(c), p, g, disk, events);
  }

  // ---------------------------------------------------------------- the mutable node

  /** `NetworkBlockPersistFailure`, and success. */
  datatype Persisted = Stored | StorePoisoned | PeerRejected(error: ProtocolError) | PersistAfterApply | RollbackFailed

  class NodeInner {
    const framing: Framing<Block>
    const genesis: Genesis
    const chain: Blockchain
    const store: BlockStore

    ghost predicate Wired()
      reads store, chain
    {
      store.sum == framing.sum && chain.blocks != []
    }

    ghost function Value(): (n: NodeValue)
      reads chain, store
    {
      Running(chain.Value(), store.Value())
    }

    constructor (framing: Framing<Block>, genesis: Genesis, chain: Blockchain, store: BlockStore)
      ensures this.framing == framing && this.genesis == genesis
      ensures this.chain == chain && this.store == store
    {
      this.framing := framing;
      this.genesis := genesis;
      this.chain := chain;
      this.store := store;
    }

    /** A block the encoder can print: every block decoded from the wire is one. */
    method AppendNetworkBlockPersist(b: Block, now: u64, magicFault: Fault, frameFault: Fault) returns (r: Persisted)
      requires Wired() && framing.format.encode(b).Some?
      modifies chain, store
      ensures Value() == Receive(framing, chain.rules, chain.params, genesis, old(chain.Value()), old(store.Value()),
                                 b, now, magicFault, frameFault)
      ensures Wired() && chain.params == old(chain.params)
      ensures r.Stored? <==>
        Accepted(framing, chain.rules, chain.params, old(chain.Value()), old(store.Value()), b, now,
                 magicFault, frameFault)
      ensures r.Stored? ==>
        AppendNetwork(chain.rules, chain.params, old(chain.Value()), b, now) == Ok(chain.Value()) && !store.poisoned
      ensures Canonical(chain.rules, DEFAULT_PARAMS, genesis, old(chain.Value())) ==>
        !r.RollbackFailed? && (!r.Stored? ==> chain.Value() == old(chain.Value()))
    {
      if store.poisoned {
        return StorePoisoned;
      }
      var appended := chain.TryAppendNetworkBlock(b, now);
      if appended.Fail? {
        return PeerRejected(appended.error);
      }
      AppendUnderDefaults(chain.rules, chain.params, old(chain.Value()), b);
      var stored := store.Append(framing.format.encode(b).value, magicFault, frameFault);
      if stored {
        return Stored;
      }
      if Canonical(chain.rules, DEFAULT_PARAMS, genesis, old(chain.Value())) {
        RollbackLastUndoes(chain.rules, DEFAULT_PARAMS, genesis, old(chain.Value()), b);
      }
      var undone := chain.RollbackLastBlock(genesis);
      if undone.Fail? {
        return RollbackFailed;
      }
      r := PersistAfterApply;
    }
  }

  // ---------------------------------------------------------------- sealing after hygiene

  /** A sealing turn after hygiene is never refused over a nonce. */
  lemma SealAfterHygiene(rules: Rules, p: ConsensusParams, g: Genesis, ch: ChainValue, q: seq<Transaction>, max: nat,
          now: u64)
    requires Canonical(rules, DEFAULT_PARAMS, g, ch) && TipHeight(ch.blocks) < U64_MAX
    requires Orderly(rules, q)
    ensures Seal(rules, p, ch, Hygiene(rules, ch.accounts, q), max, now) != Err(InvalidNonce)
  {
    HygieneMeaning(rules, ch.accounts, q);
    HygieneThenSelect(rules, ch.accounts, q, max);
    SealBySelection(rules, p, g, ch, Hygiene(rules, ch.accounts, q), max, now);
  }

  /** Sealing meets a stale nonce only if selection does. */
  lemma SealBySelection(rules: Rules, p: ConsensusParams, g: Genesis, ch: ChainValue, q: seq<Transaction>, max: nat,
          now: u64)
    requires Canonical(rules, DEFAULT_PARAMS, g, ch) && TipHeight(ch.blocks) < U64_MAX
    requires Orderly(rules, q) && Select(rules, ch.accounts, q, max) != Err(InvalidNonce)
    ensures Seal(rules, p, ch, q, max, now) != Err(InvalidNonce)
  {
    if Select(rules, ch.accounts, q, max).Ok? { SealAccepted(rules, DEFAULT_PARAMS, p, g, ch, q, max, now); }
  }

  lemma CanonicalUnderDefaults(rules: Rules, p: ConsensusParams, g: Genesis, ch: ChainValue)
    requires Canonical(rules, p, g, ch)
    ensures Canonical(rules, DEFAULT_PARAMS, g, ch)
  {
    DefaultsAccept(rules, p, Initial(g), ch.blocks[1..]);
  }

  /** Whatever the chain and the pool went through, sealing after hygiene never meets a stale nonce. */
  lemma NeverStaleInAnyRun(rules: Rules, p: ConsensusParams, g: Genesis, chainOps: seq<ChainOp>, capacity: nat,
          poolOps: seq<PoolOp>, max: nat, now: u64)
    requires ValidateGenesis(g).Pass? && TipHeight(Run(rules, p, g, chainOps).blocks) < U64_MAX
    ensures Run(rules, p, g, chainOps).blocks != []
    ensures var ch := Run(rules, p, g, chainOps);
            var clean := Hygiene(rules, ch.accounts, PoolRun(rules, capacity, poolOps));
            Seal(rules, p, ch, clean, max, now) != Err(InvalidNonce)
  {
    EveryRunCanonical(rules, p, g, chainOps);
    EveryPoolRunOrderly(rules, capacity, poolOps);
    CanonicalUnderDefaults(rules, p, g, Run(rules, p, g, chainOps));
    SealAfterHygiene(rules, p, g, Run(rules, p, g, chainOps), PoolRun(rules, capacity, poolOps), max, now);
  }

  // ---------------------------------------------------------------- pool and history

  /** In a reachable chain every spent nonce is below its sender's current one. */
  lemma SpentNonce(rules: Rules, p: ConsensusParams, g: Genesis, ch: ChainValue, j: nat)
    requires Canonical(rules, p, g, ch) && j < |History(ch)|
    ensures History(ch)[j].sender in ch.accounts
    ensures History(ch)[j].nonce < ch.accounts[History(ch)[j].sender].nonce
  {
    var h := History(ch);
    var a := h[j].sender;
    NoncesCountHistory(rules, p, g, ch);
    SentMonotone(h, j + 1, |h|, a);
    assert h[..j + 1] == h[..j] + [h[j]] && h[..|h|] == h;
    SentAppend(h[..j], [h[j]], a);
  }

  /** After hygiene against a reachable chain no pool entry repeats a sender and nonce of its history. */
  lemma PoolNeverRepeatsHistory(rules: Rules, p: ConsensusParams, g: Genesis, ch: ChainValue, q: seq<Transaction>,
          tx: Transaction, j: nat)
    requires Canonical(rules, p, g, ch) && Orderly(rules, q)
    requires tx in Hygiene(rules, ch.accounts, q) && j < |History(ch)|
    ensures !SameSlot(tx, History(ch)[j])
  {
    HygieneMeaning(rules, ch.accounts, q);
    SpentNonce(rules, p, g, ch, j);
  }
}
