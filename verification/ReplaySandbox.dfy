/** Dry run of a reorganisation plan on a copy of the ledger, and what its verdict means for the chain. */
module ReplaySandbox {
  import opened Prelude
  import opened Protocol
  import opened Ledger
  import opened Chain
  import opened BlockIndex
  import opened ReorgPlan
  import opened Fingerprint

  type Bodies = map<Str, Block>

  datatype Material = Material(
    stateAtFork: Accounts,
    blocks: Bodies,
    expectedOldTip: Option<Accounts>,
    params: ConsensusParams,
    parents: Bodies)

  datatype LinkMismatch =
    | BlockHashKey(key: Str) | MissingIndexEntry(block: Str) | HeightField(block: Str)
    | ParentField(block: Str) | ParentBlockHash(key: Str)

  datatype ReplayFault =
    | MissingExpectedOldTipState
    | MissingBlockBody(block: Str)
    | IndexLinkMismatch(mismatch: LinkMismatch)
    | OldTipStateMismatch
    | BasicValidation(block: Str, error: ProtocolError)
    | StateTransition(block: Str, error: ProtocolError)
    | SupplyAudit(error: ProtocolError)
    | MissingParentBlock(parent: Str)
    | TimestampPolicy(block: Str, error: ProtocolError)

  type ReplayResult = Result<Accounts, ReplayFault>

  /** What the sandbox takes from outside: the protocol rules, the index and the digest. */
  datatype World = World(rules: Rules, idx: Index, hash: Bytes -> Str)

  // ---------------------------------------------------------------- one block

  /** `validate_block_against_index` */
  function CheckAgainstIndex(idx: Index, b: Block, h: Str): (r: Option<ReplayFault>)
  {
    if b.blockHash != h then Some(IndexLinkMismatch(BlockHashKey(h)))
    else if h !in idx then Some(IndexLinkMismatch(MissingIndexEntry(h)))
    else if b.height != idx[h].height then Some(IndexLinkMismatch(HeightField(h)))
    else if b.previousHash != idx[h].parent then Some(IndexLinkMismatch(ParentField(h)))
    else None
  }

  /** `resolve_parent_block` */
  function ResolveParent(m: Material, key: Str): (r: Result<Block, ReplayFault>)
  {
    if key !in m.parents && key !in m.blocks then Err(MissingParentBlock(key))
    else
      var parent := if key in m.parents then m.parents[key] else m.blocks[key];
      if parent.blockHash != key then Err(IndexLinkMismatch(ParentBlockHash(key))) else Ok(parent)
  }

  /** `validate_timestamp_vs_parent` */
  function CheckTimestamp(m: Material, b: Block, h: Str): (r: Option<ReplayFault>)
  {
    if b.height == 0 then None
    else
      match ResolveParent(m, b.previousHash)
      case Err(e) => Some(e)
      case Ok(parent) =>
        match ValidateTimestamp(parent, b, m.params)
        case Fail(e) => Some(TimestampPolicy(h, e))
        case Pass => None
  }

  /** `apply_block_to_state` */
  function ReplayBlock(w: World, m: Material, s: Accounts, b: Block, h: Str): (r: ReplayResult)
  {
    match CheckAgainstIndex(w.idx, b, h)
    case Some(e) => Err(e)
    case None =>
      match CheckTimestamp(m, b, h)
      case Some(e) => Err(e)
      case None =>
        match ValidateBlock(w.rules, b)
        case Fail(e) => Err(BasicValidation(h, e))
        case Pass =>
          match ApplyAll(w.rules, s, b.transactions)
          case Err(e) => Err(StateTransition(h, e))
          case Ok(s') => Ok(s')
  }

  // ---------------------------------------------------------------- a branch

  ghost predicate Supplied(m: Material, hs: seq<Str>)
  {
    forall h :: h in hs ==> h in m.blocks
  }

  function ReplayBranch(w: World, m: Material, s: Accounts, hs: seq<Str>): (r: ReplayResult)
    requires Supplied(m, hs)
    decreases |hs|
  {
    if hs == [] then Ok(s)
    else
      match ReplayBlock(w, m, s, m.blocks[hs[0]], hs[0])
      case Err(e) => Err(e)
      case Ok(s') => ReplayBranch(w, m, s', hs[1..])
  }

  function BodiesOf(m: Material, hs: seq<Str>): (r: seq<Block>)
    requires Supplied(m, hs)
    ensures |r| == |hs|
    ensures forall i :: 0 <= i < |hs| ==> r[i] == m.blocks[hs[i]]
  {
    seq(|hs|, i requires 0 <= i < |hs| => m.blocks[hs[i]])
  }

  /** Every body declares the hash it is filed under. */
  ghost predicate Keyed(m: Material, hs: seq<Str>)
    requires Supplied(m, hs)
  {
    forall h :: h in hs ==> m.blocks[h].blockHash == h
  }

  /** The headers filed as parents are the blocks they stand for: the tip at the fork, and the bodies above it. */
  ghost predicate TrueParents(m: Material, tip: Block, hs: seq<Str>)
  {
    && (tip.blockHash in m.parents || tip.blockHash in m.blocks)
    && (tip.blockHash in m.parents ==> m.parents[tip.blockHash] == tip)
    && (tip.blockHash !in m.parents && tip.blockHash in m.blocks ==> m.blocks[tip.blockHash] == tip)
    && (forall h :: h in hs && h in m.parents && h in m.blocks ==> m.parents[h] == m.blocks[h])
  }

  function Tip(ch: ChainValue): (b: Block)
    requires ch.blocks != []
  {
    ch.blocks[|ch.blocks| - 1]
  }

  /** The index agrees with the tip it is asked to extend. */
  ghost predicate Anchored(idx: Index, tip: Block)
  {
    tip.blockHash in idx && idx[tip.blockHash].height == tip.height
  }

  /** A rooted block is a height-0 block without parent, or stands one above its parent. */
  lemma RootedStep(idx: Index, h: Str)
    requires Rooted(idx, h)
    ensures h in idx
    ensures idx[h].height == 0 ==> idx[h].parent == []
    ensures idx[h].height > 0 ==> idx[h].parent in idx && idx[h].height == idx[idx[h].parent].height + 1
  {
  }

  /** One block: the sandbox and the chain agree, but for the key the sandbox also checks. */
  lemma BlockAgrees(w: World, m: Material, ch: ChainValue, b: Block, h: Str)
    requires ch.blocks != [] && Anchored(w.idx, Tip(ch)) && ResolveParent(m, Tip(ch).blockHash) == Ok(Tip(ch))
    requires Rooted(w.idx, h) && ParentIs(w.idx, h, Tip(ch).blockHash)
    ensures ReplayBlock(w, m, ch.accounts, b, h).Ok? <==> b.blockHash == h && Append(w.rules, m.params, ch, b).Ok?
    ensures ReplayBlock(w, m, ch.accounts, b, h).Ok? ==>
      var next := Append(w.rules, m.params, ch, b).value;
      && next.accounts == ReplayBlock(w, m, ch.accounts, b, h).value
      && Tip(next) == b && Anchored(w.idx, b)
  {
    RootedStep(w.idx, h);
  }

  lemma BodiesTail(m: Material, hs: seq<Str>)
    requires Supplied(m, hs) && hs != []
    ensures Supplied(m, hs[1..]) && BodiesOf(m, hs)[1..] == BodiesOf(m, hs[1..])
  {
  }

  lemma ParentFirstTail(idx: Index, hs: seq<Str>, fork: Str)
    requires ParentFirst(idx, hs, fork) && hs != []
    ensures ParentIs(idx, hs[0], fork) && ParentFirst(idx, hs[1..], hs[0])
  {
    var rest := hs[1..];
    assert ParentIs(idx, hs[0], Before(hs, fork, 0));
    forall i | 0 <= i < |rest| ensures ParentIs(idx, rest[i], Before(rest, hs[0], i)) {
      assert ParentIs(idx, hs[i + 1], Before(hs, fork, i + 1));
    }
  }

  lemma AppendAllFirst(rules: Rules, p: ConsensusParams, ch: ChainValue, bs: seq<Block>)
    requires bs != []
    ensures AppendAll(rules, p, ch, bs).Ok? <==>
      Append(rules, p, ch, bs[0]).Ok? && AppendAll(rules, p, Append(rules, p, ch, bs[0]).value, bs[1..]).Ok?
    ensures AppendAll(rules, p, ch, bs).Ok? ==>
      AppendAll(rules, p, ch, bs) == AppendAll(rules, p, Append(rules, p, ch, bs[0]).value, bs[1..])
  {
  }

  /** A whole branch: the sandbox accepts it exactly when its bodies are keyed and the chain accepts them. */
  lemma {:induction false} BranchAgrees(w: World, m: Material, ch: ChainValue, hs: seq<Str>)
    requires Supplied(m, hs)
    requires ch.blocks != [] && Anchored(w.idx, Tip(ch)) && TrueParents(m, Tip(ch), hs)
    requires AllRooted(w.idx, hs) && ParentFirst(w.idx, hs, Tip(ch).blockHash)
    ensures ReplayBranch(w, m, ch.accounts, hs).Ok? <==>
      Keyed(m, hs) && AppendAll(w.rules, m.params, ch, BodiesOf(m, hs)).Ok?
    ensures ReplayBranch(w, m, ch.accounts, hs).Ok? ==>
      AppendAll(w.rules, m.params, ch, BodiesOf(m, hs)).value.accounts == ReplayBranch(w, m, ch.accounts, hs).value
    decreases |hs|
  {
    if hs != [] {
      var h, bs := hs[0], BodiesOf(m, hs);
      var b := m.blocks[h];
      ParentFirstTail(w.idx, hs, Tip(ch).blockHash);
      BodiesTail(m, hs);
      BlockAgrees(w, m, ch, b, h);
      AppendAllFirst(w.rules, m.params, ch, bs);
      KeyedSplit(m, hs);
      if ReplayBlock(w, m, ch.accounts, b, h).Ok? {
        BranchAgrees(w, m, Append(w.rules, m.params, ch, b).value, hs[1..]);
      }
    }
  }

  lemma KeyedSplit(m: Material, hs: seq<Str>)
    requires Supplied(m, hs) && hs != []
    ensures Supplied(m, hs[1..])
    ensures Keyed(m, hs) <==> m.blocks[hs[0]].blockHash == hs[0] && Keyed(m, hs[1..])
  {
    assert hs == [hs[0]] + hs[1..];
  }

  // ---------------------------------------------------------------- the whole dry run

  datatype Report = Report(rollbackVerified: nat, applySimulated: nat, fingerprint: Str, supply: u64)

  function FirstMissing(m: Material, hs: seq<Str>): (r: Option<Str>)
    ensures r.None? <==> Supplied(m, hs)
    ensures r.Some? ==> exists i :: 0 <= i < |hs| && hs[i] == r.value && r.value !in m.blocks && Supplied(m, hs[..i])
  {
    if hs == [] then None
    else if hs[0] !in m.blocks then
      assert hs[..0] == [];
      Some(hs[0])
    else
      assert hs == [hs[0]] + hs[1..];
      assert forall i :: 0 <= i < |hs[1..]| ==> hs[1..][i] == hs[i + 1] && hs[..i + 1] == [hs[0]] + hs[1..][..i];
      FirstMissing(m, hs[1..])
  }

  /** The old branch, forward from the fork, must end in the ledger the caller expects. */
  ghost function CheckOldBranch(w: World, m: Material, p: Plan): (r: Option<ReplayFault>)
    requires Supplied(m, Reversed(p.rollback)) && (p.rollback != [] ==> m.expectedOldTip.Some?)
  {
    if p.rollback == [] then None
    else
      match ReplayBranch(w, m, m.stateAtFork, Reversed(p.rollback))
      case Err(e) => Some(e)
      case Ok(s) =>
        if w.hash(Preimage(s)) != w.hash(Preimage(m.expectedOldTip.value)) then Some(OldTipStateMismatch) else None
  }

  /** The new branch, and the audit of the ledger it ends in. */
  ghost function Simulate(w: World, m: Material, p: Plan): (r: Result<Report, ReplayFault>)
    requires Supplied(m, p.apply)
  {
    match ReplayBranch(w, m, m.stateAtFork, p.apply)
    case Err(e) => Err(e)
    case Ok(s) =>
      if Total(s) > U64_MAX then Err(SupplyAudit(StateError(TotalOverflow)))
      else Ok(Report(|p.rollback|, |p.apply|, w.hash(Preimage(s)), Total(s)))
  }

  lemma SuppliedParts(m: Material, p: Plan)
    requires Supplied(m, p.rollback + p.apply)
    ensures Supplied(m, p.rollback) && Supplied(m, Reversed(p.rollback)) && Supplied(m, p.apply)
  {
    SameMembers(p.rollback);
  }

  /** `run_replay_on_clones` */
  ghost function RunReplay(w: World, m: Material, p: Plan): (r: Result<Report, ReplayFault>)
  {
    if p.rollback != [] && m.expectedOldTip.None? then Err(MissingExpectedOldTipState)
    else
      match FirstMissing(m, p.rollback + p.apply)
      case Some(h) => Err(MissingBlockBody(h))
      case None =>
        SuppliedParts(m, p);
        match CheckOldBranch(w, m, p)
        case Some(e) => Err(e)
        case None => Simulate(w, m, p)
  }

  /** What is missing is told before anything is replayed, the expected ledger first. */
  lemma MissingExact(w: World, m: Material, p: Plan)
    ensures RunReplay(w, m, p) == Err(MissingExpectedOldTipState) <==>
      p.rollback != [] && m.expectedOldTip.None?
    ensures p.rollback == [] || m.expectedOldTip.Some? ==>
      ((exists h :: h in p.rollback + p.apply && h !in m.blocks) ==>
         RunReplay(w, m, p).Err? && RunReplay(w, m, p).error.MissingBlockBody?
         && RunReplay(w, m, p).error.block !in m.blocks)
  {
    assert Supplied(m, p.rollback + p.apply) <==> forall h :: h in p.rollback + p.apply ==> h in m.blocks;
    if Supplied(m, p.rollback + p.apply) {
      SuppliedParts(m, p);
      NeverMissing(w, m, m.stateAtFork, Reversed(p.rollback));
      NeverMissing(w, m, m.stateAtFork, p.apply);
    }
  }

  lemma {:induction false} NeverMissing(w: World, m: Material, s: Accounts, hs: seq<Str>)
    requires Supplied(m, hs)
    ensures ReplayBranch(w, m, s, hs) != Err(MissingExpectedOldTipState)
    decreases |hs|
  {
    if hs != [] {
      var r := ReplayBlock(w, m, s, m.blocks[hs[0]], hs[0]);
      if r.Ok? { NeverMissing(w, m, r.value, hs[1..]); }
    }
  }

  // ---------------------------------------------------------------- what the verdict means

  /** Index, material and chain describe the same fork. */
  ghost predicate Prepared(w: World, m: Material, ch: ChainValue, p: Plan)
  {
    && PlanOk(w.idx, p)
    && ch.blocks != [] && Tip(ch).blockHash == p.fork && Anchored(w.idx, Tip(ch)) && m.stateAtFork == ch.accounts
    && TrueParents(m, Tip(ch), p.rollback) && TrueParents(m, Tip(ch), p.apply)
  }

  lemma ForwardRollback(idx: Index, p: Plan)
    requires PlanOk(idx, p)
    ensures AllRooted(idx, Reversed(p.rollback)) && ParentFirst(idx, Reversed(p.rollback), p.fork)
  {
    SameMembers(p.rollback);
    ReversedTwice(p.rollback);
    ParentFirstReversed(idx, Reversed(p.rollback), p.fork);
  }

  /** The old branch passes: it is keyed, accepted by the chain, and ends where expected. */
  ghost predicate OldBranchHolds(w: World, m: Material, ch: ChainValue, p: Plan)
    requires Supplied(m, Reversed(p.rollback))
  {
    p.rollback == [] ||
    (var past := AppendAll(w.rules, m.params, ch, BodiesOf(m, Reversed(p.rollback)));
     && m.expectedOldTip.Some? && Keyed(m, Reversed(p.rollback)) && past.Ok?
     && w.hash(Preimage(past.value.accounts)) == w.hash(Preimage(m.expectedOldTip.value)))
  }

  /** The new branch passes: it is keyed, accepted by the chain, and its supply fits 64 bits. */
  ghost predicate NewBranchHolds(w: World, m: Material, ch: ChainValue, p: Plan)
    requires Supplied(m, p.apply)
  {
    var grown := AppendAll(w.rules, m.params, ch, BodiesOf(m, p.apply));
    Keyed(m, p.apply) && grown.Ok? && Total(grown.value.accounts) <= U64_MAX
  }

  lemma OldBranchAgrees(w: World, m: Material, ch: ChainValue, p: Plan)
    requires Prepared(w, m, ch, p)
    requires Supplied(m, Reversed(p.rollback)) && (p.rollback != [] ==> m.expectedOldTip.Some?)
    ensures CheckOldBranch(w, m, p).None? <==> OldBranchHolds(w, m, ch, p)
  {
    if p.rollback != [] {
      ForwardRollback(w.idx, p);
      SameMembers(p.rollback);
      BranchAgrees(w, m, ch, Reversed(p.rollback));
    }
  }

  lemma NewBranchAgrees(w: World, m: Material, ch: ChainValue, p: Plan)
    requires Prepared(w, m, ch, p) && Supplied(m, p.apply)
    ensures Simulate(w, m, p).Ok? <==> NewBranchHolds(w, m, ch, p)
    ensures Simulate(w, m, p).Ok? ==>
      var s := AppendAll(w.rules, m.params, ch, BodiesOf(m, p.apply)).value.accounts;
      Simulate(w, m, p).value == Report(|p.rollback|, |p.apply|, w.hash(Preimage(s)), Total(s))
  {
    BranchAgrees(w, m, ch, p.apply);
  }

  lemma RunReplayStages(w: World, m: Material, p: Plan)
    requires Supplied(m, p.apply) && Supplied(m, Reversed(p.rollback)) && (p.rollback != [] ==> m.expectedOldTip.Some?)
    ensures RunReplay(w, m, p) == match CheckOldBranch(w, m, p) case Some(e) => Err(e) case None => Simulate(w, m, p)
  {
    SameMembers(p.rollback);
    assert Supplied(m, p.rollback + p.apply);
  }

  lemma RunReplayNeeds(w: World, m: Material, p: Plan)
    requires RunReplay(w, m, p).Ok?
    ensures Supplied(m, p.apply) && Supplied(m, Reversed(p.rollback)) && (p.rollback != [] ==> m.expectedOldTip.Some?)
  {
    SuppliedParts(m, p);
  }

  /** The dry run succeeds exactly when the chain would take both branches; it reports the chain's ledger. */
  lemma VerdictExact(w: World, m: Material, ch: ChainValue, p: Plan)
    requires Prepared(w, m, ch, p)
    ensures RunReplay(w, m, p).Ok? <==>
      && Supplied(m, p.apply) && Supplied(m, Reversed(p.rollback))
      && OldBranchHolds(w, m, ch, p) && NewBranchHolds(w, m, ch, p)
    ensures RunReplay(w, m, p).Ok? ==>
      var s := AppendAll(w.rules, m.params, ch, BodiesOf(m, p.apply)).value.accounts;
      RunReplay(w, m, p).value == Report(|p.rollback|, |p.apply|, w.hash(Preimage(s)), Total(s))
  {
    if RunReplay(w, m, p).Ok? { RunReplayNeeds(w, m, p); }
    if Supplied(m, p.apply) && Supplied(m, Reversed(p.rollback)) && (p.rollback != [] ==> m.expectedOldTip.Some?) {
      RunReplayStages(w, m, p);
      OldBranchAgrees(w, m, ch, p);
      NewBranchAgrees(w, m, ch, p);
    }
  }

  /** Material cut from a live chain: `live` holds the fork at height `k` and the old branch above it. */
  ghost predicate CutFrom(w: World, m: Material, g: Genesis, live: ChainValue, k: nat, p: Plan)
    requires Supplied(m, Reversed(p.rollback))
  {
    && Canonical(w.rules, m.params, g, live) && k < |live.blocks|
    && BodiesOf(m, Reversed(p.rollback)) == live.blocks[k + 1..]
    && m.expectedOldTip == Some(live.accounts)
  }

  /** The report of a dry run describes the chain after the reorganisation. */
  ghost predicate Foretells(w: World, g: Genesis, dry: Result<Report, ReplayFault>, reorg: ChainResult)
  {
    && (dry.Ok? <==> reorg.Ok?)
    && (dry.Ok? && reorg.Ok? ==>
          && reorg.value.blocks != []
          && dry.value.fingerprint == w.hash(Preimage(reorg.value.accounts))
          && dry.value.supply == Total(reorg.value.accounts) == Allocated(g) - Fees(History(reorg.value)))
  }

  /**
   On material cut from the live chain the dry run foretells the reorganisation: rolling the chain
   back to the fork succeeds, and the dry run passes exactly when the chain then takes the new
   branch, reporting the ledger and the supply the chain ends with.
   */
  lemma DryRunForetellsReorg(w: World, m: Material, g: Genesis, live: ChainValue, k: u64, p: Plan)
    requires Supplied(m, Reversed(p.rollback)) && Supplied(m, p.apply)
    requires Keyed(m, Reversed(p.rollback)) && Keyed(m, p.apply)
    requires CutFrom(w, m, g, live, k, p) && Allocated(g) <= U64_MAX
    requires AtLength(w.rules, m.params, g, live, k + 1).Ok?
    requires Prepared(w, m, AtLength(w.rules, m.params, g, live, k + 1).value, p)
    ensures RollbackTo(w.rules, g, live, k).0 == Pass
    ensures Foretells(w, g, RunReplay(w, m, p),
                      AppendAll(w.rules, m.params, RollbackTo(w.rules, g, live, k).1, BodiesOf(m, p.apply)))
  {
    var base := AtLength(w.rules, m.params, g, live, k + 1).value;
    CanonicalLinked(w.rules, m.params, g, live);
    RollbackReturns(w.rules, m.params, g, live, k);
    CanonicalPrefix(w.rules, m.params, g, live, k + 1);
    VerdictExact(w, m, base, p);
    SupplyOfBranch(w.rules, m.params, g, base, BodiesOf(m, p.apply));
  }

  lemma SupplyOfBranch(rules: Rules, p: ConsensusParams, g: Genesis, base: ChainValue, bs: seq<Block>)
    requires Canonical(rules, p, g, base)
    ensures var reorg := AppendAll(rules, p, base, bs);
            reorg.Ok? ==>
              reorg.value.blocks != [] && Total(reorg.value.accounts) == Allocated(g) - Fees(History(reorg.value))
  {
    if AppendAll(rules, p, base, bs).Ok? {
      CanonicalAppendAll(rules, p, g, base, bs);
      ChainSupply(rules, p, g, AppendAll(rules, p, base, bs).value);
    }
  }

  // ---------------------------------------------------------------- the code

  method ApplyBlockToState(w: World, m: Material, state: State, b: Block, h: Str) returns (r: Option<ReplayFault>)
    modifies state
    ensures match ReplayBlock(w, m, old(state.accounts), b, h)
            case Ok(s) => r == None && state.accounts == s
            case Err(e) => r == Some(e)
  {
    r := CheckAgainstIndex(w.idx, b, h);
    if r.Some? {
      return;
    }
    r := CheckTimestamp(m, b, h);
    if r.Some? {
      return;
    }
    var valid := ValidateBlock(w.rules, b);
    if valid.Fail? {
      return Some(BasicValidation(h, valid.error));
    }
    var applied := state.ApplyTransactions(w.rules, b.transactions);
    return if applied.Fail? then Some(StateTransition(h, applied.error)) else None;
  }

  /** Replays a branch on a copy of the fork ledger. */
  method ReplayOnClone(w: World, m: Material, hs: seq<Str>) returns (r: ReplayResult)
    requires Supplied(m, hs)
    ensures r == ReplayBranch(w, m, m.stateAtFork, hs)
  {
    var walk := new State(m.stateAtFork);
    assert hs[0..] == hs;
    for i := 0 to |hs|
      invariant fresh(walk)
      invariant ReplayBranch(w, m, walk.accounts, hs[i..]) == ReplayBranch(w, m, m.stateAtFork, hs)
    {
      assert hs[i..][0] == hs[i] && hs[i..][1..] == hs[i + 1..];
      var e := ApplyBlockToState(w, m, walk, m.blocks[hs[i]], hs[i]);
      if e.Some? {
        return Err(e.value);
      }
    }
    return Ok(walk.accounts);
  }

  method FindMissing(m: Material, hs: seq<Str>) returns (r: Option<Str>)
    ensures r == FirstMissing(m, hs)
  {
    assert hs[0..] == hs;
    for i := 0 to |hs|
      invariant FirstMissing(m, hs[i..]) == FirstMissing(m, hs)
    {
      assert hs[i..][0] == hs[i] && hs[i..][1..] == hs[i + 1..];
      if hs[i] !in m.blocks {
        return Some(hs[i]);
      }
    }
    return None;
  }

  method VerifyOldBranch(w: World, m: Material, p: Plan) returns (r: Option<ReplayFault>)
    requires Supplied(m, Reversed(p.rollback)) && (p.rollback != [] ==> m.expectedOldTip.Some?)
    ensures r == CheckOldBranch(w, m, p)
  {
    if p.rollback == [] {
      return None;
    }
    var walked := ReplayOnClone(w, m, Reversed(p.rollback));
    if walked.Err? {
      return Some(walked.error);
    }
    var got := FingerprintPreimage(walked.value);
    var want := FingerprintPreimage(m.expectedOldTip.value);
    return if w.hash(got) != w.hash(want) then Some(OldTipStateMismatch) else None;
  }

  method SimulateNewBranch(w: World, m: Material, p: Plan) returns (r: Result<Report, ReplayFault>)
    requires Supplied(m, p.apply)
    ensures r == Simulate(w, m, p)
  {
    var walked := ReplayOnClone(w, m, p.apply);
    if walked.Err? {
      return Err(walked.error);
    }
    var preimage := FingerprintPreimage(walked.value);
    var total := TotalBalanceSum(walked.value);
    if total.Err? {
      return Err(SupplyAudit(total.error));
    }
    return Ok(Report(|p.rollback|, |p.apply|, w.hash(preimage), total.value));
  }

  method RunReplayOnClones(w: World, m: Material, p: Plan) returns (r: Result<Report, ReplayFault>)
    ensures r == RunReplay(w, m, p)
  {
    if p.rollback != [] && m.expectedOldTip.None? {
      return Err(MissingExpectedOldTipState);
    }
    var missing := FindMissing(m, p.rollback + p.apply);
    if missing.Some? {
      return Err(MissingBlockBody(missing.value));
    }
    SuppliedParts(m, p);
    var mismatch := VerifyOldBranch(w, m, p);
    if mismatch.Some? {
      return Err(mismatch.value);
    }
    r := SimulateNewBranch(w, m, p);
  }
}
