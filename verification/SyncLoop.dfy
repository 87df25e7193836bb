/** The budgeted pull loop, over any node state, any kind of block and any peer. */
module SyncLoop {
  import opened Prelude

  datatype SyncFault =
    | RefusingPoisonedStore | BadBudget | PullFailed | NoTip | InvalidBatchBlock | BatchNotLinear
    | BatchBrokenLink | BlockRefused

  datatype Budget = Budget(maxRounds: u32, maxBlocks: u32, maxWire: u64)

  /** `validate_sync_work_budget` */
  predicate ValidBudget(b: Budget)
  {
    b.maxRounds > 0 && b.maxBlocks > 0 && b.maxWire > 0
  }

  /**
   What the loop calls: the reply of a round (its blocks and its size) to the node it is asked for,
   the batch check, and the ingestion of one block, given how many came before it.
   */
  datatype Parts<!H, !B> = Parts(
    budget: Budget,
    pull: (nat, H) -> Option<(seq<B>, u64)>,
    check: (H, seq<B>) -> Option<SyncFault>,
    ingest: (nat, H, B) -> (bool, H))

  datatype Progress<H> = Progress(held: H, total: nat, rounds: nat, wire: u64)

  datatype Ending = CaughtUp | BudgetSpent | Failed(fault: SyncFault)

  // ---------------------------------------------------------------- the loop

  /** The blocks of one batch, until one is refused: success, the node, and the new count. */
  function IngestAll<H, B>(l: Parts<H, B>, h: H, total: nat, bs: seq<B>): (r: (bool, H, nat))
    ensures total <= r.2 <= total + |bs|
    ensures r.0 ==> r.2 == total + |bs|
    decreases |bs|
  {
    if bs == [] then (true, h, total)
    else
      var (ok, next) := l.ingest(total, h, bs[0]);
      if ok then IngestAll(l, next, total + 1, bs[1..]) else (false, next, total)
  }

  /** The block budget that is left. */
  function Room<H>(b: Budget, s: Progress<H>): (n: nat)
  {
    if s.total < b.maxBlocks then b.maxBlocks - s.total else 0
  }

  predicate Spent<H>(b: Budget, s: Progress<H>)
  {
    s.total >= b.maxBlocks || s.rounds >= b.maxRounds || s.wire >= b.maxWire
  }

  datatype Turn<H> = Leave(ending: Ending, at: Progress<H>) | Onward(next: Progress<H>)

  /** The batch passed its check: take what fits the block budget and decide whether to go on. */
  function TakeWithinRoom<H, B>(l: Parts<H, B>, s: Progress<H>, bs: seq<B>): (t: Turn<H>)
    ensures t.Onward? ==> t.next.rounds == s.rounds
  {
    if Room(l.budget, s) == 0 then Leave(BudgetSpent, s)
    else
      var (ok, h, total) := IngestAll(l, s.held, s.total, bs[..Min(|bs|, Room(l.budget, s))]);
      var next := s.(held := h, total := total);
      if !ok then Leave(Failed(BlockRefused), next)
      else if total >= l.budget.maxBlocks then Leave(BudgetSpent, next)
      else if s.wire > l.budget.maxWire then Leave(BudgetSpent, next)
      else Onward(next)
  }

  function TakeReply<H, B>(l: Parts<H, B>, s: Progress<H>, bs: seq<B>): (t: Turn<H>)
    ensures t.Onward? ==> t.next.rounds == s.rounds
  {
    if bs == [] then Leave(CaughtUp, s)
    else
      match l.check(s.held, bs)
      case Some(e) => Leave(Failed(e), s)
      case None => TakeWithinRoom(l, s, bs)
  }

  /** One turn of the loop. */
  function RoundTurn<H, B>(l: Parts<H, B>, s: Progress<H>): (t: Turn<H>)
    ensures t.Onward? ==> s.rounds < l.budget.maxRounds && t.next.rounds == s.rounds + 1
  {
    if Spent(l.budget, s) then Leave(BudgetSpent, s)
    else
      match l.pull(s.rounds, s.held)
      case None => Leave(Failed(PullFailed), s)
      case Some((bs, bytes)) =>
        TakeReply(l, s.(rounds := s.rounds + 1, wire := SaturatingAdd(s.wire, bytes)), bs)
  }

  /** A turn within budget goes by the reply. */
  lemma RoundAsks<H, B>(l: Parts<H, B>, s: Progress<H>, reply: Option<(seq<B>, u64)>)
    requires !Spent(l.budget, s) && l.pull(s.rounds, s.held) == reply
    ensures RoundTurn(l, s) ==
      match reply
      case None => Leave(Failed(PullFailed), s)
      case Some((bs, bytes)) => TakeReply(l, s.(rounds := s.rounds + 1, wire := SaturatingAdd(s.wire, bytes)), bs)
  {
  }

  function RoundsLeft<H>(b: Budget, s: Progress<H>): (n: nat)
  {
    if s.rounds < b.maxRounds then b.maxRounds - s.rounds else 0
  }

  function Loop<H, B>(l: Parts<H, B>, s: Progress<H>): (r: (Ending, Progress<H>))
    decreases RoundsLeft(l.budget, s)
  {
    match RoundTurn(l, s)
    case Leave(e, s') => (e, s')
    case Onward(s') => Loop(l, s')
  }

  function Start<H>(h: H): (s: Progress<H>)
  {
    Progress(h, 0, 0, 0)
  }

  // ---------------------------------------------------------------- what any run keeps

  /** `inv` relates the node to the number of blocks taken, and one more block keeps it. */
  ghost predicate Keeps<H(!new), B(!new)>(l: Parts<H, B>, inv: (H, nat) -> bool)
  {
    forall h, n: nat, b :: inv(h, n) ==>
      inv(l.ingest(n, h, b).1, if l.ingest(n, h, b).0 then n + 1 else n)
  }

  lemma {:induction false} IngestAllKeeps<H(!new), B(!new)>(l: Parts<H, B>, inv: (H, nat) -> bool, h: H, total: nat,
          bs: seq<B>)
    requires Keeps(l, inv) && inv(h, total)
    ensures var (_, h', total') := IngestAll(l, h, total, bs); inv(h', total')
    decreases |bs|
  {
    if bs != [] {
      var (ok, next) := l.ingest(total, h, bs[0]);
      if ok { IngestAllKeeps(l, inv, next, total + 1, bs[1..]); }
    }
  }

  /**
   From `h`, `n` of the blocks are taken and the next one, if any, is refused; `step` says what taking
   (`true`) and refusing (`false`) the block after so many others does to the node.
   */
  ghost predicate Ran<H(!new), B>(step: (nat, H, B, bool, H) -> bool, h: H, total: nat, bs: seq<B>, n: nat, after: H)
    decreases |bs|
  {
    if bs == [] then n == 0 && after == h
    else if n == 0 then step(total, h, bs[0], false, after)
    else exists next :: step(total, h, bs[0], true, next) && Ran(step, next, total + 1, bs[1..], n - 1, after)
  }

  ghost predicate Stepwise<H(!new), B(!new)>(l: Parts<H, B>, inv: H -> bool, step: (nat, H, B, bool, H) -> bool)
  {
    forall n: nat, h, b :: inv(h) ==>
      inv(l.ingest(n, h, b).1) && step(n, h, b, l.ingest(n, h, b).0, l.ingest(n, h, b).1)
  }

  lemma {:induction false} IngestAllRuns<H(!new), B(!new)>(l: Parts<H, B>, inv: H -> bool,
          step: (nat, H, B, bool, H) -> bool, h: H, total: nat, bs: seq<B>)
    requires Stepwise(l, inv, step) && inv(h)
    ensures var (ok, after, count) := IngestAll(l, h, total, bs);
            inv(after) && (ok <==> count == total + |bs|) && Ran(step, h, total, bs, count - total, after)
    decreases |bs|
  {
    if bs != [] {
      var (ok, next) := l.ingest(total, h, bs[0]);
      if ok { IngestAllRuns(l, inv, step, next, total + 1, bs[1..]); }
    }
  }

  ghost predicate InBudget<H>(b: Budget, s: Progress<H>)
  {
    s.total <= b.maxBlocks && s.rounds <= b.maxRounds
  }

  /** What each way out says: caught up means an empty reply to the node as it is now. */
  ghost predicate Explained<H, B>(l: Parts<H, B>, e: Ending, s: Progress<H>)
  {
    match e
    case CaughtUp => s.rounds > 0 && l.pull(s.rounds - 1, s.held).Some? && l.pull(s.rounds - 1, s.held).value.0 == []
    case BudgetSpent => Spent(l.budget, s)
    case Failed(_) => true
  }

  ghost predicate TurnHolds<H, B>(l: Parts<H, B>, inv: (H, nat) -> bool, t: Turn<H>)
  {
    var s := if t.Leave? then t.at else t.next;
    inv(s.held, s.total) && InBudget(l.budget, s) && (t.Leave? ==> Explained(l, t.ending, s))
  }

  lemma TurnKeeps<H(!new), B(!new)>(l: Parts<H, B>, inv: (H, nat) -> bool, s: Progress<H>)
    requires Keeps(l, inv) && inv(s.held, s.total) && InBudget(l.budget, s)
    ensures TurnHolds(l, inv, RoundTurn(l, s))
  {
    if !Spent(l.budget, s) && l.pull(s.rounds, s.held).Some? {
      var (bs, bytes) := l.pull(s.rounds, s.held).value;
      IngestAllKeeps(l, inv, s.held, s.total, bs[..Min(|bs|, Room(l.budget, s))]);
    }
  }

  /** On every way out the invariant holds, the counts are in budget, and the ending is what it says. */
  lemma {:induction false} LoopKeeps<H(!new), B(!new)>(l: Parts<H, B>, inv: (H, nat) -> bool, s: Progress<H>)
    requires Keeps(l, inv) && inv(s.held, s.total) && InBudget(l.budget, s)
    ensures var (e, s') := Loop(l, s);
            inv(s'.held, s'.total) && InBudget(l.budget, s') && Explained(l, e, s')
    decreases RoundsLeft(l.budget, s)
  {
    TurnKeeps(l, inv, s);
    if RoundTurn(l, s).Onward? { LoopKeeps(l, inv, RoundTurn(l, s).next); }
  }

  // ---------------------------------------------------------------- catching up

  /** How many blocks a reply carries at most, and how many bytes a reply with given blocks weighs. */
  datatype Replies<!B> = Replies(limit: nat, weight: seq<B> -> nat)

  function Chunk<B>(w: Replies<B>, d: seq<B>): (r: seq<B>)
  {
    d[..Min(|d|, w.limit)]
  }

  /**
   `lack(h, d)`: node `h` lacks exactly the blocks `d`. The peer answers such a node with the next
   chunk of them, the batch check passes it, and the node takes each block in turn.
   */
  ghost predicate Serves<H(!new), B(!new)>(l: Parts<H, B>, w: Replies<B>, lack: (H, seq<B>) -> bool)
  {
    && (forall h, d, r: nat :: lack(h, d) ==> Answers(l, w, h, d, r))
    && (forall h, d :: lack(h, d) ==> l.check(h, Chunk(w, d)) == None)
    && (forall h, d, n: nat :: lack(h, d) && d != [] ==>
          l.ingest(n, h, d[0]).0 && lack(l.ingest(n, h, d[0]).1, d[1..]))
  }

  ghost predicate Answers<H, B>(l: Parts<H, B>, w: Replies<B>, h: H, d: seq<B>, r: nat)
  {
    l.pull(r, h).Some? && l.pull(r, h).value.0 == Chunk(w, d) && l.pull(r, h).value.1 == w.weight(Chunk(w, d))
  }

  lemma {:induction false} IngestAllServed<H(!new), B(!new)>(l: Parts<H, B>, w: Replies<B>,
          lack: (H, seq<B>) -> bool, h: H, total: nat, d: seq<B>, n: nat)
    requires Serves(l, w, lack) && lack(h, d) && n <= |d|
    ensures var (ok, h', total') := IngestAll(l, h, total, d[..n]);
            ok && total' == total + n && lack(h', d[n..])
    decreases n
  {
    if n == 0 {
      assert d[..0] == [] && d[0..] == d;
    } else {
      var (ok, next) := l.ingest(total, h, d[0]);
      assert d[..n][0] == d[0] && d[..n][1..] == d[1..][..n - 1] && d[1..][n - 1..] == d[n..];
      IngestAllServed(l, w, lack, next, total + 1, d[1..], n - 1);
    }
  }

  /** Rounds needed to fetch `d` and see the empty reply. */
  function Rounds<B>(w: Replies<B>, d: seq<B>): (r: nat)
    requires w.limit > 0
    ensures r > 0
    decreases |d|
  {
    if d == [] then 1 else 1 + Rounds(w, d[Min(|d|, w.limit)..])
  }

  /** What the replies that carry `d` weigh together. */
  function Volume<B>(w: Replies<B>, d: seq<B>): (r: nat)
    requires w.limit > 0
    decreases |d|
  {
    if d == [] then 0 else w.weight(Chunk(w, d)) + Volume(w, d[Min(|d|, w.limit)..])
  }

  /** The budget covers what is still lacking, and the last request that finds nothing more. */
  ghost predicate Ample<H, B>(b: Budget, w: Replies<B>, s: Progress<H>, d: seq<B>)
    requires w.limit > 0
  {
    && s.rounds + Rounds(w, d) <= b.maxRounds
    && s.total + |d| < b.maxBlocks
    && s.wire + Volume(w, d) < b.maxWire
  }

  lemma AmpleIsValid<H, B>(b: Budget, w: Replies<B>, s: Progress<H>, d: seq<B>)
    requires w.limit > 0 && Ample(b, w, s, d)
    ensures ValidBudget(b) && !Spent(b, s)
  {
  }

  /** A turn of a node that lacks nothing sees it, unless the budget is spent. */
  lemma LastRound<H(!new), B(!new)>(l: Parts<H, B>, w: Replies<B>, lack: (H, seq<B>) -> bool, s: Progress<H>)
    requires w.limit > 0 && Serves(l, w, lack) && lack(s.held, [])
    ensures var t := RoundTurn(l, s);
            && t.Leave?
            && (t.ending == CaughtUp <==> Ample(l.budget, w, s, []))
            && (t.ending == CaughtUp ==> t.at.held == s.held && t.at.total == s.total)
  {
    assert Answers(l, w, s.held, [], s.rounds);
  }

  /** A turn of a node that lacks something takes the next chunk; it goes on exactly as far as the budget allows. */
  lemma RoundServed<H(!new), B(!new)>(l: Parts<H, B>, w: Replies<B>, lack: (H, seq<B>) -> bool, s: Progress<H>,
          d: seq<B>)
    requires w.limit > 0 && Serves(l, w, lack) && lack(s.held, d) && d != []
    ensures var t := RoundTurn(l, s);
            var n := Min(|d|, w.limit);
            if t.Leave? then t.ending != CaughtUp && !Ample(l.budget, w, s, d)
            else
              && lack(t.next.held, d[n..]) && t.next.total == s.total + n
              && (Ample(l.budget, w, s, d) <==> Ample(l.budget, w, t.next, d[n..]))
  {
    var n := Min(|d|, w.limit);
    if Spent(l.budget, s) {
      if Ample(l.budget, w, s, d) { AmpleIsValid(l.budget, w, s, d); }
    } else {
      assert Answers(l, w, s.held, d, s.rounds);
      TakeServed(l, w, lack, s.(rounds := s.rounds + 1, wire := SaturatingAdd(s.wire, w.weight(d[..n]))), d, n);
    }
  }

  lemma TakeServed<H(!new), B(!new)>(l: Parts<H, B>, w: Replies<B>, lack: (H, seq<B>) -> bool, s: Progress<H>,
          d: seq<B>, n: nat)
    requires Serves(l, w, lack) && lack(s.held, d) && 0 < n <= |d| && s.total < l.budget.maxBlocks
    ensures var t := TakeWithinRoom(l, s, d[..n]);
            if s.total + n >= l.budget.maxBlocks || s.wire > l.budget.maxWire then t.Leave? && t.ending == BudgetSpent
            else t.Onward? && lack(t.next.held, d[n..]) && t.next == s.(held := t.next.held, total := s.total + n)
  {
    var m := Min(n, Room(l.budget, s));
    assert d[..n][..m] == d[..m];
    IngestAllServed(l, w, lack, s.held, s.total, d, m);
  }

  /**
   Served by such a peer, the loop ends caught up if and only if the budget covers what is lacking;
   it then lacks nothing and has taken exactly those blocks.
   */
  lemma {:induction false} LoopCatchesUp<H(!new), B(!new)>(l: Parts<H, B>, w: Replies<B>, lack: (H, seq<B>) -> bool,
          s: Progress<H>, d: seq<B>)
    requires w.limit > 0 && Serves(l, w, lack) && lack(s.held, d)
    ensures var (e, s') := Loop(l, s);
            && (e == CaughtUp <==> Ample(l.budget, w, s, d))
            && (e == CaughtUp ==> lack(s'.held, []) && s'.total == s.total + |d|)
    decreases |d|
  {
    if d == [] {
      LastRound(l, w, lack, s);
    } else {
      RoundServed(l, w, lack, s, d);
      if RoundTurn(l, s).Onward? { LoopCatchesUp(l, w, lack, RoundTurn(l, s).next, d[Min(|d|, w.limit)..]); }
    }
  }
}
