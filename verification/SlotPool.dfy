/** The inbound session counter under every interleaving of its atomic operations. */
module SlotPool {

  /** Where a thread stands between two atomic operations on the shared counter. */
  datatype Thread =
    | Idle                  // no permit, not trying
    | Trying(seen: nat)     // acquiring, with the counter value it last saw
    | Refused               // the last acquisition found the pool full
    | Holding               // has a permit
    | Dropping              // the permit is being dropped, counter not yet read
    | Releasing(seen: nat)  // dropping, with the counter value it last saw

  datatype Pool = Pool(max: nat, active: nat, threads: seq<Thread>, underflow: bool)

  /** A new thread, or thread `i` doing its next atomic operation. A weak exchange may fail spuriously. */
  datatype Step = Spawn | Acquire(i: nat) | Drop(i: nat) | Advance(i: nat, spurious: bool)

  function With(p: Pool, i: nat, t: Thread): (r: Pool)
    requires i < |p.threads|
  {
    p.(threads := p.threads[i := t])
  }

  /** The next atomic operation of a thread in the middle of `try_acquire` or of a drop. */
  function Next(p: Pool, i: nat, spurious: bool): (r: Pool)
    requires i < |p.threads|
  {
    match p.threads[i]
    case Trying(n) =>
      if n >= p.max then With(p, i, Refused)
      else if p.active == n && !spurious then With(p, i, Holding).(active := n + 1)
      else With(p, i, Trying(p.active))
    case Dropping =>
      if p.active == 0 then With(p, i, Idle).(underflow := true)
      else With(p, i, Releasing(p.active))
    case Releasing(c) =>
      if p.active == c && c > 0 then With(p, i, Idle).(active := c - 1)
      else With(p, i, Dropping)
    case _ => p
  }

  /** Any schedule: a step that does not apply changes nothing. */
  function Apply(p: Pool, s: Step): (r: Pool)
  {
    match s
    case Spawn => p.(threads := p.threads + [Idle])
    case Acquire(i) =>
      if i < |p.threads| && (p.threads[i].Idle? || p.threads[i].Refused?) then With(p, i, Trying(p.active)) else p
    case Drop(i) => if i < |p.threads| && p.threads[i].Holding? then With(p, i, Dropping) else p
    case Advance(i, spurious) => if i < |p.threads| then Next(p, i, spurious) else p
  }

  function Run(max: nat, steps: seq<Step>): (p: Pool)
  {
    if steps == [] then Pool(max, 0, [], false) else Apply(Run(max, steps[..|steps| - 1]), steps[|steps| - 1])
  }

  // ---------------------------------------------------------------- live permits

  /** The permit exists and its slot has not been given back. */
  predicate Live(t: Thread)
  {
    t.Holding? || t.Dropping? || t.Releasing?
  }

  function Permits(ts: seq<Thread>): (n: nat)
  {
    if ts == [] then 0 else Permits(ts[..|ts| - 1]) + (if Live(ts[|ts| - 1]) then 1 else 0)
  }

  lemma {:induction false} PermitsUpdate(ts: seq<Thread>, i: nat, t: Thread)
    requires i < |ts|
    ensures Permits(ts[i := t]) == Permits(ts) - (if Live(ts[i]) then 1 else 0) + (if Live(t) then 1 else 0)
  {
    var n := |ts| - 1;
    if i < n {
      PermitsUpdate(ts[..n], i, t);
      assert ts[i := t][..n] == ts[..n][i := t];
    } else {
      assert ts[i := t][..n] == ts[..n];
    }
  }

  /** A live permit is counted. */
  lemma {:induction false} PermitsPositive(ts: seq<Thread>, i: nat)
    requires i < |ts| && Live(ts[i])
    ensures Permits(ts) > 0
  {
    if i < |ts| - 1 { PermitsPositive(ts[..|ts| - 1], i); }
  }

  // ---------------------------------------------------------------- every interleaving

  ghost predicate Sane(p: Pool)
  {
    && p.active == Permits(p.threads) <= p.max
    && !p.underflow
    && (forall i :: 0 <= i < |p.threads| && p.threads[i].Trying? ==> p.threads[i].seen <= p.max)
    && (forall i :: 0 <= i < |p.threads| && p.threads[i].Releasing? ==> 0 < p.threads[i].seen)
  }

  lemma WithSane(p: Pool, i: nat, t: Thread, active: nat)
    requires Sane(p) && i < |p.threads|
    requires active == p.active - (if Live(p.threads[i]) then 1 else 0) + (if Live(t) then 1 else 0) <= p.max
    requires (t.Trying? ==> t.seen <= p.max) && (t.Releasing? ==> 0 < t.seen)
    ensures Sane(With(p, i, t).(active := active))
  {
    PermitsUpdate(p.threads, i, t);
  }

  lemma NextSane(p: Pool, i: nat, spurious: bool)
    requires Sane(p) && i < |p.threads|
    ensures Sane(Next(p, i, spurious))
  {
    if Live(p.threads[i]) { PermitsPositive(p.threads, i); }
    var next := Next(p, i, spurious);
    WithSane(p, i, next.threads[i], next.active);
  }

  lemma ApplySane(p: Pool, s: Step)
    requires Sane(p)
    ensures Sane(Apply(p, s)) && Apply(p, s).max == p.max
  {
    match s
    case Spawn => assert (p.threads + [Idle])[..|p.threads|] == p.threads;
    case Acquire(i) =>
      if i < |p.threads| && !Live(p.threads[i]) { WithSane(p, i, Trying(p.active), p.active); }
    case Drop(i) =>
      if i < |p.threads| && Live(p.threads[i]) { WithSane(p, i, Dropping, p.active); }
    case Advance(i, spurious) =>
      if i < |p.threads| { NextSane(p, i, spurious); }
  }

  /**
   Whatever any number of threads do in any order: the counter is the number of live permits, never
   above the maximum, and no release ever finds it at zero.
   */
  lemma {:induction false} EveryInterleaving(max: nat, steps: seq<Step>)
    ensures Sane(Run(max, steps)) && Run(max, steps).max == max
  {
    if steps != [] {
      EveryInterleaving(max, steps[..|steps| - 1]);
      ApplySane(Run(max, steps[..|steps| - 1]), steps[|steps| - 1]);
    }
  }

  lemma {:induction false} PermitsCount(ts: seq<Thread>)
    ensures Permits(ts) <= |ts|
    ensures Permits(ts) == 0 <==> forall i :: 0 <= i < |ts| ==> !Live(ts[i])
  {
    if ts != [] {
      var front := ts[..|ts| - 1];
      PermitsCount(front);
      assert forall i :: 0 <= i < |front| ==> front[i] == ts[i];
    }
  }

  /** Once every permit is dropped for good, the pool is empty again: no slot leaks. */
  lemma NoSlotLeaks(max: nat, steps: seq<Step>)
    ensures Run(max, steps).active == 0 <==> forall i :: 0 <= i < |Run(max, steps).threads| ==>
      !Live(Run(max, steps).threads[i])
  {
    EveryInterleaving(max, steps);
    PermitsCount(Run(max, steps).threads);
  }

  /** A refusal only follows a look at a counter that stood exactly at the maximum. */
  lemma RefusedWhenFull(max: nat, steps: seq<Step>, i: nat, spurious: bool)
    requires i < |Run(max, steps).threads| && Run(max, steps).threads[i].Trying?
    ensures Next(Run(max, steps), i, spurious).threads[i].Refused? <==> Run(max, steps).threads[i].seen == max
  {
    EveryInterleaving(max, steps);
  }

  // ---------------------------------------------------------------- a thread running alone

  /** Thread `i` does its next `k` operations with nobody in between and no spurious failure. */
  function Alone(p: Pool, i: nat, k: nat): (r: Pool)
    requires i < |p.threads|
    ensures |r.threads| == |p.threads|
  {
    if k == 0 then p else Next(Alone(p, i, k - 1), i, false)
  }

  /** Only thread `i` and the counter differ. */
  ghost predicate OthersKept(p: Pool, q: Pool, i: nat)
    requires i < |p.threads|
  {
    && q.max == p.max && |q.threads| == |p.threads|
    && forall j :: 0 <= j < |p.threads| && j != i ==> q.threads[j] == p.threads[j]
  }

  lemma AloneTwice(p: Pool, i: nat)
    requires i < |p.threads|
    ensures Alone(p, i, 1) == Next(p, i, false)
    ensures Alone(p, i, 2) == Next(Next(p, i, false), i, false)
    ensures Alone(p, i, 3) == Next(Next(Next(p, i, false), i, false), i, false)
  {
    assert Alone(p, i, 1) == Next(Alone(p, i, 0), i, false);
    assert Alone(p, i, 2) == Next(Alone(p, i, 1), i, false);
  }

  /** Below the maximum, an acquisition that runs alone ends with the permit and one more slot taken. */
  lemma AcquiresAlone(p: Pool, i: nat)
    requires Sane(p) && i < |p.threads| && (p.threads[i].Idle? || p.threads[i].Refused?) && p.active < p.max
    ensures var q := Alone(Apply(p, Acquire(i)), i, 1);
            q.threads[i].Holding? && q.active == p.active + 1 && OthersKept(p, q, i)
  {
    AloneTwice(Apply(p, Acquire(i)), i);
  }

  /** An acquisition under way with a stale view below the maximum needs one more look. */
  lemma AcquiresFromStale(p: Pool, i: nat)
    requires Sane(p) && i < |p.threads| && p.threads[i].Trying? && p.threads[i].seen < p.max && p.active < p.max
    ensures var q := Alone(p, i, if p.threads[i].seen == p.active then 1 else 2);
            q.threads[i].Holding? && q.active == p.active + 1 && OthersKept(p, q, i)
  {
    AloneTwice(p, i);
  }

  /** At the maximum it is refused, and no slot is taken. */
  lemma RefusedAlone(p: Pool, i: nat)
    requires Sane(p) && i < |p.threads| && (p.threads[i].Idle? || p.threads[i].Refused?) && p.active == p.max
    ensures var q := Alone(Apply(p, Acquire(i)), i, 1);
            q.threads[i].Refused? && q.active == p.active && OthersKept(p, q, i)
  {
    AloneTwice(Apply(p, Acquire(i)), i);
  }

  /** A drop that runs alone gives the slot back, from wherever other threads had interrupted it. */
  lemma ReleasesAlone(p: Pool, i: nat)
    requires Sane(p) && i < |p.threads| && (p.threads[i].Dropping? || p.threads[i].Releasing?)
    ensures var k := if p.threads[i].Dropping? then 2 else if p.threads[i].seen == p.active then 1 else 3;
            var q := Alone(p, i, k);
            q.threads[i].Idle? && q.active == p.active - 1 && !q.underflow && OthersKept(p, q, i)
  {
    PermitsPositive(p.threads, i);
    AloneTwice(p, i);
  }

  /** Taking a permit and dropping it, undisturbed, leaves the pool as it was. */
  lemma TakeThenDrop(p: Pool, i: nat)
    requires Sane(p) && i < |p.threads| && p.threads[i].Idle? && p.active < p.max
    ensures Alone(Apply(Alone(Apply(p, Acquire(i)), i, 1), Drop(i)), i, 2) == p
  {
    AloneTwice(Apply(p, Acquire(i)), i);
    var held := Alone(Apply(p, Acquire(i)), i, 1);
    AloneTwice(Apply(held, Drop(i)), i);
    assert Alone(Apply(held, Drop(i)), i, 2).threads == p.threads;
  }
}
