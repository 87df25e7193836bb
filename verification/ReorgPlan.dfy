/** Reorganisation plans: built from a fork, and checked against the index independently. */
module ReorgPlan {
  import opened Prelude
  import opened BlockIndex

  /** Roll `rollback` back tip first, then apply `apply` parent first, around `fork`. */
  datatype Plan = Plan(fork: Str, rollback: seq<Str>, apply: seq<Str>)

  function Reversed(s: seq<Str>): (r: seq<Str>)
    ensures |r| == |s|
    ensures forall i :: 0 <= i < |s| ==> r[i] == s[|s| - 1 - i]
  {
    seq(|s|, i requires 0 <= i < |s| => s[|s| - 1 - i])
  }

  lemma ReversedTwice(s: seq<Str>)
    ensures Reversed(Reversed(s)) == s
  {
  }

  /** `ReorgPlan::from_fork_slices` */
  function FromSlices(f: ForkSlices): (p: Plan)
  {
    Plan(f.fork, f.oldSuffix, Reversed(f.newSuffix))
  }

  /** `ReorgPlan::try_from_tips` */
  function TryFromTips(idx: Index, oldTip: Str, newTip: Str): (r: Result<Plan, PathError>)
  {
    match Fork(idx, oldTip, newTip)
    case Ok(f) => Ok(FromSlices(f))
    case Err(e) => Err(e)
  }

  function OldTip(p: Plan): (h: Str)
  {
    if p.rollback == [] then p.fork else p.rollback[0]
  }

  function NewTip(p: Plan): (h: Str)
  {
    if p.apply == [] then p.fork else p.apply[|p.apply| - 1]
  }

  // ---------------------------------------------------------------- what the validator demands

  /** The parent the i-th entry of a tip-first list must have. */
  function Below(seg: seq<Str>, fork: Str, i: nat): (h: Str)
    requires i < |seg|
  {
    if i + 1 < |seg| then seg[i + 1] else fork
  }

  /** The parent the i-th entry of a parent-first list must have. */
  function Before(seg: seq<Str>, fork: Str, i: nat): (h: Str)
    requires i < |seg|
  {
    if i == 0 then fork else seg[i - 1]
  }

  predicate ParentIs(idx: Index, h: Str, parent: Str)
  {
    h in idx && idx[h].parent == parent
  }

  ghost predicate TipFirst(idx: Index, seg: seq<Str>, fork: Str)
  {
    forall i {:trigger Below(seg, fork, i)} :: 0 <= i < |seg| ==> ParentIs(idx, seg[i], Below(seg, fork, i))
  }

  ghost predicate ParentFirst(idx: Index, seg: seq<Str>, fork: Str)
  {
    forall i {:trigger Before(seg, fork, i)} :: 0 <= i < |seg| ==> ParentIs(idx, seg[i], Before(seg, fork, i))
  }

  ghost predicate AllRooted(idx: Index, seg: seq<Str>)
  {
    forall h :: h in seg ==> Rooted(idx, h)
  }

  /** `ReorgPlan::validate_against_index` accepts. */
  ghost predicate PlanOk(idx: Index, p: Plan)
  {
    && Rooted(idx, p.fork) && AllRooted(idx, p.rollback) && AllRooted(idx, p.apply)
    && Distinct(p.rollback) && Distinct(p.apply)
    && (forall h :: h in p.rollback ==> h !in p.apply)
    && p.fork !in p.rollback && p.fork !in p.apply
    && TipFirst(idx, p.rollback, p.fork) && ParentFirst(idx, p.apply, p.fork)
  }

  // ---------------------------------------------------------------- tip-first segments

  function Head(seg: seq<Str>, fork: Str): (h: Str)
  {
    if seg == [] then fork else seg[0]
  }

  ghost predicate AboveGenesis(idx: Index, seg: seq<Str>)
  {
    forall h :: h in seg ==> HeightOf(idx, h) > 0
  }

  lemma ParentFirstReversed(idx: Index, seg: seq<Str>, fork: Str)
    ensures ParentFirst(idx, seg, fork) <==> TipFirst(idx, Reversed(seg), fork)
  {
    var n, rev := |seg|, Reversed(seg);
    if ParentFirst(idx, seg, fork) {
      forall i | 0 <= i < n ensures ParentIs(idx, rev[i], Below(rev, fork, i)) {
        assert ParentIs(idx, seg[n - 1 - i], Before(seg, fork, n - 1 - i));
      }
    }
    if TipFirst(idx, rev, fork) {
      forall i | 0 <= i < n ensures ParentIs(idx, seg[i], Before(seg, fork, i)) {
        assert ParentIs(idx, rev[n - 1 - i], Below(rev, fork, n - 1 - i));
      }
    }
  }

  lemma TipFirstTail(idx: Index, seg: seq<Str>, fork: Str)
    requires TipFirst(idx, seg, fork) && seg != []
    ensures TipFirst(idx, seg[1..], fork)
    ensures seg[0] in idx && idx[seg[0]].parent == Head(seg[1..], fork)
  {
    var rest := seg[1..];
    assert ParentIs(idx, seg[0], Below(seg, fork, 0));
    forall i | 0 <= i < |rest| ensures ParentIs(idx, rest[i], Below(rest, fork, i)) {
      assert ParentIs(idx, seg[i + 1], Below(seg, fork, i + 1));
    }
  }

  lemma WalkOnce(idx: Index, h: Str)
    requires Walk(idx, h).Ok? && HeightOf(idx, h) > 0
    ensures h in idx && Walk(idx, idx[h].parent).Ok?
    ensures Walk(idx, h) == Ok([h] + Walk(idx, idx[h].parent).value)
  {
  }

  /** Along a segment the walk passes exactly the segment, then goes on from the fork. */
  lemma {:induction false} SegmentWalk(idx: Index, seg: seq<Str>, fork: Str)
    requires TipFirst(idx, seg, fork) && AllRooted(idx, seg) && AboveGenesis(idx, seg) && Walk(idx, fork).Ok?
    ensures Walk(idx, Head(seg, fork)) == Ok(seg + Walk(idx, fork).value)
    decreases |seg|
  {
    if seg == [] {
      assert [] + Walk(idx, fork).value == Walk(idx, fork).value;
    } else {
      TipFirstTail(idx, seg, fork);
      assert seg[0] in seg && Rooted(idx, seg[0]);
      WalkOnce(idx, seg[0]);
      SegmentWalk(idx, seg[1..], fork);
      ConcatAssoc([seg[0]], seg[1..], Walk(idx, fork).value);
      assert [seg[0]] + seg[1..] == seg;
    }
  }

  /** What a list of blocks in front of a walk looks like, as lists. */
  lemma FrontOfPath(idx: Index, path: seq<Str>, seg: seq<Str>, w: seq<Str>)
    requires path == seg + w && w != [] && Distinct(path)
    requires forall i :: 0 <= i < |path| - 1 ==> path[i] in idx && idx[path[i]].parent == path[i + 1]
    ensures TipFirst(idx, seg, w[0]) && Distinct(seg) && w[0] !in seg && path[0] == Head(seg, w[0])
  {
    forall i | 0 <= i < |seg| ensures ParentIs(idx, seg[i], Below(seg, w[0], i)) && seg[i] != w[0] {
      assert path[i] == seg[i] && path[|seg|] == w[0];
      if i + 1 < |seg| { assert path[i + 1] == seg[i + 1]; }
    }
    assert forall i :: 0 <= i < |seg| ==> seg[i] == path[i];
  }

  /** Every block of a walk that ends in a clean root is itself rooted. */
  lemma RootedAlong(idx: Index, tip: Str, i: nat)
    requires Rooted(idx, tip) && i < |Walk(idx, tip).value|
    ensures Rooted(idx, Walk(idx, tip).value[i])
  {
    WalkSuffix(idx, tip, i);
  }

  lemma RootedAbove(idx: Index, tip: Str, seg: seq<Str>, fork: Str)
    requires Rooted(idx, fork)
    requires Walk(idx, tip) == Ok(seg + Walk(idx, fork).value)
    ensures Rooted(idx, tip)
  {
    var w := Walk(idx, fork).value;
    assert (seg + w)[|seg + w| - 1] == w[|w| - 1];
  }

  /** The part of a rooted walk above any of its blocks is a segment on that block. */
  lemma WalkIsSegment(idx: Index, tip: Str, seg: seq<Str>, fork: Str)
    requires Rooted(idx, fork)
    requires Walk(idx, tip) == Ok(seg + Walk(idx, fork).value)
    ensures TipFirst(idx, seg, fork) && AllRooted(idx, seg) && AboveGenesis(idx, seg)
    ensures Distinct(seg) && fork !in seg && tip == Head(seg, fork)
  {
    var path, w := Walk(idx, tip).value, Walk(idx, fork).value;
    WalkShape(idx, tip);
    WalkShape(idx, fork);
    WalkDistinct(idx, tip);
    FrontOfPath(idx, path, seg, w);
    RootedAbove(idx, tip, seg, fork);
    forall h | h in seg ensures Rooted(idx, h) && HeightOf(idx, h) > 0 {
      var i :| 0 <= i < |seg| && seg[i] == h;
      assert path[i] == h;
      RootedAlong(idx, tip, i);
    }
  }

  // ---------------------------------------------------------------- validator and planner agree

  /** The plan is what the planner makes of the plan's own two tips. */
  ghost predicate Made(idx: Index, p: Plan)
  {
    TryFromTips(idx, OldTip(p), NewTip(p)) == Ok(p)
  }

  lemma SameMembers(s: seq<Str>)
    ensures forall h :: h in Reversed(s) <==> h in s
  {
    forall h | h in s ensures h in Reversed(s) {
      var i :| 0 <= i < |s| && s[i] == h;
      assert Reversed(s)[|s| - 1 - i] == h;
    }
  }

  lemma DistinctReversed(s: seq<Str>)
    requires Distinct(s)
    ensures Distinct(Reversed(s))
  {
    var r := Reversed(s);
    forall i, j | 0 <= i < j < |r| ensures r[i] != r[j] {
      assert s[|s| - 1 - j] != s[|s| - 1 - i];
    }
  }

  lemma MadeIsOk(idx: Index, p: Plan)
    requires Made(idx, p) && Rooted(idx, p.fork)
    ensures PlanOk(idx, p) && AboveGenesis(idx, p.rollback) && AboveGenesis(idx, p.apply)
  {
    var f := Fork(idx, OldTip(p), NewTip(p)).value;
    ForkPaths(idx, OldTip(p), NewTip(p));
    WalkIsSegment(idx, OldTip(p), f.oldSuffix, f.fork);
    WalkIsSegment(idx, NewTip(p), f.newSuffix, f.fork);
    ReversedTwice(f.newSuffix);
    ParentFirstReversed(idx, p.apply, p.fork);
    SameMembers(f.newSuffix);
    DistinctReversed(f.newSuffix);
  }

  lemma OkIsMade(idx: Index, p: Plan)
    requires PlanOk(idx, p) && AboveGenesis(idx, p.rollback) && AboveGenesis(idx, p.apply)
    ensures Made(idx, p) && Rooted(idx, p.fork)
  {
    var ahead := Reversed(p.apply);
    ParentFirstReversed(idx, p.apply, p.fork);
    SameMembers(p.apply);
    SegmentWalk(idx, p.rollback, p.fork);
    SegmentWalk(idx, ahead, p.fork);
    ForkOfSegments(idx, p.rollback, ahead, p.fork);
    ReversedTwice(p.apply);
  }

  /** Two segments on one fork that share no block fork exactly there. */
  lemma ForkOfSegments(idx: Index, back: seq<Str>, ahead: seq<Str>, fork: Str)
    requires Walk(idx, fork).Ok?
    requires Walk(idx, Head(back, fork)) == Ok(back + Walk(idx, fork).value)
    requires Walk(idx, Head(ahead, fork)) == Ok(ahead + Walk(idx, fork).value)
    requires (forall h :: h in back ==> h !in ahead) && fork !in back
    ensures Fork(idx, Head(back, fork), Head(ahead, fork)) == Ok(ForkSlices(fork, back, ahead))
  {
    var w := Walk(idx, fork).value;
    WalkShape(idx, fork);
    WalkDistinct(idx, Head(ahead, fork));
    forall i | 0 <= i < |ahead| ensures ahead[i] !in Members(back + w) {
      assert (ahead + w)[i] == ahead[i];
      forall j | 0 <= j < |w| ensures w[j] != ahead[i] {
        assert (ahead + w)[|ahead| + j] == w[j];
      }
    }
    assert (back + w)[|back|] == fork;
    UntilStop(idx, Head(ahead, fork), Members(back + w), ahead, fork);
    UntilStop(idx, Head(back, fork), {fork}, back, fork);
  }

  /**
   Plan by plan: the validator adds to the planner only that the root is clean, and gives away only
   plans with a height-0 block above the fork.
   */
  lemma ValidatorVersusPlanner(idx: Index, p: Plan)
    ensures Made(idx, p) && Rooted(idx, p.fork) <==>
      PlanOk(idx, p) && AboveGenesis(idx, p.rollback) && AboveGenesis(idx, p.apply)
  {
    if Made(idx, p) && Rooted(idx, p.fork) { MadeIsOk(idx, p); }
    if PlanOk(idx, p) && AboveGenesis(idx, p.rollback) && AboveGenesis(idx, p.apply) { OkIsMade(idx, p); }
  }

  // ---------------------------------------------------------------- the two ways they differ

  /**
   The empty string is itself the hash of a rooted block, and some other height-0 block names it as
   its parent (as every root does).
   */
  ghost predicate EmptyHashAmbiguous(idx: Index)
  {
    Rooted(idx, []) && exists a :: a != [] && a in idx && idx[a].height == 0 && idx[a].parent == []
  }

  /** Such an index has a plan that validates and that the planner refuses. */
  lemma AmbiguousCounterexample(idx: Index) returns (p: Plan)
    requires EmptyHashAmbiguous(idx)
    ensures PlanOk(idx, p) && !Made(idx, p)
  {
    var a :| a != [] && a in idx && idx[a].height == 0 && idx[a].parent == [];
    p := Plan([], [a], []);
    assert Walk(idx, a) == Ok([a]);
    assert ParentIs(idx, p.rollback[0], Below(p.rollback, p.fork, 0));
    NotMadeOfRoot(idx, p, a);
  }

  /** A plan that rolls back only a root is none of the planner's. */
  lemma NotMadeOfRoot(idx: Index, p: Plan, a: Str)
    requires p.rollback == [a] && Walk(idx, a) == Ok([a])
    ensures !Made(idx, p)
  {
    if Made(idx, p) {
      ForkPaths(idx, a, NewTip(p));
      WalkShape(idx, p.fork);
    }
  }

  /** Some root names a parent. */
  ghost predicate DirtyRoot(idx: Index)
  {
    exists h :: h in idx && idx[h].height == 0 && idx[h].parent != []
  }

  /** Such an index has a plan that the planner makes and the validator refuses. */
  lemma DirtyRootCounterexample(idx: Index) returns (p: Plan)
    requires DirtyRoot(idx)
    ensures Made(idx, p) && !PlanOk(idx, p)
  {
    var h :| h in idx && idx[h].height == 0 && idx[h].parent != [];
    p := Plan(h, [], []);
    var none: seq<Str> := [];
    assert Walk(idx, h) == Ok([h]) && none + [h] == [h];
    ForkOfSegments(idx, none, none, h);
  }

  /** A rooted height-0 block that sits on another rooted block sits on one whose hash is empty. */
  lemma Grounded(idx: Index, h: Str, parent: Str)
    requires Rooted(idx, h) && Rooted(idx, parent) && ParentIs(idx, h, parent) && h != parent
    requires HeightOf(idx, h) == 0
    ensures EmptyHashAmbiguous(idx)
  {
    assert Walk(idx, h) == Ok([h]);
    assert parent == [];
  }

  lemma OkWithoutAmbiguity(idx: Index, p: Plan)
    requires PlanOk(idx, p) && !EmptyHashAmbiguous(idx)
    ensures AboveGenesis(idx, p.rollback) && AboveGenesis(idx, p.apply)
  {
    forall h | h in p.rollback ensures HeightOf(idx, h) > 0 {
      var i :| 0 <= i < |p.rollback| && p.rollback[i] == h;
      assert ParentIs(idx, h, Below(p.rollback, p.fork, i));
      if HeightOf(idx, h) == 0 { Grounded(idx, h, Below(p.rollback, p.fork, i)); }
    }
    forall h | h in p.apply ensures HeightOf(idx, h) > 0 {
      var i :| 0 <= i < |p.apply| && p.apply[i] == h;
      assert ParentIs(idx, h, Before(p.apply, p.fork, i));
      if HeightOf(idx, h) == 0 { Grounded(idx, h, Before(p.apply, p.fork, i)); }
    }
  }

  /** Where neither is the case, validator and planner agree on a plan. */
  lemma AgreeOnPlan(idx: Index, p: Plan)
    requires !EmptyHashAmbiguous(idx) && !DirtyRoot(idx)
    ensures PlanOk(idx, p) <==> Made(idx, p)
  {
    ValidatorVersusPlanner(idx, p);
    if PlanOk(idx, p) { OkWithoutAmbiguity(idx, p); }
    if Made(idx, p) {
      ForkPaths(idx, OldTip(p), NewTip(p));
      WalkShape(idx, p.fork);
    }
  }

  /**
   On an index, the validator accepts exactly the plans the planner makes if and only if every root is
   without a parent and the empty hash is not ambiguous.
   */
  lemma ValidatorExact(idx: Index)
    ensures (forall p :: PlanOk(idx, p) <==> Made(idx, p)) <==> !EmptyHashAmbiguous(idx) && !DirtyRoot(idx)
  {
    if EmptyHashAmbiguous(idx) {
      var p := AmbiguousCounterexample(idx);
    } else if DirtyRoot(idx) {
      var p := DirtyRootCounterexample(idx);
    } else {
      forall p ensures PlanOk(idx, p) <==> Made(idx, p) { AgreeOnPlan(idx, p); }
    }
  }

  /** Applying minus rolling back is the height gained. */
  lemma PlanHeights(idx: Index, p: Plan)
    requires Made(idx, p)
    ensures OldTip(p) in idx && NewTip(p) in idx
    ensures |p.apply| - |p.rollback| == idx[NewTip(p)].height - idx[OldTip(p)].height
  {
    ForkPaths(idx, OldTip(p), NewTip(p));
    WalkShape(idx, OldTip(p));
    WalkShape(idx, NewTip(p));
  }

  /** An index whose keys include the empty string is enough for the two to part. */
  lemma AmbiguousIndex() returns (idx: Index, p: Plan)
    ensures PlanOk(idx, p) && TryFromTips(idx, OldTip(p), NewTip(p)) == Err(NoCommonAncestor)
  {
    var root: Str, other: Str := [], [97];
    idx := map[root := Entry(root, 0), other := Entry(root, 0)];
    p := Plan(root, [other], []);
    assert Walk(idx, root) == Ok([root]) && Walk(idx, other) == Ok([other]);
    assert ParentIs(idx, p.rollback[0], Below(p.rollback, p.fork, 0));
    UntilRoot(idx, root, {other}, [root]);
    assert Members([other]) == {other};
  }

  /** So is an index whose one root names a parent. */
  lemma DirtyRootIndex() returns (idx: Index, p: Plan)
    ensures TryFromTips(idx, OldTip(p), NewTip(p)) == Ok(p) && !PlanOk(idx, p)
  {
    var root: Str, parent: Str := [97], [120];
    idx := map[root := Entry(parent, 0)];
    assert idx[root].height == 0 && idx[root].parent != [];
    p := DirtyRootCounterexample(idx);
  }

  // ---------------------------------------------------------------- the validator

  datatype PlanFault =
    | BlockPath(error: PathError)
    | BrokenRollbackChain(block: Str)
    | BrokenApplyChain(block: Str)
    | DuplicateBlock(block: Str, side: Side)
    | DuplicateAcrossSegments(block: Str)
    | ForkInsideSegments(block: Str)

  datatype Side = RollbackSide | ApplySide

  /** The fault names something that is wrong with the plan. */
  ghost predicate Blames(idx: Index, p: Plan, e: PlanFault)
  {
    match e
    case BlockPath(fault) =>
      exists h :: (h == p.fork || h in p.rollback || h in p.apply) && AncestryFault(idx, h) == Some(fault)
    case BrokenRollbackChain(b) =>
      exists i {:trigger Below(p.rollback, p.fork, i)} ::
        0 <= i < |p.rollback| && b == p.rollback[i] && !ParentIs(idx, b, Below(p.rollback, p.fork, i))
    case BrokenApplyChain(b) =>
      exists i {:trigger Before(p.apply, p.fork, i)} ::
        0 <= i < |p.apply| && b == p.apply[i] && !ParentIs(idx, b, Before(p.apply, p.fork, i))
    case DuplicateBlock(b, side) => Repeated(if side.RollbackSide? then p.rollback else p.apply, b)
    case DuplicateAcrossSegments(b) => b in p.rollback && b in p.apply
    case ForkInsideSegments(b) => b == p.fork && (b in p.rollback || b in p.apply)
  }

  ghost predicate Repeated(s: seq<Str>, h: Str)
  {
    exists i, j :: 0 <= i < j < |s| && s[i] == h && s[j] == h
  }

  /** `ensure_unique_hashes` */
  method EnsureUnique(hashes: seq<Str>) returns (r: Option<Str>)
    ensures r.None? <==> Distinct(hashes)
    ensures r.Some? ==> Repeated(hashes, r.value)
  {
    var seen: set<Str> := {};
    for n := 0 to |hashes|
      invariant forall h :: h in seen <==> h in hashes[..n]
      invariant forall i, j :: 0 <= i < j < n ==> hashes[i] != hashes[j]
    {
      if hashes[n] in seen {
        return Some(hashes[n]);
      }
      seen := seen + {hashes[n]};
    }
    return None;
  }

  /** `ensure_no_duplicate_across_segments` */
  method EnsureDisjoint(rollback: seq<Str>, apply: seq<Str>) returns (r: Option<Str>)
    ensures r.None? <==> forall h :: h in rollback ==> h !in apply
    ensures r.Some? ==> r.value in rollback && r.value in apply
  {
    for n := 0 to |rollback|
      invariant forall i :: 0 <= i < n ==> rollback[i] !in apply
    {
      if rollback[n] in apply {
        return Some(rollback[n]);
      }
    }
    return None;
  }

  method FindHash(hashes: seq<Str>, h: Str) returns (found: bool)
    ensures found <==> h in hashes
  {
    for n := 0 to |hashes|
      invariant h !in hashes[..n]
    {
      if hashes[n] == h {
        return true;
      }
    }
    return false;
  }

  datatype LinkFault = Unrooted(error: PathError) | WrongParent

  /** One entry of a segment: its ancestry, then its parent. */
  method CheckLink(idx: Index, h: Str, parent: Str) returns (r: Option<LinkFault>)
    ensures r.None? <==> Rooted(idx, h) && ParentIs(idx, h, parent)
    ensures r == Some(WrongParent) ==> !ParentIs(idx, h, parent)
    ensures r.Some? && r.value.Unrooted? ==> AncestryFault(idx, h) == Some(r.value.error)
  {
    var v := ValidateBlockAncestry(idx, h);
    if v.Some? {
      return Some(Unrooted(v.value));
    }
    WalkShape(idx, h);
    return if idx[h].parent != parent then Some(WrongParent) else None;
  }

  method CheckRollback(idx: Index, p: Plan) returns (r: Option<PlanFault>)
    ensures r.None? <==> AllRooted(idx, p.rollback) && TipFirst(idx, p.rollback, p.fork)
    ensures r.Some? ==> Blames(idx, p, r.value)
  {
    for n := 0 to |p.rollback|
      invariant forall h :: h in p.rollback[..n] ==> Rooted(idx, h)
      invariant forall i {:trigger Below(p.rollback, p.fork, i)} :: 0 <= i < n ==>
        ParentIs(idx, p.rollback[i], Below(p.rollback, p.fork, i))
    {
      var h := p.rollback[n];
      var v := CheckLink(idx, h, Below(p.rollback, p.fork, n));
      if v.Some? {
        return Some(match v.value case Unrooted(e) => BlockPath(e) case WrongParent => BrokenRollbackChain(h));
      }
    }
    return None;
  }

  method CheckApply(idx: Index, p: Plan) returns (r: Option<PlanFault>)
    ensures r.None? <==> AllRooted(idx, p.apply) && ParentFirst(idx, p.apply, p.fork)
    ensures r.Some? ==> Blames(idx, p, r.value)
  {
    for n := 0 to |p.apply|
      invariant forall h :: h in p.apply[..n] ==> Rooted(idx, h)
      invariant forall i {:trigger Before(p.apply, p.fork, i)} :: 0 <= i < n ==>
        ParentIs(idx, p.apply[i], Before(p.apply, p.fork, i))
    {
      var h := p.apply[n];
      var v := CheckLink(idx, h, Before(p.apply, p.fork, n));
      if v.Some? {
        return Some(match v.value case Unrooted(e) => BlockPath(e) case WrongParent => BrokenApplyChain(h));
      }
    }
    return None;
  }

  /** The checks that look at the plan's hashes alone. */
  method CheckHashes(p: Plan) returns (r: Option<PlanFault>)
    ensures r.None? <==>
      && Distinct(p.rollback) && Distinct(p.apply) && (forall h :: h in p.rollback ==> h !in p.apply)
      && p.fork !in p.rollback && p.fork !in p.apply
    ensures r.Some? ==> !r.value.BlockPath? && !r.value.BrokenRollbackChain? && !r.value.BrokenApplyChain?
    ensures r.Some? ==> forall idx :: Blames(idx, p, r.value)
  {
    var twice := EnsureUnique(p.rollback);
    if twice.Some? {
      return Some(DuplicateBlock(twice.value, RollbackSide));
    }
    twice := EnsureUnique(p.apply);
    if twice.Some? {
      return Some(DuplicateBlock(twice.value, ApplySide));
    }
    var shared := EnsureDisjoint(p.rollback, p.apply);
    if shared.Some? {
      return Some(DuplicateAcrossSegments(shared.value));
    }
    var inRollback := FindHash(p.rollback, p.fork);
    var inApply := FindHash(p.apply, p.fork);
    return if inRollback || inApply then Some(ForkInsideSegments(p.fork)) else None;
  }

  /** `ReorgPlan::validate_against_index` */
  method ValidateAgainstIndex(idx: Index, p: Plan) returns (r: Option<PlanFault>)
    ensures r.None? <==> PlanOk(idx, p)
    ensures r.Some? ==> Blames(idx, p, r.value)
  {
    var root := ValidateBlockAncestry(idx, p.fork);
    if root.Some? {
      return Some(BlockPath(root.value));
    }
    r := CheckHashes(p);
    if r.Some? {
      return;
    }
    r := CheckRollback(idx, p);
    if r.Some? {
      return;
    }
    r := CheckApply(idx, p);
  }
}
