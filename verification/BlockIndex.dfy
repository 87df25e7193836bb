/** A parent-pointer index of blocks: validated walks to the root and the fork between two tips. */
module BlockIndex {
  import opened Prelude

  datatype Entry = Entry(parent: Str, height: u64)

  type Index = map<Str, Entry>

  datatype PathError =
    | UnknownBlock(block: Str)
    | MissingParentLink(block: Str)
    | Cycle(block: Str)
    | NoCommonAncestor
    | ParentHeightOverflow(block: Str)
    | HeightMismatch(block: Str)
    | RootWithParent(block: Str)

  type PathResult = Result<seq<Str>, PathError>

  // ---------------------------------------------------------------- walks

  /** `validated_parent_hash` */
  function ValidatedParent(idx: Index, b: Str): (r: Result<Str, PathError>)
    requires b in idx
    ensures r.Ok? ==> r.value in idx && idx[r.value].height + 1 == idx[b].height && idx[b].parent == r.value != b
  {
    var p := idx[b].parent;
    if p == b then Err(Cycle(b))
    else if p == [] then Err(MissingParentLink(b))
    else if p !in idx then Err(MissingParentLink(b))
    else if idx[p].height == U64_MAX then Err(ParentHeightOverflow(b))
    else if idx[p].height + 1 != idx[b].height then Err(HeightMismatch(b))
    else Ok(p)
  }

  function HeightOf(idx: Index, b: Str): (h: nat)
  {
    if b in idx then idx[b].height else 0
  }

  /** `path_from_tip_toward_genesis`: tip first, root last. */
  function Walk(idx: Index, tip: Str): (r: PathResult)
    decreases HeightOf(idx, tip)
  {
    if tip !in idx then Err(UnknownBlock(tip))
    else if idx[tip].height == 0 then Ok([tip])
    else
      match ValidatedParent(idx, tip)
      case Err(e) => Err(e)
      case Ok(p) => Prepend([tip], Walk(idx, p))
  }

  /** A successful walk has one block per height, each the parent of the one before. */
  lemma {:induction false} WalkShape(idx: Index, tip: Str)
    requires Walk(idx, tip).Ok?
    ensures var path := Walk(idx, tip).value;
            && tip in idx && |path| == idx[tip].height + 1 && path[0] == tip
            && (forall i :: 0 <= i < |path| ==> path[i] in idx && idx[path[i]].height == idx[tip].height - i)
            && (forall i :: 0 <= i < |path| - 1 ==> idx[path[i]].parent == path[i + 1])
    decreases HeightOf(idx, tip)
  {
    if idx[tip].height != 0 {
      var p := ValidatedParent(idx, tip).value;
      WalkShape(idx, p);
      var rest := Walk(idx, p).value;
      var path := [tip] + rest;
      forall i | 0 <= i < |path| ensures path[i] in idx && idx[path[i]].height == idx[tip].height - i {
        if i > 0 { assert path[i] == rest[i - 1]; }
      }
      forall i | 0 <= i < |path| - 1 ensures idx[path[i]].parent == path[i + 1] {
        if i > 0 { assert path[i] == rest[i - 1] && path[i + 1] == rest[i]; }
      }
    }
  }

  /** From any block of a walk, the walk goes on the same way. */
  lemma {:induction false} WalkSuffix(idx: Index, tip: Str, i: nat)
    requires Walk(idx, tip).Ok? && i < |Walk(idx, tip).value|
    ensures Walk(idx, Walk(idx, tip).value[i]) == Ok(Walk(idx, tip).value[i..])
    decreases i
  {
    var path := Walk(idx, tip).value;
    if i == 0 {
      WalkShape(idx, tip);
      assert path[0..] == path;
    } else {
      var p := ValidatedParent(idx, tip).value;
      WalkSuffix(idx, p, i - 1);
      assert path[i..] == Walk(idx, p).value[i - 1..];
    }
  }

  /** `a` names `b` as its parent and stands one above it. */
  predicate Link(idx: Index, a: Str, b: Str)
  {
    && a in idx && b in idx && b != []
    && idx[a].parent == b && idx[a].height == idx[b].height + 1
  }

  ghost predicate Links(idx: Index, path: seq<Str>)
  {
    forall i {:trigger LinkAt(idx, path, i)} :: 0 <= i < |path| - 1 ==> LinkAt(idx, path, i)
  }

  predicate LinkAt(idx: Index, path: seq<Str>, i: nat)
    requires i < |path| - 1
  {
    Link(idx, path[i], path[i + 1])
  }

  /** Links all the way from `tip` to a block at height zero. */
  ghost predicate PathToRoot(idx: Index, tip: Str, path: seq<Str>)
  {
    && path != [] && path[0] == tip && Links(idx, path)
    && path[|path| - 1] in idx && idx[path[|path| - 1]].height == 0
  }

  lemma LinksTail(idx: Index, path: seq<Str>)
    requires path != [] && Links(idx, path)
    ensures Links(idx, path[1..])
  {
    var rest := path[1..];
    forall i | 0 <= i < |rest| - 1 ensures LinkAt(idx, rest, i) {
      assert LinkAt(idx, path, i + 1);
    }
  }

  lemma LinksCons(idx: Index, a: Str, rest: seq<Str>)
    requires rest != [] && Links(idx, rest) && Link(idx, a, rest[0])
    ensures Links(idx, [a] + rest)
  {
    var path := [a] + rest;
    forall i | 0 <= i < |path| - 1 ensures LinkAt(idx, path, i) {
      if i > 0 { assert LinkAt(idx, rest, i - 1); }
    }
  }

  /** A walk succeeds if and only if there is a path of links to a root, and then it finds that path. */
  lemma WalkExact(idx: Index, tip: Str, path: seq<Str>)
    ensures Walk(idx, tip) == Ok(path) <==> PathToRoot(idx, tip, path)
  {
    if Walk(idx, tip) == Ok(path) { WalkFindsPath(idx, tip); }
    if PathToRoot(idx, tip, path) { PathIsWalked(idx, tip, path); }
  }

  lemma {:induction false} WalkFindsPath(idx: Index, tip: Str)
    requires Walk(idx, tip).Ok?
    ensures PathToRoot(idx, tip, Walk(idx, tip).value)
    decreases HeightOf(idx, tip)
  {
    if idx[tip].height != 0 {
      var p := ValidatedParent(idx, tip).value;
      WalkFindsPath(idx, p);
      LinksCons(idx, tip, Walk(idx, p).value);
    }
  }

  lemma {:induction false} PathIsWalked(idx: Index, tip: Str, path: seq<Str>)
    requires PathToRoot(idx, tip, path)
    ensures Walk(idx, tip) == Ok(path)
    decreases |path|
  {
    if |path| > 1 {
      assert LinkAt(idx, path, 0);
      LinksTail(idx, path);
      PathIsWalked(idx, path[1], path[1..]);
      assert path == [tip] + path[1..];
    } else {
      assert path == [tip];
    }
  }

  /** The block that stopped a walk, and what is wrong there. */
  ghost predicate Stuck(idx: Index, b: Str, e: PathError)
  {
    if b !in idx then e == UnknownBlock(b)
    else
      && idx[b].height > 0
      && var p := idx[b].parent;
         match e
         case Cycle(x) => x == b && p == b
         case MissingParentLink(x) => x == b && p != b && (p == [] || p !in idx)
         case ParentHeightOverflow(x) => x == b && p != b && p != [] && p in idx && idx[p].height == U64_MAX
         case HeightMismatch(x) =>
           x == b && p != b && p != [] && p in idx && idx[p].height != U64_MAX && idx[p].height + 1 != idx[b].height
         case _ => false
  }

  /** Links from `tip` to a block where `e` stops the walk. */
  ghost predicate StuckPath(idx: Index, tip: Str, path: seq<Str>, e: PathError)
  {
    path != [] && path[0] == tip && Links(idx, path) && Stuck(idx, path[|path| - 1], e)
  }

  /** A walk fails with an error if and only if links lead from the tip to a block with just that fault. */
  lemma WalkFailsExact(idx: Index, tip: Str, e: PathError)
    ensures Walk(idx, tip) == Err(e) <==> exists path :: StuckPath(idx, tip, path, e)
  {
    if Walk(idx, tip) == Err(e) { var path := WalkFindsFault(idx, tip); }
    forall path | StuckPath(idx, tip, path, e) ensures Walk(idx, tip) == Err(e) {
      FaultIsFound(idx, tip, path, e);
    }
  }

  lemma {:induction false} WalkFindsFault(idx: Index, tip: Str) returns (path: seq<Str>)
    requires Walk(idx, tip).Err?
    ensures StuckPath(idx, tip, path, Walk(idx, tip).error)
    decreases HeightOf(idx, tip)
  {
    path := [tip];
    if tip in idx && ValidatedParent(idx, tip).Ok? {
      var rest := WalkFindsFault(idx, ValidatedParent(idx, tip).value);
      LinksCons(idx, tip, rest);
      path := [tip] + rest;
    }
  }

  lemma {:induction false} FaultIsFound(idx: Index, tip: Str, path: seq<Str>, e: PathError)
    requires StuckPath(idx, tip, path, e)
    ensures Walk(idx, tip) == Err(e)
    decreases |path|
  {
    if |path| > 1 {
      assert LinkAt(idx, path, 0);
      LinksTail(idx, path);
      FaultIsFound(idx, path[1], path[1..], e);
    }
  }

  lemma WalkDistinct(idx: Index, tip: Str)
    requires Walk(idx, tip).Ok?
    ensures Distinct(Walk(idx, tip).value)
    ensures |Walk(idx, tip).value| <= |idx|
  {
    WalkShape(idx, tip);
    DistinctFits(Walk(idx, tip).value, idx.Keys);
  }

  /** On any index whatever, a walk blames a cycle only on a block that is its own parent. */
  lemma {:induction false} CycleIsSelfParent(idx: Index, tip: Str, b: Str)
    requires Walk(idx, tip) == Err(Cycle(b))
    ensures b in idx && idx[b].parent == b
    decreases HeightOf(idx, tip)
  {
    var p := ValidatedParent(idx, tip);
    if p.Ok? { CycleIsSelfParent(idx, p.value, b); }
  }

  // ---------------------------------------------------------------- the walking loop

  /** Blocks passed on the way to `cur`, at falling heights all above it. */
  ghost predicate Descending(idx: Index, done: seq<Str>, cur: Str)
  {
    && (forall i :: 0 <= i < |done| ==> done[i] in idx && idx[done[i]].height > HeightOf(idx, cur))
    && (forall i, j :: 0 <= i < j < |done| ==>
          done[i] in idx && done[j] in idx && idx[done[i]].height > idx[done[j]].height)
  }

  lemma DescendingFits(idx: Index, done: seq<Str>, cur: Str)
    requires Descending(idx, done, cur)
    ensures |done| <= |idx|
    ensures cur in idx ==> cur !in done
  {
    DistinctFits(done, idx.Keys);
  }

  lemma DescendingStep(idx: Index, done: seq<Str>, cur: Str, p: Str)
    requires Descending(idx, done, cur) && cur in idx && p in idx && idx[p].height < idx[cur].height
    ensures Descending(idx, done + [cur], p)
  {
  }

  /** A stopping walk from `start` that has passed `suffix` and stands at `cur`. */
  ghost predicate Under(idx: Index, start: Str, stop: set<Str>, suffix: seq<Str>, cur: Str)
  {
    && Descending(idx, suffix, cur)
    && Walk(idx, start) == Prepend(suffix, Walk(idx, cur))
    && forall i :: 0 <= i < |suffix| ==> suffix[i] !in stop
  }

  lemma UnderStart(idx: Index, start: Str, stop: set<Str>)
    ensures Under(idx, start, stop, [], start)
  {
    PrependNothing([], Walk(idx, start));
  }

  lemma UnderStep(idx: Index, start: Str, stop: set<Str>, suffix: seq<Str>, cur: Str)
    requires Under(idx, start, stop, suffix, cur) && cur in idx && cur !in stop
    requires idx[cur].height > 0 && ValidatedParent(idx, cur).Ok?
    ensures Under(idx, start, stop, suffix + [cur], ValidatedParent(idx, cur).value)
  {
    var p := ValidatedParent(idx, cur).value;
    PrependOneMore(suffix, cur, Walk(idx, p));
    DescendingStep(idx, suffix, cur, p);
  }

  /** Walks from `start`; the visited set and the step limit are never what stops it. */
  method PathFromTip(idx: Index, start: Str) returns (r: PathResult)
    ensures r == Walk(idx, start)
  {
    var chain: seq<Str> := [];
    var cur := start;
    var visited: set<Str> := {};
    r := Err(Cycle(cur));
    UnderStart(idx, start, {});
    for step := 0 to |idx| + 2
      invariant |chain| == step && visited == Members(chain)
      invariant step > 0 ==> cur in idx
      invariant Under(idx, start, {}, chain, cur)
    {
      DescendingFits(idx, chain, cur);
      if cur in visited {
        assert false;
      }
      visited := visited + {cur};
      if cur !in idx {
        return Err(UnknownBlock(cur));
      }
      if idx[cur].height == 0 {
        return Ok(chain + [cur]);
      }
      var parent := ValidatedParent(idx, cur);
      if parent.Err? {
        return Err(parent.error);
      }
      UnderStep(idx, start, {}, chain, cur);
      chain := chain + [cur];
      cur := parent.value;
    }
    DescendingFits(idx, chain, cur);
    assert false;
  }

  // ---------------------------------------------------------------- forks

  /** Position of the first block of `path` that is in `stop`, or the length of `path`. */
  function FirstIn(path: seq<Str>, stop: set<Str>): (i: nat)
    ensures i <= |path|
    ensures i < |path| ==> path[i] in stop
    ensures forall j :: 0 <= j < i ==> path[j] !in stop
  {
    if path == [] || path[0] in stop then 0
    else
      assert forall j :: 0 < j < |path| ==> path[j] == path[1..][j - 1];
      1 + FirstIn(path[1..], stop)
  }

  datatype ForkSlices = ForkSlices(fork: Str, oldSuffix: seq<Str>, newSuffix: seq<Str>)

  /** The walk from `start` up to the first block in `stop`. */
  function WalkUntil(idx: Index, start: Str, stop: set<Str>): (r: Result<(seq<Str>, Str), PathError>)
  {
    match Walk(idx, start)
    case Err(e) => Err(e)
    case Ok(path) =>
      var i := FirstIn(path, stop);
      if i == |path| then Err(NoCommonAncestor) else Ok((path[..i], path[i]))
  }

  /** `fork_slices_between_tips` */
  function Fork(idx: Index, oldTip: Str, newTip: Str): (r: Result<ForkSlices, PathError>)
  {
    match Walk(idx, oldTip)
    case Err(e) => Err(e)
    case Ok(oldPath) =>
      match WalkUntil(idx, newTip, Members(oldPath))
      case Err(e) => Err(e)
      case Ok((newSuffix, fork)) =>
        match WalkUntil(idx, oldTip, {fork})
        case Err(e) => Err(e)
        case Ok((oldSuffix, _)) => Ok(ForkSlices(fork, oldSuffix, newSuffix))
  }

  lemma WalkSplit(idx: Index, tip: Str, i: nat)
    requires Walk(idx, tip).Ok? && i < |Walk(idx, tip).value|
    ensures var path := Walk(idx, tip).value;
            Walk(idx, path[i]).Ok? && path == path[..i] + Walk(idx, path[i]).value
  {
    var path := Walk(idx, tip).value;
    WalkSuffix(idx, tip, i);
    assert path == path[..i] + path[i..];
  }

  /** Both tips reach `fork`, along suffixes that share nothing. */
  lemma ForkPaths(idx: Index, oldTip: Str, newTip: Str)
    requires Fork(idx, oldTip, newTip).Ok?
    ensures var f := Fork(idx, oldTip, newTip).value;
            && Walk(idx, f.fork).Ok?
            && Walk(idx, oldTip) == Ok(f.oldSuffix + Walk(idx, f.fork).value)
            && Walk(idx, newTip) == Ok(f.newSuffix + Walk(idx, f.fork).value)
            && (forall h :: h in f.newSuffix ==> h !in f.oldSuffix)
  {
    var f := Fork(idx, oldTip, newTip).value;
    var po, pn := Walk(idx, oldTip).value, Walk(idx, newTip).value;
    var i, j := FirstIn(pn, Members(po)), FirstIn(po, {f.fork});
    WalkSplit(idx, newTip, i);
    WalkSplit(idx, oldTip, j);
    forall h | h in f.newSuffix ensures h !in f.oldSuffix {
      assert h !in po;
      assert forall x :: x in po[..j] ==> x in po;
    }
  }

  /** Two walks that share a block always fork. */
  lemma ForkExists(idx: Index, oldTip: Str, newTip: Str)
    ensures Fork(idx, oldTip, newTip).Ok? <==>
      && Walk(idx, oldTip).Ok? && Walk(idx, newTip).Ok?
      && exists h :: h in Walk(idx, oldTip).value && h in Walk(idx, newTip).value
  {
    if Walk(idx, oldTip).Ok? && Walk(idx, newTip).Ok? {
      var po, pn := Walk(idx, oldTip).value, Walk(idx, newTip).value;
      var i := FirstIn(pn, Members(po));
      if i < |pn| {
        assert pn[i] in po;
        assert FirstIn(po, {pn[i]}) < |po|;
      } else {
        assert forall h :: h in pn ==> h !in po;
      }
    }
  }

  /** Why there is no fork: the old walk fails, else the new walk fails, else they share no block. */
  lemma ForkFails(idx: Index, oldTip: Str, newTip: Str)
    requires Fork(idx, oldTip, newTip).Err?
    ensures Fork(idx, oldTip, newTip).error ==
      if Walk(idx, oldTip).Err? then Walk(idx, oldTip).error
      else if Walk(idx, newTip).Err? then Walk(idx, newTip).error
      else NoCommonAncestor
  {
  }

  /** The fork is the common ancestor of greatest height. */
  lemma ForkIsHighest(idx: Index, oldTip: Str, newTip: Str, h: Str)
    requires Fork(idx, oldTip, newTip).Ok?
    requires h in Walk(idx, oldTip).value && h in Walk(idx, newTip).value
    ensures h in idx && Fork(idx, oldTip, newTip).value.fork in idx
    ensures idx[h].height <= idx[Fork(idx, oldTip, newTip).value.fork].height
  {
    var po, pn := Walk(idx, oldTip).value, Walk(idx, newTip).value;
    WalkShape(idx, newTip);
    var i := FirstIn(pn, Members(po));
    var k :| 0 <= k < |pn| && pn[k] == h;
    assert k >= i;
  }

  /** The common part below a fork has the same length on both sides. */
  lemma CommonTail(idx: Index, a: Str, b: Str, i: nat, j: nat)
    requires Walk(idx, a).Ok? && Walk(idx, b).Ok?
    requires i < |Walk(idx, a).value| && j < |Walk(idx, b).value|
    requires Walk(idx, a).value[i] == Walk(idx, b).value[j]
    ensures |Walk(idx, a).value| - i == |Walk(idx, b).value| - j
  {
    WalkSuffix(idx, a, i);
    WalkSuffix(idx, b, j);
  }

  lemma FirstOfOne(path: seq<Str>, j: nat)
    requires Distinct(path) && j < |path|
    ensures FirstIn(path, {path[j]}) == j
  {
    assert path[j] in {path[j]};
  }

  lemma FirstSharedInLists(pa: seq<Str>, pb: seq<Str>)
    requires forall x, y :: 0 <= x < |pa| && 0 <= y < |pb| && pa[x] == pb[y] ==> |pa| - x == |pb| - y
    requires FirstIn(pa, Members(pb)) < |pa|
    ensures var i, j := FirstIn(pa, Members(pb)), FirstIn(pb, Members(pa));
            j < |pb| && pa[i] == pb[j]
  {
    var i, j := FirstIn(pa, Members(pb)), FirstIn(pb, Members(pa));
    assert pa[i] in pb;
    var j' :| 0 <= j' < |pb| && pb[j'] == pa[i];
    assert pb[j'] in Members(pa);
    assert j <= j' && pb[j] in pa;
    var i' :| 0 <= i' < |pa| && pa[i'] == pb[j];
    assert pa[i'] in Members(pb);
    assert i <= i';
  }

  /** From either side, the first shared block is the same. */
  lemma FirstSharedAgree(idx: Index, a: Str, b: Str)
    requires Walk(idx, a).Ok? && Walk(idx, b).Ok?
    requires FirstIn(Walk(idx, a).value, Members(Walk(idx, b).value)) < |Walk(idx, a).value|
    ensures var pa, pb := Walk(idx, a).value, Walk(idx, b).value;
            var i, j := FirstIn(pa, Members(pb)), FirstIn(pb, Members(pa));
            j < |pb| && pa[i] == pb[j]
  {
    var pa, pb := Walk(idx, a).value, Walk(idx, b).value;
    forall x, y | 0 <= x < |pa| && 0 <= y < |pb| && pa[x] == pb[y] ensures |pa| - x == |pb| - y {
      CommonTail(idx, a, b, x, y);
    }
    FirstSharedInLists(pa, pb);
  }

  /** Swapping the tips finds the same fork and swaps the suffixes. */
  lemma ForkSymmetric(idx: Index, oldTip: Str, newTip: Str)
    requires Fork(idx, oldTip, newTip).Ok?
    ensures var f := Fork(idx, oldTip, newTip).value;
            Fork(idx, newTip, oldTip) == Ok(ForkSlices(f.fork, f.newSuffix, f.oldSuffix))
  {
    var po, pn := Walk(idx, oldTip).value, Walk(idx, newTip).value;
    var i, j := FirstIn(pn, Members(po)), FirstIn(po, Members(pn));
    FirstSharedAgree(idx, newTip, oldTip);
    WalkDistinct(idx, oldTip);
    WalkDistinct(idx, newTip);
    FirstOfOne(po, j);
    FirstOfOne(pn, i);
  }

  lemma UnderFails(idx: Index, start: Str, stop: set<Str>, suffix: seq<Str>, cur: Str)
    requires Under(idx, start, stop, suffix, cur) && Walk(idx, cur).Err?
    ensures WalkUntil(idx, start, stop) == Err(Walk(idx, cur).error)
  {
  }

  /** The loop shared by both halves of the fork search: walk until a block of `stop`. */
  method WalkUntilLoop(idx: Index, start: Str, stop: set<Str>) returns (r: Result<(seq<Str>, Str), PathError>)
    requires forall h :: h in stop ==> Walk(idx, h).Ok?
    ensures r == WalkUntil(idx, start, stop)
  {
    var suffix: seq<Str> := [];
    var cur := start;
    var visited: set<Str> := {};
    r := Err(Cycle(cur));
    UnderStart(idx, start, stop);
    for step := 0 to |idx| + 2
      invariant |suffix| == step && visited == Members(suffix)
      invariant step > 0 ==> cur in idx
      invariant Under(idx, start, stop, suffix, cur)
    {
      DescendingFits(idx, suffix, cur);
      if cur in visited {
        assert false;
      }
      visited := visited + {cur};
      if cur in stop {
        UntilStop(idx, start, stop, suffix, cur);
        return Ok((suffix, cur));
      }
      if cur !in idx {
        UnderFails(idx, start, stop, suffix, cur);
        return Err(UnknownBlock(cur));
      }
      if idx[cur].height == 0 {
        UntilRoot(idx, start, stop, suffix + [cur]);
        return Err(NoCommonAncestor);
      }
      var parent := ValidatedParent(idx, cur);
      if parent.Err? {
        UnderFails(idx, start, stop, suffix, cur);
        return Err(parent.error);
      }
      UnderStep(idx, start, stop, suffix, cur);
      suffix := suffix + [cur];
      cur := parent.value;
    }
    DescendingFits(idx, suffix, cur);
    assert false;
  }

  lemma UntilStop(idx: Index, start: Str, stop: set<Str>, suffix: seq<Str>, cur: Str)
    requires Walk(idx, cur).Ok? && Walk(idx, start) == Prepend(suffix, Walk(idx, cur))
    requires cur in stop && forall i :: 0 <= i < |suffix| ==> suffix[i] !in stop
    ensures WalkUntil(idx, start, stop) == Ok((suffix, cur))
  {
    WalkShape(idx, cur);
    var path := Walk(idx, start).value;
    assert path[|suffix|] == cur && path[..|suffix|] == suffix;
  }

  lemma UntilRoot(idx: Index, start: Str, stop: set<Str>, path: seq<Str>)
    requires Walk(idx, start) == Ok(path)
    requires forall i :: 0 <= i < |path| ==> path[i] !in stop
    ensures WalkUntil(idx, start, stop) == Err(NoCommonAncestor)
  {
  }

  method ForkSlicesBetweenTips(idx: Index, oldTip: Str, newTip: Str) returns (r: Result<ForkSlices, PathError>)
    ensures r == Fork(idx, oldTip, newTip)
  {
    var oldPath := PathFromTip(idx, oldTip);
    if oldPath.Err? {
      return Err(oldPath.error);
    }
    forall h | h in Members(oldPath.value) ensures Walk(idx, h).Ok? {
      var i :| 0 <= i < |oldPath.value| && oldPath.value[i] == h;
      WalkSuffix(idx, oldTip, i);
    }
    var ahead := WalkUntilLoop(idx, newTip, Members(oldPath.value));
    if ahead.Err? {
      return Err(ahead.error);
    }
    var (newSuffix, fork) := ahead.value;
    var back := WalkUntilLoop(idx, oldTip, {fork});
    if back.Err? {
      return Err(back.error);
    }
    r := Ok(ForkSlices(fork, back.value.0, newSuffix));
  }

  // ---------------------------------------------------------------- ancestry

  /** The walk succeeds and its root has no parent. */
  predicate Rooted(idx: Index, b: Str)
  {
    Walk(idx, b).Ok? && RootClean(idx, b)
  }

  predicate RootClean(idx: Index, b: Str)
    requires Walk(idx, b).Ok?
  {
    var path := Walk(idx, b).value;
    path != [] && path[|path| - 1] in idx && idx[path[|path| - 1]].parent == []
  }

  /** What is wrong with the ancestry of a block: its walk, or a root that has a parent. */
  function AncestryFault(idx: Index, b: Str): (r: Option<PathError>)
    ensures r.None? <==> Rooted(idx, b)
  {
    match Walk(idx, b)
    case Err(e) => Some(e)
    case Ok(path) =>
      WalkShape(idx, b);
      var root := path[|path| - 1];
      if idx[root].parent != [] then Some(RootWithParent(root)) else None
  }

  /** A block has a sound ancestry exactly when links lead from it to a root without a parent. */
  lemma RootedExact(idx: Index, b: Str)
    ensures Rooted(idx, b) <==>
      exists path :: PathToRoot(idx, b, path) && idx[path[|path| - 1]].parent == []
  {
    if Rooted(idx, b) { WalkExact(idx, b, Walk(idx, b).value); }
    forall path | PathToRoot(idx, b, path) && idx[path[|path| - 1]].parent == [] ensures Rooted(idx, b) {
      WalkExact(idx, b, path);
    }
  }

  /** Otherwise it is blamed on the walk, or on the parent that the root names. */
  lemma AncestryFaultExact(idx: Index, b: Str, e: PathError)
    ensures AncestryFault(idx, b) == Some(e) <==>
      || (exists path :: StuckPath(idx, b, path, e))
      || (exists path :: PathToRoot(idx, b, path) && idx[path[|path| - 1]].parent != []
                         && e == RootWithParent(path[|path| - 1]))
  {
    WalkFailsExact(idx, b, e);
    if Walk(idx, b).Ok? { WalkExact(idx, b, Walk(idx, b).value); }
    forall path | PathToRoot(idx, b, path) ensures Walk(idx, b) == Ok(path) { WalkExact(idx, b, path); }
  }

  /** `validate_block_ancestry` */
  method ValidateBlockAncestry(idx: Index, b: Str) returns (r: Option<PathError>)
    ensures r == AncestryFault(idx, b)
  {
    var path := PathFromTip(idx, b);
    if path.Err? {
      return Some(path.error);
    }
    WalkShape(idx, b);
    var root := path.value[|path.value| - 1];
    if idx[root].parent != [] {
      return Some(RootWithParent(root));
    }
    r := None;
  }
}
