/** Writing the block file: appends that may fail half way, and what a restart then finds. */
module BlockFile {
  import opened Prelude
  import opened Records
  import opened Store

  // ---------------------------------------------------------------- the store as a value

  datatype StoreValue = StoreValue(file: Bytes, poisoned: bool, layout: Layout, magicOnDisk: bool)

  /** `None`: the write and its sync succeed. `Some(n)`: they fail with `n` bytes on disk. */
  type Fault = Option<nat>

  function Written(buffer: Bytes, fault: Fault): (r: Bytes)
    ensures r <= buffer
  {
    match fault
    case None => buffer
    case Some(n) => buffer[..Min(n, |buffer|)]
  }

  /** `BlockStore::open_append` on a file with these contents. */
  function OpenStore(file: Bytes): (r: Option<StoreValue>)
  {
    if file == [] then Some(StoreValue(file, false, V2, false))
    else if |file| < 8 then None
    else Some(StoreValue(file, false, LayoutOf(file), LayoutOf(file).V2?))
  }

  predicate NeedsMagic(st: StoreValue)
  {
    st.layout.V2? && !st.magicOnDisk
  }

  /** `BlockStore::append_payload`: success flag and new store. */
  function AppendPayload(sum: Checksum, st: StoreValue, p: Bytes, magicFault: Fault, frameFault: Fault)
    : (r: (bool, StoreValue))
  {
    if st.poisoned || !Framable(p) then (false, st)
    else if NeedsMagic(st) && magicFault.Some? then
      (false, st.(file := st.file + Written(MAGIC_V2, magicFault), poisoned := true))
    else
      var start := if NeedsMagic(st) then st.file + MAGIC_V2 else st.file;
      (frameFault.None?,
       st.(file := start + Written(Frame(sum, st.layout, p), frameFault),
           magicOnDisk := st.magicOnDisk || NeedsMagic(st),
           poisoned := frameFault.Some?))
  }

  /** Everything one append tries to put on disk. */
  function Attempt(sum: Checksum, st: StoreValue, p: Bytes): (r: Bytes)
    requires Framable(p)
  {
    if NeedsMagic(st) then MAGIC_V2 + Frame(sum, st.layout, p) else Frame(sum, st.layout, p)
  }

  /** The store holds exactly `xs`. */
  ghost predicate Stores<T>(k: Framing<T>, st: StoreValue, xs: seq<T>)
  {
    && (st.layout.Legacy? ==> xs != [])
    && if NeedsMagic(st) then st.file == [] && xs == [] else FileOf(k, st.layout, xs) == Some(st.file)
  }

  lemma FileOfSnoc<T>(k: Framing<T>, layout: Layout, xs: seq<T>, x: T)
    requires FileOf(k, layout, xs).Some? && Payload(k, x).Some?
    ensures FileOf(k, layout, xs + [x]) == Some(FileOf(k, layout, xs).value + Frame(k.sum, layout, Payload(k, x).value))
  {
    LogConcat(k, layout, xs, [x]);
    LogOne(k, layout, x);
    ConcatAssoc(MAGIC_V2, Log(k, layout, xs).value, Frame(k.sum, layout, Payload(k, x).value));
  }

  /** A complete attempt turns the file of `xs` into the file of `xs` and `x`. */
  lemma AttemptCompletes<T>(k: Framing<T>, st: StoreValue, xs: seq<T>, x: T)
    requires Stores(k, st, xs) && Payload(k, x).Some?
    ensures FileOf(k, st.layout, xs + [x]) == Some(st.file + Attempt(k.sum, st, Payload(k, x).value))
  {
    if NeedsMagic(st) {
      var attempt := Attempt(k.sum, st, Payload(k, x).value);
      assert MAGIC_V2 + [] == MAGIC_V2 && [] + attempt == attempt;
    }
    FileOfSnoc(k, st.layout, xs, x);
  }

  /** An append stores the item, or leaves the file alone, or poisons the store behind a prefix of the attempt. */
  lemma AppendMeaning<T>(k: Framing<T>, st: StoreValue, xs: seq<T>, x: T, magicFault: Fault, frameFault: Fault)
    requires Stores(k, st, xs) && !st.poisoned && k.format.encode(x).Some?
    ensures var (ok, st') := AppendPayload(k.sum, st, k.format.encode(x).value, magicFault, frameFault);
            && (ok ==> Payload(k, x).Some? && !st'.poisoned && Stores(k, st', xs + [x]))
            && (!ok && !st'.poisoned ==> Payload(k, x).None? && st' == st)
            && (st'.poisoned ==>
                  && Payload(k, x).Some? && !ok
                  && Residue(st.file, Attempt(k.sum, st, Payload(k, x).value), st'.file))
  {
    if Payload(k, x).Some? {
      var p := Payload(k, x).value;
      AttemptCompletes(k, st, xs, x);
      var f := Frame(k.sum, st.layout, p);
      if NeedsMagic(st) {
        if magicFault.Some? {
          ResidueOf(st.file, MAGIC_V2, f, Written(MAGIC_V2, magicFault));
        } else {
          ResidueAfter(st.file, MAGIC_V2, f, Written(f, frameFault));
          ConcatAssoc(st.file, MAGIC_V2, f);
        }
      } else {
        ResidueSelf(st.file, f, Written(f, frameFault));
      }
    }
  }

  /** `file` is `before` followed by some prefix of `attempt`. */
  ghost predicate Residue(before: Bytes, attempt: Bytes, file: Bytes)
  {
    before <= file <= before + attempt
  }

  lemma ResidueSelf(before: Bytes, f: Bytes, w: Bytes)
    requires w <= f
    ensures Residue(before, f, before + w)
  {
    assert f == w + f[|w|..];
    ConcatAssoc(before, w, f[|w|..]);
  }

  lemma ResidueOf(before: Bytes, m: Bytes, f: Bytes, w: Bytes)
    requires w <= m
    ensures Residue(before, m + f, before + w)
  {
    ResidueSelf(before, m + f, w);
  }

  lemma ResidueAfter(before: Bytes, m: Bytes, f: Bytes, w: Bytes)
    requires w <= f
    ensures Residue(before, m + f, before + m + w)
  {
    assert m + w <= m + f;
    ConcatAssoc(before, m, w);
    ResidueSelf(before, m + f, m + w);
  }

  // ---------------------------------------------------------------- reloading

  /** A healthy store reloads to exactly what it holds. */
  lemma HealthyReload<T(!new)>(k: Framing<T>, st: StoreValue, xs: seq<T>)
    requires TwoSided(k.format)
    requires Stores(k, st, xs)
    ensures LoadRepairing(k, st.file) == Ok(Loaded(xs, false, st.file))
  {
    if !NeedsMagic(st) { LoadWhole(k, st.layout, xs); }
  }

  /** What a restart finds after a failed append left `j` bytes of its attempt behind. */
  function ReloadOutcome<T>(k: Framing<T>, st: StoreValue, xs: seq<T>, x: T, j: nat): (r: Option<Loaded<T>>)
    requires Payload(k, x).Some? && j <= |Attempt(k.sum, st, Payload(k, x).value)|
  {
    var attempt := Attempt(k.sum, st, Payload(k, x).value);
    if j == |attempt| then Some(Loaded(xs + [x], false, st.file + attempt))
    else if j == 0 || (NeedsMagic(st) && j == 8) then Some(Loaded(xs, false, st.file + attempt[..j]))
    else if xs != [] && j < 4 then Some(Loaded(xs, true, st.file))
    else None
  }

  lemma LayoutWithTail<T>(k: Framing<T>, layout: Layout, xs: seq<T>, tail: Bytes)
    requires FileOf(k, layout, xs).Some? && (layout.Legacy? ==> xs != [])
    ensures LayoutOf(FileOf(k, layout, xs).value + tail) == layout
    ensures BodyOf(FileOf(k, layout, xs).value + tail) == Log(k, layout, xs).value + tail
  {
    var data := FileOf(k, layout, xs).value + tail;
    if layout.V2? {
      ConcatAssoc(MAGIC_V2, Log(k, layout, xs).value, tail);
      assert data[..8] == MAGIC_V2;
      assert data[8..] == Log(k, layout, xs).value + tail;
    } else {
      var p := Payload(k, xs[0]).value;
      assert data[..4] == U32Bytes(|p|);
      U32RoundTrip(|p|);
      MagicExceedsCap();
      if |data| >= 8 { assert data[..8][..4] == data[..4]; }
    }
  }

  /** A stored file with a torn tail is judged by the length of the tail. */
  lemma LoadWithTail<T(!new)>(k: Framing<T>, layout: Layout, xs: seq<T>, tail: Bytes)
    requires TwoSided(k.format)
    requires FileOf(k, layout, xs).Some? && (layout.Legacy? ==> xs != [])
    requires NextFrame(k.sum, layout, tail) == Torn
    ensures var data := FileOf(k, layout, xs).value + tail;
            LoadRepairing(k, data) == Judge(data, xs, |tail|)
  {
    LayoutWithTail(k, layout, xs, tail);
    LogParses(k, layout, xs, tail);
    LogLength(k, layout, xs);
  }

  /** A file with a whole number of frames loads completely. */
  lemma LoadWhole<T(!new)>(k: Framing<T>, layout: Layout, xs: seq<T>)
    requires TwoSided(k.format)
    requires FileOf(k, layout, xs).Some? && (layout.Legacy? ==> xs != [])
    ensures LoadRepairing(k, FileOf(k, layout, xs).value) == Ok(Loaded(xs, false, FileOf(k, layout, xs).value))
  {
    LoadWithTail(k, layout, xs, []);
    assert FileOf(k, layout, xs).value + [] == FileOf(k, layout, xs).value;
  }

  lemma FailedReload<T(!new)>(k: Framing<T>, st: StoreValue, xs: seq<T>, x: T, j: nat)
    requires TwoSided(k.format)
    requires Stores(k, st, xs) && Payload(k, x).Some?
    requires j <= |Attempt(k.sum, st, Payload(k, x).value)|
    ensures var file := st.file + Attempt(k.sum, st, Payload(k, x).value)[..j];
            match ReloadOutcome(k, st, xs, x, j)
            case Some(l) => LoadRepairing(k, file) == Ok(l)
            case None => LoadRepairing(k, file).Err?
  {
    var p := Payload(k, x).value;
    var attempt := Attempt(k.sum, st, p);
    if j == |attempt| {
      AttemptCompletes(k, st, xs, x);
      LoadWhole(k, st.layout, xs + [x]);
      assert attempt[..j] == attempt;
    } else if NeedsMagic(st) {
      FailedFirst(k, p, j);
      assert st.file + attempt[..j] == attempt[..j];
    } else {
      CutFrameTorn(k.sum, st.layout, p, j);
      LoadWithTail(k, st.layout, xs, attempt[..j]);
      assert (st.file + attempt[..j])[..|st.file|] == st.file;
    }
  }

  /** The first append of a fresh file, cut after `j` bytes. */
  lemma FailedFirst<T(!new)>(k: Framing<T>, p: Bytes, j: nat)
    requires TwoSided(k.format)
    requires Framable(p) && j < |MAGIC_V2 + Frame(k.sum, V2, p)|
    ensures var file := (MAGIC_V2 + Frame(k.sum, V2, p))[..j];
            if j == 0 || j == 8 then LoadRepairing(k, file) == Ok(Loaded([], false, file))
            else LoadRepairing(k, file).Err?
  {
    var f := Frame(k.sum, V2, p);
    if 0 < j < 8 {
      CutMagicRefused(k, MAGIC_V2 + f, j);
    } else if j >= 8 {
      CutFrameTorn(k.sum, V2, p, j - 8);
      PrefixOfConcat(MAGIC_V2, f, j - 8);
      assert MAGIC_V2 + [] == MAGIC_V2;
      LoadWithTail<T>(k, V2, [], f[..j - 8]);
    }
  }

  /** A file that loads opens, and the opened store holds what was loaded. */
  lemma LoadThenOpen<T(!new)>(k: Framing<T>, data: Bytes)
    requires TwoSided(k.format)
    requires forall d :: k.format.decode(d).Some? ==> |d| >= 4
    requires LoadRepairing(k, data).Ok?
    ensures var l := LoadRepairing(k, data).value;
            && OpenStore(l.file).Some?
            && !OpenStore(l.file).value.poisoned
            && Stores(k, OpenStore(l.file).value, l.items)
  {
    if data != [] {
      var l := LoadRepairing(k, data).value;
      LoadedIsFile(k, data);
      var layout := LayoutOf(data);
      LayoutOfFile(k, layout, l.items, |l.file|);
      assert l.file[..|l.file|] == l.file;
      if layout.Legacy? {
        assert l.items != [];
        var p := Payload(k, l.items[0]).value;
        assert k.format.decode(p) == Some(l.items[0]);
      }
    }
  }

  // ---------------------------------------------------------------- the repair write

  /** `read_all_blocks_repairing_tail`: a repair rewrites the file, and that write may fail half way. */
  function LoadUnder<T>(k: Framing<T>, data: Bytes, fault: Fault): (r: (Result<Loaded<T>, StoreFault>, Bytes))
  {
    match LoadRepairing(k, data)
    case Err(e) => (Err(e), data)
    case Ok(l) =>
      if l.repaired && fault.Some? then (Err(RepairWriteFailed), Written(l.file, fault)) else (Ok(l), l.file)
  }

  /** The repair write is cut short where the shorter file still loads. */
  ghost predicate SilentCut<T(!new)>(k: Framing<T>, data: Bytes, fault: Fault)
    requires TwoSided(k.format)
  {
    && LoadRepairing(k, data).Ok? && LoadRepairing(k, data).value.repaired && fault.Some?
    && var l := LoadRepairing(k, data).value;
       LoadedIsFile(k, data);
       fault.value < |l.file| && LoadsWhenCut(k, LayoutOf(data), l.items, fault.value)
  }

  /** Such a cut, and no other fault of the repair write, makes the next load lose blocks without an error. */
  lemma RepairUnderFault<T(!new)>(k: Framing<T>, data: Bytes, fault: Fault)
    requires TwoSided(k.format) && LoadRepairing(k, data).Ok?
    ensures var l := LoadRepairing(k, data).value;
            var next := LoadRepairing(k, LoadUnder(k, data, fault).1);
            if SilentCut(k, data, fault) then next.Ok? && next.value.items < l.items
            else next.Err? || (next.value.items == l.items && next.value.file == l.file)
  {
    var l := LoadRepairing(k, data).value;
    LoadTwice(k, data);
    if l.repaired && fault.Some? {
      LoadedIsFile(k, data);
      CutLoadsIff(k, LayoutOf(data), l.items, Min(fault.value, |l.file|));
      assert l.file[..|l.file|] == l.file;
    }
  }

  /** Any file of whole frames with one torn byte behind them: a repair write that gets nothing down empties it. */
  lemma RepairCanLoseEverything<T(!new)>(k: Framing<T>, layout: Layout, xs: seq<T>, b: byte)
    requires TwoSided(k.format) && FileOf(k, layout, xs).Some? && xs != []
    ensures var file := FileOf(k, layout, xs).value;
            && LoadRepairing(k, file + [b]) == Ok(Loaded(xs, true, file))
            && SilentCut(k, file + [b], Some(0))
            && LoadUnder(k, file + [b], Some(0)).1 == []
            && LoadRepairing(k, []) == Ok(Loaded([], false, []))
  {
    var file := FileOf(k, layout, xs).value;
    LoadWithTail(k, layout, xs, [b]);
    LoadedIsFile(k, file + [b]);
  }

  // ---------------------------------------------------------------- the parsing loops

  /** The body of the loop at offset `pos`: the same step the reader takes on what is left. */
  method ReadFrame(sum: Checksum, layout: Layout, data: Bytes, pos: nat) returns (step: Step)
    requires pos <= |data|
    ensures step == NextFrame(sum, layout, data[pos..])
  {
    ghost var s := data[pos..];
    if pos + 4 > |data| {
      return Torn;
    }
    assert data[pos..pos + 4] == s[..4];
    var len := U32Of(data[pos..pos + 4]);
    if len > MAX_FRAME {
      return Broken;
    }
    var end := pos + 4 + len;
    if end + TrailerSize(layout) > |data| {
      return Torn;
    }
    var payload := data[pos + 4..end];
    assert payload == s[4..4 + len];
    if layout.V2? {
      assert data[end..end + 4] == s[4 + len..8 + len];
      var stored := U32Of(data[end..end + 4]);
      if stored != sum(payload) {
        return Broken;
      }
    }
    assert data[end + TrailerSize(layout)..] == s[FrameSize(layout, len)..];
    step := Whole(payload, data[end + TrailerSize(layout)..]);
  }

  lemma RestIsSuffix(sum: Checksum, layout: Layout, data: Bytes, pos: nat)
    requires pos <= |data| && NextFrame(sum, layout, data[pos..]).Whole?
    ensures var rest := NextFrame(sum, layout, data[pos..]).rest;
            pos < |data| - |rest| <= |data| && data[|data| - |rest|..] == rest
  {
    var s := data[pos..];
    var rest := NextFrame(sum, layout, s).rest;
    assert rest == s[|s| - |rest|..];
  }

  /** What one turn of a parsing loop does. */
  datatype Turn<+T> = Stop | Bad | Item(item: T, next: nat)

  method ReadItem<T>(k: Framing<T>, layout: Layout, data: Bytes, pos: nat) returns (turn: Turn<T>)
    requires pos < |data|
    ensures turn.Stop? ==>
      && ParsePrefix(k, layout, data[pos..]) == Got([], data[pos..])
      && ParseStrict(k, layout, data[pos..]) == Err(TruncatedFrame)
    ensures turn.Bad? ==>
      && ParsePrefix(k, layout, data[pos..]) == Stuck
      && ParseStrict(k, layout, data[pos..]) == Err(BadFrame)
    ensures turn.Item? ==>
      && pos < turn.next <= |data|
      && ParsePrefix(k, layout, data[pos..]) == Resume([turn.item], ParsePrefix(k, layout, data[turn.next..]))
      && ParseStrict(k, layout, data[pos..]) == Prepend([turn.item], ParseStrict(k, layout, data[turn.next..]))
  {
    var step := ReadFrame(k.sum, layout, data, pos);
    if step.Torn? {
      return Stop;
    }
    if step.Broken? {
      return Bad;
    }
    var x := k.format.decode(step.payload);
    if x.None? {
      return Bad;
    }
    RestIsSuffix(k.sum, layout, data, pos);
    turn := Item(x.value, |data| - |step.rest|);
  }

  /** `parse_legacy_block_frames_prefix` and `parse_v2_block_frames_prefix`: items and bytes consumed. */
  method ParseFramesPrefix<T>(k: Framing<T>, layout: Layout, data: Bytes) returns (r: Option<(seq<T>, nat)>)
    ensures r.Some? ==> r.value.1 <= |data| && ParsePrefix(k, layout, data) == Got(r.value.0, data[r.value.1..])
    ensures r.None? ==> ParsePrefix(k, layout, data) == Stuck
  {
    var out: seq<T> := [];
    var pos := 0;
    ghost var whole := ParsePrefix(k, layout, data);
    assert data[0..] == data;
    ResumeNothing(out, whole, []);
    while pos < |data|
      invariant pos <= |data|
      invariant whole == Resume(out, ParsePrefix(k, layout, data[pos..]))
      decreases |data| - pos
    {
      var turn := ReadItem(k, layout, data, pos);
      if turn.Stop? {
        break;
      }
      if turn.Bad? {
        return None;
      }
      ResumeOneMore(out, turn.item, ParsePrefix(k, layout, data[turn.next..]));
      out := out + [turn.item];
      pos := turn.next;
    }
    ResumeNothing(out, whole, data[pos..]);
    r := Some((out, pos));
  }

  /** `parse_legacy_block_frames` and `parse_v2_block_frames`. */
  method ParseFramesStrict<T>(k: Framing<T>, layout: Layout, data: Bytes) returns (r: Result<seq<T>, StoreFault>)
    ensures r == ParseStrict(k, layout, data)
  {
    var out: seq<T> := [];
    var pos := 0;
    ghost var whole := ParseStrict(k, layout, data);
    assert data[0..] == data;
    PrependNothing(out, whole);
    while pos < |data|
      invariant pos <= |data|
      invariant whole == Prepend(out, ParseStrict(k, layout, data[pos..]))
      decreases |data| - pos
    {
      var turn := ReadItem(k, layout, data, pos);
      if turn.Stop? {
        return Err(TruncatedFrame);
      }
      if turn.Bad? {
        return Err(BadFrame);
      }
      PrependOneMore(out, turn.item, ParseStrict(k, layout, data[turn.next..]));
      out := out + [turn.item];
      pos := turn.next;
    }
    PrependNothing(out, whole);
    r := Ok(out);
  }

  /** `read_all_blocks_repairing_tail`: the loaded items, and the file as it is left. */
  method ReadAllRepairingTail<T>(k: Framing<T>, file: Bytes, fault: Fault)
      returns (r: Result<Loaded<T>, StoreFault>, left: Bytes)
    ensures (r, left) == LoadUnder(k, file, fault)
  {
    if file == [] {
      return Ok(Loaded([], false, file)), file;
    }
    var parsed := ParseFile(k, file);
    if parsed.None? {
      return Err(BadFrame), file;
    }
    r, left := RepairTail(file, parsed.value.0, parsed.value.1, fault);
  }

  /** The items of a file and where its whole frames end. */
  method ParseFile<T>(k: Framing<T>, file: Bytes) returns (r: Option<(seq<T>, nat)>)
    requires file != []
    ensures r.None? ==> LoadRepairing(k, file) == Err(BadFrame)
    ensures r.Some? ==> r.value.1 <= |file| && LoadRepairing(k, file) == Judge(file, r.value.0, |file| - r.value.1)
  {
    var layout := LayoutOf(file);
    var offset := HeaderSize(layout);
    var parsed := ParseFramesPrefix(k, layout, file[offset..]);
    if parsed.None? {
      return None;
    }
    var (items, consumed) := parsed.value;
    r := Some((items, offset + consumed));
  }

  /** Whole frames end at `end`: keep what follows if it is nothing, rewrite the file without it, or refuse. */
  method RepairTail<T>(file: Bytes, items: seq<T>, end: nat, fault: Fault)
      returns (r: Result<Loaded<T>, StoreFault>, left: Bytes)
    requires end <= |file|
    ensures match Judge(file, items, |file| - end)
            case Err(e) => r == Err(e) && left == file
            case Ok(l) =>
              if l.repaired && fault.Some? then r == Err(RepairWriteFailed) && left == Written(l.file, fault)
              else r == Ok(l) && left == l.file
  {
    left := file;
    if end < |file| {
      if items == [] {
        return Err(NoCompleteFrame), left;
      }
      if |file| - end >= 4 {
        return Err(TruncatedTail), left;
      }
      left := Written(file[..end], fault);
      if fault.Some? {
        return Err(RepairWriteFailed), left;
      }
      return Ok(Loaded(items, true, file[..end])), left;
    }
    r := Ok(Loaded(items, false, file));
  }

  // ---------------------------------------------------------------- the open file

  class BlockStore {
    const sum: Checksum
    var file: Bytes
    var poisoned: bool
    const layout: Layout
    var magicOnDisk: bool

    ghost function Value(): (st: StoreValue)
      reads this
    {
      StoreValue(file, poisoned, layout, magicOnDisk)
    }

    /** Opens a file that is empty or long enough to tell its layout. */
    constructor (sum: Checksum, file: Bytes)
      requires OpenStore(file).Some?
      ensures this.sum == sum && Value() == OpenStore(file).value
    {
      this.sum := sum;
      this.file := file;
      poisoned := false;
      if |file| == 0 {
        layout := V2;
        magicOnDisk := false;
      } else if file[..8] == MAGIC_V2 {
        layout := V2;
        magicOnDisk := true;
      } else {
        layout := Legacy;
        magicOnDisk := false;
      }
    }

    /** One `write_all` and sync; on failure only a prefix reaches the file. */
    method Write(buffer: Bytes, fault: Fault) returns (ok: bool)
      modifies this`file
      ensures ok == fault.None?
      ensures file == old(file) + Written(buffer, fault)
    {
      file := file + Written(buffer, fault);
      ok := fault.None?;
    }

    method Append(payload: Bytes, magicFault: Fault, frameFault: Fault) returns (ok: bool)
      modifies this`file, this`poisoned, this`magicOnDisk
      ensures (ok, Value()) == AppendPayload(sum, old(Value()), payload, magicFault, frameFault)
    {
      if poisoned {
        return false;
      }
      if |payload| > MAX_FRAME {
        return false;
      }
      if layout.V2? && !magicOnDisk {
        ok := Write(MAGIC_V2, magicFault);
        if !ok {
          poisoned := true;
          return;
        }
        magicOnDisk := true;
      }
      var buffer := U32Bytes(|payload|) + (payload + Trailer(sum, layout, payload));
      ok := Write(buffer, frameFault);
      if !ok {
        poisoned := true;
      }
    }
  }
}
