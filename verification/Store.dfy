/**
 The append-only block file: two layouts told apart by a magic, frames behind a length, narrow
 repair of a torn tail. Everything here holds of any two-sided record format.
 */
module Store {
  import opened Prelude
  import opened Records

  const MAX_FRAME: u32 := 0x400_0000

  /** "TRILBC01" */
  const MAGIC_V2: Bytes := [0x54, 0x52, 0x49, 0x4C, 0x42, 0x43, 0x30, 0x31]

  datatype Layout = Legacy | V2

  /** The checksum behind each V2 frame; the node uses CRC-32. */
  type Checksum = Bytes -> u32

  /** How items are stored: their own format and the checksum of a frame. */
  datatype Framing<!T> = Framing(format: Format<T>, sum: Checksum)

  // ---------------------------------------------------------------- frames

  predicate Framable(p: Bytes)
  {
    |p| <= MAX_FRAME
  }

  function Frame(sum: Checksum, layout: Layout, p: Bytes): (r: Bytes)
    requires Framable(p)
    ensures |r| == FrameSize(layout, |p|)
  {
    U32Bytes(|p|) + (p + Trailer(sum, layout, p))
  }

  function Trailer(sum: Checksum, layout: Layout, p: Bytes): (r: Bytes)
    ensures |r| == TrailerSize(layout)
  {
    match layout
    case Legacy => []
    case V2 => U32Bytes(sum(p))
  }

  function TrailerSize(layout: Layout): (r: nat)
  {
    if layout.V2? then 4 else 0
  }

  function FrameSize(layout: Layout, len: nat): (r: nat)
  {
    4 + len + TrailerSize(layout)
  }

  /** One turn of the parsing loops at the start of `s`. */
  datatype Step = Torn | Broken | Whole(payload: Bytes, rest: Bytes)

  function NextFrame(sum: Checksum, layout: Layout, s: Bytes): (r: Step)
    ensures r.Whole? ==> |r.rest| < |s|
  {
    if |s| < 4 then Torn
    else
      var len := U32Of(s[..4]);
      if len > MAX_FRAME then Broken
      else if FrameSize(layout, len) > |s| then Torn
      else
        var p := s[4..4 + len];
        if layout.V2? && U32Of(s[4 + len..8 + len]) != sum(p) then Broken
        else Whole(p, s[FrameSize(layout, len)..])
  }

  lemma NextFrameWhole(sum: Checksum, layout: Layout, p: Bytes, rest: Bytes)
    requires Framable(p)
    ensures NextFrame(sum, layout, Frame(sum, layout, p) + rest) == Whole(p, rest)
  {
    var s := Frame(sum, layout, p) + rest;
    assert s[..4] == U32Bytes(|p|);
    U32RoundTrip(|p|);
    assert s[4..4 + |p|] == p;
    assert s[FrameSize(layout, |p|)..] == rest;
    if layout.V2? {
      assert s[4 + |p|..8 + |p|] == U32Bytes(sum(p));
      U32RoundTrip(sum(p));
    }
  }

  lemma NextFrameCanonical(sum: Checksum, layout: Layout, s: Bytes)
    requires NextFrame(sum, layout, s).Whole?
    ensures Framable(NextFrame(sum, layout, s).payload)
    ensures s == Frame(sum, layout, NextFrame(sum, layout, s).payload) + NextFrame(sum, layout, s).rest
  {
    var p, rest := NextFrame(sum, layout, s).payload, NextFrame(sum, layout, s).rest;
    assert s[..4] == U32Bytes(|p|);
    var n := FrameSize(layout, |p|);
    assert s == s[..4] + (p + s[4 + |p|..n]) + rest;
    if layout.V2? {
      assert s[4 + |p|..8 + |p|] == U32Bytes(sum(p));
    }
  }

  /** The stored length of a frame and, in the newer layout, its stored checksum decide what the reader makes of it. */
  lemma NextFrameExact(sum: Checksum, layout: Layout, s: Bytes)
    requires |s| >= 4
    ensures var len := U32Of(s[..4]);
            var size := 4 + len + (if layout.V2? then 4 else 0);
            var damaged := layout.V2? && |s| >= size && U32Of(s[4 + len..8 + len]) != sum(s[4..4 + len]);
            && (NextFrame(sum, layout, s).Broken? <==> len > 67_108_864 || damaged)
            && (NextFrame(sum, layout, s).Torn? <==> len <= 67_108_864 && |s| < size)
            && (NextFrame(sum, layout, s).Whole? <==> len <= 67_108_864 && |s| >= size && !damaged)
  {
  }

  /** A frame cut short anywhere reads as torn, never as broken or as another frame. */
  lemma CutFrameTorn(sum: Checksum, layout: Layout, p: Bytes, k: nat)
    requires Framable(p) && k < |Frame(sum, layout, p)|
    ensures NextFrame(sum, layout, Frame(sum, layout, p)[..k]) == Torn
  {
    if k >= 4 {
      assert Frame(sum, layout, p)[..k][..4] == U32Bytes(|p|);
      U32RoundTrip(|p|);
    }
  }

  // ---------------------------------------------------------------- the log

  /** Payload of one item, if it can be stored at all. */
  function Payload<T>(k: Framing<T>, x: T): (r: Option<Bytes>)
    ensures r.Some? ==> Framable(r.value)
  {
    match k.format.encode(x)
    case None => None
    case Some(p) => if Framable(p) then Some(p) else None
  }

  /** The frames of a list of items, one after the other. */
  function Log<T>(k: Framing<T>, layout: Layout, xs: seq<T>): (r: Option<Bytes>)
  {
    if xs == [] then Some([])
    else
      match Payload(k, xs[0])
      case None => None
      case Some(p) =>
        match Log(k, layout, xs[1..])
        case None => None
        case Some(more) => Some(Frame(k.sum, layout, p) + more)
  }

  lemma {:induction false} LogConcat<T>(k: Framing<T>, layout: Layout, xs: seq<T>, ys: seq<T>)
    ensures Log(k, layout, xs + ys).Some? <==> Log(k, layout, xs).Some? && Log(k, layout, ys).Some?
    ensures Log(k, layout, xs + ys).Some? ==>
      Log(k, layout, xs + ys).value == Log(k, layout, xs).value + Log(k, layout, ys).value
    decreases |xs|
  {
    if xs == [] {
      assert xs + ys == ys;
      if Log(k, layout, ys).Some? { assert [] + Log(k, layout, ys).value == Log(k, layout, ys).value; }
    } else {
      TailOfConcat(xs, ys);
      LogConcat(k, layout, xs[1..], ys);
      if Log(k, layout, xs + ys).Some? {
        var f := Frame(k.sum, layout, Payload(k, xs[0]).value);
        ConcatAssoc(f, Log(k, layout, xs[1..]).value, Log(k, layout, ys).value);
      }
    }
  }

  lemma LogOne<T>(k: Framing<T>, layout: Layout, x: T)
    requires Payload(k, x).Some?
    ensures Log(k, layout, [x]) == Some(Frame(k.sum, layout, Payload(k, x).value))
  {
    var f := Frame(k.sum, layout, Payload(k, x).value);
    assert [x][1..] == [];
    assert f + [] == f;
  }

  lemma {:induction false} LogLength<T>(k: Framing<T>, layout: Layout, xs: seq<T>)
    requires Log(k, layout, xs).Some?
    ensures |Log(k, layout, xs).value| >= 4 * |xs|
  {
    if xs != [] { LogLength(k, layout, xs[1..]); }
  }

  // ---------------------------------------------------------------- the two parsers

  datatype StoreFault = BadFrame | NoCompleteFrame | TruncatedTail | TruncatedFrame | RepairWriteFailed

  /** Parses whole frames and leaves the first partial one unread; fails on a bad frame. */
  function ParsePrefix<T>(k: Framing<T>, layout: Layout, s: Bytes): (r: Parsed<seq<T>>)
    decreases |s|
  {
    match NextFrame(k.sum, layout, s)
    case Torn => Got([], s)
    case Broken => Stuck
    case Whole(p, rest) =>
      match k.format.decode(p)
      case None => Stuck
      case Some(x) => Resume([x], ParsePrefix(k, layout, rest))
  }

  /** Parses whole frames only; anything left over is an error. */
  function ParseStrict<T>(k: Framing<T>, layout: Layout, s: Bytes): (r: Result<seq<T>, StoreFault>)
    decreases |s|
  {
    if s == [] then Ok([])
    else
      match NextFrame(k.sum, layout, s)
      case Torn => Err(TruncatedFrame)
      case Broken => Err(BadFrame)
      case Whole(p, rest) =>
        match k.format.decode(p)
        case None => Err(BadFrame)
        case Some(x) => Prepend([x], ParseStrict(k, layout, rest))
  }

  /** The strict parser accepts exactly what the prefix parser reads to the end. */
  lemma {:induction false} StrictIffConsumed<T>(k: Framing<T>, layout: Layout, s: Bytes, xs: seq<T>)
    ensures ParseStrict(k, layout, s) == Ok(xs) <==> ParsePrefix(k, layout, s) == Got(xs, [])
    decreases |s|
  {
    var step := NextFrame(k.sum, layout, s);
    if step.Whole? && k.format.decode(step.payload).Some? {
      var x := k.format.decode(step.payload).value;
      if xs != [] {
        StrictIffConsumed(k, layout, step.rest, xs[1..]);
        assert xs == [xs[0]] + xs[1..];
      }
      forall ys ensures ([x] + ys)[1..] == ys { }
    }
  }

  lemma ParseCons<T>(k: Framing<T>, layout: Layout, p: Bytes, rest: Bytes)
    requires Framable(p) && k.format.decode(p).Some?
    ensures ParsePrefix(k, layout, Frame(k.sum, layout, p) + rest) ==
      Resume([k.format.decode(p).value], ParsePrefix(k, layout, rest))
  {
    NextFrameWhole(k.sum, layout, p, rest);
  }

  /** Whole frames followed by a torn tail parse to the items and that tail. */
  lemma {:induction false} LogParses<T(!new)>(k: Framing<T>, layout: Layout, xs: seq<T>, tail: Bytes)
    requires TwoSided(k.format)
    requires Log(k, layout, xs).Some? && NextFrame(k.sum, layout, tail) == Torn
    ensures ParsePrefix(k, layout, Log(k, layout, xs).value + tail) == Got(xs, tail)
    decreases |xs|
  {
    if xs == [] {
      assert [] + tail == tail;
    } else {
      LogParses(k, layout, xs[1..], tail);
      LogParsesMore(k, layout, xs, tail);
    }
  }

  lemma LogParsesMore<T(!new)>(k: Framing<T>, layout: Layout, xs: seq<T>, tail: Bytes)
    requires TwoSided(k.format) && xs != [] && Log(k, layout, xs).Some?
    requires ParsePrefix(k, layout, Log(k, layout, xs[1..]).value + tail) == Got(xs[1..], tail)
    ensures ParsePrefix(k, layout, Log(k, layout, xs).value + tail) == Got(xs, tail)
  {
    var p := Payload(k, xs[0]).value;
    PayloadDecodes(k, xs[0]);
    ParseFront(k, layout, p, xs[0], Log(k, layout, xs[1..]).value, tail, xs[1..]);
    assert xs == [xs[0]] + xs[1..];
  }

  lemma PayloadDecodes<T(!new)>(k: Framing<T>, x: T)
    requires TwoSided(k.format) && Payload(k, x).Some?
    ensures k.format.decode(Payload(k, x).value) == Some(x)
  {
  }

  lemma ParseFront<T>(k: Framing<T>, layout: Layout, p: Bytes, x: T, more: Bytes, tail: Bytes, xs: seq<T>)
    requires Framable(p) && k.format.decode(p) == Some(x)
    requires ParsePrefix(k, layout, more + tail) == Got(xs, tail)
    ensures ParsePrefix(k, layout, Frame(k.sum, layout, p) + more + tail) == Got([x] + xs, tail)
  {
    ConcatAssoc(Frame(k.sum, layout, p), more, tail);
    ParseCons(k, layout, p, more + tail);
  }

  /** Whatever parses is the log of the items it parses to, up to a torn tail. */
  lemma {:induction false} ParsedIsLog<T(!new)>(k: Framing<T>, layout: Layout, s: Bytes)
    requires TwoSided(k.format)
    requires ParsePrefix(k, layout, s).Got?
    ensures var xs, tail := ParsePrefix(k, layout, s).value, ParsePrefix(k, layout, s).rest;
            && Log(k, layout, xs).Some?
            && s == Log(k, layout, xs).value + tail
            && NextFrame(k.sum, layout, tail) == Torn
    decreases |s|
  {
    var step := NextFrame(k.sum, layout, s);
    if step.Torn? {
      assert [] + s == s;
    } else {
      NextFrameCanonical(k.sum, layout, s);
      var x := k.format.decode(step.payload).value;
      assert k.format.encode(x) == Some(step.payload);
      ParsedIsLog(k, layout, step.rest);
      var xs, tail := ParsePrefix(k, layout, step.rest).value, ParsePrefix(k, layout, step.rest).rest;
      assert ([x] + xs)[1..] == xs;
      ConcatAssoc(Frame(k.sum, layout, step.payload), Log(k, layout, xs).value, tail);
    }
  }

  // ---------------------------------------------------------------- cutting a log

  /** How many frames lie wholly before byte `c`. */
  function WholeBefore<T>(k: Framing<T>, layout: Layout, xs: seq<T>, c: nat): (n: nat)
    requires Log(k, layout, xs).Some?
    ensures n <= |xs|
    decreases |xs|
  {
    if xs == [] then 0
    else
      var size := |Frame(k.sum, layout, Payload(k, xs[0]).value)|;
      if c < size then 0 else 1 + WholeBefore(k, layout, xs[1..], c - size)
  }

  /** Bytes left over after them. */
  function Leftover<T>(k: Framing<T>, layout: Layout, xs: seq<T>, c: nat): (n: nat)
    requires Log(k, layout, xs).Some?
    requires c <= |Log(k, layout, xs).value|
    decreases |xs|
  {
    if xs == [] then 0
    else
      var size := |Frame(k.sum, layout, Payload(k, xs[0]).value)|;
      if c < size then c else Leftover(k, layout, xs[1..], c - size)
  }

  lemma LogCons<T>(k: Framing<T>, layout: Layout, x: T, xs: seq<T>)
    requires Payload(k, x).Some? && Log(k, layout, xs).Some?
    ensures Log(k, layout, [x] + xs) == Some(Frame(k.sum, layout, Payload(k, x).value) + Log(k, layout, xs).value)
  {
    assert ([x] + xs)[1..] == xs;
  }

  /** A log cut anywhere is a shorter log and a piece of the next frame. */
  lemma {:induction false} CutLogShape<T>(k: Framing<T>, layout: Layout, xs: seq<T>, c: nat)
      returns (kept: seq<T>, tail: Bytes)
    requires Log(k, layout, xs).Some? && c <= |Log(k, layout, xs).value|
    ensures kept == xs[..WholeBefore(k, layout, xs, c)]
    ensures Log(k, layout, kept).Some?
    ensures Log(k, layout, xs).value[..c] == Log(k, layout, kept).value + tail
    ensures |tail| == Leftover(k, layout, xs, c)
    ensures NextFrame(k.sum, layout, tail) == Torn
    decreases |xs|
  {
    if xs == [] {
      kept, tail := [], [];
    } else {
      var p, more := Payload(k, xs[0]).value, Log(k, layout, xs[1..]).value;
      var f := Frame(k.sum, layout, p);
      if c < |f| {
        kept, tail := [], f[..c];
        CutInside(f, more, c);
        CutFrameTorn(k.sum, layout, p, c);
      } else {
        kept, tail := CutLogShape(k, layout, xs[1..], c - |f|);
        var n := WholeBefore(k, layout, xs[1..], c - |f|);
        assert WholeBefore(k, layout, xs, c) == n + 1;
        assert Leftover(k, layout, xs, c) == Leftover(k, layout, xs[1..], c - |f|);
        TakeOneMore(xs, n);
        CutBehind(f, more, c - |f|, Log(k, layout, kept).value, tail);
        LogCons(k, layout, xs[0], kept);
        kept := [xs[0]] + kept;
      }
    }
  }

  lemma TakeOneMore<T>(xs: seq<T>, n: nat)
    requires n < |xs|
    ensures xs[..n + 1] == [xs[0]] + xs[1..][..n]
  {
  }

  lemma CutInside(f: Bytes, more: Bytes, c: nat)
    requires c < |f|
    ensures (f + more)[..c] == [] + f[..c]
  {
  }

  lemma CutBehind(f: Bytes, more: Bytes, d: nat, kept: Bytes, tail: Bytes)
    requires d <= |more| && more[..d] == kept + tail
    ensures (f + more)[..|f| + d] == f + kept + tail
  {
    PrefixOfConcat(f, more, d);
    ConcatAssoc(f, kept, tail);
  }

  lemma PrefixOfConcat(a: Bytes, b: Bytes, d: nat)
    requires d <= |b|
    ensures (a + b)[..|a| + d] == a + b[..d]
  {
  }

  /** A log cut anywhere parses to exactly the frames before the cut; the rest is the torn tail. */
  lemma CutLogParses<T(!new)>(k: Framing<T>, layout: Layout, xs: seq<T>, c: nat) returns (tail: Bytes)
    requires TwoSided(k.format)
    requires Log(k, layout, xs).Some? && c <= |Log(k, layout, xs).value|
    ensures ParsePrefix(k, layout, Log(k, layout, xs).value[..c]) == Got(xs[..WholeBefore(k, layout, xs, c)], tail)
    ensures |tail| == Leftover(k, layout, xs, c) <= c && tail == Log(k, layout, xs).value[c - |tail|..c]
  {
    var kept;
    kept, tail := CutLogShape(k, layout, xs, c);
    LogParses(k, layout, kept, tail);
  }

  // ---------------------------------------------------------------- loading

  function LayoutOf(data: Bytes): (r: Layout)
  {
    if |data| >= 8 && data[..8] == MAGIC_V2 then V2 else Legacy
  }

  function BodyOf(data: Bytes): (r: Bytes)
    ensures |r| == |data| - HeaderSize(LayoutOf(data))
  {
    if LayoutOf(data).V2? then data[8..] else data
  }

  function HeaderSize(layout: Layout): (r: nat)
  {
    if layout.V2? then 8 else 0
  }

  /** `BlockStore::read_all_blocks`; a missing file reads as an empty one. */
  function ReadAll<T>(k: Framing<T>, data: Bytes): (r: Result<seq<T>, StoreFault>)
  {
    if data == [] then Ok([]) else ParseStrict(k, LayoutOf(data), BodyOf(data))
  }

  datatype Loaded<+T> = Loaded(items: seq<T>, repaired: bool, file: Bytes)

  /** `BlockStore::read_all_blocks_repairing_tail` with the file it leaves behind. */
  function LoadRepairing<T>(k: Framing<T>, data: Bytes): (r: Result<Loaded<T>, StoreFault>)
  {
    if data == [] then Ok(Loaded([], false, data))
    else
      match ParsePrefix(k, LayoutOf(data), BodyOf(data))
      case Stuck => Err(BadFrame)
      case Got(xs, tail) => Judge(data, xs, |tail|)
  }

  /** The verdict on a file whose whole frames hold `xs` and whose last `left` bytes are torn. */
  function Judge<T>(data: Bytes, xs: seq<T>, left: nat): (r: Result<Loaded<T>, StoreFault>)
  {
    if left == 0 then Ok(Loaded(xs, false, data))
    else if xs == [] then Err(NoCompleteFrame)
    else if left >= 4 || left > |data| then Err(TruncatedTail)
    else Ok(Loaded(xs, true, data[..|data| - left]))
  }

  /** A well-formed file: the magic if the layout has one, then the log. */
  function FileOf<T>(k: Framing<T>, layout: Layout, xs: seq<T>): (r: Option<Bytes>)
  {
    match Log(k, layout, xs)
    case None => None
    case Some(log) => Some(if layout.V2? then MAGIC_V2 + log else log)
  }

  /** "TRIL" read as a length is above the frame cap, so no legacy file passes for V2. */
  lemma LegacyNotV2<T>(k: Framing<T>, xs: seq<T>, c: nat)
    requires Log(k, Legacy, xs).Some? && c <= |Log(k, Legacy, xs).value|
    ensures LayoutOf(Log(k, Legacy, xs).value[..c]) == Legacy
  {
    var data := Log(k, Legacy, xs).value[..c];
    if |data| >= 8 && data[..8] == MAGIC_V2 {
      var p := Payload(k, xs[0]).value;
      assert data[..8][..4] == U32Bytes(|p|);
      U32RoundTrip(|p|);
      MagicExceedsCap();
      assert false;
    }
  }

  lemma MagicExceedsCap()
    ensures U32Of(MAGIC_V2[..4]) > MAX_FRAME
  {
    var s := MAGIC_V2[..4];
    assert s == [0x54, 0x52, 0x49, 0x4C];
    var s3 := s[..3];
    assert s3 == [0x54, 0x52, 0x49];
    var s2 := s3[..2];
    assert s2 == [0x54, 0x52];
    assert s2[..1] == [0x54] && s2[..1][..0] == [];
    assert FromBigEndian(s2[..1]) == 0x54;
    assert FromBigEndian(s2) == 0x5452;
    assert FromBigEndian(s3) == 0x545249;
    assert FromBigEndian(s) == 0x5452494C;
  }

  lemma MagicInFront(log: Bytes, d: nat)
    requires d <= |log|
    ensures LayoutOf((MAGIC_V2 + log)[..8 + d]) == V2
    ensures BodyOf((MAGIC_V2 + log)[..8 + d]) == log[..d]
  {
    PrefixOfConcat(MAGIC_V2, log, d);
  }

  lemma LayoutOfFile<T>(k: Framing<T>, layout: Layout, xs: seq<T>, c: nat)
    requires FileOf(k, layout, xs).Some?
    requires HeaderSize(layout) <= c <= |FileOf(k, layout, xs).value|
    ensures LayoutOf(FileOf(k, layout, xs).value[..c]) == layout
    ensures BodyOf(FileOf(k, layout, xs).value[..c]) == Log(k, layout, xs).value[..c - HeaderSize(layout)]
  {
    if layout.V2? {
      MagicInFront(Log(k, layout, xs).value, c - 8);
    } else {
      LegacyNotV2(k, xs, c);
    }
  }

  /** What the loader makes of a well-formed file cut after `c` bytes. */
  function CutOutcome<T>(k: Framing<T>, layout: Layout, xs: seq<T>, c: nat): (r: Result<Loaded<T>, StoreFault>)
    requires FileOf(k, layout, xs).Some?
    requires c <= |FileOf(k, layout, xs).value|
  {
    var cut := FileOf(k, layout, xs).value[..c];
    if c == 0 then Ok(Loaded([], false, []))
    else if c < HeaderSize(layout) then if c < 4 then Err(NoCompleteFrame) else Err(BadFrame)
    else
      var body := c - HeaderSize(layout);
      Judge(cut, xs[..WholeBefore(k, layout, xs, body)], Leftover(k, layout, xs, body))
  }

  /**
   Torn-file safety: cut any well-formed file at any byte. The loader returns exactly the items whose
   frames lie wholly before the cut, or refuses; it forgives only one to three bytes after at least
   one whole frame.
   */
  lemma CutFileLoads<T(!new)>(k: Framing<T>, layout: Layout, xs: seq<T>, c: nat)
    requires TwoSided(k.format)
    requires FileOf(k, layout, xs).Some? && c <= |FileOf(k, layout, xs).value|
    ensures LoadRepairing(k, FileOf(k, layout, xs).value[..c]) == CutOutcome(k, layout, xs, c)
  {
    var file := FileOf(k, layout, xs).value;
    if 0 < c < HeaderSize(layout) {
      CutMagicRefused(k, file, c);
    } else if c != 0 {
      LayoutOfFile(k, layout, xs, c);
      var tail := CutLogParses(k, layout, xs, c - HeaderSize(layout));
    }
  }

  /** The file cut after `c` bytes still loads: at a frame boundary, or one to three bytes behind a frame. */
  predicate LoadsWhenCut<T>(k: Framing<T>, layout: Layout, xs: seq<T>, c: nat)
    requires FileOf(k, layout, xs).Some? && c <= |FileOf(k, layout, xs).value|
  {
    c == 0 ||
    (HeaderSize(layout) <= c &&
     var body := c - HeaderSize(layout);
     var left := Leftover(k, layout, xs, body);
     left == 0 || (left < 4 && WholeBefore(k, layout, xs, body) > 0))
  }

  lemma {:induction false} LeftoverFits<T>(k: Framing<T>, layout: Layout, xs: seq<T>, c: nat)
    requires Log(k, layout, xs).Some? && c <= |Log(k, layout, xs).value|
    ensures Leftover(k, layout, xs, c) <= c
    ensures c < |Log(k, layout, xs).value| ==> WholeBefore(k, layout, xs, c) < |xs|
    decreases |xs|
  {
    if xs != [] {
      var size := |Frame(k.sum, layout, Payload(k, xs[0]).value)|;
      if c >= size { LeftoverFits(k, layout, xs[1..], c - size); }
    }
  }

  /** Exactly at those cuts, and then with fewer items unless nothing was cut off. */
  lemma CutLoadsIff<T(!new)>(k: Framing<T>, layout: Layout, xs: seq<T>, c: nat)
    requires TwoSided(k.format) && FileOf(k, layout, xs).Some? && c <= |FileOf(k, layout, xs).value|
    ensures var load := LoadRepairing(k, FileOf(k, layout, xs).value[..c]);
            && (load.Ok? <==> LoadsWhenCut(k, layout, xs, c))
            && (load.Ok? ==> load.value.items <= xs)
            && (load.Ok? && c < |FileOf(k, layout, xs).value| && xs != [] ==> |load.value.items| < |xs|)
  {
    CutFileLoads(k, layout, xs, c);
    CutOutcomeIff(k, layout, xs, c);
  }

  lemma CutOutcomeIff<T>(k: Framing<T>, layout: Layout, xs: seq<T>, c: nat)
    requires FileOf(k, layout, xs).Some? && c <= |FileOf(k, layout, xs).value|
    ensures var load := CutOutcome(k, layout, xs, c);
            && (load.Ok? <==> LoadsWhenCut(k, layout, xs, c))
            && (load.Ok? ==> load.value.items <= xs)
            && (load.Ok? && c < |FileOf(k, layout, xs).value| && xs != [] ==> |load.value.items| < |xs|)
  {
    if HeaderSize(layout) <= c { LeftoverFits(k, layout, xs, c - HeaderSize(layout)); }
  }

  lemma CutMagicRefused<T>(k: Framing<T>, file: Bytes, c: nat)
    requires 0 < c < 8 <= |file| && file[..8] == MAGIC_V2
    ensures LoadRepairing(k, file[..c]) == if c < 4 then Err(NoCompleteFrame) else Err(BadFrame)
  {
    if c >= 4 {
      assert file[..c][..4] == MAGIC_V2[..4] by { assert file[..c][..4] == file[..8][..4]; }
      MagicExceedsCap();
    }
  }

  lemma SplitHeader(data: Bytes, log: Bytes, tail: Bytes)
    requires BodyOf(data) == log + tail
    ensures data == (if LayoutOf(data).V2? then MAGIC_V2 + log else log) + tail
  {
    if LayoutOf(data).V2? {
      assert data == MAGIC_V2 + data[8..];
      ConcatAssoc(MAGIC_V2, log, tail);
    }
  }

  /** Whatever loads is a well-formed file holding the loaded items, once its torn tail is gone. */
  lemma LoadedIsFile<T(!new)>(k: Framing<T>, data: Bytes)
    requires TwoSided(k.format) && data != []
    requires LoadRepairing(k, data).Ok?
    ensures FileOf(k, LayoutOf(data), LoadRepairing(k, data).value.items) == Some(LoadRepairing(k, data).value.file)
    ensures LoadRepairing(k, data).value.file <= data
    ensures LoadRepairing(k, data).value.file != []
  {
    var layout := LayoutOf(data);
    var xs, tail := ParsePrefix(k, layout, BodyOf(data)).value, ParsePrefix(k, layout, BodyOf(data)).rest;
    ParsedIsLog(k, layout, BodyOf(data));
    LogLength(k, layout, xs);
    SplitHeader(data, Log(k, layout, xs).value, tail);
    DropTail(FileOf(k, layout, xs).value, tail, data);
  }

  lemma DropTail(file: Bytes, tail: Bytes, data: Bytes)
    requires data == file + tail
    ensures data[..|data| - |tail|] == file && file <= data
    ensures tail == [] ==> data == file
  {
  }

  /** Loading what the loader left behind gives the same items and repairs nothing. */
  lemma LoadTwice<T(!new)>(k: Framing<T>, data: Bytes)
    requires TwoSided(k.format)
    requires LoadRepairing(k, data).Ok?
    ensures var first := LoadRepairing(k, data).value;
            LoadRepairing(k, first.file) == Ok(Loaded(first.items, false, first.file))
  {
    if data != [] {
      LoadedIsFile(k, data);
      var first, layout := LoadRepairing(k, data).value, LayoutOf(data);
      var c := |first.file|;
      CutFileLoads(k, layout, first.items, c);
      assert first.file[..c] == first.file;
      WholeFile(k, layout, first.items);
    }
  }

  /** The strict reader accepts exactly the files in which the repairing one finds nothing to repair. */
  lemma StrictIffUnrepaired<T>(k: Framing<T>, data: Bytes)
    ensures ReadAll(k, data).Ok? <==> LoadRepairing(k, data).Ok? && !LoadRepairing(k, data).value.repaired
    ensures ReadAll(k, data).Ok? ==> ReadAll(k, data).value == LoadRepairing(k, data).value.items
  {
    if data != [] {
      var layout, body := LayoutOf(data), BodyOf(data);
      if ParseStrict(k, layout, body).Ok? { StrictIffConsumed(k, layout, body, ParseStrict(k, layout, body).value); }
      if ParsePrefix(k, layout, body).Got? { StrictIffConsumed(k, layout, body, ParsePrefix(k, layout, body).value); }
    }
  }

  lemma {:induction false} WholeLog<T>(k: Framing<T>, layout: Layout, xs: seq<T>)
    requires Log(k, layout, xs).Some?
    ensures WholeBefore(k, layout, xs, |Log(k, layout, xs).value|) == |xs|
    ensures Leftover(k, layout, xs, |Log(k, layout, xs).value|) == 0
    decreases |xs|
  {
    if xs != [] { WholeLog(k, layout, xs[1..]); }
  }

  /** An uncut file loads completely. */
  lemma WholeFile<T>(k: Framing<T>, layout: Layout, xs: seq<T>)
    requires FileOf(k, layout, xs).Some?
    ensures var file := FileOf(k, layout, xs).value;
            CutOutcome(k, layout, xs, |file|) == Ok(Loaded(xs, false, file))
  {
    var file := FileOf(k, layout, xs).value;
    WholeLog(k, layout, xs);
    assert xs[..|xs|] == xs && file[..|file|] == file;
    if file == [] { LogLength(k, layout, xs); }
  }
}
