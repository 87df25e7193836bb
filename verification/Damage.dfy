/** Damage inside a stored block: what the checksum detects, the readers of the file refuse. */
module Damage {
  import opened Prelude
  import opened Records
  import opened Store
  import Crc32

  /** A V2 frame that was written for payload `p` and now holds `q`. */
  function DamagedFrame(sum: Checksum, p: Bytes, q: Bytes): (r: Bytes)
    requires Framable(p)
  {
    U32Bytes(|p|) + (q + U32Bytes(sum(p)))
  }

  /** The V2 file of `xs`, `x` and `ys`, with `q` where the payload of `x` was. */
  function DamagedFile<T>(k: Framing<T>, xs: seq<T>, x: T, q: Bytes, ys: seq<T>): (r: Bytes)
    requires Log(k, V2, xs).Some? && Payload(k, x).Some? && Log(k, V2, ys).Some?
  {
    MAGIC_V2 + (Log(k, V2, xs).value + (DamagedFrame(k.sum, Payload(k, x).value, q) + Log(k, V2, ys).value))
  }

  /** With the old payload in place it is the well-formed file. */
  lemma UndamagedFile<T>(k: Framing<T>, xs: seq<T>, x: T, ys: seq<T>)
    requires Log(k, V2, xs).Some? && Payload(k, x).Some? && Log(k, V2, ys).Some?
    ensures FileOf(k, V2, xs + ([x] + ys)) == Some(DamagedFile(k, xs, x, Payload(k, x).value, ys))
  {
    LogCons(k, V2, x, ys);
    LogConcat(k, V2, xs, [x] + ys);
  }

  lemma DamagedFrameBroken(sum: Checksum, p: Bytes, q: Bytes, rest: Bytes)
    requires Framable(p) && |q| == |p| && sum(q) != sum(p)
    ensures NextFrame(sum, V2, DamagedFrame(sum, p, q) + rest) == Broken
  {
    var s := DamagedFrame(sum, p, q) + rest;
    assert s[..4] == U32Bytes(|p|);
    U32RoundTrip(|p|);
    assert s[4..4 + |p|] == q;
    assert s[4 + |p|..8 + |p|] == U32Bytes(sum(p));
    U32RoundTrip(sum(p));
  }

  /** A broken frame behind any whole ones stops the parser. */
  lemma {:induction false} BrokenBehindLog<T(!new)>(k: Framing<T>, layout: Layout, xs: seq<T>, bad: Bytes)
    requires TwoSided(k.format) && Log(k, layout, xs).Some? && NextFrame(k.sum, layout, bad) == Broken
    ensures ParsePrefix(k, layout, Log(k, layout, xs).value + bad) == Stuck
    decreases |xs|
  {
    if xs == [] {
      assert [] + bad == bad;
    } else {
      BrokenBehindLog(k, layout, xs[1..], bad);
      BrokenBehindMore(k, layout, xs, bad);
    }
  }

  lemma BrokenBehindMore<T(!new)>(k: Framing<T>, layout: Layout, xs: seq<T>, bad: Bytes)
    requires TwoSided(k.format) && xs != [] && Log(k, layout, xs).Some?
    requires ParsePrefix(k, layout, Log(k, layout, xs[1..]).value + bad) == Stuck
    ensures ParsePrefix(k, layout, Log(k, layout, xs).value + bad) == Stuck
  {
    var p, more := Payload(k, xs[0]).value, Log(k, layout, xs[1..]).value;
    PayloadDecodes(k, xs[0]);
    ConcatAssoc(Frame(k.sum, layout, p), more, bad);
    ParseCons(k, layout, p, more + bad);
  }

  lemma MagicInFront(body: Bytes)
    ensures LayoutOf(MAGIC_V2 + body) == V2 && BodyOf(MAGIC_V2 + body) == body && MAGIC_V2 + body != []
  {
    assert (MAGIC_V2 + body)[..8] == MAGIC_V2;
  }

  /** Both readers refuse a file in which a payload no longer has its checksum. */
  lemma DamagedFileRefused<T(!new)>(k: Framing<T>, xs: seq<T>, x: T, q: Bytes, ys: seq<T>)
    requires TwoSided(k.format)
    requires Log(k, V2, xs).Some? && Payload(k, x).Some? && Log(k, V2, ys).Some?
    requires |q| == |Payload(k, x).value| && k.sum(q) != k.sum(Payload(k, x).value)
    ensures LoadRepairing(k, DamagedFile(k, xs, x, q, ys)) == Err(BadFrame)
    ensures ReadAll(k, DamagedFile(k, xs, x, q, ys)).Err?
  {
    var bad := DamagedFrame(k.sum, Payload(k, x).value, q) + Log(k, V2, ys).value;
    DamagedFrameBroken(k.sum, Payload(k, x).value, q, Log(k, V2, ys).value);
    BrokenBehindLog(k, V2, xs, bad);
    MagicInFront(Log(k, V2, xs).value + bad);
    StrictIffUnrepaired(k, DamagedFile(k, xs, x, q, ys));
  }

  /** Under CRC-32: a change of one stored payload inside a window of four bytes makes both readers refuse the file. */
  lemma BurstRefused<T(!new)>(k: Framing<T>, xs: seq<T>, x: T, ys: seq<T>, prefix: Bytes, u: Bytes, v: Bytes,
          suffix: Bytes)
    requires TwoSided(k.format) && k.sum == Crc32.Crc
    requires Log(k, V2, xs).Some? && Payload(k, x).Some? && Log(k, V2, ys).Some?
    requires Payload(k, x).value == prefix + u + suffix && |u| == |v| <= 4 && u != v
    ensures LoadRepairing(k, DamagedFile(k, xs, x, prefix + v + suffix, ys)) == Err(BadFrame)
    ensures ReadAll(k, DamagedFile(k, xs, x, prefix + v + suffix, ys)).Err?
  {
    Crc32.BurstDetected(prefix, u, v, suffix);
    DamagedFileRefused(k, xs, x, prefix + v + suffix, ys);
  }
}
