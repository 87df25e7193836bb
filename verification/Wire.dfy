/** The `OP_BLOCKS` reply: an opcode, a count and that many length-prefixed blocks. */
module Wire {
  import opened Prelude
  import opened Records

  const OP_BLOCKS: byte := 4
  const MAX_WIRE: u32 := 0x400_0000
  const MAX_BATCH: u32 := 64

  // ---------------------------------------------------------------- encoding

  function FirstBatch<T>(xs: seq<T>): (r: seq<T>)
  {
    xs[..Min(|xs|, MAX_BATCH)]
  }

  function BatchHead(n: nat): (r: Bytes)
    requires n <= MAX_BATCH
    ensures |r| == 5
  {
    [OP_BLOCKS] + U32Bytes(n)
  }

  /** `wire_encode_blocks_response`; `None` also where the block encoder would panic. */
  function EncodeBatch<T>(k: Format<T>, xs: seq<T>): (r: Option<Bytes>)
  {
    match EncodeRecords(k, FirstBatch(xs))
    case None => None
    case Some(body) =>
      var out := BatchHead(Min(|xs|, MAX_BATCH)) + body;
      if |out| > MAX_WIRE then None else Some(out)
  }

  // ---------------------------------------------------------------- decoding

  /** The entries of a batch, each no longer than a frame. */
  function TakeBatch<T>(k: Format<T>, s: Bytes, n: nat): (r: Parsed<seq<T>>)
    decreases n
  {
    if n == 0 then Got([], s)
    else
      match TakeBlob(s)
      case Stuck => Stuck
      case Got(chunk, s1) =>
        if |chunk| > MAX_WIRE then Stuck
        else
          match k.decode(chunk)
          case None => Stuck
          case Some(x) =>
            match TakeBatch(k, s1, n - 1)
            case Stuck => Stuck
            case Got(xs, s2) => Got([x] + xs, s2)
  }

  /** `parse_op_blocks_body` */
  function ParseBody<T>(k: Format<T>, s: Bytes): (r: Option<seq<T>>)
  {
    match TakeU32(s)
    case Stuck => None
    case Got(n, rest) =>
      if n > MAX_BATCH then None
      else
        match TakeBatch(k, rest, n)
        case Stuck => None
        case Got(xs, left) => if left == [] then Some(xs) else None
  }

  /** `wire_decode_blocks_response` */
  function DecodeBatch<T>(k: Format<T>, s: Bytes): (r: Option<seq<T>>)
  {
    if s == [] || s[0] != OP_BLOCKS then None else ParseBody(k, s[1..])
  }

  // ---------------------------------------------------------------- the two are inverse

  lemma {:induction false} TakeBatchIsRecords<T>(k: Format<T>, s: Bytes, n: nat)
    ensures TakeBatch(k, s, n).Got? ==> TakeRecords(k, s, n) == TakeBatch(k, s, n)
    ensures TakeRecords(k, s, n).Got? && |s| <= MAX_WIRE ==> TakeBatch(k, s, n) == TakeRecords(k, s, n)
    decreases n
  {
    if n != 0 && TakeBlob(s).Got? {
      TakeBlobCanonical(s);
      TakeBatchIsRecords(k, TakeBlob(s).rest, n - 1);
    }
  }

  lemma HeadSplits(n: nat, body: Bytes)
    requires n <= MAX_BATCH
    ensures BatchHead(n) + body != [] && (BatchHead(n) + body)[0] == OP_BLOCKS
    ensures (BatchHead(n) + body)[1..] == U32Bytes(n) + body
  {
  }

  /** A reply that the server accepts decodes to the first 64 blocks it was given. */
  lemma BatchRoundTrip<T(!new)>(k: Format<T>, xs: seq<T>)
    requires TwoSided(k) && EncodeBatch(k, xs).Some?
    ensures DecodeBatch(k, EncodeBatch(k, xs).value) == Some(FirstBatch(xs))
  {
    var ys := FirstBatch(xs);
    var body := EncodeRecords(k, ys).value;
    HeadSplits(|ys|, body);
    TakeU32RoundTrip(|ys|, body);
    TakeRecordsRoundTrip(k, ys, []);
    assert body + [] == body;
    TakeBatchIsRecords(k, body, |ys|);
  }

  /** A reply that decodes is the encoding of at most 64 blocks; the server sends it if it fits a frame. */
  lemma BatchCanonical<T(!new)>(k: Format<T>, s: Bytes)
    requires TwoSided(k) && DecodeBatch(k, s).Some?
    ensures var xs := DecodeBatch(k, s).value;
            && |xs| <= MAX_BATCH
            && (forall i :: 0 <= i < |xs| ==> k.encode(xs[i]).Some?)
            && (EncodeBatch(k, xs) == if |s| <= MAX_WIRE then Some(s) else None)
  {
    var xs := DecodeBatch(k, s).value;
    var n, rest := TakeU32(s[1..]).value, TakeU32(s[1..]).rest;
    TakeU32Canonical(s[1..]);
    TakeBatchIsRecords(k, rest, n);
    TakeRecordsCanonical(k, rest, n);
    var body := EncodeRecords(k, xs).value;
    assert rest == body + [] == body;
    HeadSplits(n, body);
    assert s == [OP_BLOCKS] + s[1..];
    assert FirstBatch(xs) == xs;
    assert s == BatchHead(n) + body;
    RecordsEncode(k, xs);
  }

  lemma {:induction false} RecordsEncode<T>(k: Format<T>, xs: seq<T>)
    requires EncodeRecords(k, xs).Some?
    ensures forall i :: 0 <= i < |xs| ==> k.encode(xs[i]).Some?
  {
    if xs != [] {
      RecordsEncode(k, xs[1..]);
      forall i | 0 <= i < |xs| ensures k.encode(xs[i]).Some? {
        if i > 0 { assert xs[i] == xs[1..][i - 1]; }
      }
    }
  }

  // ---------------------------------------------------------------- loops

  /** The reply, given what is written and how the rest encodes. */
  function Capped(out: Bytes, more: Option<Bytes>): (r: Option<Bytes>)
  {
    if more.None? || |out| + |more.value| > MAX_WIRE then None else Some(out + more.value)
  }

  lemma CappedOneMore(out: Bytes, piece: Bytes, more: Option<Bytes>)
    ensures |out + piece| > MAX_WIRE ==> Capped(out, Prefixed(piece, more)) == None
    ensures Capped(out, Prefixed(piece, more)) == Capped(out + piece, more)
  {
    if more.Some? { ConcatAssoc(out, piece, more.value); }
  }

  function Prefixed(piece: Bytes, more: Option<Bytes>): (r: Option<Bytes>)
  {
    if more.None? then None else Some(piece + more.value)
  }

  lemma RecordsAt<T>(k: Format<T>, xs: seq<T>, i: nat)
    requires i < |xs| && k.encode(xs[i]).Some?
    ensures var d := k.encode(xs[i]).value;
            EncodeRecords(k, xs[i..]) == if Blob(d) then Prefixed(BlobBytes(d), EncodeRecords(k, xs[i + 1..])) else None
  {
    assert xs[i..][0] == xs[i] && xs[i..][1..] == xs[i + 1..];
  }

  method WireEncodeBlocks<T>(k: Format<T>, xs: seq<T>) returns (r: Option<Bytes>)
    requires forall i :: 0 <= i < Min(|xs|, MAX_BATCH) ==> k.encode(xs[i]).Some?
    ensures r == EncodeBatch(k, xs)
  {
    var take := Min(|xs|, MAX_BATCH);
    var ys := xs[..take];
    var out := BatchHead(take);
    assert ys[0..] == ys;
    for i := 0 to |ys|
      invariant |out| <= MAX_WIRE
      invariant EncodeBatch(k, xs) == Capped(out, EncodeRecords(k, ys[i..]))
    {
      RecordsAt(k, ys, i);
      var enc := k.encode(ys[i]).value;
      if |enc| >= U32_LIMIT {
        return None;
      }
      CappedOneMore(out, BlobBytes(enc), EncodeRecords(k, ys[i + 1..]));
      out := out + BlobBytes(enc);
      if |out| > MAX_WIRE {
        return None;
      }
    }
    assert out + [] == out;
    r := Some(out);
  }

  /** One turn of the parsing loop. */
  method ReadBlock<T>(k: Format<T>, data: Bytes, pos: nat, left: nat) returns (r: Option<(T, nat)>)
    requires pos <= |data| && left > 0
    ensures r.None? ==> TakeBatch(k, data[pos..], left) == Stuck
    ensures r.Some? ==>
      && pos <= r.value.1 <= |data|
      && TakeBatch(k, data[pos..], left) == Resume([r.value.0], TakeBatch(k, data[r.value.1..], left - 1))
  {
    BlobAt(data, pos);
    if pos + 4 > |data| {
      return None;
    }
    var len := U32Of(data[pos..pos + 4]);
    if len > MAX_WIRE {
      return None;
    }
    var end := pos + 4 + len;
    if end > |data| {
      return None;
    }
    var x := k.decode(data[pos + 4..end]);
    if x.None? {
      return None;
    }
    r := Some((x.value, end));
  }

  method ParseBlocksBody<T>(k: Format<T>, data: Bytes) returns (r: Option<seq<T>>)
    ensures r == ParseBody(k, data)
  {
    if |data| < 4 {
      return None;
    }
    var n := U32Of(data[..4]);
    if n > MAX_BATCH {
      return None;
    }
    var pos := 4;
    var out: seq<T> := [];
    ghost var whole := TakeBatch(k, data[4..], n);
    ResumeNothing(out, whole, []);
    for i := 0 to n
      invariant pos <= |data|
      invariant whole == Resume(out, TakeBatch(k, data[pos..], n - i))
    {
      var entry := ReadBlock(k, data, pos, n - i);
      if entry.None? {
        return None;
      }
      var (x, next) := entry.value;
      ResumeOneMore(out, x, TakeBatch(k, data[next..], n - i - 1));
      out := out + [x];
      pos := next;
    }
    ResumeNothing(out, whole, data[pos..]);
    r := if pos != |data| then None else Some(out);
  }

  method WireDecodeBlocks<T>(k: Format<T>, payload: Bytes) returns (r: Option<seq<T>>)
    ensures r == DecodeBatch(k, payload)
  {
    if payload == [] || payload[0] != OP_BLOCKS {
      return None;
    }
    r := ParseBlocksBody(k, payload[1..]);
  }
}
