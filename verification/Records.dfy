/** Readers over byte strings, and lists of length-prefixed records over any codec. */
module Records {
  import opened Prelude

  const U32_LIMIT := 0x1_0000_0000

  // ---------------------------------------------------------------- reading

  /** What a reader took from the front of its input, and what it left. */
  datatype Parsed<+T> = Stuck | Got(value: T, rest: Bytes) {
    predicate IsFailure() { Stuck? }

    function PropagateFailure<U>(): Parsed<U>
      requires Stuck?
    {
      Stuck
    }

    function Extract(): (T, Bytes)
      requires Got?
    {
      (value, rest)
    }
  }

  function TakeExact(s: Bytes, n: nat): (r: Parsed<Bytes>)
  {
    if |s| < n then Stuck else Got(s[..n], s[n..])
  }

  function TakeU32(s: Bytes): (r: Parsed<u32>)
  {
    var (b, rest) :- TakeExact(s, 4);
    Got(U32Of(b), rest)
  }

  function TakeU64(s: Bytes): (r: Parsed<u64>)
  {
    var (b, rest) :- TakeExact(s, 8);
    Got(U64Of(b), rest)
  }

  function TakeBlob(s: Bytes): (r: Parsed<Bytes>)
  {
    var (n, rest) :- TakeU32(s);
    TakeExact(rest, n)
  }

  predicate Blob(b: Bytes)
  {
    |b| < U32_LIMIT
  }

  function BlobBytes(b: Bytes): (r: Bytes)
    requires Blob(b)
  {
    U32Bytes(|b|) + b
  }

  lemma TakeExactRoundTrip(a: Bytes, rest: Bytes)
    ensures TakeExact(a + rest, |a|) == Got(a, rest)
  {
  }

  lemma TakeU32RoundTrip(v: u32, rest: Bytes)
    ensures TakeU32(U32Bytes(v) + rest) == Got(v, rest)
  {
    TakeExactRoundTrip(U32Bytes(v), rest);
    U32RoundTrip(v);
  }

  lemma TakeU64RoundTrip(v: u64, rest: Bytes)
    ensures TakeU64(U64Bytes(v) + rest) == Got(v, rest)
  {
    TakeExactRoundTrip(U64Bytes(v), rest);
    U64RoundTrip(v);
  }

  lemma TakeBlobRoundTrip(b: Bytes, rest: Bytes)
    requires Blob(b)
    ensures TakeBlob(BlobBytes(b) + rest) == Got(b, rest)
  {
    ConcatAssoc(U32Bytes(|b|), b, rest);
    TakeU32RoundTrip(|b|, b + rest);
    TakeExactRoundTrip(b, rest);
  }

  lemma TakeExactCanonical(s: Bytes, n: nat)
    requires TakeExact(s, n).Got?
    ensures s == TakeExact(s, n).value + TakeExact(s, n).rest
    ensures |TakeExact(s, n).value| == n
  {
  }

  lemma TakeU32Canonical(s: Bytes)
    requires TakeU32(s).Got?
    ensures s == U32Bytes(TakeU32(s).value) + TakeU32(s).rest
  {
    TakeExactCanonical(s, 4);
  }

  lemma TakeU64Canonical(s: Bytes)
    requires TakeU64(s).Got?
    ensures s == U64Bytes(TakeU64(s).value) + TakeU64(s).rest
  {
    TakeExactCanonical(s, 8);
  }

  lemma TakeBlobCanonical(s: Bytes)
    requires TakeBlob(s).Got?
    ensures Blob(TakeBlob(s).value)
    ensures s == BlobBytes(TakeBlob(s).value) + TakeBlob(s).rest
  {
    var len := TakeU32(s);
    TakeU32Canonical(s);
    TakeExactCanonical(len.rest, len.value);
    ConcatAssoc(U32Bytes(len.value), TakeBlob(s).value, TakeBlob(s).rest);
  }

  /** Reading a blob in place. */
  lemma BlobAt(data: Bytes, pos: nat)
    requires pos <= |data|
    ensures pos + 4 > |data| ==> TakeBlob(data[pos..]).Stuck?
    ensures pos + 4 <= |data| ==>
      var end := pos + 4 + U32Of(data[pos..pos + 4]);
      TakeBlob(data[pos..]) == if end > |data| then Stuck else Got(data[pos + 4..end], data[end..])
  {
    var s := data[pos..];
    if pos + 4 <= |data| {
      assert s[..4] == data[pos..pos + 4];
      var len := U32Of(s[..4]);
      assert s[4..] == data[pos + 4..];
      if pos + 4 + len <= |data| {
        assert s[4..][..len] == data[pos + 4..pos + 4 + len];
        assert s[4..][len..] == data[pos + 4 + len..];
      }
    }
  }

  /** What a reader that has collected `out` ends with, if `r` is the result of the rest. */
  function Resume<T>(out: seq<T>, r: Parsed<seq<T>>): (p: Parsed<seq<T>>)
  {
    if r.Stuck? then Stuck else Got(out + r.value, r.rest)
  }

  lemma ResumeNothing<T>(out: seq<T>, r: Parsed<seq<T>>, rest: Bytes)
    ensures Resume([], r) == r && Resume(out, Got([], rest)) == Got(out, rest)
  {
    if r.Got? { assert [] + r.value == r.value; }
    assert out + [] == out;
  }

  lemma ResumeOneMore<T>(out: seq<T>, x: T, r: Parsed<seq<T>>)
    ensures Resume(out, Resume([x], r)) == Resume(out + [x], r)
  {
    if r.Got? { ConcatAssoc(out, [x], r.value); }
  }

  // ---------------------------------------------------------------- codecs

  /** A partial printer (it panics where there is no result) and a partial parser. */
  datatype Format<!T> = Format(encode: T -> Option<Bytes>, decode: Bytes -> Option<T>)

  /** Printer and parser are each other's inverse: a value has one spelling, a spelling one value. */
  ghost predicate TwoSided<T(!new)>(k: Format<T>)
  {
    forall x: T, d: Bytes :: k.encode(x) == Some(d) <==> k.decode(d) == Some(x)
  }

  /** Each value encoded behind its length. */
  function EncodeRecords<T>(k: Format<T>, xs: seq<T>): (r: Option<Bytes>)
  {
    if xs == [] then Some([])
    else
      match k.encode(xs[0])
      case None => None
      case Some(d) =>
        if !Blob(d) then None
        else
          match EncodeRecords(k, xs[1..])
          case None => None
          case Some(more) => Some(BlobBytes(d) + more)
  }

  function TakeRecords<T>(k: Format<T>, s: Bytes, n: nat): (r: Parsed<seq<T>>)
    decreases n
  {
    if n == 0 then Got([], s)
    else
      var (chunk, s1) :- TakeBlob(s);
      match k.decode(chunk)
      case None => Stuck
      case Some(x) =>
        var (xs, s2) :- TakeRecords(k, s1, n - 1);
        Got([x] + xs, s2)
  }

  lemma {:induction false} TakeRecordsRoundTrip<T(!new)>(k: Format<T>, xs: seq<T>, rest: Bytes)
    requires TwoSided(k)
    requires EncodeRecords(k, xs).Some?
    ensures TakeRecords(k, EncodeRecords(k, xs).value + rest, |xs|) == Got(xs, rest)
    decreases |xs|
  {
    if xs == [] {
      assert [] + rest == rest;
    } else {
      TakeRecordsRoundTrip(k, xs[1..], rest);
      var d := k.encode(xs[0]).value;
      assert k.decode(d) == Some(xs[0]);
      TakeRecordsFront(k, d, xs[0], EncodeRecords(k, xs[1..]).value, rest, xs[1..]);
      assert xs == [xs[0]] + xs[1..];
    }
  }

  lemma TakeRecordsFront<T>(k: Format<T>, d: Bytes, x: T, more: Bytes, rest: Bytes, xs: seq<T>)
    requires Blob(d) && k.decode(d) == Some(x) && TakeRecords(k, more + rest, |xs|) == Got(xs, rest)
    ensures TakeRecords(k, BlobBytes(d) + more + rest, |xs| + 1) == Got([x] + xs, rest)
  {
    ConcatAssoc(BlobBytes(d), more, rest);
    TakeBlobRoundTrip(d, more + rest);
  }

  lemma {:induction false} TakeRecordsCanonical<T(!new)>(k: Format<T>, s: Bytes, n: nat)
    requires TwoSided(k)
    requires TakeRecords(k, s, n).Got?
    ensures |TakeRecords(k, s, n).value| == n
    ensures EncodeRecords(k, TakeRecords(k, s, n).value).Some?
    ensures s == EncodeRecords(k, TakeRecords(k, s, n).value).value + TakeRecords(k, s, n).rest
    decreases n
  {
    if n == 0 {
      assert [] + s == s;
    } else {
      TakeBlobCanonical(s);
      var chunk, s1 := TakeBlob(s).value, TakeBlob(s).rest;
      var x := k.decode(chunk).value;
      assert k.encode(x) == Some(chunk);
      TakeRecordsCanonical(k, s1, n - 1);
      var tail := TakeRecords(k, s1, n - 1);
      assert ([x] + tail.value)[1..] == tail.value;
      ConcatAssoc(BlobBytes(chunk), EncodeRecords(k, tail.value).value, tail.rest);
    }
  }
}
