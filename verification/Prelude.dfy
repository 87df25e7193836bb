/** Machine integers, byte strings and the result types shared by every component of the node. */
module Prelude {

  type byte = x: int | 0 <= x < 0x100
  type u32 = x: int | 0 <= x < 0x1_0000_0000
  type u64 = x: int | 0 <= x < 0x1_0000_0000_0000_0000

  type Bytes = seq<byte>

  /** A Rust `String` is represented by its UTF-8 bytes. */
  type Str = seq<byte>

  const U64_MAX: u64 := 0xFFFF_FFFF_FFFF_FFFF

  datatype Option<+T> = None | Some(value: T)

  datatype Result<+T, +E> = Ok(value: T) | Err(error: E)

  function CheckedAdd(a: u64, b: u64): (r: Option<u64>)
  {
    if a + b <= U64_MAX then Some(a + b) else None
  }

  function SaturatingAdd(a: u64, b: u64): (r: u64)
  {
    if a + b <= U64_MAX then a + b else U64_MAX
  }

  function Min(a: int, b: int): (r: int)
  {
    if a <= b then a else b
  }

  // ---------------------------------------------------------------- sequences

  predicate Distinct<T(==)>(s: seq<T>)
  {
    forall i, j :: 0 <= i < j < |s| ==> s[i] != s[j]
  }

  /** A sequence of distinct elements drawn from a finite set is no longer than the set. */
  lemma {:induction false} DistinctFits<T>(s: seq<T>, all: set<T>)
    requires Distinct(s)
    requires forall i :: 0 <= i < |s| ==> s[i] in all
    ensures |s| <= |all|
  {
    if s != [] {
      var last := s[|s| - 1];
      DistinctFits(s[..|s| - 1], all - {last});
    }
  }

  function Members<T(==)>(s: seq<T>): (r: set<T>)
  {
    set x | x in s
  }

  lemma DistinctSnoc<T>(s: seq<T>, x: T)
    requires Distinct(s) && x !in s
    ensures Distinct(s + [x])
  {
  }

  lemma {:induction false} DistinctCount<T>(s: seq<T>)
    requires Distinct(s)
    ensures |Members(s)| == |s|
  {
    if s != [] {
      var front, last := s[..|s| - 1], s[|s| - 1];
      DistinctCount(front);
      assert s == front + [last];
      assert Members(s) == Members(front) + {last};
    }
  }

  lemma MembersSnoc<T>(s: seq<T>, n: nat)
    requires n < |s|
    ensures Members(s[..n + 1]) == Members(s[..n]) + {s[n]}
  {
    assert s[..n + 1] == s[..n] + [s[n]];
  }

  lemma TailOfConcat<T>(a: seq<T>, b: seq<T>)
    requires a != []
    ensures (a + b)[1..] == a[1..] + b
  {
  }

  lemma ConcatAssoc<T>(a: seq<T>, b: seq<T>, c: seq<T>)
    ensures a + b + c == a + (b + c)
  {
  }

  // ---------------------------------------------------------------- list results

  /** What a loop that has collected `done` ends with, if `r` is the result of the rest. */
  function Prepend<T, E>(done: seq<T>, r: Result<seq<T>, E>): (s: Result<seq<T>, E>)
  {
    match r
    case Ok(more) => Ok(done + more)
    case Err(e) => Err(e)
  }

  lemma PrependNothing<T, E>(done: seq<T>, r: Result<seq<T>, E>)
    ensures Prepend([], r) == r
    ensures Prepend<T, E>(done, Ok([])) == Ok(done)
  {
    if r.Ok? { assert [] + r.value == r.value; }
    assert done + [] == done;
  }

  lemma PrependOneMore<T, E>(done: seq<T>, x: T, r: Result<seq<T>, E>)
    ensures Prepend(done, Prepend([x], r)) == Prepend(done + [x], r)
  {
    if r.Ok? { ConcatAssoc(done, [x], r.value); }
  }

  // ------------------------------------------------- big-endian fixed width

  function Pow256(n: nat): (r: nat)
    ensures r > 0
  {
    if n == 0 then 1 else 256 * Pow256(n - 1)
  }

  /** `v` as `n` big-endian bytes. */
  function BigEndian(n: nat, v: nat): (r: Bytes)
    ensures |r| == n
  {
    if n == 0 then [] else BigEndian(n - 1, v / 256) + [v % 256]
  }

  function FromBigEndian(s: Bytes): (r: nat)
  {
    if s == [] then 0 else 256 * FromBigEndian(s[..|s| - 1]) + s[|s| - 1]
  }

  lemma {:induction false} FromBigEndianOfBigEndian(n: nat, v: nat)
    requires v < Pow256(n)
    ensures FromBigEndian(BigEndian(n, v)) == v
  {
    if n != 0 {
      FromBigEndianOfBigEndian(n - 1, v / 256);
      assert BigEndian(n, v)[..n - 1] == BigEndian(n - 1, v / 256);
    }
  }

  lemma {:induction false} BigEndianOfFromBigEndian(s: Bytes)
    ensures FromBigEndian(s) < Pow256(|s|)
    ensures BigEndian(|s|, FromBigEndian(s)) == s
  {
    if s != [] {
      BigEndianOfFromBigEndian(s[..|s| - 1]);
      assert s == s[..|s| - 1] + [s[|s| - 1]];
    }
  }

  /** `v` without its `k` last base-256 digits. */
  function Shortened(v: nat, k: nat): (r: nat)
    decreases k
  {
    if k == 0 then v else Shortened(v / 256, k - 1)
  }

  /** Byte `i` of the big-endian form is a base-256 digit, most significant first. */
  lemma {:induction false} BigEndianDigit(n: nat, v: nat, i: nat)
    requires i < n
    ensures BigEndian(n, v)[i] == Shortened(v, n - 1 - i) % 256
  {
    if i < n - 1 { BigEndianDigit(n - 1, v / 256, i); }
  }

  lemma WidthOfU32()
    ensures Pow256(4) == 0x1_0000_0000
  {
    assert Pow256(1) == 256;
    assert Pow256(2) == 0x1_0000;
    assert Pow256(3) == 0x100_0000;
  }

  lemma WidthOfU64()
    ensures Pow256(8) == 0x1_0000_0000_0000_0000
  {
    WidthOfU32();
    assert Pow256(5) == 0x100_0000_0000;
    assert Pow256(6) == 0x1_0000_0000_0000;
    assert Pow256(7) == 0x100_0000_0000_0000;
  }

  function U32Bytes(v: u32): (r: Bytes)
    ensures |r| == 4
  {
    BigEndian(4, v)
  }

  function U64Bytes(v: u64): (r: Bytes)
    ensures |r| == 8
  {
    BigEndian(8, v)
  }

  function U32Of(s: Bytes): (r: u32)
    requires |s| == 4
    ensures U32Bytes(r) == s
  {
    BigEndianOfFromBigEndian(s);
    WidthOfU32();
    FromBigEndian(s)
  }

  function U64Of(s: Bytes): (r: u64)
    requires |s| == 8
    ensures U64Bytes(r) == s
  {
    BigEndianOfFromBigEndian(s);
    WidthOfU64();
    FromBigEndian(s)
  }

  lemma U32RoundTrip(v: u32)
    ensures U32Of(U32Bytes(v)) == v
  {
    WidthOfU32();
    FromBigEndianOfBigEndian(4, v);
  }

  lemma U64RoundTrip(v: u64)
    ensures U64Of(U64Bytes(v)) == v
  {
    WidthOfU64();
    FromBigEndianOfBigEndian(8, v);
  }

  /** The four bytes of a 32-bit length, count or checksum. */
  lemma U32Layout(v: u32)
    ensures U32Bytes(v) == [v / 0x100_0000, v / 0x1_0000 % 0x100, v / 0x100 % 0x100, v % 0x100]
  {
    LastTwo(4, v);
    LastTwo(2, v / 0x1_0000);
    assert v / 0x1_0000 / 0x100 == v / 0x100_0000;
  }

  lemma LastTwo(n: nat, v: nat)
    requires n >= 2
    ensures BigEndian(n, v) == BigEndian(n - 2, v / 0x1_0000) + [v / 0x100 % 0x100, v % 0x100]
  {
    assert v / 0x100 / 0x100 == v / 0x1_0000;
  }
}
