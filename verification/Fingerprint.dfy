/** The canonical byte form of a ledger: accounts in address order, every field length-prefixed or fixed. */
module Fingerprint {
  import opened Prelude
  import opened Protocol
  import opened Ledger
  import opened Chain
  import opened Records

  // ---------------------------------------------------------------- address order

  /** Byte-wise lexicographic order, as `String` compares. */
  predicate Less(a: Str, b: Str)
    decreases |a|
  {
    b != [] && (a == [] || a[0] < b[0] || (a[0] == b[0] && Less(a[1..], b[1..])))
  }

  lemma {:induction false} LessIrreflexive(a: Str)
    ensures !Less(a, a)
  {
    if a != [] { LessIrreflexive(a[1..]); }
  }

  /** `a` comes first: at the first place where they differ it has the smaller byte, or it ends there. */
  ghost predicate FirstDiffers(a: Str, b: Str, i: nat)
  {
    && i <= |a| && i < |b| && a[..i] == b[..i]
    && (i < |a| ==> a[i] < b[i])
  }

  lemma LessExact(a: Str, b: Str)
    ensures Less(a, b) <==> exists i: nat :: FirstDiffers(a, b, i)
  {
    if Less(a, b) { var i := LessDiffers(a, b); }
    forall i: nat | FirstDiffers(a, b, i) ensures Less(a, b) { DiffersLess(a, b, i); }
  }

  lemma {:induction false} LessDiffers(a: Str, b: Str) returns (i: nat)
    requires Less(a, b)
    ensures FirstDiffers(a, b, i)
    decreases |a|
  {
    i := 0;
    if a != [] && a[0] == b[0] {
      var j := LessDiffers(a[1..], b[1..]);
      assert a[..j + 1] == [a[0]] + a[1..][..j] && b[..j + 1] == [b[0]] + b[1..][..j];
      i := j + 1;
    }
  }

  lemma {:induction false} DiffersLess(a: Str, b: Str, i: nat)
    requires FirstDiffers(a, b, i)
    ensures Less(a, b)
    decreases i
  {
    if i > 0 {
      assert a[..i][0] == a[0] && b[..i][0] == b[0];
      assert a[1..][..i - 1] == a[..i][1..] && b[1..][..i - 1] == b[..i][1..];
      DiffersLess(a[1..], b[1..], i - 1);
    }
  }

  lemma {:induction false} LessTotal(a: Str, b: Str)
    ensures a == b || Less(a, b) || Less(b, a)
    decreases |a|
  {
    if a != [] && b != [] && a[0] == b[0] {
      LessTotal(a[1..], b[1..]);
      assert a == [a[0]] + a[1..] && b == [b[0]] + b[1..];
    }
  }

  lemma {:induction false} LessTransitive(a: Str, b: Str, c: Str)
    requires Less(a, b) && Less(b, c)
    ensures Less(a, c)
    decreases |a|
  {
    if a != [] && a[0] == b[0] == c[0] { LessTransitive(a[1..], b[1..], c[1..]); }
  }

  ghost predicate Sorted(keys: seq<Str>)
  {
    forall i, j :: 0 <= i < j < |keys| ==> Less(keys[i], keys[j])
  }

  /** `keys` lists the set `all` in increasing order. */
  ghost predicate Lists(keys: seq<Str>, all: set<Str>)
  {
    Sorted(keys) && forall k :: k in keys <==> k in all
  }

  lemma ListsTail(keys: seq<Str>, all: set<Str>)
    requires Lists(keys, all) && keys != []
    ensures Lists(keys[1..], all - {keys[0]})
    ensures forall k :: k in all && k != keys[0] ==> Less(keys[0], k)
  {
    var rest := keys[1..];
    assert forall i :: 0 <= i < |rest| ==> rest[i] == keys[i + 1];
    forall k | k in all && k != keys[0] ensures k in rest && Less(keys[0], k) {
      var i :| 0 <= i < |keys| && keys[i] == k;
      assert rest[i - 1] == k;
    }
    forall k | k in rest ensures k != keys[0] {
      LessIrreflexive(k);
    }
  }

  lemma ListsNothing(keys: seq<Str>, all: set<Str>)
    requires Lists(keys, all)
    ensures keys == [] <==> all == {}
  {
    if keys != [] { assert keys[0] in all; }
  }

  /** A set has only one sorted listing. */
  lemma {:induction false} ListingUnique(a: seq<Str>, b: seq<Str>, all: set<Str>)
    requires Lists(a, all) && Lists(b, all)
    ensures a == b
    decreases |a|
  {
    ListsNothing(a, all);
    ListsNothing(b, all);
    if a != [] {
      assert a[0] in all;
      ListsTail(a, all);
      ListsTail(b, all);
      assert b[0] in all;
      if a[0] != b[0] {
        LessTransitive(a[0], b[0], a[0]);
        LessIrreflexive(a[0]);
      }
      ListingUnique(a[1..], b[1..], all - {a[0]});
      assert a == [a[0]] + a[1..] && b == [b[0]] + b[1..];
    }
  }

  function Insert(k: Str, keys: seq<Str>): (r: seq<Str>)
    ensures forall x :: x in r <==> x == k || x in keys
  {
    if keys == [] then [k]
    else if Less(k, keys[0]) then [k] + keys
    else
      assert keys == [keys[0]] + keys[1..];
      [keys[0]] + Insert(k, keys[1..])
  }

  lemma SortedCons(k: Str, keys: seq<Str>)
    requires Sorted(keys) && forall x :: x in keys ==> Less(k, x)
    ensures Sorted([k] + keys)
  {
  }

  lemma SortedTail(keys: seq<Str>)
    requires Sorted(keys) && keys != []
    ensures Sorted(keys[1..]) && forall x :: x in keys[1..] ==> Less(keys[0], x)
  {
  }

  lemma {:induction false} InsertSorted(k: Str, keys: seq<Str>)
    requires Sorted(keys) && k !in keys
    ensures Sorted(Insert(k, keys))
  {
    if keys != [] {
      SortedTail(keys);
      if Less(k, keys[0]) {
        forall x | x in keys ensures Less(k, x) {
          if x != keys[0] {
            assert x in keys[1..];
            LessTransitive(k, keys[0], x);
          }
        }
        SortedCons(k, keys);
      } else {
        LessTotal(k, keys[0]);
        InsertSorted(k, keys[1..]);
        SortedCons(keys[0], Insert(k, keys[1..]));
      }
    }
  }

  ghost function SortedKeys(all: set<Str>): (r: seq<Str>)
    ensures Lists(r, all)
  {
    if all == {} then []
    else
      var k :| k in all;
      InsertSorted(k, SortedKeys(all - {k}));
      Insert(k, SortedKeys(all - {k}))
  }

  /** `State::accounts_sorted`, whatever order the table hands its keys out in. */
  method SortKeys(s: Accounts) returns (keys: seq<Str>)
    ensures keys == SortedKeys(s.Keys)
  {
    keys := [];
    var rest := s.Keys;
    while rest != {}
      invariant rest <= s.Keys
      invariant Lists(keys, s.Keys - rest)
      decreases rest
    {
      var k :| k in rest;
      InsertSorted(k, keys);
      keys := Insert(k, keys);
      rest := rest - {k};
    }
    ListingUnique(keys, SortedKeys(s.Keys), s.Keys);
  }

  // ---------------------------------------------------------------- byte form

  function AccountBytes(ac: Account): (r: Bytes)
  {
    U64Bytes(ac.balance) + U64Bytes(ac.nonce)
  }

  /** One account; the length field keeps 32 bits of the address length. */
  function RowBytes(a: Str, ac: Account): (r: Bytes)
    ensures |r| > 0
  {
    U32Bytes(|a| % U32_LIMIT) + a + AccountBytes(ac)
  }

  type Row = (Str, Account) -> Bytes

  function Rows(row: Row, s: Accounts, keys: seq<Str>): (r: Bytes)
    requires forall k :: k in keys ==> k in s
  {
    if keys == [] then [] else row(keys[0], s[keys[0]]) + Rows(row, s, keys[1..])
  }

  /** `sandbox_state_fingerprint_preimage` */
  ghost function Preimage(s: Accounts): (r: Bytes)
  {
    U64Bytes(Min(|s|, U64_MAX)) + Rows(RowBytes, s, SortedKeys(s.Keys))
  }

  lemma {:induction false} RowsSnoc(row: Row, s: Accounts, keys: seq<Str>, k: Str)
    requires k in s && forall k :: k in keys ==> k in s
    ensures Rows(row, s, keys + [k]) == Rows(row, s, keys) + row(k, s[k])
    decreases |keys|
  {
    if keys == [] {
      assert [] + [k] == [k];
    } else {
      assert (keys + [k])[1..] == keys[1..] + [k];
      RowsSnoc(row, s, keys[1..], k);
      ConcatAssoc(row(keys[0], s[keys[0]]), Rows(row, s, keys[1..]), row(k, s[k]));
    }
  }

  method AppendRows(row: Row, head: Bytes, s: Accounts, keys: seq<Str>) returns (out: Bytes)
    requires forall k :: k in keys ==> k in s
    ensures out == head + Rows(row, s, keys)
  {
    out := head;
    assert head + [] == head;
    for i := 0 to |keys|
      invariant out == head + Rows(row, s, keys[..i])
    {
      RowsSnoc(row, s, keys[..i], keys[i]);
      assert keys[..i + 1] == keys[..i] + [keys[i]];
      ConcatAssoc(head, Rows(row, s, keys[..i]), row(keys[i], s[keys[i]]));
      out := out + row(keys[i], s[keys[i]]);
    }
    assert keys[..|keys|] == keys;
  }

  method FingerprintPreimage(s: Accounts) returns (out: Bytes)
    ensures out == Preimage(s)
  {
    var keys := SortKeys(s);
    out := AppendRows(RowBytes, U64Bytes(Min(|s|, U64_MAX)), s, keys);
  }

  // ---------------------------------------------------------------- no two ledgers share a byte form

  ghost predicate Short(s: Accounts)
  {
    forall a :: a in s ==> |a| < U32_LIMIT
  }

  function TakeAccount(s: Bytes): (r: Parsed<Account>)
  {
    var (balance, s1) :- TakeU64(s);
    var (nonce, s2) :- TakeU64(s1);
    Got(Account(balance, nonce), s2)
  }

  /** Two readers, one after the other. */
  function TakePair<A, B>(first: Bytes -> Parsed<A>, second: Bytes -> Parsed<B>, s: Bytes): (r: Parsed<(A, B)>)
  {
    var (a, s1) :- first(s);
    var (b, s2) :- second(s1);
    Got((a, b), s2)
  }

  function TakeRow(s: Bytes): (r: Parsed<(Str, Account)>)
  {
    TakePair(TakeBlob, TakeAccount, s)
  }

  lemma TakePairRoundTrip<A, B>(first: Bytes -> Parsed<A>, second: Bytes -> Parsed<B>, a: A, x: Bytes, b: B,
          y: Bytes, rest: Bytes)
    requires first(x + (y + rest)) == Got(a, y + rest) && second(y + rest) == Got(b, rest)
    ensures TakePair(first, second, x + y + rest) == Got((a, b), rest)
  {
    ConcatAssoc(x, y, rest);
  }

  lemma TakeAccountRoundTrip(ac: Account, rest: Bytes)
    ensures TakeAccount(AccountBytes(ac) + rest) == Got(ac, rest)
  {
    ConcatAssoc(U64Bytes(ac.balance), U64Bytes(ac.nonce), rest);
    TakeU64RoundTrip(ac.balance, U64Bytes(ac.nonce) + rest);
    TakeU64RoundTrip(ac.nonce, rest);
  }

  lemma TakeRowOf(a: Str, ac: Account, y: Bytes, rest: Bytes)
    requires Blob(a) && TakeAccount(y + rest) == Got(ac, rest)
    ensures TakeRow(BlobBytes(a) + y + rest) == Got((a, ac), rest)
  {
    TakeBlobRoundTrip(a, y + rest);
    TakePairRoundTrip(TakeBlob, TakeAccount, a, BlobBytes(a), ac, y, rest);
  }

  lemma RowIsBlob(a: Str, ac: Account)
    requires Blob(a)
    ensures RowBytes(a, ac) == BlobBytes(a) + AccountBytes(ac)
  {
    assert |a| % U32_LIMIT == |a|;
  }

  lemma TakeRowRoundTrip(a: Str, ac: Account, rest: Bytes)
    requires |a| < U32_LIMIT
    ensures TakeRow(RowBytes(a, ac) + rest) == Got((a, ac), rest)
  {
    RowIsBlob(a, ac);
    TakeAccountRoundTrip(ac, rest);
    TakeRowOf(a, ac, AccountBytes(ac), rest);
  }

  lemma SameTail(a: Bytes, x: Bytes, b: Bytes, y: Bytes)
    requires |a| == |b| && a + x == b + y
    ensures x == y
  {
    assert x == (a + x)[|a|..] && y == (b + y)[|b|..];
  }

  /** `take` reads back what `row` writes, for the rows of `s`. */
  ghost predicate Readable(row: Row, take: Bytes -> Parsed<(Str, Account)>, s: Accounts)
  {
    && (forall k, rest: Bytes :: k in s ==> take(row(k, s[k]) + rest) == Got((k, s[k]), rest))
    && (forall k :: k in s ==> row(k, s[k]) != [])
  }

  /** Equal row bytes come from equal rows. */
  lemma {:induction false} RowsInjective(row: Row, take: Bytes -> Parsed<(Str, Account)>,
                                         s: Accounts, ks: seq<Str>, t: Accounts, kt: seq<Str>)
    requires Readable(row, take, s) && Readable(row, take, t)
    requires (forall k :: k in ks ==> k in s) && (forall k :: k in kt ==> k in t)
    requires Rows(row, s, ks) == Rows(row, t, kt)
    ensures ks == kt && forall k :: k in ks ==> s[k] == t[k]
    decreases |ks|
  {
    if ks != [] && kt != [] {
      var a, b := ks[0], kt[0];
      assert take(row(a, s[a]) + Rows(row, s, ks[1..])) == Got((a, s[a]), Rows(row, s, ks[1..]));
      assert take(row(b, t[b]) + Rows(row, t, kt[1..])) == Got((b, t[b]), Rows(row, t, kt[1..]));
      RowsInjective(row, take, s, ks[1..], t, kt[1..]);
      assert ks == [a] + ks[1..] && kt == [b] + kt[1..];
    }
  }

  lemma ListingInjective(row: Row, take: Bytes -> Parsed<(Str, Account)>, hs: Bytes, s: Accounts, ht: Bytes,
          t: Accounts)
    requires Readable(row, take, s) && Readable(row, take, t)
    requires |hs| == |ht| && hs + Rows(row, s, SortedKeys(s.Keys)) == ht + Rows(row, t, SortedKeys(t.Keys))
    ensures s == t
  {
    var ks, kt := SortedKeys(s.Keys), SortedKeys(t.Keys);
    SameTail(hs, Rows(row, s, ks), ht, Rows(row, t, kt));
    RowsInjective(row, take, s, ks, t, kt);
    assert s.Keys == t.Keys;
  }

  lemma ShortReadable(s: Accounts)
    requires Short(s)
    ensures Readable(RowBytes, TakeRow, s)
  {
    forall k, rest: Bytes | k in s ensures TakeRow(RowBytes(k, s[k]) + rest) == Got((k, s[k]), rest) {
      TakeRowRoundTrip(k, s[k], rest);
    }
  }

  /** Ledgers with addresses shorter than 2^32 bytes are equal exactly when their byte forms are. */
  lemma PreimageInjective(s: Accounts, t: Accounts)
    requires Short(s) && Short(t)
    ensures Preimage(s) == Preimage(t) <==> s == t
  {
    if Preimage(s) == Preimage(t) {
      ShortReadable(s);
      ShortReadable(t);
      ListingInjective(RowBytes, TakeRow, U64Bytes(Min(|s|, U64_MAX)), s, U64Bytes(Min(|t|, U64_MAX)), t);
    }
  }

  // ---------------------------------------------------------------- addresses on chain

  ghost predicate WithinLimit(s: Accounts)
  {
    forall a :: a in s ==> |a| <= 128
  }

  lemma {:induction false} TransfersWithinLimit(rules: Rules, s: Accounts, txs: seq<Transaction>)
    requires forall tx: Transaction :: rules.checkTx(tx).Pass? ==> |tx.receiver| <= 128
    requires WithinLimit(s) && ApplyAll(rules, s, txs).Ok?
    ensures WithinLimit(ApplyAll(rules, s, txs).value)
    decreases |txs|
  {
    if txs != [] {
      TransferMeaning(rules, s, txs[0]);
      TransfersWithinLimit(rules, ApplyTx(rules, s, txs[0]).value, txs[1..]);
    }
  }

  lemma {:induction false} GenesisWithinLimit(g: Genesis)
    requires ValidateAllocations(g).Pass?
    ensures forall i :: 0 <= i < |g| ==> |g[i].address| <= 128
  {
    if g != [] {
      GenesisWithinLimit(g[1..]);
      forall i | 0 <= i < |g| ensures |g[i].address| <= 128 {
        if i > 0 { assert g[i] == g[1..][i - 1]; }
      }
    }
  }

  /** On every chain the node can reach, equal byte forms mean equal ledgers. */
  lemma ReachableFingerprints(c: Crypto, p: ConsensusParams, g: Genesis, x: ChainValue, y: ChainValue)
    requires Canonical(StandardRules(c), p, g, x) && Canonical(StandardRules(c), p, g, y)
    ensures Preimage(x.accounts) == Preimage(y.accounts) <==> x.accounts == y.accounts
  {
    ReachableShort(c, p, g, x);
    ReachableShort(c, p, g, y);
    PreimageInjective(x.accounts, y.accounts);
  }

  lemma ReachableShort(c: Crypto, p: ConsensusParams, g: Genesis, ch: ChainValue)
    requires Canonical(StandardRules(c), p, g, ch)
    ensures WithinLimit(ch.accounts)
  {
    var rules := StandardRules(c);
    StateIsReplay(rules, p, g, ch);
    GenesisWithinLimit(g);
    forall a | a in AccountsOf(g) ensures |a| <= 128 {
      GenesisNonces(g, a);
    }
    TransfersWithinLimit(rules, AccountsOf(g), History(ch));
  }
}
