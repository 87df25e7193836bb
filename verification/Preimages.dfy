/**
 What hashes and signatures commit to: the bar-separated texts that are hashed determine the fields
 they are made of, for every valid transaction and every block of a reachable chain.
 */
module Preimages {
  import opened Prelude
  import opened Protocol
  import opened Chain

  // ---------------------------------------------------------------- bars

  predicate NoBar(s: Str)
  {
    BAR !in s
  }

  lemma SplitFirst(a: Bytes, x: Bytes, b: Bytes, y: Bytes)
    requires NoBar(a) && NoBar(b) && a + ([BAR] + x) == b + ([BAR] + y)
    ensures a == b && x == y
  {
    var s, t := a + ([BAR] + x), b + ([BAR] + y);
    assert s[|a|] == BAR && t[|b|] == BAR;
    assert forall i :: 0 <= i < |a| ==> s[i] == a[i] != BAR;
    assert forall i :: 0 <= i < |b| ==> t[i] == b[i] != BAR;
    assert |a| == |b|;
    SameSplit(a, [BAR] + x, b, [BAR] + y);
    SameSplit([BAR], x, [BAR], y);
  }

  lemma SameSplit(a: Bytes, x: Bytes, b: Bytes, y: Bytes)
    requires |a| == |b| && a + x == b + y
    ensures a == b && x == y
  {
    assert a == (a + x)[..|a|] && b == (b + y)[..|b|];
    assert x == (a + x)[|a|..] && y == (b + y)[|b|..];
  }

  lemma SplitLast(a: Bytes, x: Bytes, b: Bytes, y: Bytes)
    requires NoBar(x) && NoBar(y) && a + [BAR] + x == b + [BAR] + y
    ensures a == b && x == y
  {
    var s, t := a + [BAR] + x, b + [BAR] + y;
    assert s[|a|] == BAR && t[|b|] == BAR;
    assert forall i :: |a| < i < |s| ==> s[i] == x[i - |a| - 1] != BAR;
    assert forall i :: |b| < i < |t| ==> t[i] == y[i - |b| - 1] != BAR;
    assert |a| == |b|;
    SameSplit(a + [BAR], x, b + [BAR], y);
    SameSplit(a, [BAR], b, [BAR]);
  }

  // ---------------------------------------------------------------- numbers

  lemma {:induction false} DecimalNoBar(n: nat)
    ensures NoBar(Decimal(n)) && Decimal(n) != []
  {
    if n >= 10 { DecimalNoBar(n / 10); }
  }

  lemma {:induction false} DecimalInjective(m: nat, n: nat)
    requires Decimal(m) == Decimal(n)
    ensures m == n
    decreases m
  {
    DecimalLast(m);
    DecimalLast(n);
    if m >= 10 && n >= 10 { DecimalInjective(m / 10, n / 10); }
  }

  /** The last digit, and whether there are others. */
  lemma DecimalLast(n: nat)
    ensures Decimal(n) != [] && Decimal(n)[|Decimal(n)| - 1] == 0x30 + n % 10
    ensures |Decimal(n)| == 1 <==> n < 10
    ensures n >= 10 ==> Decimal(n)[..|Decimal(n)| - 1] == Decimal(n / 10)
  {
    if n >= 10 { DecimalNoBar(n / 10); }
  }

  /** A last field that is a number. */
  lemma SplitNumber(a: Bytes, m: nat, b: Bytes, n: nat)
    requires a + [BAR] + Decimal(m) == b + [BAR] + Decimal(n)
    ensures a == b && m == n
  {
    DecimalNoBar(m);
    DecimalNoBar(n);
    SplitLast(a, Decimal(m), b, Decimal(n));
    DecimalInjective(m, n);
  }

  predicate NoCollisionOf(c: Crypto, a: Bytes, b: Bytes)
  {
    c.hash(a) == c.hash(b) ==> a == b
  }

  // ---------------------------------------------------------------- transactions

  /** Everything a transfer says, without its proof. */
  datatype Order = Order(sender: Str, receiver: Str, amount: u64, fee: u64, nonce: u64, timestamp: u64)

  function OrderOf(tx: Transaction): (r: Order)
  {
    Order(tx.sender, tx.receiver, tx.amount, tx.fee, tx.nonce, tx.timestamp)
  }

  /** The text that is signed determines the transfer, given where the sender ends. */
  lemma PayloadBinds(x: Transaction, y: Transaction)
    requires |x.sender| == |y.sender| || (NoBar(x.sender) && NoBar(y.sender))
    requires UnsignedPayload(x) == UnsignedPayload(y)
    ensures OrderOf(x) == OrderOf(y)
  {
    var px, py := x.sender + [BAR] + x.receiver, y.sender + [BAR] + y.receiver;
    PayloadNumbers(x, y, px, py);
    ConcatAssoc(x.sender, [BAR], x.receiver);
    ConcatAssoc(y.sender, [BAR], y.receiver);
    if |x.sender| == |y.sender| {
      SameSplit(x.sender, [BAR] + x.receiver, y.sender, [BAR] + y.receiver);
      SameSplit([BAR], x.receiver, [BAR], y.receiver);
    } else {
      SplitFirst(x.sender, x.receiver, y.sender, y.receiver);
    }
  }

  lemma PayloadNumbers(x: Transaction, y: Transaction, px: Bytes, py: Bytes)
    requires px == x.sender + [BAR] + x.receiver && py == y.sender + [BAR] + y.receiver
    requires UnsignedPayload(x) == UnsignedPayload(y)
    ensures px == py && x.amount == y.amount && x.fee == y.fee && x.nonce == y.nonce && x.timestamp == y.timestamp
  {
    var ax, ay := px + [BAR] + Decimal(x.amount), py + [BAR] + Decimal(y.amount);
    var fx, fy := ax + [BAR] + Decimal(x.fee), ay + [BAR] + Decimal(y.fee);
    var nx, ny := fx + [BAR] + Decimal(x.nonce), fy + [BAR] + Decimal(y.nonce);
    SplitNumber(nx, x.timestamp, ny, y.timestamp);
    SplitNumber(fx, x.nonce, fy, y.nonce);
    SplitNumber(ax, x.fee, ay, y.fee);
    SplitNumber(px, x.amount, py, y.amount);
  }

  /** A bar inside a sender makes two transfers share one text. */
  lemma PayloadAmbiguous() returns (x: Transaction, y: Transaction)
    ensures UnsignedPayload(x) == UnsignedPayload(y) && OrderOf(x) != OrderOf(y)
  {
    x := Transaction([0x61], [0x62, BAR, 0x63], 1, 0, 0, 0, [], [], []);
    y := Transaction([0x61, BAR, 0x62], [0x63], 1, 0, 0, 0, [], [], []);
    assert x.sender + [BAR] + x.receiver == y.sender + [BAR] + y.receiver;
    assert x.sender != y.sender;
  }

  /** What the node's rules demand of a transaction; a hash is never blank and its sender never too long. */
  lemma BasicValidateExact(c: Crypto, tx: Transaction)
    ensures BasicValidate(c, tx).Pass? <==>
      && ValidAddress(tx.receiver) && tx.publicKey != [] && tx.signature != []
      && Authentic(c, tx)
  {
    DigestNotBlank(c, UnsignedPayload(tx));
    DigestNotBlank(c, tx.publicKey);
    assert IsHexDigest(c.hash(tx.publicKey));
  }

  /**
   Valid transactions with one hash are one transfer, unless two texts collide under the digest: a
   valid sender is a digest, so the text cannot be read in two ways.
   */
  lemma TxHashBinds(c: Crypto, x: Transaction, y: Transaction)
    requires BasicValidate(c, x).Pass? && BasicValidate(c, y).Pass? && x.txHash == y.txHash
    requires NoCollisionOf(c, UnsignedPayload(x), UnsignedPayload(y))
    ensures OrderOf(x) == OrderOf(y)
  {
    assert IsHexDigest(c.hash(x.publicKey)) && IsHexDigest(c.hash(y.publicKey));
    PayloadBinds(x, y);
  }

  // ---------------------------------------------------------------- headers

  predicate Plain(parts: seq<Str>)
  {
    forall i :: 0 <= i < |parts| ==> parts[i] != [] && NoBar(parts[i])
  }

  lemma JoinedCons(parts: seq<Str>)
    requires |parts| > 1
    ensures Joined(parts) == parts[0] + ([BAR] + Joined(parts[1..]))
  {
    ConcatAssoc(parts[0], [BAR], Joined(parts[1..]));
  }

  lemma JoinedStart(parts: seq<Str>)
    requires |parts| != 1
    ensures parts == [] || BAR in Joined(parts)
  {
    if |parts| > 1 {
      JoinedCons(parts);
      assert Joined(parts)[|parts[0]|] == BAR;
    }
  }

  /** A list of plain texts can be read back from its joined form. */
  lemma {:induction false} JoinedInjective(x: seq<Str>, y: seq<Str>)
    requires Plain(x) && Plain(y) && Joined(x) == Joined(y)
    ensures x == y
    decreases |x|
  {
    JoinedEmpty(x);
    JoinedEmpty(y);
    if |x| == 1 || |y| == 1 {
      if |x| != 1 { JoinedStart(x); }
      if |y| != 1 { JoinedStart(y); }
    } else if x != [] && y != [] {
      JoinedCons(x);
      JoinedCons(y);
      SplitFirst(x[0], Joined(x[1..]), y[0], Joined(y[1..]));
      JoinedInjective(x[1..], y[1..]);
      assert x == [x[0]] + x[1..] && y == [y[0]] + y[1..];
    }
  }

  lemma JoinedEmpty(parts: seq<Str>)
    requires Plain(parts)
    ensures Joined(parts) == [] <==> parts == []
  {
    if |parts| > 1 { JoinedCons(parts); }
  }

  /** The text that is hashed into a block hash determines the header. */
  lemma HeaderBinds(x: Header, y: Header)
    requires NoBar(x.previousHash) && NoBar(y.previousHash) && Plain(x.txHashes) && Plain(y.txHashes)
    requires HeaderPreimage(x) == HeaderPreimage(y)
    ensures x == y
  {
    var jx, jy := Joined(x.txHashes), Joined(y.txHashes);
    HeaderFields(x);
    HeaderFields(y);
    DecimalNoBar(x.height);
    DecimalNoBar(y.height);
    DecimalNoBar(x.timestamp);
    DecimalNoBar(y.timestamp);
    var tx, ty := Decimal(x.timestamp) + ([BAR] + jx), Decimal(y.timestamp) + ([BAR] + jy);
    SplitFirst(Decimal(x.height), x.previousHash + ([BAR] + tx), Decimal(y.height), y.previousHash + ([BAR] + ty));
    SplitFirst(x.previousHash, tx, y.previousHash, ty);
    SplitFirst(Decimal(x.timestamp), jx, Decimal(y.timestamp), jy);
    DecimalInjective(x.height, y.height);
    DecimalInjective(x.timestamp, y.timestamp);
    JoinedInjective(x.txHashes, y.txHashes);
  }

  lemma HeaderFields(h: Header)
    ensures HeaderPreimage(h) ==
      Decimal(h.height) + ([BAR] + (h.previousHash + ([BAR] + (Decimal(h.timestamp) + ([BAR] + Joined(h.txHashes))))))
  {
  }

  // ---------------------------------------------------------------- chains

  lemma DigestPlain(c: Crypto, m: Bytes)
    ensures c.hash(m) != [] && NoBar(c.hash(m))
  {
    assert IsHexDigest(c.hash(m));
  }

  lemma GenesisHashPlain()
    ensures NoBar(GENESIS_HASH) && NoBar(GENESIS_PARENT)
  {
  }

  lemma ChainHeadersPlain(c: Crypto, p: ConsensusParams, g: Genesis, ch: ChainValue, i: nat)
    requires Canonical(StandardRules(c), p, g, ch) && i < |ch.blocks|
    ensures NoBar(ch.blocks[i].previousHash) && Plain(Hashes(ch.blocks[i].transactions))
  {
    GenesisHashPlain();
    CanonicalLinked(StandardRules(c), p, g, ch);
    if i > 0 {
      CanonicalSealed(StandardRules(c), p, g, ch);
      assert SealedAt(StandardRules(c), ch.blocks, i);
      if i > 1 {
        assert SealedAt(StandardRules(c), ch.blocks, i - 1);
        DigestPlain(c, HeaderPreimage(HeaderOf(ch.blocks[i - 1])));
      }
      CanonicalValidated(StandardRules(c), p, g, ch, i);
      ValidHashesPlain(c, ch.blocks[i]);
    }
  }

  lemma ValidHashesPlain(c: Crypto, b: Block)
    requires b.height > 0 && ValidateBlock(StandardRules(c), b).Pass?
    ensures Plain(Hashes(b.transactions))
  {
    CheckedHashesPlain(c, StandardRules(c).checkTx, b.transactions);
  }

  lemma CheckedHashesPlain(c: Crypto, check: Transaction -> Outcome, txs: seq<Transaction>)
    requires forall tx :: check(tx).Pass? ==> tx.txHash == c.hash(UnsignedPayload(tx))
    requires forall i :: 0 <= i < |txs| ==> check(txs[i]).Pass?
    ensures Plain(Hashes(txs))
  {
    forall i | 0 <= i < |txs| ensures txs[i].txHash != [] && NoBar(txs[i].txHash) {
      assert check(txs[i]).Pass?;
      DigestPlain(c, UnsignedPayload(txs[i]));
    }
  }

  /** Over the headers of two chains, height by height, the digest itself does not collide. */
  ghost predicate NoDigestCollision(c: Crypto, x: seq<Block>, y: seq<Block>)
  {
    forall i :: 0 <= i < |x| && i < |y| ==>
      NoCollisionOf(c, HeaderPreimage(HeaderOf(x[i])), HeaderPreimage(HeaderOf(y[i])))
  }

  /**
   For the node as built: where SHA-256 itself does not collide, a block hash fixes the headers of the
   whole chain below it. The text that is hashed adds no collision of its own.
   */
  lemma DigestFixesHistory(c: Crypto, p: ConsensusParams, g: Genesis, x: ChainValue, y: ChainValue, n: nat)
    requires Canonical(StandardRules(c), p, g, x) && Canonical(StandardRules(c), p, g, y)
    requires NoDigestCollision(c, x.blocks, y.blocks)
    requires n < |x.blocks| && n < |y.blocks| && x.blocks[n].blockHash == y.blocks[n].blockHash
    ensures forall i :: 0 <= i <= n ==> HeaderOf(x.blocks[i]) == HeaderOf(y.blocks[i])
  {
    forall i | 0 <= i < |x.blocks| && i < |y.blocks| &&
               HeaderPreimage(HeaderOf(x.blocks[i])) == HeaderPreimage(HeaderOf(y.blocks[i]))
      ensures HeaderOf(x.blocks[i]) == HeaderOf(y.blocks[i])
    {
      ChainHeadersPlain(c, p, g, x, i);
      ChainHeadersPlain(c, p, g, y, i);
      HeaderBinds(HeaderOf(x.blocks[i]), HeaderOf(y.blocks[i]));
    }
    HashFixesHistory(StandardRules(c), p, g, x, y, n);
  }
}
