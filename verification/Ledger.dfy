/** The account ledger: checked transfers, supply accounting and nonce history. */
module Ledger {
  import opened Prelude
  import opened Protocol

  datatype Account = Account(balance: u64, nonce: u64)

  type Accounts = map<Str, Account>

  type LedgerResult = Result<Accounts, ProtocolError>

  // ---------------------------------------------------------------- one transfer

  /** `State::apply_self_transfer`: amount leaves and returns, the fee is burned. */
  function ApplySelf(s: Accounts, tx: Transaction): (r: LedgerResult)
  {
    match CheckedAdd(tx.amount, tx.fee)
    case None => Err(StateError(AmountFeeOverflow))
    case Some(cost) =>
      if tx.sender !in s then Err(StateError(SenderMissing))
      else
        var a := s[tx.sender];
        if a.nonce != tx.nonce then Err(InvalidNonce)
        else if a.balance < cost then Err(InsufficientBalance)
        else if a.nonce == U64_MAX then Err(StateError(NonceOverflow))
        else Ok(s[tx.sender := Account(a.balance - cost + tx.amount, a.nonce + 1)])
  }

  /** The part of `State::apply_transaction` that looks at the ledger. */
  function Transfer(s: Accounts, tx: Transaction): (r: LedgerResult)
  {
    if tx.sender == tx.receiver then ApplySelf(s, tx)
    else
      match CheckedAdd(tx.amount, tx.fee)
      case None => Err(StateError(AmountFeeOverflow))
      case Some(cost) =>
        if tx.sender !in s then Err(StateError(SenderMissing))
        else
          var a := s[tx.sender];
          var b := AccountOr(s, tx.receiver);
          if a.nonce != tx.nonce then Err(InvalidNonce)
          else if a.balance < cost then Err(InsufficientBalance)
          else if a.nonce == U64_MAX then Err(StateError(NonceOverflow))
          else if CheckedAdd(b.balance, tx.amount).None? then Err(StateError(ReceiverOverflow))
          else Ok(s[tx.sender := Account(a.balance - cost, a.nonce + 1)]
                   [tx.receiver := Account(b.balance + tx.amount, b.nonce)])
  }

  /** `State::apply_transaction` as a function from ledger to ledger. */
  function ApplyTx(rules: Rules, s: Accounts, tx: Transaction): (r: LedgerResult)
  {
    match rules.checkTx(tx)
    case Fail(e) => Err(e)
    case Pass => Transfer(s, tx)
  }

  /** A missing account behaves as one with nothing in it. */
  function AccountOr(s: Accounts, a: Str): (r: Account)
  {
    if a in s then s[a] else Account(0, 0)
  }

  /** What the ledger demands of a transfer, free of the order in which it is checked. */
  predicate Accepts(rules: Rules, s: Accounts, tx: Transaction)
  {
    && rules.checkTx(tx).Pass?
    && tx.sender in s
    && s[tx.sender].nonce == tx.nonce < U64_MAX
    && tx.amount + tx.fee <= s[tx.sender].balance
    && (tx.sender != tx.receiver ==> AccountOr(s, tx.receiver).balance + tx.amount <= U64_MAX)
  }

  /** Money moved by `tx` into (positive) or out of (negative) account `a`. */
  function Flow(tx: Transaction, a: Str): (r: int)
  {
    (if a == tx.receiver then tx.amount else 0) - (if a == tx.sender then tx.amount + tx.fee else 0)
  }

  /** A transfer goes through exactly when accepted, and then touches only its two parties. */
  lemma TransferMeaning(rules: Rules, s: Accounts, tx: Transaction)
    ensures ApplyTx(rules, s, tx).Ok? <==> Accepts(rules, s, tx)
    ensures ApplyTx(rules, s, tx).Ok? ==>
      var s' := ApplyTx(rules, s, tx).value;
      && s'.Keys == s.Keys + {tx.receiver}
      && forall a :: a in s' ==>
           && s'[a].balance == AccountOr(s, a).balance + Flow(tx, a)
           && s'[a].nonce == AccountOr(s, a).nonce + (if a == tx.sender then 1 else 0)
  {
  }

  /** Why a transfer fails: the first of these that holds names the error. */
  lemma TransferRefusals(rules: Rules, s: Accounts, tx: Transaction)
    ensures var r := ApplyTx(rules, s, tx);
            var a := AccountOr(s, tx.sender);
            if rules.checkTx(tx).Fail? then r == Err(rules.checkTx(tx).error)
            else if tx.amount + tx.fee > U64_MAX then r == Err(StateError(AmountFeeOverflow))
            else if tx.sender !in s then r == Err(StateError(SenderMissing))
            else if tx.nonce != a.nonce then r == Err(InvalidNonce)
            else if tx.amount + tx.fee > a.balance then r == Err(InsufficientBalance)
            else if tx.nonce == U64_MAX then r == Err(StateError(NonceOverflow))
            else if r.Err? then
              && r == Err(StateError(ReceiverOverflow))
              && tx.sender != tx.receiver && AccountOr(s, tx.receiver).balance + tx.amount > U64_MAX
            else Accepts(rules, s, tx)
  {
  }

  // ---------------------------------------------------------------- supply

  /** Sum of all balances. */
  ghost function Total(s: Accounts): (r: nat)
    decreases |s|
  {
    if s == map[] then 0
    else
      var k :| k in s;
      s[k].balance + Total(s - {k})
  }

  lemma {:induction false} TotalRemove(s: Accounts, k: Str)
    requires k in s
    ensures Total(s) == s[k].balance + Total(s - {k})
    decreases |s|
  {
    var j :| j in s && Total(s) == s[j].balance + Total(s - {j});
    if j != k {
      TotalRemove(s - {j}, k);
      TotalRemove(s - {k}, j);
      assert s - {j} - {k} == s - {k} - {j};
    }
  }

  lemma TotalUpdate(s: Accounts, k: Str, a: Account)
    ensures Total(s[k := a]) == Total(s) - AccountOr(s, k).balance + a.balance
  {
    var t := s[k := a];
    TotalRemove(t, k);
    assert t - {k} == s - {k};
    if k in s {
      TotalRemove(s, k);
    } else {
      assert s - {k} == s;
    }
  }

  lemma TotalOfTwo(s: Accounts, j: Str, k: Str)
    requires j in s && k in s && j != k
    ensures s[j].balance + s[k].balance <= Total(s)
  {
    TotalRemove(s, j);
    TotalRemove(s - {j}, k);
  }

  /** Every transfer destroys exactly its fee. */
  lemma TransferBurnsFee(rules: Rules, s: Accounts, tx: Transaction)
    requires ApplyTx(rules, s, tx).Ok?
    ensures Total(ApplyTx(rules, s, tx).value) == Total(s) - tx.fee
  {
    var s' := ApplyTx(rules, s, tx).value;
    if tx.sender == tx.receiver {
      TotalUpdate(s, tx.sender, s'[tx.sender]);
    } else {
      var mid := s[tx.sender := s'[tx.sender]];
      TotalUpdate(s, tx.sender, s'[tx.sender]);
      TotalUpdate(mid, tx.receiver, s'[tx.receiver]);
    }
  }

  /** A ledger whose total fits 64 bits never overflows a receiver. */
  lemma NoReceiverOverflow(s: Accounts, tx: Transaction)
    requires Total(s) <= U64_MAX
    ensures Transfer(s, tx) != Err(StateError(ReceiverOverflow))
  {
    if tx.sender in s && tx.receiver in s && tx.sender != tx.receiver {
      TotalOfTwo(s, tx.sender, tx.receiver);
    }
  }

  // ---------------------------------------------------------------- runs of transfers

  function ApplyAll(rules: Rules, s: Accounts, txs: seq<Transaction>): (r: LedgerResult)
    decreases |txs|
  {
    if txs == [] then Ok(s)
    else
      match ApplyTx(rules, s, txs[0])
      case Err(e) => Err(e)
      case Ok(s1) => ApplyAll(rules, s1, txs[1..])
  }

  lemma {:induction false} ApplyAllAppend(rules: Rules, s: Accounts, a: seq<Transaction>, b: seq<Transaction>)
    ensures ApplyAll(rules, s, a).Err? ==> ApplyAll(rules, s, a + b) == ApplyAll(rules, s, a)
    ensures ApplyAll(rules, s, a).Ok? ==> ApplyAll(rules, s, a + b) == ApplyAll(rules, ApplyAll(rules, s, a).value, b)
    decreases |a|
  {
    if a == [] {
      assert a + b == b;
    } else {
      assert (a + b)[1..] == a[1..] + b;
      if ApplyTx(rules, s, a[0]).Ok? {
        ApplyAllAppend(rules, ApplyTx(rules, s, a[0]).value, a[1..], b);
      }
    }
  }

  lemma ApplyAllSnoc(rules: Rules, s: Accounts, a: seq<Transaction>, tx: Transaction)
    requires ApplyAll(rules, s, a).Ok?
    ensures ApplyAll(rules, s, a + [tx]) == ApplyTx(rules, ApplyAll(rules, s, a).value, tx)
  {
    ApplyAllAppend(rules, s, a, [tx]);
    var s1 := ApplyAll(rules, s, a).value;
    if ApplyTx(rules, s1, tx).Ok? {
      assert ApplyAll(rules, ApplyTx(rules, s1, tx).value, [tx][1..]) == ApplyTx(rules, s1, tx);
    }
  }

  function Fees(txs: seq<Transaction>): (r: nat)
  {
    if txs == [] then 0 else txs[0].fee + Fees(txs[1..])
  }

  function Sent(txs: seq<Transaction>, a: Str): (r: nat)
  {
    if txs == [] then 0 else (if txs[0].sender == a then 1 else 0) + Sent(txs[1..], a)
  }

  lemma {:induction false} SentAppend(x: seq<Transaction>, y: seq<Transaction>, a: Str)
    ensures Sent(x + y, a) == Sent(x, a) + Sent(y, a)
  {
    if x == [] {
      assert x + y == y;
    } else {
      assert (x + y)[1..] == x[1..] + y;
      SentAppend(x[1..], y, a);
    }
  }

  /** The total after any run of transfers is the total before it less all fees. */
  lemma {:induction false} RunBurnsFees(rules: Rules, s: Accounts, txs: seq<Transaction>)
    requires ApplyAll(rules, s, txs).Ok?
    ensures Total(ApplyAll(rules, s, txs).value) == Total(s) - Fees(txs)
    decreases |txs|
  {
    if txs != [] {
      TransferBurnsFee(rules, s, txs[0]);
      RunBurnsFees(rules, ApplyTx(rules, s, txs[0]).value, txs[1..]);
    }
  }

  /** A nonce counts the transfers its account has sent. */
  lemma {:induction false} NonceCountsSends(rules: Rules, s: Accounts, txs: seq<Transaction>, a: Str)
    requires ApplyAll(rules, s, txs).Ok?
    ensures AccountOr(ApplyAll(rules, s, txs).value, a).nonce == AccountOr(s, a).nonce + Sent(txs, a)
    decreases |txs|
  {
    if txs != [] {
      TransferMeaning(rules, s, txs[0]);
      NonceCountsSends(rules, ApplyTx(rules, s, txs[0]).value, txs[1..], a);
    }
  }

  /** Each transfer of a run carries the nonce its sender has reached by then. */
  lemma NonceAtPosition(rules: Rules, s: Accounts, txs: seq<Transaction>, i: nat)
    requires ApplyAll(rules, s, txs).Ok?
    requires i < |txs|
    ensures txs[i].nonce == AccountOr(s, txs[i].sender).nonce + Sent(txs[..i], txs[i].sender)
  {
    assert txs == txs[..i] + txs[i..];
    ApplyAllAppend(rules, s, txs[..i], txs[i..]);
    NonceCountsSends(rules, s, txs[..i], txs[i].sender);
    TransferMeaning(rules, ApplyAll(rules, s, txs[..i]).value, txs[i]);
  }

  lemma {:induction false} SentMonotone(txs: seq<Transaction>, i: nat, j: nat, a: Str)
    requires i <= j <= |txs|
    ensures Sent(txs[..i], a) <= Sent(txs[..j], a)
  {
    assert txs[..j] == txs[..i] + txs[i..j];
    SentAppend(txs[..i], txs[i..j], a);
  }

  /** No sender spends one nonce twice in a run. */
  lemma NoNonceReuse(rules: Rules, s: Accounts, txs: seq<Transaction>, i: nat, j: nat)
    requires ApplyAll(rules, s, txs).Ok?
    requires i < j < |txs| && txs[i].sender == txs[j].sender
    ensures txs[i].nonce < txs[j].nonce
  {
    NonceAtPosition(rules, s, txs, i);
    NonceAtPosition(rules, s, txs, j);
    var a := txs[i].sender;
    SentMonotone(txs, i + 1, j, a);
    assert txs[..i + 1] == txs[..i] + [txs[i]];
    SentAppend(txs[..i], [txs[i]], a);
  }

  /** The transfers before position `i` apply and the one at `i` fails with `e`. */
  ghost predicate BreaksAt(rules: Rules, s: Accounts, txs: seq<Transaction>, i: nat, e: ProtocolError)
  {
    && i < |txs| && ApplyAll(rules, s, txs[..i]).Ok?
    && ApplyTx(rules, ApplyAll(rules, s, txs[..i]).value, txs[i]) == Err(e)
  }

  lemma {:induction false} RunBreaks(rules: Rules, s: Accounts, txs: seq<Transaction>) returns (i: nat)
    requires ApplyAll(rules, s, txs).Err?
    ensures BreaksAt(rules, s, txs, i, ApplyAll(rules, s, txs).error)
    decreases |txs|
  {
    i := 0;
    if ApplyTx(rules, s, txs[0]).Ok? {
      var j := RunBreaks(rules, ApplyTx(rules, s, txs[0]).value, txs[1..]);
      assert txs[..j + 1][0] == txs[0] && txs[..j + 1][1..] == txs[1..][..j];
      i := j + 1;
    }
  }

  /** A list of transfers fails exactly where the first of them fails, with its error. */
  lemma RunBreaksExact(rules: Rules, s: Accounts, txs: seq<Transaction>, e: ProtocolError)
    ensures ApplyAll(rules, s, txs) == Err(e) <==> exists i: nat :: BreaksAt(rules, s, txs, i, e)
  {
    if ApplyAll(rules, s, txs) == Err(e) { var i := RunBreaks(rules, s, txs); }
    forall i: nat | BreaksAt(rules, s, txs, i, e) ensures ApplyAll(rules, s, txs) == Err(e) {
      ApplyAllSnoc(rules, s, txs[..i], txs[i]);
      assert txs == (txs[..i] + [txs[i]]) + txs[i + 1..];
      ApplyAllAppend(rules, s, txs[..i] + [txs[i]], txs[i + 1..]);
    }
  }

  // ---------------------------------------------------------------- genesis ledger

  function AccountsOf(g: Genesis): (r: Accounts)
  {
    if g == [] then map[]
    else AccountsOf(g[..|g| - 1])[g[|g| - 1].address := Account(g[|g| - 1].balance, 0)]
  }

  /** `State::from_genesis` */
  function GenesisLedger(g: Genesis): (r: LedgerResult)
  {
    if ValidateGenesis(g).Fail? then Err(ValidateGenesis(g).error) else Ok(AccountsOf(g))
  }

  lemma {:induction false} GenesisNonces(g: Genesis, a: Str)
    ensures AccountOr(AccountsOf(g), a).nonce == 0
    ensures a in AccountsOf(g) ==> exists i :: 0 <= i < |g| && g[i].address == a
  {
    if g != [] {
      GenesisNonces(g[..|g| - 1], a);
      if a in AccountsOf(g) && a != g[|g| - 1].address {
        var i :| 0 <= i < |g| - 1 && g[..|g| - 1][i].address == a;
        assert g[i].address == a;
      }
    }
  }

  /** Each allocation stands in the ledger under its own address, and nothing else does. */
  lemma {:induction false} GenesisBalances(g: Genesis)
    requires Distinct(Addresses(g))
    ensures forall i :: 0 <= i < |g| ==>
      g[i].address in AccountsOf(g) && AccountsOf(g)[g[i].address] == Account(g[i].balance, 0)
    ensures AccountsOf(g).Keys == Members(Addresses(g))
  {
    if g != [] {
      var front, last := g[..|g| - 1], g[|g| - 1];
      assert Addresses(front) == Addresses(g)[..|g| - 1];
      GenesisBalances(front);
      assert Addresses(g) == Addresses(front) + [last.address];
      forall i | 0 <= i < |g|
        ensures g[i].address in AccountsOf(g) && AccountsOf(g)[g[i].address] == Account(g[i].balance, 0)
      {
        if i < |front| {
          assert front[i] == g[i];
          assert Addresses(g)[i] != Addresses(g)[|g| - 1];
        }
      }
    }
  }

  function Allocated(g: Genesis): (r: nat)
  {
    if g == [] then 0 else Allocated(g[..|g| - 1]) + g[|g| - 1].balance
  }

  /** The genesis ledger holds exactly what the document allocates. */
  lemma {:induction false} GenesisTotal(g: Genesis)
    requires Distinct(Addresses(g))
    ensures Total(AccountsOf(g)) == Allocated(g)
  {
    if g != [] {
      var front, last := g[..|g| - 1], g[|g| - 1];
      assert Addresses(front) == Addresses(g)[..|g| - 1];
      GenesisTotal(front);
      GenesisNonces(front, last.address);
      forall i | 0 <= i < |front| ensures front[i].address != last.address {
        assert Addresses(g)[i] != Addresses(g)[|g| - 1];
      }
      TotalUpdate(AccountsOf(front), last.address, Account(last.balance, 0));
    }
  }

  // ---------------------------------------------------------------- the mutable ledger

  class State {
    var accounts: Accounts

    constructor (initial: Accounts)
      ensures accounts == initial
    {
      accounts := initial;
    }

    /** Checks everything before it writes anything. */
    method ApplyTransaction(rules: Rules, tx: Transaction) returns (r: Outcome)
      modifies this
      ensures match ApplyTx(rules, old(accounts), tx)
              case Ok(s) => r == Pass && accounts == s
              case Err(e) => r == Fail(e) && accounts == old(accounts)
    {
      var valid := rules.checkTx(tx);
      if valid.Fail? {
        return valid;
      }
      if tx.sender == tx.receiver {
        r := ApplySelfTransfer(tx);
        return;
      }
      var cost := CheckedAdd(tx.amount, tx.fee);
      if cost.None? {
        return Fail(StateError(AmountFeeOverflow));
      }
      if tx.sender !in accounts {
        return Fail(StateError(SenderMissing));
      }
      var sender := accounts[tx.sender];
      if sender.nonce != tx.nonce {
        return Fail(InvalidNonce);
      }
      if sender.balance < cost.value {
        return Fail(InsufficientBalance);
      }
      var nonce := CheckedAdd(sender.nonce, 1);
      if nonce.None? {
        return Fail(StateError(NonceOverflow));
      }
      var credited := Some(tx.amount);
      if tx.receiver in accounts {
        credited := CheckedAdd(accounts[tx.receiver].balance, tx.amount);
      }
      if credited.None? {
        return Fail(StateError(ReceiverOverflow));
      }
      accounts := accounts[tx.sender := Account(sender.balance - cost.value, nonce.value)];
      if tx.receiver !in accounts {
        accounts := accounts[tx.receiver := Account(0, 0)];
      }
      accounts := accounts[tx.receiver := accounts[tx.receiver].(balance := credited.value)];
      r := Pass;
    }

    method ApplySelfTransfer(tx: Transaction) returns (r: Outcome)
      modifies this
      ensures match ApplySelf(old(accounts), tx)
              case Ok(s) => r == Pass && accounts == s
              case Err(e) => r == Fail(e) && accounts == old(accounts)
    {
      var cost := CheckedAdd(tx.amount, tx.fee);
      if cost.None? {
        return Fail(StateError(AmountFeeOverflow));
      }
      if tx.sender !in accounts {
        return Fail(StateError(SenderMissing));
      }
      var account := accounts[tx.sender];
      if account.nonce != tx.nonce {
        return Fail(InvalidNonce);
      }
      if account.balance < cost.value {
        return Fail(InsufficientBalance);
      }
      var nonce := CheckedAdd(account.nonce, 1);
      if nonce.None? {
        return Fail(StateError(NonceOverflow));
      }
      accounts := accounts[tx.sender := Account(account.balance - cost.value + tx.amount, nonce.value)];
      r := Pass;
    }

    /** Applies a list of transfers, stopping at the first that fails. */
    method ApplyTransactions(rules: Rules, txs: seq<Transaction>) returns (r: Outcome)
      modifies this
      ensures match ApplyAll(rules, old(accounts), txs)
              case Ok(s) => r == Pass && accounts == s
              case Err(e) => r == Fail(e)
    {
      for i := 0 to |txs|
        invariant ApplyAll(rules, old(accounts), txs[..i]) == Ok(accounts)
      {
        ApplyAllSnoc(rules, old(accounts), txs[..i], txs[i]);
        assert txs[..i] + [txs[i]] == txs[..i + 1];
        r := ApplyTransaction(rules, txs[i]);
        if r.Fail? {
          ApplyAllAppend(rules, old(accounts), txs[..i + 1], txs[i + 1..]);
          assert txs == txs[..i + 1] + txs[i + 1..];
          return;
        }
      }
      assert txs[..|txs|] == txs;
      r := Pass;
    }
  }

  /**
   `State::total_balance_sum`: a checked fold in whatever order the accounts come out. The order
   never matters: the fold succeeds exactly when the total fits 64 bits.
   */
  method TotalBalanceSum(s: Accounts) returns (r: Result<u64, ProtocolError>)
    ensures r.Ok? <==> Total(s) <= U64_MAX
    ensures r.Ok? ==> r.value == Total(s)
    ensures r.Err? ==> r.error == StateError(TotalOverflow)
  {
    var rest := s;
    var sum: u64 := 0;
    while rest != map[]
      invariant sum + Total(rest) == Total(s)
      decreases |rest|
    {
      var k :| k in rest;
      TotalRemove(rest, k);
      var next := CheckedAdd(sum, rest[k].balance);
      if next.None? {
        return Err(StateError(TotalOverflow));
      }
      sum := next.value;
      rest := rest - {k};
    }
    r := Ok(sum);
  }
}
