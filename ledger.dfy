/**
 * The `Ledger` of `wallet/balance.rs`: a map from account to balance, with
 * the balance check and the two in-place inserts of `apply_transaction`.
 */
module Balances {
  import opened Outcomes
  import opened Transactions

  datatype TransactionError = InsufficientFunds

  type Accounts = map<string, real>

  /** `get_balance`: the stored value, or 0 for an account never written. */
  function BalanceOf(m: Accounts, account: string): real {
    if account in m then m[account] else 0.0
  }

  /** The check of `apply_transaction`: it fails exactly when `balance < amount`. */
  predicate Covers(m: Accounts, tx: Transaction) {
    !(BalanceOf(m, tx.sender) < tx.amount)
  }

  /**
   * The two inserts of a successful `apply_transaction`, in source order: the
   * sender is debited first and the recipient's balance is read afterwards.
   */
  function Settle(m: Accounts, tx: Transaction): (m': Accounts)
    ensures m'.Keys == m.Keys + {tx.sender, tx.recipient}
    ensures tx.sender != tx.recipient ==>
              BalanceOf(m', tx.sender) == BalanceOf(m, tx.sender) - tx.amount &&
              BalanceOf(m', tx.recipient) == BalanceOf(m, tx.recipient) + tx.amount
    ensures tx.sender == tx.recipient ==> BalanceOf(m', tx.sender) == BalanceOf(m, tx.sender)
    ensures forall a :: a != tx.sender && a != tx.recipient ==> BalanceOf(m', a) == BalanceOf(m, a)
  {
    var debited := m[tx.sender := BalanceOf(m, tx.sender) - tx.amount];
    debited[tx.recipient := BalanceOf(debited, tx.recipient) + tx.amount]
  }

  /** The sum of all balances. */
  ghost function Total(m: Accounts): real
    decreases |m|
  {
    if m == map[] then 0.0
    else
      var k :| k in m;
      m[k] + Total(m - {k})
  }

  /** The sum splits off any one account, whichever `Total` happened to pick. */
  lemma {:induction false} TotalWithout(m: Accounts, k: string)
    requires k in m
    ensures Total(m) == m[k] + Total(m - {k})
    decreases |m|
  {
    var j :| j in m && Total(m) == m[j] + Total(m - {j});
    if j != k {
      assert (m - {j}).Keys == m.Keys - {j};
      assert (m - {k}).Keys == m.Keys - {k};
      TotalWithout(m - {j}, k);
      TotalWithout(m - {k}, j);
      assert m - {j} - {k} == m - {k} - {j};
    }
  }

  /** Overwriting one account changes the sum by the difference of its balances. */
  lemma TotalAfterInsert(m: Accounts, k: string, v: real)
    ensures Total(m[k := v]) == Total(m) - BalanceOf(m, k) + v
  {
    TotalWithout(m[k := v], k);
    if k in m {
      TotalWithout(m, k);
      assert m[k := v] - {k} == m - {k};
    } else {
      assert m[k := v] - {k} == m;
    }
  }

  /** Conservation: a settled transfer leaves the sum of all balances unchanged. */
  lemma SettleConserves(m: Accounts, tx: Transaction)
    ensures Total(Settle(m, tx)) == Total(m)
  {
    var debited := m[tx.sender := BalanceOf(m, tx.sender) - tx.amount];
    TotalAfterInsert(m, tx.sender, BalanceOf(m, tx.sender) - tx.amount);
    TotalAfterInsert(debited, tx.recipient, BalanceOf(debited, tx.recipient) + tx.amount);
  }

  /** What `apply_block` leaves behind: the balances and its return value. */
  datatype Replay = Replay(accounts: Accounts, outcome: Result<(), TransactionError>)

  /**
   * `apply_transaction` folded over a batch in order, stopping at the first
   * transaction the balances do not cover; the earlier ones stay applied.
   */
  function ReplayAll(m: Accounts, txs: seq<Transaction>): Replay
    decreases |txs|
  {
    if txs == [] then Replay(m, Ok(()))
    else if !Covers(m, txs[0]) then Replay(m, Err(InsufficientFunds))
    else ReplayAll(Settle(m, txs[0]), txs[1..])
  }

  /** `Settle` folded over a batch, with no balance check. */
  function SettleAll(m: Accounts, txs: seq<Transaction>): Accounts
    decreases |txs|
  {
    if txs == [] then m else SettleAll(Settle(m, txs[0]), txs[1..])
  }

  /** Settling the first k + 1 is settling the head, then the next k. */
  lemma SettleAllPrefix(m: Accounts, txs: seq<Transaction>, k: nat)
    requires k < |txs|
    ensures SettleAll(m, txs[..k + 1]) == SettleAll(Settle(m, txs[0]), txs[1..][..k])
  {
    assert txs[..k + 1][1..] == txs[1..][..k];
  }

  /** Each of the first k transactions is covered by the balances it meets. */
  predicate CoveredUpTo(m: Accounts, txs: seq<Transaction>, k: nat)
    requires k <= |txs|
  {
    forall j :: 0 <= j < k ==> Covers(SettleAll(m, txs[..j]), txs[j])
  }

  /** Coverage of the tail after a covered head is coverage of the whole batch, one further. */
  lemma ShiftCovered(m: Accounts, txs: seq<Transaction>, k: nat)
    requires k < |txs| && Covers(m, txs[0])
    requires CoveredUpTo(Settle(m, txs[0]), txs[1..], k)
    ensures CoveredUpTo(m, txs, k + 1)
  {
    forall j | 0 <= j < k + 1
      ensures Covers(SettleAll(m, txs[..j]), txs[j])
    {
      if j == 0 {
        assert txs[..0] == [];
      } else {
        SettleAllPrefix(m, txs, j - 1);
        assert txs[j] == txs[1..][j - 1];
      }
    }
  }

  /**
   * A replay either covers and applies every transaction, or stops at the
   * first one not covered, at some position k: the first k transactions are
   * covered and applied, the k-th is not covered.
   */
  lemma {:induction false} ReplayShape(m: Accounts, txs: seq<Transaction>)
    ensures ReplayAll(m, txs).outcome.Ok? ==>
              ReplayAll(m, txs).accounts == SettleAll(m, txs) && CoveredUpTo(m, txs, |txs|)
    ensures ReplayAll(m, txs).outcome.Err? ==>
              exists k :: 0 <= k < |txs| &&
                ReplayAll(m, txs).accounts == SettleAll(m, txs[..k]) &&
                CoveredUpTo(m, txs, k) && !Covers(SettleAll(m, txs[..k]), txs[k])
    ensures ReplayAll(m, txs).outcome.Ok? <==> CoveredUpTo(m, txs, |txs|)
    decreases |txs|
  {
    if txs == [] {
    } else if !Covers(m, txs[0]) {
      assert txs[..0] == [];
    } else {
      var rest := txs[1..];
      var m1 := Settle(m, txs[0]);
      ReplayShape(m1, rest);
      if ReplayAll(m1, rest).outcome.Err? {
        var k :| 0 <= k < |rest| && ReplayAll(m1, rest).accounts == SettleAll(m1, rest[..k]) &&
                 CoveredUpTo(m1, rest, k) && !Covers(SettleAll(m1, rest[..k]), rest[k]);
        SettleAllPrefix(m, txs, k);
        ShiftCovered(m, txs, k);
        assert txs[k + 1] == rest[k];
      } else {
        ShiftCovered(m, txs, |rest|);
        assert txs[..|txs|] == txs;
      }
    }
  }

  /** Conservation survives a replay, including one that stops part way. */
  lemma {:induction false} ReplayConserves(m: Accounts, txs: seq<Transaction>)
    ensures Total(ReplayAll(m, txs).accounts) == Total(m)
    decreases |txs|
  {
    if txs != [] && Covers(m, txs[0]) {
      SettleConserves(m, txs[0]);
      ReplayConserves(Settle(m, txs[0]), txs[1..]);
    }
  }

  /** `Ledger`: the `balances` map, updated in place. */
  class Ledger {
    var balances: Accounts

    /** `Ledger::new`: no account has been written, so every account reads 0. */
    constructor ()
      ensures balances == map[]
      ensures forall a :: GetBalance(a) == 0.0
    {
      balances := map[];
    }

    /** `get_balance`: a read that changes nothing. */
    function GetBalance(address: string): (b: real)
      reads this
      ensures address in balances ==> b == balances[address]
      ensures address !in balances ==> b == 0.0
    {
      BalanceOf(balances, address)
    }

    /** `set_balance`: an unconditional overwrite of one account. */
    method SetBalance(address: string, amount: real)
      modifies this
      ensures balances == old(balances)[address := amount]
      ensures GetBalance(address) == amount
      ensures forall a :: a != address ==> GetBalance(a) == old(GetBalance(a))
    {
      balances := balances[address := amount];
    }

    /**
     * `apply_transaction`: fails, changing nothing, exactly when the sender's
     * balance is below the amount; otherwise debits the sender, then credits
     * the recipient.
     */
    method ApplyTransaction(tx: Transaction) returns (r: Result<(), TransactionError>)
      modifies this
      ensures r.Err? <==> old(GetBalance(tx.sender)) < tx.amount
      ensures r.Err? ==> r.error == InsufficientFunds && balances == old(balances)
      ensures r.Ok? ==> balances == Settle(old(balances), tx)
      ensures Total(balances) == Total(old(balances))
    {
      var senderBalance := GetBalance(tx.sender);
      if senderBalance < tx.amount {
        return Err(InsufficientFunds);
      }
      SettleConserves(balances, tx);
      balances := balances[tx.sender := senderBalance - tx.amount];
      var recipientBalance := GetBalance(tx.recipient);
      balances := balances[tx.recipient := recipientBalance + tx.amount];
      r := Ok(());
    }
  }
}
