/** The accounts table (AccountRepository). Balances are read and written here
    but never computed: deposits, withdrawals and transfers are done elsewhere. */
module AccountRepo {
  import opened Wrappers
  import opened Calendar
  import opened AccountModel
  import Tables

  /** The table invariant: serial ids in [1, nextId), each row stored under its own id. */
  ghost predicate Keyed(rows: map<int, Account>, nextId: int)
  {
    1 <= nextId && forall k :: k in rows ==> 1 <= k < nextId && rows[k].accountId == k
  }

  /** The row `INSERT INTO accounts (customerid, accountnumber, accounttype, balance,
      currency, interestrate, status, opendate)` stores: closedate and
      lasttransactiondate are not inserted and stay NULL. */
  function InsertedRow(a: Account, id: int): (r: Account)
    ensures r.accountId == id && r.closeDate.None? && r.lastTransactionDate.None?
    ensures r.(accountId := a.accountId, closeDate := a.closeDate, lastTransactionDate := a.lastTransactionDate) == a
  {
    a.(accountId := id, closeDate := None, lastTransactionDate := None)
  }

  /** `UPDATE accounts SET balance, status, interestrate, closedate,
      lasttransactiondate WHERE accountid = @AccountId`: the owner, the account
      number, the type, the currency and the opening date never change. */
  function WithState(rows: map<int, Account>, a: Account): (r: map<int, Account>)
    ensures r.Keys == rows.Keys
    ensures forall k :: k in rows && k != a.accountId ==> r[k] == rows[k]
    ensures a.accountId in rows ==>
      var (before, after) := (rows[a.accountId], r[a.accountId]);
      && after.balance == a.balance && after.status == a.status && after.interestRate == a.interestRate
      && after.closeDate == a.closeDate && after.lastTransactionDate == a.lastTransactionDate
      && after.accountId == before.accountId && after.customerId == before.customerId
      && after.accountNumber == before.accountNumber && after.accountType == before.accountType
      && after.currency == before.currency && after.openDate == before.openDate
  {
    var id := a.accountId;
    if id in rows then
      rows[id := rows[id].(balance := a.balance, status := a.status, interestRate := a.interestRate,
                           closeDate := a.closeDate, lastTransactionDate := a.lastTransactionDate)]
    else rows
  }

  /** The accounts table. */
  class AccountRepository {
    var rows: map<int, Account>
    var nextId: int

    ghost predicate Valid()
      reads this
    {
      Keyed(rows, nextId)
    }

    constructor ()
      ensures Valid() && rows == map[] && nextId == 1
    {
      rows := map[];
      nextId := 1;
    }

    /** `GetByIdAsync`: the account with that id, or none. */
    function GetById(id: int): (r: Option<Account>)
      reads this
      requires Valid()
      ensures r.Some? <==> id in rows
      ensures r.Some? ==> r.value == rows[id] && r.value.accountId == id
    {
      if id in rows then Some(rows[id]) else None
    }

    /** `GetByAccountNumberAsync`: an account with exactly that number (no case folding). */
    function GetByAccountNumber(accountNumber: string): (r: Option<Account>)
      reads this
      requires Valid()
      ensures r.Some? <==> exists k :: k in rows && rows[k].accountNumber == accountNumber
      ensures r.Some? ==> r.value in rows.Values && r.value.accountNumber == accountNumber
    {
      match Tables.FirstKey(rows, (a: Account) => a.accountNumber == accountNumber, nextId)
      case None => None
      case Some(k) => Some(rows[k])
    }

    /** `GetByCustomerIdAsync`: exactly the customer's accounts, each once, newest
        `opendate` first. */
    function GetByCustomerId(customerId: int): (r: seq<Account>)
      reads this
      requires Valid()
      ensures forall a :: a in r ==> a in rows.Values && a.customerId == customerId
      ensures forall k :: k in rows && rows[k].customerId == customerId ==> rows[k] in r
      ensures Tables.NewestFirst(r, (a: Account) => a.openDate)
      ensures Tables.Distinct(r)
    {
      assert Tables.Injective(rows);
      Tables.SelectNewestFirst(rows, (a: Account) => a.customerId == customerId, nextId, (a: Account) => a.openDate)
    }

    /** `GetBalanceAsync`: the stored balance, or 0 for an unknown account. */
    function GetBalance(accountId: int): (b: real)
      reads this
      requires Valid()
      ensures accountId in rows ==> b == rows[accountId].balance
      ensures accountId !in rows ==> b == 0.0
    {
      match GetById(accountId)
      case Some(a) => a.balance
      case None => 0.0
    }

    /** `CreateAsync`: one new row under a fresh id; the caller's object comes back
        carrying that id. */
    method Create(a: Account) returns (created: Account)
      requires Valid()
      modifies this
      ensures Valid()
      ensures old(nextId) !in old(rows) && created == a.(accountId := old(nextId))
      ensures rows == old(rows)[old(nextId) := InsertedRow(a, old(nextId))]
      ensures nextId == old(nextId) + 1
    {
      var id := nextId;
      rows := rows[id := InsertedRow(a, id)];
      nextId := nextId + 1;
      created := a.(accountId := id);
    }

    /** `UpdateAsync`. */
    method Update(a: Account)
      requires Valid()
      modifies this
      ensures Valid() && nextId == old(nextId)
      ensures rows == WithState(old(rows), a)
    {
      rows := WithState(rows, a);
    }
  }
}
