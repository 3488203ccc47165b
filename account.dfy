/** A row of the accounts table. */
module AccountModel {
  import opened Wrappers
  import opened Calendar

  /** Monetary amounts are exact decimals; the model uses `real`. */
  datatype Account = Account(
    accountId: int,
    customerId: int,
    accountNumber: string,
    accountType: string,   // Checking, Savings, Credit
    balance: real,
    currency: string,
    interestRate: real,
    status: string,        // Active, Frozen, Closed
    openDate: Instant,
    closeDate: Option<Instant>,
    lastTransactionDate: Option<Instant>)

  /** `new Account()`: the property initialisers of the class. */
  function NewAccount(): Account
  {
    Account(0, 0, "", "", 0.0, "TJS", 0.0, "Active", 0, None, None)
  }

  predicate IsActive(a: Account)
  {
    a.status == "Active"
  }

  /** `CanDebit`: an active account holding a positive balance. */
  predicate CanDebit(a: Account)
  {
    IsActive(a) && a.balance > 0.0
  }

  /** Only an active account with money on it can be debited: a frozen or closed
      account never, and an active one not when its balance is zero or below. */
  lemma DebitNeedsActivePositive(a: Account)
    ensures CanDebit(a) <==> a.status == "Active" && a.balance > 0.0
    ensures a.status == "Frozen" || a.status == "Closed" ==> !CanDebit(a)
    ensures a.balance <= 0.0 ==> !CanDebit(a)
  {
  }

  /** A new account is active, in somoni, and (holding nothing) cannot be debited. */
  lemma NewAccountDefaults()
    ensures IsActive(NewAccount()) && NewAccount().currency == "TJS"
    ensures !CanDebit(NewAccount())
  {
  }
}
