/** A row of the transactions table. */
module TransactionModel {
  import opened Wrappers
  import opened Calendar

  datatype Transaction = Transaction(
    transactionId: int,
    accountId: int,
    transactionType: string,   // Deposit, Withdrawal, Transfer
    amount: real,
    currency: string,
    transactionDate: Instant,
    description: Option<string>,
    status: string,            // Pending, Completed, Failed, Cancelled
    toAccountId: Option<int>,
    referenceNumber: Option<string>,
    balanceAfter: Option<real>,
    createdBy: Option<string>)

  /** `new Transaction()`: the property initialisers of the class. */
  function NewTransaction(): Transaction
  {
    Transaction(0, 0, "", 0.0, "TJS", 0, None, "Completed", None, None, None, None)
  }

  predicate IsCompleted(t: Transaction)
  {
    t.status == "Completed"
  }

  predicate IsTransfer(t: Transaction)
  {
    t.transactionType == "Transfer"
  }

  /** Of the four statuses only Completed counts as completed, and only the type
      Transfer makes a transfer. */
  lemma StatusAndType(t: Transaction)
    ensures t.status in {"Pending", "Failed", "Cancelled"} ==> !IsCompleted(t)
    ensures t.transactionType in {"Deposit", "Withdrawal"} ==> !IsTransfer(t)
    ensures IsTransfer(t) <==> t.transactionType == "Transfer"
  {
  }

  /** A new transaction is a completed one, in somoni. */
  lemma NewTransactionDefaults()
    ensures IsCompleted(NewTransaction()) && NewTransaction().currency == "TJS"
    ensures !IsTransfer(NewTransaction())
  {
  }
}
