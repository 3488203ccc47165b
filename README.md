# Banking system core: login lockout, registration and the repositories

This project models the authentication core of the banking API `BankingSystem.API`,
together with the four repositories it sits on.

- **The login state machine of `AuthService.LoginAsync`.**
  - A user is looked up by name, ignoring case.
  - A lock still in force is refused.
  - A deactivated account is refused.
  - A wrong password counts one more failure. The fifth consecutive failure sets a
    30-minute lock.
  - The right password clears the count and the lock, and records the login time.
- **Registration (`RegisterAsync`).**
  - The name and the e-mail address must both be free, ignoring case.
  - The new user is inserted.
  - A customer profile is inserted when the role is "Customer" and the request gives
    first name, last name, date of birth, passport number and phone number.
- **The existence checks (`UserExistsAsync`, `EmailExistsAsync`).**
- **The users, accounts, transactions and customers tables.** Their SELECT, INSERT
  and UPDATE statements are modelled over `map<int, Row>` tables with a serial id.
- **The entity predicates** of `User`, `Account`, `Transaction` and `Customer`.

## How the model is built

- **Rows and tables.**
  - Entities are datatypes (`user.dfy`, `account.dfy`, `transaction.dfy`,
    `customer.dfy`).
  - Each repository is a class whose `rows` and `nextId` fields its methods update in
    place.
  - The class invariant `Keyed` says every key lies in `[1, nextId)` and every row
    carries its own key as its id.
  - Each UPDATE or INSERT is first a function on the table value (`WithFailureCounted`,
    `WithLock`, `InsertedRow`, ...). The method's `ensures` ties the new table to that
    function of the old one.
- **Login.** `Auth.LoginTransition` is the login as a function from the users table
  to an answer and a new table. It takes the steps in the order the code takes them.
  `Auth.AuthService.Login` applies it to the repository object and proves it matches.
  `Lockout.Replay` feeds it a sequence of attempts, one call after another, so
  properties about whole runs of attempts are lemmas about that replay.
- **Registration.** Registration is modelled the same way, by
  `Auth.RegisterTransition` and `Auth.AuthService.Register`.
- **SQL behaviour.**
  - `LOWER(x) = LOWER(y)` is `Text.SameIgnoringCase`.
  - `ORDER BY ... DESC` is an insertion sort that puts the newest rows first.
  - A single-row `SELECT` without `ORDER BY` returns the matching row with the lowest
    id.
  - `LIMIT n OFFSET m` is `Tables.Window`.
  - The offset `(page - 1) * pageSize` is computed in C#'s wrapping 32-bit
    arithmetic. A negative LIMIT or OFFSET is a database error.
- **Parameters.**
  - Time is a parameter `now`, in whole seconds.
  - BCrypt's `Verify` is a parameter `verify`, and BCrypt's hash is a parameter of
    `Register`.

## Lockout behaviour in detail

- **The fifth failure.** It answers with the "locked for 30 minutes" message
  (`AuthService.cs:84`), modelled as `LockedOut(30)`. `AccountLocked` is given only
  to later attempts while the lock holds (`AuthService.cs:49-56`).
- **The counter after a lock ends.** The counter is reset only by a successful login,
  not when a lock ends. So after the lock ends, one wrong password locks the account
  again (`Lockout.ExpiredLockRelocksOnNextFailure`).

## Model

| member | source | states |
|---|---|---|
| Auth.AuthService.Login | BankingSystem.API/Services/AuthService.cs:32-124 | The answer and the new users table are those of `LoginTransition` on the old table; no row is added (`nextId` unchanged) and the table invariant is kept |
| Auth.LoginUnknownUser | BankingSystem.API/Services/AuthService.cs:37-46 | A name no user has, in any case, gets "invalid credentials" and writes nothing |
| Auth.LoginWhileLocked | BankingSystem.API/Services/AuthService.cs:49-56 | While `lockedUntil` is in the future the answer is `AccountLocked(until)` and nothing is checked or written, even for the right password |
| Auth.LoginInactive | BankingSystem.API/Services/AuthService.cs:59-66 | An unlocked, deactivated account is refused and nothing is written |
| Auth.LoginWrongPassword | BankingSystem.API/Services/AuthService.cs:69-92 | A wrong password raises that user's count by exactly one and changes nothing else; at 5 or more it also sets a lock 30 minutes from now and answers `LockedOut(30)`, otherwise it answers how many attempts are left (1 to 4) and sets no lock; other users are untouched |
| Auth.LoginCorrectPassword | BankingSystem.API/Services/AuthService.cs:95-113 | The right password on an active, unlocked account succeeds; the count becomes 0, the lock is cleared, the last login is now, nothing else changes; the token carries the user's claims and the returned user has a blank hash |
| Auth.LoginSucceedsExactly | BankingSystem.API/Services/AuthService.cs:32-113 | Login succeeds if and only if the name is known and that account is unlocked, active and the password verifies; a success carries a token and a user, a failure neither |
| Auth.LoginKeepsIdentities | BankingSystem.API/Services/AuthService.cs:69-99 | Login neither adds nor removes a user, keeps the table invariant, and changes no user's name, e-mail, password hash or active flag |
| Auth.LoginKeepsUsernamesUnique | BankingSystem.API/Services/AuthService.cs:32-124 | If no two user names differ only in case before a login, the same holds after it |
| Auth.AuthService.UserExists | BankingSystem.API/Services/AuthService.cs:217-221 | True if and only if some user's name equals the given name ignoring case |
| Auth.AuthService.EmailExists | BankingSystem.API/Services/AuthService.cs:223-227 | True if and only if some user's e-mail equals the given address ignoring case |
| Auth.AuthService.Register | BankingSystem.API/Services/AuthService.cs:126-215 | The answer and the new users and customers tables are those of `RegisterTransition` on the old ones; both table invariants are kept |
| Auth.RegisterDuplicateUsername | BankingSystem.API/Services/AuthService.cs:131-138 | A name some user has, in any case, is refused with "username taken" and nothing is written |
| Auth.RegisterDuplicateEmail | BankingSystem.API/Services/AuthService.cs:141-148 | With a free name, an e-mail some user has, in any case, is refused with "e-mail taken" and nothing is written |
| Auth.RegisterSucceedsExactly | BankingSystem.API/Services/AuthService.cs:131-204 | Registration succeeds if and only if both the name and the e-mail are free ignoring case; a refusal leaves both tables as they were and carries no token or user |
| Auth.RegisterCreatesUser | BankingSystem.API/Services/AuthService.cs:151-165 | A success adds exactly one user under the next id, with the request's name, e-mail, full name and role, the given hash, active, no failures, no lock, created now; earlier rows are unchanged; the token's user id is the new id |
| Auth.RegisterCreatesCustomer | BankingSystem.API/Services/AuthService.cs:168-189 | A success adds a customer, under the next customer id, if and only if the role is "Customer" and first name, last name, date of birth, passport number and phone number are all given; that customer holds the request's e-mail, names, passport, phone and date of birth and is active; existing customers are untouched |
| Auth.RegisterKeepsUsernamesUnique | BankingSystem.API/Services/AuthService.cs:131-165 | If no two user names differ only in case before a registration, the same holds after it |
| Auth.RegisterThenLogin | BankingSystem.API/Services/AuthService.cs:32-215 | Right after a successful registration, a login under the same name in any case with a password the stored hash verifies succeeds, and its token names the new user |
| Lockout.FiveWrongPasswordsCountDown | BankingSystem.API/Services/AuthService.cs:69-92 | Five wrong passwords in a row on a fresh, active account answer 4, 3, 2 and 1 attempts left, then `LockedOut(30)` |
| Lockout.FiveWrongPasswordsLock | BankingSystem.API/Services/AuthService.cs:69-86 | After those five the row differs from the original only in a count of 5 and a lock ending 30 minutes after the fifth attempt |
| Lockout.WrongPasswordAnswers | BankingSystem.API/Services/AuthService.cs:69-92 | In a run of wrong passwords on an active account, unlocked at each attempt and not going past 5 failures, from count c, the i-th answer is a failure reporting count c + i + 1 (attempts left, or the lock at 5) |
| Lockout.WrongPasswordStreak | BankingSystem.API/Services/AuthService.cs:69-86 | Such a run of n wrong passwords adds n to the count and changes nothing else in the table; the lock is untouched unless the run reaches 5, and then ends 30 minutes after the last attempt |
| Lockout.LockHoldsThenExpires | BankingSystem.API/Services/AuthService.cs:49-56 | Before a lock ends every attempt is refused with `AccountLocked` and changes nothing; once it has ended the right password succeeds and clears the count and the lock |
| Lockout.ExpiredLockRelocksOnNextFailure | BankingSystem.API/Services/AuthService.cs:69-86 | Once a lock has ended with the count still at 5 or more, a single wrong password locks the account again for 30 minutes |
| Lockout.LockoutScenario | BankingSystem.API/Services/AuthService.cs:32-124 | Five wrong passwords lock the account; the right password during the lock is refused and changes nothing; the right password after it succeeds with the count back to zero |
| Lockout.RunAt | BankingSystem.API/Services/AuthService.cs:32-124 | The i-th answer of a run of calls is the answer of one call on the table the earlier calls left |
| UserRepo.UserRepository.GetById | BankingSystem.API/Repositories/UserRepository.cs:16-36 | Some exactly when a row has that id, and then that row |
| UserRepo.UserRepository.GetByUsername | BankingSystem.API/Repositories/UserRepository.cs:38-58 | Some if and only if some row's name equals the given one ignoring case; the row returned is a stored row whose name does |
| UserRepo.UserRepository.GetByEmail | BankingSystem.API/Repositories/UserRepository.cs:60-80 | Some if and only if some row's e-mail equals the given one ignoring case; the row returned is a stored row whose e-mail does |
| UserRepo.InsertedRow | BankingSystem.API/Repositories/UserRepository.cs:82-102 | The inserted row has the new id, the object's name, hash, e-mail, full name, role and active flag, created now, with no last login, no failures and no lock |
| UserRepo.UserRepository.Create | BankingSystem.API/Repositories/UserRepository.cs:82-102 | The table gains exactly the inserted row under the fresh id `nextId`, which was unused; the object comes back with that id |
| UserRepo.WithProfile | BankingSystem.API/Repositories/UserRepository.cs:104-124 | Only the row with the object's id changes, and it takes the object's e-mail, full name, role and active flag, keeping everything else |
| UserRepo.UserRepository.Update | BankingSystem.API/Repositories/UserRepository.cs:104-124 | The new table is `WithProfile` of the old one |
| UserRepo.WithLastLogin | BankingSystem.API/Repositories/UserRepository.cs:126-140 | Only that user's last-login time changes, to the time given |
| UserRepo.UserRepository.UpdateLastLogin | BankingSystem.API/Repositories/UserRepository.cs:126-140 | The new table is `WithLastLogin` of the old one at the current time |
| UserRepo.WithFailureCounted | BankingSystem.API/Repositories/UserRepository.cs:142-155 | Only that user's failure count changes, by exactly one |
| UserRepo.UserRepository.IncrementFailedLoginAttempts | BankingSystem.API/Repositories/UserRepository.cs:142-155 | The new table is `WithFailureCounted` of the old one |
| UserRepo.WithFailuresReset | BankingSystem.API/Repositories/UserRepository.cs:157-171 | Only that user's count and lock change, to 0 and none |
| UserRepo.UserRepository.ResetFailedLoginAttempts | BankingSystem.API/Repositories/UserRepository.cs:157-171 | The new table is `WithFailuresReset` of the old one |
| UserRepo.WithLock | BankingSystem.API/Repositories/UserRepository.cs:173-187 | Only that user's lock changes, to the time given; the count stays |
| UserRepo.UserRepository.LockUser | BankingSystem.API/Repositories/UserRepository.cs:173-187 | The new table is `WithLock` of the old one |
| UserRepo.UpdatesOfMissingUser | BankingSystem.API/Repositories/UserRepository.cs:104-187 | An UPDATE whose user id matches no row leaves the table as it was |
| UserRepo.FindByUsernameIgnoresOtherColumns | BankingSystem.API/Repositories/UserRepository.cs:38-58 | The lookup by name gives the same row in two tables with the same ids and names |
| UserRepo.ProfileUpdateKeepsUsernames | BankingSystem.API/Repositories/UserRepository.cs:104-124 | The profile UPDATE does not change which row a name resolves to |
| UserRepo.LoginUpdatesKeepUsernames | BankingSystem.API/Repositories/UserRepository.cs:126-187 | None of the four UPDATEs a login makes changes which row a name resolves to |
| AccountRepo.AccountRepository.GetById | BankingSystem.API/Repositories/AccountRepository.cs:16-36 | Some exactly when a row has that id, and then that row |
| AccountRepo.AccountRepository.GetByAccountNumber | BankingSystem.API/Repositories/AccountRepository.cs:38-58 | Some if and only if some account has exactly that number; the result is such a stored account |
| AccountRepo.AccountRepository.GetByCustomerId | BankingSystem.API/Repositories/AccountRepository.cs:60-83 | Exactly the customer's accounts, each once, with the latest opening date first |
| AccountRepo.InsertedRow | BankingSystem.API/Repositories/AccountRepository.cs:85-106 | The inserted row is the object under the new id, with no close date and no last-transaction date |
| AccountRepo.AccountRepository.Create | BankingSystem.API/Repositories/AccountRepository.cs:85-106 | The table gains exactly the inserted row under the fresh id; the object comes back with that id |
| AccountRepo.WithState | BankingSystem.API/Repositories/AccountRepository.cs:108-130 | Only the row with the object's id changes: balance, status, interest rate, close date and last-transaction date are taken from the object, the rest is kept |
| AccountRepo.AccountRepository.Update | BankingSystem.API/Repositories/AccountRepository.cs:108-130 | The new table is `WithState` of the old one |
| AccountRepo.AccountRepository.GetBalance | BankingSystem.API/Repositories/AccountRepository.cs:132-142 | The stored balance of that account, or 0 when no account has that id |
| TransactionRepo.TransactionRepository.GetById | BankingSystem.API/Repositories/TransactionRepository.cs:16-36 | Some exactly when a row has that id, and then that row |
| TransactionRepo.TransactionRepository.GetByReferenceNumber | BankingSystem.API/Repositories/TransactionRepository.cs:38-58 | Some if and only if some transaction carries exactly that reference; the result is such a stored transaction |
| TransactionRepo.TransactionRepository.History | BankingSystem.API/Repositories/TransactionRepository.cs:67-72 | Exactly the account's transactions, each once, newest first (ties in ascending id order) |
| TransactionRepo.Page | BankingSystem.API/Repositories/TransactionRepository.cs:73-77 | Fails exactly when the page size or the 32-bit offset is negative; otherwise at most `pageSize` rows, the rows from the offset on in order, a full page whenever enough rows remain, and otherwise every remaining row (none past the end) |
| TransactionRepo.TransactionRepository.GetByAccountId | BankingSystem.API/Repositories/TransactionRepository.cs:60-86 | The requested page of the account's history: only that account's transactions, newest first |
| TransactionRepo.PageOffsetInRange | BankingSystem.API/Repositories/TransactionRepository.cs:76 | For page 1 or later the offset is `(page - 1) * pageSize` while that fits in 32 bits; page 0 with a positive size gives a negative offset |
| TransactionRepo.NextPageOffset | BankingSystem.API/Repositories/TransactionRepository.cs:76 | Each page starts `pageSize` rows after the one before it, while no offset overflows |
| TransactionRepo.PagesTile | BankingSystem.API/Repositories/TransactionRepository.cs:73-77 | Two consecutive pages laid end to end are one window twice as long: nothing skipped, nothing repeated |
| TransactionRepo.TransactionRepository.OnlyOrder | BankingSystem.API/Repositories/TransactionRepository.cs:71-72 | When no two of the account's transactions share a date, any order the database may return for `ORDER BY transactiondate DESC` (newest first, the same rows) is the model's `History` |
| Tables.NewestFirstUnique | BankingSystem.API/Repositories/TransactionRepository.cs:72 | Two newest-first orderings of the same rows are equal when no two rows share a date |
| Tables.TieHasTwoOrders | BankingSystem.API/Repositories/TransactionRepository.cs:72 | Two different rows with the same date are newest first in either order, so ties leave the order open |
| Tables.SelectNewestFirst | BankingSystem.API/Repositories/TransactionRepository.cs:70-72 | Exactly the rows satisfying the WHERE clause, newest first, the same rows as the unsorted selection, and each stored row once when different keys hold different rows |
| TransactionRepo.TransactionRepository.ConsecutivePages | BankingSystem.API/Repositories/TransactionRepository.cs:60-86 | When no two of the account's transactions share a date: two requests for consecutive pages, each free to order ties as the database likes, give one window twice as long, so nothing is skipped or repeated; each page equals `GetByAccountId`'s |
| TransactionRepo.TransactionRepository.GetByDateRange | BankingSystem.API/Repositories/TransactionRepository.cs:88-112 | Exactly the transactions dated within the range, both ends included, each once, newest first; empty when the start is after the end |
| TransactionRepo.TransactionRepository.Create | BankingSystem.API/Repositories/TransactionRepository.cs:114-140 | The table gains exactly the object under the fresh id; every earlier row stays as it was |
| CustomerRepo.CustomerRepository.GetById | BankingSystem.API/Repositories/CustomerRepository.cs:16-37 | Some exactly when a row has that id, and then that row |
| CustomerRepo.CustomerRepository.GetByEmail | BankingSystem.API/Repositories/CustomerRepository.cs:39-60 | Some if and only if some customer's e-mail equals the given one ignoring case; the result is such a stored customer |
| CustomerRepo.CustomerRepository.GetByPassportNumber | BankingSystem.API/Repositories/CustomerRepository.cs:62-83 | Some if and only if some customer has exactly that passport number; the result is such a stored customer |
| CustomerRepo.CustomerRepository.GetAll | BankingSystem.API/Repositories/CustomerRepository.cs:85-107 | Exactly the active customers, each once, with the newest creation date first |
| CustomerRepo.InsertedRow | BankingSystem.API/Repositories/CustomerRepository.cs:109-139 | The inserted row is the object under the new id, created and updated now |
| CustomerRepo.CustomerRepository.Create | BankingSystem.API/Repositories/CustomerRepository.cs:109-139 | The table gains exactly the inserted row under the fresh id; the object comes back with that id |
| CustomerRepo.WithProfile | BankingSystem.API/Repositories/CustomerRepository.cs:141-173 | Only the row with the object's id changes: its profile columns and active flag are taken from the object and it is stamped updated now; id and creation date are kept |
| CustomerRepo.CustomerRepository.Update | BankingSystem.API/Repositories/CustomerRepository.cs:141-173 | The new table is `WithProfile` of the old one at the current time |
| CustomerRepo.CustomerRepository.EmailExists | BankingSystem.API/Repositories/CustomerRepository.cs:175-189 | True if and only if some customer's e-mail equals the given one ignoring case, which is when `GetByEmail` finds one |
| CustomerRepo.CustomerRepository.PassportExists | BankingSystem.API/Repositories/CustomerRepository.cs:191-205 | True if and only if some customer has exactly that passport number, which is when `GetByPassportNumber` finds one |
| UserModel.LockWindow | BankingSystem.API/Models/User.cs:17 | Locked exactly while a lock time is set and still in the future; a lock ending now no longer holds |
| UserModel.AdminIsRole | BankingSystem.API/Models/User.cs:18 | Admin exactly when the role is "Admin" |
| UserModel.NewUserDefaults | BankingSystem.API/Models/User.cs:5-15 | A new user is an active, unlocked "Customer" with no failures |
| AccountModel.DebitNeedsActivePositive | BankingSystem.API/Models/Account.cs:17-18 | An account can be debited exactly when it is "Active" with a positive balance; frozen, closed or empty accounts cannot |
| AccountModel.NewAccountDefaults | BankingSystem.API/Models/Account.cs:10-18 | A new account is active, in TJS, and cannot be debited (zero balance) |
| TransactionModel.StatusAndType | BankingSystem.API/Models/Transaction.cs:7-19 | Pending, failed and cancelled transactions are not completed; a transaction is a transfer exactly when its type is "Transfer" |
| TransactionModel.NewTransactionDefaults | BankingSystem.API/Models/Transaction.cs:9-19 | A new transaction is completed, in TJS, and not a transfer |
| CustomerModel.NewCustomerDefaults | BankingSystem.API/Models/Customer.cs:15 | A new customer's country is "Tajikistan" |
| CustomerModel.FullName | BankingSystem.API/Models/Customer.cs:20 | The first name, one space, then the last name |
| CustomerModel.AgeIsCompletedYears | BankingSystem.API/Models/Customer.cs:22-31 | The age is the difference of the years, less one while this year's birthday is still to come |
| CustomerModel.AgeOnBirthday | BankingSystem.API/Models/Customer.cs:22-31 | On the birthday itself the age is the plain difference of the years |
| CustomerModel.AgeNonNegative | BankingSystem.API/Models/Customer.cs:22-31 | Nobody born on or before today has a negative age |
| Text.LowerIdempotent | BankingSystem.API/Repositories/UserRepository.cs:47 | Lower-casing twice is lower-casing once, so a lowered string matches its original |
| Text.SameIgnoringCaseIsEquivalence | BankingSystem.API/Repositories/UserRepository.cs:47 | Equality ignoring case is reflexive, symmetric and transitive, and preserves length |
| Tables.SortNewestFirst | BankingSystem.API/Repositories/TransactionRepository.cs:72 | The result is ordered newest first and is a permutation of the input |
| Tables.WindowsTile | BankingSystem.API/Repositories/TransactionRepository.cs:73 | Two adjacent windows of the same size, laid end to end, are one window twice as long |
| Calendar.AddYears | BankingSystem.API/Models/Customer.cs:28 | Same month and day n years on, except that 29 February becomes the 28th in a common year; a valid date stays valid |

## Left out

- **JWT.** The token is modelled as its claims (user id, name, e-mail, role, full
  name). The signing key, the issuer, the audience and the expiry are left out
  (`GenerateJwtToken`, `AuthService.cs:229-260`).
- **BCrypt.** BCrypt's hashing and checking are parameters. The model does not say
  what they compute.
- **The exception handlers.** The `catch` blocks of `LoginAsync` and `RegisterAsync`
  turn a database failure into an error answer. Database failures are not modelled.
  In particular, a registration whose customer insert fails after the user insert
  has succeeded is left out.
- **Concurrency.**
  - Every call runs alone. Two concurrent logins cannot interleave their failure
    updates.
  - `Auth.AuthService.Login`: the code also raises the in-memory copy of the failure
    count (`user.FailedLoginAttempts++`) and compares that copy against the limit.
    The model compares the stored count plus one against the limit. That equals the
    in-memory copy when no other call interleaves.
- **The failure counter.** It is an unbounded `nat`; the 32-bit overflow of the
  column is not modelled.
- **The clock.** One `now` is passed per call. The code reads `DateTime.UtcNow`
  several times within a call, and the model does not capture the seconds between
  those readings.
- **Time values.** `DateTime` and `TimeSpan` are whole seconds. `decimal` amounts
  are `real`.
- **`LOWER`.** It is modelled for ASCII and Cyrillic capitals only; other scripts and
  locale rules are not folded.
- **SQL semantics.**
  - A single-row `SELECT` with no `ORDER BY` is modelled as returning the matching row
    with the lowest id. The database may return any matching row.
  - Under `ORDER BY ... DESC`, the database fixes no order among rows with equal
    dates, and two queries may order them differently. The model keeps such rows in
    ascending id order. The single-query contracts promise only what holds for every
    order: the rows, each once, newest first (`Tables.TieHasTwoOrders` shows that ties
    leave the order open). `GetByAccountId`'s equality with `Page(History(...))` rests
    on the model's ascending-id choice.
- TransactionRepo.TransactionRepository.ConsecutivePages: promised only when no two of
  the account's transactions share a date. With a tie, two page requests may order the
  tied rows differently, so a row can appear on both pages or on neither.
- **The users-table INSERT.** For the columns the INSERT does not list
  (`lastlogindate`, `failedloginattempts`, `lockeduntil`), the model assumes the
  table's defaults: NULL, 0 and NULL. The schema is not part of this model.
- **One transaction column.** `createdby` is carried on the object and not interpreted.
- **Paging.** Page numbers below 1 are not rejected by the code. They are modelled as
  they are computed: a wrapping 32-bit offset, which the database refuses when it is
  negative.
- **Other parts of the repository.** These are not part of this model:
  - `TransactionService` and the stored procedures for deposits, withdrawals and
    transfers;
  - the services above the repositories other than `AuthService`;
  - the controllers, `Program.cs` and the request DTOs' validation attributes.
- **Driver plumbing.** The `Map*` reader functions and the `Npgsql` connection
  handling are left out. The columns are read directly from the row value.
