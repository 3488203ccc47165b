/** AuthService: login with progressive lockout, and registration. Each operation
    is stated twice: as a transition on the table values (LoginTransition,
    RegisterTransition), about which the properties are proved, and as a method of
    AuthService that performs the same repository calls in the same order and is
    proved to have exactly that effect. */
module Auth {
  import opened Wrappers
  import opened Text
  import opened Calendar
  import opened UserModel
  import opened CustomerModel
  import UserRepo
  import CustomerRepo

  const MaxFailedAttempts: nat := 5
  const LockoutMinutes: nat := 30

  /** How long a lock lasts, in the units of Instant. */
  const LockoutDuration: int := Minutes(LockoutMinutes)

  /** The messages of AuthResultDto, by meaning. */
  datatype AuthMessage =
    | InvalidCredentials                         // unknown username: wrong username or password
    | AccountLocked(until: Instant)               // locked until the given time
    | AccountDeactivated
    | LockedOut(minutes: nat)                     // this failure locked the account
    | InvalidCredentialsRemaining(attemptsLeft: int)
    | LoginSucceeded
    | UsernameTaken
    | EmailTaken
    | Registered

  /** The claims a session token carries; signing and expiry are not modelled. */
  datatype Token = Token(userId: int, username: string, email: string, role: string, fullName: string)

  /** AuthResultDto. */
  datatype AuthResult = AuthResult(success: bool, message: AuthMessage, token: Option<Token>, user: Option<User>)

  /** The claims `GenerateJwtToken` puts in the token of `u`. */
  function TokenFor(u: User): Token
  {
    Token(u.userId, u.username, u.email, u.role, u.fullName)
  }

  function Rejected(m: AuthMessage): AuthResult
  {
    AuthResult(false, m, None, None)
  }

  /** A successful result: the token of `u`, and `u` with its password hash blanked. */
  function Accepted(m: AuthMessage, u: User): AuthResult
  {
    AuthResult(true, m, Some(TokenFor(u)), Some(u.(passwordHash := "")))
  }

  /** What `LoginAsync` does to the users table and what it answers, on a table
      with content `rows` and id sequence `nextId`, at time `now`. `verify` is
      BCrypt's password check. */
  function LoginTransition(rows: map<int, User>, nextId: int, username: string, password: string,
                           verify: (string, string) -> bool, now: Instant): (AuthResult, map<int, User>)
  {
    match UserRepo.FindByUsername(rows, nextId, username)
    case None => (Rejected(InvalidCredentials), rows)
    case Some(k) =>
      var user := rows[k];
      if IsLocked(user, now) then
        (Rejected(AccountLocked(user.lockedUntil.value)), rows)
      else if !user.isActive then
        (Rejected(AccountDeactivated), rows)
      else if !verify(password, user.passwordHash) then
        var counted := UserRepo.WithFailureCounted(rows, user.userId);
        var attempts := user.failedLoginAttempts + 1;
        if attempts >= MaxFailedAttempts then
          (Rejected(LockedOut(LockoutMinutes)), UserRepo.WithLock(counted, user.userId, now + LockoutDuration))
        else
          (Rejected(InvalidCredentialsRemaining(MaxFailedAttempts - attempts)), counted)
      else
        var reset := UserRepo.WithFailuresReset(rows, user.userId);
        (Accepted(LoginSucceeded, user), UserRepo.WithLastLogin(reset, user.userId, now))
  }

  /** RegisterRequest; the optional profile fields are nullable. */
  datatype RegisterRequest = RegisterRequest(
    username: string,
    password: string,
    email: string,
    fullName: string,
    role: string,
    firstName: Option<string>,
    lastName: Option<string>,
    middleName: Option<string>,
    dateOfBirth: Option<Date>,
    phoneNumber: Option<string>,
    passportNumber: Option<string>,
    address: Option<string>,
    city: Option<string>,
    country: string)

  /** A customer profile is created only for the role "Customer" with first name,
      last name, date of birth, passport number and phone number all given. */
  predicate WantsCustomerProfile(req: RegisterRequest)
  {
    && req.role == "Customer"
    && !IsNullOrEmpty(req.firstName) && !IsNullOrEmpty(req.lastName)
    && req.dateOfBirth.Some?
    && !IsNullOrEmpty(req.passportNumber) && !IsNullOrEmpty(req.phoneNumber)
  }

  /** The User object `RegisterAsync` builds before inserting it. */
  function NewUserFor(req: RegisterRequest, passwordHash: string, now: Instant): User
  {
    NewUser().(username := req.username, passwordHash := passwordHash, email := req.email,
               fullName := req.fullName, role := req.role, isActive := true, createdDate := now)
  }

  /** The Customer object `RegisterAsync` builds for a complete profile. */
  function NewCustomerFor(req: RegisterRequest, now: Instant): Customer
    requires WantsCustomerProfile(req)
  {
    Customer(0, req.firstName.value, req.lastName.value, req.middleName, req.dateOfBirth.value,
             req.email, req.phoneNumber.value, req.passportNumber.value, req.address, req.city,
             req.country, now, now, true)
  }

  /** The two tables registration writes to. */
  datatype Stores = Stores(users: map<int, User>, nextUserId: int, customers: map<int, Customer>, nextCustomerId: int)

  /** What `RegisterAsync` does to the tables and what it answers. `passwordHash` is
      the result of BCrypt's salted `HashPassword(request.Password)`. */
  function RegisterTransition(s: Stores, req: RegisterRequest, passwordHash: string, now: Instant): (AuthResult, Stores)
  {
    if UserRepo.FindByUsername(s.users, s.nextUserId, req.username).Some? then
      (Rejected(UsernameTaken), s)
    else if UserRepo.FindByEmail(s.users, s.nextUserId, req.email).Some? then
      (Rejected(EmailTaken), s)
    else
      var user := NewUserFor(req, passwordHash, now);
      var id := s.nextUserId;
      var withUser := s.(users := s.users[id := UserRepo.InsertedRow(user, id, now)], nextUserId := id + 1);
      var s' :=
        if WantsCustomerProfile(req) then
          var cid := s.nextCustomerId;
          withUser.(customers := s.customers[cid := CustomerRepo.InsertedRow(NewCustomerFor(req, now), cid, now)],
                    nextCustomerId := cid + 1)
        else withUser;
      (Accepted(Registered, user.(userId := id)), s')
  }

  /** The authentication service over the users and customers repositories. */
  class AuthService {
    const users: UserRepo.UserRepository
    const customers: CustomerRepo.CustomerRepository

    constructor (users: UserRepo.UserRepository, customers: CustomerRepo.CustomerRepository)
      ensures this.users == users && this.customers == customers
    {
      this.users := users;
      this.customers := customers;
    }

    /** `UserExistsAsync`: some user has this name, ignoring case. */
    function UserExists(username: string): (b: bool)
      reads users
      requires users.Valid()
      ensures b <==> exists k :: k in users.rows && SameIgnoringCase(users.rows[k].username, username)
    {
      users.GetByUsername(username).Some?
    }

    /** `EmailExistsAsync`: some user has this e-mail address, ignoring case. */
    function EmailExists(email: string): (b: bool)
      reads users
      requires users.Valid()
      ensures b <==> exists k :: k in users.rows && SameIgnoringCase(users.rows[k].email, email)
    {
      users.GetByEmail(email).Some?
    }

    /** `LoginAsync` at time `now`, with BCrypt's check `verify`. */
    method Login(username: string, password: string, verify: (string, string) -> bool, now: Instant)
      returns (result: AuthResult)
      requires users.Valid()
      modifies users
      ensures users.Valid() && users.nextId == old(users.nextId)
      ensures (result, users.rows) == LoginTransition(old(users.rows), old(users.nextId), username, password, verify, now)
    {
      var found := users.GetByUsername(username);
      if found.None? {
        return Rejected(InvalidCredentials);
      }
      var user := found.value;
      if IsLocked(user, now) {
        return Rejected(AccountLocked(user.lockedUntil.value));
      }
      if !user.isActive {
        return Rejected(AccountDeactivated);
      }
      if !verify(password, user.passwordHash) {
        users.IncrementFailedLoginAttempts(user.userId);
        user := user.(failedLoginAttempts := user.failedLoginAttempts + 1);
        if user.failedLoginAttempts >= MaxFailedAttempts {
          var lockUntil := now + LockoutDuration;
          users.LockUser(user.userId, lockUntil);
          return Rejected(LockedOut(LockoutMinutes));
        }
        return Rejected(InvalidCredentialsRemaining(MaxFailedAttempts - user.failedLoginAttempts));
      }
      users.ResetFailedLoginAttempts(user.userId);
      users.UpdateLastLogin(user.userId, now);
      var token := TokenFor(user);
      user := user.(passwordHash := "");
      return AuthResult(true, LoginSucceeded, Some(token), Some(user));
    }

    /** `RegisterAsync` at time `now`; `passwordHash` is BCrypt's hash of the password. */
    method Register(request: RegisterRequest, passwordHash: string, now: Instant) returns (result: AuthResult)
      requires users.Valid() && customers.Valid()
      modifies users, customers
      ensures users.Valid() && customers.Valid()
      ensures (result, Stores(users.rows, users.nextId, customers.rows, customers.nextId))
        == RegisterTransition(Stores(old(users.rows), old(users.nextId), old(customers.rows), old(customers.nextId)),
                              request, passwordHash, now)
    {
      if UserExists(request.username) {
        return Rejected(UsernameTaken);
      }
      if EmailExists(request.email) {
        return Rejected(EmailTaken);
      }
      var user := NewUserFor(request, passwordHash, now);
      user := users.Create(user, now);
      if WantsCustomerProfile(request) {
        var customer := NewCustomerFor(request, now);
        var _ := customers.Create(customer, now);
      }
      var token := TokenFor(user);
      user := user.(passwordHash := "");
      return AuthResult(true, Registered, Some(token), Some(user));
    }
  }

  /** The account a login for `username` acts on: the lowest-id user whose name
      matches, ignoring case. */
  ghost predicate LogsInAs(rows: map<int, User>, nextId: int, username: string, id: int)
  {
    UserRepo.FindByUsername(rows, nextId, username) == Some(id)
  }

  /** A name no user has, in any case, is answered with "invalid credentials" and
      leaves the table alone. */
  lemma LoginUnknownUser(rows: map<int, User>, nextId: int, username: string, password: string,
                         verify: (string, string) -> bool, now: Instant)
    requires UserRepo.Keyed(rows, nextId)
    requires forall k :: k in rows ==> !SameIgnoringCase(rows[k].username, username)
    ensures LoginTransition(rows, nextId, username, password, verify, now) == (Rejected(InvalidCredentials), rows)
  {
  }

  /** While a lock is in force nothing is checked or written, even for the right
      password; the answer names the end of the lock. */
  lemma LoginWhileLocked(rows: map<int, User>, nextId: int, username: string, password: string,
                         verify: (string, string) -> bool, now: Instant, id: int)
    requires UserRepo.Keyed(rows, nextId) && LogsInAs(rows, nextId, username, id)
    requires IsLocked(rows[id], now)
    ensures LoginTransition(rows, nextId, username, password, verify, now)
      == (Rejected(AccountLocked(rows[id].lockedUntil.value)), rows)
  {
  }

  /** A deactivated account that is not locked is refused without a password check. */
  lemma LoginInactive(rows: map<int, User>, nextId: int, username: string, password: string,
                      verify: (string, string) -> bool, now: Instant, id: int)
    requires UserRepo.Keyed(rows, nextId) && LogsInAs(rows, nextId, username, id)
    requires !IsLocked(rows[id], now) && !rows[id].isActive
    ensures LoginTransition(rows, nextId, username, password, verify, now) == (Rejected(AccountDeactivated), rows)
  {
  }

  /** A wrong password counts one more failure. The fifth consecutive failure locks
      the account for 30 minutes from now; before that the answer says how many
      attempts are left (between 1 and 4). Nothing else in the table changes. */
  lemma LoginWrongPassword(rows: map<int, User>, nextId: int, username: string, password: string,
                           verify: (string, string) -> bool, now: Instant, id: int)
    requires UserRepo.Keyed(rows, nextId) && LogsInAs(rows, nextId, username, id)
    requires !IsLocked(rows[id], now) && rows[id].isActive && !verify(password, rows[id].passwordHash)
    ensures var (r, rows') := LoginTransition(rows, nextId, username, password, verify, now);
      && !r.success && r.token.None? && r.user.None?
      && UserRepo.Keyed(rows', nextId) && rows'.Keys == rows.Keys
      && (forall k :: k in rows && k != id ==> rows'[k] == rows[k])
      && rows'[id].failedLoginAttempts == rows[id].failedLoginAttempts + 1
      && rows'[id].(failedLoginAttempts := rows[id].failedLoginAttempts, lockedUntil := rows[id].lockedUntil) == rows[id]
    ensures var (r, rows') := LoginTransition(rows, nextId, username, password, verify, now);
      rows[id].failedLoginAttempts + 1 >= MaxFailedAttempts ==>
        && r.message == LockedOut(30)
        && rows'[id].lockedUntil == Some(now + 30 * 60)
        && IsLocked(rows'[id], now + 30 * 60 - 1) && !IsLocked(rows'[id], now + 30 * 60)
    ensures var (r, rows') := LoginTransition(rows, nextId, username, password, verify, now);
      rows[id].failedLoginAttempts + 1 < MaxFailedAttempts ==>
        && r.message == InvalidCredentialsRemaining(MaxFailedAttempts - rows'[id].failedLoginAttempts)
        && 1 <= r.message.attemptsLeft <= 4
        && rows'[id].lockedUntil == rows[id].lockedUntil
  {
    var u := rows[id];
    assert u.userId == id;
    var counted := UserRepo.WithFailureCounted(rows, id);
    assert counted[id] == u.(failedLoginAttempts := u.failedLoginAttempts + 1);
    if u.failedLoginAttempts + 1 >= MaxFailedAttempts {
      var locked := UserRepo.WithLock(counted, id, now + LockoutDuration);
      assert locked[id] == counted[id].(lockedUntil := Some(now + LockoutDuration));
    }
  }

  /** The right password on an active, unlocked account succeeds: the answer carries
      the account's token and the account without its hash; the stored row has its
      failure count and lock cleared and its last login set to now. */
  lemma LoginCorrectPassword(rows: map<int, User>, nextId: int, username: string, password: string,
                             verify: (string, string) -> bool, now: Instant, id: int)
    requires UserRepo.Keyed(rows, nextId) && LogsInAs(rows, nextId, username, id)
    requires !IsLocked(rows[id], now) && rows[id].isActive && verify(password, rows[id].passwordHash)
    ensures var (r, rows') := LoginTransition(rows, nextId, username, password, verify, now);
      && r.success && r.message == LoginSucceeded
      && r.token == Some(TokenFor(rows[id])) && r.token.value.userId == id
      && r.user.Some? && r.user.value.passwordHash == "" && r.user.value.(passwordHash := rows[id].passwordHash) == rows[id]
      && UserRepo.Keyed(rows', nextId) && rows'.Keys == rows.Keys
      && (forall k :: k in rows && k != id ==> rows'[k] == rows[k])
      && rows'[id].failedLoginAttempts == 0 && rows'[id].lockedUntil.None? && rows'[id].lastLoginDate == Some(now)
      && rows'[id].(failedLoginAttempts := rows[id].failedLoginAttempts, lockedUntil := rows[id].lockedUntil,
                    lastLoginDate := rows[id].lastLoginDate) == rows[id]
  {
    var u := rows[id];
    assert u.userId == id;
    var reset := UserRepo.WithFailuresReset(rows, id);
    assert reset[id] == u.(failedLoginAttempts := 0, lockedUntil := None);
    var stamped := UserRepo.WithLastLogin(reset, id, now);
    assert stamped[id] == reset[id].(lastLoginDate := Some(now));
  }

  /** A user can log in with `password` at `now`: not locked, active, and the password checks. */
  predicate CanLogIn(u: User, password: string, verify: (string, string) -> bool, now: Instant)
  {
    !IsLocked(u, now) && u.isActive && verify(password, u.passwordHash)
  }

  /** Login succeeds exactly when the matching account can log in; a successful
      answer never carries a password hash, a failed one carries no token. */
  lemma LoginSucceedsExactly(rows: map<int, User>, nextId: int, username: string, password: string,
                             verify: (string, string) -> bool, now: Instant)
    requires UserRepo.Keyed(rows, nextId)
    ensures var r := LoginTransition(rows, nextId, username, password, verify, now).0;
      r.success <==> exists id :: LogsInAs(rows, nextId, username, id) && CanLogIn(rows[id], password, verify, now)
    ensures var r := LoginTransition(rows, nextId, username, password, verify, now).0;
      (r.success ==> r.token.Some? && r.user.Some? && r.user.value.passwordHash == "")
      && (!r.success ==> r.token.None? && r.user.None?)
  {
    match UserRepo.FindByUsername(rows, nextId, username)
    case None =>
    case Some(k) =>
      assert LogsInAs(rows, nextId, username, k);
  }

  /** Login never adds or removes users and never changes a name or e-mail address. */
  lemma LoginKeepsIdentities(rows: map<int, User>, nextId: int, username: string, password: string,
                             verify: (string, string) -> bool, now: Instant)
    requires UserRepo.Keyed(rows, nextId)
    ensures var rows' := LoginTransition(rows, nextId, username, password, verify, now).1;
      && UserRepo.Keyed(rows', nextId) && rows'.Keys == rows.Keys
      && forall k :: k in rows ==>
           (rows'[k].username == rows[k].username && rows'[k].email == rows[k].email
            && rows'[k].passwordHash == rows[k].passwordHash && rows'[k].isActive == rows[k].isActive)
  {
    match UserRepo.FindByUsername(rows, nextId, username)
    case None =>
    case Some(id) =>
      var u := rows[id];
      if !IsLocked(u, now) && u.isActive {
        if !verify(password, u.passwordHash) {
          LoginWrongPassword(rows, nextId, username, password, verify, now, id);
        } else {
          LoginCorrectPassword(rows, nextId, username, password, verify, now, id);
        }
      }
  }

  /** A name that some user already has, in any case, is refused and nothing is written. */
  lemma RegisterDuplicateUsername(s: Stores, req: RegisterRequest, passwordHash: string, now: Instant, k: int)
    requires UserRepo.Keyed(s.users, s.nextUserId)
    requires k in s.users && SameIgnoringCase(s.users[k].username, req.username)
    ensures RegisterTransition(s, req, passwordHash, now) == (Rejected(UsernameTaken), s)
  {
  }

  /** A free name with an e-mail address some user already has is refused and
      nothing is written. */
  lemma RegisterDuplicateEmail(s: Stores, req: RegisterRequest, passwordHash: string, now: Instant, k: int)
    requires UserRepo.Keyed(s.users, s.nextUserId)
    requires forall j :: j in s.users ==> !SameIgnoringCase(s.users[j].username, req.username)
    requires k in s.users && SameIgnoringCase(s.users[k].email, req.email)
    ensures RegisterTransition(s, req, passwordHash, now) == (Rejected(EmailTaken), s)
  {
  }

  /** Registration succeeds exactly when name and e-mail are both free, ignoring
      case; when it fails nothing is written and no token is issued. */
  lemma RegisterSucceedsExactly(s: Stores, req: RegisterRequest, passwordHash: string, now: Instant)
    requires UserRepo.Keyed(s.users, s.nextUserId)
    ensures var (r, s') := RegisterTransition(s, req, passwordHash, now);
      r.success <==>
        (forall k :: k in s.users ==> !SameIgnoringCase(s.users[k].username, req.username))
        && (forall k :: k in s.users ==> !SameIgnoringCase(s.users[k].email, req.email))
    ensures var (r, s') := RegisterTransition(s, req, passwordHash, now);
      !r.success ==> s' == s && r.token.None? && r.user.None?
  {
  }

  /** A successful registration adds one active user under the next id with the
      request's details, the given hash, no failures, no lock and no last login; the
      answer carries the new user's token and the user without the hash. */
  lemma RegisterCreatesUser(s: Stores, req: RegisterRequest, passwordHash: string, now: Instant)
    requires UserRepo.Keyed(s.users, s.nextUserId)
    requires RegisterTransition(s, req, passwordHash, now).0.success
    ensures var (r, s') := RegisterTransition(s, req, passwordHash, now);
      var id := s.nextUserId;
      && UserRepo.Keyed(s'.users, s'.nextUserId)
      && id !in s.users && s'.users.Keys == s.users.Keys + {id} && s'.nextUserId == id + 1
      && (forall k :: k in s.users ==> s'.users[k] == s.users[k])
      && var u := s'.users[id];
      && u.userId == id && u.username == req.username && u.email == req.email && u.fullName == req.fullName
      && u.role == req.role && u.passwordHash == passwordHash && u.isActive && u.createdDate == now
      && u.failedLoginAttempts == 0 && u.lockedUntil.None? && u.lastLoginDate.None?
      && r.message == Registered && r.token == Some(TokenFor(u)) && r.user == Some(u.(passwordHash := ""))
  {
  }

  /** A successful registration adds a customer, under the next customer id and with
      the request's e-mail, name, passport, phone and date of birth, if and only if
      the request holds a complete customer profile; existing customers are untouched. */
  lemma RegisterCreatesCustomer(s: Stores, req: RegisterRequest, passwordHash: string, now: Instant)
    requires UserRepo.Keyed(s.users, s.nextUserId) && CustomerRepo.Keyed(s.customers, s.nextCustomerId)
    requires RegisterTransition(s, req, passwordHash, now).0.success
    ensures var s' := RegisterTransition(s, req, passwordHash, now).1;
      && CustomerRepo.Keyed(s'.customers, s'.nextCustomerId)
      && (s'.customers.Keys == s.customers.Keys <==> !WantsCustomerProfile(req))
      && (forall k :: k in s.customers ==> k in s'.customers && s'.customers[k] == s.customers[k])
    ensures var s' := RegisterTransition(s, req, passwordHash, now).1;
      WantsCustomerProfile(req) ==>
        var c := s'.customers[s.nextCustomerId];
        && s'.customers.Keys == s.customers.Keys + {s.nextCustomerId}
        && c.customerId == s.nextCustomerId && c.email == req.email
        && Some(c.firstName) == req.firstName && Some(c.lastName) == req.lastName
        && Some(c.passportNumber) == req.passportNumber && Some(c.phoneNumber) == req.phoneNumber
        && Some(c.dateOfBirth) == req.dateOfBirth && c.isActive
  {
    var s' := RegisterTransition(s, req, passwordHash, now).1;
    if WantsCustomerProfile(req) {
      assert s.nextCustomerId !in s.customers;
      assert s.nextCustomerId in s'.customers.Keys;
    }
  }

  /** No two users have names that differ only in case. */
  ghost predicate UniqueUsernames(rows: map<int, User>)
  {
    forall j, k :: j in rows && k in rows && SameIgnoringCase(rows[j].username, rows[k].username) ==> j == k
  }

  /** Registration keeps user names unique, ignoring case. */
  lemma RegisterKeepsUsernamesUnique(s: Stores, req: RegisterRequest, passwordHash: string, now: Instant)
    requires UserRepo.Keyed(s.users, s.nextUserId) && CustomerRepo.Keyed(s.customers, s.nextCustomerId)
    requires UniqueUsernames(s.users)
    ensures UniqueUsernames(RegisterTransition(s, req, passwordHash, now).1.users)
  {
    RegisterSucceedsExactly(s, req, passwordHash, now);
    if RegisterTransition(s, req, passwordHash, now).0.success {
      RegisterCreatesUser(s, req, passwordHash, now);
    }
  }

  /** Login keeps user names unique, ignoring case. */
  lemma LoginKeepsUsernamesUnique(rows: map<int, User>, nextId: int, username: string, password: string,
                                  verify: (string, string) -> bool, now: Instant)
    requires UserRepo.Keyed(rows, nextId) && UniqueUsernames(rows)
    ensures UniqueUsernames(LoginTransition(rows, nextId, username, password, verify, now).1)
  {
    LoginKeepsIdentities(rows, nextId, username, password, verify, now);
  }

  /** Round trip: right after a successful registration, logging in under the same
      name (in any case) with a password the stored hash accepts succeeds, as the
      new user. */
  lemma RegisterThenLogin(s: Stores, req: RegisterRequest, passwordHash: string, now: Instant,
                          username: string, verify: (string, string) -> bool, later: Instant)
    requires UserRepo.Keyed(s.users, s.nextUserId) && CustomerRepo.Keyed(s.customers, s.nextCustomerId)
    requires RegisterTransition(s, req, passwordHash, now).0.success
    requires SameIgnoringCase(username, req.username) && verify(req.password, passwordHash)
    ensures var s' := RegisterTransition(s, req, passwordHash, now).1;
      var r := LoginTransition(s'.users, s'.nextUserId, username, req.password, verify, later).0;
      r.success && r.token.Some? && r.token.value.userId == s.nextUserId
  {
    RegisterSucceedsExactly(s, req, passwordHash, now);
    RegisterCreatesUser(s, req, passwordHash, now);
    var s' := RegisterTransition(s, req, passwordHash, now).1;
    var id := s.nextUserId;
    var found := UserRepo.FindByUsername(s'.users, s'.nextUserId, username);
    assert SameIgnoringCase(s'.users[id].username, username);
    match found
    case None =>
      assert false;
    case Some(k) =>
      if k != id {
        assert k in s.users && SameIgnoringCase(s.users[k].username, req.username);
        assert false;
      }
      LoginCorrectPassword(s'.users, s'.nextUserId, username, req.password, verify, later, id);
  }
}
