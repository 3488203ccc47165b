/** A row of the users table: the credential record login and registration work on. */
module UserModel {
  import opened Wrappers
  import opened Calendar

  datatype User = User(
    userId: int,
    username: string,
    passwordHash: string,
    email: string,
    fullName: string,
    role: string,          // Admin, Manager, Teller, Customer
    isActive: bool,
    createdDate: Instant,
    lastLoginDate: Option<Instant>,
    failedLoginAttempts: nat,
    lockedUntil: Option<Instant>)

  /** `new User()`: the property initialisers of the class. */
  function NewUser(): User
  {
    User(0, "", "", "", "", "Customer", true, 0, None, 0, None)
  }

  /** `IsLocked`: the lock is set and has not yet run out at `now`. */
  predicate IsLocked(u: User, now: Instant)
  {
    u.lockedUntil.Some? && u.lockedUntil.value > now
  }

  predicate IsAdmin(u: User)
  {
    u.role == "Admin"
  }

  /** A user without a lock time is never locked; one with a lock time is locked
      exactly before it, and already unlocked at the lock time itself. */
  lemma LockWindow(u: User, now: Instant)
    ensures u.lockedUntil.None? ==> !IsLocked(u, now)
    ensures u.lockedUntil.Some? ==> (IsLocked(u, now) <==> now < u.lockedUntil.value)
    ensures u.lockedUntil == Some(now) ==> !IsLocked(u, now)
  {
  }

  /** Only the role "Admin" makes a user an administrator. */
  lemma AdminIsRole(u: User)
    ensures IsAdmin(u) <==> u.role == "Admin"
    ensures u.role == "Customer" ==> !IsAdmin(u)
  {
  }

  /** A new user is an active, unlocked customer with no failed attempts. */
  lemma NewUserDefaults(now: Instant)
    ensures NewUser().role == "Customer" && !IsAdmin(NewUser())
    ensures NewUser().isActive && !IsLocked(NewUser(), now)
    ensures NewUser().failedLoginAttempts == 0
  {
  }
}
