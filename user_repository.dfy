/** The users table (UserRepository): lookups and the UPDATE statements the login
    state machine is built from. The row changes are first stated as functions on
    the table value, which the repository's methods then apply in place. */
module UserRepo {
  import opened Wrappers
  import opened Text
  import opened Calendar
  import opened UserModel
  import Tables

  /** The table invariant: serial ids in [1, nextId), each row stored under its own id. */
  ghost predicate Keyed(rows: map<int, User>, nextId: int)
  {
    1 <= nextId && forall k :: k in rows ==> 1 <= k < nextId && rows[k].userId == k
  }

  /** `WHERE LOWER(username) = LOWER(@Username)`, first row. */
  function FindByUsername(rows: map<int, User>, nextId: int, username: string): Option<int>
  {
    Tables.FirstKey(rows, (u: User) => SameIgnoringCase(u.username, username), nextId)
  }

  /** `WHERE LOWER(email) = LOWER(@Email)`, first row. */
  function FindByEmail(rows: map<int, User>, nextId: int, email: string): Option<int>
  {
    Tables.FirstKey(rows, (u: User) => SameIgnoringCase(u.email, email), nextId)
  }

  /** The lookup by username resolves to the same row in two tables that hold the
      same keys with the same usernames. */
  lemma FindByUsernameIgnoresOtherColumns(rows: map<int, User>, rows': map<int, User>, nextId: int, username: string)
    requires rows.Keys == rows'.Keys
    requires forall k :: k in rows ==> rows'[k].username == rows[k].username
    ensures FindByUsername(rows', nextId, username) == FindByUsername(rows, nextId, username)
  {
    Tables.FirstKeySameMatches(rows, rows', (u: User) => SameIgnoringCase(u.username, username), nextId);
  }

  /** The row `INSERT INTO users (username, passwordhash, email, fullname, role,
      isactive, createddate)` stores: the columns it names, the current time for
      createddate, and the column defaults (no last login, no failures, no lock)
      for the rest. */
  function InsertedRow(user: User, id: int, now: Instant): (u: User)
    ensures u.userId == id && u.createdDate == now
    ensures u.username == user.username && u.passwordHash == user.passwordHash && u.email == user.email
    ensures u.fullName == user.fullName && u.role == user.role && u.isActive == user.isActive
    ensures u.lastLoginDate.None? && u.failedLoginAttempts == 0 && u.lockedUntil.None?
  {
    user.(userId := id, createdDate := now, lastLoginDate := None, failedLoginAttempts := 0, lockedUntil := None)
  }

  /** `UPDATE users SET email, fullname, role, isactive WHERE userid = @UserId`. */
  function WithProfile(rows: map<int, User>, user: User): (r: map<int, User>)
    ensures r.Keys == rows.Keys
    ensures forall k :: k in rows && k != user.userId ==> r[k] == rows[k]
    ensures user.userId in rows ==>
      var (before, after) := (rows[user.userId], r[user.userId]);
      && after.email == user.email && after.fullName == user.fullName
      && after.role == user.role && after.isActive == user.isActive
      && after.userId == before.userId && after.username == before.username && after.passwordHash == before.passwordHash
      && after.createdDate == before.createdDate && after.lastLoginDate == before.lastLoginDate
      && after.failedLoginAttempts == before.failedLoginAttempts && after.lockedUntil == before.lockedUntil
  {
    var id := user.userId;
    if id in rows then
      rows[id := rows[id].(email := user.email, fullName := user.fullName, role := user.role, isActive := user.isActive)]
    else rows
  }

  /** `UPDATE users SET lastlogindate = @LastLoginDate WHERE userid = @UserId`.
      Resetting the column to its old value gives back the old row: nothing else changes. */
  function WithLastLogin(rows: map<int, User>, userId: int, at: Instant): (r: map<int, User>)
    ensures r.Keys == rows.Keys
    ensures forall k :: k in rows && k != userId ==> r[k] == rows[k]
    ensures userId in rows ==> r[userId].lastLoginDate == Some(at)
    ensures userId in rows ==> r[userId].(lastLoginDate := rows[userId].lastLoginDate) == rows[userId]
  {
    if userId in rows then rows[userId := rows[userId].(lastLoginDate := Some(at))] else rows
  }

  /** `UPDATE users SET failedloginattempts = failedloginattempts + 1 WHERE userid = @UserId`. */
  function WithFailureCounted(rows: map<int, User>, userId: int): (r: map<int, User>)
    ensures r.Keys == rows.Keys
    ensures forall k :: k in rows && k != userId ==> r[k] == rows[k]
    ensures userId in rows ==> r[userId].failedLoginAttempts == rows[userId].failedLoginAttempts + 1
    ensures userId in rows ==> r[userId].(failedLoginAttempts := rows[userId].failedLoginAttempts) == rows[userId]
  {
    if userId in rows then
      rows[userId := rows[userId].(failedLoginAttempts := rows[userId].failedLoginAttempts + 1)]
    else rows
  }

  /** `UPDATE users SET failedloginattempts = 0, lockeduntil = NULL WHERE userid = @UserId`:
      the counter and the lock are cleared together. */
  function WithFailuresReset(rows: map<int, User>, userId: int): (r: map<int, User>)
    ensures r.Keys == rows.Keys
    ensures forall k :: k in rows && k != userId ==> r[k] == rows[k]
    ensures userId in rows ==> r[userId].failedLoginAttempts == 0 && r[userId].lockedUntil.None?
    ensures userId in rows ==>
      r[userId].(failedLoginAttempts := rows[userId].failedLoginAttempts, lockedUntil := rows[userId].lockedUntil) == rows[userId]
  {
    if userId in rows then
      rows[userId := rows[userId].(failedLoginAttempts := 0, lockedUntil := None)]
    else rows
  }

  /** `UPDATE users SET lockeduntil = @LockUntil WHERE userid = @UserId`: the counter stays. */
  function WithLock(rows: map<int, User>, userId: int, until: Instant): (r: map<int, User>)
    ensures r.Keys == rows.Keys
    ensures forall k :: k in rows && k != userId ==> r[k] == rows[k]
    ensures userId in rows ==> r[userId].lockedUntil == Some(until)
    ensures userId in rows ==> r[userId].(lockedUntil := rows[userId].lockedUntil) == rows[userId]
  {
    if userId in rows then rows[userId := rows[userId].(lockedUntil := Some(until))] else rows
  }

  /** An UPDATE whose `WHERE userid` matches no row leaves the table as it was. */
  lemma UpdatesOfMissingUser(rows: map<int, User>, user: User, userId: int, at: Instant)
    requires user.userId !in rows && userId !in rows
    ensures WithProfile(rows, user) == rows && WithLastLogin(rows, userId, at) == rows
    ensures WithFailureCounted(rows, userId) == rows && WithFailuresReset(rows, userId) == rows
    ensures WithLock(rows, userId, at) == rows
  {
  }

  /** The profile UPDATE does not touch a username, so the lookup by username
      finds the same row before and after it. */
  lemma ProfileUpdateKeepsUsernames(rows: map<int, User>, nextId: int, user: User, name: string)
    ensures FindByUsername(WithProfile(rows, user), nextId, name) == FindByUsername(rows, nextId, name)
  {
    FindByUsernameIgnoresOtherColumns(rows, WithProfile(rows, user), nextId, name);
  }

  /** Nor does any of the UPDATE statements a login makes. */
  lemma LoginUpdatesKeepUsernames(rows: map<int, User>, nextId: int, userId: int, at: Instant, name: string)
    ensures FindByUsername(WithLastLogin(rows, userId, at), nextId, name) == FindByUsername(rows, nextId, name)
    ensures FindByUsername(WithFailureCounted(rows, userId), nextId, name) == FindByUsername(rows, nextId, name)
    ensures FindByUsername(WithFailuresReset(rows, userId), nextId, name) == FindByUsername(rows, nextId, name)
    ensures FindByUsername(WithLock(rows, userId, at), nextId, name) == FindByUsername(rows, nextId, name)
  {
    FindByUsernameIgnoresOtherColumns(rows, WithLastLogin(rows, userId, at), nextId, name);
    FindByUsernameIgnoresOtherColumns(rows, WithFailureCounted(rows, userId), nextId, name);
    FindByUsernameIgnoresOtherColumns(rows, WithFailuresReset(rows, userId), nextId, name);
    FindByUsernameIgnoresOtherColumns(rows, WithLock(rows, userId, at), nextId, name);
  }

  /** The users table. `rows` is the table's content, `nextId` the next value of its
      serial id sequence. */
  class UserRepository {
    var rows: map<int, User>
    var nextId: int

    ghost predicate Valid()
      reads this
    {
      Keyed(rows, nextId)
    }

    constructor ()
      ensures Valid() && rows == map[] && nextId == 1
    {
      rows := map[];
      nextId := 1;
    }

    /** `GetByIdAsync`: the row with that id, or none. */
    function GetById(id: int): (r: Option<User>)
      reads this
      requires Valid()
      ensures r.Some? <==> id in rows
      ensures r.Some? ==> r.value == rows[id] && r.value.userId == id
    {
      if id in rows then Some(rows[id]) else None
    }

    /** `GetByUsernameAsync`: a row whose username equals `username` ignoring case,
        present exactly when some row matches. */
    function GetByUsername(username: string): (r: Option<User>)
      reads this
      requires Valid()
      ensures r.Some? <==> exists k :: k in rows && SameIgnoringCase(rows[k].username, username)
      ensures r.Some? ==> r.value.userId in rows && rows[r.value.userId] == r.value
      ensures r.Some? ==> SameIgnoringCase(r.value.username, username)
    {
      match FindByUsername(rows, nextId, username)
      case None => None
      case Some(k) => Some(rows[k])
    }

    /** `GetByEmailAsync`: a row whose e-mail equals `email` ignoring case, present
        exactly when some row matches. */
    function GetByEmail(email: string): (r: Option<User>)
      reads this
      requires Valid()
      ensures r.Some? <==> exists k :: k in rows && SameIgnoringCase(rows[k].email, email)
      ensures r.Some? ==> r.value.userId in rows && rows[r.value.userId] == r.value
      ensures r.Some? ==> SameIgnoringCase(r.value.email, email)
    {
      match FindByEmail(rows, nextId, email)
      case None => None
      case Some(k) => Some(rows[k])
    }

    /** `CreateAsync`: one new row under a fresh id; the caller's object comes back
        carrying that id and is otherwise as passed in. */
    method Create(user: User, now: Instant) returns (created: User)
      requires Valid()
      modifies this
      ensures Valid()
      ensures old(nextId) !in old(rows) && created == user.(userId := old(nextId))
      ensures rows == old(rows)[old(nextId) := InsertedRow(user, old(nextId), now)]
      ensures nextId == old(nextId) + 1
    {
      var id := nextId;
      rows := rows[id := InsertedRow(user, id, now)];
      nextId := nextId + 1;
      created := user.(userId := id);
    }

    /** `UpdateAsync`. */
    method Update(user: User)
      requires Valid()
      modifies this
      ensures Valid() && nextId == old(nextId)
      ensures rows == WithProfile(old(rows), user)
    {
      rows := WithProfile(rows, user);
    }

    /** `UpdateLastLoginAsync`, stamped with the current time `now`. */
    method UpdateLastLogin(userId: int, now: Instant)
      requires Valid()
      modifies this
      ensures Valid() && nextId == old(nextId)
      ensures rows == WithLastLogin(old(rows), userId, now)
    {
      rows := WithLastLogin(rows, userId, now);
    }

    /** `IncrementFailedLoginAttemptsAsync`. */
    method IncrementFailedLoginAttempts(userId: int)
      requires Valid()
      modifies this
      ensures Valid() && nextId == old(nextId)
      ensures rows == WithFailureCounted(old(rows), userId)
    {
      rows := WithFailureCounted(rows, userId);
    }

    /** `ResetFailedLoginAttemptsAsync`. */
    method ResetFailedLoginAttempts(userId: int)
      requires Valid()
      modifies this
      ensures Valid() && nextId == old(nextId)
      ensures rows == WithFailuresReset(old(rows), userId)
    {
      rows := WithFailuresReset(rows, userId);
    }

    /** `LockUserAsync`. */
    method LockUser(userId: int, lockUntil: Instant)
      requires Valid()
      modifies this
      ensures Valid() && nextId == old(nextId)
      ensures rows == WithLock(old(rows), userId, lockUntil)
    {
      rows := WithLock(rows, userId, lockUntil);
    }
  }
}
