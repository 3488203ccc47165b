/** The customers table (CustomerRepository). */
module CustomerRepo {
  import opened Wrappers
  import opened Text
  import opened Calendar
  import opened CustomerModel
  import Tables

  /** The table invariant: serial ids in [1, nextId), each row stored under its own id. */
  ghost predicate Keyed(rows: map<int, Customer>, nextId: int)
  {
    1 <= nextId && forall k :: k in rows ==> 1 <= k < nextId && rows[k].customerId == k
  }

  /** The row `INSERT INTO customers` stores: every column of the object, with the
      current time for createddate and updateddate. */
  function InsertedRow(c: Customer, id: int, now: Instant): (r: Customer)
    ensures r.customerId == id && r.createdDate == now && r.updatedDate == now
    ensures r.(customerId := c.customerId, createdDate := c.createdDate, updatedDate := c.updatedDate) == c
  {
    c.(customerId := id, createdDate := now, updatedDate := now)
  }

  /** `UPDATE customers SET firstname, lastname, middlename, email, phonenumber,
      address, city, country, updateddate, isactive WHERE customerid = @CustomerId`:
      the date of birth, the passport number and the creation date never change. */
  function WithProfile(rows: map<int, Customer>, c: Customer, now: Instant): (r: map<int, Customer>)
    ensures r.Keys == rows.Keys
    ensures forall k :: k in rows && k != c.customerId ==> r[k] == rows[k]
    ensures c.customerId in rows ==>
      var (before, after) := (rows[c.customerId], r[c.customerId]);
      && after.firstName == c.firstName && after.lastName == c.lastName && after.middleName == c.middleName
      && after.email == c.email && after.phoneNumber == c.phoneNumber && after.address == c.address
      && after.city == c.city && after.country == c.country && after.updatedDate == now && after.isActive == c.isActive
      && after.customerId == before.customerId && after.dateOfBirth == before.dateOfBirth
      && after.passportNumber == before.passportNumber && after.createdDate == before.createdDate
  {
    var id := c.customerId;
    if id in rows then
      rows[id := rows[id].(firstName := c.firstName, lastName := c.lastName, middleName := c.middleName,
                           email := c.email, phoneNumber := c.phoneNumber, address := c.address,
                           city := c.city, country := c.country, updatedDate := now, isActive := c.isActive)]
    else rows
  }

  /** `WHERE LOWER(email) = LOWER(@Email)` */
  function EmailMatch(email: string): Customer -> bool
  {
    (c: Customer) => SameIgnoringCase(c.email, email)
  }

  /** `WHERE passportnumber = @PassportNumber` */
  function PassportMatch(passport: string): Customer -> bool
  {
    (c: Customer) => c.passportNumber == passport
  }

  /** The customers table. */
  class CustomerRepository {
    var rows: map<int, Customer>
    var nextId: int

    ghost predicate Valid()
      reads this
    {
      Keyed(rows, nextId)
    }

    constructor ()
      ensures Valid() && rows == map[] && nextId == 1
    {
      rows := map[];
      nextId := 1;
    }

    /** `GetByIdAsync`: the row with that id, or none. */
    function GetById(id: int): (r: Option<Customer>)
      reads this
      requires Valid()
      ensures r.Some? <==> id in rows
      ensures r.Some? ==> r.value == rows[id] && r.value.customerId == id
    {
      if id in rows then Some(rows[id]) else None
    }

    /** `GetByEmailAsync`: a customer whose e-mail equals `email` ignoring case,
        present exactly when one exists. */
    function GetByEmail(email: string): (r: Option<Customer>)
      reads this
      requires Valid()
      ensures r.Some? <==> exists k :: k in rows && SameIgnoringCase(rows[k].email, email)
      ensures r.Some? ==> r.value in rows.Values && SameIgnoringCase(r.value.email, email)
    {
      match Tables.FirstKey(rows, EmailMatch(email), nextId)
      case None => None
      case Some(k) => Some(rows[k])
    }

    /** `GetByPassportNumberAsync`: a customer with exactly that passport number. */
    function GetByPassportNumber(passport: string): (r: Option<Customer>)
      reads this
      requires Valid()
      ensures r.Some? <==> exists k :: k in rows && rows[k].passportNumber == passport
      ensures r.Some? ==> r.value in rows.Values && r.value.passportNumber == passport
    {
      match Tables.FirstKey(rows, PassportMatch(passport), nextId)
      case None => None
      case Some(k) => Some(rows[k])
    }

    /** `GetAllAsync`: exactly the active customers, each once, newest `createddate` first. */
    function GetAll(): (r: seq<Customer>)
      reads this
      requires Valid()
      ensures forall c :: c in r ==> c in rows.Values && c.isActive
      ensures forall k :: k in rows && rows[k].isActive ==> rows[k] in r
      ensures Tables.NewestFirst(r, (c: Customer) => c.createdDate)
      ensures Tables.Distinct(r)
    {
      assert Tables.Injective(rows);
      Tables.SelectNewestFirst(rows, (c: Customer) => c.isActive, nextId, (c: Customer) => c.createdDate)
    }

    /** `EmailExistsAsync`: `COUNT(1) > 0` over the same match as GetByEmail, so the
        two agree. */
    function EmailExists(email: string): (b: bool)
      reads this
      requires Valid()
      ensures b <==> exists k :: k in rows && SameIgnoringCase(rows[k].email, email)
      ensures b <==> GetByEmail(email).Some?
    {
      var matching := Tables.SelectKeys(rows, EmailMatch(email), nextId);
      assert forall k :: k in rows && SameIgnoringCase(rows[k].email, email) ==> k in matching;
      assert |matching| > 0 ==> matching[0] in matching && EmailMatch(email)(rows[matching[0]]);
      |matching| > 0
    }

    /** `PassportExistsAsync`: `COUNT(1) > 0` over exact passport matches. */
    function PassportExists(passport: string): (b: bool)
      reads this
      requires Valid()
      ensures b <==> exists k :: k in rows && rows[k].passportNumber == passport
      ensures b <==> GetByPassportNumber(passport).Some?
    {
      var matching := Tables.SelectKeys(rows, PassportMatch(passport), nextId);
      assert forall k :: k in rows && rows[k].passportNumber == passport ==> k in matching;
      assert |matching| > 0 ==> matching[0] in matching && PassportMatch(passport)(rows[matching[0]]);
      |matching| > 0
    }

    /** `CreateAsync`: one new row under a fresh id; the caller's object comes back
        carrying that id. */
    method Create(c: Customer, now: Instant) returns (created: Customer)
      requires Valid()
      modifies this
      ensures Valid()
      ensures old(nextId) !in old(rows) && created == c.(customerId := old(nextId))
      ensures rows == old(rows)[old(nextId) := InsertedRow(c, old(nextId), now)]
      ensures nextId == old(nextId) + 1
    {
      var id := nextId;
      rows := rows[id := InsertedRow(c, id, now)];
      nextId := nextId + 1;
      created := c.(customerId := id);
    }

    /** `UpdateAsync`, stamped with the current time `now`. */
    method Update(c: Customer, now: Instant)
      requires Valid()
      modifies this
      ensures Valid() && nextId == old(nextId)
      ensures rows == WithProfile(old(rows), c, now)
    {
      rows := WithProfile(rows, c, now);
    }
  }
}
