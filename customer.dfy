/** A row of the customers table: the profile of a bank client. */
module CustomerModel {
  import opened Wrappers
  import opened Calendar

  datatype Customer = Customer(
    customerId: int,
    firstName: string,
    lastName: string,
    middleName: Option<string>,
    dateOfBirth: Date,
    email: string,
    phoneNumber: string,
    passportNumber: string,
    address: Option<string>,
    city: Option<string>,
    country: string,
    createdDate: Instant,
    updatedDate: Instant,
    isActive: bool)

  /** `new Customer()`: the property initialisers of the class (`DateTime`'s
      default is 1 January of year 1). */
  function NewCustomer(): Customer
  {
    Customer(0, "", "", None, Date(1, 1, 1), "", "", "", None, None, "Tajikistan", 0, 0, false)
  }

  lemma NewCustomerDefaults()
    ensures NewCustomer().country == "Tajikistan" && !NewCustomer().isActive
  {
  }

  /** `FullName`: first name, one space, last name. */
  function FullName(c: Customer): (r: string)
    ensures |r| == |c.firstName| + 1 + |c.lastName|
    ensures r[..|c.firstName|] == c.firstName && r[|c.firstName|] == ' '
    ensures r[|c.firstName| + 1..] == c.lastName
  {
    c.firstName + " " + c.lastName
  }

  /** `Age` on the date `today`: the difference of the years, one less when
      `DateOfBirth` is later than `today.AddYears(-age)`. */
  function Age(c: Customer, today: Date): int
  {
    var age := today.year - c.dateOfBirth.year;
    if Later(c.dateOfBirth, AddYears(today, -age)) then age - 1 else age
  }

  /** The birthday of `dob` has not yet come round in the year of `today`. */
  predicate BirthdayPending(dob: Date, today: Date)
  {
    dob.month > today.month || (dob.month == today.month && dob.day > today.day)
  }

  /** Age counts completed years: the difference of the years, less one while the
      birthday is still ahead in the current year. The 29 February rule of
      `AddYears` never changes the outcome, since no valid birth date falls on
      29 February of a year that is not a leap year. */
  lemma AgeIsCompletedYears(c: Customer, today: Date)
    requires ValidDate(c.dateOfBirth) && ValidDate(today)
    ensures Age(c, today) == today.year - c.dateOfBirth.year - (if BirthdayPending(c.dateOfBirth, today) then 1 else 0)
  {
    var dob := c.dateOfBirth;
    var shifted := AddYears(today, -(today.year - dob.year));
    assert shifted.year == dob.year && shifted.month == today.month;
    if shifted.day != today.day {
      assert today.month == 2 && today.day == 29 && shifted.day == 28 && !IsLeapYear(dob.year);
      assert dob.month == 2 ==> dob.day <= 28;
    }
  }

  /** On the birthday itself the full difference of the years counts. */
  lemma AgeOnBirthday(c: Customer, today: Date)
    requires ValidDate(c.dateOfBirth) && ValidDate(today)
    requires today.month == c.dateOfBirth.month && today.day == c.dateOfBirth.day
    ensures Age(c, today) == today.year - c.dateOfBirth.year
  {
    AgeIsCompletedYears(c, today);
  }

  /** Nobody born on or before `today` has a negative age. */
  lemma AgeNonNegative(c: Customer, today: Date)
    requires ValidDate(c.dateOfBirth) && ValidDate(today)
    requires !Later(c.dateOfBirth, today)
    ensures Age(c, today) >= 0
  {
    AgeIsCompletedYears(c, today);
  }
}
