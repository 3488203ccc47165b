/** The transactions table (TransactionRepository): an append-only log. Its
    interface offers inserts and queries, and no update or delete. */
module TransactionRepo {
  import opened Wrappers
  import opened Calendar
  import opened Int32
  import opened TransactionModel
  import Tables

  /** The table invariant: serial ids in [1, nextId), each row stored under its own id. */
  ghost predicate Keyed(rows: map<int, Transaction>, nextId: int)
  {
    1 <= nextId && forall k :: k in rows ==> 1 <= k < nextId && rows[k].transactionId == k
  }

  function DateOf(t: Transaction): int
  {
    t.transactionDate
  }

  /** The database rejects the statement (a negative LIMIT or OFFSET). */
  datatype DbError = NegativeLimitOrOffset

  /** `(page - 1) * pageSize`, computed in C#'s wrapping 32-bit arithmetic. */
  function PageOffset(page: int32, pageSize: int32): int32
  {
    Wrap(Wrap(page - 1) * pageSize)
  }

  /** For a first-or-later page whose offset fits in 32 bits the offset is the plain
      product; page 0 with a positive page size gives a negative offset. */
  lemma PageOffsetInRange(page: int32, pageSize: int32)
    ensures 1 <= page && 0 <= pageSize && (page - 1) * pageSize < 0x8000_0000 ==>
      PageOffset(page, pageSize) == (page - 1) * pageSize
    ensures page == 0 && pageSize > 0 ==> PageOffset(page, pageSize) < 0
  {
    if 1 <= page && 0 <= pageSize && (page - 1) * pageSize < 0x8000_0000 {
      assert Wrap(page - 1) == page - 1;
      ProductNonNegative(page - 1, pageSize);
    }
    if page == 0 && pageSize > 0 {
      assert Wrap(page - 1) == -1;
      assert Wrap(page - 1) * pageSize == -pageSize;
    }
  }

  lemma ProductNonNegative(a: int, b: int)
    requires 0 <= a && 0 <= b
    ensures 0 <= a * b
  {
  }

  /** The next page starts `pageSize` rows further on, as long as no offset overflows. */
  lemma NextPageOffset(page: int32, pageSize: int32)
    requires 1 <= page < 0x7FFF_FFFF && 0 <= pageSize && page * pageSize < 0x8000_0000
    ensures PageOffset(page, pageSize) == (page - 1) * pageSize >= 0
    ensures PageOffset(page + 1, pageSize) == PageOffset(page, pageSize) + pageSize
  {
    var off := (page - 1) * pageSize;
    assert page * pageSize == off + pageSize && off >= 0;
    PageOffsetInRange(page, pageSize);
    var next: int32 := page + 1;
    assert (next - 1) * pageSize == off + pageSize;
    PageOffsetInRange(next, pageSize);
  }

  /** `LIMIT @PageSize OFFSET @Offset` applied to the ordered rows `h`, where the
      caller binds `@Offset` to `PageOffset(page, pageSize)`. Postgres refuses a
      negative LIMIT or OFFSET. */
  function Page(h: seq<Transaction>, page: int32, pageSize: int32): (r: Result<seq<Transaction>, DbError>)
    ensures r.Failure? <==> pageSize < 0 || PageOffset(page, pageSize) < 0
    ensures r.Success? ==> |r.value| <= pageSize
    ensures r.Success? ==> forall i :: 0 <= i < |r.value| ==>
      PageOffset(page, pageSize) + i < |h| && r.value[i] == h[PageOffset(page, pageSize) + i]
    ensures r.Success? && PageOffset(page, pageSize) + pageSize <= |h| ==> |r.value| == pageSize
    ensures r.Success? ==>
      |r.value| == (if PageOffset(page, pageSize) >= |h| then 0
                    else if PageOffset(page, pageSize) + pageSize <= |h| then pageSize as int
                    else |h| - PageOffset(page, pageSize))
  {
    var offset := PageOffset(page, pageSize);
    if pageSize < 0 || offset < 0 then Failure(NegativeLimitOrOffset)
    else Success(Tables.Window(h, offset, pageSize))
  }

  /** Consecutive pages tile the ordered rows. */
  lemma PagesTile(h: seq<Transaction>, page: int32, pageSize: int32)
    requires 1 <= page < 0x7FFF_FFFF && 0 <= pageSize && page * pageSize < 0x8000_0000
    ensures Page(h, page, pageSize).Success? && Page(h, page + 1, pageSize).Success?
    ensures Page(h, page, pageSize).value + Page(h, page + 1, pageSize).value
      == Tables.Window(h, PageOffset(page, pageSize), 2 * pageSize)
  {
    NextPageOffset(page, pageSize);
    var next: int32 := page + 1;
    var off := PageOffset(page, pageSize);
    assert PageOffset(next, pageSize) == off + pageSize;
    Tables.WindowsTile(h, off, pageSize);
  }

  /** No two different transactions of the account in `rows` share a date. */
  ghost predicate DatesDistinct(rows: map<int, Transaction>, accountId: int)
  {
    forall t, u :: t in rows.Values && u in rows.Values && t != u && t.accountId == accountId && u.accountId == accountId
      ==> t.transactionDate != u.transactionDate
  }

  /** So a sequence of the account's stored transactions without repeats has no
      two elements with the same date. */
  lemma DistinctRowsDistinctDates(rows: map<int, Transaction>, accountId: int, hist: seq<Transaction>)
    requires DatesDistinct(rows, accountId) && Tables.Distinct(hist)
    requires forall t :: t in hist ==> t in rows.Values && t.accountId == accountId
    ensures Tables.DistinctDates(hist, DateOf)
  {
    forall i, j | 0 <= i < j < |hist|
      ensures DateOf(hist[i]) != DateOf(hist[j])
    {
      assert hist[i] in hist && hist[j] in hist;
    }
  }

  /** The transactions table. */
  class TransactionRepository {
    var rows: map<int, Transaction>
    var nextId: int

    ghost predicate Valid()
      reads this
    {
      Keyed(rows, nextId)
    }

    constructor ()
      ensures Valid() && rows == map[] && nextId == 1
    {
      rows := map[];
      nextId := 1;
    }

    /** `GetByIdAsync`: the transaction with that id, or none. */
    function GetById(id: int): (r: Option<Transaction>)
      reads this
      requires Valid()
      ensures r.Some? <==> id in rows
      ensures r.Some? ==> r.value == rows[id] && r.value.transactionId == id
    {
      if id in rows then Some(rows[id]) else None
    }

    /** `GetByReferenceNumberAsync`: a transaction carrying that reference (a NULL
        reference matches nothing), or none. */
    function GetByReferenceNumber(reference: string): (r: Option<Transaction>)
      reads this
      requires Valid()
      ensures r.Some? <==> exists k :: k in rows && rows[k].referenceNumber == Some(reference)
      ensures r.Some? ==> r.value in rows.Values && r.value.referenceNumber == Some(reference)
    {
      match Tables.FirstKey(rows, (t: Transaction) => t.referenceNumber == Some(reference), nextId)
      case None => None
      case Some(k) => Some(rows[k])
    }

    /** `WHERE accountid = @AccountId ORDER BY transactiondate DESC` before paging:
        exactly the account's transactions, each once, newest first. Among equal
        dates the model keeps ascending id order. */
    function History(accountId: int): (r: seq<Transaction>)
      reads this
      requires Valid()
      ensures forall t :: t in r ==> t in rows.Values && t.accountId == accountId
      ensures forall k :: k in rows && rows[k].accountId == accountId ==> rows[k] in r
      ensures Tables.NewestFirst(r, DateOf)
      ensures Tables.Distinct(r)
    {
      assert Tables.Injective(rows);
      Tables.SelectNewestFirst(rows, (t: Transaction) => t.accountId == accountId, nextId, DateOf)
    }

    /** `GetByAccountIdAsync`: page `page` of the account's history, `pageSize` rows
        a page. Postgres refuses a negative LIMIT or OFFSET. */
    function GetByAccountId(accountId: int, page: int32, pageSize: int32): (r: Result<seq<Transaction>, DbError>)
      reads this
      requires Valid()
      ensures r == Page(History(accountId), page, pageSize)
      ensures r.Success? ==> forall t :: t in r.value ==> t in rows.Values && t.accountId == accountId
      ensures r.Success? ==> Tables.NewestFirst(r.value, DateOf)
    {
      var h := History(accountId);
      var r := Page(h, page, pageSize);
      if r.Success? then
        Tables.WindowNewestFirst(h, PageOffset(page, pageSize), pageSize, DateOf);
        r
      else r
    }

    /** No two of the account's transactions share a date. */
    ghost predicate DistinctDates(accountId: int)
      reads this
    {
      DatesDistinct(rows, accountId)
    }

    /** An order in which the database may return `ORDER BY transactiondate DESC`:
        the account's transactions, each once, newest first, ties in any order. */
    ghost predicate DatabaseOrder(accountId: int, h: seq<Transaction>)
      reads this
      requires Valid()
    {
      Tables.NewestFirst(h, DateOf) && multiset(h) == multiset(History(accountId))
    }

    /** When no two of the account's transactions share a date, the order the
        database returns them in is fixed: it is `History`. */
    lemma OnlyOrder(accountId: int, h: seq<Transaction>)
      requires Valid() && DistinctDates(accountId) && DatabaseOrder(accountId, h)
      ensures h == History(accountId)
    {
      var hist := History(accountId);
      DistinctRowsDistinctDates(rows, accountId, hist);
      Tables.NewestFirstUnique(hist, h, DateOf);
    }

    /** Two requests for consecutive pages of an account's history, each free to
        order ties as it likes, laid end to end give the rows of one page twice as
        long: paging neither skips nor repeats a transaction. Ties can be broken
        differently by the two requests, so this holds only when no two of the
        account's transactions share a date. */
    lemma ConsecutivePages(accountId: int, page: int32, pageSize: int32, h1: seq<Transaction>, h2: seq<Transaction>)
      requires Valid() && DistinctDates(accountId)
      requires DatabaseOrder(accountId, h1) && DatabaseOrder(accountId, h2)
      requires 1 <= page < 0x7FFF_FFFF && 0 <= pageSize && page * pageSize < 0x8000_0000
      ensures Page(h1, page, pageSize).Success? && Page(h2, page + 1, pageSize).Success?
      ensures Page(h1, page, pageSize).value + Page(h2, page + 1, pageSize).value
        == Tables.Window(History(accountId), PageOffset(page, pageSize), 2 * pageSize)
      ensures Page(h1, page, pageSize) == GetByAccountId(accountId, page, pageSize)
      ensures Page(h2, page + 1, pageSize) == GetByAccountId(accountId, page + 1, pageSize)
    {
      OnlyOrder(accountId, h1);
      OnlyOrder(accountId, h2);
      PagesTile(History(accountId), page, pageSize);
    }

    /** `GetByDateRangeAsync`: `transactiondate BETWEEN @StartDate AND @EndDate`,
        both ends included, each once, newest first. */
    function GetByDateRange(startDate: Instant, endDate: Instant): (r: seq<Transaction>)
      reads this
      requires Valid()
      ensures forall t :: t in r ==> t in rows.Values && startDate <= t.transactionDate <= endDate
      ensures forall k :: k in rows && startDate <= rows[k].transactionDate <= endDate ==> rows[k] in r
      ensures Tables.NewestFirst(r, DateOf)
      ensures Tables.Distinct(r)
      ensures startDate > endDate ==> r == []
    {
      assert Tables.Injective(rows);
      var r := Tables.SelectNewestFirst(rows, (t: Transaction) => startDate <= t.transactionDate <= endDate, nextId, DateOf);
      assert r != [] ==> r[0] in r;
      r
    }

    /** `CreateAsync`: appends one row under a fresh id; every earlier row stays as it was. */
    method Create(t: Transaction) returns (created: Transaction)
      requires Valid()
      modifies this
      ensures Valid()
      ensures old(nextId) !in old(rows) && created == t.(transactionId := old(nextId))
      ensures rows == old(rows)[old(nextId) := created]
      ensures forall k :: k in old(rows) ==> k in rows && rows[k] == old(rows)[k]
      ensures nextId == old(nextId) + 1
    {
      created := t.(transactionId := nextId);
      rows := rows[nextId := created];
      nextId := nextId + 1;
    }
  }
}
