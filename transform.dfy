/**
 * The `transform` stage: a pure reshaping of the extracted customers,
 * transactions and merchant documents into the star schema's three
 * dimensions and its (still naturally keyed) fact rows.
 */
module Transformer {

  import opened Wrappers
  import opened Calendar
  import opened Tables

  /** `sub` is `s` with some elements left out, the rest in their original order. */
  ghost predicate IsSubsequence<T>(sub: seq<T>, s: seq<T>)
    decreases |s|
  {
    sub == [] || (s != [] && ((sub[0] == s[0] && IsSubsequence(sub[1..], s[1..])) || IsSubsequence(sub, s[1..])))
  }

  ghost predicate NoDuplicates<T>(s: seq<T>) {
    forall i, j :: 0 <= i < j < |s| ==> s[i] != s[j]
  }

  // ---------------------------------------------------------------------
  // Data quality: only transactions with a positive amount survive.

  /** The rows selected by the boolean mask `amount > 0`. */
  function KeepPositive(ts: seq<Transaction>): (r: seq<Transaction>)
    ensures |r| <= |ts|
  {
    if ts == [] then [] else (if ts[0].amount > 0 then [ts[0]] else []) + KeepPositive(ts[1..])
  }

  /** The number of rows whose amount is zero or negative. */
  function CountNonPositive(ts: seq<Transaction>): nat {
    if ts == [] then 0 else (if ts[0].amount <= 0 then 1 else 0) + CountNonPositive(ts[1..])
  }

  /** A row survives the filter exactly when it is an input row with a positive amount. */
  lemma {:induction false} KeepPositiveMembers(ts: seq<Transaction>, t: Transaction)
    ensures t in KeepPositive(ts) <==> t in ts && t.amount > 0
  {
    if ts != [] {
      KeepPositiveMembers(ts[1..], t);
      assert ts == [ts[0]] + ts[1..];
    }
  }

  /** The survivors keep their relative order. */
  lemma {:induction false} KeepPositiveOrder(ts: seq<Transaction>)
    ensures IsSubsequence(KeepPositive(ts), ts)
  {
    if ts != [] {
      KeepPositiveOrder(ts[1..]);
      var r := KeepPositive(ts);
      if ts[0].amount > 0 {
        assert r[0] == ts[0] && r[1..] == KeepPositive(ts[1..]);
      } else {
        assert r == KeepPositive(ts[1..]);
      }
    }
  }

  /** The reported number of removed rows is the number of non-positive amounts. */
  lemma {:induction false} RemovedCount(ts: seq<Transaction>)
    ensures |ts| - |KeepPositive(ts)| == CountNonPositive(ts)
  {
    if ts != [] {
      RemovedCount(ts[1..]);
    }
  }

  // ---------------------------------------------------------------------
  // PII governance and dim_customer.

  /**
   * `dim_customer`: one row per customer row, in the same order, with
   * `last_name` and `email` only as digests.
   */
  function DimCustomer(cs: seq<Customer>, hash: string -> string): (r: seq<DimCustomerRow>)
    ensures |r| == |cs|
  {
    seq(|cs|, i requires 0 <= i < |cs| =>
      DimCustomerRow(cs[i].customerId, cs[i].firstName, hash(cs[i].lastName), hash(cs[i].email)))
  }

  /** Row i keeps customer i's id and first name and carries the digests of its last name and email. */
  lemma DimCustomerRows(cs: seq<Customer>, hash: string -> string, i: int)
    requires 0 <= i < |cs|
    ensures DimCustomer(cs, hash)[i].customerId == cs[i].customerId
    ensures DimCustomer(cs, hash)[i].firstName == cs[i].firstName
    ensures DimCustomer(cs, hash)[i].lastNameHash == hash(cs[i].lastName)
    ensures DimCustomer(cs, hash)[i].emailHash == hash(cs[i].email)
  {
  }

  /** Equal last names (emails) get equal digests, wherever they occur. */
  lemma HashDeterministic(cs: seq<Customer>, hash: string -> string, i: int, j: int)
    requires 0 <= i < |cs| && 0 <= j < |cs|
    ensures cs[i].lastName == cs[j].lastName ==>
      DimCustomer(cs, hash)[i].lastNameHash == DimCustomer(cs, hash)[j].lastNameHash
    ensures cs[i].email == cs[j].email ==>
      DimCustomer(cs, hash)[i].emailHash == DimCustomer(cs, hash)[j].emailHash
  {
  }

  /**
   * The raw PII does not reach the dimension: two customer tables that agree
   * on everything except plaintexts with equal digests give the same table.
   */
  lemma DimCustomerHidesPii(cs1: seq<Customer>, cs2: seq<Customer>, hash: string -> string)
    requires |cs1| == |cs2|
    requires forall i :: 0 <= i < |cs1| ==>
      cs1[i].customerId == cs2[i].customerId && cs1[i].firstName == cs2[i].firstName &&
      hash(cs1[i].lastName) == hash(cs2[i].lastName) && hash(cs1[i].email) == hash(cs2[i].email)
    ensures DimCustomer(cs1, hash) == DimCustomer(cs2, hash)
  {
    assert forall i :: 0 <= i < |cs1| ==> DimCustomer(cs1, hash)[i] == DimCustomer(cs2, hash)[i];
  }

  // ---------------------------------------------------------------------
  // dim_merchant: drop_duplicates on the (merchant_name, category) pair, keeping the first.

  /** Index of the first occurrence of `x` in `s`. */
  function FirstIndex<T(==)>(s: seq<T>, x: T): (k: nat)
    requires x in s
    ensures k < |s| && s[k] == x && x !in s[..k]
  {
    if s[0] == x then 0 else 1 + FirstIndex(s[1..], x)
  }

  lemma {:induction false} FirstIndexAppend<T>(s: seq<T>, y: T, x: T)
    requires x in s + [y]
    ensures FirstIndex(s + [y], x) == if x in s then FirstIndex(s, x) else |s|
    decreases |s|
  {
    if s != [] && s[0] != x {
      assert (s + [y])[1..] == s[1..] + [y];
      FirstIndexAppend(s[1..], y, x);
    }
  }

  /** The rows of `s` with every repeated row after its first occurrence removed. */
  function DropDuplicates(s: seq<Merchant>): (r: seq<Merchant>)
    ensures NoDuplicates(r)
    ensures forall x :: x in r <==> x in s
    decreases |s|
  {
    if s == [] then []
    else
      var init := DropDuplicates(s[..|s| - 1]);
      assert s == s[..|s| - 1] + [s[|s| - 1]];
      if s[|s| - 1] in init then init else init + [s[|s| - 1]]
  }

  /** The kept rows appear in the order of their first occurrences in the input. */
  lemma {:induction false} DropDuplicatesKeepsFirst(s: seq<Merchant>, i: int, j: int)
    requires 0 <= i < j < |DropDuplicates(s)|
    ensures FirstIndex(s, DropDuplicates(s)[i]) < FirstIndex(s, DropDuplicates(s)[j])
    decreases |s|
  {
    var p, y := s[..|s| - 1], s[|s| - 1];
    assert s == p + [y];
    var init, r := DropDuplicates(p), DropDuplicates(s);
    FirstIndexAppend(p, y, r[i]);
    FirstIndexAppend(p, y, r[j]);
    if j < |init| {
      DropDuplicatesKeepsFirst(p, i, j);
    } else {
      assert r[j] == y && r[j] !in p;
      assert r[i] == init[i] && r[i] in p;
    }
  }

  /** Input that is already free of duplicates passes unchanged, so deduplicating twice is deduplicating once. */
  lemma {:induction false} DropDuplicatesOfDistinct(s: seq<Merchant>)
    requires NoDuplicates(s)
    ensures DropDuplicates(s) == s
    decreases |s|
  {
    if s != [] {
      var p := s[..|s| - 1];
      DropDuplicatesOfDistinct(p);
      assert s[|s| - 1] !in p;
      assert s == p + [s[|s| - 1]];
    }
  }

  /** Two documents with the same name but different categories both stay in `dim_merchant`. */
  lemma DedupIsOnThePair()
    ensures var ms := [Merchant("M", "A"), Merchant("M", "B"), Merchant("M", "A")];
            DropDuplicates(ms) == [Merchant("M", "A"), Merchant("M", "B")]
  {
    var ms := [Merchant("M", "A"), Merchant("M", "B"), Merchant("M", "A")];
    assert Merchant("M", "A") != Merchant("M", "B");
    DropDuplicatesOfDistinct(ms[..2]);
    assert ms[..|ms| - 1] == ms[..2] == [Merchant("M", "A"), Merchant("M", "B")];
  }

  // ---------------------------------------------------------------------
  // dim_date: the gap-free calendar from the first to the last day.

  /** The `date_only` column: each transaction's timestamp truncated to its day. */
  function FactDays(ts: seq<Transaction>): (r: seq<int>)
    ensures |r| == |ts|
    ensures forall i :: 0 <= i < |r| ==> r[i] * NanosPerDay <= ts[i].transactionDate < (r[i] + 1) * NanosPerDay
  {
    seq(|ts|, i requires 0 <= i < |ts| => DayOf(ts[i].transactionDate))
  }

  function MinOf(s: seq<int>): (m: int)
    requires |s| > 0
    ensures m in s && forall x :: x in s ==> m <= x
  {
    if |s| == 1 then s[0]
    else
      var rest := MinOf(s[1..]);
      assert s == [s[0]] + s[1..];
      if s[0] <= rest then s[0] else rest
  }

  function MaxOf(s: seq<int>): (m: int)
    requires |s| > 0
    ensures m in s && forall x :: x in s ==> x <= m
  {
    if |s| == 1 then s[0]
    else
      var rest := MaxOf(s[1..]);
      assert s == [s[0]] + s[1..];
      if s[0] >= rest then s[0] else rest
  }

  /** The `dim_date` row of day number `n`: its `full_date` is that day. */
  function DateRow(n: int): (r: DimDateRow)
    ensures ValidDate(r.fullDate) && ToDays(r.fullDate) == n
  {
    var d := FromDays(n);
    var w := Weekday(n);
    DimDateRow(DateKey(d), d, w, DayName(w), d.month, MonthName(d.month), d.year)
  }

  /** Every column of a `dim_date` row agrees with its `full_date`, the day it stands for. */
  lemma DateRowAttributes(n: int)
    ensures var r := DateRow(n);
      && ValidDate(r.fullDate) && ToDays(r.fullDate) == n
      && r.dateKey == r.year * 10000 + r.month * 100 + r.fullDate.day
      && DecodeDateKey(r.dateKey) == r.fullDate
      && r.month == r.fullDate.month && r.year == r.fullDate.year
      && r.dayOfWeek == Weekday(n) && r.dayName == DayName(r.dayOfWeek)
      && 1 <= r.month <= 12 && r.monthName == MonthName(r.month)
  {
    DateKeyRoundTrip(FromDays(n));
  }

  /** `pd.date_range(lo, hi, freq='D')` turned into rows: row i is day `lo + i`. */
  function DateRange(lo: int, hi: int): (r: seq<DimDateRow>)
    requires lo <= hi
    ensures |r| == hi - lo + 1
    ensures forall i :: 0 <= i < |r| ==> ValidDate(r[i].fullDate) && ToDays(r[i].fullDate) == lo + i
  {
    var r := seq(hi - lo + 1, i => DateRow(lo + i));
    assert forall i | 0 <= i < |r| :: ValidDate(r[i].fullDate) && ToDays(r[i].fullDate) == lo + i by {
      forall i | 0 <= i < |r|
        ensures ValidDate(r[i].fullDate) && ToDays(r[i].fullDate) == lo + i
      {
        var row := DateRow(lo + i);
        assert r[i] == row;
      }
    }
    r
  }

  /** Each day of `[lo, hi]` has exactly one row, and no other day has one. */
  lemma DateRangeCoversOnce(lo: int, hi: int, n: int)
    requires lo <= hi
    ensures lo <= n <= hi <==>
      exists i :: 0 <= i < |DateRange(lo, hi)| && ToDays(DateRange(lo, hi)[i].fullDate) == n
    ensures forall i, j ::
      (0 <= i < |DateRange(lo, hi)| && 0 <= j < |DateRange(lo, hi)| &&
       ToDays(DateRange(lo, hi)[i].fullDate) == ToDays(DateRange(lo, hi)[j].fullDate)) ==> i == j
  {
    if lo <= n <= hi {
      assert ToDays(DateRange(lo, hi)[n - lo].fullDate) == n;
    }
  }

  /** Row `i` of the range is the row of day `lo + i`. */
  lemma DateRangeAt(lo: int, hi: int, i: int, n: int)
    requires lo <= hi && 0 <= i <= hi - lo && n == lo + i
    ensures DateRange(lo, hi)[i] == DateRow(n)
  {
  }

  /** The date, weekday and key columns of the row of day `n`. */
  lemma DateRowColumns(n: int)
    ensures DateRow(n).fullDate == FromDays(n)
    ensures DateRow(n).dayOfWeek == Weekday(n)
    ensures DateRow(n).dateKey == DayKey(n)
  {
  }

  /** The rows of consecutive days are consecutive calendar days and consecutive weekdays. */
  lemma DateRowNext(n: int)
    ensures DateRow(n + 1).fullDate == NextDay(DateRow(n).fullDate)
    ensures DateRow(n + 1).dayOfWeek == (DateRow(n).dayOfWeek + 1) % 7
  {
    DateRowColumns(n);
    DateRowColumns(n + 1);
    FromDaysNext(n);
    WeekdayNext(n);
  }

  /** The row of a later day has a larger key. */
  lemma DateRowKeysIncrease(a: int, b: int)
    requires a < b
    ensures DateRow(a).dateKey < DateRow(b).dateKey
  {
    DateRowColumns(a);
    DateRowColumns(b);
    DayKeyIncreasing(a, b);
  }

  /** Consecutive rows are consecutive calendar days and consecutive weekdays. */
  lemma DateRangeConsecutive(lo: int, hi: int, i: int)
    requires lo <= hi && 0 <= i < hi - lo
    ensures DateRange(lo, hi)[i + 1].fullDate == NextDay(DateRange(lo, hi)[i].fullDate)
    ensures DateRange(lo, hi)[i + 1].dayOfWeek == (DateRange(lo, hi)[i].dayOfWeek + 1) % 7
  {
    var n := lo + i;
    DateRangeAt(lo, hi, i, n);
    DateRangeAt(lo, hi, i + 1, n + 1);
    DateRowNext(n);
  }

  /** `date_key` strictly increases down the table. */
  lemma DateRangeKeysIncrease(lo: int, hi: int, i: int, j: int)
    requires lo <= hi && 0 <= i < j <= hi - lo
    ensures DateRange(lo, hi)[i].dateKey < DateRange(lo, hi)[j].dateKey
  {
    var a, b := lo + i, lo + j;
    DateRangeAt(lo, hi, i, a);
    DateRangeAt(lo, hi, j, b);
    DateRowKeysIncrease(a, b);
  }

  // ---------------------------------------------------------------------
  // fact_transactions as transform leaves it.

  /** A surviving transaction with its `date_only` day and the `date_key` derived from that day. */
  function StageFact(t: Transaction): (r: StagedFact)
    ensures r.dateOnly * NanosPerDay <= t.transactionDate < (r.dateOnly + 1) * NanosPerDay
    ensures r.dateKey == DayKey(r.dateOnly)
    ensures r.transactionId == t.transactionId && r.customerId == t.customerId &&
            r.merchantDetails == t.merchantDetails && r.amount == t.amount && r.transactionDate == t.transactionDate
  {
    var day := DayOf(t.transactionDate);
    StagedFact(t.transactionId, t.customerId, t.merchantDetails, t.amount, t.transactionDate, day, DayKey(day))
  }

  function StageFacts(ts: seq<Transaction>): (r: seq<StagedFact>)
    ensures |r| == |ts|
  {
    seq(|ts|, i requires 0 <= i < |ts| => StageFact(ts[i]))
  }

  /** Timestamps inside the same calendar day get the same day and `date_key`: the time of day is irrelevant. */
  lemma SameDaySameKey(t1: Transaction, t2: Transaction, n: int)
    requires n * NanosPerDay <= t1.transactionDate < (n + 1) * NanosPerDay
    requires n * NanosPerDay <= t2.transactionDate < (n + 1) * NanosPerDay
    ensures StageFact(t1).dateOnly == StageFact(t2).dateOnly == n
    ensures StageFact(t1).dateKey == StageFact(t2).dateKey == DayKey(n)
  {
    DayOfWindow(t1.transactionDate, n);
    DayOfWindow(t2.transactionDate, n);
  }

  // ---------------------------------------------------------------------
  // The whole stage.

  /** The stage aborts when no transaction survives: the calendar's range is then undefined. */
  datatype TransformError = EmptyDateRange

  /** The four tables, plus the count of rows the data-quality filter removed. */
  datatype Transformed = Transformed(
    dimCustomer: seq<DimCustomerRow>,
    dimMerchant: seq<Merchant>,
    dimDate: seq<DimDateRow>,
    facts: seq<StagedFact>,
    removed: int)

  function Transform(customers: seq<Customer>, transactions: seq<Transaction>, merchants: seq<Merchant>,
                     hash: string -> string): (r: Result<Transformed, TransformError>)
    ensures r.Err? <==> forall t :: t in transactions ==> t.amount <= 0
  {
    var valid := KeepPositive(transactions);
    var removed := |transactions| - |valid|;
    var dimCustomer := DimCustomer(customers, hash);
    var dimMerchant := DropDuplicates(merchants);
    if valid == [] then
      assert forall t :: t in transactions ==> t.amount <= 0 by {
        forall t | t in transactions ensures t.amount <= 0 { KeepPositiveMembers(transactions, t); }
      }
      Err(EmptyDateRange)
    else
      KeepPositiveMembers(transactions, valid[0]);
      var days := FactDays(valid);
      var dimDate := DateRange(MinOf(days), MaxOf(days));
      Ok(Transformed(dimCustomer, dimMerchant, dimDate, StageFacts(valid), removed))
  }

  /** Staging each row keeps a subsequence a subsequence. */
  lemma {:induction false} StageFactsOrder(a: seq<Transaction>, b: seq<Transaction>)
    requires IsSubsequence(a, b)
    ensures IsSubsequence(StageFacts(a), StageFacts(b))
    decreases |b|
  {
    if a != [] {
      assert StageFacts(b)[1..] == StageFacts(b[1..]);
      if a[0] == b[0] && IsSubsequence(a[1..], b[1..]) {
        StageFactsOrder(a[1..], b[1..]);
        assert StageFacts(a)[1..] == StageFacts(a[1..]);
      } else {
        StageFactsOrder(a, b[1..]);
      }
    }
  }

  /** What a successful stage returns, table by table. */
  lemma TransformOk(customers: seq<Customer>, transactions: seq<Transaction>, merchants: seq<Merchant>,
                    hash: string -> string)
    requires Transform(customers, transactions, merchants, hash).Ok?
    ensures var out := Transform(customers, transactions, merchants, hash).value;
      var valid := KeepPositive(transactions);
      && valid != []
      && out.removed == |transactions| - |valid|
      && out.facts == StageFacts(valid)
      && out.dimDate == DateRange(MinOf(FactDays(valid)), MaxOf(FactDays(valid)))
      && out.dimCustomer == DimCustomer(customers, hash)
      && out.dimMerchant == DropDuplicates(merchants)
  {
  }

  /**
   * Staging the filtered rows keeps every positive transaction, and only
   * those, in their input order.
   */
  lemma StagedFactsArePositive(transactions: seq<Transaction>)
    ensures var facts := StageFacts(KeepPositive(transactions));
      && (forall t :: t in transactions ==> (StageFact(t) in facts <==> t.amount > 0))
      && (forall f :: f in facts ==> f.amount > 0)
      && IsSubsequence(facts, StageFacts(transactions))
  {
    var valid := KeepPositive(transactions);
    var facts := StageFacts(valid);
    KeepPositiveOrder(transactions);
    StageFactsOrder(valid, transactions);
    forall t | t in transactions
      ensures StageFact(t) in facts <==> t.amount > 0
    {
      KeepPositiveMembers(transactions, t);
      if StageFact(t) in facts {
        var i :| 0 <= i < |facts| && facts[i] == StageFact(t);
        assert StageFact(valid[i]) == StageFact(t);
      }
      if t.amount > 0 {
        var i :| 0 <= i < |valid| && valid[i] == t;
        assert facts[i] == StageFact(t);
      }
    }
    forall f | f in facts
      ensures f.amount > 0
    {
      var i :| 0 <= i < |facts| && facts[i] == f;
      KeepPositiveMembers(transactions, valid[i]);
    }
  }

  /**
   * A successful stage reports the number of non-positive rows it removed and
   * stages every positive transaction, and only those, in their input order.
   */
  lemma TransformFilters(customers: seq<Customer>, transactions: seq<Transaction>, merchants: seq<Merchant>,
                         hash: string -> string)
    requires Transform(customers, transactions, merchants, hash).Ok?
    ensures var out := Transform(customers, transactions, merchants, hash).value;
      && out.removed == CountNonPositive(transactions)
      && |out.facts| == |transactions| - out.removed
      && (forall t :: t in transactions ==> (StageFact(t) in out.facts <==> t.amount > 0))
      && (forall f :: f in out.facts ==> f.amount > 0)
      && IsSubsequence(out.facts, StageFacts(transactions))
  {
    TransformOk(customers, transactions, merchants, hash);
    RemovedCount(transactions);
    StagedFactsArePositive(transactions);
  }

  /**
   * The calendar built for a non-empty set of transactions starts on the
   * earliest and ends on the latest fact day, with one row for every day in between.
   */
  lemma CalendarSpansFacts(valid: seq<Transaction>)
    requires valid != []
    ensures var facts := StageFacts(valid);
      var dates := DateRange(MinOf(FactDays(valid)), MaxOf(FactDays(valid)));
      && |dates| > 0
      && (forall i :: 0 <= i < |dates| ==>
            ValidDate(dates[i].fullDate) && ToDays(dates[i].fullDate) == ToDays(dates[0].fullDate) + i)
      && (forall f :: f in facts ==> ToDays(dates[0].fullDate) <= f.dateOnly <= ToDays(dates[|dates| - 1].fullDate))
      && (exists f :: f in facts && f.dateOnly == ToDays(dates[0].fullDate))
      && (exists f :: f in facts && f.dateOnly == ToDays(dates[|dates| - 1].fullDate))
  {
    var facts, days := StageFacts(valid), FactDays(valid);
    var lo, hi := MinOf(days), MaxOf(days);
    var dates := DateRange(lo, hi);
    forall f | f in facts
      ensures lo <= f.dateOnly <= hi
    {
      var i :| 0 <= i < |facts| && facts[i] == f;
      assert facts[i] == StageFact(valid[i]) && days[i] == DayOf(valid[i].transactionDate);
      assert days[i] in days;
    }
    var i :| 0 <= i < |days| && days[i] == lo;
    assert facts[i].dateOnly == lo;
    var j :| 0 <= j < |days| && days[j] == hi;
    assert facts[j].dateOnly == hi;
  }

  /** A successful stage's calendar covers its facts' days exactly, without gaps. */
  lemma TransformCalendar(customers: seq<Customer>, transactions: seq<Transaction>, merchants: seq<Merchant>,
                          hash: string -> string)
    requires Transform(customers, transactions, merchants, hash).Ok?
    ensures var out := Transform(customers, transactions, merchants, hash).value;
      && |out.dimDate| > 0
      && (forall i :: 0 <= i < |out.dimDate| ==>
            ValidDate(out.dimDate[i].fullDate) &&
            ToDays(out.dimDate[i].fullDate) == ToDays(out.dimDate[0].fullDate) + i)
      && (forall f :: f in out.facts ==>
            ToDays(out.dimDate[0].fullDate) <= f.dateOnly <= ToDays(out.dimDate[|out.dimDate| - 1].fullDate))
      && (exists f :: f in out.facts && f.dateOnly == ToDays(out.dimDate[0].fullDate))
      && (exists f :: f in out.facts && f.dateOnly == ToDays(out.dimDate[|out.dimDate| - 1].fullDate))
  {
    TransformOk(customers, transactions, merchants, hash);
    CalendarSpansFacts(KeepPositive(transactions));
  }

  /** The calendar row of a day inside the range carries that day's key. */
  lemma DateRangeRowOf(lo: int, hi: int, n: int)
    requires lo <= n <= hi
    ensures var dates := DateRange(lo, hi);
      0 <= n - lo < |dates| && dates[n - lo].dateKey == DayKey(n) && ToDays(dates[n - lo].fullDate) == n
  {
    DateRangeAt(lo, hi, n - lo, n);
    DateRowColumns(n);
  }

  /** Each staged fact's `date_key` is the key of the calendar row of its own day. */
  lemma FactDatesInCalendar(valid: seq<Transaction>)
    requires valid != []
    ensures var dates := DateRange(MinOf(FactDays(valid)), MaxOf(FactDays(valid)));
      forall f :: f in StageFacts(valid) ==> exists i :: (0 <= i < |dates| &&
        dates[i].dateKey == f.dateKey && ToDays(dates[i].fullDate) == f.dateOnly)
  {
    var facts, lo, hi := StageFacts(valid), MinOf(FactDays(valid)), MaxOf(FactDays(valid));
    var dates := DateRange(lo, hi);
    CalendarSpansFacts(valid);
    forall f | f in facts
      ensures exists i :: (0 <= i < |dates| && dates[i].dateKey == f.dateKey && ToDays(dates[i].fullDate) == f.dateOnly)
    {
      var k :| 0 <= k < |facts| && facts[k] == f;
      assert f == StageFact(valid[k]);
      DateRangeRowOf(lo, hi, f.dateOnly);
    }
  }

  /** Every fact of a successful stage references a `dim_date` row: the fact-to-date reference is closed. */
  lemma TransformFactDatesClosed(customers: seq<Customer>, transactions: seq<Transaction>, merchants: seq<Merchant>,
                                 hash: string -> string)
    requires Transform(customers, transactions, merchants, hash).Ok?
    ensures var out := Transform(customers, transactions, merchants, hash).value;
      forall f :: f in out.facts ==> exists i :: (0 <= i < |out.dimDate| &&
        out.dimDate[i].dateKey == f.dateKey && ToDays(out.dimDate[i].fullDate) == f.dateOnly)
  {
    TransformOk(customers, transactions, merchants, hash);
    FactDatesInCalendar(KeepPositive(transactions));
  }
}
