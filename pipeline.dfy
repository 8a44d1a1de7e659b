/**
 * Properties of the stages run one after another: what `transform` hands to
 * `load` and what `extract` hands to `transform`.
 */
module Pipeline {

  import opened Calendar
  import opened Tables
  import opened Transformer
  import opened Loader
  import opened Extractor

  /**
   * Every loaded fact row references existing dimension rows: its `date_key`
   * is that of a `dim_date` row, its surrogate keys are taken from the two
   * lookups, and it stems from a positive transaction.
   */
  lemma LoadedFactsReferenceDimensions(customers: seq<Customer>, transactions: seq<Transaction>,
                                       merchants: seq<Merchant>, hash: string -> string,
                                       customerKeys: seq<CustomerKeyRow>, merchantKeys: seq<MerchantKeyRow>,
                                       o: FactTransaction)
    requires Transform(customers, transactions, merchants, hash).Ok?
    requires o in ResolveKeys(Transform(customers, transactions, merchants, hash).value.facts, customerKeys, merchantKeys)
    ensures exists i :: (0 <= i < |Transform(customers, transactions, merchants, hash).value.dimDate| &&
      Transform(customers, transactions, merchants, hash).value.dimDate[i].dateKey == o.dateKey)
    ensures exists k :: k in customerKeys && k.customerKey == o.customerKey
    ensures exists k :: k in merchantKeys && k.merchantKey == o.merchantKey
    ensures o.amount > 0
  {
    var out := Transform(customers, transactions, merchants, hash).value;
    ResolveKeysSound(out.facts, customerKeys, merchantKeys, o);
    var f: StagedFact :| f in out.facts && CustomerKeyRow(o.customerKey, f.customerId) in customerKeys &&
      MerchantKeyRow(o.merchantKey, f.merchantDetails) in merchantKeys &&
      o == FactTransaction(f.transactionId, o.customerKey, o.merchantKey, f.dateKey, f.amount);
    TransformFactDatesClosed(customers, transactions, merchants, hash);
    TransformFilters(customers, transactions, merchants, hash);
  }

  /** The reference merchants are distinct pairs with distinct names, so `dim_merchant` keeps all three. */
  lemma SeedMerchantsDimension()
    ensures DropDuplicates(SeedMerchants) == SeedMerchants
    ensures forall i, j :: 0 <= i < j < |SeedMerchants| ==> SeedMerchants[i].merchantName != SeedMerchants[j].merchantName
  {
    assert SeedMerchants[0].merchantName[0] == 'G';
    assert SeedMerchants[1].merchantName[4] == 'D';
    assert SeedMerchants[2].merchantName[0] == 'T' && SeedMerchants[2].merchantName[1] == 'e';
    DropDuplicatesOfDistinct(SeedMerchants);
  }

  const Hour: int := 3_600_000_000_000

  /** Three customers of the seeded merchants. */
  const ScenarioCustomers := [Customer(1, "Ada", "Lovelace", "ada@example.com"),
                              Customer(2, "Alan", "Turing", "alan@example.com"),
                              Customer(3, "Grace", "Hopper", "grace@example.com")]

  /** Five transactions: the second has a negative amount, the others fall on days 0, 1, 3 and 3. */
  const ScenarioTransactions := [Transaction(1, 1, "GreenLeaf Grocers", 2500, 10 * Hour),
                                 Transaction(2, 2, "The Daily Grind Coffee", -500, 11 * Hour),
                                 Transaction(3, 2, "The Daily Grind Coffee", 1200, NanosPerDay + 5 * Hour),
                                 Transaction(4, 3, "TechSphere Electronics", 99900, 3 * NanosPerDay + Hour),
                                 Transaction(5, 1, "GreenLeaf Grocers", 450, 3 * NanosPerDay + 20 * Hour)]

  /** One step of the filter: the first row is kept or counted, then the rest is filtered. */
  lemma FilterStep(t: Transaction, rest: seq<Transaction>)
    ensures KeepPositive([t] + rest) == (if t.amount > 0 then [t] else []) + KeepPositive(rest)
    ensures CountNonPositive([t] + rest) == (if t.amount <= 0 then 1 else 0) + CountNonPositive(rest)
  {
    assert ([t] + rest)[1..] == rest;
  }

  /** Filtering five rows of which only the second is not positive drops just that row. */
  lemma FilterDropsSecond(t0: Transaction, t1: Transaction, t2: Transaction, t3: Transaction, t4: Transaction)
    requires t0.amount > 0 && t1.amount <= 0 && t2.amount > 0 && t3.amount > 0 && t4.amount > 0
    ensures KeepPositive([t0, t1, t2, t3, t4]) == [t0, t2, t3, t4]
    ensures CountNonPositive([t0, t1, t2, t3, t4]) == 1
  {
    var s4: seq<Transaction> := [];
    var s3 := [t4] + s4;
    var s2 := [t3] + s3;
    var s1 := [t2] + s2;
    var s0 := [t1] + s1;
    FilterStep(t4, s4);
    FilterStep(t3, s3);
    FilterStep(t2, s2);
    FilterStep(t1, s1);
    FilterStep(t0, s0);
    assert [t0] + s0 == [t0, t1, t2, t3, t4];
  }

  lemma ScenarioFilter()
    ensures var ts := ScenarioTransactions;
      KeepPositive(ts) == [ts[0], ts[2], ts[3], ts[4]] && CountNonPositive(ts) == 1
  {
    var ts := ScenarioTransactions;
    assert ts == [ts[0], ts[1], ts[2], ts[3], ts[4]];
    FilterDropsSecond(ts[0], ts[1], ts[2], ts[3], ts[4]);
  }

  lemma ScenarioDays()
    ensures var ts := ScenarioTransactions;
      FactDays([ts[0], ts[2], ts[3], ts[4]]) == [0, 1, 3, 3]
  {
    var ts := ScenarioTransactions;
    DayOfWindow(ts[0].transactionDate, 0);
    DayOfWindow(ts[2].transactionDate, 1);
    DayOfWindow(ts[3].transactionDate, 3);
    DayOfWindow(ts[4].transactionDate, 3);
  }

  /** The warehouse's surrogate keys for the three customers. */
  const ScenarioCustomerKeys := [CustomerKeyRow(101, 1), CustomerKeyRow(102, 2), CustomerKeyRow(103, 3)]

  /** The warehouse's surrogate keys for the three reference merchants. */
  const ScenarioMerchantKeys := [MerchantKeyRow(1, "GreenLeaf Grocers"), MerchantKeyRow(2, "The Daily Grind Coffee"),
                                 MerchantKeyRow(3, "TechSphere Electronics")]

  /** The names of the three reference merchants. */
  const ScenarioMerchantNames: set<string> := {"GreenLeaf Grocers", "The Daily Grind Coffee", "TechSphere Electronics"}

  /** Each lookup names every customer and merchant once. */
  lemma ScenarioLookupsUnique()
    ensures UniqueCustomerIds(ScenarioCustomerKeys) && UniqueMerchantNames(ScenarioMerchantKeys)
  {
    var mks := ScenarioMerchantKeys;
    assert mks[0].merchantName[0] == 'G' && mks[1].merchantName[4] == 'D';
    assert mks[2].merchantName[0] == 'T' && mks[2].merchantName[1] == 'e';
  }

  /** Facts naming one of the three customers and one of the three reference merchants all resolve, one row each. */
  lemma ScenarioKeysResolve(facts: seq<StagedFact>)
    requires forall f :: f in facts ==> 1 <= f.customerId <= 3
    requires forall f :: f in facts ==> f.merchantDetails in ScenarioMerchantNames
    ensures |ResolveKeys(facts, ScenarioCustomerKeys, ScenarioMerchantKeys)| == |facts|
  {
    var cks, mks := ScenarioCustomerKeys, ScenarioMerchantKeys;
    ScenarioLookupsUnique();
    forall f | f in facts
      ensures exists k :: k in cks && k.customerId == f.customerId
      ensures exists k :: k in mks && k.merchantName == f.merchantDetails
    {
      assert cks[f.customerId - 1] in cks;
      if f.merchantDetails == mks[0].merchantName {
        assert mks[0] in mks;
      } else if f.merchantDetails == mks[1].merchantName {
        assert mks[1] in mks;
      } else {
        assert mks[2] in mks;
      }
    }
    ResolveKeysCount(facts, cks, mks);
  }

  /** The four staged facts of the scenario all resolve, so all four are loaded. */
  lemma ScenarioFactsLoad()
    ensures var ts := ScenarioTransactions;
      |ResolveKeys(StageFacts([ts[0], ts[2], ts[3], ts[4]]), ScenarioCustomerKeys, ScenarioMerchantKeys)| == 4
  {
    var ts := ScenarioTransactions;
    var valid := [ts[0], ts[2], ts[3], ts[4]];
    var facts := StageFacts(valid);
    forall f | f in facts
      ensures 1 <= f.customerId <= 3 && f.merchantDetails in ScenarioMerchantNames
    {
      var i :| 0 <= i < |facts| && facts[i] == f;
      var t := valid[i];
      assert f.customerId == t.customerId && f.merchantDetails == t.merchantDetails;
    }
    ScenarioKeysResolve(facts);
  }

  /**
   * End to end on the seeded merchants: one row is reported removed, four
   * facts remain and are all loaded, and the calendar has four rows, one of
   * them for day 2, on which nothing happened.
   */
  lemma GapDayScenario(hash: string -> string)
    ensures var r := Transform(ScenarioCustomers, ScenarioTransactions, SeedMerchants, hash);
      && r.Ok?
      && r.value.removed == 1
      && |r.value.facts| == 4
      && |r.value.dimDate| == 4
      && ToDays(r.value.dimDate[2].fullDate) == 2
      && |ResolveKeys(r.value.facts, ScenarioCustomerKeys, ScenarioMerchantKeys)| == 4
  {
    var ts := ScenarioTransactions;
    ScenarioFilter();
    ScenarioDays();
    RemovedCount(ts);
    assert ts[0] in ts && ts[0].amount > 0;
    var r := Transform(ScenarioCustomers, ts, SeedMerchants, hash);
    TransformOk(ScenarioCustomers, ts, SeedMerchants, hash);
    var days: seq<int> := [0, 1, 3, 3];
    assert MinOf(days) == 0 by { assert MinOf(days) in days; }
    assert MaxOf(days) == 3 by { assert MaxOf(days) in days; }
    ScenarioFactsLoad();
  }
}
