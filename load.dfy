/**
 * Surrogate-key resolution in `load`: the staged facts are inner-joined with
 * the `(customer_key, customer_id)` and `(merchant_key, merchant_name)`
 * lookups read back from the committed dimensions, and the five fact columns
 * are selected.
 */
module Loader {

  import opened Tables

  /** A staged fact with the `customer_key` the first merge attached. */
  datatype WithCustomer = WithCustomer(fact: StagedFact, customerKey: int)

  /** A staged fact with both surrogate keys attached. */
  datatype WithKeys = WithKeys(fact: StagedFact, customerKey: int, merchantKey: int)

  // ---------------------------------------------------------------------
  // merge(customer_keys, on='customer_id')

  /** One joined row per lookup row whose `customer_id` is the fact's, in lookup order. */
  function CustomerMatches(f: StagedFact, keys: seq<CustomerKeyRow>): (r: seq<WithCustomer>)
    ensures |r| <= |keys|
    ensures forall w :: w in r ==> w.fact == f && CustomerKeyRow(w.customerKey, f.customerId) in keys
  {
    if keys == [] then []
    else (if keys[0].customerId == f.customerId then [WithCustomer(f, keys[0].customerKey)] else [])
         + CustomerMatches(f, keys[1..])
  }

  /** The inner merge on `customer_id`, in the order of the fact rows. */
  function MergeCustomers(facts: seq<StagedFact>, keys: seq<CustomerKeyRow>): (r: seq<WithCustomer>)
    ensures forall w :: w in r ==> w.fact in facts && CustomerKeyRow(w.customerKey, w.fact.customerId) in keys
  {
    if facts == [] then [] else CustomerMatches(facts[0], keys) + MergeCustomers(facts[1..], keys)
  }

  lemma {:induction false} CustomerMatchesMembers(f: StagedFact, keys: seq<CustomerKeyRow>, w: WithCustomer)
    ensures w in CustomerMatches(f, keys) <==> w.fact == f && CustomerKeyRow(w.customerKey, f.customerId) in keys
  {
    if keys != [] {
      CustomerMatchesMembers(f, keys[1..], w);
      assert keys == [keys[0]] + keys[1..];
    }
  }

  /** A joined row exists exactly for a fact and a lookup row with the same `customer_id`. */
  lemma {:induction false} MergeCustomersMembers(facts: seq<StagedFact>, keys: seq<CustomerKeyRow>, w: WithCustomer)
    ensures w in MergeCustomers(facts, keys) <==>
      w.fact in facts && CustomerKeyRow(w.customerKey, w.fact.customerId) in keys
  {
    if facts != [] {
      CustomerMatchesMembers(facts[0], keys, w);
      MergeCustomersMembers(facts[1..], keys, w);
      assert facts == [facts[0]] + facts[1..];
    }
  }

  // ---------------------------------------------------------------------
  // merge(merchant_keys, on='merchant_name'), after merchant_details is renamed merchant_name.

  function MerchantMatches(w: WithCustomer, keys: seq<MerchantKeyRow>): (r: seq<WithKeys>)
    ensures |r| <= |keys|
    ensures forall x :: x in r ==> (x.fact == w.fact && x.customerKey == w.customerKey &&
      MerchantKeyRow(x.merchantKey, w.fact.merchantDetails) in keys)
  {
    if keys == [] then []
    else (if keys[0].merchantName == w.fact.merchantDetails
          then [WithKeys(w.fact, w.customerKey, keys[0].merchantKey)] else [])
         + MerchantMatches(w, keys[1..])
  }

  function MergeMerchants(rows: seq<WithCustomer>, keys: seq<MerchantKeyRow>): (r: seq<WithKeys>)
    ensures forall x :: x in r ==> (WithCustomer(x.fact, x.customerKey) in rows &&
      MerchantKeyRow(x.merchantKey, x.fact.merchantDetails) in keys)
  {
    if rows == [] then [] else MerchantMatches(rows[0], keys) + MergeMerchants(rows[1..], keys)
  }

  lemma {:induction false} MerchantMatchesMembers(w: WithCustomer, keys: seq<MerchantKeyRow>, x: WithKeys)
    ensures x in MerchantMatches(w, keys) <==>
      x.fact == w.fact && x.customerKey == w.customerKey &&
      MerchantKeyRow(x.merchantKey, w.fact.merchantDetails) in keys
  {
    if keys != [] {
      MerchantMatchesMembers(w, keys[1..], x);
      assert keys == [keys[0]] + keys[1..];
    }
  }

  /** A joined row exists exactly for a row and a lookup row with the same merchant name. */
  lemma {:induction false} MergeMerchantsMembers(rows: seq<WithCustomer>, keys: seq<MerchantKeyRow>, x: WithKeys)
    ensures x in MergeMerchants(rows, keys) <==>
      WithCustomer(x.fact, x.customerKey) in rows && MerchantKeyRow(x.merchantKey, x.fact.merchantDetails) in keys
  {
    if rows != [] {
      MerchantMatchesMembers(rows[0], keys, x);
      MergeMerchantsMembers(rows[1..], keys, x);
      assert rows == [rows[0]] + rows[1..];
    }
  }

  // ---------------------------------------------------------------------
  // The final column selection and the whole resolution.

  /** `final_fact_df`: the two inner merges followed by the five-column selection. */
  function ResolveKeys(facts: seq<StagedFact>, customerKeys: seq<CustomerKeyRow>,
                       merchantKeys: seq<MerchantKeyRow>): (r: seq<FactTransaction>)
    ensures |r| == |MergeMerchants(MergeCustomers(facts, customerKeys), merchantKeys)|
  {
    var joined := MergeMerchants(MergeCustomers(facts, customerKeys), merchantKeys);
    seq(|joined|, i requires 0 <= i < |joined| =>
      FactTransaction(joined[i].fact.transactionId, joined[i].customerKey, joined[i].merchantKey,
                      joined[i].fact.dateKey, joined[i].fact.amount))
  }

  /**
   * An output row is exactly a fact whose `customer_id` and merchant name both
   * occur in the lookups, carrying the surrogate keys of those lookup rows.
   */
  lemma ResolveKeysMembers(facts: seq<StagedFact>, customerKeys: seq<CustomerKeyRow>,
                           merchantKeys: seq<MerchantKeyRow>, f: StagedFact, ck: int, mk: int)
    ensures FactTransaction(f.transactionId, ck, mk, f.dateKey, f.amount) in ResolveKeys(facts, customerKeys, merchantKeys)
      <== f in facts && CustomerKeyRow(ck, f.customerId) in customerKeys &&
          MerchantKeyRow(mk, f.merchantDetails) in merchantKeys
  {
    if f in facts && CustomerKeyRow(ck, f.customerId) in customerKeys && MerchantKeyRow(mk, f.merchantDetails) in merchantKeys {
      var rows := MergeCustomers(facts, customerKeys);
      var joined := MergeMerchants(rows, merchantKeys);
      MergeCustomersMembers(facts, customerKeys, WithCustomer(f, ck));
      MergeMerchantsMembers(rows, merchantKeys, WithKeys(f, ck, mk));
      var i :| 0 <= i < |joined| && joined[i] == WithKeys(f, ck, mk);
      assert ResolveKeys(facts, customerKeys, merchantKeys)[i] == FactTransaction(f.transactionId, ck, mk, f.dateKey, f.amount);
    }
  }

  /** Every output row comes from a fact whose keys resolve, with the matched surrogate keys. */
  lemma ResolveKeysSound(facts: seq<StagedFact>, customerKeys: seq<CustomerKeyRow>,
                         merchantKeys: seq<MerchantKeyRow>, o: FactTransaction)
    requires o in ResolveKeys(facts, customerKeys, merchantKeys)
    ensures exists f :: (f in facts && CustomerKeyRow(o.customerKey, f.customerId) in customerKeys &&
      MerchantKeyRow(o.merchantKey, f.merchantDetails) in merchantKeys &&
      o == FactTransaction(f.transactionId, o.customerKey, o.merchantKey, f.dateKey, f.amount))
  {
    var rows := MergeCustomers(facts, customerKeys);
    var joined := MergeMerchants(rows, merchantKeys);
    var i :| 0 <= i < |joined| && ResolveKeys(facts, customerKeys, merchantKeys)[i] == o;
    assert o == FactTransaction(joined[i].fact.transactionId, joined[i].customerKey, joined[i].merchantKey,
                                joined[i].fact.dateKey, joined[i].fact.amount);
    MergeMerchantsMembers(rows, merchantKeys, joined[i]);
    MergeCustomersMembers(facts, customerKeys, WithCustomer(joined[i].fact, joined[i].customerKey));
  }

  // ---------------------------------------------------------------------
  // Row counts.

  ghost predicate UniqueCustomerIds(keys: seq<CustomerKeyRow>) {
    forall i, j :: 0 <= i < j < |keys| ==> keys[i].customerId != keys[j].customerId
  }

  ghost predicate UniqueMerchantNames(keys: seq<MerchantKeyRow>) {
    forall i, j :: 0 <= i < j < |keys| ==> keys[i].merchantName != keys[j].merchantName
  }

  /** With unique `customer_id`s a fact matches one lookup row if its id occurs and none otherwise. */
  lemma {:induction false} CustomerMatchesCount(f: StagedFact, keys: seq<CustomerKeyRow>)
    requires UniqueCustomerIds(keys)
    ensures |CustomerMatches(f, keys)| == if exists k :: k in keys && k.customerId == f.customerId then 1 else 0
  {
    if keys != [] {
      CustomerMatchesCount(f, keys[1..]);
      assert keys == [keys[0]] + keys[1..];
      if keys[0].customerId == f.customerId {
        assert forall k :: k in keys[1..] ==> k.customerId != f.customerId;
      }
    }
  }

  lemma {:induction false} MerchantMatchesCount(w: WithCustomer, keys: seq<MerchantKeyRow>)
    requires UniqueMerchantNames(keys)
    ensures |MerchantMatches(w, keys)| == if exists k :: k in keys && k.merchantName == w.fact.merchantDetails then 1 else 0
  {
    if keys != [] {
      MerchantMatchesCount(w, keys[1..]);
      assert keys == [keys[0]] + keys[1..];
      if keys[0].merchantName == w.fact.merchantDetails {
        assert forall k :: k in keys[1..] ==> k.merchantName != w.fact.merchantDetails;
      }
    }
  }

  lemma {:induction false} MergeCustomersCount(facts: seq<StagedFact>, keys: seq<CustomerKeyRow>)
    requires UniqueCustomerIds(keys)
    ensures |MergeCustomers(facts, keys)| <= |facts|
    ensures (forall f :: f in facts ==> exists k :: k in keys && k.customerId == f.customerId) ==>
      |MergeCustomers(facts, keys)| == |facts|
  {
    if facts != [] {
      CustomerMatchesCount(facts[0], keys);
      MergeCustomersCount(facts[1..], keys);
      assert |MergeCustomers(facts, keys)| == |CustomerMatches(facts[0], keys)| + |MergeCustomers(facts[1..], keys)|;
      if forall f :: f in facts ==> exists k :: k in keys && k.customerId == f.customerId {
        assert facts[0] in facts;
        assert forall f :: f in facts[1..] ==> f in facts;
      }
    }
  }

  lemma {:induction false} MergeMerchantsCount(rows: seq<WithCustomer>, keys: seq<MerchantKeyRow>)
    requires UniqueMerchantNames(keys)
    ensures |MergeMerchants(rows, keys)| <= |rows|
    ensures (forall w :: w in rows ==> exists k :: k in keys && k.merchantName == w.fact.merchantDetails) ==>
      |MergeMerchants(rows, keys)| == |rows|
  {
    if rows != [] {
      MerchantMatchesCount(rows[0], keys);
      MergeMerchantsCount(rows[1..], keys);
      assert |MergeMerchants(rows, keys)| == |MerchantMatches(rows[0], keys)| + |MergeMerchants(rows[1..], keys)|;
      if forall w :: w in rows ==> exists k :: k in keys && k.merchantName == w.fact.merchantDetails {
        assert rows[0] in rows;
        assert forall w :: w in rows[1..] ==> w in rows;
      }
    }
  }

  /**
   * With unique natural keys in both lookups the output never has more rows
   * than the staged facts, and exactly as many when every fact resolves.
   */
  lemma ResolveKeysCount(facts: seq<StagedFact>, customerKeys: seq<CustomerKeyRow>, merchantKeys: seq<MerchantKeyRow>)
    requires UniqueCustomerIds(customerKeys) && UniqueMerchantNames(merchantKeys)
    ensures |ResolveKeys(facts, customerKeys, merchantKeys)| <= |facts|
    ensures (forall f :: f in facts ==>
               (exists k :: k in customerKeys && k.customerId == f.customerId) &&
               (exists k :: k in merchantKeys && k.merchantName == f.merchantDetails)) ==>
      |ResolveKeys(facts, customerKeys, merchantKeys)| == |facts|
  {
    var rows := MergeCustomers(facts, customerKeys);
    MergeCustomersCount(facts, customerKeys);
    MergeMerchantsCount(rows, merchantKeys);
    forall w | w in rows
      ensures w.fact in facts
    {
      MergeCustomersMembers(facts, customerKeys, w);
    }
  }

  /** A merchant name that occurs twice in the lookup makes each of its facts load twice. */
  lemma RepeatedMerchantNameDuplicatesFacts(f: StagedFact, ck: int, mk1: int, mk2: int)
    ensures |ResolveKeys([f], [CustomerKeyRow(ck, f.customerId)],
                         [MerchantKeyRow(mk1, f.merchantDetails), MerchantKeyRow(mk2, f.merchantDetails)])| == 2
  {
    var keys := [MerchantKeyRow(mk1, f.merchantDetails), MerchantKeyRow(mk2, f.merchantDetails)];
    var cks := [CustomerKeyRow(ck, f.customerId)];
    assert [f][1..] == [] && cks[1..] == [];
    assert CustomerMatches(f, cks) == [WithCustomer(f, ck)];
    assert MergeCustomers([f], cks) == [WithCustomer(f, ck)];
    var rows := [WithCustomer(f, ck)];
    assert rows[1..] == [] && keys[1..][1..] == [];
    assert MerchantMatches(rows[0], keys[1..][1..]) == [];
    assert |MerchantMatches(rows[0], keys[1..])| == 1;
    assert |MerchantMatches(rows[0], keys)| == 2;
    assert |MergeMerchants(rows, keys)| == 2;
  }
}
