/**
 * The merchant side of `extract`: the document collection is seeded with a
 * fixed set of reference merchants only when it holds no documents, and is
 * then read back in full.
 */
module Extractor {

  import opened Tables

  /** The reference merchants inserted into an empty collection. */
  const SeedMerchants: seq<Merchant> := [
    Merchant("GreenLeaf Grocers", "Groceries"),
    Merchant("The Daily Grind Coffee", "Food & Beverage"),
    Merchant("TechSphere Electronics", "Electronics")
  ]

  /** The documents a collection holds after the seeding rule ran on `docs`. */
  function Seeded(docs: seq<Merchant>): (r: seq<Merchant>)
    ensures r != []
    ensures docs == [] ==> r == SeedMerchants
    ensures docs != [] ==> r == docs
  {
    if |docs| == 0 then SeedMerchants else docs
  }

  /** Seeding is idempotent: a collection seeded once is never seeded again. */
  lemma SeededIdempotent(docs: seq<Merchant>)
    ensures Seeded(Seeded(docs)) == Seeded(docs)
  {
  }

  /** The merchant document collection. */
  class MerchantCollection {
    var documents: seq<Merchant>

    constructor (docs: seq<Merchant>)
      ensures documents == docs
    {
      documents := docs;
    }

    /** `count_documents({})`. */
    method CountDocuments() returns (n: nat)
      ensures n == |documents|
    {
      n := |documents|;
    }

    /** `insert_many(docs)`: appends the documents in order. */
    method InsertMany(docs: seq<Merchant>)
      modifies this
      ensures documents == old(documents) + docs
    {
      documents := documents + docs;
    }

    /** `find({}, {'_id': 0})`: every document, in collection order. */
    method Find() returns (r: seq<Merchant>)
      ensures r == documents
    {
      r := documents;
    }
  }

  /**
   * Seeds the collection if it is empty and reads it back: an empty
   * collection gains exactly the reference merchants, a non-empty one is left
   * and returned unchanged.
   */
  method ExtractMerchants(c: MerchantCollection) returns (merchants: seq<Merchant>)
    modifies c
    ensures c.documents == Seeded(old(c.documents))
    ensures old(c.documents) != [] ==> c.documents == old(c.documents)
    ensures merchants == c.documents
  {
    var n := c.CountDocuments();
    if n == 0 {
      c.InsertMany(SeedMerchants);
    }
    merchants := c.Find();
  }
}
