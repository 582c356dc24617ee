/** The transform stage's reference maps and the item it builds for each
    order. Lookups that fail fall back to fixed defaults; the item carries
    exactly five attributes and nothing else of the order. */
module Enrichment {
  import opened Types
  import LastWins
  import Validation

  const UnknownRecordId: string := "unknown"
  const UnknownName: string := "Unknown"
  const DefaultPrice: string := "0.00"
  const ProcessedStatus: string := "processed"

  /** `(c["customer_id"], c["name"])` for each customer, in order: the keys
      written are exactly the customers' ids. */
  function CustomerEntries(customers: seq<Record>): (entries: seq<(string, string)>)
    requires forall i :: 0 <= i < |customers| ==> CustomerIdField in customers[i] && NameField in customers[i]
    ensures |entries| == |customers|
    ensures forall i :: 0 <= i < |customers| ==>
      entries[i] == (customers[i][CustomerIdField], customers[i][NameField])
    ensures LastWins.KeysOf(entries) == set i | 0 <= i < |customers| :: customers[i][CustomerIdField]
  {
    var entries := seq(|customers|, i requires 0 <= i < |customers| =>
      (customers[i][CustomerIdField], customers[i][NameField]));
    assert LastWins.KeysOf(entries) == set i | 0 <= i < |customers| :: customers[i][CustomerIdField] by {
      forall k | k in LastWins.KeysOf(entries)
        ensures exists i :: 0 <= i < |customers| && customers[i][CustomerIdField] == k
      {
        var i :| 0 <= i < |entries| && entries[i].0 == k;
        assert customers[i][CustomerIdField] == k;
      }
      forall i | 0 <= i < |customers| ensures customers[i][CustomerIdField] in LastWins.KeysOf(entries) {
        assert entries[i].0 == customers[i][CustomerIdField];
      }
    }
    entries
  }

  /** `(r["product_id"], r)` for each catalog row, in order: the keys written
      are exactly the rows' product ids. */
  function CatalogEntries(rows: seq<Record>): (entries: seq<(string, Record)>)
    requires forall i :: 0 <= i < |rows| ==> ProductIdField in rows[i]
    ensures |entries| == |rows|
    ensures forall i :: 0 <= i < |rows| ==> entries[i] == (rows[i][ProductIdField], rows[i])
    ensures LastWins.KeysOf(entries) == set i | 0 <= i < |rows| :: rows[i][ProductIdField]
  {
    var entries := seq(|rows|, i requires 0 <= i < |rows| => (rows[i][ProductIdField], rows[i]));
    assert LastWins.KeysOf(entries) == set i | 0 <= i < |rows| :: rows[i][ProductIdField] by {
      forall k | k in LastWins.KeysOf(entries)
        ensures exists i :: 0 <= i < |rows| && rows[i][ProductIdField] == k
      {
        var i :| 0 <= i < |entries| && entries[i].0 == k;
        assert rows[i][ProductIdField] == k;
      }
      forall i | 0 <= i < |rows| ensures rows[i][ProductIdField] in LastWins.KeysOf(entries) {
        assert entries[i].0 == rows[i][ProductIdField];
      }
    }
    entries
  }

  /** `{c["customer_id"]: c["name"] for c in customers}`; `None` when a
      customer lacks either field. */
  function CustomerMap(customers: seq<Record>): (names: Option<map<string, string>>)
    ensures names.Some? <==>
      forall i :: 0 <= i < |customers| ==> CustomerIdField in customers[i] && NameField in customers[i]
  {
    if forall i :: 0 <= i < |customers| ==> CustomerIdField in customers[i] && NameField in customers[i] then
      Some(LastWins.Upserts(map[], CustomerEntries(customers)))
    else
      None
  }

  /** `{r["product_id"]: r for r in rows}`; `None` when a row lacks the id. */
  function CatalogMap(rows: seq<Record>): (catalog: Option<map<string, Record>>)
    ensures catalog.Some? <==> forall i :: 0 <= i < |rows| ==> ProductIdField in rows[i]
  {
    if forall i :: 0 <= i < |rows| ==> ProductIdField in rows[i] then
      Some(LastWins.Upserts(map[], CatalogEntries(rows)))
    else
      None
  }

  /** `d.get(k, default)` on a string map, with an optional key. */
  function Lookup<V>(m: map<string, V>, key: Option<string>, default: V): V {
    if key.Some? && key.value in m then m[key.value] else default
  }

  /** `order.get(field)`. */
  function Field(order: Record, field: string): Option<string> {
    if field in order then Some(order[field]) else None
  }

  /** The item written for one order. */
  function Enrich(order: Record, names: map<string, string>, catalog: map<string, Record>): Item {
    var product := Lookup(catalog, Field(order, ProductIdField), map[]);
    Item(
      Lookup(order, Some(OrderIdField), UnknownRecordId),
      Lookup(names, Field(order, CustomerIdField), UnknownName),
      Lookup(product, Some(NameField), UnknownName),
      Lookup(product, Some(PriceField), DefaultPrice),
      ProcessedStatus)
  }

  /** The reference maps hold exactly the ids the reference rows carry. */
  lemma ReferenceMapKeys(customers: seq<Record>, rows: seq<Record>)
    ensures CustomerMap(customers).Some? ==>
      Validation.KeyColumn(customers, CustomerIdField) == Some(CustomerMap(customers).value.Keys)
    ensures CatalogMap(rows).Some? ==>
      Validation.KeyColumn(rows, ProductIdField) == Some(CatalogMap(rows).value.Keys)
  {
    if CustomerMap(customers).Some? {
      assert CustomerMap(customers).value.Keys == LastWins.KeysOf(CustomerEntries(customers));
    }
    if CatalogMap(rows).Some? {
      assert CatalogMap(rows).value.Keys == LastWins.KeysOf(CatalogEntries(rows));
    }
  }

  /** The customer name of an item comes from the last customer with the
      order's customer id, and is "Unknown" when the order has no customer
      id or no customer carries it. */
  lemma EnrichCustomerName(order: Record, customers: seq<Record>, catalog: map<string, Record>, i: int)
    requires CustomerMap(customers).Some?
    requires 0 <= i < |customers|
    ensures CustomerIdField in order && customers[i][CustomerIdField] == order[CustomerIdField]
      && (forall j :: i < j < |customers| ==> customers[j][CustomerIdField] != order[CustomerIdField])
      ==> Enrich(order, CustomerMap(customers).value, catalog).customerName == customers[i][NameField]
    ensures CustomerIdField !in order
      || (forall j :: 0 <= j < |customers| ==> customers[j][CustomerIdField] != order[CustomerIdField])
      ==> Enrich(order, CustomerMap(customers).value, catalog).customerName == UnknownName
  {
    var entries := CustomerEntries(customers);
    var names := CustomerMap(customers).value;
    assert names == LastWins.Upserts(map[], entries);
    if CustomerIdField in order {
      var id := order[CustomerIdField];
      if customers[i][CustomerIdField] == id && (forall j :: i < j < |customers| ==> customers[j][CustomerIdField] != id) {
        assert LastWins.IsLastFor(entries, i);
        LastWins.UpsertsLastWins(map[], entries, i);
      }
      if forall j :: 0 <= j < |customers| ==> customers[j][CustomerIdField] != id {
        assert id !in LastWins.KeysOf(entries);
        LastWins.UpsertsKeepsUnwritten(map[], entries, id);
      }
    }
  }

  /** The product name and price of an item come from the last catalog row
      with the order's product id ("Unknown" and "0.00" for a column that row
      lacks), and are "Unknown" and "0.00" when no row carries the id. */
  lemma EnrichProduct(order: Record, names: map<string, string>, rows: seq<Record>, i: int)
    requires CatalogMap(rows).Some?
    requires 0 <= i < |rows|
    ensures ProductIdField in order && rows[i][ProductIdField] == order[ProductIdField]
      && (forall j :: i < j < |rows| ==> rows[j][ProductIdField] != order[ProductIdField])
      ==> var item := Enrich(order, names, CatalogMap(rows).value);
          && item.productName == (if NameField in rows[i] then rows[i][NameField] else UnknownName)
          && item.price == (if PriceField in rows[i] then rows[i][PriceField] else DefaultPrice)
    ensures ProductIdField !in order
      || (forall j :: 0 <= j < |rows| ==> rows[j][ProductIdField] != order[ProductIdField])
      ==> var item := Enrich(order, names, CatalogMap(rows).value);
          item.productName == UnknownName && item.price == DefaultPrice
  {
    var entries := CatalogEntries(rows);
    var catalog := CatalogMap(rows).value;
    assert catalog == LastWins.Upserts(map[], entries);
    if ProductIdField in order {
      var id := order[ProductIdField];
      if rows[i][ProductIdField] == id && (forall j :: i < j < |rows| ==> rows[j][ProductIdField] != id) {
        assert LastWins.IsLastFor(entries, i);
        LastWins.UpsertsLastWins(map[], entries, i);
        assert catalog[id] == rows[i];
      }
      if forall j :: 0 <= j < |rows| ==> rows[j][ProductIdField] != id {
        assert id !in LastWins.KeysOf(entries);
        LastWins.UpsertsKeepsUnwritten(map[], entries, id);
      }
    }
  }

  /** An order without a customer id, or whose id no customer carries (an
      empty customer list included), gets the name "Unknown". */
  lemma EnrichCustomerNameDefault(order: Record, customers: seq<Record>, catalog: map<string, Record>)
    requires CustomerMap(customers).Some?
    ensures CustomerIdField !in order
      || (forall j :: 0 <= j < |customers| ==> customers[j][CustomerIdField] != order[CustomerIdField])
      ==> Enrich(order, CustomerMap(customers).value, catalog).customerName == UnknownName
  {
    var entries := CustomerEntries(customers);
    if CustomerIdField in order {
      var id := order[CustomerIdField];
      if forall j :: 0 <= j < |customers| ==> customers[j][CustomerIdField] != id {
        assert id !in LastWins.KeysOf(entries);
        LastWins.UpsertsKeepsUnwritten(map[], entries, id);
      }
    }
  }

  /** An order without a product id, or whose id no catalog row carries (a
      catalog with no rows included), gets "Unknown" and "0.00". */
  lemma EnrichProductDefault(order: Record, names: map<string, string>, rows: seq<Record>)
    requires CatalogMap(rows).Some?
    ensures ProductIdField !in order
      || (forall j :: 0 <= j < |rows| ==> rows[j][ProductIdField] != order[ProductIdField])
      ==> var item := Enrich(order, names, CatalogMap(rows).value);
          item.productName == UnknownName && item.price == DefaultPrice
  {
    var entries := CatalogEntries(rows);
    if ProductIdField in order {
      var id := order[ProductIdField];
      if forall j :: 0 <= j < |rows| ==> rows[j][ProductIdField] != id {
        assert id !in LastWins.KeysOf(entries);
        LastWins.UpsertsKeepsUnwritten(map[], entries, id);
      }
    }
  }

  /** With no customers and an empty catalog, every item carries all three defaults. */
  lemma EnrichWithoutReferences(order: Record)
    ensures var item := Enrich(order, CustomerMap([]).value, CatalogMap([]).value);
      item.customerName == UnknownName && item.productName == UnknownName && item.price == DefaultPrice
  {
    EnrichCustomerNameDefault(order, [], map[]);
    EnrichProductDefault(order, map[], []);
  }

  /** Every item records its order's id (or "unknown") and the status "processed". */
  lemma EnrichIdAndStatus(order: Record, names: map<string, string>, catalog: map<string, Record>)
    ensures OrderIdField in order ==> Enrich(order, names, catalog).recordId == order[OrderIdField]
    ensures OrderIdField !in order ==> Enrich(order, names, catalog).recordId == UnknownRecordId
    ensures Enrich(order, names, catalog).status == ProcessedStatus
  {
  }

  /** Only the order id, customer id and product id of an order reach its
      item; every other field is dropped. */
  lemma EnrichIgnoresOtherFields(order: Record, other: Record, names: map<string, string>, catalog: map<string, Record>)
    requires Field(order, OrderIdField) == Field(other, OrderIdField)
    requires Field(order, CustomerIdField) == Field(other, CustomerIdField)
    requires Field(order, ProductIdField) == Field(other, ProductIdField)
    ensures Enrich(order, names, catalog) == Enrich(other, names, catalog)
  {
  }

  /** An order the validate stage accepts against the same reference rows
      finds its customer and its product: the customer name is never the default. */
  lemma ValidOrderFindsReferences(order: Record, customers: seq<Record>, rows: seq<Record>)
    requires CustomerMap(customers).Some? && CatalogMap(rows).Some?
    requires Validation.Conforms(order,
      Validation.KeyColumn(customers, CustomerIdField).value,
      Validation.KeyColumn(rows, ProductIdField).value)
    ensures order[CustomerIdField] in CustomerMap(customers).value
    ensures order[ProductIdField] in CatalogMap(rows).value
    ensures Enrich(order, CustomerMap(customers).value, CatalogMap(rows).value).customerName
      == CustomerMap(customers).value[order[CustomerIdField]]
  {
    ReferenceMapKeys(customers, rows);
  }

  /** The worked example: order o1 for customer c1 (Alice) and product p1
      (Widget at 9.99). */
  lemma EnrichExample()
    ensures Enrich(
      map[OrderIdField := "o1", CustomerIdField := "c1", ProductIdField := "p1"],
      map["c1" := "Alice"],
      map["p1" := map[ProductIdField := "p1", NameField := "Widget", PriceField := "9.99"]])
      == Item("o1", "Alice", "Widget", "9.99", "processed")
  {
  }
}
