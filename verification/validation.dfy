/** The validate stage's per-order checks and the reference id sets they
    check against. A defect is recorded for each violated rule and the batch
    passes only if no order has one. */
module Validation {
  import opened Types

  /** One violated rule. */
  datatype Defect =
    | MissingRequiredFields(order: Record)
    | InvalidCustomerId(customerId: string)
    | InvalidProductId(productId: string)

  /** Both ids are present (an empty string counts as present). */
  predicate HasRequiredFields(order: Record) {
    CustomerIdField in order && ProductIdField in order
  }

  /** An order that raises no defect against the given id sets. */
  predicate Conforms(order: Record, customerIds: set<string>, productIds: set<string>) {
    && HasRequiredFields(order)
    && order[CustomerIdField] in customerIds
    && order[ProductIdField] in productIds
  }

  /** The defects of one order: one for missing ids (and no lookups then),
      otherwise one per id its reference set lacks, customer first. */
  function OrderDefects(order: Record, customerIds: set<string>, productIds: set<string>): (defects: seq<Defect>)
    ensures defects == [] <==> Conforms(order, customerIds, productIds)
    ensures |defects| <= 2
    ensures !HasRequiredFields(order) ==> defects == [MissingRequiredFields(order)]
    ensures HasRequiredFields(order) ==>
      && (InvalidCustomerId(order[CustomerIdField]) in defects <==> order[CustomerIdField] !in customerIds)
      && (InvalidProductId(order[ProductIdField]) in defects <==> order[ProductIdField] !in productIds)
      && forall d :: d in defects ==> !d.MissingRequiredFields?
    ensures HasRequiredFields(order) ==>
      |defects| == (if order[CustomerIdField] in customerIds then 0 else 1)
                 + (if order[ProductIdField] in productIds then 0 else 1)
  {
    if !HasRequiredFields(order) then
      [MissingRequiredFields(order)]
    else
      var customerId := order[CustomerIdField];
      var productId := order[ProductIdField];
      (if customerId !in customerIds then [InvalidCustomerId(customerId)] else [])
      + (if productId !in productIds then [InvalidProductId(productId)] else [])
  }

  /** The defects of a batch: each order's defects, in order. */
  function Defects(orders: seq<Record>, customerIds: set<string>, productIds: set<string>): seq<Defect>
    decreases |orders|
  {
    if |orders| == 0 then []
    else
      Defects(orders[..|orders| - 1], customerIds, productIds)
      + OrderDefects(orders[|orders| - 1], customerIds, productIds)
  }

  /** A batch has no defect exactly when every order conforms. */
  lemma {:induction false} NoDefectsIffAllConform(orders: seq<Record>, customerIds: set<string>, productIds: set<string>)
    ensures Defects(orders, customerIds, productIds) == [] <==>
      forall i :: 0 <= i < |orders| ==> Conforms(orders[i], customerIds, productIds)
    decreases |orders|
  {
    if |orders| > 0 {
      var n := |orders| - 1;
      var before := orders[..n];
      NoDefectsIffAllConform(before, customerIds, productIds);
      var earlier := Defects(before, customerIds, productIds);
      var last := OrderDefects(orders[n], customerIds, productIds);
      assert Defects(orders, customerIds, productIds) == earlier + last;
      assert earlier + last == [] <==> earlier == [] && last == [] by {
        assert |earlier + last| == |earlier| + |last|;
      }
      assert forall i :: 0 <= i < n ==> before[i] == orders[i];
      if forall i :: 0 <= i < |orders| ==> Conforms(orders[i], customerIds, productIds) {
        assert Conforms(orders[n], customerIds, productIds);
      }
    }
  }

  /** The defect list of a batch is the concatenation over its parts, so the
      count is the sum of the per-order counts. */
  lemma {:induction false} DefectsAppend(first: seq<Record>, second: seq<Record>, customerIds: set<string>, productIds: set<string>)
    ensures Defects(first + second, customerIds, productIds)
      == Defects(first, customerIds, productIds) + Defects(second, customerIds, productIds)
    decreases |second|
  {
    if |second| == 0 {
      assert first + second == first;
    } else {
      var n := |second| - 1;
      assert (first + second)[..|first + second| - 1] == first + second[..n];
      assert (first + second)[|first + second| - 1] == second[n];
      DefectsAppend(first, second[..n], customerIds, productIds);
    }
  }

  /** At most two defects per order, and at least one per non-conforming order. */
  lemma {:induction false} DefectCountBounds(orders: seq<Record>, customerIds: set<string>, productIds: set<string>)
    ensures |Defects(orders, customerIds, productIds)| <= 2 * |orders|
    ensures |Defects(orders, customerIds, productIds)| >= |NonConforming(orders, customerIds, productIds)|
    decreases |orders|
  {
    if |orders| > 0 {
      DefectCountBounds(orders[..|orders| - 1], customerIds, productIds);
    }
  }

  /** The rules an order breaks, counted independently of the defect list:
      one for missing ids, otherwise one per unknown id. */
  function Violations(order: Record, customerIds: set<string>, productIds: set<string>): nat {
    if !HasRequiredFields(order) then 1
    else
      var unknownCustomer := if order[CustomerIdField] in customerIds then 0 else 1;
      var unknownProduct := if order[ProductIdField] in productIds then 0 else 1;
      unknownCustomer + unknownProduct
  }

  /** The rules a batch breaks, summed over its orders. */
  function TotalViolations(orders: seq<Record>, customerIds: set<string>, productIds: set<string>): nat
    decreases |orders|
  {
    if |orders| == 0 then 0
    else
      TotalViolations(orders[..|orders| - 1], customerIds, productIds)
      + Violations(orders[|orders| - 1], customerIds, productIds)
  }

  /** The error count the gate reports is exactly the number of broken rules. */
  lemma {:induction false} DefectCountIsViolations(orders: seq<Record>, customerIds: set<string>, productIds: set<string>)
    ensures |Defects(orders, customerIds, productIds)| == TotalViolations(orders, customerIds, productIds)
    decreases |orders|
  {
    if |orders| > 0 {
      DefectCountIsViolations(orders[..|orders| - 1], customerIds, productIds);
    }
  }

  /** The orders that do not conform, in order. */
  function NonConforming(orders: seq<Record>, customerIds: set<string>, productIds: set<string>): seq<Record>
    decreases |orders|
  {
    if |orders| == 0 then []
    else
      var last := orders[|orders| - 1];
      NonConforming(orders[..|orders| - 1], customerIds, productIds)
      + (if Conforms(last, customerIds, productIds) then [] else [last])
  }

  /** The defects depend on the reference sets only through membership of
      the ids the orders carry: re-running against sets that agree on those
      ids gives the same defects. */
  lemma {:induction false} DefectsDependOnlyOnMembership(
    orders: seq<Record>,
    customerIds: set<string>, productIds: set<string>,
    otherCustomerIds: set<string>, otherProductIds: set<string>)
    requires forall i :: 0 <= i < |orders| && HasRequiredFields(orders[i]) ==>
      && (orders[i][CustomerIdField] in customerIds <==> orders[i][CustomerIdField] in otherCustomerIds)
      && (orders[i][ProductIdField] in productIds <==> orders[i][ProductIdField] in otherProductIds)
    ensures Defects(orders, customerIds, productIds) == Defects(orders, otherCustomerIds, otherProductIds)
    decreases |orders|
  {
    if |orders| > 0 {
      var n := |orders| - 1;
      assert forall i :: 0 <= i < n ==> orders[..n][i] == orders[i];
      DefectsDependOnlyOnMembership(orders[..n], customerIds, productIds, otherCustomerIds, otherProductIds);
    }
  }

  /** The defect loop as the validate stage writes it: a missing field skips
      the lookups for that order. */
  method CollectDefects(orders: seq<Record>, customerIds: set<string>, productIds: set<string>)
    returns (errors: seq<Defect>)
    ensures errors == Defects(orders, customerIds, productIds)
  {
    errors := [];
    for i := 0 to |orders|
      invariant errors == Defects(orders[..i], customerIds, productIds)
    {
      assert orders[..i + 1][..i] == orders[..i];
      var order := orders[i];
      if CustomerIdField !in order || ProductIdField !in order {
        errors := errors + [MissingRequiredFields(order)];
        continue;
      }
      var before := errors;
      if order[CustomerIdField] !in customerIds {
        errors := errors + [InvalidCustomerId(order[CustomerIdField])];
      }
      if order[ProductIdField] !in productIds {
        errors := errors + [InvalidProductId(order[ProductIdField])];
      }
      assert errors == before + OrderDefects(order, customerIds, productIds);
    }
    assert orders[..|orders|] == orders;
  }

  /** An order whose customer the reference data lacks yields exactly one
      defect, and an order missing its product id yields one defect that
      names the order. */
  lemma DefectsExample()
    ensures Defects([map[CustomerIdField := "c9", ProductIdField := "p1"]], {"c1"}, {"p1"})
      == [InvalidCustomerId("c9")]
    ensures Defects([map[CustomerIdField := "c1"]], {"c1"}, {"p1"})
      == [MissingRequiredFields(map[CustomerIdField := "c1"])]
  {
  }

  /** `{r[field] for r in rows}`, or `None` when a row lacks the field (a failed lookup). */
  function KeyColumn(rows: seq<Record>, field: string): (ids: Option<set<string>>)
    ensures ids.Some? <==> forall i :: 0 <= i < |rows| ==> field in rows[i]
    ensures ids.Some? ==> forall i :: 0 <= i < |rows| ==> rows[i][field] in ids.value
    ensures ids.Some? ==> forall id :: id in ids.value ==> exists i :: 0 <= i < |rows| && rows[i][field] == id
  {
    if forall i :: 0 <= i < |rows| ==> field in rows[i] then
      Some(set i | 0 <= i < |rows| :: rows[i][field])
    else
      None
  }
}
