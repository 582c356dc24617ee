/** What both stages read for an order batch, in the order they read it:
    the batch itself, then customers.json and product_catalog.csv from the
    processing bucket. Each reference file is indexed as soon as it is read,
    the validate stage into an id set and the transform stage into a map. */
module Loading {
  import opened Types
  import Dispatch
  import Parsing

  /** The parsed batch and the two indexed reference files. */
  datatype Inputs<C, P> = Inputs(orders: seq<Record>, customers: C, catalog: P)

  function CustomersLocation(bucket: string): Location {
    Location(Dispatch.ProcessingBucket(bucket), Dispatch.CustomersFile)
  }

  function CatalogLocation(bucket: string): Location {
    Location(Dispatch.ProcessingBucket(bucket), Dispatch.CatalogFile)
  }

  /** The three objects a batch at `source` needs. */
  predicate AgreeOnInputs(source: Location, objects: map<Location, string>, other: map<Location, string>) {
    forall loc :: loc in {source, CustomersLocation(source.bucket), CatalogLocation(source.bucket)} ==>
      (loc in objects <==> loc in other) && (loc in objects ==> objects[loc] == other[loc])
  }

  /** Reads and indexes a batch's inputs; the first missing object, undecodable
      reference file or reference row without its key column is the error,
      checking the batch, then customers.json, then product_catalog.csv. */
  function Load<C, P>(
    source: Location,
    codecs: Codecs,
    objects: map<Location, string>,
    indexCustomers: seq<Record> -> Option<C>,
    indexCatalog: seq<Record> -> Option<P>): (r: Result<Inputs<C, P>, Error>)
    ensures r.Ok? <==>
      && source in objects
      && CustomersLocation(source.bucket) in objects
      && codecs.decodeCustomers(objects[CustomersLocation(source.bucket)]).Some?
      && indexCustomers(codecs.decodeCustomers(objects[CustomersLocation(source.bucket)]).value).Some?
      && CatalogLocation(source.bucket) in objects
      && indexCatalog(codecs.decodeCatalog(objects[CatalogLocation(source.bucket)])).Some?
    ensures r.Ok? ==>
      && r.value.orders == Parsing.ParseBatch(objects[source], codecs.decodeLine)
      && Some(r.value.customers)
         == indexCustomers(codecs.decodeCustomers(objects[CustomersLocation(source.bucket)]).value)
      && Some(r.value.catalog) == indexCatalog(codecs.decodeCatalog(objects[CatalogLocation(source.bucket)]))
    ensures r.Err? ==> r.error in {
      NoSuchObject(source),
      NoSuchObject(CustomersLocation(source.bucket)), MalformedReference(CustomersLocation(source.bucket)),
      NoSuchObject(CatalogLocation(source.bucket)), MalformedReference(CatalogLocation(source.bucket))}
    ensures source !in objects ==> r == Err(NoSuchObject(source))
    ensures var customersAt := CustomersLocation(source.bucket);
      (source in objects && customersAt !in objects) ==> r == Err(NoSuchObject(customersAt))
    ensures var customersAt := CustomersLocation(source.bucket);
      (&& source in objects && customersAt in objects
       && (|| codecs.decodeCustomers(objects[customersAt]).None?
           || indexCustomers(codecs.decodeCustomers(objects[customersAt]).value).None?))
      ==> r == Err(MalformedReference(customersAt))
    ensures var customersAt := CustomersLocation(source.bucket);
      var catalogAt := CatalogLocation(source.bucket);
      (&& source in objects && customersAt in objects
       && codecs.decodeCustomers(objects[customersAt]).Some?
       && indexCustomers(codecs.decodeCustomers(objects[customersAt]).value).Some?)
      ==> && (catalogAt !in objects ==> r == Err(NoSuchObject(catalogAt)))
          && (catalogAt in objects && indexCatalog(codecs.decodeCatalog(objects[catalogAt])).None? ==>
                r == Err(MalformedReference(catalogAt)))
  {
    if source !in objects then Err(NoSuchObject(source))
    else
      var orders := Parsing.ParseBatch(objects[source], codecs.decodeLine);
      var customersAt := CustomersLocation(source.bucket);
      if customersAt !in objects then Err(NoSuchObject(customersAt))
      else
        match codecs.decodeCustomers(objects[customersAt])
        case None => Err(MalformedReference(customersAt))
        case Some(customerRows) =>
          match indexCustomers(customerRows)
          case None => Err(MalformedReference(customersAt))
          case Some(customers) =>
            var catalogAt := CatalogLocation(source.bucket);
            if catalogAt !in objects then Err(NoSuchObject(catalogAt))
            else
              match indexCatalog(codecs.decodeCatalog(objects[catalogAt]))
              case None => Err(MalformedReference(catalogAt))
              case Some(catalog) => Ok(Inputs(orders, customers, catalog))
  }

  /** Loading reads nothing but the batch and the two reference files. */
  lemma LoadReadsOnlyItsInputs<C, P>(
    source: Location, codecs: Codecs,
    objects: map<Location, string>, other: map<Location, string>,
    indexCustomers: seq<Record> -> Option<C>, indexCatalog: seq<Record> -> Option<P>)
    requires AgreeOnInputs(source, objects, other)
    ensures Load(source, codecs, objects, indexCustomers, indexCatalog)
         == Load(source, codecs, other, indexCustomers, indexCatalog)
  {
    assert source in {source, CustomersLocation(source.bucket), CatalogLocation(source.bucket)};
    assert CustomersLocation(source.bucket) in {source, CustomersLocation(source.bucket), CatalogLocation(source.bucket)};
    assert CatalogLocation(source.bucket) in {source, CustomersLocation(source.bucket), CatalogLocation(source.bucket)};
  }
}
