/** The transform stage handler. Only an order batch is processed: each
    parsed order is enriched into an item and written to the table keyed by
    its record id, in order, so a later order replaces an earlier one with the
    same id. Every other file, the reference files included, is skipped. */
module TransformStage {
  import opened Types
  import Dispatch
  import Parsing
  import Validation
  import Loading
  import LastWins
  import Enrichment
  import ValidateStage

  type MapInputs = Loading.Inputs<map<string, string>, map<string, Record>>

  /** Reads the batch at `source` and the two reference maps. */
  function LoadMaps(source: Location, codecs: Codecs, objects: map<Location, string>): Result<MapInputs, Error> {
    Loading.Load(source, codecs, objects, Enrichment.CustomerMap, Enrichment.CatalogMap)
  }

  /** The table writes for a batch: each order's item under its record id, in
      order. The keys written are the orders' `order_id`s, with "unknown" for
      an order that has none. */
  function ItemEntries(orders: seq<Record>, names: map<string, string>, catalog: map<string, Record>)
    : (entries: seq<(string, Item)>)
    ensures |entries| == |orders|
    ensures forall i :: 0 <= i < |orders| ==>
      entries[i].1 == Enrichment.Enrich(orders[i], names, catalog) && entries[i].0 == entries[i].1.recordId
    ensures LastWins.KeysOf(entries) ==
      set i | 0 <= i < |orders| :: if OrderIdField in orders[i] then orders[i][OrderIdField] else Enrichment.UnknownRecordId
  {
    var entries := seq(|orders|, i requires 0 <= i < |orders| =>
      var item := Enrichment.Enrich(orders[i], names, catalog); (item.recordId, item));
    assert LastWins.KeysOf(entries) ==
      set i | 0 <= i < |orders| :: if OrderIdField in orders[i] then orders[i][OrderIdField] else Enrichment.UnknownRecordId
    by {
      forall i | 0 <= i < |orders|
        ensures entries[i].0 == if OrderIdField in orders[i] then orders[i][OrderIdField] else Enrichment.UnknownRecordId
      {
        Enrichment.EnrichIdAndStatus(orders[i], names, catalog);
      }
    }
    entries
  }

  /** The write loop as the stage runs it: one put per order, in order. */
  method WriteItems(table: map<string, Item>, orders: seq<Record>, names: map<string, string>, catalog: map<string, Record>)
    returns (written: map<string, Item>)
    ensures written == LastWins.Upserts(table, ItemEntries(orders, names, catalog))
  {
    var entries := ItemEntries(orders, names, catalog);
    written := table;
    for i := 0 to |orders|
      invariant written == LastWins.Upserts(table, entries[..i])
    {
      var item := Enrichment.Enrich(orders[i], names, catalog);
      LastWins.UpsertsStep(table, entries, i);
      assert entries[i] == (item.recordId, item);
      written := written[item.recordId := item];
    }
    assert entries[..|orders|] == entries;
  }

  /** The transform stage. */
  function Handle(event: Dispatch.Event, codecs: Codecs, w: World): (run: Run)
    ensures run.world.objects == w.objects && run.world.copies == w.copies
    ensures run.world.table != w.table ==> run.result.Ok? && run.result.value.Transformed?
    ensures run.result.Ok? ==> run.result.value.Transformed? || run.result.value.Skipped?
  {
    match Dispatch.Resolve(event)
    case Err(e) => Run(Err(e), w)
    case Ok(source) =>
      var filename := Dispatch.Filename(source.key);
      if !Dispatch.IsOrderBatchName(filename) then
        Run(Ok(Skipped(filename)), w)
      else
        match LoadMaps(source, codecs, w.objects)
        case Err(e) => Run(Err(e), w)
        case Ok(inputs) =>
          var entries := ItemEntries(inputs.orders, inputs.customers, inputs.catalog);
          Run(Ok(Transformed(|inputs.orders|)), w.(table := LastWins.Upserts(w.table, entries)))
  }

  /** An event of neither shape, or a wrapped event missing a name, fails
      with that error and changes nothing, as in the validate stage. */
  lemma HandleRejectsBadEvent(event: Dispatch.Event, codecs: Codecs, w: World)
    requires Dispatch.Resolve(event).Err?
    ensures Handle(event, codecs, w) == Run(Err(Dispatch.Resolve(event).error), w)
    ensures !Dispatch.HasFlatShape(event) && !Dispatch.HasWrappedShape(event) ==>
      Handle(event, codecs, w).result == Err(InvalidEvent)
  {
  }

  /** Any file that is not an order batch, the two reference files included,
      is skipped with its filename and leaves the world unchanged. */
  lemma HandleSkipsNonOrderFiles(event: Dispatch.Event, codecs: Codecs, w: World)
    requires Dispatch.Resolve(event).Ok?
    requires !Dispatch.IsOrderBatchName(Dispatch.Filename(Dispatch.Resolve(event).value.key))
    ensures Handle(event, codecs, w) == Run(Ok(Skipped(Dispatch.Filename(Dispatch.Resolve(event).value.key))), w)
  {
  }

  lemma ReferenceFilesAreNotOrderBatches(filename: string)
    requires Dispatch.IsReferenceName(filename)
    ensures !Dispatch.IsOrderBatchName(filename)
  {
  }

  /** On an order batch whose inputs load, the result counts the parsed
      orders, and the table is the fold of the item writes over the orders. */
  lemma HandleTransformsOrderBatch(event: Dispatch.Event, codecs: Codecs, w: World)
    requires Dispatch.Resolve(event).Ok?
    requires Dispatch.IsOrderBatchName(Dispatch.Filename(Dispatch.Resolve(event).value.key))
    ensures var source := Dispatch.Resolve(event).value;
      var loaded := LoadMaps(source, codecs, w.objects);
      var run := Handle(event, codecs, w);
      && (loaded.Err? ==> run == Run(Err(loaded.error), w))
      && (loaded.Ok? ==>
          var orders := Parsing.ParseBatch(w.objects[source], codecs.decodeLine);
          && run.result == Ok(Transformed(|orders|))
          && run.world.table == LastWins.Upserts(w.table, ItemEntries(orders, loaded.value.customers, loaded.value.catalog)))
  {
  }

  /** After a transformed batch, the item under a written record id is the
      item of the last order with that id; ids no order writes keep their
      previous item, or stay absent. */
  lemma HandleLastOrderWins(event: Dispatch.Event, codecs: Codecs, w: World, i: int, key: string)
    requires Handle(event, codecs, w).result.Ok? && Handle(event, codecs, w).result.value.Transformed?
    ensures var source := Dispatch.Resolve(event).value;
      var inputs := LoadMaps(source, codecs, w.objects).value;
      var entries := ItemEntries(inputs.orders, inputs.customers, inputs.catalog);
      var table := Handle(event, codecs, w).world.table;
      && (LastWins.IsLastFor(entries, i) ==> entries[i].0 in table && table[entries[i].0] == entries[i].1)
      && (key !in LastWins.KeysOf(entries) ==>
          (key in table <==> key in w.table) && (key in w.table ==> table[key] == w.table[key]))
  {
    var source := Dispatch.Resolve(event).value;
    var inputs := LoadMaps(source, codecs, w.objects).value;
    var entries := ItemEntries(inputs.orders, inputs.customers, inputs.catalog);
    if LastWins.IsLastFor(entries, i) {
      LastWins.UpsertsLastWins(w.table, entries, i);
    }
    if key !in LastWins.KeysOf(entries) {
      LastWins.UpsertsKeepsUnwritten(w.table, entries, key);
    }
  }

  /** The reported count is the number of parsed orders, even when repeated
      record ids make the table grow by fewer entries. */
  lemma HandleGrowsTableByAtMostRecords(event: Dispatch.Event, codecs: Codecs, w: World)
    requires Handle(event, codecs, w).result.Ok? && Handle(event, codecs, w).result.value.Transformed?
    ensures |Handle(event, codecs, w).world.table| <= |w.table| + Handle(event, codecs, w).result.value.records
  {
    var source := Dispatch.Resolve(event).value;
    var inputs := LoadMaps(source, codecs, w.objects).value;
    var entries := ItemEntries(inputs.orders, inputs.customers, inputs.catalog);
    LastWins.KeysOfSize(entries);
    var table := Handle(event, codecs, w).world.table;
    assert table.Keys == w.table.Keys + LastWins.KeysOf(entries);
    assert |table.Keys| <= |w.table.Keys| + |LastWins.KeysOf(entries)|;
  }

  /** Replaying the stage on the world it produced gives the same outcome
      and leaves that world as it is. */
  lemma HandleReplayIsIdempotent(event: Dispatch.Event, codecs: Codecs, w: World)
    ensures var once := Handle(event, codecs, w);
      Handle(event, codecs, once.world) == once
  {
    var once := Handle(event, codecs, w);
    if once.result.Ok? && once.result.value.Transformed? {
      var source := Dispatch.Resolve(event).value;
      var inputs := LoadMaps(source, codecs, w.objects).value;
      LastWins.UpsertsReplay(w.table, ItemEntries(inputs.orders, inputs.customers, inputs.catalog));
    }
  }

  /** Across the two stages, on the same objects: a batch the validate stage
      passes is processed by the transform stage exactly when every customer
      row also carries a `name`, which the validate stage never checks;
      otherwise the transform stage fails on customers.json and changes
      nothing. When it is processed, it reports the same count, and every
      order finds its customer's name in the reference data rather than the
      default. */
  lemma ValidatedBatchEnrichesFromReferences(event: Dispatch.Event, codecs: Codecs, w: World)
    requires ValidateStage.Handle(event, codecs, w).result.Ok?
    requires ValidateStage.Handle(event, codecs, w).result.value.Validated?
    ensures var source := Dispatch.Resolve(event).value;
      var customersAt := Loading.CustomersLocation(source.bucket);
      var customerRows := codecs.decodeCustomers(w.objects[customersAt]).value;
      var run := Handle(event, codecs, w);
      && (run.result.Ok? <==> forall i :: 0 <= i < |customerRows| ==> NameField in customerRows[i])
      && (run.result.Err? ==> run == Run(Err(MalformedReference(customersAt)), w))
      && (run.result.Ok? ==>
          && run.result.value == Transformed(ValidateStage.Handle(event, codecs, w).result.value.records)
          && var inputs := LoadMaps(source, codecs, w.objects).value;
             forall i :: 0 <= i < |inputs.orders| ==>
               && CustomerIdField in inputs.orders[i]
               && inputs.orders[i][CustomerIdField] in inputs.customers
               && Enrichment.Enrich(inputs.orders[i], inputs.customers, inputs.catalog).customerName
                  == inputs.customers[inputs.orders[i][CustomerIdField]])
  {
    var source := Dispatch.Resolve(event).value;
    var ids := ValidateStage.LoadIds(source, codecs, w.objects).value;
    var customersAt := Loading.CustomersLocation(source.bucket);
    var catalogAt := Loading.CatalogLocation(source.bucket);
    var customerRows := codecs.decodeCustomers(w.objects[customersAt]).value;
    var catalogRows := codecs.decodeCatalog(w.objects[catalogAt]);
    assert Enrichment.CatalogMap(catalogRows).Some?;
    var loaded := LoadMaps(source, codecs, w.objects);
    assert loaded.Ok? <==> Enrichment.CustomerMap(customerRows).Some?;
    if loaded.Ok? {
      var inputs := loaded.value;
      Enrichment.ReferenceMapKeys(customerRows, catalogRows);
      forall i | 0 <= i < |inputs.orders|
        ensures && CustomerIdField in inputs.orders[i]
                && inputs.orders[i][CustomerIdField] in inputs.customers
                && Enrichment.Enrich(inputs.orders[i], inputs.customers, inputs.catalog).customerName
                   == inputs.customers[inputs.orders[i][CustomerIdField]]
      {
        assert Validation.Conforms(inputs.orders[i], ids.customers, ids.catalog);
        Enrichment.ValidOrderFindsReferences(inputs.orders[i], customerRows, catalogRows);
      }
    } else {
      assert loaded.error == MalformedReference(customersAt);
    }
  }

  /** A file named `readme.txt` is skipped by both stages, and neither
      changes the world. */
  lemma BothStagesSkipReadme(bucket: string, codecs: Codecs, w: World)
    ensures var event := Dispatch.FlatEvent(Location(bucket, "readme.txt"));
      && ValidateStage.Handle(event, codecs, w) == Run(Ok(Skipped("readme.txt")), w)
      && Handle(event, codecs, w) == Run(Ok(Skipped("readme.txt")), w)
  {
    Dispatch.FilenameOfPlainKey("readme.txt");
    assert !(Dispatch.OrderPrefix <= "readme.txt");
  }
}
