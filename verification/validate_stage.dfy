/** The validate stage handler. A reference file is copied to the
    processing bucket under its bare filename; an order batch is parsed and
    checked against the reference id sets, all or nothing; any other file
    is skipped. The stage never writes the item table. */
module ValidateStage {
  import opened Types
  import Dispatch
  import Parsing
  import Validation
  import Loading

  type IdInputs = Loading.Inputs<set<string>, set<string>>

  function CustomerIds(customers: seq<Record>): Option<set<string>> {
    Validation.KeyColumn(customers, CustomerIdField)
  }

  function ProductIds(rows: seq<Record>): Option<set<string>> {
    Validation.KeyColumn(rows, ProductIdField)
  }

  /** Reads the batch at `source` and the id sets of the reference files. */
  function LoadIds(source: Location, codecs: Codecs, objects: map<Location, string>): Result<IdInputs, Error> {
    Loading.Load(source, codecs, objects, CustomerIds, ProductIds)
  }

  /** The all-or-nothing gate: the batch is validated, with its order count,
      exactly when no order has a defect; otherwise the failure carries the
      number of defects. */
  function Decide(filename: string, inputs: IdInputs): (r: Result<Outcome, Error>)
    ensures r.Ok? <==>
      forall i :: 0 <= i < |inputs.orders| ==> Validation.Conforms(inputs.orders[i], inputs.customers, inputs.catalog)
    ensures r.Ok? ==> r.value == Validated(|inputs.orders|)
    ensures r.Err? ==>
      && r.error == ValidationFailed(filename, |Validation.Defects(inputs.orders, inputs.customers, inputs.catalog)|)
      && r.error.errorCount > 0
      && r.error.errorCount == Validation.TotalViolations(inputs.orders, inputs.customers, inputs.catalog)
  {
    var defects := Validation.Defects(inputs.orders, inputs.customers, inputs.catalog);
    Validation.NoDefectsIffAllConform(inputs.orders, inputs.customers, inputs.catalog);
    Validation.DefectCountIsViolations(inputs.orders, inputs.customers, inputs.catalog);
    if |defects| > 0 then Err(ValidationFailed(filename, |defects|))
    else Ok(Validated(|inputs.orders|))
  }

  /** Where a reference file is copied: the processing bucket, under the bare filename. */
  function ReferenceDestination(source: Location, filename: string): Location {
    Location(Dispatch.ProcessingBucket(source.bucket), filename)
  }

  /** Copies the reference file at `source`; a missing source object fails the copy. */
  function MoveReferenceFile(source: Location, filename: string, w: World): Run {
    var destination := ReferenceDestination(source, filename);
    if source in w.objects then
      Run(Ok(ReferenceFileMoved(filename)),
          w.(objects := w.objects[destination := w.objects[source]],
             copies := w.copies + [CopyRequest(source, destination)]))
    else
      Run(Err(NoSuchObject(source)), w)
  }

  /** The validate stage. */
  function Handle(event: Dispatch.Event, codecs: Codecs, w: World): (run: Run)
    ensures run.world.table == w.table
    ensures run.result.Err? ==> run.world == w
    ensures run.result.Ok? ==> !run.result.value.Transformed?
    ensures run.world != w ==> run.result.Ok? && run.result.value.ReferenceFileMoved?
  {
    match Dispatch.Resolve(event)
    case Err(e) => Run(Err(e), w)
    case Ok(source) =>
      var filename := Dispatch.Filename(source.key);
      var kind := Dispatch.Classify(filename);
      if kind.ReferenceFile? then
        MoveReferenceFile(source, filename, w)
      else if kind.OrderBatch? then
        match LoadIds(source, codecs, w.objects)
        case Err(e) => Run(Err(e), w)
        case Ok(inputs) => Run(Decide(filename, inputs), w)
      else
        Run(Ok(Skipped(filename)), w)
  }

  /** An event of neither shape, or a wrapped event missing a name, fails
      with that error and changes nothing. */
  lemma HandleRejectsBadEvent(event: Dispatch.Event, codecs: Codecs, w: World)
    requires Dispatch.Resolve(event).Err?
    ensures Handle(event, codecs, w) == Run(Err(Dispatch.Resolve(event).error), w)
    ensures !Dispatch.HasFlatShape(event) && !Dispatch.HasWrappedShape(event) ==>
      Handle(event, codecs, w).result == Err(InvalidEvent)
  {
  }

  /** A reference filename is copied, unchanged, to the processing bucket
      under the bare filename, and the copy is logged; nothing else changes.
      This holds whatever the key's directory part is. */
  lemma HandleMovesReferenceFile(event: Dispatch.Event, codecs: Codecs, w: World)
    requires Dispatch.Resolve(event).Ok?
    requires Dispatch.IsReferenceName(Dispatch.Filename(Dispatch.Resolve(event).value.key))
    ensures var source := Dispatch.Resolve(event).value;
      var filename := Dispatch.Filename(source.key);
      var destination := Location(Dispatch.ProcessingBucket(source.bucket), filename);
      var run := Handle(event, codecs, w);
      if source in w.objects then
        && run.result == Ok(ReferenceFileMoved(filename))
        && run.world.objects.Keys == w.objects.Keys + {destination}
        && run.world.objects[destination] == w.objects[source]
        && (forall loc :: loc in w.objects && loc != destination ==> run.world.objects[loc] == w.objects[loc])
        && run.world.copies == w.copies + [CopyRequest(source, destination)]
        && run.world.table == w.table
      else
        run == Run(Err(NoSuchObject(source)), w)
  {
  }

  /** A file that is neither a reference file nor an order batch is skipped
      with its filename, whatever the object store holds, and changes nothing. */
  lemma HandleSkipsUnrecognized(event: Dispatch.Event, codecs: Codecs, w: World, other: World)
    requires Dispatch.Resolve(event).Ok?
    requires Dispatch.Classify(Dispatch.Filename(Dispatch.Resolve(event).value.key)) == Dispatch.Unrecognized
    ensures Handle(event, codecs, w) == Run(Ok(Skipped(Dispatch.Filename(Dispatch.Resolve(event).value.key))), w)
    ensures Handle(event, codecs, other).result == Handle(event, codecs, w).result
  {
  }

  /** An order batch changes nothing; once its inputs load it succeeds
      exactly when every order conforms, and then it is validated with the
      number of parsed orders; otherwise it fails with the defect count,
      which is the number of broken rules. */
  lemma HandleValidatesOrderBatch(event: Dispatch.Event, codecs: Codecs, w: World)
    requires Dispatch.Resolve(event).Ok?
    requires Dispatch.IsOrderBatchName(Dispatch.Filename(Dispatch.Resolve(event).value.key))
    ensures Handle(event, codecs, w).world == w
    ensures var source := Dispatch.Resolve(event).value;
      var loaded := LoadIds(source, codecs, w.objects);
      var result := Handle(event, codecs, w).result;
      && (loaded.Err? ==> result == Err(loaded.error))
      && (loaded.Ok? ==>
          var orders := Parsing.ParseBatch(w.objects[source], codecs.decodeLine);
          var defects := Validation.Defects(orders, loaded.value.customers, loaded.value.catalog);
          && (result.Ok? <==>
              forall i :: 0 <= i < |orders| ==> Validation.Conforms(orders[i], loaded.value.customers, loaded.value.catalog))
          && (result.Ok? ==> result.value == Validated(|orders|))
          && (result.Err? ==>
              && result == Err(ValidationFailed(Dispatch.Filename(source.key), |defects|))
              && |defects| > 0
              && |defects| == Validation.TotalViolations(orders, loaded.value.customers, loaded.value.catalog)))
  {
  }
}
