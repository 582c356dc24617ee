/** The routing shared by both stages: which object an event names, the
    filename taken from its key, what kind of file that is, and the
    processing bucket that belongs to a landing bucket. */
module Dispatch {
  import opened Types
  import Text

  /** The `detail` payload of a wrapped event: `detail.bucket` and `detail.object` (field `obj`). */
  datatype Detail = Detail(bucket: Option<Record>, obj: Option<Record>)

  /** The incoming event: the flat fields `bucket` and `key`, and the optional `detail` payload. */
  datatype Event = Event(bucket: Option<string>, key: Option<string>, detail: Option<Detail>)

  /** The flat event shape `{bucket, key}` naming `loc`. */
  function FlatEvent(loc: Location): Event {
    Event(Some(loc.bucket), Some(loc.key), None)
  }

  /** The wrapped event shape `{detail: {bucket: {name}, object: {key}}}` naming `loc`. */
  function WrappedEvent(loc: Location): Event {
    Event(None, None, Some(Detail(Some(map["name" := loc.bucket]), Some(map["key" := loc.key]))))
  }

  predicate HasFlatShape(e: Event) {
    e.bucket.Some? && e.key.Some?
  }

  predicate HasWrappedShape(e: Event) {
    e.detail.Some? && e.detail.value.bucket.Some?
  }

  /** The object an event names. The flat fields win when both are present;
      otherwise a `detail` holding `bucket` is read, and a missing
      `name` or `object.key` in it is a failed lookup; otherwise the event is invalid. */
  function Resolve(e: Event): (r: Result<Location, Error>)
    ensures r == Err(InvalidEvent) <==> !HasFlatShape(e) && !HasWrappedShape(e)
    ensures HasFlatShape(e) ==> r == Ok(Location(e.bucket.value, e.key.value))
  {
    if HasFlatShape(e) then
      Ok(Location(e.bucket.value, e.key.value))
    else if HasWrappedShape(e) then
      var d := e.detail.value;
      if "name" in d.bucket.value && d.obj.Some? && "key" in d.obj.value then
        Ok(Location(d.bucket.value["name"], d.obj.value["key"]))
      else
        Err(MalformedEvent)
    else
      Err(InvalidEvent)
  }

  /** Both event shapes resolve back to the location they were built from. */
  lemma ResolveAcceptsBothShapes(loc: Location)
    ensures Resolve(FlatEvent(loc)) == Ok(loc)
    ensures Resolve(WrappedEvent(loc)) == Ok(loc)
  {
  }

  /** A wrapped event resolves to the names inside it only when the flat fields
      are incomplete, and any location that comes out of it is the one it names. */
  lemma ResolveWrapped(e: Event)
    requires !HasFlatShape(e) && HasWrappedShape(e)
    ensures Resolve(e).Ok? <==>
      "name" in e.detail.value.bucket.value && e.detail.value.obj.Some? && "key" in e.detail.value.obj.value
    ensures Resolve(e).Ok? ==>
      Resolve(e).value == Location(e.detail.value.bucket.value["name"], e.detail.value.obj.value["key"])
    ensures Resolve(e).Err? ==> Resolve(e).error == MalformedEvent
  {
  }

  // ---------------------------------------------------------------------------
  // Filename

  /** `key.split("/")[-1]`: the part of the key after its last "/", or the
      whole key when it has none. */
  function Filename(key: string): (name: string)
    ensures '/' !in name
    ensures |name| <= |key| && key[|key| - |name|..] == name
    ensures |name| < |key| ==> key[|key| - |name| - 1] == '/'
  {
    var parts := Text.Split(key, "/");
    Text.SplitPartsLackSeparator(key, "/");
    Text.SplitThenJoin(key, "/");
    var name := parts[|parts| - 1];
    Text.NoOccurrenceOfChar(name, '/');
    assert |parts| >= 2 ==> key == Text.Join(parts[..|parts| - 1], "/") + "/" + name by {
      if |parts| >= 2 {
        Text.JoinSnoc(parts, "/");
      }
    }
    name
  }

  /** A key without "/" is its own filename. */
  lemma FilenameOfPlainKey(key: string)
    requires '/' !in key
    ensures Filename(key) == key
  {
  }

  /** A directory prefix ending in "/" does not change the filename. */
  lemma FilenameUnderDirectory(dir: string, name: string)
    requires '/' !in name
    ensures Filename(dir + "/" + name) == name
  {
    var key := dir + "/" + name;
    assert key[|key| - |name|..] == name;
    assert key[|key| - |name| - 1] == '/';
  }

  // ---------------------------------------------------------------------------
  // Classification

  const CustomersFile: string := "customers.json"
  const CatalogFile: string := "product_catalog.csv"
  const OrderPrefix: string := "customer_orders_"
  const OrderSuffix: string := ".jsonl"

  /** One of the two reference files, by exact name. */
  predicate IsReferenceName(name: string) {
    name == CustomersFile || name == CatalogFile
  }

  /** An order batch: the name starts with `customer_orders_` and ends with `.jsonl`. */
  predicate IsOrderBatchName(name: string) {
    OrderPrefix <= name && Text.EndsWith(name, OrderSuffix)
  }

  datatype FileKind = ReferenceFile | OrderBatch | Unrecognized

  /** The kind of a landed file; a reference name is checked first. */
  function Classify(name: string): (kind: FileKind)
    ensures kind == ReferenceFile <==> IsReferenceName(name)
    ensures kind == OrderBatch <==> IsOrderBatchName(name)
    ensures kind == Unrecognized <==> !IsReferenceName(name) && !IsOrderBatchName(name)
  {
    if IsReferenceName(name) then ReferenceFile
    else if IsOrderBatchName(name) then OrderBatch
    else Unrecognized
  }

  /** A batch name with a date, the same name ending in `.json`, and a
      reference name, classified. */
  lemma ClassifyExamples()
    ensures Classify("customer_orders_2024.jsonl") == OrderBatch
    ensures Classify("customer_orders_2024.json") == Unrecognized
    ensures Classify("customers.json") == ReferenceFile
  {
    Text.EndsWithAppend("customer_orders_2024", OrderSuffix);
    assert "customer_orders_2024" + OrderSuffix == "customer_orders_2024.jsonl";
    assert OrderPrefix <= "customer_orders_2024.jsonl";
    var bad := "customer_orders_2024.json";
    assert bad[|bad| - |OrderSuffix|..] != OrderSuffix by {
      assert bad[|bad| - |OrderSuffix|..][0] == bad[|bad| - |OrderSuffix|] == '4';
    }
  }

  // ---------------------------------------------------------------------------
  // Processing bucket

  /** `bucket.replace("input", "processing")`. */
  function ProcessingBucket(bucket: string): (processing: string)
    ensures processing == Text.Join(Text.Split(bucket, "input"), "processing")
  {
    Text.ReplaceIsSplitThenJoin(bucket, "input", "processing");
    Text.Replace(bucket, "input", "processing")
  }

  /** A bucket whose name does not contain "input" is its own processing bucket. */
  lemma ProcessingBucketWithoutInput(bucket: string)
    requires !Text.Occurs(bucket, "input")
    ensures ProcessingBucket(bucket) == bucket
  {
    Text.ReplaceWithoutOccurrence(bucket, "input", "processing");
  }
}
