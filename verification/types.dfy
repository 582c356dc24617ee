/** The data model shared by both stage handlers: records, object locations,
    persisted items, the outcome a stage returns, the errors it raises, and
    the abstract world (object store, copy log, item table) a stage acts on. */
module Types {

  /** A value that may be absent (a missing dictionary entry, a line that does not decode). */
  datatype Option<+T> = None | Some(value: T)

  /** The result of a step that can raise. */
  datatype Result<+T, +E> = Ok(value: T) | Err(error: E)

  /** A decoded JSON object or CSV row: field name to field value. Every value is a string. */
  type Record = map<string, string>

  /** The record fields the stages read. */
  const OrderIdField: string := "order_id"
  const CustomerIdField: string := "customer_id"
  const ProductIdField: string := "product_id"
  const NameField: string := "name"
  const PriceField: string := "price"

  /** An object in the object store: a bucket name and a key inside it. */
  datatype Location = Location(bucket: string, key: string)

  /** The item written to the table for one order. It has exactly these five attributes. */
  datatype Item = Item(
    recordId: string,
    customerName: string,
    productName: string,
    price: string,
    status: string)

  /** A copy request issued by the validate stage: source object and destination object. */
  datatype CopyRequest = CopyRequest(source: Location, destination: Location)

  /** What a stage raises instead of returning. */
  datatype Error =
    | InvalidEvent                           // neither event shape is present
    | MalformedEvent                         // detail-wrapped event without bucket name or object key
    | NoSuchObject(location: Location)       // an object that is read or copied does not exist
    | MalformedReference(location: Location) // a reference file that does not decode or lacks a key column,
                                             // or (transform stage) a customer without `name`
    | ValidationFailed(filename: string, errorCount: nat)

  /** What a stage returns: the status and either the filename or the record count. */
  datatype Outcome =
    | ReferenceFileMoved(filename: string)
    | Validated(records: nat)
    | Transformed(records: nat)
    | Skipped(filename: string)

  /** The external state a stage sees and changes: object bodies (already decoded
      as text), the log of copies issued so far, and the item table keyed by record id. */
  datatype World = World(
    objects: map<Location, string>,
    copies: seq<CopyRequest>,
    table: map<string, Item>)

  /** The library decoders the stages call, taken as given:
      one line of a batch as a JSON object, customers.json as a list of
      objects, and product_catalog.csv as its rows keyed by the header. */
  datatype Codecs = Codecs(
    decodeLine: string -> Option<Record>,
    decodeCustomers: string -> Option<seq<Record>>,
    decodeCatalog: string -> seq<Record>)

  /** A stage's return value (or raised error) together with the world it leaves. */
  datatype Run = Run(result: Result<Outcome, Error>, world: World)
}
