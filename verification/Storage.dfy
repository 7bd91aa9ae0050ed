/** Storage operations and their outputs, as replicas and coordinators exchange them. */
module Storage {
  import opened Wrappers
  import opened Bytes
  import Context

  type Field = seq<byte>

  datatype Record = Record(value: Context.Value, expiration: Context.Secs, version: Context.Micros)

  datatype MapEntry = MapEntry(field: Field, record: Record)

  datatype MapPage = MapPage(entries: seq<MapEntry>, hasNext: bool)

  datatype Output =
    | RecordOutput(record: Option<Record>)
    | ExpirationOutput(expiration: Option<Context.Secs>)
    | PageOutput(page: MapPage)
    | CardinalityOutput(cardinality: nat)
    | NoOutput

  datatype ErrorKind =
    | Unauthorized
    | KeyspaceVersionMismatch
    | Timeout
    | Internal
    | InvalidArgument
    | Transport
    | Unknown

  datatype Error = Error(kind: ErrorKind, message: Option<string>)

  type Response = Result<Output, Error>

  datatype Operation =
    | Get(key: seq<byte>)
    | Set(key: seq<byte>, record: Record)
    | Del(key: seq<byte>, version: Context.Micros)
    | GetExp(key: seq<byte>)
    | SetExp(key: seq<byte>, expiration: Context.Secs, version: Context.Micros)
    | HGet(key: seq<byte>, field: Field)
    | HSet(key: seq<byte>, entry: MapEntry)
    | HDel(key: seq<byte>, field: Field, version: Context.Micros)
    | HGetExp(key: seq<byte>, field: Field)
    | HSetExp(key: seq<byte>, field: Field, expiration: Context.Secs, version: Context.Micros)
    | HCard(key: seq<byte>)
    | HScan(key: seq<byte>, count: nat, cursor: Option<Field>)
  {
    predicate IsWrite() {
      Set? || Del? || SetExp? || HSet? || HDel? || HSetExp?
    }
  }
}
