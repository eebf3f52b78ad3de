/**
 * Loosely-typed remote records as the PlanetLab XML-RPC interface returns
 * them, Python truthiness over their values, and the errors the client and
 * the slice-population pipeline raise.
 */
module Records {

  /** A field value of a remote record; only the shapes the client tells apart. */
  datatype Value = Null | Int(i: int) | Str(s: string) | List(items: seq<Value>)

  /** A remote record: field name to value. */
  type Record = map<string, Value>

  datatype Option<T> = None | Some(value: T)

  /** Python truthiness: None, 0, "" and [] are false, every other value is true. */
  predicate Truthy(v: Value) {
    match v
    case Null => false
    case Int(i) => i != 0
    case Str(s) => s != ""
    case List(items) => items != []
  }

  /** A read through a default dictionary whose default is None. */
  function Lookup(rec: Record, key: string): Value {
    if key in rec then rec[key] else Null
  }

  /** The exceptions raised by the client and by the pipeline. */
  datatype Error =
    | MissingField(key: string)               // KeyError while building a Slice
    | BadTimestamp(key: string)               // TypeError from utcfromtimestamp on a non-number
    | BadFormat                               // TypeError from `%d` or `len` in a report line
    | UnhashableSite                          // TypeError from a list used as a dictionary key
    | RemoteFault(code: int, message: string) // an XML-RPC fault from any remote call
    | NoSliceFound                            // GetSlices answered no record
    | SeveralSlicesFound                      // GetSlices answered more than one record
    | RenewRejected                           // UpdateSlice did not answer 1 to a renewal
    | ResizeRejected                          // UpdateSlice did not answer 1 to a resize
    | AddRejected                             // UpdateSlice did not answer 1 to a node addition
    | NonPositiveSize                         // resize to a size <= 0
    | EmptyNodeList                           // addition of no nodes
    | SliceTooSmall                           // selection larger than the slice's capacity

  datatype Result<T> = Ok(value: T) | Err(error: Error)
}
