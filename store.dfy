/**
 * The object store as the handlers see it: the metadata StatObject
 * returns, the calls a handler makes, and the entries ListObjects
 * produces. The store itself is not modelled; what it answers is an input.
 */
module Store {
  import opened Wrappers
  import opened GoLib
  import Http

  /** minio.ObjectInfo, the fields the handlers read; lastModified in nanoseconds since the epoch. */
  datatype ObjectInfo = ObjectInfo(size: int64, etag: string, lastModified: int)

  /** The outcome of StatObject: the metadata, or an error of any cause. */
  datatype StatResult = StatOk(info: ObjectInfo) | StatErr(cause: string)

  /** A call a handler makes on the store. */
  datatype StoreCall =
    | Stat(bucket: string, key: string)
    | GetWhole(bucket: string, key: string)
    | GetRange(bucket: string, key: string, start: int64, end: int64)  // both bounds inclusive

  /** One value received from the ListObjects channel; err is its Err field. */
  datatype ListEntry = ListEntry(key: string, size: int64, err: Option<string>)

  /** What one request handler does: the response it sends and the store calls it makes, in order. */
  datatype Exchange = Exchange(response: Http.Response, calls: seq<StoreCall>)
}
