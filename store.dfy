/** Shared value types: optional values, raw bytes and the on-disk host documents. */
module Store {

  datatype Option<T> = None | Some(value: T)

  newtype byte = b: int | 0 <= b < 256

  type Bytes = seq<byte>

  /** A YAML host document as the loader finds it: absent, unreadable or unparsable
      documents are all `Unreadable`. */
  datatype Document<T> = Unreadable | Stored(hosts: seq<T>)

  /** Loading never fails: a document that cannot be read loads as an empty host list. */
  function Load<T>(doc: Document<T>): (hosts: seq<T>)
    ensures doc.Unreadable? ==> hosts == []
    ensures doc.Stored? ==> hosts == doc.hosts
  {
    if doc.Stored? then doc.hosts else []
  }
}
