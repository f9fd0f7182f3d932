/** What the components share: optional values, request ids and accepted calls. */
module Requests {

  datatype Option<+T> = None | Some(value: T)

  /** A JSON-RPC request id: the client chooses it and the server echoes it. */
  datatype JsonId = NullId | NumberId(n: int) | TextId(s: string)

  /** A call the server accepted.  `serial` is its arrival number: the server
      itself knows only `id`, which a client may reuse, so the serial is what
      tells two calls apart in statements about whole runs. */
  datatype Call = Call(serial: nat, id: JsonId)

  lemma Assoc<T>(a: seq<T>, b: seq<T>, c: seq<T>)
    ensures a + (b + c) == (a + b) + c
  {
  }
}
