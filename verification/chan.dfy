/** The observable history of a Go channel written by one producer: the values sent, in
    order, and whether it has been closed. Sending on a closed channel and closing a closed
    channel both panic in Go, so both operations require an open channel. */
module Chan {

  datatype Channel<T> = Channel(sent: seq<T>, closed: bool)

  function Open<T>(): (ch: Channel<T>)
    ensures ch.sent == [] && !ch.closed
  {
    Channel([], false)
  }

  /** `ch <- x` */
  function Send<T>(ch: Channel<T>, x: T): (r: Channel<T>)
    requires !ch.closed
    ensures r.sent == ch.sent + [x] && !r.closed
  {
    Channel(ch.sent + [x], false)
  }

  /** `close(ch)` */
  function Close<T>(ch: Channel<T>): (r: Channel<T>)
    requires !ch.closed
    ensures r.sent == ch.sent && r.closed
  {
    Channel(ch.sent, true)
  }
}
