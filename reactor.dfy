/**
 * The parts of the mio reactor the server talks to: readiness kinds, event
 * sets, tokens and the outcome of a non-blocking accept.
 */
module Reactor {
  /** The two readiness kinds the program uses (mio `EventSet::readable()` / `writable()`). */
  datatype Event = Readable | Writable

  /** An `EventSet`: both a readiness notification and a connection's interest. */
  type EventSet = set<Event>

  /** mio `Token(usize)`: the handle under which a socket is registered. */
  datatype Token = Token(index: nat)

  /** The largest `usize` on a 64-bit target. */
  const UsizeMax: nat := 0xFFFF_FFFF_FFFF_FFFF

  /** What `TcpListener::accept` returned: `Err(e)`, `Ok(None)` or `Ok(Some(socket))`. */
  datatype AcceptResult = AcceptError | NoPending | Accepted
}
