/** What the server puts on the wire and what it reads from it. Sockets are
    abstract integer handles; every `send` and `close` the server performs is
    one entry of an output log. */
module Wire {

  /** One byte of `char buffer[BUFFER_SIZE]`. */
  newtype byte = x: int | 0 <= x < 256

  const NEWLINE: byte := 10
  const BUFFER_SIZE: nat := 1024
  const MAX_CLIENTS: nat := 6

  const SERVER_FULL: string := "server full\n"
  const THANK_YOU: string := "Thank you\n"

  /** One system call the server makes on a socket, in the order it makes them. */
  datatype Event =
    | Send(socket: int, data: string)   // send(socket, data, |data|, 0), whether or not it succeeds
    | Close(socket: int)                // close(socket) on a client connection
    | CloseListener                     // close(server_fd)

  /** The outcome of one `select` on a client socket with a one-second timeout,
      followed by `recv` when it reports the socket readable. `valread` is what
      `recv` returned (-1 on error, 0 when the peer has closed) and `buffer`
      the whole receive buffer, of which only `buffer[..valread]` was written. */
  datatype Poll =
    | Idle
    | Readable(valread: int, buffer: seq<byte>)

  /** The bytes a poll hands to the newline scan: `buffer[0..valread)` when
      `recv` returned a positive count, nothing otherwise. */
  function Received(p: Poll): seq<byte>
    requires PollWellFormed(p)
  {
    if p.Readable? && p.valread > 0 then p.buffer[..p.valread] else []
  }

  /** The outcome of one `select` on the listening socket with a one-second
      timeout, followed by `accept` when a connection is pending; `clientSocket`
      is what `accept` returned (negative on failure). */
  datatype Incoming =
    | NoConnection
    | Accepted(clientSocket: int)

  /** What `recv` can return for a buffer of BUFFER_SIZE bytes. */
  predicate PollWellFormed(p: Poll)
  {
    p.Readable? ==> |p.buffer| == BUFFER_SIZE && -1 <= p.valread <= BUFFER_SIZE
  }

  function DigitChar(d: nat): (c: char)
    requires d < 10
    ensures '0' <= c <= '9'
  {
    "0123456789"[d]
  }

  /** `std::to_string` of a non-negative integer. */
  function ToDecimal(n: nat): (s: string)
    ensures |s| >= 1
    ensures forall i :: 0 <= i < |s| ==> '0' <= s[i] <= '9'
  {
    if n < 10 then [DigitChar(n)] else ToDecimal(n / 10) + [DigitChar(n % 10)]
  }

  /** `std::to_string(value) + "\n"`: the token line and the member-count line. */
  function Line(value: nat): (s: string)
    ensures |s| >= 2 && s[|s| - 1] == '\n'
    ensures forall i :: 0 <= i < |s| - 1 ==> s[i] != '\n'
  {
    ToDecimal(value) + "\n"
  }
}
