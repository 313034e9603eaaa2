/** Values shared by the components of the SOA-serial checker: the typed
    summary of a DNS response, what one transport call can deliver, and the
    ways the process can stop early. */
module Types {

  datatype Option<+T> = None | Some(value: T)

  datatype Result<+T, +E> = Ok(value: T) | Err(error: E)

  /** The SERIAL field of an SOA record: an unsigned 32-bit number
      (section 3.3.13 of RFC 1035). The checker only subtracts and compares
      serials as plain integers; it never applies serial-number arithmetic. */
  type Serial = n: int | 0 <= n < 0x1_0000_0000

  /** A nameserver address in text form, as the system resolver returns it.
      Resolution never yields an empty string, so an address is always truthy. */
  type Address = s: string | s != [] witness "0"

  /** RCODE 0, "No error condition" (section 4.1.1 of RFC 1035). */
  const NOERROR: nat := 0

  /** One RRset of the answer section, reduced to what the checker reads.
      An SOA RRset carries the serial of each of its records, in order; a
      decoded RRset always holds at least one record, so `first` is the serial
      of record 0. Any other RRset is known only by its type code, which is never
      the SOA code. */
  datatype RRset = SoaRRset(first: Serial, rest: seq<Serial>) | OtherRRset(rdtype: NonSoaType)

  /** The SOA type code (section 3.2.2 of RFC 1035). */
  const SOA_TYPE: nat := 6

  /** The type code of an RRset that is not an SOA RRset. */
  type NonSoaType = t: nat | t != SOA_TYPE witness 1

  /** A decoded response: RCODE, the AA and TC header bits (section 4.1.1 of
      RFC 1035) and the answer section. */
  datatype Message = Message(rcode: nat, aa: bool, tc: bool, answer: seq<RRset>)

  /** The outcome of one call of the DNS library's UDP or TCP query: it timed
      out, it returned a response, or it raised a socket error. */
  datatype Attempt = Timeout | Reply(msg: Message) | SocketError

  /** What a send routine hands back to its caller: a response, nothing (the
      source's None), or a socket error that propagates out of it. */
  datatype Sent = Answer(msg: Message) | NoAnswer | SocketRaised

  /** How the process can end: `sys.exit(code)`, or an uncaught IndexError
      from indexing an empty list. */
  datatype Stop = SysExit(code: int) | IndexError
}
