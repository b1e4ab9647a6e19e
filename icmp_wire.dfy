/** Byte-level vocabulary shared by the ping and traceroute probes: octets,
    16-bit big-endian fields, and the ICMP and ICMPv6 message types the two
    tools send and recognise. */
module IcmpWire {

  /** One octet of a datagram buffer, read as an unsigned value. */
  type Byte = b: int | 0 <= b < 256

  datatype Option<+T> = None | Some(value: T)

  /** Size of the echo-request buffer both tools fill and send. */
  const EchoBufferSize: nat := 64

  /** ICMP message types, RFC 792. */
  const IcmpEchoReply: Byte := 0
  const IcmpEcho: Byte := 8
  const IcmpTimeExceeded: Byte := 11

  /** ICMPv6 message types, RFC 4443 sections 3.3, 4.1 and 4.2. */
  const Icmp6TimeExceeded: Byte := 3
  const Icmp6EchoRequest: Byte := 128
  const Icmp6EchoReply: Byte := 129

  /** The value of the 16-bit word whose bytes are `hi`, `lo` in network order. */
  function Be16(hi: Byte, lo: Byte): nat
  {
    hi * 256 + lo
  }

  /** `htons` applied to a C `int`: the conversion to `uint16_t` keeps the value modulo 2^16. */
  function U16(x: int): (r: nat)
    ensures r < 0x1_0000
    ensures (x - r) % 0x1_0000 == 0
    ensures 0 <= x < 0x1_0000 ==> r == x
  {
    x % 0x1_0000
  }

  function HighByte(w: nat): Byte
    requires w < 0x1_0000
  {
    w / 256
  }

  function LowByte(w: nat): Byte
  {
    w % 256
  }

  /** `memset(buffer, 0, n)` */
  function Zeros(n: nat): (z: seq<Byte>)
    ensures |z| == n
    ensures forall i :: 0 <= i < n ==> z[i] == 0
  {
    seq<Byte>(n, _ => 0)
  }
}

/** What the operating system hands back to a receiver: the outcome of one
    `poll` on the raw socket, of the `recvfrom` that follows it, and the
    monotonic-clock time the wait took. */
module Transport {
  import opened IcmpWire

  /** The sender's socket address as `recvfrom` reports it; rendering it as
      text (`inet_ntop`) is not modelled. */
  datatype SenderAddress = SenderAddress(octets: seq<Byte>)

  /** What `recvfrom` did: failed (a negative return), or stored `data` in
      the receive buffer and reported `sender`. */
  datatype RecvResult = RecvFailed | Received(data: seq<Byte>, sender: SenderAddress)

  /** One wait for a reply: `pollRet` is `poll`'s return value (0 on timeout,
      negative on error, positive when the socket is readable); `recv` is what
      `recvfrom` does if it is called; `elapsedMs` is the measured wait in
      milliseconds. */
  datatype WaitEvent = WaitEvent(pollRet: int, recv: RecvResult, elapsedMs: real)

  /** The socket became readable and `recvfrom` returned a datagram. */
  predicate Arrived(w: WaitEvent)
  {
    w.pollRet > 0 && w.recv.Received?
  }

  /** `poll` failed, or `recvfrom` failed after a successful `poll`. */
  predicate Failed(w: WaitEvent)
  {
    w.pollRet < 0 || (w.pollRet > 0 && w.recv.RecvFailed?)
  }
}
