/** The traceroute tool's receiver: it classifies what one wait on the raw
    socket produced by the ICMP type of the datagram that arrived. */
module Traceroute {
  import opened IcmpWire
  import opened Transport

  /** The outcome of traceroute's `receive_icmp_reply`.
      `Code` is what the C function returns, with its out-parameters: the RTT
      it writes through `rtt` and the sender it writes into `sender_ip` (None
      where it leaves them untouched).
      `ShortRead` is this model's outcome for a datagram too short to hold the
      byte the C code reads as the ICMP type; the C code reads it anyway,
      beyond the received bytes. */
  datatype Classification =
    | Code(code: int, rtt: Option<real>, sender: Option<SenderAddress>)
    | ShortRead(rttMs: real)

  /** The type value that means Echo Reply for `protocol` (RFC 792, RFC 4443 section 4.2). */
  function EchoReplyType(protocol: int): Byte
  {
    if protocol == 4 then IcmpEchoReply else Icmp6EchoReply
  }

  /** The type value that means Time Exceeded (RFC 792, RFC 4443 section 3.3). */
  function TimeExceededType(protocol: int): Byte
  {
    if protocol == 4 then IcmpTimeExceeded else Icmp6TimeExceeded
  }

  /** Where the ICMP header starts: for IPv4 after the IP header of `ihl`
      32-bit words, `ihl` being the low nibble of byte 0; for IPv6 at 0. */
  function IcmpOffset(protocol: int, data: seq<Byte>): (offset: nat)
    requires |data| > 0
    ensures protocol == 4 ==> offset % 4 == 0 && offset <= 60
    ensures protocol != 4 ==> offset == 0
  {
    if protocol == 4 then (data[0] % 16) * 4 else 0
  }

  /** The received bytes include the ICMP type byte the code reads. */
  predicate TypeByteReceived(protocol: int, data: seq<Byte>)
  {
    |data| > 0 && IcmpOffset(protocol, data) < |data|
  }

  /** The ICMP type byte the code reads. */
  function IcmpType(protocol: int, data: seq<Byte>): Byte
    requires TypeByteReceived(protocol, data)
  {
    data[IcmpOffset(protocol, data)]
  }

  /** The type byte read is the first byte of the ICMP message: after an IPv4
      header whose length field matches its length, and at the start of an
      ICMPv6 datagram. */
  lemma {:induction false} IcmpTypeAfterHeader(ipHeader: seq<Byte>, icmp: seq<Byte>)
    requires |ipHeader| > 0 && |ipHeader| == (ipHeader[0] % 16) * 4 && |icmp| > 0
    ensures TypeByteReceived(4, ipHeader + icmp) && IcmpType(4, ipHeader + icmp) == icmp[0]
    ensures TypeByteReceived(6, icmp) && IcmpType(6, icmp) == icmp[0]
  {
    assert (ipHeader + icmp)[0] == ipHeader[0];
    assert (ipHeader + icmp)[|ipHeader|] == icmp[0];
  }

  /** A datagram arrived for protocol 4 or 6, the type byte lies within it and
      has value `t`. */
  predicate ReadType(protocol: int, w: WaitEvent, t: Byte)
  {
    Arrived(w) && (protocol == 4 || protocol == 6)
    && TypeByteReceived(protocol, w.recv.data) && IcmpType(protocol, w.recv.data) == t
  }

  /** traceroute's `receive_icmp_reply`: -1 for a failed `poll` or `recvfrom`,
      0 for a timeout, 2 for an Echo Reply, 1 for a Time Exceeded, and 0 for
      any other datagram. */
  function ReceiveIcmpReply(protocol: int, w: WaitEvent): (c: Classification)
    ensures c.Code? ==> c.code == -1 || c.code == 0 || c.code == 1 || c.code == 2
    ensures w.pollRet == 0 ==> c == Code(0, None, None)
    ensures Failed(w) ==> c == Code(-1, None, None)
    ensures c.Code? && c.code == -1 <==> Failed(w)
    ensures c.Code? && c.code == 2 <==> ReadType(protocol, w, EchoReplyType(protocol))
    ensures c.Code? && c.code == 1 <==> ReadType(protocol, w, TimeExceededType(protocol))
    ensures c.Code? && c.code == 0 <==>
              w.pollRet == 0
              || (Arrived(w) && protocol != 4 && protocol != 6)
              || (Arrived(w) && (protocol == 4 || protocol == 6) && TypeByteReceived(protocol, w.recv.data)
                  && IcmpType(protocol, w.recv.data) != EchoReplyType(protocol)
                  && IcmpType(protocol, w.recv.data) != TimeExceededType(protocol))
    ensures c.ShortRead? <==>
              Arrived(w) && (protocol == 4 || protocol == 6) && !TypeByteReceived(protocol, w.recv.data)
    ensures c.Code? ==> (c.sender.Some? <==> c.code == 1 || c.code == 2)
    ensures c.Code? && c.sender.Some? ==> c.sender.value == w.recv.sender
    ensures c.Code? ==> c.rtt == (if Arrived(w) then Some(w.elapsedMs) else None)
    ensures c.ShortRead? ==> c.rttMs == w.elapsedMs
  {
    if w.pollRet == 0 then Code(0, None, None)
    else if w.pollRet < 0 then Code(-1, None, None)
    else match w.recv
      case RecvFailed => Code(-1, None, None)
      case Received(data, sender) =>
        var rtt := Some(w.elapsedMs);
        if protocol != 4 && protocol != 6 then Code(0, rtt, None)
        else if !TypeByteReceived(protocol, data) then ShortRead(w.elapsedMs)
        else
          var t := IcmpType(protocol, data);
          if t == EchoReplyType(protocol) || t == TimeExceededType(protocol) then
            Code(if t == EchoReplyType(protocol) then 2 else 1, rtt, Some(sender))
          else
            Code(0, rtt, None)
  }

  /** Only the type byte matters: two arrivals with the same sender, elapsed
      time and type byte are classified alike, whatever their other bytes
      (code, identifier, sequence, payload). */
  lemma OnlyTheTypeByteMatters(protocol: int, w1: WaitEvent, w2: WaitEvent)
    requires Arrived(w1) && Arrived(w2)
    requires w1.recv.sender == w2.recv.sender && w1.elapsedMs == w2.elapsedMs
    requires TypeByteReceived(protocol, w1.recv.data) && TypeByteReceived(protocol, w2.recv.data)
    requires IcmpType(protocol, w1.recv.data) == IcmpType(protocol, w2.recv.data)
    ensures ReceiveIcmpReply(protocol, w1) == ReceiveIcmpReply(protocol, w2)
  {
  }

  /** For an IPv4 datagram made of an IP header whose length field matches its
      length, followed by an ICMP message, the classification is decided by
      the first byte of that ICMP message. */
  lemma {:induction false} IPv4HeaderIsSkipped(ipHeader: seq<Byte>, icmp: seq<Byte>, w: WaitEvent)
    requires |ipHeader| > 0 && |ipHeader| == (ipHeader[0] % 16) * 4
    requires |icmp| > 0
    requires Arrived(w) && w.recv.data == ipHeader + icmp
    ensures ReceiveIcmpReply(4, w).Code?
    ensures ReceiveIcmpReply(4, w).code
         == (if icmp[0] == IcmpEchoReply then 2 else if icmp[0] == IcmpTimeExceeded then 1 else 0)
  {
    var data := w.recv.data;
    assert data[0] == ipHeader[0];
    assert IcmpOffset(4, data) == |ipHeader|;
    assert data[|ipHeader|] == icmp[0];
  }

  /** No byte is inspected when `poll` or `recvfrom` fails: the outcome is -1
      whatever the receive buffer holds. */
  lemma FailureBeforeAnyByte(protocol: int, w: WaitEvent, data: seq<Byte>, sender: SenderAddress)
    requires w.pollRet < 0
    ensures ReceiveIcmpReply(protocol, w) == ReceiveIcmpReply(protocol, w.(recv := Received(data, sender)))
    ensures ReceiveIcmpReply(protocol, w) == Code(-1, None, None)
  {
  }
}
