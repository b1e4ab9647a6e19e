/** The Echo Request datagram that `send_icmp_request` builds in a zeroed
    64-byte buffer: the ICMP Echo message of RFC 792 for IPv4, with its
    checksum, and the ICMPv6 Echo Request of RFC 4443 section 4.1 for IPv6,
    whose checksum field is left at 0 for the kernel. */
module EchoRequest {
  import opened IcmpWire
  import opened InternetChecksum

  /** The buffer as it stands before the checksum is computed: type, code 0,
      checksum 0, identifier and sequence in network order, zero payload. */
  function Unchecked(msgType: Byte, id: int, sequence: int): seq<Byte>
  {
    [msgType, 0, 0, 0, HighByte(U16(id)), LowByte(U16(id)), HighByte(U16(sequence)), LowByte(U16(sequence))]
    + Zeros(EchoBufferSize - 8)
  }

  /** The 64 bytes handed to `sendto` for `protocol` (4 means IPv4, anything
      else IPv6), identifier `id` and sequence number `sequence`. */
  function EchoRequestPacket(protocol: int, id: int, sequence: int): (p: seq<Byte>)
    ensures |p| == EchoBufferSize
    ensures p[0] == (if protocol == 4 then IcmpEcho else Icmp6EchoRequest) && p[1] == 0
    ensures Be16(p[4], p[5]) == id % 0x1_0000 && Be16(p[6], p[7]) == sequence % 0x1_0000
    ensures forall i :: 8 <= i < |p| ==> p[i] == 0
    ensures protocol == 4 ==> Be16(p[2], p[3]) == ChecksumOf(p[2 := 0][3 := 0]) && ChecksumOf(p) == 0
    ensures protocol != 4 ==> p[2] == 0 && p[3] == 0
  {
    if protocol == 4 then
      var u := Unchecked(IcmpEcho, id, sequence);
      var c := ChecksumOf(u);
      ChecksumVerifies(u, 2);
      Be16Split(c);
      var p := u[2 := HighByte(c)][3 := LowByte(c)];
      assert p[2 := 0][3 := 0] == u;
      p
    else
      Unchecked(Icmp6EchoRequest, id, sequence)
  }

  /** `send_icmp_request` up to the `sendto`: the datagram it transmits. */
  method SendIcmpRequest(protocol: int, id: int, sequence: int) returns (buffer: array<Byte>)
    ensures fresh(buffer)
    ensures buffer[..] == EchoRequestPacket(protocol, id, sequence)
  {
    buffer := new Byte[EchoBufferSize](_ => 0);
    var msgType := if protocol == 4 then IcmpEcho else Icmp6EchoRequest;
    buffer[0] := msgType;
    buffer[1] := 0;
    buffer[2], buffer[3] := 0, 0;
    buffer[4], buffer[5] := HighByte(U16(id)), LowByte(U16(id));
    buffer[6], buffer[7] := HighByte(U16(sequence)), LowByte(U16(sequence));
    assert buffer[..] == Unchecked(msgType, id, sequence);
    if protocol == 4 {
      var cs := Checksum(buffer, buffer.Length);
      assert buffer[..buffer.Length] == buffer[..];
      buffer[2], buffer[3] := HighByte(cs), LowByte(cs);
    }
  }

  /** Clearing the checksum field of an IPv4 request gives back the buffer
      the checksum was computed over. */
  lemma ClearedChecksumField(id: int, sequence: int)
    ensures EchoRequestPacket(4, id, sequence)[2 := 0][3 := 0] == Unchecked(IcmpEcho, id, sequence)
  {
    var u := Unchecked(IcmpEcho, id, sequence);
    var c := ChecksumOf(u);
    var p: seq<Byte> := u[2 := HighByte(c)][3 := LowByte(c)];
    assert EchoRequestPacket(4, id, sequence) == p;
  }

  /** Before the checksum is written only the type byte, the identifier and
      the sequence number contribute to the word sum. */
  lemma UncheckedSum(msgType: Byte, id: int, sequence: int)
    ensures SumWords(Unchecked(msgType, id, sequence)) == Be16(msgType, 0) + U16(id) + U16(sequence)
  {
    var hId, lId, hSeq, lSeq := HighByte(U16(id)), LowByte(U16(id)), HighByte(U16(sequence)), LowByte(U16(sequence));
    var z := Zeros(EchoBufferSize - 8);
    var w3 := [hSeq, lSeq] + z;
    var w2 := [hId, lId] + w3;
    var w1 := [0, 0] + w2;
    assert Unchecked(msgType, id, sequence) == [msgType, 0] + w1;
    SumWordsPrefix(msgType, 0, w1);
    SumWordsPrefix(0, 0, w2);
    SumWordsPrefix(hId, lId, w3);
    SumWordsPrefix(hSeq, lSeq, z);
    SumWordsZeroIff(z);
    Be16Split(U16(id));
    Be16Split(U16(sequence));
  }

  /** The checksum of an IPv4 request in closed form: the complement of the
      folded sum of 0x0800, the identifier and the sequence number. */
  lemma EchoChecksumValue(id: int, sequence: int)
    ensures Be16(EchoRequestPacket(4, id, sequence)[2], EchoRequestPacket(4, id, sequence)[3])
         == M - OnesComplementSum(0x0800 + id % 0x1_0000 + sequence % 0x1_0000)
  {
    var u := Unchecked(IcmpEcho, id, sequence);
    ChecksumFieldBytes(id, sequence);
    Be16Split(ChecksumOf(u));
    UncheckedSum(IcmpEcho, id, sequence);
    ChecksumOfSum(u, 0x0800 + id % 0x1_0000 + sequence % 0x1_0000);
  }

  /** The checksum field of an IPv4 request holds the checksum of the buffer
      it was computed over, high byte first. */
  lemma ChecksumFieldBytes(id: int, sequence: int)
    ensures EchoRequestPacket(4, id, sequence)[2] == HighByte(ChecksumOf(Unchecked(IcmpEcho, id, sequence)))
    ensures EchoRequestPacket(4, id, sequence)[3] == LowByte(ChecksumOf(Unchecked(IcmpEcho, id, sequence)))
  {
    var u := Unchecked(IcmpEcho, id, sequence);
    var c := ChecksumOf(u);
    var p: seq<Byte> := u[2 := HighByte(c)][3 := LowByte(c)];
    assert EchoRequestPacket(4, id, sequence) == p;
  }

  /** The header fields a receiver reads back from an echo message. */
  datatype EchoHeader = EchoHeader(msgType: Byte, code: Byte, checksum: nat, identifier: nat, sequence: nat)

  /** Reads the first eight bytes as an echo header; too short a buffer has none. */
  function ParseEchoHeader(p: seq<Byte>): (h: Option<EchoHeader>)
    ensures h.Some? <==> |p| >= 8
  {
    if |p| < 8 then None
    else Some(EchoHeader(p[0], p[1], Be16(p[2], p[3]), Be16(p[4], p[5]), Be16(p[6], p[7])))
  }

  /** Identifier and sequence number come back from the built datagram as the
      16-bit values that were written. */
  lemma EchoFieldsRoundTrip(protocol: int, id: int, sequence: int)
    ensures ParseEchoHeader(EchoRequestPacket(protocol, id, sequence))
         == Some(EchoHeader(
              if protocol == 4 then IcmpEcho else Icmp6EchoRequest, 0,
              if protocol == 4 then ChecksumOf(Unchecked(IcmpEcho, id, sequence)) else 0,
              id % 0x1_0000, sequence % 0x1_0000))
  {
    if protocol == 4 {
      ClearedChecksumField(id, sequence);
    }
  }

  /** Sequence numbers wrap at 65536: sequences that differ by 65536 give the
      same datagram. */
  lemma SequenceWraps(protocol: int, id: int, sequence: int)
    ensures EchoRequestPacket(protocol, id, sequence + 0x1_0000) == EchoRequestPacket(protocol, id, sequence)
  {
    assert U16(sequence + 0x1_0000) == U16(sequence);
    assert Unchecked(IcmpEcho, id, sequence + 0x1_0000) == Unchecked(IcmpEcho, id, sequence);
    assert Unchecked(Icmp6EchoRequest, id, sequence + 0x1_0000) == Unchecked(Icmp6EchoRequest, id, sequence);
  }
}
